/**
 * The transform step (transform.py): sort by (country, date), then for each
 * country's rows compute day-over-day deltas, the growth rate and the
 * trailing 7-row means.
 *
 * Each pandas column expression over one country's rows is a pure function on
 * sequences here; the per-country `groupby` is the split of the sorted table
 * into runs of one country (DeriveAll).
 */
module Transform {
  import opened Wrappers
  import opened Rounding
  import opened Sorting
  import opened Records

  function CasesColumn(g: seq<RawRow>): seq<int> {
    seq(|g|, i requires 0 <= i < |g| => g[i].cases)
  }

  function DeathsColumn(g: seq<RawRow>): seq<int> {
    seq(|g|, i requires 0 <= i < |g| => g[i].deaths)
  }

  function RecoveredColumn(g: seq<RawRow>): seq<int> {
    seq(|g|, i requires 0 <= i < |g| => g[i].recovered)
  }

  function Sum(xs: seq<int>): int {
    if xs == [] then 0 else Sum(xs[..|xs| - 1]) + xs[|xs| - 1]
  }

  lemma {:induction false} SumHead(xs: seq<int>)
    requires xs != []
    ensures Sum(xs) == xs[0] + Sum(xs[1..])
  {
    if |xs| > 1 {
      var init := xs[..|xs| - 1];
      SumHead(init);
      assert init[1..] == xs[1..][..|xs[1..]| - 1];
    } else {
      assert xs[..0] == [] && xs[1..] == [];
    }
  }

  /** `Sum(xs[a..b + 1]) == Sum(xs[a..b]) + xs[b]`. */
  lemma SumExtend(xs: seq<int>, a: nat, b: nat)
    requires a <= b < |xs|
    ensures Sum(xs[a..b + 1]) == Sum(xs[a..b]) + xs[b]
  {
    assert xs[a..b + 1][..b - a] == xs[a..b];
  }

  /** `Sum(xs[a..b]) == xs[a] + Sum(xs[a + 1..b])`. */
  lemma SumDrop(xs: seq<int>, a: nat, b: nat)
    requires a < b <= |xs|
    ensures Sum(xs[a..b]) == xs[a] + Sum(xs[a + 1..b])
  {
    SumHead(xs[a..b]);
    assert xs[a..b][1..] == xs[a + 1..b];
  }

  /** A sum of values between `lo` and `hi` lies between `lo` and `hi` times the count. */
  lemma {:induction false} SumBounds(xs: seq<int>, lo: int, hi: int)
    requires forall k :: 0 <= k < |xs| ==> lo <= xs[k] <= hi
    ensures lo * |xs| <= Sum(xs) <= hi * |xs|
  {
    if xs != [] {
      var n := |xs| - 1;
      var init := xs[..n];
      assert forall k :: 0 <= k < |init| ==> init[k] == xs[k];
      SumBounds(init, lo, hi);
      assert Sum(xs) == Sum(init) + xs[n];
      assert lo * n <= Sum(init) <= hi * n;
      Distribute(n, 1, lo);
      Distribute(n, 1, hi);
      assert lo * |xs| == lo * n + lo && hi * |xs| == hi * n + hi;
    }
  }

  // ----- diff().fillna(0) -----

  /**
   * The day-over-day delta of a cumulative column: `diff()` leaves the first
   * row without a predecessor (NaN), and `fillna(0)` makes it 0.
   */
  function Diff(xs: seq<int>): (d: seq<int>)
    ensures |d| == |xs|
  {
    seq(|xs|, i requires 0 <= i < |xs| => if i == 0 then 0 else xs[i] - xs[i - 1])
  }

  /**
   * The deltas add back up to the cumulative series: the first value plus the
   * deltas up to row `i` is the value at row `i`.
   */
  lemma {:induction false} DiffTelescopes(xs: seq<int>, i: nat)
    requires i < |xs|
    ensures xs[0] + Sum(Diff(xs)[..i + 1]) == xs[i]
  {
    var d := Diff(xs);
    if i > 0 {
      DiffTelescopes(xs, i - 1);
      assert d[..i + 1][..i] == d[..i];
    } else {
      assert d[..1][..0] == [];
    }
  }

  // ----- growth rate -----

  /** A float64 quotient as pandas can produce it: finite, infinite or NaN. */
  datatype Quotient = Finite(num: int, den: int) | PosInf | NegInf | NaN

  /** `cases.shift(1)`: the previous row's value, absent (NaN) on the first row. */
  function Shift(xs: seq<int>, i: nat): Option<int>
    requires i < |xs|
  {
    if i == 0 then None else Some(xs[i - 1])
  }

  /** `new_cases / shifted cases` in IEEE 754 terms. */
  function Divide(n: int, prev: Option<int>): (q: Quotient)
    ensures q.Finite? ==> q.den != 0
  {
    match prev
    case None => NaN
    case Some(p) =>
      if p != 0 then Finite(n, p)
      else if n > 0 then PosInf
      else if n < 0 then NegInf
      else NaN
  }

  /**
   * `replace([inf, -inf], 0)`, then `fillna(0) * 100`, then `round(2)`:
   * the growth rate in hundredths of a percent.
   */
  function GrowthHundredths(q: Quotient): int
    requires q.Finite? ==> q.den != 0
  {
    match q
    case PosInf => 0
    case NegInf => 0
    case NaN => 0
    case Finite(n, d) => RoundHalfEven(n * 10000, d)
  }

  function GrowthColumn(newCases: seq<int>, cases: seq<int>): (r: seq<int>)
    requires |newCases| == |cases|
    ensures |r| == |cases|
  {
    seq(|cases|, i requires 0 <= i < |cases| => GrowthHundredths(Divide(newCases[i], Shift(cases, i))))
  }

  /**
   * The growth rate is 0 on the first row and wherever the previous cumulative
   * count is 0 (whether the division gave an infinity or NaN); otherwise it is
   * 100 * new / previous, rounded half to even to 2 decimals.
   */
  lemma GrowthClosedForm(newCases: seq<int>, cases: seq<int>, i: nat)
    requires |newCases| == |cases| && i < |cases|
    ensures GrowthColumn(newCases, cases)[i]
         == if i == 0 || cases[i - 1] == 0 then 0 else RoundHalfEven(newCases[i] * 10000, cases[i - 1])
  {}

  // ----- rolling(7, min_periods=1).mean(), round(0) -----

  /** The first row of the trailing window ending at row `i`: at most 7 rows, fewer at the start. */
  function WindowStart(i: nat): (lo: nat)
    ensures lo <= i && i + 1 - lo == if i < 7 then i + 1 else 7
  {
    if i < 6 then 0 else i - 6
  }

  /** The trailing 7-row mean of `xs`, shrinking to `i + 1` rows at the start, rounded half to even. */
  function Rolling7(xs: seq<int>): (m: seq<int>)
    ensures |m| == |xs|
  {
    seq(|xs|, i requires 0 <= i < |xs| =>
      RoundHalfEven(Sum(xs[WindowStart(i)..i + 1]), i + 1 - WindowStart(i)))
  }

  /** The rounded mean never leaves the range of the values in its window. */
  lemma RollingBounds(xs: seq<int>, i: nat, lo: int, hi: int)
    requires i < |xs|
    requires forall k :: WindowStart(i) <= k <= i ==> lo <= xs[k] <= hi
    ensures lo <= Rolling7(xs)[i] <= hi
  {
    var w := xs[WindowStart(i)..i + 1];
    assert forall k :: 0 <= k < |w| ==> w[k] == xs[WindowStart(i) + k];
    SumBounds(w, lo, hi);
    RoundHalfEvenBetween(Sum(w), |w|, lo, hi);
  }

  /**
   * The rolling means computed in one pass with a running window sum, as
   * pandas' rolling aggregation does, filling an output array.
   */
  method RollingMeans(xs: seq<int>) returns (m: array<int>)
    ensures fresh(m)
    ensures m.Length == |xs|
    ensures m[..] == Rolling7(xs)
  {
    m := new int[|xs|];
    var acc := 0;
    var i := 0;
    while i < |xs|
      invariant 0 <= i <= |xs|
      invariant acc == Sum(xs[WindowStart(i)..i])
      invariant forall k :: 0 <= k < i ==> m[k] == Rolling7(xs)[k]
    {
      var lo := WindowStart(i);
      SumExtend(xs, lo, i);
      var total := acc + xs[i];
      assert total == Sum(xs[lo..i + 1]);
      m[i] := RoundHalfEven(total, i + 1 - lo);
      assert m[i] == Rolling7(xs)[i];
      if i >= 6 {
        SumDrop(xs, lo, i + 1);
        assert WindowStart(i + 1) == lo + 1;
        acc := total - xs[lo];
      } else {
        assert WindowStart(i + 1) == lo;
        acc := total;
      }
      i := i + 1;
    }
    assert m[..] == Rolling7(xs);
  }

  // ----- one country -----

  /** The derived table of one country's rows, given in date order. */
  function DeriveSeries(g: seq<RawRow>): (out: seq<DerivedRow>)
    ensures |out| == |g|
  {
    var newCases := Diff(CasesColumn(g));
    var newDeaths := Diff(DeathsColumn(g));
    var newRecovered := Diff(RecoveredColumn(g));
    var growth := GrowthColumn(newCases, CasesColumn(g));
    var cases7 := Rolling7(newCases);
    var deaths7 := Rolling7(newDeaths);
    seq(|g|, i requires 0 <= i < |g| =>
      DerivedRow(g[i].country, g[i].date, g[i].cases, g[i].deaths, g[i].recovered,
                 newCases[i], newDeaths[i], newRecovered[i], growth[i], cases7[i], deaths7[i]))
  }

  /**
   * Row `i` of a country's derived table: the raw columns unchanged; deltas 0
   * on the first row and the signed difference from the previous row after
   * it; the growth rate 0 when there is no previous row or its cumulative
   * cases are 0, else the rounded percentage; the 7-day means over the
   * window of `min(i + 1, 7)` rows ending at `i`.
   */
  lemma DeriveSeriesRow(g: seq<RawRow>, i: nat)
    requires i < |g|
    ensures var r := DeriveSeries(g)[i];
      && r.Raw() == g[i]
      && r.newCases == (if i == 0 then 0 else g[i].cases - g[i - 1].cases)
      && r.newDeaths == (if i == 0 then 0 else g[i].deaths - g[i - 1].deaths)
      && r.newRecovered == (if i == 0 then 0 else g[i].recovered - g[i - 1].recovered)
      && r.growthPct == (if i == 0 || g[i - 1].cases == 0 then 0
                         else RoundHalfEven(r.newCases * 10000, g[i - 1].cases))
      && r.newCases7day == RoundHalfEven(Sum(Diff(CasesColumn(g))[WindowStart(i)..i + 1]), i + 1 - WindowStart(i))
      && r.newDeaths7day == RoundHalfEven(Sum(Diff(DeathsColumn(g))[WindowStart(i)..i + 1]), i + 1 - WindowStart(i))
  {
    GrowthClosedForm(Diff(CasesColumn(g)), CasesColumn(g), i);
  }

  lemma RawsDeriveSeries(g: seq<RawRow>)
    ensures Raws(DeriveSeries(g)) == g
  {
    var out := DeriveSeries(g);
    forall i | 0 <= i < |g| ensures Raws(out)[i] == g[i] {
      DeriveSeriesRow(g, i);
    }
  }

  /**
   * The cumulative cases of a country, read back from its derived table: the
   * first row's cumulative plus the deltas so far.
   */
  lemma NewCasesAddUp(g: seq<RawRow>, i: nat)
    requires i < |g|
    ensures g[0].cases + Sum(seq(i + 1, k requires 0 <= k <= i => DeriveSeries(g)[k].newCases)) == g[i].cases
  {
    var out := DeriveSeries(g);
    var d := Diff(CasesColumn(g));
    assert seq(i + 1, k requires 0 <= k <= i => out[k].newCases) == d[..i + 1];
    DiffTelescopes(CasesColumn(g), i);
  }

  // ----- the whole table -----

  /** The number of leading rows that share the first row's country. */
  function RunLength(s: seq<RawRow>): (k: nat)
    requires s != []
    ensures 1 <= k <= |s|
    ensures forall j :: 0 <= j < k ==> s[j].country == s[0].country
    ensures k < |s| ==> s[k].country != s[0].country
  {
    if |s| == 1 || s[1].country != s[0].country then 1
    else 1 + RunLength(s[1..])
  }

  /** `groupby('country')` over a table sorted by (country, date): each run of one country is derived on its own. */
  function DeriveAll(s: seq<RawRow>): seq<DerivedRow>
    decreases |s|
  {
    if s == [] then []
    else
      var k := RunLength(s);
      DeriveSeries(s[..k]) + DeriveAll(s[k..])
  }

  lemma RawsAppend(a: seq<DerivedRow>, b: seq<DerivedRow>)
    ensures Raws(a + b) == Raws(a) + Raws(b)
  {}

  lemma {:induction false} RawsDeriveAll(s: seq<RawRow>)
    ensures Raws(DeriveAll(s)) == s
    decreases |s|
  {
    if s != [] {
      var k := RunLength(s);
      var front, rest := DeriveSeries(s[..k]), DeriveAll(s[k..]);
      assert DeriveAll(s) == front + rest;
      RawsDeriveAll(s[k..]);
      RawsDeriveSeries(s[..k]);
      RawsAppend(front, rest);
      assert Raws(DeriveAll(s)) == s[..k] + s[k..];
      assert s[..k] + s[k..] == s;
    }
  }

  /**
   * The transform: the rows sorted by (country, date) with the derived columns
   * added.  No row is added or lost and the raw columns are unchanged: the raw
   * part of the output is the input, reordered, in (country, date) order.
   */
  function Transform(rows: seq<RawRow>): (out: seq<DerivedRow>)
    ensures |out| == |rows|
    ensures SortedBy(Raws(out), RowLe)
    ensures multiset(Raws(out)) == multiset(rows)
  {
    var s := SortRows(rows);
    RawsDeriveAll(s);
    assert |Raws(DeriveAll(s))| == |multiset(s)|;
    DeriveAll(s)
  }

  /** The derived rows of one country, in table order. */
  function DerivedOfCountry(t: seq<DerivedRow>, c: string): seq<DerivedRow> {
    if t == [] then []
    else (if t[0].country == c then [t[0]] else []) + DerivedOfCountry(t[1..], c)
  }

  lemma {:induction false} DerivedOfCountryAppend(a: seq<DerivedRow>, b: seq<DerivedRow>, c: string)
    ensures DerivedOfCountry(a + b, c) == DerivedOfCountry(a, c) + DerivedOfCountry(b, c)
  {
    if a == [] {
      assert a + b == b;
    } else {
      assert (a + b)[0] == a[0] && (a + b)[1..] == a[1..] + b;
      DerivedOfCountryAppend(a[1..], b, c);
    }
  }

  /** Selecting country `c` from a table whose rows all have one country `c0`. */
  lemma {:induction false} DerivedOfOneCountry(t: seq<DerivedRow>, c0: string, c: string)
    requires forall j :: 0 <= j < |t| ==> t[j].country == c0
    ensures DerivedOfCountry(t, c) == if c0 == c then t else []
  {
    if t != [] {
      DerivedOfOneCountry(t[1..], c0, c);
      assert t == [t[0]] + t[1..];
    }
  }

  lemma {:induction false} OfOneCountry(t: seq<RawRow>, c0: string, c: string)
    requires forall j :: 0 <= j < |t| ==> t[j].country == c0
    ensures OfCountry(t, c) == if c0 == c then t else []
  {
    if t != [] {
      OfOneCountry(t[1..], c0, c);
      assert t == [t[0]] + t[1..];
    }
  }

  lemma OfAbsentCountry(t: seq<RawRow>, c: string)
    requires forall j :: 0 <= j < |t| ==> t[j].country != c
    ensures OfCountry(t, c) == []
  {
    var f := OfCountry(t, c);
    if f != [] {
      OfCountryMember(t, c, f[0]);
      assert false;
    }
  }

  /** In a sorted table, no row after the first run has the first run's country. */
  lemma AfterRunOtherCountries(s: seq<RawRow>)
    requires s != [] && SortedBy(s, RowLe)
    ensures forall j :: RunLength(s) <= j < |s| ==> s[j].country != s[0].country
  {
    var k := RunLength(s);
    forall j | k <= j < |s| ensures s[j].country != s[0].country {
      if j > k && s[j].country == s[0].country {
        CountryRowsContiguous(s, 0, k, j);
      }
    }
  }

  /** Selecting a country from one derived run: all of it or nothing. */
  lemma DerivedRunOfCountry(run: seq<RawRow>, c0: string, c: string)
    requires forall j :: 0 <= j < |run| ==> run[j].country == c0
    ensures DerivedOfCountry(DeriveSeries(run), c) == if c0 == c then DeriveSeries(run) else []
    ensures OfCountry(run, c) == if c0 == c then run else []
  {
    forall j | 0 <= j < |run| ensures DeriveSeries(run)[j].country == c0 {
      DeriveSeriesRow(run, j);
    }
    DerivedOfOneCountry(DeriveSeries(run), c0, c);
    OfOneCountry(run, c0, c);
  }

  /** On a sorted table, a country's derived rows are the derivation of that country's rows alone. */
  lemma {:induction false} DeriveAllOfCountry(s: seq<RawRow>, c: string)
    requires SortedBy(s, RowLe)
    ensures DerivedOfCountry(DeriveAll(s), c) == DeriveSeries(OfCountry(s, c))
    decreases |s|
  {
    if s != [] {
      var k := RunLength(s);
      var run, rest := s[..k], s[k..];
      var c0 := s[0].country;
      assert s == run + rest;
      assert SortedBy(rest, RowLe);
      var a, b := DeriveSeries(run), DeriveAll(rest);
      assert DeriveAll(s) == a + b;
      DeriveAllOfCountry(rest, c);
      DerivedOfCountryAppend(a, b, c);
      OfCountryAppend(run, rest, c);
      DerivedRunOfCountry(run, c0, c);
      var lhs := DerivedOfCountry(a, c) + DerivedOfCountry(b, c);
      var sel := OfCountry(run, c) + OfCountry(rest, c);
      assert DerivedOfCountry(DeriveAll(s), c) == lhs;
      assert OfCountry(s, c) == sel;
      if c0 == c {
        AfterRunOtherCountries(s);
        forall j | 0 <= j < |rest| ensures rest[j].country != c {
          assert rest[j] == s[k + j];
        }
        OfAbsentCountry(rest, c);
        assert |DeriveSeries(OfCountry(rest, c))| == 0;
        assert lhs == a + [] == a;
        assert sel == run + [] == run;
      } else {
        assert lhs == [] + DerivedOfCountry(b, c) == DerivedOfCountry(b, c);
        assert sel == [] + OfCountry(rest, c) == OfCountry(rest, c);
      }
    }
  }

  /**
   * A country's derived rows depend on that country's input rows only: they
   * are the derivation of its rows sorted by date, whatever the other
   * countries' rows are.
   */
  lemma TransformOfCountry(rows: seq<RawRow>, c: string)
    ensures DerivedOfCountry(Transform(rows), c) == DeriveSeries(SortRows(OfCountry(rows, c)))
  {
    DeriveAllOfCountry(SortRows(rows), c);
    OfCountrySort(rows, c);
  }

  /** The rows a country's derived rows are computed from are in ascending date order. */
  lemma CountryRowsByDate(rows: seq<RawRow>, c: string)
    ensures var g := SortRows(OfCountry(rows, c));
      forall i, j :: 0 <= i < j < |g| ==> g[i].date <= g[j].date
  {
    var g := SortRows(OfCountry(rows, c));
    forall x | x in g ensures x.country == c {
      assert x in multiset(g);
      OfCountryMember(rows, c, x);
    }
    OneCountryByDate(g, c);
  }

  /** The rows a country's metrics are derived from, when no key repeats, have strictly ascending dates. */
  lemma CountryRowsStrictlyByDate(rows: seq<RawRow>, c: string)
    requires UniqueKeys(rows)
    ensures var g := SortRows(OfCountry(rows, c));
      forall i, j :: 0 <= i < j < |g| ==> g[i].date < g[j].date
  {
    var g := SortRows(OfCountry(rows, c));
    CountryRowsByDate(rows, c);
    OfCountrySubBag(rows, c);
    UniqueKeysSub(rows, g);
    forall x | x in g ensures x.country == c {
      assert x in multiset(g);
      OfCountryMember(rows, c, x);
    }
    forall i, j | 0 <= i < j < |g| ensures g[i].date < g[j].date {
      assert g[i] in g && g[j] in g;
    }
  }

  /**
   * Without duplicate (country, date) rows in the input, every country's
   * derived rows have strictly ascending dates: one row per reported day.
   */
  lemma CountryDatesStrictlyAscend(rows: seq<RawRow>, c: string)
    requires UniqueKeys(rows)
    ensures var d := DerivedOfCountry(Transform(rows), c);
      forall i, j :: 0 <= i < j < |d| ==> d[i].date < d[j].date
  {
    var g := SortRows(OfCountry(rows, c));
    CountryRowsStrictlyByDate(rows, c);
    TransformOfCountry(rows, c);
    var d := DeriveSeries(g);
    assert forall i :: 0 <= i < |d| ==> d[i].date == g[i].date;
  }

  /**
   * The example of cases 10, 15, 27 on three consecutive days: new cases
   * 0, 5, 12; growth 0 %, 50 %, 80 %; 7-day means 0, 2, 6 (the mean 2.5 goes
   * to the even neighbour 2).
   */
  lemma WorkedExample()
    ensures var out := DeriveSeries([RawRow("X", 1, 10, 1, 0), RawRow("X", 2, 15, 1, 0), RawRow("X", 3, 27, 2, 0)]);
      && [out[0].newCases, out[1].newCases, out[2].newCases] == [0, 5, 12]
      && [out[0].growthPct, out[1].growthPct, out[2].growthPct] == [0, 5000, 8000]
      && [out[0].newCases7day, out[1].newCases7day, out[2].newCases7day] == [0, 2, 6]
      && [out[0].newDeaths, out[1].newDeaths, out[2].newDeaths] == [0, 0, 1]
  {
    var g := [RawRow("X", 1, 10, 1, 0), RawRow("X", 2, 15, 1, 0), RawRow("X", 3, 27, 2, 0)];
    var nc := Diff(CasesColumn(g));
    assert nc == [0, 5, 12];
    assert nc[0..1] == [0] && nc[0..2] == [0, 5] && nc[0..3] == [0, 5, 12];
    assert Sum([0]) == 0 && Sum([0, 5]) == 5 && Sum([0, 5, 12]) == 17;
    assert RoundHalfEven(5, 2) == 2;
    assert RoundHalfEven(17, 3) == 6;
    assert RoundHalfEven(50000, 10) == 5000;
    assert RoundHalfEven(120000, 15) == 8000;
    forall i | 0 <= i < 3 { DeriveSeriesRow(g, i); }
  }
}
