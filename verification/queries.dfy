/**
 * The read queries behind the dashboard (app.py), as functions over the
 * stored table.  Each SELECT filters, groups, aggregates, orders and limits;
 * none changes the table.  Query parameters are typed values here.
 */
module Queries {
  import opened Wrappers
  import opened Strings
  import opened Sorting
  import opened Records

  /** The stored `covid_data` relation, in scan order. */
  type Table = seq<DerivedRow>

  predicate HasCountry(t: Table, c: string) {
    exists k :: 0 <= k < |t| && t[k].country == c
  }

  predicate HasDate(t: Table, d: Date) {
    exists k :: 0 <= k < |t| && t[k].date == d
  }

  lemma HasCountryCons(t: Table, c: string)
    requires t != []
    ensures HasCountry(t, c) <==> t[0].country == c || HasCountry(t[1..], c)
  {
    if HasCountry(t[1..], c) {
      var k :| 0 <= k < |t[1..]| && t[1..][k].country == c;
      assert t[k + 1].country == c;
    }
    if HasCountry(t, c) && t[0].country != c {
      var k :| 0 <= k < |t| && t[k].country == c;
      assert t[1..][k - 1].country == c;
    }
  }

  lemma HasDateCons(t: Table, d: Date)
    requires t != []
    ensures HasDate(t, d) <==> t[0].date == d || HasDate(t[1..], d)
  {
    if HasDate(t[1..], d) {
      var k :| 0 <= k < |t[1..]| && t[1..][k].date == d;
      assert t[k + 1].date == d;
    }
    if HasDate(t, d) && t[0].date != d {
      var k :| 0 <= k < |t| && t[k].date == d;
      assert t[1..][k - 1].date == d;
    }
  }

  // ----- SELECT DISTINCT country ... ORDER BY country (app.py:14) -----

  predicate StrictlyAscending(cs: seq<string>) {
    forall i, j :: 0 <= i < j < |cs| ==> StrLt(cs[i], cs[j])
  }

  lemma AscendingFront(c: string, cs: seq<string>)
    requires StrictlyAscending(cs) && cs != [] && StrLt(c, cs[0])
    ensures StrictlyAscending([c] + cs)
  {
    forall j | 0 < j < |cs| ensures StrLt(c, cs[j]) {
      StrLtTransitive(c, cs[0], cs[j]);
    }
  }

  lemma AscendingBehind(c: string, cs: seq<string>, r: seq<string>)
    requires StrictlyAscending(cs) && cs != [] && c != cs[0] && !StrLt(c, cs[0])
    requires StrictlyAscending(r) && forall x :: x in r <==> x == c || x in cs[1..]
    ensures StrictlyAscending([cs[0]] + r)
  {
    StrLtTrichotomy(c, cs[0]);
    forall j | 0 <= j < |r| ensures StrLt(cs[0], r[j]) {
      assert r[j] in r;
      if r[j] != c {
        var k :| 0 <= k < |cs[1..]| && cs[1..][k] == r[j];
        assert cs[k + 1] == r[j];
      }
    }
  }

  /** Adds a country to an ascending list of distinct countries. */
  function InsertCountry(c: string, cs: seq<string>): (r: seq<string>)
    requires StrictlyAscending(cs)
    ensures StrictlyAscending(r)
    ensures forall x :: x in r <==> x == c || x in cs
  {
    if cs == [] then [c]
    else if c == cs[0] then cs
    else if StrLt(c, cs[0]) then
      AscendingFront(c, cs);
      [c] + cs
    else
      assert cs == [cs[0]] + cs[1..];
      var r := InsertCountry(c, cs[1..]);
      AscendingBehind(c, cs, r);
      [cs[0]] + r
  }

  /** The country list: every country of the table once, in ascending order. */
  function Countries(t: Table): (cs: seq<string>)
    ensures StrictlyAscending(cs)
    ensures NoDuplicates(cs)
    ensures forall c :: c in cs <==> HasCountry(t, c)
  {
    if t == [] then []
    else
      var cs := InsertCountry(t[0].country, Countries(t[1..]));
      forall c ensures HasCountry(t, c) <==> t[0].country == c || HasCountry(t[1..], c) {
        HasCountryCons(t, c);
      }
      cs
  }

  // ----- default selection (app.py:15) -----

  /** `countries.index(x)`: the first position of `x`. */
  function IndexOf(cs: seq<string>, x: string): (i: nat)
    requires x in cs
    ensures i < |cs| && cs[i] == x
    ensures forall j :: 0 <= j < i ==> cs[j] != x
  {
    if cs[0] == x then 0 else 1 + IndexOf(cs[1..], x)
  }

  /**
   * The preselected country: 'USA' when the list has it, otherwise the first
   * one; an empty list offers nothing to select.
   */
  function DefaultCountry(cs: seq<string>): (r: Option<string>)
    ensures r.None? <==> cs == []
    ensures r.Some? ==> r.value in cs
    ensures r.Some? ==> (r.value == "USA" <==> "USA" in cs)
    ensures "USA" !in cs && cs != [] ==> r == Some(cs[0])
  {
    if cs == [] then None
    else
      var index := if "USA" in cs then IndexOf(cs, "USA") else 0;
      Some(cs[index])
  }

  // ----- date bounds and the default range (app.py:18-21, 27) -----

  /**
   * The smallest and largest date in the table, which also form the default
   * date range; an empty table has none (the source fails on the missing
   * minimum).
   */
  function DateBounds(t: Table): (b: Option<(Date, Date)>)
    ensures b.None? <==> t == []
    ensures b.Some? ==> b.value.0 <= b.value.1
    ensures b.Some? ==> HasDate(t, b.value.0) && HasDate(t, b.value.1)
    ensures b.Some? ==> forall k :: 0 <= k < |t| ==> b.value.0 <= t[k].date <= b.value.1
  {
    if t == [] then None
    else
      HasDateCons(t, t[0].date);
      match DateBounds(t[1..])
      case None =>
        Some((t[0].date, t[0].date))
      case Some((lo, hi)) =>
        HasDateCons(t, lo);
        HasDateCons(t, hi);
        assert forall k :: 1 <= k < |t| ==> t[k] == t[1..][k - 1];
        Some((if t[0].date < lo then t[0].date else lo, if t[0].date > hi then t[0].date else hi))
  }

  // ----- one country's series (app.py:31-37) -----

  datatype SeriesPoint = SeriesPoint(date: Date, newCases7day: int, growthPct: int)

  /** `country = c AND date BETWEEN start AND end`, inclusive at both ends. */
  predicate Selected(r: DerivedRow, c: string, start: Date, end: Date) {
    r.country == c && start <= r.date <= end
  }

  function Point(r: DerivedRow): SeriesPoint {
    SeriesPoint(r.date, r.newCases7day, r.growthPct)
  }

  /** The chart series of one country over a date range, in scan order. */
  function CountrySeries(t: Table, c: string, start: Date, end: Date): (r: seq<SeriesPoint>)
    ensures forall p :: p in r <==> exists k :: 0 <= k < |t| && Selected(t[k], c, start, end) && p == Point(t[k])
  {
    if t == [] then []
    else
      var rest := CountrySeries(t[1..], c, start, end);
      assert forall k :: 1 <= k < |t| ==> t[k] == t[1..][k - 1];
      (if Selected(t[0], c, start, end) then [Point(t[0])] else []) + rest
  }

  lemma {:induction false} CountrySeriesSnoc(t: Table, x: DerivedRow, c: string, start: Date, end: Date)
    ensures CountrySeries(t + [x], c, start, end)
         == CountrySeries(t, c, start, end) + (if Selected(x, c, start, end) then [Point(x)] else [])
  {
    if t == [] {
      assert [x][1..] == [];
      assert t + [x] == [x];
    } else {
      var u := t + [x];
      assert u[0] == t[0] && u[1..] == t[1..] + [x];
      var head := if Selected(t[0], c, start, end) then [Point(t[0])] else [];
      var last := if Selected(x, c, start, end) then [Point(x)] else [];
      assert CountrySeries(u, c, start, end) == head + CountrySeries(t[1..] + [x], c, start, end);
      CountrySeriesSnoc(t[1..], x, c, start, end);
      assert CountrySeries(t, c, start, end) == head + CountrySeries(t[1..], c, start, end);
      assert head + (CountrySeries(t[1..], c, start, end) + last)
          == (head + CountrySeries(t[1..], c, start, end)) + last;
    }
  }

  /** The positions of the table's rows selected for `c` in the range that project to `p`. */
  function RowsProjectingTo(t: Table, c: string, start: Date, end: Date, p: SeriesPoint): set<nat> {
    set k: nat | k < |t| && Selected(t[k], c, start, end) && Point(t[k]) == p
  }

  lemma RowsProjectingToSnoc(t: Table, x: DerivedRow, c: string, start: Date, end: Date, p: SeriesPoint)
    ensures var before, after := RowsProjectingTo(t, c, start, end, p), RowsProjectingTo(t + [x], c, start, end, p);
      && |t| !in before
      && after == before + (if Selected(x, c, start, end) && Point(x) == p then {|t|} else {})
  {
    var before, after := RowsProjectingTo(t, c, start, end, p), RowsProjectingTo(t + [x], c, start, end, p);
    assert forall k :: 0 <= k < |t| ==> (t + [x])[k] == t[k];
    assert (t + [x])[|t|] == x;
  }

  /**
   * The series has one point per selected row, with no merging: each point
   * occurs exactly as often as there are rows of the country in the range
   * that project to it.
   */
  lemma {:induction false} CountrySeriesCount(t: Table, c: string, start: Date, end: Date, p: SeriesPoint)
    ensures multiset(CountrySeries(t, c, start, end))[p] == |RowsProjectingTo(t, c, start, end, p)|
  {
    if t != [] {
      var n := |t| - 1;
      var init, x := t[..n], t[n];
      assert t == init + [x];
      CountrySeriesSnoc(init, x, c, start, end);
      CountrySeriesCount(init, c, start, end, p);
      RowsProjectingToSnoc(init, x, c, start, end, p);
    }
  }

  predicate DatesNonDecreasing(r: seq<SeriesPoint>) {
    forall i, j :: 0 <= i < j < |r| ==> r[i].date <= r[j].date
  }

  /** Stored in (country, date) order, the table gives each country's series in date order. */
  lemma {:induction false} CountrySeriesByDate(t: Table, c: string, start: Date, end: Date)
    requires SortedBy(Raws(t), RowLe)
    ensures DatesNonDecreasing(CountrySeries(t, c, start, end))
  {
    if t != [] {
      var tail := t[1..];
      assert Raws(tail) == Raws(t)[1..];
      CountrySeriesByDate(tail, c, start, end);
      var rest := CountrySeries(tail, c, start, end);
      assert DatesNonDecreasing(rest);
      if Selected(t[0], c, start, end) {
        forall q | q in rest ensures t[0].date <= q.date {
          var k :| 0 <= k < |tail| && Selected(tail[k], c, start, end) && q == Point(tail[k]);
          assert RowLe(Raws(t)[0], Raws(t)[k + 1]);
          assert !StrLt(c, c);
        }
        var r := [Point(t[0])] + rest;
        assert CountrySeries(t, c, start, end) == r;
        forall i, j | 0 <= i < j < |r| ensures r[i].date <= r[j].date {
          assert r[j] == rest[j - 1] && rest[j - 1] in rest;
          if i == 0 {
            assert r[0].date == t[0].date;
          } else {
            assert r[i] == rest[i - 1];
          }
        }
      } else {
        assert CountrySeries(t, c, start, end) == rest;
      }
    }
  }

  /** Of a country's rows on days 1, 2 and 3, the range 1..2 selects the first two. */
  lemma CountrySeriesExample()
    ensures CountrySeries([DerivedRow("X", 1, 10, 1, 0, 0, 0, 0, 0, 0, 0),
                           DerivedRow("X", 2, 15, 1, 0, 5, 0, 0, 5000, 2, 0),
                           DerivedRow("X", 3, 27, 2, 0, 12, 1, 0, 8000, 6, 0)], "X", 1, 2)
         == [SeriesPoint(1, 0, 0), SeriesPoint(2, 2, 5000)]
  {
    var t := [DerivedRow("X", 1, 10, 1, 0, 0, 0, 0, 0, 0, 0),
              DerivedRow("X", 2, 15, 1, 0, 5, 0, 0, 5000, 2, 0),
              DerivedRow("X", 3, 27, 2, 0, 12, 1, 0, 8000, 6, 0)];
    assert t[1..][1..][1..] == [];
    assert CountrySeries(t[1..][1..], "X", 1, 2) == [];
  }

  // ----- global totals by date (app.py:41-47) -----

  datatype DayTotal = DayTotal(date: Date, totalCases: int)

  predicate DatesAscending(acc: seq<DayTotal>) {
    forall i, j :: 0 <= i < j < |acc| ==> acc[i].date < acc[j].date
  }

  /** The total recorded for date `d` (0 when there is no entry). */
  function TotalAt(acc: seq<DayTotal>, d: Date): int {
    if acc == [] then 0
    else (if acc[0].date == d then acc[0].totalCases else 0) + TotalAt(acc[1..], d)
  }

  function SumTotals(acc: seq<DayTotal>): int {
    if acc == [] then 0 else acc[0].totalCases + SumTotals(acc[1..])
  }

  predicate HasDay(acc: seq<DayTotal>, d: Date) {
    exists i :: 0 <= i < |acc| && acc[i].date == d
  }

  /** `SUM(cases)` over the rows of date `d`. */
  function SumCasesOn(t: Table, d: Date): int {
    if t == [] then 0 else (if t[0].date == d then t[0].cases else 0) + SumCasesOn(t[1..], d)
  }

  /** `SUM(cases)` over the rows in the date range. */
  function SumCasesBetween(t: Table, start: Date, end: Date): int {
    if t == [] then 0 else (if start <= t[0].date <= end then t[0].cases else 0) + SumCasesBetween(t[1..], start, end)
  }

  lemma HasDayCons(acc: seq<DayTotal>)
    requires acc != []
    ensures forall x :: HasDay(acc, x) <==> acc[0].date == x || HasDay(acc[1..], x)
  {
    forall x ensures HasDay(acc, x) <==> acc[0].date == x || HasDay(acc[1..], x) {
      if HasDay(acc[1..], x) {
        var i :| 0 <= i < |acc[1..]| && acc[1..][i].date == x;
        assert acc[i + 1].date == x;
      }
      if HasDay(acc, x) && acc[0].date != x {
        var i :| 0 <= i < |acc| && acc[i].date == x;
        assert acc[1..][i - 1].date == x;
      }
    }
  }

  lemma AscendingCons(e: DayTotal, rest: seq<DayTotal>)
    requires DatesAscending(rest)
    requires forall x :: HasDay(rest, x) ==> e.date < x
    ensures DatesAscending([e] + rest)
  {
    var r := [e] + rest;
    forall j | 0 < j < |r| ensures e.date < r[j].date {
      assert rest[j - 1] == r[j];
      assert HasDay(rest, r[j].date);
    }
  }

  /** Adds `n` cases to the group of date `d`, opening the group if it is new. */
  function AddToDay(acc: seq<DayTotal>, d: Date, n: int): (r: seq<DayTotal>)
    requires DatesAscending(acc)
    ensures DatesAscending(r)
    ensures forall x :: HasDay(r, x) <==> x == d || HasDay(acc, x)
    ensures forall x :: TotalAt(r, x) == TotalAt(acc, x) + (if x == d then n else 0)
    ensures SumTotals(r) == SumTotals(acc) + n
  {
    if acc == [] then
      var r := [DayTotal(d, n)];
      HasDayCons(r);
      assert !HasDay(r[1..], d);
      r
    else if acc[0].date == d then
      var r := [DayTotal(d, acc[0].totalCases + n)] + acc[1..];
      HasDayCons(r);
      HasDayCons(acc);
      assert r[1..] == acc[1..];
      r
    else if d < acc[0].date then
      var r := [DayTotal(d, n)] + acc;
      HasDayCons(r);
      HasDayCons(acc);
      assert r[1..] == acc;
      AscendingCons(DayTotal(d, n), acc);
      r
    else
      var rest := AddToDay(acc[1..], d, n);
      var r := [acc[0]] + rest;
      HasDayCons(r);
      HasDayCons(acc);
      assert r[1..] == rest;
      assert forall x :: HasDay(acc[1..], x) ==> acc[0].date < x by {
        forall x | HasDay(acc[1..], x) ensures acc[0].date < x {
          var i :| 0 <= i < |acc[1..]| && acc[1..][i].date == x;
          assert acc[i + 1].date == x;
        }
      }
      AscendingCons(acc[0], rest);
      r
  }

  lemma {:induction false} TotalAtEntry(acc: seq<DayTotal>, i: nat)
    requires DatesAscending(acc) && i < |acc|
    ensures TotalAt(acc, acc[i].date) == acc[i].totalCases
  {
    var d := acc[i].date;
    if i == 0 {
      TotalAtAbsent(acc[1..], d);
    } else {
      assert acc[0].date < d;
      TotalAtEntry(acc[1..], i - 1);
    }
  }

  lemma {:induction false} TotalAtAbsent(acc: seq<DayTotal>, d: Date)
    requires forall i :: 0 <= i < |acc| ==> acc[i].date != d
    ensures TotalAt(acc, d) == 0
  {
    if acc != [] {
      TotalAtAbsent(acc[1..], d);
    }
  }

  /**
   * `SELECT date, SUM(cases) ... WHERE date BETWEEN start AND end GROUP BY date`:
   * one entry per distinct date of the range that occurs in the table, whose
   * total is the sum of `cases` over all rows (all countries) of that date.
   * The source leaves the output order open; this model lists the dates in
   * ascending order.
   */
  function GlobalTotals(t: Table, start: Date, end: Date): (r: seq<DayTotal>)
    ensures DatesAscending(r)
    ensures forall d :: HasDay(r, d) <==> start <= d <= end && HasDate(t, d)
    ensures forall d :: start <= d <= end ==> TotalAt(r, d) == SumCasesOn(t, d)
    ensures SumTotals(r) == SumCasesBetween(t, start, end)
  {
    if t == [] then []
    else
      var rest := GlobalTotals(t[1..], start, end);
      forall d ensures HasDate(t, d) <==> t[0].date == d || HasDate(t[1..], d) {
        HasDateCons(t, d);
      }
      if start <= t[0].date <= end then AddToDay(rest, t[0].date, t[0].cases) else rest
  }

  /** Each reported total is the sum of `cases` over every row of its date. */
  lemma GlobalTotalsEntries(t: Table, start: Date, end: Date)
    ensures var r := GlobalTotals(t, start, end);
      forall i :: 0 <= i < |r| ==> r[i].totalCases == SumCasesOn(t, r[i].date)
  {
    var r := GlobalTotals(t, start, end);
    forall i | 0 <= i < |r| ensures r[i].totalCases == SumCasesOn(t, r[i].date) {
      TotalAtEntry(r, i);
      assert HasDay(r, r[i].date);
    }
  }

  /** Two countries reporting 10 and 4 cases on the same day give a total of 14 for that day. */
  lemma GlobalTotalsExample()
    ensures GlobalTotals([DerivedRow("X", 1, 10, 0, 0, 0, 0, 0, 0, 0, 0),
                          DerivedRow("Y", 1, 4, 0, 0, 0, 0, 0, 0, 0, 0)], 1, 1)
         == [DayTotal(1, 14)]
  {
    var t := [DerivedRow("X", 1, 10, 0, 0, 0, 0, 0, 0, 0, 0), DerivedRow("Y", 1, 4, 0, 0, 0, 0, 0, 0, 0, 0)];
    assert t[1..][1..] == [];
    assert GlobalTotals(t[1..], 1, 1) == [DayTotal(1, 4)];
  }

  // ----- top 10 by latest cases (app.py:51-57) -----

  /**
   * The row SQLite reads the bare `cases` column from next to `MAX(date)`:
   * the first row, in scan order, of the country's latest date.
   */
  function LatestIndex(t: Table, c: string): (i: Option<nat>)
    ensures i.None? <==> !HasCountry(t, c)
    ensures i.Some? ==> i.value < |t| && t[i.value].country == c
    ensures i.Some? ==> forall k :: 0 <= k < |t| && t[k].country == c ==> t[k].date <= t[i.value].date
    ensures i.Some? ==> forall k :: 0 <= k < i.value && t[k].country == c ==> t[k].date < t[i.value].date
  {
    if t == [] then None
    else
      HasCountryCons(t, c);
      var rest := LatestIndex(t[1..], c);
      assert forall k :: 1 <= k < |t| ==> t[k] == t[1..][k - 1];
      if t[0].country != c then
        (if rest.None? then None else Some(rest.value + 1))
      else if rest.None? || t[1..][rest.value].date <= t[0].date then Some(0)
      else Some(rest.value + 1)
  }

  datatype TopEntry = TopEntry(country: string, latestDate: Date, totalCases: int)

  /** One result row of the grouped query for country `c`: its latest date and that row's cases. */
  function EntryFor(t: Table, c: string): TopEntry
    requires HasCountry(t, c)
  {
    var i := LatestIndex(t, c).value;
    TopEntry(c, t[i].date, t[i].cases)
  }

  /** `GROUP BY country`: one entry per country, in country order. */
  function LatestEntries(t: Table): (es: seq<TopEntry>)
    ensures |es| == |Countries(t)|
    ensures forall k :: 0 <= k < |es| ==> HasCountry(t, es[k].country) && es[k] == EntryFor(t, es[k].country)
    ensures forall c :: HasCountry(t, c) ==> EntryFor(t, c) in es
    ensures NoDuplicates(es)
  {
    var cs := Countries(t);
    var es := seq(|cs|, k requires 0 <= k < |cs| => EntryFor(t, cs[k]));
    assert forall c :: HasCountry(t, c) ==> EntryFor(t, c) in es by {
      forall c | HasCountry(t, c) ensures EntryFor(t, c) in es {
        var k :| 0 <= k < |cs| && cs[k] == c;
        assert es[k] == EntryFor(t, c);
      }
    }
    es
  }

  /** `ORDER BY total_cases DESC`. */
  predicate CasesDesc(a: TopEntry, b: TopEntry) {
    a.totalCases >= b.totalCases
  }

  lemma CasesDescIsTotalPreorder()
    ensures TotalPreorder(CasesDesc)
  {}

  const TopLimit := 10

  function Min(a: int, b: int): int {
    if a < b then a else b
  }

  /**
   * `e` is what the grouped query reports for its country: the date and the
   * cases of one of the country's rows, and no row of the country is later.
   */
  predicate LatestOf(t: Table, e: TopEntry) {
    (exists k :: 0 <= k < |t| && t[k].country == e.country && t[k].date == e.latestDate && t[k].cases == e.totalCases)
    && forall k :: 0 <= k < |t| && t[k].country == e.country ==> t[k].date <= e.latestDate
  }

  lemma EntryForIsLatest(t: Table, c: string)
    requires HasCountry(t, c)
    ensures EntryFor(t, c).country == c && LatestOf(t, EntryFor(t, c))
  {
    var i := LatestIndex(t, c).value;
    assert t[i].country == c;
  }

  /** The ranked entries, before the limit is applied. */
  function Ranked(t: Table): (sorted: seq<TopEntry>)
    ensures |sorted| == |Countries(t)|
    ensures forall i, j :: 0 <= i < j < |sorted| ==> CasesDesc(sorted[i], sorted[j])
    ensures forall k :: 0 <= k < |sorted| ==> HasCountry(t, sorted[k].country) && sorted[k] == EntryFor(t, sorted[k].country)
    ensures forall c :: HasCountry(t, c) ==> EntryFor(t, c) in sorted
    ensures NoDuplicates(sorted)
  {
    var es := LatestEntries(t);
    CasesDescIsTotalPreorder();
    var sorted := SortBy(es, CasesDesc);
    SortNoDuplicates(es, CasesDesc);
    assert forall k :: 0 <= k < |sorted| ==> sorted[k] in es by {
      forall k | 0 <= k < |sorted| ensures sorted[k] in es {
        assert sorted[k] in multiset(sorted);
      }
    }
    assert forall c :: HasCountry(t, c) ==> EntryFor(t, c) in sorted by {
      forall c | HasCountry(t, c) ensures EntryFor(t, c) in sorted {
        assert EntryFor(t, c) in multiset(es);
      }
    }
    sorted
  }

  lemma RankedCountriesDistinct(t: Table)
    ensures var s := Ranked(t); forall i, j :: 0 <= i < j < |s| ==> s[i].country != s[j].country
  {
    var s := Ranked(t);
    forall i, j | 0 <= i < j < |s| ensures s[i].country != s[j].country {
      assert s[i] == EntryFor(t, s[i].country) && s[j] == EntryFor(t, s[j].country);
    }
  }

  lemma RankedLatest(t: Table)
    ensures var s := Ranked(t); forall i :: 0 <= i < |s| ==> LatestOf(t, s[i])
  {
    var s := Ranked(t);
    forall i | 0 <= i < |s| ensures LatestOf(t, s[i]) {
      EntryForIsLatest(t, s[i].country);
    }
  }

  /** No entry of `r` is for country `c`. */
  predicate Omitted(r: seq<TopEntry>, c: string) {
    forall i :: 0 <= i < |r| ==> r[i].country != c
  }

  lemma RankedCutoff(t: Table, n: nat, c: string)
    requires n == Min(TopLimit, |Ranked(t)|) && HasCountry(t, c)
    requires forall i :: 0 <= i < n ==> Ranked(t)[i].country != c
    ensures n == TopLimit
    ensures EntryFor(t, c).totalCases <= Ranked(t)[n - 1].totalCases
  {
    var s := Ranked(t);
    var e := EntryFor(t, c);
    EntryForIsLatest(t, c);
    var k :| 0 <= k < |s| && s[k] == e;
    assert n <= k;
    assert CasesDesc(s[n - 1], s[k]);
  }

  /**
   * The top-10 table: at most ten entries, one per country, by latest cases
   * descending.  Each entry's cases and date come from the same row, the
   * country's latest one, and every country left out has no more latest
   * cases than the last entry shown.
   */
  function Top10(t: Table): (r: seq<TopEntry>)
    ensures |r| == Min(TopLimit, |Countries(t)|)
    ensures forall i, j :: 0 <= i < j < |r| ==> r[i].totalCases >= r[j].totalCases
    ensures forall i, j :: 0 <= i < j < |r| ==> r[i].country != r[j].country
    ensures forall i :: 0 <= i < |r| ==> LatestOf(t, r[i])
    ensures forall c :: HasCountry(t, c) && Omitted(r, c) ==>
      |r| == TopLimit && EntryFor(t, c).totalCases <= r[|r| - 1].totalCases
  {
    var r := Ranked(t)[..Min(TopLimit, |Ranked(t)|)];
    TopPrefix(t, r);
    TopCutoff(t, r);
    r
  }

  lemma TopPrefix(t: Table, r: seq<TopEntry>)
    requires r == Ranked(t)[..Min(TopLimit, |Ranked(t)|)]
    ensures |r| == Min(TopLimit, |Countries(t)|)
    ensures forall i, j :: 0 <= i < j < |r| ==> r[i].totalCases >= r[j].totalCases
    ensures forall i, j :: 0 <= i < j < |r| ==> r[i].country != r[j].country
    ensures forall i :: 0 <= i < |r| ==> LatestOf(t, r[i])
  {
    RankedCountriesDistinct(t);
    RankedLatest(t);
  }

  lemma TopCutoff(t: Table, r: seq<TopEntry>)
    requires r == Ranked(t)[..Min(TopLimit, |Ranked(t)|)]
    ensures forall c :: HasCountry(t, c) && Omitted(r, c) ==>
      |r| == TopLimit && EntryFor(t, c).totalCases <= r[|r| - 1].totalCases
  {
    forall c | HasCountry(t, c) && Omitted(r, c)
      ensures |r| == TopLimit && EntryFor(t, c).totalCases <= r[|r| - 1].totalCases
    {
      var s := Ranked(t);
      forall i | 0 <= i < |r| ensures s[i].country != c {
        assert r[i] == s[i];
      }
      RankedCutoff(t, |r|, c);
    }
  }
}
