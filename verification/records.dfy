/**
 * The rows that flow through the pipeline and the (country, date) order the
 * extract and transform steps both sort by.
 */
module Records {
  import opened Strings
  import opened Sorting

  /** A calendar day as a day number; the stored ISO `YYYY-MM-DD` text sorts the same way. */
  type Date = int

  /** One row of the extracted table: cumulative counts of one country on one day. */
  datatype RawRow = RawRow(country: string, date: Date, cases: int, deaths: int, recovered: int)

  /**
   * One row of the transformed table: the raw columns plus the derived ones.
   * `growthPct` is the growth rate in hundredths of a percent (the source keeps
   * it as a float rounded to 2 decimals); the 7-day columns are integers.
   */
  datatype DerivedRow = DerivedRow(
    country: string, date: Date, cases: int, deaths: int, recovered: int,
    newCases: int, newDeaths: int, newRecovered: int,
    growthPct: int, newCases7day: int, newDeaths7day: int)
  {
    function Raw(): RawRow {
      RawRow(country, date, cases, deaths, recovered)
    }
  }

  /** The raw columns of a derived table. */
  function Raws(t: seq<DerivedRow>): (r: seq<RawRow>)
    ensures |r| == |t|
  {
    seq(|t|, i requires 0 <= i < |t| => t[i].Raw())
  }

  /** Ascending by country, then by date: `sort_values(['country', 'date'])`. */
  predicate RowLe(a: RawRow, b: RawRow) {
    StrLt(a.country, b.country) || (a.country == b.country && a.date <= b.date)
  }

  lemma RowLeIsTotalPreorder()
    ensures TotalPreorder(RowLe)
  {
    forall a: RawRow, b: RawRow ensures RowLe(a, b) || RowLe(b, a) {
      StrLtTrichotomy(a.country, b.country);
    }
    forall a: RawRow, b: RawRow, c: RawRow | RowLe(a, b) && RowLe(b, c) ensures RowLe(a, c) {
      if a.country != b.country || b.country != c.country {
        StrLtTransitive(a.country, b.country, c.country);
      }
    }
  }

  /**
   * The rows sorted by (country, date).  Rows with equal keys keep their input
   * order; the consequence the model relies on is `OfCountrySort`.
   */
  function SortRows(rows: seq<RawRow>): (r: seq<RawRow>)
    ensures SortedBy(r, RowLe)
    ensures multiset(r) == multiset(rows)
  {
    RowLeIsTotalPreorder();
    SortBy(rows, RowLe)
  }

  /** No two rows share a (country, date) key. */
  predicate UniqueKeys(s: seq<RawRow>) {
    forall i, j :: 0 <= i < j < |s| ==> s[i].country != s[j].country || s[i].date != s[j].date
  }

  /** The same property of a bag of rows: each row at most once, and rows with equal keys equal. */
  ghost predicate UniqueKeysBag(m: multiset<RawRow>) {
    && (forall x :: m[x] <= 1)
    && (forall a, b :: a in m && b in m && a.country == b.country && a.date == b.date ==> a == b)
  }

  lemma SameKeySameRow(s: seq<RawRow>)
    requires UniqueKeys(s)
    ensures forall a, b :: a in multiset(s) && b in multiset(s) && a.country == b.country && a.date == b.date ==> a == b
  {
    forall a, b | a in multiset(s) && b in multiset(s) && a.country == b.country && a.date == b.date
      ensures a == b
    {
      var i :| 0 <= i < |s| && s[i] == a;
      var j :| 0 <= j < |s| && s[j] == b;
      assert !(i < j) && !(j < i);
    }
  }

  lemma {:induction false} AtMostOnce(s: seq<RawRow>)
    requires UniqueKeys(s)
    ensures forall x :: multiset(s)[x] <= 1
  {
    if s != [] {
      var tail := s[1..];
      assert s == [s[0]] + tail;
      assert UniqueKeys(tail) by {
        forall i, j | 0 <= i < j < |tail| ensures tail[i].country != tail[j].country || tail[i].date != tail[j].date {
          assert tail[i] == s[i + 1] && tail[j] == s[j + 1];
        }
      }
      AtMostOnce(tail);
      forall k | 0 <= k < |tail| ensures tail[k] != s[0] {
        assert tail[k] == s[k + 1];
      }
      assert s[0] !in tail;
      var m := multiset(tail);
      assert multiset(s) == multiset{s[0]} + m;
      forall x ensures multiset(s)[x] <= 1 {
        assert multiset(s)[x] == (if x == s[0] then 1 else 0) + m[x];
      }
    }
  }

  lemma BagOfUniqueKeys(s: seq<RawRow>)
    requires UniqueKeys(s)
    ensures UniqueKeysBag(multiset(s))
  {
    AtMostOnce(s);
    SameKeySameRow(s);
  }

  lemma MultisetCountTwo(s: seq<RawRow>, i: nat, j: nat)
    requires i < j < |s| && s[i] == s[j]
    ensures multiset(s)[s[i]] >= 2
  {
    assert s == s[..j] + [s[j]] + s[j + 1..];
    assert s[..j][i] == s[i];
    assert s[i] in multiset(s[..j]);
  }

  lemma UniqueKeysOfBag(s: seq<RawRow>)
    requires UniqueKeysBag(multiset(s))
    ensures UniqueKeys(s)
  {
    forall i, j | 0 <= i < j < |s| ensures s[i].country != s[j].country || s[i].date != s[j].date {
      if s[i].country == s[j].country && s[i].date == s[j].date {
        assert s[i] in multiset(s) && s[j] in multiset(s);
        MultisetCountTwo(s, i, j);
      }
    }
  }

  /**
   * Key uniqueness does not depend on the order of the rows: a permutation
   * or a sub-collection of rows with unique keys has unique keys.
   */
  lemma UniqueKeysSub(s: seq<RawRow>, u: seq<RawRow>)
    requires UniqueKeys(s) && multiset(u) <= multiset(s)
    ensures UniqueKeys(u)
  {
    BagOfUniqueKeys(s);
    UniqueKeysOfBag(u);
  }

  /** The rows of one country, in their input order. */
  function OfCountry(rows: seq<RawRow>, c: string): seq<RawRow>
  {
    if rows == [] then []
    else (if rows[0].country == c then [rows[0]] else []) + OfCountry(rows[1..], c)
  }

  lemma {:induction false} OfCountryAppend(a: seq<RawRow>, b: seq<RawRow>, c: string)
    ensures OfCountry(a + b, c) == OfCountry(a, c) + OfCountry(b, c)
  {
    if a == [] {
      assert a + b == b;
    } else {
      assert (a + b)[0] == a[0] && (a + b)[1..] == a[1..] + b;
      OfCountryAppend(a[1..], b, c);
    }
  }

  /** A country's selection takes each row at most as often as the table holds it. */
  lemma {:induction false} OfCountrySubBag(rows: seq<RawRow>, c: string)
    ensures multiset(OfCountry(rows, c)) <= multiset(rows)
  {
    if rows != [] {
      OfCountrySubBag(rows[1..], c);
      assert rows == [rows[0]] + rows[1..];
    }
  }

  /**
   * In a table sorted by (country, date) the rows of a country are contiguous:
   * a row between two rows of country `c` is itself of country `c`.
   */
  lemma CountryRowsContiguous(s: seq<RawRow>, i: int, j: int, k: int)
    requires SortedBy(s, RowLe)
    requires 0 <= i < j < k < |s|
    requires s[i].country == s[k].country
    ensures s[j].country == s[i].country
  {
    assert RowLe(s[i], s[j]) && RowLe(s[j], s[k]);
    StrLtTrichotomy(s[i].country, s[j].country);
  }

  /** Every row of a country's selection comes from the table and has that country. */
  lemma {:induction false} OfCountryMember(rows: seq<RawRow>, c: string, x: RawRow)
    ensures x in OfCountry(rows, c) <==> x in rows && x.country == c
    ensures multiset(OfCountry(rows, c))[x] == if x.country == c then multiset(rows)[x] else 0
  {
    if rows != [] {
      OfCountryMember(rows[1..], c, x);
      assert rows == [rows[0]] + rows[1..];
    }
  }

  lemma SortedFirstIsLeast(t: seq<RawRow>, y: RawRow)
    requires SortedBy(t, RowLe)
    requires y in t
    ensures RowLe(t[0], y)
  {
    RowLeIsTotalPreorder();
    var k :| 0 <= k < |t| && t[k] == y;
    if k == 0 {
      assert RowLe(y, y);
    }
  }

  /** `OfCountry` of a sequence that starts with `x`. */
  lemma OfCountryCons(x: RawRow, t: seq<RawRow>, c: string)
    ensures OfCountry([x] + t, c) == (if x.country == c then [x] else []) + OfCountry(t, c)
  {
    assert ([x] + t)[0] == x && ([x] + t)[1..] == t;
  }

  /** Inserting in front: `x` comes no later than the first row of `t`. */
  lemma OfCountryInsertFront(x: RawRow, t: seq<RawRow>, c: string)
    requires SortedBy(t, RowLe)
    requires t == [] || RowLe(x, t[0])
    ensures OfCountry(InsertBy(x, t, RowLe), c)
         == if x.country == c then InsertBy(x, OfCountry(t, c), RowLe) else OfCountry(t, c)
  {
    assert InsertBy(x, t, RowLe) == [x] + t;
    OfCountryCons(x, t, c);
    var f := OfCountry(t, c);
    if x.country == c && f != [] {
      OfCountryMember(t, c, f[0]);
      SortedFirstIsLeast(t, f[0]);
      RowLeIsTotalPreorder();
      assert RowLe(x, f[0]);
      assert InsertBy(x, f, RowLe) == [x] + f;
    }
  }

  /** Inserting behind: `x` comes strictly after the first row of `t`. */
  lemma InsertBehind(x: RawRow, t: seq<RawRow>)
    requires t != [] && !RowLe(x, t[0])
    ensures InsertBy(x, t, RowLe) == [t[0]] + InsertBy(x, t[1..], RowLe)
  {}

  /** Taking one country's rows commutes with inserting into a sorted table. */
  lemma {:induction false} OfCountryInsert(x: RawRow, t: seq<RawRow>, c: string)
    requires SortedBy(t, RowLe)
    ensures OfCountry(InsertBy(x, t, RowLe), c)
         == if x.country == c then InsertBy(x, OfCountry(t, c), RowLe) else OfCountry(t, c)
  {
    if t == [] || RowLe(x, t[0]) {
      OfCountryInsertFront(x, t, c);
    } else {
      var t0, rest := t[0], t[1..];
      var u := InsertBy(x, rest, RowLe);
      var f := OfCountry(rest, c);
      var h := if t0.country == c then [t0] else [];
      InsertBehind(x, t);
      assert t == [t0] + rest;
      OfCountryCons(t0, u, c);
      OfCountryCons(t0, rest, c);
      assert OfCountry(InsertBy(x, t, RowLe), c) == h + OfCountry(u, c);
      assert OfCountry(t, c) == h + f;
      OfCountryInsert(x, rest, c);
      if x.country == c {
        assert OfCountry(u, c) == InsertBy(x, f, RowLe);
        if t0.country == c {
          assert ([t0] + f)[0] == t0 && ([t0] + f)[1..] == f;
          InsertBehind(x, [t0] + f);
        } else {
          assert h + InsertBy(x, f, RowLe) == InsertBy(x, f, RowLe);
          assert h + f == f;
        }
      }
    }
  }

  /**
   * The rows of one country, taken after the table is sorted, are the same as
   * that country's rows sorted on their own: this is the stability of the sort that the model uses.
   */
  lemma {:induction false} OfCountrySort(rows: seq<RawRow>, c: string)
    ensures OfCountry(SortRows(rows), c) == SortRows(OfCountry(rows, c))
  {
    if rows != [] {
      var x, rest := rows[0], rows[1..];
      assert rows == [x] + rest;
      var sr := SortRows(rest);
      var f := OfCountry(rest, c);
      OfCountrySort(rest, c);
      assert OfCountry(sr, c) == SortRows(f);
      RowLeIsTotalPreorder();
      assert SortRows(rows) == InsertBy(x, sr, RowLe);
      OfCountryInsert(x, sr, c);
      OfCountryCons(x, rest, c);
      if x.country == c {
        var g := [x] + f;
        assert g[0] == x && g[1..] == f;
        assert SortRows(g) == InsertBy(x, SortRows(f), RowLe);
      } else {
        assert OfCountry(rows, c) == f;
      }
    }
  }

  /** Rows of a single country sorted by (country, date) are in ascending date order. */
  lemma OneCountryByDate(s: seq<RawRow>, c: string)
    requires SortedBy(s, RowLe)
    requires forall x :: x in s ==> x.country == c
    ensures forall i, j :: 0 <= i < j < |s| ==> s[i].date <= s[j].date
  {
    forall i, j | 0 <= i < j < |s| ensures s[i].date <= s[j].date {
      assert RowLe(s[i], s[j]);
      assert s[i] in s && s[j] in s;
      StrLeReflexive(c);
    }
  }
}
