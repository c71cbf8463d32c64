/**
 * The extract step (extract.py): the fetched per-country timelines are
 * flattened into one row per (entry, date key of `cases`) and sorted by
 * (country, date).
 *
 * The decoded JSON is given as typed values: a dictionary key that the script
 * reads with `[...]` is an `Option`, `None` standing for a missing key (the
 * script then stops with a KeyError).  Dictionary iteration order is not
 * modelled: the row-building loop takes the dates of `cases` in any order,
 * which the final sort makes irrelevant.
 */
module Extract {
  import opened Wrappers
  import opened Sorting
  import opened Records

  datatype Timeline = Timeline(
    cases: Option<map<Date, int>>,
    deaths: Option<map<Date, int>>,
    recovered: Option<map<Date, int>>)

  /** One element of the response array: `{country, timeline}`. */
  datatype Entry = Entry(country: Option<string>, timeline: Option<Timeline>)

  /** The HTTP response: its status code and the decoded JSON array. */
  datatype Response = Response(status: int, body: seq<Entry>)

  datatype ExtractError =
    | FetchFailed(status: int)            // non-200 status: the script exits before building rows
    | MissingKey(entry: nat, key: string) // KeyError on the first entry lacking a mandatory key
    | NoRows                              // no row at all: the empty frame has no 'date' column

  /** The first mandatory key the loop body reads and does not find, in reading order. */
  function MissingKeyOf(e: Entry): Option<string> {
    if e.country.None? then Some("country")
    else if e.timeline.None? then Some("timeline")
    else if e.timeline.value.cases.None? then Some("cases")
    else if e.timeline.value.deaths.None? then Some("deaths")
    else None
  }

  predicate WellFormed(e: Entry) {
    MissingKeyOf(e).None?
  }

  predicate AllWellFormed(data: seq<Entry>) {
    forall j :: 0 <= j < |data| ==> WellFormed(data[j])
  }

  function CasesOf(e: Entry): map<Date, int>
    requires WellFormed(e)
  {
    e.timeline.value.cases.value
  }

  function DeathsOf(e: Entry): map<Date, int>
    requires WellFormed(e)
  {
    e.timeline.value.deaths.value
  }

  /** `timeline.get('recovered', {})`: an absent series is an empty one. */
  function RecoveredOf(e: Entry): map<Date, int>
    requires WellFormed(e)
  {
    e.timeline.value.recovered.GetOr(map[])
  }

  /** The row the loop body builds for date `d` of entry `e`. */
  function RowFor(e: Entry, d: Date): RawRow
    requires WellFormed(e) && d in CasesOf(e)
  {
    RawRow(e.country.value, d, CasesOf(e)[d], Lookup(DeathsOf(e), d), Lookup(RecoveredOf(e), d))
  }

  /** The index of the first entry the loop would fail on, or `|data|` if there is none. */
  function FirstMalformed(data: seq<Entry>): (i: nat)
    ensures i <= |data|
    ensures forall j :: 0 <= j < i ==> WellFormed(data[j])
    ensures i < |data| ==> !WellFormed(data[i])
  {
    if data == [] || !WellFormed(data[0]) then 0
    else 1 + FirstMalformed(data[1..])
  }

  /** The rows built for the dates in `dates`, all of them dates of `cases`. */
  ghost function RowSet(e: Entry, dates: set<Date>): set<RawRow>
    requires WellFormed(e) && dates <= CasesOf(e).Keys
  {
    set d | d in dates :: RowFor(e, d)
  }

  /** Every row expected from `data`, counted once per (entry, date of its `cases`). */
  ghost function ExpectedRows(data: seq<Entry>): multiset<RawRow>
    requires AllWellFormed(data)
  {
    if data == [] then multiset{}
    else
      var e := data[|data| - 1];
      ExpectedRows(data[..|data| - 1]) + multiset(RowSet(e, CasesOf(e).Keys))
  }

  /** The total number of date keys over all `cases` maps. */
  function CaseCount(data: seq<Entry>): nat
    requires AllWellFormed(data)
  {
    if data == [] then 0
    else CaseCount(data[..|data| - 1]) + |CasesOf(data[|data| - 1])|
  }

  lemma NonEmptyHasElement(s: set<Date>)
    requires s != {}
    ensures exists d :: d in s
  {
    if forall d :: d !in s {
      assert false;
    }
  }

  lemma RowSetAdd(e: Entry, dates: set<Date>, d: Date)
    requires WellFormed(e) && dates <= CasesOf(e).Keys
    requires d in CasesOf(e) && d !in dates
    ensures RowFor(e, d) !in RowSet(e, dates)
    ensures RowSet(e, dates + {d}) == RowSet(e, dates) + {RowFor(e, d)}
    ensures multiset(RowSet(e, dates + {d})) == multiset(RowSet(e, dates)) + multiset{RowFor(e, d)}
  {
    assert RowSet(e, dates + {d}) == RowSet(e, dates) + {RowFor(e, d)};
  }

  /** Different dates give different rows, so an entry gives as many rows as `cases` has dates. */
  lemma {:induction false} RowSetSize(e: Entry, dates: set<Date>)
    requires WellFormed(e) && dates <= CasesOf(e).Keys
    ensures |RowSet(e, dates)| == |dates|
    decreases |dates|
  {
    if dates != {} {
      NonEmptyHasElement(dates);
      var d :| d in dates;
      RowSetSize(e, dates - {d});
      RowSetAdd(e, dates - {d}, d);
      assert dates - {d} + {d} == dates;
      assert |RowSet(e, dates - {d}) + {RowFor(e, d)}| == |RowSet(e, dates - {d})| + 1;
    }
  }

  /** Exactly one row per (entry, date key of that entry's `cases`). */
  lemma {:induction false} ExpectedRowsSize(data: seq<Entry>)
    requires AllWellFormed(data)
    ensures |ExpectedRows(data)| == CaseCount(data)
  {
    if data != [] {
      var e := data[|data| - 1];
      ExpectedRowsSize(data[..|data| - 1]);
      RowSetSize(e, CasesOf(e).Keys);
    }
  }

  /**
   * A row is expected exactly when some entry has the row's country, has the
   * row's date among its `cases` keys and the row's counts are that date's
   * `cases` value, `deaths` value (0 when absent) and `recovered` value (0 when
   * absent or when there is no `recovered` series).
   */
  lemma {:induction false} ExpectedRowsMember(data: seq<Entry>, r: RawRow)
    requires AllWellFormed(data)
    ensures r in ExpectedRows(data) <==>
      exists i :: 0 <= i < |data| && data[i].country == Some(r.country)
        && r.date in CasesOf(data[i]) && r.cases == CasesOf(data[i])[r.date]
        && r.deaths == Lookup(DeathsOf(data[i]), r.date)
        && r.recovered == Lookup(RecoveredOf(data[i]), r.date)
  {
    if data != [] {
      var n := |data| - 1;
      var e := data[n];
      var init := data[..n];
      ExpectedRowsMember(init, r);
      assert forall i :: 0 <= i < n ==> init[i] == data[i];
      if r in RowSet(e, CasesOf(e).Keys) {
        var d :| d in CasesOf(e) && r == RowFor(e, d);
        assert data[n].country == Some(r.country);
      }
    }
  }

  /** No two entries of the response carry the same country name. */
  predicate DistinctCountries(data: seq<Entry>) {
    forall i, j :: 0 <= i < j < |data| ==> data[i].country != data[j].country
  }

  /**
   * When the response names every country once, no two expected rows share a
   * (country, date) key: an entry's rows have distinct dates, and different
   * entries have different countries.
   */
  lemma {:induction false} ExpectedRowsUnique(data: seq<Entry>)
    requires AllWellFormed(data) && DistinctCountries(data)
    ensures UniqueKeysBag(ExpectedRows(data))
  {
    if data != [] {
      var n := |data| - 1;
      var e := data[n];
      var init := data[..n];
      assert forall i :: 0 <= i < n ==> init[i] == data[i];
      ExpectedRowsUnique(init);
      var older := ExpectedRows(init);
      var added := RowSet(e, CasesOf(e).Keys);
      assert ExpectedRows(data) == older + multiset(added);
      forall x | x in added ensures x !in older {
        ExpectedRowsMember(init, x);
      }
      forall a, b | a in older + multiset(added) && b in older + multiset(added)
          && a.country == b.country && a.date == b.date
        ensures a == b
      {
        ExpectedRowsMember(init, a);
        ExpectedRowsMember(init, b);
      }
    }
  }

  lemma ExpectedRowsSnoc(data: seq<Entry>, i: nat)
    requires i < |data| && AllWellFormed(data)
    ensures AllWellFormed(data[..i]) && AllWellFormed(data[..i + 1])
    ensures ExpectedRows(data[..i + 1])
         == ExpectedRows(data[..i]) + multiset(RowSet(data[i], CasesOf(data[i]).Keys))
  {
    assert forall j :: 0 <= j <= i ==> data[..i + 1][j] == data[j];
    assert data[..i + 1][..i] == data[..i];
  }

  /**
   * The inner loop over `cases.items()`: appends one row per date of `cases`,
   * with `deaths` and `recovered` looked up with a default of 0.
   */
  method AppendEntryRows(rows: seq<RawRow>, e: Entry) returns (out: seq<RawRow>)
    requires WellFormed(e)
    ensures multiset(out) == multiset(rows) + multiset(RowSet(e, CasesOf(e).Keys))
  {
    out := rows;
    var cases := CasesOf(e);
    var remaining := cases.Keys;
    ghost var done: set<Date> := {};
    while remaining != {}
      invariant remaining + done == cases.Keys && remaining !! done
      invariant multiset(out) == multiset(rows) + multiset(RowSet(e, done))
      decreases |remaining|
    {
      NonEmptyHasElement(remaining);
      var d :| d in remaining;
      RowSetAdd(e, done, d);
      out := out + [RowFor(e, d)];
      remaining := remaining - {d};
      done := done + {d};
    }
    assert done == cases.Keys;
  }

  /**
   * The row-building loop over the response array: for each entry, read the
   * mandatory keys, then append its rows.  The first entry missing a mandatory
   * key ends the run with that KeyError and no rows.
   */
  method BuildRows(data: seq<Entry>) returns (res: Result<seq<RawRow>, ExtractError>)
    ensures var i := FirstMalformed(data);
      if i < |data| then res == Failure(MissingKey(i, MissingKeyOf(data[i]).value))
      else AllWellFormed(data) && res.Success? && multiset(res.value) == ExpectedRows(data)
  {
    var rows: seq<RawRow> := [];
    var i := 0;
    while i < |data|
      invariant 0 <= i <= |data|
      invariant forall j :: 0 <= j < i ==> WellFormed(data[j])
      invariant AllWellFormed(data[..i]) && multiset(rows) == ExpectedRows(data[..i])
    {
      var missing := MissingKeyOf(data[i]);
      if missing.Some? {
        return Failure(MissingKey(i, missing.value));
      }
      rows := AppendEntryRows(rows, data[i]);
      ExpectedRowsSnoc(data[..i + 1], i);
      assert data[..i + 1][..i] == data[..i];
      assert data[..i + 1][..i + 1] == data[..i + 1];
      assert AllWellFormed(data[..i + 1]);
      i := i + 1;
    }
    assert data[..i] == data;
    return Success(rows);
  }

  /**
   * The whole extract step: a non-200 status aborts before any row is built;
   * otherwise the rows are built, an empty result is an error, and the rows
   * are sorted by (country, date).
   */
  method Extract(resp: Response) returns (res: Result<seq<RawRow>, ExtractError>)
    ensures resp.status != 200 ==> res == Failure(FetchFailed(resp.status))
    ensures resp.status == 200 && FirstMalformed(resp.body) < |resp.body| ==>
      var i := FirstMalformed(resp.body);
      res == Failure(MissingKey(i, MissingKeyOf(resp.body[i]).value))
    ensures resp.status == 200 && FirstMalformed(resp.body) == |resp.body| ==>
      && AllWellFormed(resp.body)
      && (CaseCount(resp.body) == 0 ==> res == Failure(NoRows))
      && (CaseCount(resp.body) > 0 ==>
            && res.Success?
            && SortedBy(res.value, RowLe)
            && multiset(res.value) == ExpectedRows(resp.body)
            && |res.value| == CaseCount(resp.body)
            && (DistinctCountries(resp.body) ==> UniqueKeys(res.value)))
  {
    if resp.status != 200 {
      return Failure(FetchFailed(resp.status));
    }
    var built := BuildRows(resp.body);
    if built.Failure? {
      return built;
    }
    var rows := built.value;
    ExpectedRowsSize(resp.body);
    assert |rows| == |multiset(rows)|;
    if rows == [] {
      return Failure(NoRows);
    }
    if DistinctCountries(resp.body) {
      ExpectedRowsUnique(resp.body);
      UniqueKeysOfBag(SortRows(rows));
    }
    return Success(SortRows(rows));
  }
}
