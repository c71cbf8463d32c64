# COVID-19 ETL pipeline and dashboard queries — a verified model

The system fetches cumulative per-country pandemic counts, flattens them into
one row per (country, date), and derives daily and smoothed metrics per
country. Those metrics are new cases, deaths and recoveries, the growth rate
in percent, and 7-day rolling means of new cases and new deaths. The results
are stored in a SQLite table, and a dashboard reads them back through a few
SQL queries. This project models three parts of that system:

- **Extract** (`extract.dfy`, from `extract.py`). This is the imperative
  row-building loop over the decoded response. The model covers the non-200
  abort, the KeyError on a missing mandatory key, the 0 defaults for
  `deaths` and `recovered`, and the final `(country, date)` sort.
- **Transform** (`transform.dfy`, from `transform.py`). It groups the rows by
  country and derives the metrics per group:
  - `diff().fillna(0)` for the deltas;
  - the growth rate, with its infinity and NaN cases and rounding to 2
    decimals;
  - the rolling mean with `min_periods=1`, rounded half to even. It is
    computed by an array-filling method with a running window sum and proved
    equal to its specification.
- **Queries** (`queries.dfy`, from `app.py`). These are the dashboard's
  SELECTs as functions over the stored table:
  - the distinct countries and the default selection;
  - the date bounds;
  - one country's series over an inclusive date range;
  - the global totals per date;
  - the top 10 countries by the cases of their latest row.

Supporting modules:

- `records.dfy` holds the row types, the `(country, date)` order and
  per-country selection.
- `sorting.dfy` is a generic stable insertion sort with its sortedness and
  permutation proofs.
- `strings.dfy` is the lexicographic string order.
- `rounding.dfy` is exact round-half-even of a rational `n / d`.
- `wrappers.dfy` holds `Option` and `Result`.

Dates are integers (day numbers). Counts are unbounded integers. The growth
rate is stored in hundredths of a percent, so `50.0 %` is `5000`. The rolling
means are integers after rounding.

Points of the code's behaviour that are easy to get wrong:

- **Series order.** The country series query has no `ORDER BY`, so
  `CountrySeries` returns table order. `CountrySeriesByDate` proves that
  this order is ascending by date when the table is stored in
  `(country, date)` order, which is how the pipeline writes it. The series
  keeps one point per matching row, duplicates included
  (`CountrySeriesCount`).
- **Mandatory keys.** The code reads `country`, `timeline`,
  `timeline['cases']` and `timeline['deaths']` with `[...]`, so each of them
  is mandatory and its absence is a KeyError. Only `recovered` is optional.
- **Duplicate keys.** Entries that share a country name are not merged, so
  the extracted rows can repeat a (country, date) key. When the names are
  distinct, no key repeats (`Extract.Extract`), and each country's derived
  rows then have strictly ascending dates
  (`Transform.CountryDatesStrictlyAscend`).
- **Query parameters.** The queries interpolate the parameters into the SQL
  text instead of binding them (see "Left out").
- **Top-10 row pairing.** The top-10 query selects the bare column `cases`
  next to `MAX(date)`. SQLite reads a bare column next to a single `MAX()`
  from the row that attains the maximum. The model follows that rule, and
  `Top10` proves that each entry's date and cases come from the same latest
  row.
- **Rounding of the 7-day mean.** For cases 10, 15, 27, the 7-day means are
  `[0, 2, 6]`, not `[0, 3, 6]`: the mean 2.5 rounds half to even to 2
  (`Transform.WorkedExample`).

## Model

| member | source | states |
|---|---|---|
| Extract.Extract | extract.py:11-49 | A non-200 status fails with that status. A malformed entry fails with the first missing key. An empty result fails. Otherwise the rows are sorted by (country, date), are exactly the expected rows as a multiset, and number the total count of `cases` dates. When no two entries share a country name, no two rows share a (country, date) key |
| Extract.ExpectedRowsUnique | extract.py:23-39 | When no two entries share a country name, every expected row occurs once and no two share a (country, date) key |
| Extract.BuildRows | extract.py:23-39 | Fails on the first entry lacking `country`, `timeline`, `cases` or `deaths`, naming its index and the key. Otherwise it returns exactly one row per (entry, `cases` date), as a multiset |
| Extract.AppendEntryRows | extract.py:31-39 | Appends to the rows built so far exactly the rows of one entry, one per `cases` date, whatever the dictionary's iteration order |
| Extract.FirstMalformed | extract.py:23-28 | The index of the first entry missing a mandatory key: every earlier entry is well formed, and that entry is not |
| Extract.ExpectedRowsMember | extract.py:31-39 | A row is expected iff some entry has its country and the row's date among its `cases` keys. Its cases are that value, its deaths the `deaths` value or 0, and its recovered the `recovered` value or 0 |
| Extract.ExpectedRowsSize | extract.py:31-39 | The number of rows is the total number of `cases` dates over all entries |
| Sorting.SortBy | extract.py:49 | The result is ordered by any total preorder and is a permutation of the input |
| Records.RowLeIsTotalPreorder | extract.py:49 | Ordering rows by country, then by date, is a total preorder |
| Records.SortRows | transform.py:10 | The rows sorted by (country, date) are a permutation of the input |
| Records.OfCountryMember | transform.py:16 | A country's group holds exactly the rows with that country, each as many times as the table holds it; rows of other countries do not occur |
| Records.OfCountrySort | transform.py:10-16 | Selecting a country's rows after the sort gives the same sequence as sorting that country's rows alone |
| Transform.DiffTelescopes | transform.py:16-22 | The first value plus the daily deltas up to row i gives back the cumulative value at row i |
| Transform.NewCasesAddUp | transform.py:16 | In a derived table, the first row's cases plus `new_cases` up to row i gives row i's cumulative cases |
| Transform.GrowthClosedForm | transform.py:24-26 | The growth rate is 0 on a country's first row and wherever the previous cumulative cases are 0 (infinity or NaN). Otherwise it is `new / previous * 100`, rounded to 2 decimals |
| Rounding.RoundHalfEven | transform.py:34-36 | The result is within half a unit of `n / d`, and on an exact tie it is even |
| Rounding.RoundHalfEvenUnique | transform.py:34-36 | Those two properties determine the rounded value uniquely |
| Rounding.RoundHalfEvenBetween | transform.py:35-36 | Rounding a quotient that lies between two integers stays between them |
| Transform.WindowStart | transform.py:28-29 | The rolling window ending at row i has min(i + 1, 7) rows |
| Transform.RollingBounds | transform.py:28-29 | A rounded 7-day mean lies between the least and the greatest value of its window |
| Transform.RollingMeans | transform.py:28-29 | The one-pass running-sum computation fills a new array equal to the rolling-mean specification |
| Transform.DeriveSeriesRow | transform.py:16-36 | Row i of a country's derived table keeps its raw columns. Its deltas are 0 on the first row and differences after. Its growth rate follows the rule above. Its 7-day means round the mean of the trailing window |
| Transform.RawsDeriveSeries | transform.py:16-36 | Deriving a country's columns leaves its raw rows unchanged |
| Transform.RunLength | transform.py:16 | The length of the leading run of one country: all its rows share the country, and the next row belongs to another |
| Transform.Transform | transform.py:10-39 | No row is added or lost, the raw columns are kept, and the output is in (country, date) order |
| Transform.TransformOfCountry | transform.py:16-29 | A country's derived rows depend only on that country's rows: they are that country's rows sorted by date and derived on their own |
| Transform.CountryRowsByDate | transform.py:10 | The rows a country's metrics are derived from are in ascending date order |
| Transform.CountryRowsStrictlyByDate | transform.py:10 | Without repeated (country, date) keys in the input, a country's rows are in strictly ascending date order |
| Transform.CountryDatesStrictlyAscend | transform.py:10-29 | Without repeated (country, date) keys in the input, each country's derived rows have strictly ascending dates |
| Records.UniqueKeysSub | transform.py:10-16 | Reordering rows or selecting some of them keeps the (country, date) keys unique |
| Transform.WorkedExample | transform.py:16-36 | Cases 10, 15, 27 give new cases 0, 5, 12, growth 0, 50, 80 %, 7-day means 0, 2, 6, and new deaths 0, 0, 1 for deaths 1, 1, 2 |
| Queries.Countries | app.py:14 | Every country of the table exactly once, in strictly ascending order |
| Queries.IndexOf | app.py:15 | `list.index`: the first position holding the value |
| Queries.DefaultCountry | app.py:15 | 'USA' when listed, otherwise the first country. None for an empty list |
| Queries.DateBounds | app.py:18-27 | None iff the table is empty. Otherwise the least and greatest dates, both present in the table, with every date between them |
| Queries.CountrySeries | app.py:31-37 | A point is in the series iff it projects a row of that country whose date lies in the inclusive range |
| Queries.CountrySeriesCount | app.py:31-37 | Each point occurs in the series exactly as often as there are rows of the country in the range that project to it (no DISTINCT) |
| Queries.CountrySeriesByDate | app.py:31-37 | On a table stored in (country, date) order, the series is in ascending date order |
| Queries.CountrySeriesExample | app.py:31-37 | Of a country's rows on days 1, 2, 3, the range 1..2 returns exactly the first two |
| Queries.AddToDay | app.py:42-45 | Adding cases to a date's group keeps one entry per date, in date order. It adds exactly those cases to that date's total and to the grand total |
| Queries.GlobalTotals | app.py:41-47 | One entry per distinct date in range that has rows, no other. Each date's total is the sum of `cases` over all rows of that date. The totals add up to the sum of `cases` over the range |
| Queries.GlobalTotalsEntries | app.py:41-47 | Each listed total is the sum of `cases` over every row of its date |
| Queries.GlobalTotalsExample | app.py:41-47 | Two countries with 10 and 4 cases on a day give a total of 14 |
| Queries.LatestIndex | app.py:52-54 | The first row, in table order, of a country's maximum date. None iff the country has no rows |
| Queries.LatestEntries | app.py:52-54 | One entry per country, each read from that country's latest row |
| Queries.Ranked | app.py:51-55 | The grouped entries ordered by cases, descending, with no entry lost or repeated |
| Queries.Top10 | app.py:51-57 | min(10, number of countries) entries with cases non-increasing and distinct countries. Each entry's date is its country's latest, and its cases come from that same row. Every country left out has at most the last entry's cases |

## Left out

- The HTTP request, JSON decoding, the CSV files between the steps, the date
  parsing, the console output, the SQLite load (`load.py`) and the plotting
  (`visualize.py`) are not modelled. The response is given as typed values,
  and each step's output is the next step's input.
- The dashboard's rendering, widgets and layout are not modelled. If the
  country list is empty, the model's default selection is None.
- The date-range widget is not modelled. A selection of a single date, which
  cannot be unpacked into two, is outside the model.
- The queries are modelled by their meaning, not by their SQL text. The
  source interpolates the selected values into the query string, so a
  country name containing a single quote would break the query. The model
  treats parameters as values.
- `exit()` after a failed fetch ends the source script with status 0. The
  model reports it as the error `FetchFailed`.
- Extract.AppendEntryRows: dictionary iteration order is not modelled. The
  rows are specified as a multiset, and the final sort fixes their order up
  to rows with equal (country, date).
- Records.SortRows: the order among rows with the same (country, date) is
  that of a stable sort. pandas' default `sort_values` does not promise
  stability, so the model fixes a choice the source leaves open.
- Queries.GlobalTotals: the output order of `GROUP BY date` is not promised
  by SQL. The model lists the dates ascending.
- Queries.Ranked: the order among countries with equal latest cases is not
  promised by SQL. The model keeps country order among them.
- Queries.LatestIndex: when a country has several rows on its latest date,
  SQLite may read `cases` from any of them. The model picks the first in
  table order. `Top10` states only that the row is one of the latest.
- Transform.GrowthClosedForm: floating point is not modelled. The growth rate
  and the rolling means are exact rational values, rounded half to even. The
  binary float division and `round` of the source can differ on values whose
  decimal tie is not exactly representable.
- Transform.Transform: the final `fillna(0)` is not modelled as a separate
  step. In the integer model, no derived column can be missing after the
  earlier `fillna` and `replace` calls.
- The diagnostic print of one country's last rows at the end of
  `transform.py` is console output and is not modelled.
