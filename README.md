# Incident dashboard aggregation, modelled in Dafny

The dashboard loads fire-brigade incident reports (`ocorrencias`) and three
resource-usage link tables with their catalogs (equipment, materials,
vehicles). It turns them into seven count tables and charts them. This project
models the aggregation step, `dash_aceiro.py` lines 17-55, as pure functions
over sequences of rows. It then proves the partition, ordering and join
properties those tables rely on.

- `wrappers.dfy`: `Wrappers.Option`, a nullable cell (`None` stands for
  pandas' NaN/NaT).
- `orders.dfy`: Python's string order, proved to be a strict total order.
- `calendar.dfy`: parsed dates `(year, month, day)`, their chronological
  order, the English month names of `strftime('%B')`, and the category codes
  of the `meses_ordem_ingles` list.
- `group_by.dfy`: `CountBy`, which models `groupby(key).size().reset_index()`
  under pandas' defaults: null keys are dropped and the keys come out sorted
  and unique.
- `month_table.dfy`: converting the month table to an ordered `Categorical`
  and calling `sort_values('mes')`.
- `merge.dfy`: `merge(how='left')` of a link table with its catalog, followed
  by a group-by on a catalog column (`UsageCount`).
- `dashboard.dfy`: the incident rows, the derived `mes` and `area` columns,
  the seven tables (`Aggregate`), and the correctness lemmas for each table.

Decisions the model makes explicit:

- Nulls are modelled as follows:
  - A missing date (NaT) or missing municipality is `None`, and `groupby` drops it.
  - An `urbano_rural` cell that is not a boolean gets no `area` label and drops out of the area table.
  - A link row whose foreign key finds no catalog row gets a null label, and it drops out of the usage table.
- Pandas pairs null merge keys with each other. So a null foreign key matches catalog rows whose `id` is null.
- Unresolved foreign keys and non-boolean flags could be reported as an explicit "unknown" bucket. The code silently drops them, and the model follows the code.
- The municipality table is sorted by name, because `groupby` sorts its keys by default.

## Model

| member | source | states |
|---|---|---|
| `Calendar.MonthName` | dash_aceiro.py:35-36 | the name `strftime('%B')` gives month m is entry m-1 of the January..December list |
| `Calendar.MonthCode` | dash_aceiro.py:37-38 | the categorical code of a string is its position among the twelve month names, and -1 (null) exactly when it is none of them |
| `Calendar.MonthNameCode` | dash_aceiro.py:35-38 | the month name of month m is a category and has code m-1 |
| `Calendar.DateLessIsStrictTotalOrder` | dash_aceiro.py:27-28 | chronological order on dates is irreflexive, transitive and total, so the day table's keys can be strictly ascending |
| `Orders.StringLessIsStrictTotalOrder` | dash_aceiro.py:25-32 | Python's code-point order on strings, used to sort group keys, is a strict total order |
| `GroupBy.CountBy` | dash_aceiro.py:25-32 | the counts of the group-by table it computes sum to the number of non-null cells, every count is positive, and there are no more rows than cells |
| `GroupBy.CountByCorrect` | dash_aceiro.py:25-32 | the table's keys are strictly ascending (hence unique), and the count it gives every key is the number of cells holding that key |
| `GroupBy.CountByKeys` | dash_aceiro.py:25-32 | the table's keys are exactly the values of the non-null cells; null keys are dropped |
| `GroupBy.CountByRows` | dash_aceiro.py:25-32 | every row counts exactly the cells holding its key, and every non-null value has its row |
| `GroupBy.CountByEmpty` | dash_aceiro.py:25-32 | the table is empty exactly when no cell is non-null, in particular for empty input |
| `GroupBy.CountByConstant` | dash_aceiro.py:46-47 | a column whose every cell holds the same key gives one row counting all cells |
| `MonthTable.AsCategory` | dash_aceiro.py:37-38 | `MonthTable.Categorize` applies it to every key of the month table: a month name stays itself as a category; any other string becomes null |
| `MonthTable.RankCode` | dash_aceiro.py:37-39 | the sort rank of a category is its code; nulls and non-month strings rank after December |
| `MonthTable.SortByMonth` | dash_aceiro.py:39 | `sort_values` returns a permutation of the table's rows |
| `MonthTable.SortByMonthSorted` | dash_aceiro.py:39 | the sorted table is a permutation with ranks ascending in January..December order |
| `MonthTable.SortByMonthTotal` | dash_aceiro.py:39 | sorting leaves the sum of the counts unchanged |
| `MonthTable.SortMonthNames` | dash_aceiro.py:37-39 | sorting a table of distinct month names keeps exactly its rows, wrapped as categories, in strictly ascending calendar order, with the same total |
| `Merge.LeftJoinRows` | dash_aceiro.py:44-45 | the left merge `Merge.LeftJoin` gives each link row one merged row per matching catalog row, or one row when nothing matches |
| `Merge.LeftJoinCounts` | dash_aceiro.py:44-55 | `Merge.LeftJoin`'s merged label column holds label t once per (link row, matching catalog row labelled t) pair, and its non-null cells are the labelled matches |
| `Merge.UsageBucket` | dash_aceiro.py:44-55 | each bucket of `Merge.UsageCount` counts, over all link rows, the catalog rows the link row's foreign key matches that carry the bucket's label |
| `Merge.UsageAppend` | dash_aceiro.py:44-47 | one more link row adds, to each bucket of `Merge.UsageCount`, the number of catalog rows its foreign key matches that carry the bucket's label; a bucket whose label it matches nowhere stays as it was |
| `Merge.UnknownKey` | dash_aceiro.py:44-47 | a link row whose foreign key matches no catalog row leaves the `Merge.UsageCount` table unchanged |
| `Merge.UsageTotal` | dash_aceiro.py:44-55 | the total of `Merge.UsageCount` is the number of labelled catalog rows matched, summed over link rows |
| `Merge.UniqueMatch` | dash_aceiro.py:44-45 | with unique catalog ids a foreign key matches at most one row, and one labelled row exactly when it resolves |
| `Merge.UsageTotalBound` | dash_aceiro.py:44-55 | with unique catalog ids the `Merge.UsageCount` total is at most the number of link rows, and equals it exactly when every foreign key resolves to a labelled row |
| `Merge.SingleEntity` | dash_aceiro.py:44-55 | `Merge.UsageCount` of link rows that all point at one catalog row labelled t, whose id no other catalog row shares, is the single bucket t counting every link row |
| `Dashboard.AreaLabel` | dash_aceiro.py:20-21 | the `area` label that `Dashboard.AreaColumn` gives each incident: `True` maps to "Rural" and `False` maps to "Urbano", and only they do; any other cell gets no label |
| `Dashboard.MonthOfIs` | dash_aceiro.py:19 | the `mes` cell that `Dashboard.MonthOf` computes (one per incident in `Dashboard.MonthColumn`) names month m exactly when the date lies in month m, and the cell is null exactly when the date is missing (NaT) |
| `Dashboard.ByDayCorrect` | dash_aceiro.py:27-28 | the day table `Dashboard.ByDay` has dates that are strictly chronological, each row counts the incidents on its date, every incident's date has its row, and the counts sum to the dated incidents (all incidents when every date is present) |
| `Dashboard.ByMunicipalityCorrect` | dash_aceiro.py:29-30 | the municipality table `Dashboard.ByMunicipality` has names that are strictly ascending, each row counts the incidents in its municipality, every named municipality has its row, and the counts sum to the incidents with a municipality (all incidents when every municipality is present) |
| `Dashboard.ByAreaCorrect` | dash_aceiro.py:31-32 | the area table `Dashboard.ByArea` has at most two rows, keyed "Rural" and "Urbano", counting the incidents flagged `True` and `False`; non-boolean flags are in neither; when every flag is boolean the two counts sum to the number of incidents |
| `Dashboard.ByMonthCorrect` | dash_aceiro.py:25-39 | the month table `Dashboard.ByMonth` lists only months in which an incident is dated, each once with its count, in January..December order, and every such month is listed; the counts sum to the dated incidents (all incidents when every date is present) |
| `Dashboard.AggregateEmpty` | dash_aceiro.py:25-55 | `Dashboard.Aggregate` turns empty incident and link tables into seven empty tables |
| `Dashboard.ByMonthExample` | dash_aceiro.py:25-39 | `Dashboard.ByMonth` of incidents dated 2024-01-05, 2024-01-20 and 2024-02-01 is the month table [(January, 2), (February, 1)] in that order |

## Left out

- CSV loading (`dash_aceiro.py:9-15`) is file I/O through pandas. The model starts from in-memory rows.
- Date parsing is library behaviour and is not modelled (`pd.to_datetime`, `dash_aceiro.py:18`). Dates are taken as parsed `(year, month, day)` values, and a missing date is `None`. A string that fails to parse makes `pd.to_datetime` raise, which aborts the whole load; the model has no such path.
- `strftime('%B')` depends on the locale (`dash_aceiro.py:19`). The program never sets a locale, so Python formats `%B` in the C locale, which prints the English month names. `MonthName` is that fixed English table, so it matches what the program does. Locale selection itself is not modelled.
- `MonthTable.SortByMonth` is a stable insertion sort, but pandas' default `sort_values` is not stable. The two can differ only in how tied ranks are ordered. Ties would need two null or non-month keys, and the month table the code builds has only distinct month names, so they cannot occur there.
- The constant `dados_efetivos` table (`dash_aceiro.py:57-60`) is literal data with nothing to compute.
- Not modelled: the Dash application, its layout, the DataTable and every `@app.callback` chart builder (`dash_aceiro.py:63-289`). They build plotly figures and UI through foreign libraries.
- The choropleth map fetches a GeoJSON file over the network (`dash_aceiro.py:115-145`). It is not modelled.
- `print` (`dash_aceiro.py:41`) and `run_server` (`dash_aceiro.py:293-294`) are I/O and server lifecycle. They are not modelled.
- The model assumes every frame has the columns the code reads, and that merge keys have compatible types. The typed `Incident`, `LinkRow` and `CatalogRow` rows guarantee both. In the program, a missing column makes `groupby` raise `KeyError` (`dash_aceiro.py:25-32`, `46-55`). A `merge` of an integer key column against a text column raises `ValueError` (`dash_aceiro.py:44-53`). Either error aborts the load, and the model has no such path.
- Only the grouped column of each merged frame is modelled. Its other columns do not affect the usage tables.
