# Glacier catalog — a verified model

This project models the in-memory glacier catalog of `glaciers.py`:

- the `Glacier` record and its year-to-balance series, with the rule that absorbs a new mass-balance reading;
- the `GlacierCollection` built from the rows of an inventory sheet;
- the loop that reads the mass-balance sheet into the catalog's glaciers;
- the queries over the catalog: `find_nearest`, `filter_by_code`, `sort_by_latest_mass_balance` and `summary`;
- the selection half of `plot_extremes`.

The model keeps the form of the code. `Glacier` and `GlacierCollection` are classes whose methods change their fields in place, each loop is a `for`/`while` loop with invariants, and the working-set dicts are sequences of (key, value) pairs in insertion order. Every method is proved against a function over values: each glacier becomes a `GlacierView` and the catalog becomes the sequence of them in catalog order. The lemmas about those functions state what the results mean:

- at most n answers, all distinct, each from the catalog;
- the true top n, when keys do not collide;
- the exact set of codes a wildcard pattern selects;
- the bounds of the summary figures;
- the failure conditions of every operation.

Modules:

- `base.dfy` (module `Base`): `Option`, `Result`, the error kinds the code raises
- `decimal.dfy` (module `Decimal`): `int(text)` on decimal strings, `str(i)`
- `mass_balance.dfy` (module `MassBalance`): the accumulation rule, and the earliest and latest years of a series
- `glacier.dfy` (module `GlacierEntity`): class `Glacier`, its value view `GlacierView`
- `working_set.dfy` (module `OrderedDict`): a Python dict as an insertion-ordered sequence of items: update, pop, keys, values
- `top_n.dfy` (module `TopN`): the bounded working-set loop shared by `find_nearest` and `sort_by_latest_mass_balance`, and the final sort
- `code_pattern.dfy` (module `CodePattern`): the `?` expansion loop of `filter_by_code`
- `inventory.dfy` (module `Inventory`): building the catalog from inventory rows
- `measurements.dfy` (module `MeasurementSheet`): reading the mass-balance rows
- `queries.dfy` (module `Queries`): every query as a function over the catalog's values, with its lemmas
- `catalog.dfy` (module `Catalog`): class `GlacierCollection` and its methods

Modelling choices:

- Python floats are `real`: exact, with no rounding.
- `int(text)` accepts an optional sign followed by ASCII digits.
- Every exception the code can raise is a `Failure` of a `Result`:
  - `ValueError` from `int()` is `NotAnInteger`.
  - `KeyError` on an unknown id is `UnknownGlacier`.
  - `max()` or `min()` of an empty working set, reached when n <= 0, is `EmptyWorkingSet`.
  - Indexing `[0]` of an empty ranking is `NoMeasuredGlacier`.
  - The two assertions of `plot_extremes` are `NoGrowth` and `NoShrinkage`.
  - The zero division of `summary` is `DivisionByZero`.
- Where the repository states an intent that `glaciers.py` does not carry out, the model follows the code:
  - `test_glaciers.py:24-110` expects the `Glacier` constructor to raise `TypeError` for an argument of the wrong kind. It also expects `ValueError` for values out of range: a three-character id, a long political unit, a latitude beyond ±90, a longitude beyond ±180, a code of 0 or 9999. `glaciers.py:12-18` only asserts the kinds of the arguments, which Dafny's types fix, and checks no range. The model's constructor accepts every value, as the code does.
  - The docstrings at `glaciers.py:116` and `glaciers.py:164` speak of "the n glaciers". The code returns at most n. It returns fewer when the catalog has fewer glaciers (fewer measured ones, for the ranking), and fewer when names or latest balances repeat (see below). With n <= 0 and at least one candidate, `max()` or `min()` of the empty working set raises.
- A repeated id in the inventory replaces the glacier built from the earlier row, and the entry keeps the position of the first (`dict.update` at glaciers.py:83).
- Two glaciers with the same latest balance share one working-set key in `sort_by_latest_mass_balance`, and two glaciers with the same name share one in `find_nearest`. The later one overwrites the earlier one's slot. `TopN.StepCollides` proves that this stops the working set from growing, and can make it shrink. So the true top-n lemmas (`Queries.NearestClosest`, `Queries.LatestTop`) assume distinct names or distinct latest balances. The lemmas that need no such assumption (`Queries.NearestBounded`, `Queries.LatestRanked`) hold for every catalog.

## Definitions

The operations of `glaciers.py` are defined as functions over values. The lemmas in the table below prove their properties, and the class methods are proved equal to them.

- `Inventory.FromRows` (glaciers.py:75-83): the catalog built by the constructor's loop. Proved by `FromRowsFails`, `FromRowsStops`, `FromRowsKeys`, `FromRowsEntries` and `FromRowsOrder`.
- `MeasurementSheet.RowFault` (glaciers.py:104-113): what stops the loop at a row, in the code's order of evaluation. That order is `int(lb)`, `int(ub)`, then, for a non-empty balance, the dictionary lookup of the id and `int(year)`.
- `MeasurementSheet.ApplyRow` (glaciers.py:101-113): one iteration of `read_mass_balance_data`. Stated by `AddReading` and `ApplyAt`.
- `MeasurementSheet.Ingest` (glaciers.py:100-113): the whole loop. Proved by `IngestShape`, `IngestFails`, `IngestFirstFault`, `IngestStops`, `IngestFaultless`, `IngestBalances` and `IngestYear`.
- `OrderedDict.Put` (glaciers.py:83, 124, 128, 178, 181): `dict.update` with one item. Proved by `PutItems`, `PutKeys` and `PutAt`.
- `OrderedDict.RemoveAt` (glaciers.py:127, 180, 186): `dict.pop`. Proved by `RemoveAtItems`.
- `TopN.Step` (glaciers.py:123-128, 176-187): one offer to a bounded working set. Proved by `StepKeepsBest` and `StepCollides`.
- `TopN.Select` (glaciers.py:119-128, 172-187): the whole working-set loop. Proved by `SelectSnoc`, `SelectFails`, `SelectBounded`, `SelectKeepsBest` and `SelectOne`.
- `Queries.Nearest` (glaciers.py:115-130): `find_nearest`. Proved by `NearestFails`, `NearestBounded`, `NearestClosest` and `NearestOne`.
- `Queries.SortByLatest` (glaciers.py:163-190): `sort_by_latest_mass_balance`, as catalog positions. Proved by `LatestFails`, `LatestRanked`, `LatestTop`, `LatestOne` and `SortByLatestInRange`.
- `Queries.SelectedNames` (glaciers.py:157-161): the names `filter_by_code` returns. Proved by `SelectedNamesMembers`, `PlainPatternNames`, `IntPatternNames` and `AllWildcardsNames`.
- `Queries.Summary` (glaciers.py:192-216): the three figures `summary` prints. Proved by `SummaryPercent`, `EarliestYearBounds`, `MeasuredItems` and `ShrinkerBounds`.
- `Queries.Extremes` (glaciers.py:224-242): the two glaciers `plot_extremes` draws. Proved by `ExtremesCases`.
- `Decimal.ParseInt` (glaciers.py:81, 104-105, 113, 152): `int(text)`. Proved by `IntStringRoundTrip` and `ThreeDigits`.
- `MassBalance.LatestBalance` (glaciers.py:174, 212, 227, 241): `mass_balances[max(mass_balances.keys())]`, through `LatestYear`.
- `CodePattern.ExpandAll` (glaciers.py:143-150): one round of the expansion loop. Proved by `ExpandAllMatch`, `ExpandAllCount` and `ExpandAllFixed`.
- `CodePattern.Expansion` (glaciers.py:139-155): the candidates the loop ends with, in its order. Proved by `RoundsFacts` and `ExpansionFacts`.

## Model

| member | source | states |
|---|---|---|
| GlacierEntity.Glacier.constructor | glaciers.py:9-25 | a new glacier holds exactly the given id, name, unit, (lat, lon) and code, and an empty series |
| GlacierEntity.Glacier.AddMassBalanceMeasurement | glaciers.py:27-35 | a new year is stored with exactly the reading's value; a present year gets the value added when partial; a full reading for a present year leaves the series unchanged; no other year changes |
| MassBalance.Accumulate | glaciers.py:27-35 | the series after one reading: its years gain the reading's year; other years keep their values; the three cases of the rule |
| MassBalance.AccumulateAllAt | glaciers.py:27-35 | after any sequence of readings, a year holds its old value plus every later partial reading of it, or, if new, its first reading plus the partial readings after it; full readings after the first are lost |
| MassBalance.AccumulateAllYears | glaciers.py:27-35 | the years of the series after readings are the old years plus the readings' years |
| MassBalance.AccumulateAllOtherYears | glaciers.py:27-35 | readings about other years leave a year untouched |
| MassBalance.LatestYear | glaciers.py:174 | `max(keys)`: a year of the series no earlier than any other |
| MassBalance.FirstYear | glaciers.py:200 | `min(keys)`: a year of the series no later than any other |
| Decimal.IntStringRoundTrip | glaciers.py:139 | `int(str(i)) == i` for every integer |
| Decimal.ThreeDigits | glaciers.py:81 | a string of three digits reads as 100a + 10b + c |
| Inventory.Built | glaciers.py:83 | a glacier built from an inventory row has no measurement |
| Inventory.FromRowsFails | glaciers.py:75-83 | construction fails exactly when some row's concatenated code is not an integer, with the text of the first such row |
| Inventory.FromRowsStops | glaciers.py:75-83 | once a prefix of the rows fails, the whole construction fails the same way |
| Inventory.FromRowsKeys | glaciers.py:75-83 | the catalog's ids are the rows' distinct ids in order of first appearance |
| Inventory.FromRowsEntries | glaciers.py:75-83 | distinct ids, every row's id present, and each entry built from the last row with its id |
| Inventory.FromRowsOrder | glaciers.py:75-83 | entries stand in the order in which their ids first appear |
| MeasurementSheet.RowReading | glaciers.py:104-113 | a row contributes a reading exactly when its balance is non-empty and its year and bounds read as integers; its year and value are the row's; it is full exactly when both bounds are 9999 |
| MeasurementSheet.AddReading | glaciers.py:113 | one reading changes only the series of its glacier's entry |
| MeasurementSheet.IngestShape | glaciers.py:100-113 | reading the sheet adds, drops and moves no glacier and changes nothing but series |
| MeasurementSheet.IngestFails | glaciers.py:100-113 | the loop stops with an error exactly when some row has an unreadable bound, or a non-empty balance with an unknown id or an unreadable year |
| MeasurementSheet.IngestFirstFault | glaciers.py:100-113 | the error is that of the first faulty row, and the rows before it stay applied |
| MeasurementSheet.IngestStops | glaciers.py:100-113 | once a prefix of the rows stops the loop, the whole sheet stops there |
| MeasurementSheet.IngestFaultless | glaciers.py:100-113 | a loop that does not stop met no faulty row |
| MeasurementSheet.IngestBalances | glaciers.py:100-113 | without a fault, each glacier's series is its old one after exactly the readings the rows hold for its id, in row order |
| MeasurementSheet.IngestYear | glaciers.py:100-113 | without a fault, each year of each glacier holds the declarative value of `MassBalance.AccumulateAllAt` |
| Catalog.GlacierCollection.FromInventory | glaciers.py:75-83 | fails exactly when the row function fails, with the same error; otherwise a valid catalog of fresh glaciers whose contents are exactly the row function's |
| Catalog.GlacierCollection.Update | glaciers.py:83 | `self.glaciers.update({gid: g})`: the item of gid now holds g, in place or appended; the other items and their contents are unchanged |
| Catalog.GlacierCollection.ReadMassBalanceData | glaciers.py:100-113 | the catalog's ids and glaciers are unchanged, its contents are exactly those of the sheet function, and it fails exactly when, and as, that function stops |
| Catalog.GlacierCollection.AddAt | glaciers.py:113 | the reading goes to the glacier of that position, and no other entry changes |
| Catalog.GlacierCollection.FindNearest | glaciers.py:115-130 | exactly the names `Queries.Nearest` states, or its failure |
| Catalog.GlacierCollection.FilterByCode | glaciers.py:132-161 | fails exactly when some expansion of the pattern is not an integer, naming the first such candidate in the loop's order, as `list(map(int, codes))` does; otherwise the names, in catalog order, of the glaciers whose code the pattern selects |
| Catalog.GlacierCollection.SortByLatestMassBalance | glaciers.py:163-190 | the glaciers at the catalog positions `Queries.SortByLatest` ranks, in its order; fails exactly when it does |
| Catalog.GlacierCollection.Summary | glaciers.py:192-216 | exactly the report `Queries.Summary` states, or its division failure |
| Catalog.GlacierCollection.PlotExtremes | glaciers.py:222-242 | fails exactly when, and as, `Queries.Extremes` does; otherwise the glaciers at the two positions it names |
| Catalog.OfferAll | glaciers.py:172-187 | the working set after every measured glacier offered its latest balance, as `TopN.Select` states it |
| Catalog.OfferChange | glaciers.py:176-187 | one offer is one `TopN.Step` with the score of its direction; it fails exactly when n <= 0 and the working set is empty |
| Catalog.EarliestOf | glaciers.py:196-203 | the earliest first year, starting from the current year |
| Catalog.CountShrinkers | glaciers.py:206-214 | the numbers of measured glaciers and of those whose latest balance is negative |
| OrderedDict.PutItems | glaciers.py:124 | with distinct keys, an update keeps keys distinct, holds the new item and every item of another key, and grows only for a new key |
| OrderedDict.PutKeys | glaciers.py:124 | an update keeps the keys in place and appends a new key |
| OrderedDict.RemoveAtItems | glaciers.py:127 | a pop leaves exactly the items of other keys, distinct, one fewer |
| TopN.MaxIndex | glaciers.py:125-126 | `max()`: the first position holding the largest value |
| TopN.SelectSnoc | glaciers.py:119-128 | offering one more item is one more step of the loop |
| TopN.SelectFails | glaciers.py:123-126 | the working-set loop raises exactly when n <= 0 and something is offered |
| TopN.SelectBounded | glaciers.py:117-130 | for n > 0: at most n items, distinct keys, each one of those offered |
| TopN.SelectKeepsBest | glaciers.py:117-130 | with distinct keys: min(n, offered) items, and no item left out scores better than one kept |
| TopN.StepKeepsBest | glaciers.py:123-128 | one step preserves the top-n invariant for a new key |
| TopN.StepCollides | glaciers.py:123-128 | an offered key already held overwrites it: with room the keys stay the same; once full, evicting another key shrinks the set by one |
| TopN.SelectOne | glaciers.py:117-130 | with n = 1, the single item kept scores no worse than any offered item, whatever the keys |
| TopN.SortDescending | glaciers.py:189 | `sorted(..., reverse=True)`: a permutation of the working set, in non-increasing score, keys still distinct |
| CodePattern.FirstWildcard | glaciers.py:146 | `code.index('?')`: the first wildcard position |
| CodePattern.Expand | glaciers.py:139-155 | the loop ends with exactly the candidates of `Expansion`, in their order: no wildcard left, exactly the strings the pattern matches, 10^(wildcards) of them, and a plain pattern yields itself alone |
| CodePattern.RoundsFacts | glaciers.py:142-155 | after r rounds, up to the number of wildcards, there are 10^r candidates, each with r wildcards fewer, matching together exactly what the pattern matches |
| CodePattern.ExpansionFacts | glaciers.py:139-155 | the final candidates hold no wildcard, are exactly the strings the pattern matches, number 10^(wildcards), and are the pattern alone when it has none |
| CodePattern.ExpansionsMatch | glaciers.py:144-149 | expanding one candidate loses and adds no matched string |
| CodePattern.ExpandAllMatch | glaciers.py:143-149 | one round of the loop keeps the set of matched strings |
| CodePattern.ExpandAllCount | glaciers.py:143-150 | a round multiplies the candidates by ten, each with one wildcard fewer |
| CodePattern.ExpandAllFixed | glaciers.py:151-153 | without wildcards a round changes nothing, the loop's exit |
| CodePattern.AllWildcardsSelect | glaciers.py:152-158 | "???" selects exactly the codes 0 to 999 |
| CodePattern.PlainPatternSelects | glaciers.py:152-158 | a pattern without wildcards selects exactly the code it reads as |
| Queries.NearestFails | glaciers.py:115-130 | `find_nearest` fails exactly when n <= 0 and the catalog is not empty |
| Queries.NearestBounded | glaciers.py:117-130 | for n > 0: at most n names, none twice, each the name of a glacier of the catalog |
| Queries.NearestClosest | glaciers.py:117-130 | with distinct names: min(n, size) names, and no glacier left out is closer than one returned |
| Queries.NearestOne | glaciers.py:115-130 | with n = 1, one name, of a glacier no other is closer than |
| Queries.LatestItemsComplete | glaciers.py:172-174 | every measured glacier offers its latest balance |
| Queries.LatestFails | glaciers.py:163-190 | the ranking fails exactly when n <= 0 and some glacier is measured |
| Queries.SortByLatestInRange | glaciers.py:189 | every ranked position is a catalog position |
| Queries.LatestRanked | glaciers.py:163-190 | for n > 0: at most n glaciers, all measured, in strictly decreasing latest balance (increasing with reverse), so no two share a value |
| Queries.LatestTop | glaciers.py:163-190 | with distinct latest balances: min(n, measured) glaciers, and no measured glacier left out ranks before one returned |
| Queries.LatestOne | glaciers.py:163-190 | with n = 1 and some glacier measured: one glacier with the highest latest balance (the lowest with reverse) |
| Queries.SelectedNamesMembers | glaciers.py:157-161 | a name is returned exactly when it is the name of a glacier whose code the pattern selects |
| Queries.PlainPatternNames | glaciers.py:139-161 | a pattern without wildcards returns the names of the glaciers with the code it reads as, and never fails |
| Queries.IntPatternNames | glaciers.py:135-161 | an integer argument returns the names of the glaciers with that code, and never fails |
| Queries.AllWildcardsNames | glaciers.py:139-161 | "???" returns the names of the glaciers whose code lies in 0..999, and never fails |
| Queries.EarliestYearBounds | glaciers.py:196-203 | the earliest year is no later than the current year, nor than any measured glacier's first year, and is one of them |
| Queries.MeasuredItems | glaciers.py:206-211 | the measured glaciers are counted once each; the count is 0 exactly when none is measured |
| Queries.ShrinkerBounds | glaciers.py:206-214 | shrinkers <= measured; 0 exactly when none shrank; equal exactly when every measured glacier shrank |
| Queries.SummaryPercent | glaciers.py:192-216 | the summary fails exactly when nothing is measured; otherwise it counts every glacier, and the percentage lies in 0..100, is 0 exactly when none shrank, and is 100 exactly when all measured shrank |
| Queries.ExtremesCases | glaciers.py:222-242 | it fails for want of a measured glacier, of one that grew, or of one that shrank, in that order; otherwise it names a glacier with the highest latest balance, which grew, and one with the lowest, which shrank |

## Left out

- File handling: `open`, reading headers, `csv.reader` and the column lookup (glaciers.py:58-73, 87-98). Rows arrive as records already split into their cells.
- `float(...)` on the coordinate and balance cells: rows carry these as numbers, so malformed numeric text is not modelled.
- `int(...)` forms beyond a sign and ASCII digits: surrounding whitespace, underscores and non-ASCII digits are not accepted by the model.
- Plotting: `plot_mass_balance` and the drawing half of `plot_extremes` (glaciers.py:37-51, 230-256), which only render.
- `haversine_distance` (utils.py): `find_nearest` takes the distance as a function parameter, so no property of the haversine formula is used.
- `datetime.now()` in `summary` is a parameter, the current year.
- `round(...)` and the three `print` calls of `summary`: the model returns the exact percentage as a real, with the glacier count and earliest year, instead of printing a rounded integer.
- The module-level script (glaciers.py:259-264).
- Catalog.GlacierCollection.SortByLatestMassBalance: the working set stores each glacier's catalog position instead of the `Glacier` object, and the result is looked up by those positions. The glaciers returned are the same objects.
- Default arguments: the model has no `n=5` (glaciers.py:115, 163) or `reverse=False` (glaciers.py:163). Every call passes `n` and `reverse` explicitly, and `Catalog.GlacierCollection.PlotExtremes` passes 1 and false, then 1 and true, as `plot_extremes` does at glaciers.py:224 and 238.
- Catalog.GlacierCollection.FilterByCode: the assertion on the argument's kind is the type `Queries.CodeQuery`, a text or an integer pattern.
- Queries.NearestClosest and Queries.LatestTop: the true top-n property is stated only for distinct names and distinct latest balances. With collisions it does not hold, and `TopN.StepCollides` states the mechanism instead.
