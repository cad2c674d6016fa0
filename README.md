# Internet adoption and prosperity: data reconciliation core

This project models the data-reconciliation core of the dashboard in `index.js`. That is
the code that turns the raw indicator files into the figures the charts draw:

- **Text clean-up.** `stripBOMCRLF` drops a leading byte-order mark and turns CR LF and
  lone CR into LF. The column-name normaliser `norm` drops zero-width spaces, turns each
  run of non-letter, non-digit characters into one space, trims and lower-cases.
- **Long loader** (`loadInternetUsersLong`). It resolves the code, year and value columns
  through the normalised names. It coerces each row (trimmed, upper-cased code; finite
  year; finite value with `%` removed) and drops rows that fail. When more than 60% of
  the first 400 rows lie in (0, 1], it rescales every value to percent. It fails with a
  schema mismatch or with "no rows".
- **Wide loader** (`loadWBIndicatorCSV`). It finds the header line among the first 20
  lines, turns tabs and semicolons into commas, and emits one observation per
  year-named column (`YYYY` or `YYYY [YRYYYY]`) holding a finite number.
- **Latest-record scans.** `latestByCode` keeps, per code, the first record of the
  latest year with a finite value. `pickLatestAtOrBefore` does the same for one code,
  among the years at or before a bound. One fold, `Series.BestOf`, specifies both. The
  imperative scans are proved against it.
- **Gap map** (`renderMaps`). The gap is the latest electricity access minus the latest
  internet use, for each code that has both.
- **Top 10** (`renderTop10`). It takes the latest record per code and the greatest of
  their years, then the ten highest values of that year, in stable descending order.
- **Density values** (`renderDensity`). It takes the exact-year value per code. When
  fewer than 20 codes have one, it takes the latest value at or before the year instead.
- **Scatter rows** (`renderProsperity`) and **by-continent rows**
  (`renderProsperityByContinent`). They pick the latest internet and GDP records at or
  before the year and keep the country when both exist and GDP is positive. The
  by-continent chart also needs a continent. The continent rows are then grouped by
  continent in order of first appearance, and each group yields its size and means.
- **Continent map** (`buildContinentMap`). It takes the continent named by each GeoJSON
  feature, with the last feature winning for a repeated code. A fixed table of 208 codes
  then fills the codes the GeoJSON lacks.

The modules are listed in dependency order:

- `Wrappers` holds `Option` and `Result`.
- `Text` covers strings, `norm`, line splitting and the delimiter rewrite.
- `Records` holds observations and tables, plus the sequence folds for JavaScript `Set`
  and `Map` insertion order.
- `Loaders` holds both loaders.
- `Series` holds the latest-record scans.
- `Maps` covers the gap map, the quick-compare row and the top 10.
- `Density` holds the density values.
- `Prosperity` holds the scatter and by-continent rows.
- `Aggregate` holds the per-continent means.
- `Continents` holds the continent map.

Each loop of the source is a `method` whose `ensures` ties its result to a specification
function. Lemmas then prove what the source promises about that function.

Conventions:

- Every JavaScript number is an exact `real`.
- A JavaScript `Map` is the sequence of its keys in insertion order plus a Dafny `map`.
- The fetches are inputs. `None` stands for a failed fetch or a `null` result.
- `d3.csvParse` and JavaScript's unary `+` are function parameters (`csv`, `num`). `num`
  yields `None` for a non-finite result.
- The year a chart is drawn for is an argument.

Three behaviours of the code are easy to misread, and the model follows the code in each:

- **Duplicate normalised column names.** `new Map(columns.map(...))` keeps the LAST
  column with a given normalised name, not the first (`Loaders.ColumnsByLast`).
- **Tie-break of the latest-record scans.** The scans replace a record only on a strictly
  later year, so among the records of the latest year the FIRST one wins
  (`Series.BestOfSome`, `Series.BestOfFirstLatest`).
- **Russia.** The code pins the Russian Federation to Europe only in the fallback table,
  which applies when no GeoJSON feature names `RUS` (`Continents.RussiaInEurope`). A
  feature that names `RUS` keeps its own label (`Continents.GeoJsonLabelWins`).

## Model

| member | source | states |
|---|---|---|
| Text.StripBomCrlf | index.js:14-18 | The result has no CR and is never longer than the input. A text without CR only loses a leading byte-order mark. |
| Text.FoldKeepsPrefix | index.js:17 | Folding line ends passes a CR-free prefix through unchanged. |
| Text.FoldAtCrLf | index.js:17 | At the first CR, a CR LF pair becomes one LF and folding carries on after it; with the CR-free case this fixes the fold on every text. |
| Text.FoldAtLoneCr | index.js:17 | At the first CR, a CR not followed by LF becomes one LF and folding carries on after it. |
| Text.StripBomCrlfTwice | index.js:14-18 | Cleaning twice equals cleaning once, unless the text starts with two byte-order marks. |
| Text.FoldStartsLikeInput | index.js:17 | Folding line ends neither creates nor removes a leading byte-order mark. |
| Text.RemoveCharSpec | index.js:59 | Removing zero-width spaces removes all of them and keeps every other character with its multiplicity. |
| Text.RemoveCharAppend | index.js:59 | Removal from a concatenation is the removal from each part, in order, so the kept characters keep their order. |
| Text.RemoveCharSingle | index.js:59 | On one character, removal drops it exactly when it is the removed character; with `RemoveCharAppend` this fixes the removal on every text. |
| Text.CollapseSpec | index.js:59 | After collapsing, only letters, digits and single spaces remain. |
| Text.CollapseKeepsWords | index.js:59 | Letters and digits pass through the collapse unchanged and in order. |
| Text.CollapseRun | index.js:59 | A whole run of non-letter, non-digit characters, up to a letter, a digit or the end, becomes one space; with `CollapseKeepsWords` this fixes the collapse on every text. |
| Text.TrimSpec | index.js:59 | `trim` returns the input minus its leading and trailing white space. Everything it drops is white space, and the result neither starts nor ends with white space. |
| Text.TrimEmpty | index.js:82 | A trimmed text is empty exactly when the input is all white space. |
| Text.ToUpperSpec | index.js:82 | Upper-casing leaves no lower-case ASCII letter and changes each character only in case. |
| Text.ToLowerSpec | index.js:59 | Lower-casing leaves no upper-case ASCII letter and changes each character only in case. |
| Text.NormIsNormal | index.js:59 | `norm` yields lower-case letters, digits and single inner spaces, with no leading or trailing space. |
| Text.NormOfNormal | index.js:59 | A name already in that shape is left unchanged by `norm`. |
| Text.NormIdempotent | index.js:59 | Normalising twice equals normalising once. |
| Text.SplitLinesPieces | index.js:102 | No piece of `split("\n")` holds a line feed. |
| Text.JoinSplit | index.js:102 | Joining the pieces of `split("\n")` with line feeds gives the text back. |
| Text.SplitJoin | index.js:107 | Splitting joined lines gives the lines back, when no line holds a line feed. |
| Text.ReplaceDelimiters | index.js:107 | Each tab and each semicolon becomes a comma, in place. Every other character and the length are kept. |
| Text.JoinReplaceEach | index.js:107 | Rewriting each line and then joining equals joining and then rewriting. |
| Records.Distinct | index.js:483 | The `Set` of the codes holds exactly the codes met and is no longer than the list. |
| Records.DistinctNoRepeats | index.js:483 | No code occurs twice in that `Set`. |
| Records.FirstName | index.js:487 | `a \|\| b \|\| fallback` picks the first non-empty name. |
| Loaders.ValueAliases | index.js:66-73 | The normalised value candidates, in order. None of them is empty. |
| Loaders.ColumnsBy | index.js:60 | Every column's normalised name is a key, and each key maps to a column carrying it. |
| Loaders.ColumnsByLast | index.js:60 | Of several columns with the same normalised name, the last one is kept. |
| Loaders.FirstPresent | index.js:62-64 | `get(a) \|\| get(b) \|\| …`: nothing exactly when every alias is absent or empty. Otherwise the first present, non-empty alias's column. |
| Loaders.FirstPresentIff | index.js:73 | The lookup succeeds exactly when some column normalises to one of the aliases. |
| Loaders.FirstPresentEarliest | index.js:73 | The column found belongs to the earliest alias that some column carries. |
| Loaders.ResolveLongColumns | index.js:60-77 | Failure is always the schema mismatch. Each resolved column is a real column whose normalised name is one of its aliases. |
| Loaders.ResolveLongColumnsIff | index.js:62-77 | The schema resolves exactly when a code, a year and a value column are all present. |
| Loaders.ResolveValuePreference | index.js:66-73 | The value column is that of the earliest candidate some column matches. |
| Loaders.CleanCodeSpec | index.js:82 | A cleaned code is empty exactly when the cell is blank. Otherwise it is trimmed and has no lower-case letter. |
| Loaders.PercentStripped | index.js:84 | The value text handed to `+` has no `%`. |
| Loaders.LongRow | index.js:82-87 | A kept row has the cleaned code, which is non-empty, and a value. |
| Loaders.LongRowKept | index.js:81-88 | A row is kept exactly when its code is not blank and its year and value coerce to finite numbers. The kept row carries those numbers and the name cell. |
| Loaders.LongRows | index.js:80-88 | The rows that survive are no more than the table's rows, and each has a clean code and a value. |
| Loaders.LongRowsMembers | index.js:80-88 | A row survives exactly when `LongRow` keeps some table row as it. |
| Loaders.LongRowsSnoc | index.js:80-88 | Rows survive in table order: one more table row appends its kept row, if any, to the survivors. |
| Loaders.LongRowsEmpty | index.js:80-89 | No row survives exactly when every row is dropped. |
| Loaders.CountFractions | index.js:92 | The count of rows in (0, 1] is at most the sample size, and equals it exactly when every row is in (0, 1]. |
| Loaders.LooksFractionalExact | index.js:91-93 | `fracShare > 0.6` holds exactly when 5 × count > 3 × sample size. It is false with no rows. |
| Loaders.Harmonise | index.js:93 | Codes, years, names, count and order are kept. Each value is multiplied by 100 exactly when the sample looks fractional. |
| Loaders.HarmoniseDecisionSampled | index.js:91 | Rows after the first 400 do not affect the decision. |
| Loaders.HarmoniseFractionsToPercent | index.js:91-93 | A table of values in (0, 1] ends up within (0, 100]. |
| Loaders.LoadLong | index.js:54-96 | It fails with "missing source" exactly when the text is missing or empty. A success is non-empty, with clean codes and values. |
| Loaders.LoadLongSucceeds | index.js:75-96 | The load succeeds exactly when the code, year and value columns resolve and some row survives. |
| Loaders.LoadLongRows | index.js:80-96 | A success holds exactly as many rows as survive, in table order. Each keeps its row's code, year and name. Its value is times 100 exactly when the sample looks fraction-encoded. |
| Loaders.LoadLongErrors | index.js:75-89 | "Schema mismatch" exactly when a code, year or value column is missing. "No rows" exactly when every row is dropped. |
| Loaders.LoadInternetUsersLong | index.js:54-96 | The loader as imperative code computes `LoadLong`. |
| Loaders.CoerceRows | index.js:80-88 | The row loop computes `LongRows`. |
| Loaders.HeaderIndex | index.js:103-106 | The index is 0 or a header line among the first 20 lines. |
| Loaders.HeaderIndexFirst | index.js:103-106 | A header line among the first 20 is found, and no header line comes before the one found. |
| Loaders.FindHeaderIndex | index.js:103-106 | The search loop computes `HeaderIndex`. |
| Loaders.YearColumnBare | index.js:117 | Every four-digit year is recognised as a bare column name. |
| Loaders.YearColumnTagged | index.js:117 | Every four-digit year is recognised in the `YYYY [YRYYYY]` spelling. |
| Loaders.YearColumnSound | index.js:117 | A recognised name starts with its year's digits. After them comes nothing, or the same digits in `[YR…]` after optional white space. |
| Loaders.FindColumn | index.js:110-111 | `find` returns nothing exactly when no column has the key. Otherwise it returns the first column that has it. |
| Loaders.CellObs | index.js:117-120 | A cell yields an observation exactly when its column is a year column and it holds a non-empty finite number. The observation carries the year, value, code and name. |
| Loaders.RowObs | index.js:116-121 | Every observation of a row has a value, a four-digit year, the row's code and the row's name. |
| Loaders.RowObsMembers | index.js:116-121 | A row's observations are exactly those its year cells yield. |
| Loaders.WideObs | index.js:114-122 | Every observation read has a value and a four-digit year. |
| Loaders.WideObsMembers | index.js:114-122 | An observation is read exactly when some row contributes it. |
| Loaders.WideObsAll | index.js:114-123 | Nothing is read exactly when no row contributes an observation, and an observation is read exactly when some row contributes it. |
| Loaders.LoadWide | index.js:98-124 | A missing or empty text gives `null`. Otherwise the result is `null` exactly when no row of the parsed table contributes an observation, and else holds exactly the observations the rows contribute, each with a value and a four-digit year. |
| Loaders.LoadWBIndicatorCSV | index.js:98-124 | The loader as imperative code computes `LoadWide`. |
| Loaders.ReadRows | index.js:114-122 | The row loop computes `WideObs`. |
| Loaders.ReadCells | index.js:116-121 | The column loop computes `RowObs`. |
| Loaders.WideTextRewritesDelimiters | index.js:107 | The parsed text is the text from the header line on, with tabs and semicolons turned into commas. |
| Loaders.WideTextWithoutHeader | index.js:102-107 | Without a header line among the first 20 lines, the whole text is parsed. |
| Series.BestOfQualifies | index.js:31-39 | Whatever the scan keeps has the code, a finite value and, when bounded, a year at or before the bound. |
| Series.BestOfNone | index.js:42-51 | The scan keeps nothing exactly when no record qualifies. |
| Series.BestOfSome | index.js:31-39 | What the scan keeps is the first record of the latest qualifying year. |
| Series.BestOfFirstLatest | index.js:42-51 | Conversely, the first record of the latest qualifying year is what the scan keeps. |
| Series.QualifyingCodes | index.js:33-36 | A code is listed exactly when some record of it qualifies. |
| Series.PickLatestAtOrBefore | index.js:42-51 | The loop returns the first latest qualifying record, or nothing exactly when none qualifies. |
| Series.LatestPerCode | index.js:31-39 | The loop's keys are the qualifying codes in order of first qualifying record. Each key's entry is the record the scan keeps, and a code outside the map has none. |
| Series.LatestValueSpec | index.js:446-454 | A latest value exists exactly when the scan keeps a record, and it is the value of the first latest qualifying record. |
| Series.OrEmpty | index.js:140-141 | `x \|\| []`: a missing series reads as no rows, a present one as itself. |
| Maps.GapForSpec | index.js:418-422 | A code has a gap entry exactly when it has latest finite records in both series. The entry is for that code, and its gap is electricity minus internet of those records. |
| Maps.GapRowsMembers | index.js:417-423 | An entry is in the gap map exactly when it is the gap entry of its own code. |
| Maps.GapRows | index.js:414-423 | The two scans and the join loop compute `GapRowsOf`. |
| Maps.JoinLatest | index.js:417-423 | The join loop over the two latest-record maps computes `GapRowsOf` over the map's keys. |
| Maps.GapMapSpec | index.js:415 | The guarded gap map holds exactly the entries of codes that have one. It agrees with the code as written whenever the electricity file loads. |
| Maps.GapWithoutElectricity | index.js:415 | With no electricity file the guarded gap map is empty. |
| Maps.MissingElectricityAborts | index.js:413-415 | With no electricity file the code as written fails, while the guarded version is empty. |
| Maps.QuickGapMatchesMap | index.js:159-166 | The quick-compare gap exists exactly when the gap map has an entry for the code, and then it equals that entry's gap. A missing file gives no figure. |
| Maps.MaxYearSpec | index.js:392 | The greatest year exists exactly when the list is non-empty. It is attained and no year exceeds it. |
| Maps.InsertDesc | index.js:395 | Insertion keeps the elements plus the one inserted (multiset). |
| Maps.InsertDescSorted | index.js:395 | Insertion into a descending list keeps it descending. |
| Maps.SortDesc | index.js:395 | The sort is a permutation. |
| Maps.SortDescSorted | index.js:395 | The sort orders by descending value. |
| Maps.InsertDescStable | index.js:395 | Inserting into a descending list places the record after every record of the same value. |
| Maps.SortDescStable | index.js:395 | The sort is stable: the records of any one value keep their input order. |
| Maps.TopKSpec | index.js:395 | `slice(0, k)` of the sorted list holds min(k, n) of the records, in descending order, and no record left out scores more than one kept. |
| Maps.LatestRecordsKept | index.js:391 | Each latest record is the record `latestByCode` keeps for its code. |
| Maps.LatestRecordsEmpty | index.js:391 | There are latest records exactly when some record is finite. |
| Maps.OfYearMembers | index.js:395 | `filter(d => d.year === yr)` keeps exactly the latest records of that year. |
| Maps.Top10Year | index.js:391-393 | A table year exists exactly when some record is finite, and no latest record is later. |
| Maps.Top10Rows | index.js:391-395 | Ten rows, or all the latest records of the table year when there are fewer, in descending order. Each row is the latest record of its code, of the table year, and no latest record of that year left out scores more than one shown. |
| Maps.Top10 | index.js:390-395 | The imperative version computes `Top10Of`. |
| Density.YearCodesMembers | index.js:441-443 | A code is listed exactly when it has an exact-year finite record. |
| Density.LastAtSpec | index.js:441-443 | A code has an exact-year value exactly when it has an exact-year record, and the value is that of the last such record. |
| Density.ExactYearValues | index.js:439-443 | The loop's keys are the exact-year codes in order of first record, and each value is the last exact-year value. |
| Density.BackfillValues | index.js:445-455 | After the back-fill the keys are the codes with a record at or before the year, each holding its latest value. |
| Density.DensityValues | index.js:437-457 | The draw's values are the exact-year values when at least 20 codes have one, and the back-filled values otherwise. |
| Density.BackfillCoversExact | index.js:441-452 | Every exact-year code also has a record at or before the year, so the back-fill never drops one. |
| Density.DensityCount | index.js:445-457 | There is one value per exact-year code when there are at least 20, and one per code with a record at or before the year otherwise. |
| Density.DensityValueSources | index.js:439-457 | Every value is the finite value of a record no later than the year, and exactly of the year when at least 20 codes have one. |
| Prosperity.Min | index.js:487 | `Math.min` of two years is no greater than either and equals one of them. |
| Prosperity.ProsperityForSpec | index.js:483-488 | A code has a row exactly when it has a qualifying internet record and its latest GDP value at or before the year is positive. The row carries the latest records' values and the older of their years. |
| Prosperity.ProsperityForCode | index.js:483-488 | A row is for its own code, which is a code of the internet series. |
| Prosperity.ProsperityRowsMembers | index.js:482-489 | A row is drawn exactly when it is the row of its own code. |
| Prosperity.ProsperityRows | index.js:481-489 | The row loop computes `ProsperityRowsOf` over `gdp \|\| []`. |
| Prosperity.ProsperityWithoutGdp | index.js:485 | Without a GDP series no country is drawn. |
| Prosperity.ContinentForSpec | index.js:522-528 | A country joins the by-continent chart exactly when it is on the scatter chart and has a non-empty continent, with the same values. |
| Prosperity.ContinentRowsMembers | index.js:521-529 | A row is drawn exactly when it is the row of its own code, and its continent is never empty. |
| Prosperity.ContinentRows | index.js:521-529 | The row loop computes `ContinentRowsOf` over `gdp \|\| []`. |
| Aggregate.ContinentsOfMembers | index.js:532-538 | The groups' continents are exactly those of the rows. |
| Aggregate.GroupOfSnoc | index.js:533-537 | Reading a row adds it to its own continent's group and leaves the other groups unchanged. |
| Aggregate.GroupNonEmpty | index.js:532-538 | Every group has at least one row, so the means never divide by zero. |
| Aggregate.AggregateByContinent | index.js:532-544 | The grouping loop and the mapping compute one point per continent, in order of first row. Each point has the group's size and its sums divided by that size. |
| Aggregate.CountsCoverRows | index.js:532-544 | The group sizes add up to the number of rows. |
| Aggregate.InternetMeanWithin | index.js:542 | A continent's internet mean lies between its smallest and largest share. |
| Continents.FeatureEntrySpec | index.js:615-619 | A feature without properties contributes nothing. A contributed code is non-empty, trimmed and has no lower-case letter, and the continent is non-empty and trimmed. |
| Continents.FeatureEntryReads | index.js:615-619 | A feature with no ISO key, or no continent key, present and non-empty is ignored. A contributed code is the cleaned value of the first such ISO key (`ISO3166-1-Alpha-3`, `ISO_A3`, `ADM0_A3`, `SOV_A3`). Its continent is the trimmed value of the first such continent key. When both cleaned values are non-empty, the feature contributes them. |
| Continents.GeoMapMembers | index.js:613-620 | A code is in the GeoJSON map exactly when some feature contributes it. |
| Continents.GeoMapLastWins | index.js:613-620 | The continent of a code is the one contributed by the last feature that contributes that code. |
| Continents.ContinentMapOf | index.js:610-625 | The map covers the GeoJSON codes and the table's codes. Without GeoJSON it is exactly the table. |
| Continents.BuildContinentMap | index.js:560-626 | The two loops compute `ContinentMapOf`. |
| Continents.AddMissing | index.js:624 | The overlay loop adds exactly the table entries whose code is missing. |
| Continents.GeoJsonLabelWins | index.js:614-624 | A code a feature contributes keeps the last such feature's continent, whatever the table says. |
| Continents.FallbackFillsGaps | index.js:624 | A code no feature contributes takes the table's continent. |
| Continents.FallbackRussia | index.js:588 | The table, listing Russia inside its Asia block, maps it to Europe. |
| Continents.RussiaInEurope | index.js:588 | Unless a feature names `RUS`, Russia maps to Europe. |
| Continents.ContinentsNonEmpty | index.js:561-624 | Every continent in the map is non-empty and trimmed. |
| Continents.FallbackNames | index.js:561-608 | The table names only Africa, Americas, Asia, Europe and Oceania. |

## Left out

- Fetching, the DOM, `vegaEmbed`, chart specifications, display formatting (`toFixed`, `toLocaleString`, the HTML tables) and the boot sequence's rendering are not modelled. Fetch results are inputs.
- `d3.csvParse` and JavaScript's number coercion `+` are parameters, not modelled. The model relies only on `+` giving a finite number or not.
- Floating point: numbers are exact reals, so rounding in `internet * 100`, in the sums and in the means is not modelled.
- Text.ToUpper, Text.ToLower: ASCII case mapping only. JavaScript's full Unicode case mapping is not modelled.
- Text.CollapseSeparators: `\p{L}\p{N}` is approximated by ASCII letters and digits.
- The name sorts by `localeCompare` (index.js:145 for the quick-compare list, index.js:490 for the scatter rows) are not modelled: locale collation is outside the model. The rows are modelled in loop order.
- The quick-compare select defaults and `draw` (index.js:143-153, index.js:169-176) are UI and are not modelled. `rowFor` is modelled (`Maps.QuickRowFor`).
- The year lists for the selects (index.js:434, 477, 516) and `+yearSel.value || years[0]` are UI. The chosen year is an argument.
- Loaders.WideObs: `Object.keys(row)` puts integer-like keys first. The model reads the columns in header order, which changes only the order of observations from the same row.
- Loaders.RowCountry: with no country-name column the source reads `row[undefined]`, that is the column named "undefined". The model gives no name.
- Loaders.RowCode: a wide row with a blank code is kept, as in the source, with an empty code. With no country-code column the source reads `row[undefined]` (index.js:115), the column named "undefined"; the model reads an empty cell.
- GeoJSON property values are modelled as their string forms. `toString` on non-string values is not modelled.
- Continents.GeoMap: a `null` entry in `gj.features` makes `f.properties` throw (index.js:615). The `catch` at index.js:622 then keeps the entries read so far and the table fills the rest. Features are modelled as records, so a `null` feature cannot occur.
- Continents.Fallback: the table is written out in full, all 208 codes in the source's order. That its codes are distinct and number 208 is not stated as a lemma: counting a map display of string keys is beyond what the solver does within its resource limit.
- Continents.AddMissing: `Object.entries` order is not modelled. The table's codes are distinct and only missing codes are added, so the order does not change the result.

## Findings

| source | as written | input that shows it | evidently intended | confidence | as-written member | corrected member |
|---|---|---|---|---|---|---|
| index.js:415 | `latestByCode(elec, "elec")` iterates the electricity loader's result without the `\|\| []` guard used at index.js:141. `loadWBIndicatorCSV` returns `null` when the file is missing or holds no finite value, so `for (const r of null)` throws. The boot sequence awaits `renderMaps` first (index.js:656), so nothing after it renders. | internet series loaded, electricity file missing (`elec == null`) | treat a missing electricity series as empty: no gap entries, rendering continues | not executed | Maps.GapMapAsWritten (Maps.MissingElectricityAborts) | Maps.GapMap (Maps.GapMapSpec, Maps.GapWithoutElectricity) |
