# Population table missing-value repair, modelled in Dafny

This project models the missing-value repair of `clean_population_data.py`.
The script cleans a table of demographic records
`(income_groups, age, gender, year, population)`.
After type conversion, an absent age, gender, year or population is the integer `-1`.
An absent income bracket is a null.
Gender `3` is an invalid code and also counts as missing.

The repair runs in this order:

1. the sentinel classifier lists, per column, the rows whose value is missing;
2. the gender completer gives a listed row the other gender code when its
   (income, age, year) cohort shows exactly one of the codes 1 and 2;
3. the income completer gives a listed row the one bracket that its
   (gender, age, year) cohort of exactly four rows does not yet show;
4. the population carry-forward copies the nearest earlier known population
   into each missing one;
5. the residual filter drops every row that still holds `-1`, gender `3` or a null.

Both completers write into the table while they loop over their index lists.
So a value filled for one row is evidence for the rows processed after it.
The model keeps this behaviour:

- each completer is a one-step function on the current table (`GenderStep`, `IncomeStep`);
- a left fold applies that step over the index list (`GenderPass`, `IncomePass`);
- a method over an `array<Row>` has the loop invariant `a[..] == Pass(old(a[..]), idx[..k])`.

The lemma `GenderFill.EarlierFillIsEvidence` shows the effect on a concrete table.

The two pre-cleaning helpers (`remove_typos`, `remove_duplicates`) are modelled too.
So are the year range filter and the age and era binning that follow the repair.

Modules, one per component:

- `Wrappers` — `Option`;
- `Table` — the row type, the sentinels, the missing-value rule per field, and an order-preserving `Filter`;
- `Classify` — the sentinel classifier;
- `GenderFill` — the gender completer;
- `IncomeFill` — the income completer;
- `PopulationFill` — the population carry-forward;
- `Residual` — the residual filter;
- `PreClean` — typo stripping and duplicate removal;
- `Features` — the year filter and the binning;
- `Pipeline` — the repair in the script's order.

Details of the code that the model keeps as written:

- The gender cohort does not exclude year `-1`. A row with year `-1` uses peers whose year is also `-1`.
- The completers write into the table in place, in index order. A frozen snapshot per pass would behave differently: it would fill both rows of `EarlierFillIsEvidence`, where the code fills only the first.
- The residual filter drops only `-1` values, gender `3` and nulls. A gender code other than 1, 2, 3 and `-1`, such as `0` or `4`, survives it.

## Model

| member | source | states |
|---|---|---|
| `Classify.MissingRows` | clean_population_data.py:36-47 | the list holds, in ascending order, exactly the positions whose field is missing |
| `Classify.FindMissingDataIndex` | clean_population_data.py:34-51 | a row is listed for income iff the income is null, for age/year/population iff the value is -1, for gender iff it is -1 or 3; every list ascends |
| `Classify.NoMissingRows` | clean_population_data.py:36-40 | a column with no missing value gives an empty list |
| `Classify.NothingMissing` | clean_population_data.py:34-51 | a table with nothing missing gives five empty lists |
| `GenderFill.InferGender` | clean_population_data.py:94-114 | the inferred code is 2 iff the cohort shows 1 and not 2, 1 iff it shows 2 and not 1, and nothing iff it shows both or neither |
| `GenderFill.GenderStep` | clean_population_data.py:94-114 | one iteration changes at most the gender of the processed row: 2 when the cohort shows only 1, 1 when it shows only 2, otherwise the table is unchanged |
| `GenderFill.GenderPass` | clean_population_data.py:89-117 | the pass keeps the row count, changes only the gender column, changes no row outside the index list, and every changed gender is 1 or 2 |
| `GenderFill.NoCohortUnchanged` | clean_population_data.py:99-103 | a row with null income or age -1 is never changed by the pass |
| `GenderFill.EarlierFillIsEvidence` | clean_population_data.py:91-114 | on a concrete cohort, the gender filled for the first listed row makes the cohort ambiguous for the second, which stays unchanged |
| `GenderFill.FillMissingGender` | clean_population_data.py:89-117 | the in-place loop leaves the array equal to the pass applied to its old contents |
| `IncomeFill.Cohort` | clean_population_data.py:65-71 | the cohort names rows of the table; the row being repaired is in its own cohort iff its age and year are not -1 and its gender is neither -1 nor 3; an invalid key gives an empty cohort |
| `IncomeFill.SoleMissing` | clean_population_data.py:79-83 | a bracket is returned iff exactly one expected bracket is absent from the present ones, and it is that bracket |
| `IncomeFill.IncomeStep` | clean_population_data.py:59-84 | one iteration changes at most the income of the processed row |
| `IncomeFill.PresentMeansCarried` | clean_population_data.py:79 | a bracket is among the present values iff some cohort row carries it |
| `IncomeFill.SoleMissingMeansSoleAbsent` | clean_population_data.py:79-83 | the set difference is the single bracket b iff b is the only expected bracket that no cohort row carries |
| `IncomeFill.QuartetCompletion` | clean_population_data.py:73-84 | a cohort of exactly four rows that carries every expected bracket but b makes the row's income b |
| `IncomeFill.OnlyDeterminedBracketWritten` | clean_population_data.py:73-84 | whenever the step changes the table, the cohort has four rows and the value written is the one expected bracket it lacks |
| `IncomeFill.AmbiguousCohortSkipped` | clean_population_data.py:75-84 | a cohort without exactly four rows, or showing all four brackets, or lacking two or more leaves the table unchanged |
| `IncomeFill.InvalidKeyNeverFilled` | clean_population_data.py:65-71 | a row whose gender is -1 or 3, or whose age or year is -1, has an empty cohort and is never filled |
| `IncomeFill.IncomePass` | clean_population_data.py:54-85 | the pass keeps the row count, changes only the income column, changes no row outside the index list, and every written value is one of the four expected brackets |
| `IncomeFill.InvalidKeyUnchanged` | clean_population_data.py:59-85 | a row whose gender, age or year rules out a cohort is unchanged by the whole pass |
| `IncomeFill.FillMissingIncomeGroups` | clean_population_data.py:54-85 | the in-place loop leaves the array equal to the pass applied to its old contents |
| `PopulationFill.ForwardFill` | clean_population_data.py:120-128 | the fill keeps the row count, changes only the population column, and leaves rows with a known population as they are |
| `PopulationFill.FillPrefix` | clean_population_data.py:127 | filling a prefix of the table gives the prefix of the filled table |
| `PopulationFill.FillAt` | clean_population_data.py:127 | a filled population is the row's own when known, missing on the first row, else the filled value of the row before |
| `PopulationFill.NearestEarlierCarried` | clean_population_data.py:123-127 | a missing population becomes the value of the nearest earlier row that has one |
| `PopulationFill.LeadingMissingStays` | clean_population_data.py:123-127 | a row with no known population at or before it stays missing |
| `PopulationFill.NothingToFill` | clean_population_data.py:123-127 | a table without a missing population is unchanged |
| `PopulationFill.FillExamples` | clean_population_data.py:123-127 | [50, -1, -1, 80] becomes [50, 50, 50, 80], and [-1, 7] stays as it is |
| `PopulationFill.FillMissingPopulation` | clean_population_data.py:120-128 | the in-place scan leaves the array equal to the forward fill of its old contents |
| `Residual.DropResidual` | clean_population_data.py:193-195 | every surviving row has a non-null income, no -1 field and gender not 3; each resolved row is kept as many times as it occurs and every other row not at all; the output is an order-preserving subsequence no longer than the input |
| `Residual.ResolvedIffNothingMissing` | clean_population_data.py:193-195 | a row survives the filter iff the classifier would report none of its fields missing |
| `Residual.CleanTableKept` | clean_population_data.py:193-195 | a table of surviving rows passes the filter unchanged |
| `Pipeline.Repair` | clean_population_data.py:188-195 | every row of the repaired table is resolved and the table is no longer than the input |
| `Pipeline.ResolvedTableUnchanged` | clean_population_data.py:188-195 | a table whose rows are all resolved comes out of the repair unchanged |
| `Pipeline.RepairIdempotent` | clean_population_data.py:188-195 | repairing a repaired table changes nothing |
| `Pipeline.RepairMissingValues` | clean_population_data.py:188-195 | afterwards the array holds the old table completed by the gender pass, then the income pass (both over the index lists of the old table), then the forward fill; the returned table is the repair of the old table, all rows resolved |
| `PreClean.StripTypo` | clean_population_data.py:11 | deleting "_typo" never lengthens a string |
| `PreClean.NoTypoUnchanged` | clean_population_data.py:11 | a string without "_typo" is unchanged |
| `PreClean.TypoDeleted` | clean_population_data.py:11 | an occurrence of "_typo" anywhere in a string is deleted, and the text before and after it is stripped independently |
| `PreClean.FirstTypoDeleted` | clean_population_data.py:11 | the first occurrence of "_typo" is deleted, the text before it is kept and the text after it is stripped; with `NoTypoUnchanged` this fixes the result on every string |
| `PreClean.InnerTypoExample` | clean_population_data.py:11 | "low_typo_income" becomes "low_income" |
| `PreClean.TwoTyposExample` | clean_population_data.py:11 | "low_typo_typo" becomes "low": every occurrence is deleted |
| `PreClean.JoinedTypoExample` | clean_population_data.py:11 | "_ty_typopo" becomes "_typo": the replacement is a single left-to-right pass, so an occurrence formed by a deletion stays |
| `PreClean.TrailingTypoDropped` | clean_population_data.py:11 | appending "_typo" to a string does not change the stripped result |
| `PreClean.TypoSuffixRepaired` | clean_population_data.py:11 | a string without "_typo", followed by "_typo", maps back to the string |
| `PreClean.BracketTyposRepaired` | clean_population_data.py:11 | each expected bracket followed by "_typo" (e.g. "high_income_typo") maps to the bracket |
| `PreClean.RemoveTypos` | clean_population_data.py:9-12 | only the income column changes, nulls stay null, and an income without "_typo" is unchanged |
| `PreClean.RemoveDuplicates` | clean_population_data.py:15-17 | the result is never longer than the table; what it keeps is stated by `DuplicatesRemoved`, `KeptInOrder` and `KeptPrefix` |
| `PreClean.DuplicatesRemoved` | clean_population_data.py:15-17 | the kept rows are pairwise distinct and are exactly the rows of the table |
| `PreClean.KeptInOrder` | clean_population_data.py:15-17 | the kept rows are an order-preserving subsequence of the table |
| `PreClean.KeptPrefix` | clean_population_data.py:15-17 | the rows kept from any prefix come first in the result, so each row is kept at its first occurrence |
| `PreClean.DistinctKept` | clean_population_data.py:15-17 | a table without repeated rows is returned as it is |
| `Features.KeepReasonableYears` | clean_population_data.py:220 | each row with year between 1950 and 2100 is kept as many times as it occurs, every other row not at all, in the original order |
| `Features.AgeGroupOf` | clean_population_data.py:227-228 | an age gets a label iff -1 < age <= 100, and the label of rank k covers (bins[k], bins[k+1]] of the bin list [-1, 18, 35, 60, 100] |
| `Features.EraOf` | clean_population_data.py:230-231 | a year gets an era iff 1949 < year <= 2100, and the era of rank k covers (bins[k], bins[k+1]] of the bin list [1949, 1980, 2000, 2025, 2100] |
| `Features.AgeBinsOrdered` | clean_population_data.py:227-228 | an age gets a bin iff it is between 0 and 100, and an older age never gets an earlier bin |
| `Features.EraDefinedAfterYearFilter` | clean_population_data.py:220-231 | every row that passes the year filter gets an era, and a later year never gets an earlier era |

## Left out

- Reading and writing the CSV files, all printed diagnostics, `df.info`/`describe`, and the dtype comparison with the original file: these are I/O and reporting.
- Plotting (`plot_boxplot`, the correlation heatmap): output only.
- Outlier trimming by interquartile range: it works on float quantiles.
- One-hot encoding and the correlation matrix: library calls with no stated contract.
- `convert_types`: the model starts from its result. A null integer cell is `-1`, and the income column is an `Option<string>`. Float-to-int casting and the pandas categorical dtype are not modelled. As a consequence, the model lets the income completer write a bracket that no row of the table carries, where pandas raises a TypeError because the bracket is not a category of the column: for a (gender 1, age 30, year 2000) cohort of a null and the three other brackets, in a table with no "high_income" row at all, `IncomeStep` writes "high_income" and the script stops.
- Row labels: the pandas index after `drop_duplicates` can have gaps. The index lists are modelled as positions in the table, which correspond to the labels one to one and in the same order.
- Population NA: after the carry-forward, a leading missing population is NA in pandas. The model keeps it as `-1`. The residual filter drops it either way.
- PreClean.RemoveTypos: its contract does not give the stripped value of an income that contains "_typo". That value is `StripTypo` of the income, and its properties are the `StripTypo` lemmas. It also leaves out an error path: when no row has an income, pandas reads the column as floats and `.str.replace` raises AttributeError, where the model returns the table unchanged.
- PreClean.RemoveDuplicates: it compares rows after type conversion, while the script removes duplicates before it. The two agree except where the conversion maps distinct raw values to one value: a blank and a literal `-1`, or floats with the same integer part (30.2 and 30.7).
- Bin labels: the label names of the bins ('Child', 'Young Adult', …) are modelled as datatype constructors, not strings.
