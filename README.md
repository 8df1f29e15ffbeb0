# CSV field matching and primary-key discovery, in Dafny

This project models the two analysis classes of a small pandas tool set.

- `CSVComparator` (testcsv.py) lines up the columns of two CSV files.
  - It puts each column name into a canonical form: stripped, lower-cased and cut down to `[a-z0-9_]`.
  - It scores pairs of names with difflib's similarity ratio.
  - It assigns every column of the first file the best-scoring, still unclaimed column of the second that reaches the similarity threshold with a score above 0, if there is one. A column without such a candidate stays unmapped. This is a greedy, order-dependent, one-to-one matching.
  - It can report the values that two matched columns share and the values only one of them has.
- `CSVPrimaryKeyFinder` (get_csv_primary_key.py) looks for the columns of one loaded table that identify its rows.
  - It lists the single columns that have no duplicate and no null.
  - It lists the combinations of 2 to `max_columns` columns with the same property, in `itertools.combinations` order.
  - It computes per-column uniqueness statistics.
  - It bundles all three results.

## Modules

- `Wrappers`: `Option`.
- `FieldNames`: column labels, name normalisation and the similarity score.
  - The difflib ratio is a parameter: any function into [0, 1].
- `Comparison`:
  - `Greedy`, a specification of the matcher as a fold over the first file's names.
  - `BestMatch`, the specification of the inner scan.
  - The `CsvComparator` class, whose `FindFieldMappings` runs the source's nested loops and is proved equal to `Greedy`.
  - `FindCommonValues`.
- `Tables`: a table is column names plus rows of nullable cells.
  - `IsKey` states what the pandas `duplicated` and `isnull` queries decide.
  - The module also holds the column statistics and their relationships.
- `Fractions`: the real-valued ratio of two counts.
- `Combinations`:
  - `Choose` lists the strictly increasing selections of `r` positions in the order itertools emits them.
  - Lemmas prove that list exact and sorted.
- `PrimaryKeys`:
  - Specification functions for the single and composite keys.
  - The `PrimaryKeyFinder` class, with a `df` field that is `None` when loading failed. Its methods keep the source's loops.

## Model

| member | source | states |
|---|---|---|
| FieldNames.NormalizeFieldName | testcsv.py:18-29 | A missing (NaN) label normalises to the empty name, and every normal form consists only of `[a-z0-9_]` characters. |
| FieldNames.StripIsRedundant | testcsv.py:26-28 | Stripping whitespace never changes the normal form, because the character filter drops every whitespace character anyway. |
| FieldNames.NormalizeConcat | testcsv.py:26-28 | Normalisation works character by character: the normal form of `a + b` is the normal form of `a` followed by that of `b`. |
| FieldNames.NormalizeFixesCanonical | testcsv.py:26-28 | A name made only of `[a-z0-9_]` is its own normal form. |
| FieldNames.NormalizeIdempotent | testcsv.py:18-29 | Normalising a normal form gives it back unchanged. |
| FieldNames.CalculateSimilarity | testcsv.py:31-41 | The score lies in [0, 1]. It is 0 when either normal form is empty; otherwise it is the ratio of the two normal forms. |
| FieldNames.SimilarityOfNormalized | testcsv.py:35-41 | Two names score the same as their normal forms do, so the score depends only on the normal forms. |
| FieldNames.PositiveScoreNeedsNames | testcsv.py:35-39 | A positive score implies that both labels are present, non-empty and have non-empty normal forms. |
| Comparison.BestMatchChoice | testcsv.py:51-61 | The inner scan ends without a match exactly when no unclaimed candidate reaches the threshold with a positive score. Otherwise the match is such a candidate, scores at least as high as every other such candidate, and scores strictly higher than every earlier one, so ties go to the first name. |
| Comparison.GreedyConsistent | testcsv.py:47-67 | The mapping is one-to-one. Its keys come from the first file and its targets from the second. Every target is claimed, and every pair scores at least the threshold and above 0. |
| Comparison.GreedyTargetsAreNamed | testcsv.py:58-65 | Every name ever claimed, including the target of an entry that a repeated first-file name later overwrites, is a present, non-empty name with a non-empty normal form. The same holds for every target in the final mapping. So the `if best_match:` test never discards a real match. |
| Comparison.GreedyDecision | testcsv.py:50-65 | Take distinct first-file names and look at the k-th one. It stays unmapped exactly when no name that is still unclaimed at its turn is eligible. Otherwise it maps to the best match among the names not claimed by earlier names. |
| Comparison.StepDecision | testcsv.py:54-65 | One outer iteration maps a new name to its best unclaimed match when there is one, and leaves it unmapped exactly when there is none. |
| Comparison.EntryStable | testcsv.py:63-65 | With distinct first-file names, later iterations never change the entry an earlier name received. |
| Comparison.GreedyUsedIsTargets | testcsv.py:48-65 | With distinct first-file names, the set of claimed names is exactly the set of targets of the mapping. So "unclaimed at its turn" means "not the target of an earlier name". |
| Comparison.GreedyKeys | testcsv.py:50-64 | Only visited names receive an entry. |
| Comparison.FindCommonValues | testcsv.py:182-201 | Covers both the key-based and the field-based result. It returns nothing exactly when either frame lacks the column. Otherwise a value is common exactly when it occurs non-null in both columns, and unique to a file exactly when it occurs non-null only there. `total_common` counts the common values, and each file's distinct values split into common plus unique. |
| Comparison.CsvComparator.constructor | testcsv.py:7-16 | The comparator keeps the given ratio and threshold, 0.6 unless another is passed. It starts with an empty `field_mapping`. |
| Comparison.CsvComparator.FindFieldMappings | testcsv.py:43-67 | The nested loops compute exactly the greedy assignment. The result is one-to-one and maps first-file names to second-file names. Every pair scores at least the threshold and above 0. |
| Comparison.CsvComparator.CompareColumns | testcsv.py:115-125 | `field_mapping` becomes the greedy assignment of the two files' columns. The comparison goes on exactly when that mapping is non-empty. |
| Tables.NullCountPositive | get_csv_primary_key.py:95 | `isnull().sum()` is positive exactly when the column holds a null. |
| Tables.DuplicateCountZero | get_csv_primary_key.py:96 | `duplicated().sum()` is 0 exactly when no two cells of the column are equal. |
| Tables.CountsAddUp | get_csv_primary_key.py:93-96 | The row count equals the distinct non-null values, plus the duplicates, plus 1 if the column has a null. |
| Tables.RatioInUnitInterval | get_csv_primary_key.py:93-103 | The unique count never exceeds the row count, and the uniqueness ratio lies in [0, 1]. |
| Tables.SingleKeyByCounts | get_csv_primary_key.py:42-44 | A column is a single-column key exactly when its duplicate count and its null count are both 0. |
| Tables.RatioOneIffKey | get_csv_primary_key.py:94-103 | On a table with rows, the uniqueness ratio is 1 exactly when the column is a single-column key. |
| Fractions.Fraction | get_csv_primary_key.py:103 | A count over a positive total at least as large lies in [0, 1], and is 1 exactly when the count equals the total. |
| Combinations.ChooseExactly | get_csv_primary_key.py:67 | `Choose` lists exactly the strictly increasing selections of `r` positions from `lo .. n-1`. |
| Combinations.ChooseSorted | get_csv_primary_key.py:67 | `Choose` lists its selections in strictly increasing lexicographic order, which is the itertools order. |
| PrimaryKeys.SingleKeyColumns | get_csv_primary_key.py:40-45 | A position is listed exactly when it is a single-column key, and the list is in strictly increasing column order. |
| PrimaryKeys.SingleKeysByName | get_csv_primary_key.py:40-47 | A name is reported exactly when it names a column that is a key. |
| PrimaryKeys.PrimaryKeyFinder.constructor | get_csv_primary_key.py:6-26 | The finder holds the outcome of loading: the table read, or nothing when reading failed. A loaded table is rectangular with distinct column names. |
| PrimaryKeys.PrimaryKeyFinder.FindSingleColumnKeys | get_csv_primary_key.py:28-47 | Without a frame the result is empty. Otherwise the loop returns the names of the key columns in column order, and a name is listed exactly when its column has no duplicate and no null. |
| PrimaryKeys.CompositeUpToExactly | get_csv_primary_key.py:66-72 | A combination is listed exactly when its size is at least 2 and below the bound, it is a strictly increasing selection of columns, and it is a key. |
| PrimaryKeys.CompositeKeysExactly | get_csv_primary_key.py:63-74 | A combination is listed exactly when it is a strictly increasing selection of 2 to `min(max_columns, number of columns)` columns that has no duplicate row and no null. |
| PrimaryKeys.CompositeKeysSorted | get_csv_primary_key.py:66-67 | Composite keys are listed by size first and lexicographically within a size. |
| PrimaryKeys.CompositeKeysNotMinimal | get_csv_primary_key.py:66-72 | Listed keys need not be minimal: a single-column key paired with any later null-free column is listed whenever pairs are searched. |
| PrimaryKeys.CollectKeys | get_csv_primary_key.py:67-72 | The inner loop appends, in order, the names of exactly those given combinations that are keys. |
| PrimaryKeys.CompositeKeyNames | get_csv_primary_key.py:62-74 | The outer loop collects the keys of every size from 2 up to the bound, smaller sizes first. |
| PrimaryKeys.PrimaryKeyFinder.FindCompositeKeys | get_csv_primary_key.py:49-74 | `max_columns` defaults to 3. Without a frame the result is empty. Otherwise it returns the names of the listed combinations, and it is empty when `max_columns < 2` or the table has fewer than 2 columns. |
| PrimaryKeys.PrimaryKeyFinder.AnalyzeUniqueness | get_csv_primary_key.py:76-106 | Without a frame the result is empty. Otherwise its keys are exactly the requested names that are columns. Each entry is that column's statistics: total rows, `nunique`, null count, duplicate count and ratio, with the ratio in [0, 1]. |
| PrimaryKeys.PrimaryKeyFinder.FindAllPrimaryKeys | get_csv_primary_key.py:108-138 | `max_composite_columns` defaults to 3. Returns nothing exactly when no frame is loaded. Otherwise it returns the single-column keys, the composite keys for the given maximum, and the statistics of every column. |

## Left out

- Reading files is not modelled. That covers `load_and_preprocess_csv` with its encoding fallback, `load_csv`, `export_comparison_result`, the printing (`print_results`, the console output of `compare_csvs`) and `main`. The outcome of loading a table is a parameter of the `PrimaryKeyFinder` constructor.
- `compare_csvs` is modelled only up to the field-mapping decision (lines 115-125). Building the filtered frames, the key-based row join and the differences after that point are not modelled. `find_common_values` takes their result as a value.
- example_usage.py is not modelled. It is an MCP client that runs shell commands, file operations and web tools through a separate server, and it uses neither class.
- difflib's `SequenceMatcher.ratio` is not modelled. Only its range [0, 1] is used, through an abstract function parameter.
- Floating point is not modelled: scores and ratios are exact reals. For an empty table, the source's integer `0` ratio appears as `0.0`.
- Python dict insertion order is not modelled. The mappings and statistics are maps, and the order of the key lists is modelled exactly.
- `str.lower` is modelled for the ASCII capitals, KELVIN SIGN and LATIN CAPITAL LETTER I WITH DOT ABOVE. These are the only characters whose lower-case form contains a kept character. Every other character keeps its form, which makes no difference after the `[a-z0-9_]` filter.
- Labels in the comparator are strings or missing (NaN). `str()` of other label types (numbers) is not modelled.
- Cell values compare by the equality of the value type `V`. pandas' cross-type equalities (for example `1 == 1.0`) are not modelled; they belong to the equality of `V`.
- Null cells are all `None`, so two nulls are equal. This matches pandas counting a repeated NaN as a duplicate.
- Tables have distinct column names, as pandas gives them when reading a CSV. Selecting a duplicated name, which yields a frame rather than a column in pandas, is not modelled.
- Comparison.FindCommonValues: where the source raises `KeyError` for a missing column, the model returns `None`.
- Comparison.GreedyDecision: it characterises each name's entry only when the first file's names are distinct. With a repeated name, a later occurrence overwrites the entry. `Greedy` and `FindFieldMappings` model that overwrite, but no lemma describes it.
