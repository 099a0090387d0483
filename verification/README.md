# process_log.py, modelled in Dafny

`process_log.py` post-processes the debug logs of the CLEVER robustness
score estimator. It works in four steps:

1. Each log file's `[DEBUG][L1] id ...` lines are read into twelve columns
   (`readDebugLog2array`).
2. The columns become a data frame whose seven numeric columns are
   converted.
3. The file is filed under a model name derived from its base name. Each
   (target label, norm) group of its rows is summarised into a results
   table: the mean bound of the usable rows, and the share of usable rows.
   A row is usable when `pVal > 0.05` and `shape < 1000`.
4. At the end, two tables are printed (bounds, then usable percentages).
   Each shows the norm-2 and norm-i cells of every listed model, label by
   label.

This project models those four steps as pure functions over immutable data
and proves what they promise.

| file | module | models |
|---|---|---|
| `wrappers.dfy` | `Wrappers` | `Option` and `Result` |
| `seqs.dfy` | `Seqs` | list comprehension with a condition (`Keep`), "every" / "some" over a sequence |
| `text.dfy` | `Text` | Python's `str.strip()`, `str.split(c)`, `s.split(c)[0]`, `s.split(c)[1]`, `os.path.basename` |
| `extractor.dfy` | `Extractor` | `readDebugLog2array` over the lines of one file |
| `frame.dfy` | `Frame` | `pd.DataFrame.from_dict` and the `pd.to_numeric` conversions, as rows of the five fields the table reads |
| `naming.dfy` | `Naming` | the model name derived from a file path |
| `aggregate.dfy` | `Aggregate` | groups, the usable filter, the statistics, and the update of the results table |
| `render.dfy` | `Render` | the `order` list and which lines and cells `gen_table` prints |
| `pipeline.dfy` | `Pipeline` | the loop over the files, stopping at the first error |

Points where the behaviour is easy to misread:

- **Sentinel match.** The record sentinel is compared untrimmed. The line
  is stripped and split at `,`, and the text of the first field before its
  first `=` must read exactly `[DEBUG][L1] id ` (trailing space included).
  Individual fields are not trimmed before this comparison.
  `Extractor.AcceptedIff` restates the test on the stripped line.
- **Model-name token.** The model name comes from `_`-separated token 1 of
  the base name, not token 0. Any other token 1 is used verbatim, so an
  extension such as `.log` is kept.
- **Missing token 2.** A `cifar`/`mnist` token 1 with no token 2 stops the
  script (`IndexError`), like a base name without `_`.
- **Empty filtered group.** When a non-empty group has no usable rows, the
  stored percentage is `0 * 100.0 / count_0 = 0.0`, not NaN. Only the mean
  bound is NaN (`None`).
- **Errors.** Every error the script does not catch ends the run:
  - a record field without `=`;
  - a record key that is not one of the twelve columns;
  - columns of different lengths;
  - a text that does not read as a number;
  - a base name with too few tokens.

  Each is a `Failure` carrying the file's path, and no table is produced.

## Model

| member | source | states |
|---|---|---|
| Text.Trim | process_log.py:44 | `strip()` leaves a text with no white space at either end, no longer than the input, and empty exactly when the input is all white space |
| Text.TrimPadded | process_log.py:53-54 | stripping white space around a text without edge white space gives back that text |
| Text.TrimIdempotent | process_log.py:53-54 | stripping twice is stripping once |
| Text.Split | process_log.py:44 | `split(c)` gives at least one piece, no piece contains `c`, the pieces joined with `c` give back the input, and there are two or more pieces exactly when `c` occurs |
| Text.SplitJoin | process_log.py:44 | splitting pieces joined with `c`, none containing `c`, gives back the pieces |
| Text.SplitCons | process_log.py:104 | a text `a c b` with no `c` in `a` splits into `a` followed by the pieces of `b` |
| Text.Before | process_log.py:50 | `split(c)[0]` is the longest prefix without `c`; it is shorter than the input exactly when `c` occurs, and then `c` follows it |
| Text.Second | process_log.py:54 | `split(c)[1]` is the text between the first and second `c`, or up to the end |
| Text.SecondIsSplit | process_log.py:54 | the text between the first and second `c` is piece 1 of `split(c)` |
| Text.BaseName | process_log.py:104 | `os.path.basename` is the suffix of the path after its last `/`, and contains no `/` |
| Text.BaseNameOfPlain | process_log.py:104 | a path without `/` is its own base name |
| Text.BaseNameOfPath | process_log.py:104 | `dir/name` has base name `name` |
| Extractor.Initial | process_log.py:37-38 | the accumulator starts with exactly the twelve columns, all empty |
| Extractor.Accepted | process_log.py:44-50 | a line is a record when its stripped text, split at `,`, has a first field whose text before the first `=` is exactly `[DEBUG][L1] id `; characterised by `AcceptedIff` |
| Extractor.Key | process_log.py:52-53 | a field's key is its text before the first `=`, stripped; pinned down by `FieldParts` |
| Extractor.Value | process_log.py:52-54 | a field's value is its text between the first and second `=`, stripped; pinned down by `FieldParts` |
| Extractor.FieldParts | process_log.py:52-54 | a field `k=v`, optionally followed by `=` and more text, with no `=` in `k` or `v`, has key `k` and value `v`, both stripped |
| Extractor.AppendFields | process_log.py:51-56 | a record's fields are appended without error exactly when every field has `=` and names an existing column; the columns stay the same; a failure names the field without `=` or the unknown key |
| Extractor.AddField | process_log.py:52-56 | appending one field keeps the same columns |
| Extractor.AddFieldAt | process_log.py:52-56 | appending one field grows the column of its key by the field's value and leaves every other column as it was |
| Extractor.AppendFieldsValues | process_log.py:51-56 | each column grows by exactly the values the fields carry for its key, in field order |
| Extractor.AddLine | process_log.py:44-56 | one line of the loop: a non-record leaves the columns as they are; a record succeeds exactly when every field fits, keeps the same columns, and grows each column by the values its fields carry for that key |
| Extractor.AllFitIff | process_log.py:51-56 | the fields fit the columns exactly when each single field does |
| Extractor.ExtractLines | process_log.py:42-58 | extraction succeeds exactly when every record line is well formed, and then returns the twelve columns |
| Extractor.ExtractedColumns | process_log.py:42-56 | each column is the concatenation, in file order, of the values each record line carries for its key |
| Extractor.SentinelOpensRecord | process_log.py:50 | a stripped line that starts with the sentinel followed by `,` or `=` is a record |
| Extractor.RecordHasSentinel | process_log.py:50 | a stripped record line starts with the sentinel followed by `,` or `=` |
| Extractor.AcceptedIff | process_log.py:44-50 | a line is a record exactly when its stripped text starts with `[DEBUG][L1] id ` followed directly by `,` or `=` |
| Extractor.ExpectedLength | process_log.py:37-56 | when every record carries key `k` once, column `k` has one value per record |
| Extractor.RecordsWellFormedIff | process_log.py:51-56 | the records are well formed exactly when each record line, on its own, has `=` in every field and only known keys |
| Extractor.ColumnsAsLongAsRecords | process_log.py:37-56 | when every record carries each of the twelve keys once, extraction succeeds and all twelve columns are as long as the number of records, whatever other lines the file holds |
| Extractor.OnlyRecordsMatter | process_log.py:44-50 | dropping every non-record line changes neither the columns nor the error |
| Frame.ParseColumn | process_log.py:96-102 | converting a column succeeds exactly when every text reads as a number, and keeps them element by element; a failure names the column and a text that does not read |
| Frame.FrameColumnsExtracted | process_log.py:37-38 | the extractor's columns include every column the frame reads |
| Frame.ToRows | process_log.py:93-102 | the frame is built exactly when the columns have one length and the seven numeric columns all convert; ragged columns are reported first; there is one row per id value, made of that position of each column |
| Naming.ModelName | process_log.py:104-110 | an error names the base name that has too few tokens; a derived name comes from a base name containing `_` |
| Naming.SecondToken | process_log.py:104 | for a base name `t0_t1...`, token 1 is `t1` |
| Naming.ThirdToken | process_log.py:108 | for a base name `t0_t1_x`, token 2 is `x` up to its first `_` |
| Naming.CutTwice | process_log.py:108 | token 2 cut at `.` is `t2` when `t2` is followed by `_`, `.` or nothing |
| Naming.ModelNameOther | process_log.py:104-110 | a base name `t0_t1...` whose `t1` is not `cifar`/`mnist` gives `t1` verbatim |
| Naming.ModelNameDataset | process_log.py:104-108 | a base name `t0_cifar_t2...` or `t0_mnist_t2...` gives the tag, `_`, and `t2` cut at its first `.` |
| Naming.ModelNameNoToken1 | process_log.py:104 | a base name without `_` is an error |
| Naming.TwoTokens | process_log.py:104 | `t0_t1`, with no `_` in either, has exactly the tokens `t0` and `t1` |
| Naming.ModelNameNoToken2 | process_log.py:107-108 | `t0_cifar` or `t0_mnist` with nothing after the tag is an error |
| Aggregate.AllGroupsCover | process_log.py:118-119 | the two loops visit every (label, norm) group |
| Aggregate.GroupsDisjoint | process_log.py:120 | a row belongs to at most one group |
| Aggregate.Select | process_log.py:120 | a group's rows are exactly the rows with that `info` and `bnd_norm` |
| Aggregate.SelectCopies | process_log.py:120 | a group's rows keep every copy of each row of the group and no copy of any other row |
| Aggregate.Filter | process_log.py:132 | the usable rows are exactly the rows with `pVal > 0.05` and `shape < 1000`; none is dropped exactly when all are usable |
| Aggregate.FilterCopies | process_log.py:132 | the usable rows keep every copy of each usable row and no copy of any other row |
| Aggregate.FilterCount | process_log.py:132-139 | `count_1` is the number of positions of the group holding a usable row |
| Aggregate.FilterIdempotent | process_log.py:132 | filtering the usable rows again keeps them all |
| Aggregate.SumWithin | process_log.py:138 | the sum of bounds lies between count × lowest and count × highest bound |
| Aggregate.MeanBnd | process_log.py:135-138 | the mean bound is NaN (`None`) exactly when there are no rows |
| Aggregate.MeanWithin | process_log.py:138 | the mean bound lies between the lowest and the highest bound |
| Aggregate.Percent | process_log.py:142 | `count_1 * 100.0 / count_0` lies in [0, 100], times `count_0` it is `count_1 * 100`; it is 100 exactly when all rows count and 0 exactly when none does |
| Aggregate.GroupStats | process_log.py:131-142 | a non-empty group stores as its usable percentage the number of positions holding a usable row, times 100, over the group's size; it lies in [0, 100], is 100 exactly when every row is usable and 0 exactly when none is; the bound is the mean over the usable rows only |
| Aggregate.StoredBoundWithin | process_log.py:132-141 | the stored bound lies within any range that holds the usable rows' bounds, whatever the unusable rows hold |
| Aggregate.PutSlot | process_log.py:141-142 | storing into one norm's slot leaves the other norms' slots unchanged |
| Aggregate.Put | process_log.py:141-142 | storing into one group's slot leaves the other eight slots unchanged |
| Aggregate.EntriesEqual | process_log.py:114-116 | an entry is determined by its nine slots |
| Aggregate.EmptyEntryIsEmpty | process_log.py:113-116 | a new entry has `[nan, nan]` in every slot |
| Aggregate.Refresh | process_log.py:120-142 | one pass of the loop body refreshes its own group's slot only, and only when the group has rows |
| Aggregate.Update | process_log.py:118-142 | after the loops over groups `gs`, each visited group holds its new slot and every other group its old one, however often a group is visited |
| Aggregate.Fill | process_log.py:118-142 | after both loops, each of the nine slots holds the group's statistics when the file has rows for it, and its previous value otherwise |
| Aggregate.Ingest | process_log.py:112-142 | processing a file gives its model an entry and leaves every other model's entry as it was |
| Aggregate.IngestSlot | process_log.py:112-142 | a file's model's slot is the group's statistics when the file has rows for it; otherwise the model's earlier slot, or `[nan, nan]` for a new model; an existing entry is never reset |
| Aggregate.FillIdempotent | process_log.py:118-142 | running the loops twice on the same rows is running them once |
| Aggregate.IngestIdempotent | process_log.py:112-142 | processing the same file twice in a row is processing it once |
| Aggregate.IngestOwnEntry | process_log.py:112-142 | a model's new entry depends only on its previous entry (or its absence) and the file's rows |
| Aggregate.IngestCommutes | process_log.py:112-142 | files of two different models can be processed in either order |
| Aggregate.SelectKnown | process_log.py:120 | dropping the rows of no group leaves each group's rows unchanged |
| Aggregate.StrangersIgnored | process_log.py:118-122 | rows whose `info` or `bnd_norm` matches no group do not affect the table |
| Aggregate.GroupsOfAll | process_log.py:118-120 | a row whose `info` and `bnd_norm` name a group is selected by exactly one of the nine passes, any other row by none |
| Aggregate.GroupSizesSum | process_log.py:118-120 | the nine groups' row lists together have as many rows as the frame has rows of some group: each such row is selected once |
| Render.Present | process_log.py:153-154 | the listed models are exactly the models of `order` that have results |
| Render.PresentAppend | process_log.py:153-154 | listing follows `order` piece by piece, so it keeps `order`'s order |
| Render.PresentOne | process_log.py:153-154 | a one-model order lists the model exactly when it has results |
| Render.OrderDistinct | process_log.py:148 | `order` names no model twice |
| Render.PresentDistinct | process_log.py:148-154 | no model is listed twice |
| Render.Block | process_log.py:151-158 | a label's block is its header followed by one line per listed model, in listing order, with that model's norm-2 and norm-i cells of the label |
| Render.Blocks | process_log.py:151-158 | a table has three lines per listed model plus three headers |
| Render.Table | process_log.py:150-157 | a table has three blocks, opened by the least, random and top2 headers in that order, each with one line per model of `order` that has results |
| Render.MakeReport | process_log.py:160-163 | the bounds table (`gen_table(0)`) is printed first and the usable-percentage table (`gen_table(1,1)`) second; both have the same lines |
| Render.BlockModels | process_log.py:153-157 | in a block, line `i` after the header is model `i - 1` of the listing |
| Render.BlockLineKind | process_log.py:152-155 | in a block, only the first line is a header |
| Render.BlocksLineKind | process_log.py:151-155 | a table line is a header exactly when it opens one of the three blocks |
| Render.BlocksHeaders | process_log.py:151-152 | the three headers are least, random and top2, in that order, and there are no others |
| Render.BlocksOnlyListed | process_log.py:153-157 | every model line of a table names a listed model |
| Render.NoStrangers | process_log.py:153-157 | a model outside `order`, or without results, never appears |
| Render.BlocksListModel | process_log.py:151-158 | model `j` of the listing sits at position `1 + j` of each block |
| Render.EveryPresentModelListed | process_log.py:151-158 | each model of `order` that has results is printed under each of the three labels, at the same position, with that label's cells |
| Pipeline.Load | process_log.py:88-110 | a loaded file's records are well formed, its rows are the rows of its frame (one per record, row `i` made of cell `i` of each column), and it is filed under the name its path derives; malformed records are reported before anything else, then a frame that does not convert; every error names the file |
| Pipeline.LoadSucceeds | process_log.py:88-110 | a file loads exactly when its records are well formed, their frame converts, and its path derives a model name |
| Pipeline.LoadRowCount | process_log.py:37-56 | a loaded file has one row per record when every record carries each key once |
| Pipeline.Run | process_log.py:88-142 | the run over all files succeeds exactly when every file loads |
| Pipeline.RunModels | process_log.py:104-116 | after a run, the table has an entry for exactly the model names of the files |
| Pipeline.Process | process_log.py:88-163 | both tables are printed exactly when every file loads, and they render the run's final table |
| Pipeline.OneBadFileStopsRun | process_log.py:88-102 | one file that does not load, anywhere in the list, stops the run |

## Left out

- File opening and reading (process_log.py:28-35). A file is its path and its lines, as `seq<string>`.
- Command-line parsing and the directory glob (process_log.py:64-86). The run takes the list of files; the order `glob` returns them in is not modelled.
- Pickle persistence of each group's rows (process_log.py:123-128). It is a side effect that does not change the table.
- Progress printing (process_log.py:71, 86, 143-144, 147, 160, 162), and the `{:15s}`/`{:7.3f}` formatting of table lines (process_log.py:152-157). Only which lines and which cells are printed is modelled.
- `pd.to_numeric` (process_log.py:96-102) is the parameter `num: string -> Option<real>`. How a text reads as a number is not modelled; `None` stands for a text it rejects.
- NaN inputs are not modelled. A text that converts to NaN would be left out of pandas' `count` and `mean`; the model counts every row.
- Floating point is not modelled. `0.05`, `1000`, the mean and the percentage are exact reals; rounding in `describe()` and in `* 100.0 /` is not modelled.
- `DataFrame.describe` computes more statistics than the mean and count (process_log.py:131-139); only those two are read, so only they are modelled. The unfiltered mean `bnd_0` is printed but never stored.
- Of the seven converted columns, only `bnd`, `pVal` and `shape` are kept in a row. `g_x0`, `ks`, `loc` and `scale` are converted, so their errors are modelled, but their values are never read.
- The scipy and matplotlib imports (process_log.py:18-24) are unused by this logic.
- Concrete examples (particular file names, particular log lines) are not proved. The name and record lemmas are stated for every text of the given shape instead.
- Naming.ModelName: its own contract only states the error and that a derived name needs `_`. What the name is comes from the lemmas `ModelNameOther`, `ModelNameDataset`, `ModelNameNoToken1` and `ModelNameNoToken2`, which cover base names whose tokens hold no `_` inside them.
