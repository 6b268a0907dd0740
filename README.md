# Memory task trial processing, modelled in Dafny

This project models the trial-processing script of a recognition-memory experiment
(`memory_task_data.py`). The script reads one session's recognition log, repairs missing
onset timestamps, cuts the trial stream into runs wherever the presentation clock restarts,
and writes one table per run. Each table row gets its material type (Object, Scene, Pair),
its signal-detection outcome (Hit, Miss, CR, FA), its material attribute (Living/Nonliving,
Indoor/Outdoor, Likely/Unlikely) and its response time.

Modules, one per stage of the script:

- `Wrappers` (`wrappers.dfy`): the `Option` type. `None` stands for a pandas NaN cell.
- `Timestamps` (`timestamps.dfy`): the forward fill of `stimulus_start_time`. It is an
  in-place method over an array (`ForwardFill`), specified by the function `FFill`.
- `Segmenter` (`segmenter.dfy`): the run-assignment loop. It is a method over an array
  (`AssignRuns`) specified by `RunIds`. The module also has the encounter-order `unique()`
  of the Run column and the per-run row filter.
- `Classifier` (`classifier.dfy`): `extract_material_type`, `signal_detection`,
  `material_attribute` and the response-time subtraction, as total functions.
- `Pipeline` (`pipeline.dfy`): a trial record, the fixed output record, and the whole
  script on one session (`ProcessSession`), specified by `Session`.

How NaN behaves in the model:

- A comparison with a missing onset is false, as a NaN comparison is in pandas. So a row
  next to a missing onset never starts a new run.
- A missing correctness flag is not equal to 1. So it gives Miss for an Old trial and FA
  for a New or Lure trial, never Hit or CR.
- `str` turns a missing conditions-file cell into `"nan"`, which matches no material type.
- A missing operand makes the response time missing.

Line 11 replaces the start-time column before anything else reads it. So the segmenter,
`Onset_Time` and `Response_Time` all use the filled onsets. A row whose own start time was
missing gets a response time measured from an earlier row's onset. The model keeps this
behaviour.

The number of runs is not fixed. It is one more than the number of clock resets. The
comment at line 13 says there are 4 runs, but no code depends on that number.

## Model

| member | source | states |
|---|---|---|
| `Timestamps.ForwardFill` | memory_task_data.py:10-11 | after the in-place fill of the column, the array equals `FFill` of its old contents |
| `Timestamps.FFill` | memory_task_data.py:11 | the filled column has the same length, and every present onset is unchanged |
| `Timestamps.FillFromNearest` | memory_task_data.py:10-11 | a missing onset takes the value of the nearest earlier present onset |
| `Timestamps.FillComesFromEarlier` | memory_task_data.py:10-11 | every filled value was present at that row, or at an earlier row followed only by gaps |
| `Timestamps.FillMissingIffLeading` | memory_task_data.py:10-11 | a cell is still missing after the fill exactly when it and every earlier cell were missing (leading gaps stay) |
| `Timestamps.FillLeavesLeadingGaps` | memory_task_data.py:11 | after the fill, a missing cell can only be preceded by missing cells |
| `Timestamps.FFillIdempotent` | memory_task_data.py:11 | filling twice gives the same column as filling once |
| `Segmenter.AssignRuns` | memory_task_data.py:14-22 | the loop creates a fresh Run column equal to `RunIds` of the onsets |
| `Segmenter.RunIds` | memory_task_data.py:14-22 | one run id per row; row 0 is in run 1; each later row is in the previous row's run, plus one when its onset is strictly less than the previous onset |
| `Segmenter.RunCountsResets` | memory_task_data.py:13-22 | the run id of row i is 1 plus the number of rows k in 1..i where the clock resets; at the last row this is the number of runs |
| `Segmenter.RunIdsMonotone` | memory_task_data.py:17-22 | run ids never decrease, and rise by at most j - i between rows i and j |
| `Segmenter.SameRunIffNoReset` | memory_task_data.py:17-22 | two rows share a run exactly when no reset lies between them, so equal onsets never start a run |
| `Segmenter.RunClockAscends` | memory_task_data.py:11-22 | on a filled column, the present onsets inside one run never decrease |
| `Segmenter.ExampleTwoRuns` | memory_task_data.py:14-22 | onsets [1.0, 2.0, 0.5, 1.5] give runs [1, 1, 2, 2] |
| `Segmenter.ExampleConsecutiveResets` | memory_task_data.py:17-22 | each of two consecutive decreases opens its own run, and a missing onset opens none |
| `Segmenter.Unique` | memory_task_data.py:25 | the values of `unique()` are exactly those of the column, each one once |
| `Segmenter.EnumeratedBounds` | memory_task_data.py:14-22 | in a column that starts at 1 and rises by 0 or 1 per row, every id lies between 1 and the last id |
| `Segmenter.UniqueOfEnumerated` | memory_task_data.py:25 | for such a column, `unique()` is exactly [1, 2, ..., K], in that order |
| `Segmenter.RunIdsAreOneToK` | memory_task_data.py:14-25 | the run ids of a nonempty log are exactly 1..K without gaps, and `unique()` lists them in order |
| `Segmenter.RowsOfRun` | memory_task_data.py:27 | the rows kept for run k are at most all rows, and none when no row has id k (its full meaning is stated by `RowsOfRunSelects`) |
| `Segmenter.RowsOfRunSelects` | memory_task_data.py:27 | the rows kept for run k sit at strictly increasing positions of the table, each with run id k, and every row with run id k is kept: exactly the rows of run k, in table order |
| `Segmenter.RowsOfRunNonempty` | memory_task_data.py:25-27 | every run id that occurs in the Run column keeps at least one row, so no per-run table is empty |
| `Segmenter.BlocksPartition` | memory_task_data.py:25-27 | the rows of runs 1..K, joined in run order, are the whole table: each row lies in exactly one run, and order is kept |
| `Classifier.Contains` | memory_task_data.py:35-37 | the substring search is true exactly when the pattern occurs at some index |
| `Classifier.ExtractMaterialType` | memory_task_data.py:34-38 | on the lower-cased text: Object when it has "object"; else Scene when it has "scene"; else Pair when it has "pair"; else None |
| `Classifier.ExtractIgnoresCase` | memory_task_data.py:35-37 | names that differ only in letter case get the same material type |
| `Classifier.ExtractMissing` | memory_task_data.py:34-38 | a missing cell, rendered "nan", gets no material type |
| `Classifier.ExtractObjectOverScene` | memory_task_data.py:35-36 | every name whose lower-cased text contains both "scene" and "object" is classified as Object |
| `Classifier.ExtractObjectOverSceneExample` | memory_task_data.py:35-36 | worked case: "Scene_OBJECT_conds.xlsx" is classified as Object |
| `Classifier.SignalDetection` | memory_task_data.py:41-50 | Old with flag 1 gives Hit, otherwise Miss; New or Lure with flag 1 gives CR, otherwise FA; any other condition gives None |
| `Classifier.SignalDetectionInverse` | memory_task_data.py:41-50 | outcome o is produced exactly when the condition is known, o is a target outcome iff the condition is Old, and o is correct iff the flag is 1 |
| `Classifier.SignalDetectionExamples` | memory_task_data.py:43-50 | worked cases: Old with flag 1 is Hit; Old with flag 0 or a missing flag is Miss; New with flag 1 is CR; Lure with flag 0 is FA; a missing condition gives None |
| `Classifier.MaterialAttribute` | memory_task_data.py:55-70 | an attribute exactly for key num_8 or num_5 with a material type; it belongs to that material, and it is the high one iff the key is num_8 |
| `Classifier.MaterialAttributeRoundTrip` | memory_task_data.py:55-70 | attribute a is produced exactly from its own key and its own material |
| `Classifier.MaterialAttributeExamples` | memory_task_data.py:60-70 | worked cases: num_8 on Object is Living; num_5 on Scene is Outdoor; num_8 on Pair is Likely; key num_7 gives None |
| `Classifier.ResponseTime` | memory_task_data.py:80 | present exactly when both times are present; start plus the result is the end; negative exactly when the end precedes the start |
| `Pipeline.ProcessRow` | memory_task_data.py:79-94 | the material type, outcome, attribute and response time are the classifiers' results for the row (attribute from the row's own material type); the copied columns are unchanged; so the outcome agrees with the condition and flag beside it, the attribute with the material type, and the response time is end minus onset |
| `Pipeline.Session` | memory_task_data.py:10-98 | one output table per run, as many as 1 plus the number of clock resets, and none for an empty log |
| `Pipeline.SessionTableIsRun` | memory_task_data.py:25-27 | table j of a session is the processed rows of run j + 1, which are exactly the rows with run id j + 1 in table order, and it is never empty |
| `Pipeline.SessionCoversEveryRow` | memory_task_data.py:24-98 | the run tables, joined in run order, are every row of the log processed with filled onsets, each once and in order |
| `Pipeline.ProcessSession` | memory_task_data.py:10-98 | the script's output tables equal `Session`, and together they hold every processed row once, in order |

## Left out

- Reading and writing spreadsheet files, and creating the output directory (lines 4-8,
  28-29, 74-75, 97-98): this is file I/O. Writing a raw run file and reading it back is
  taken to be the identity.
- The output file names (`Run<k>_Raw.xlsx`, `Run<k>_Memory_Task_Output.xlsx`) and the
  `print` at line 99: naming and console output.
- The column rename at line 86 and the projection at lines 89-94 are modelled only as the
  fixed record `OutputRow`. There are no column names or dynamic column lookup.
- IEEE-754 floating point: timestamps are exact `real`s, and NaN is `None`. Rounding in the
  subtraction at line 80 is not modelled.
- `Classifier.ExtractMaterialType`: `str.lower()` is modelled for ASCII letters only. Full
  Unicode case mapping is not modelled.
- Values in the Condition, conditions-file and answer-key columns that are not strings, such
  as numbers, are taken to be absent or strings. The flag `Recog1_Resp.corr` is an integer,
  so a float 1.0 is the integer 1.
- The row index is taken to be the default 0..n-1 range that `read_excel` produces, so the
  positional `iloc` at line 19 and the label `loc` at line 22 address the same row.
- The Condition column is read as given. Nothing in this file derives it, links study and
  recognition events, or writes timing files, so the model does not either.
