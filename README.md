# Tobii export splitter and formatter, in Dafny

This project models `TobiiDataProcess`, a small pipeline for eye-tracker
recordings exported by Tobii Pro Lab as a tab-separated table. The pipeline
has three steps:

- **Divide** (`tobii_data_divide`). Split the loaded table by one column, such
  as the recording name, into subsets keyed `"{group}_{participant}"`. Each
  subset is stored in an insertion-ordered dictionary with its index reset.
- **Format** (`tobii_data_format`). For each stored subset:
  - drop the rows whose "Presented Stimulus name" is missing or excluded;
  - read the "Recording start time" of the first remaining row;
  - drop the metadata columns and reset the index;
  - put a leading "time" column of times of day 1/250 s apart. The first time
    is offset from the start time by the position of the first remaining row.

  A failure inside the `try` leaves that subset as it was, and the loop goes
  on with the next one.
- **Save** (`save`). Write each subset to `os.path.join(folder, key + ".csv")`.

The modules:

| module | file | what it holds |
|---|---|---|
| `Frame` | `frame.dfy` | The table model: ordered columns, an index, and rows as maps from column to cell. Cells are missing, text, or a time of day. Also the Python exceptions the pipeline raises, boolean-mask row selection, `drop(labels, axis=1)`, `insert(0, name, values)` and `reset_index(drop=True)`. |
| `StringOrder` | `string_order.dfy` | Python's `<` on `str`, and the sorted distinct values a sorted `groupby` visits. |
| `OrderedDict` | `ordered_dict.dfy` | A Python `dict`. Assigning to an existing key keeps its position; assigning to a new key appends it. |
| `TimeOfDay` | `time_of_day.dfy` | `datetime.strptime(text, "%H:%M:%S.%f").time()` in microseconds after midnight, and the midnight wrap that `.time()` applies. |
| `Partitioner` | `partitioner.dfy` | What `tobii_data_divide` stores, as a function of the loaded table. |
| `Formatter` | `formatter.dfy` | One turn of the `tobii_data_format` loop. The timestamp loop is a method that fills a preallocated array. |
| `Pipeline` | `pipeline.dfy` | The class `TobiiDataProcess`. Its `dividedData` field is the dictionary its methods update. `FormatAll` is the declarative meaning of the formatting loop; `SaveTargets` is the list of files `save` writes. |
| `Scenario` | `scenario.dfy` | A worked example. Four samples: a missing stimulus, an excluded one, then two kept rows that are stamped 8 ms and 12 ms after a 10:00:00.000 start. |

Times are whole microseconds. A sample period of 1/250 s is exactly 4000 us,
and `timedelta` resolves to microseconds.

Three behaviours of the code that are easy to get wrong:

- **Midnight.** `.time()` wraps at midnight silently, so consecutive times are
  4000 us apart modulo one day (`Formatter.ConsecutiveTimes`). They are not
  non-decreasing across midnight.
- **Missing stimulus column.** The stimulus filter runs outside the `try`. A
  subset without a "Presented Stimulus name" column therefore ends
  `tobii_data_format` with a KeyError. Subsets visited before it stay
  formatted; the ones after it are not visited.
- **Save folder.** `save` uses its own `save_folder_path` argument, whose
  default is "./divided_data". It never reads the folder given to the
  constructor. `Save` takes the folder as a parameter for the same reason.

## Model

| member | source | states |
|---|---|---|
| `Frame.Positions` | tobii_data_process/tobii_data_process.py:47-48 | A boolean row mask selects increasing positions: exactly the rows that pass it, in table order. |
| `Frame.DropColumns` | tobii_data_process/tobii_data_process.py:55 | `drop(labels, axis=1)` raises a KeyError naming a missing label if and only if some label is not a column. Otherwise the columns are the old ones less the labels, in their order, and the index, the row count and every remaining cell are unchanged. |
| `Frame.InsertFirst` | tobii_data_process/tobii_data_process.py:63 | `insert(0, name, values)` raises a ValueError if and only if `name` is already a column. Otherwise `name` becomes the first column, row i holds `values[i]`, and every other cell and the index are unchanged. |
| `Frame.ResetIndex` | tobii_data_process/tobii_data_process.py:56 | `reset_index(drop=True)`, here and at line 41, gives the index 0..n-1 and keeps the columns and rows. |
| `StringOrder.LessTotal` | tobii_data_process/tobii_data_process.py:35 | Any two group values are equal or ordered one way, so sorting the groups is well defined. |
| `StringOrder.LessTransitive` | tobii_data_process/tobii_data_process.py:35 | The string order on group values is transitive. |
| `StringOrder.SortedSet` | tobii_data_process/tobii_data_process.py:35 | The groups are visited in strictly increasing order of value, each distinct value once. |
| `OrderedDict.Put` | tobii_data_process/tobii_data_process.py:42 | `d[k] = v` maps `k` to `v` and keeps every other entry. It appends `k` to the key order only when `k` is new, and the keys stay distinct. |
| `OrderedDict.PutAll` | tobii_data_process/tobii_data_process.py:37-42 | Storing entries one by one, as the loop does, keeps each key listed once and the listed keys equal to the mapped ones. `PutAllKeys`, `PutAllOrder` and `PutAllLastWins` state where the entries end up. |
| `OrderedDict.PutAllKeys` | tobii_data_process/tobii_data_process.py:37-42 | After storing a list of entries, the old keys still come first. The key set is the old keys plus the stored ones, and keys not stored keep their old subsets. |
| `OrderedDict.PutAllOrder` | tobii_data_process/tobii_data_process.py:37-42 | After storing a list of entries, the key order is the old keys followed by the new ones, each once, in order of first insertion (`Fresh`). |
| `OrderedDict.PutAllLastWins` | tobii_data_process/tobii_data_process.py:39-42 | When two groups produce the same key, the later subset is the one kept, and the key appears in the dictionary once. |
| `TimeOfDay.WrapDay` | tobii_data_process/tobii_data_process.py:61 | `.time()` of an elapsed time after midnight is a time of day under 24 h. `WrapDayIsMod` shows it is the remainder modulo one day. |
| `TimeOfDay.WrapDayIsMod` | tobii_data_process/tobii_data_process.py:61 | `.time()` drops whole days: the time of day is the elapsed time modulo 86 400 000 000 us. |
| `TimeOfDay.WrapDayAdd` | tobii_data_process/tobii_data_process.py:60-61 | Adding a duration to a wrapped time of day and wrapping again is the same as adding it before wrapping. |
| `TimeOfDay.FractionMicros` | tobii_data_process/tobii_data_process.py:52 | A `%f` field of one to six digits denotes fewer than 1 000 000 us. |
| `TimeOfDay.ParseTime` | tobii_data_process/tobii_data_process.py:52 | A start time that parses is a time of day under 24 h. |
| `TimeOfDay.ParseTimeFields` | tobii_data_process/tobii_data_process.py:52 | Consider text H:M:S.F with 1-2 digits for H, M and S and 1-6 for F. It parses if and only if H ≤ 23, M ≤ 59 and S ≤ 59, and then to the microseconds those fields denote, with F padded on the right. |
| `TimeOfDay.ParseTimeShape` | tobii_data_process/tobii_data_process.py:52 | Only text of the form H:M:S.F parses: 1-2 digits for H, M and S, 1-6 for F, and nothing before or after. Anything else is a ValueError. |
| `TimeOfDay.ParseRender` | tobii_data_process/tobii_data_process.py:52 | Printing a time of day as HH:MM:SS.ffffff and parsing it back gives the same time. |
| `Partitioner.CellText` | tobii_data_process/tobii_data_process.py:39 | A cell formatted in an f-string: a missing value (NaN) prints as "nan", and text prints as itself. |
| `Partitioner.SubsetKey` | tobii_data_process/tobii_data_process.py:39 | The key is the group value, then "_" right after it, then the participant as printed. Each part can be read back at its position. |
| `Partitioner.GroupNames` | tobii_data_process/tobii_data_process.py:35-37 | The group values `groupby` visits are strictly increasing. They are exactly the non-missing values of the group column. |
| `Partitioner.GroupNamesDistinct` | tobii_data_process/tobii_data_process.py:37 | No group value is visited twice. |
| `Partitioner.Subset` | tobii_data_process/tobii_data_process.py:38-41 | The stored subset of a group is well formed, has at least one row, and has the index 0..n-1. |
| `Partitioner.Partition` | tobii_data_process/tobii_data_process.py:35-42 | Dividing fails if and only if the group column is missing, or the participant column is missing while there is a group. It raises a KeyError for that column. Otherwise there is one entry per group value, each well formed with the index 0..n-1. |
| `Partitioner.PartitionEntry` | tobii_data_process/tobii_data_process.py:37-42 | The j-th stored entry is the subset of the j-th group value. |
| `Partitioner.SubsetHoldsItsGroup` | tobii_data_process/tobii_data_process.py:37-41 | A subset holds exactly the rows of its group value, all of them, in table order. It keeps every column, and its index is reset to 0..n-1. |
| `Partitioner.SubsetKeyFormat` | tobii_data_process/tobii_data_process.py:38-39 | The key is the group value, "_", and the participant of the group's first row; a missing participant reads "nan". |
| `Partitioner.EveryRowInOneSubset` | tobii_data_process/tobii_data_process.py:35-37 | A row with a group value is in exactly the subset of that value. A row whose group value is missing is in none. |
| `Formatter.DefaultDeleteColumns` | tobii_data_process/tobii_data_process.py:19-24 | The default columns to drop include "Recording start time" but neither "Presented Stimulus name" nor "time". |
| `Formatter.KeepRow` | tobii_data_process/tobii_data_process.py:47-48 | A row is kept if and only if it has a stimulus value (`dropna`) and no excluded name equals that value (`~isin`). |
| `Formatter.FilterStimulus` | tobii_data_process/tobii_data_process.py:47-48 | Filtering the rows keeps every column and a well-formed table. |
| `Formatter.FilterStimulusSelects` | tobii_data_process/tobii_data_process.py:47-48 | The filter keeps exactly the rows whose stimulus is present and not excluded, in order and with their index labels. |
| `Formatter.StartTime` | tobii_data_process/tobii_data_process.py:51-52 | Reading the start time succeeds if and only if the column exists, there is a row, and its first cell is text that parses. The result is that parsed time. |
| `Formatter.Stamp` | tobii_data_process/tobii_data_process.py:60-61 | The i-th stamp is the time of day (first + 4000·i us) modulo one day. |
| `Formatter.Stamps` | tobii_data_process/tobii_data_process.py:58-61 | The list of timestamps has one slot per row, and slot i holds the i-th stamp. |
| `Formatter.TimeStamps` | tobii_data_process/tobii_data_process.py:58-61 | Filling the preallocated list slot by slot gives, at slot i, the time of day i/250 s after the first. |
| `Formatter.FormatTry` | tobii_data_process/tobii_data_process.py:51-63 | The `try` body, step by step, computes the declarative formatting of a filtered subset, including which exception ends it. |
| `Formatter.Formatted` | tobii_data_process/tobii_data_process.py:51-63 | The `try` body fails if and only if one of these holds: the start time cannot be read; a column to drop is missing; a column left is already named "time". A start-time failure is the exception raised. On success there is one row per filtered row (at least one), and the columns are "time" followed by those left. |
| `Formatter.FormatSubset` | tobii_data_process/tobii_data_process.py:47-63 | A subset without the stimulus column gives the KeyError the filter raises outside the `try`. A formatted subset has at least one row, and exactly as many rows as pass the filter. |
| `Formatter.FormatSubsetSucceedsIff` | tobii_data_process/tobii_data_process.py:47-63 | Formatting a subset succeeds if and only if all of these hold: the stimulus column exists; some row passes the filter; the start time column exists; the first passing row's start time is text that parses; every column to drop exists; no column left is named "time". |
| `Formatter.FormattedShape` | tobii_data_process/tobii_data_process.py:55-63 | A formatted table has "time" first, then the surviving columns in order, and none of the dropped ones other than "time" (which is inserted again). Its index is 0..n-1, it has one row per input row, and every other cell is unchanged. |
| `Formatter.FormattedTimes` | tobii_data_process/tobii_data_process.py:53-61 | Row i's time is the start time plus (first index label + i) samples, modulo one day. |
| `Formatter.ConsecutiveTimes` | tobii_data_process/tobii_data_process.py:59-61 | Consecutive times are one sample (4000 us) apart, modulo one day. |
| `Formatter.FormatSubsetRows` | tobii_data_process/tobii_data_process.py:47-56 | The formatted rows are the subset's rows that pass the filter, all of them, in order, with every cell other than "time" unchanged. |
| `Formatter.FormatSubsetTimes` | tobii_data_process/tobii_data_process.py:51-61 | On a stored subset, row i's time is the start time of the first passing row plus (its position + i) samples, modulo one day. Rows dropped before it still count. |
| `Formatter.ReformatFails` | tobii_data_process/tobii_data_process.py:51-55 | Formatting an already formatted subset again, when the start time column was dropped, fails with a KeyError inside the `try`. |
| `Scenario.StartParses` | tobii_data_process/tobii_data_process.py:52 | "10:00:00.000" parses to 36 000 000 000 us after midnight. |
| `Scenario.KeepsLastTwo` | tobii_data_process/tobii_data_process.py:47-48 | With stimuli missing, "Text", "ImageA", "ImageA" and "Text" excluded, the filter keeps positions 2 and 3. |
| `Scenario.FormatRecording` | tobii_data_process/tobii_data_process.py:44-63 | That subset formats to two "ImageA" rows stamped 10:00:00.008 and 10:00:00.012. |
| `Pipeline.Updated` | tobii_data_process/tobii_data_process.py:50-69 | After its turn, a subset is either unchanged or its successful formatting, and it is well formed either way. |
| `Pipeline.AbortAt` | tobii_data_process/tobii_data_process.py:46-48 | The loop stops at the first key whose subset lacks the stimulus column. Every earlier subset has it. |
| `Pipeline.FormatAll` | tobii_data_process/tobii_data_process.py:44-69 | Formatting never adds, removes or reorders keys, and every stored table stays well formed. |
| `Pipeline.FormatAllRaises` | tobii_data_process/tobii_data_process.py:46-48 | `tobii_data_format` raises if and only if some stored subset lacks the stimulus column, and the exception is a KeyError for that column. |
| `Pipeline.FormatAllEntry` | tobii_data_process/tobii_data_process.py:46-69 | A subset ends up formatted if and only if it and every subset before it have the stimulus column and its formatting succeeds. Otherwise it is left as it was, whatever happened to its neighbours. |
| `Pipeline.UpdatedTwice` | tobii_data_process/tobii_data_process.py:51-69 | A second turn over an entry changes nothing, when the start time column is dropped and the stimulus column is kept. |
| `Pipeline.FormatAllIdempotent` | tobii_data_process/tobii_data_process.py:44-69 | With the start time column dropped and the stimulus column kept, a second `tobii_data_format` changes nothing and raises exactly when the first did. |
| `Pipeline.FormatDefaultsIdempotent` | tobii_data_process/tobii_data_process.py:44 | With the default columns to drop, a second `tobii_data_format` changes nothing, whatever the exclusions. |
| `Pipeline.FileName` | tobii_data_process/tobii_data_process.py:74 | The file name is the key followed by ".csv". |
| `Pipeline.JoinPath` | tobii_data_process/tobii_data_process.py:75 | `os.path.join` ends with the name, and an absolute name replaces the folder. |
| `Pipeline.JoinPathInjective` | tobii_data_process/tobii_data_process.py:75 | Within one folder, different relative names give different paths. |
| `Pipeline.SaveTargets` | tobii_data_process/tobii_data_process.py:73-76 | `save` writes one file per key. |
| `Pipeline.SaveTargetsDistinct` | tobii_data_process/tobii_data_process.py:73-76 | When no key starts with "/", every file goes to a distinct path and holds the subset stored under its key. |
| `Pipeline.TobiiDataProcess.constructor` | tobii_data_process/tobii_data_process.py:26-31 | A new object has an empty dictionary and holds the loaded table, the group column and the save folder, which defaults to "./divided_data". |
| `Pipeline.TobiiDataProcess.Divide` | tobii_data_process/tobii_data_process.py:33-42 | On a KeyError the dictionary is unchanged. Otherwise the dictionary is the old one with every group's entry stored in group order. Every stored subset keeps the index 0..n-1 that `reset_index` gives it. |
| `Pipeline.TobiiDataProcess.StoreGroups` | tobii_data_process/tobii_data_process.py:37-42 | The loop over the groups stores exactly the partition's entries, in order, on top of the old dictionary. |
| `Pipeline.TobiiDataProcess.Format` | tobii_data_process/tobii_data_process.py:44-69 | The loop leaves the dictionary and the exception that `FormatAll` describes. Every stored table stays well formed with index 0..n-1. The columns to drop default to `DELETE_COLUMNS` and the exclusions to "Eyetracker Calibration" and "Text". |
| `Pipeline.TobiiDataProcess.Save` | tobii_data_process/tobii_data_process.py:71-77 | The files written are `SaveTargets` of the current dictionary and the folder argument, which defaults to "./divided_data". The object is not changed. |

## Left out

- Reading the export (`pd.read_table`, line 31) is file I/O. The constructor
  takes the loaded table instead, with every cell text or missing.
- Writing the files (`to_csv`, line 76) is file I/O. `Save` returns the list of
  (path, table) pairs it would write.
- The progress `print` calls are console output.
- The `matplotlib` import and `read_data` are not modelled; `read_data` only
  forwards its keyword arguments to the constructor.
- pandas type inference is not modelled. Every loaded cell is text or missing,
  so group values are strings, ordered by Python's `str` order. A numeric group
  column, with its numeric order and number formatting in the key, is outside
  the model.
- Formatter.Stamp: `timedelta(seconds=i / 250)` goes through a float. The model
  takes it as exactly 4000·i us. Rounding to the microsecond gives that value
  for any row count a recording reaches.
- Formatter.Stamp: the `datetime` overflow past year 9999 is not modelled.
  Within the `try` it would be caught, but it needs more than 10^13 rows.
- TimeOfDay.ParseTime: accepts only ASCII digits. `strptime` also accepts other
  Unicode decimal digits.
- Pipeline.JoinPath: only the POSIX `os.path.join` is modelled. The Windows
  join, with backslashes and drive letters, is not.
- Frame.DropColumns: the KeyError names the first missing label. pandas lists
  all missing labels in the message, and only the message differs.
- `Exception` has one variant per Python exception class the pipeline can
  raise. The message text, used only for printing, is not kept.
