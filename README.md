# Multi-file merger: a Dafny model

The app lets a user upload several CSV or Excel files and clean each one. It
then merges them, two at a time, into one working table. Each merge:

- normalises both key columns in place (`astype(str).str.strip()`);
- refuses a secondary file whose key column repeats a value, and lists up to
  ten of the repeated values;
- renames colliding right-hand column labels with a `_1` suffix;
- joins on the keys with `pd.merge`, keeping every primary row (`left`) or
  only the matching ones (`inner`). pandas itself then suffixes any label
  still found on both sides with `_x` and `_y`, and fails when that would
  repeat a label.

The session remembers:

- the loaded tables;
- the chosen sheets;
- the merged table;
- the files already merged;
- a step counter.

The merged table is then offered for download under a `.csv` name.

The model has these modules:

- `Text`: Python's `str.strip()` over the characters `str.isspace()`
  accepts.
- `Tables`: tables as column labels plus rows of optional text cells.
  - `KeyLookup` resolves a label the way `df[label]` does: absent, repeated,
    or one column.
  - `KeyNormalized` is key-column normalisation.
  - The class `Frame` is a DataFrame held by reference. Its key column is
    overwritten in place.
  - `Rectangular` is a subset type: every row has one cell per column.
- `Cleaning`: `clean_data`. An unloaded file becomes the empty table. With a
  `Completion %` column, the rows lacking that value are dropped and the
  order of the rest is kept.
- `MergeEngine`: `merge_datasets`.
  - `Merge` is the outcome, as a function of the two tables as they were
    before the call.
  - `MergeDatasets` is the method that also normalises both frames in place.
  - A failure is a `MergeError` naming why `None` was returned.
- `MergeProperties`: what a merge guarantees, stated on the tables before the
  call:
  - when it refuses;
  - row by row, what a left merge contains;
  - row by row, what an inner merge contains: the left rows that have a
    partner, in their order and as often as the left table holds them;
  - when it goes through, and when its labels are all different.
- `MergeExamples`: small worked examples of renaming, key normalisation,
  duplicate detection, the two join types, and pandas' suffixes.
- `Workflow`: the class `MergeSession` holds the `st.session_state`
  entries. Each Streamlit rerun step is one method:
  - reset;
  - forgetting removed uploads;
  - ingesting one upload;
  - the initial merge;
  - adding one more file.

  Every method keeps the invariant `Consistent`. Four value-level lemmas
  prove it for the steps that change the session: registering a file,
  storing a table, pruning, and committing a merge. `Reset` re-establishes
  it directly. `Ingest`, `InitialMerge` and `AddFile` keep it by calling
  `Track`, `Store` and `Record`.
- `Export`: the output file name.

Cells are `Option<string>`. `Some(s)` is the value's text as pandas prints
it. `None` is a missing value (NaN), which stringifies to `"nan"`. As a
consequence, two secondary rows with missing keys collide as duplicates
(`MissingKeysCollide`).

Behaviour of the code worth noting:

- Removing an uploaded file that was already merged does not reset the
  merge. The file is dropped from the used files, but the merged table and
  the step number stay (`MergeSession.Prune`). A working table can therefore
  exist with no used files: `Consistent` holds only the implication "nothing
  merged ⇒ no used files and step one".
- "Merge Initial Files" is offered whenever two files are loaded, even after
  later steps. It replaces the merged table and sets the used files and the
  step back to the two files and 2.
- A failed merge can still leave key columns normalised in place. The base
  key column is normalised whenever its label names one column. The new key
  column is normalised only when the base label did, and its own label names
  one column too (`MergeDatasets`).
- A successful merge usually keeps the right key column, renamed `<key>_1`
  when the key label is shared. There is one exception. The right key can be
  renamed to the left key's own label, for example after a first merge on a
  shared "ID" left both "ID" and "ID_1" in the working table. Then pandas
  joins on that one shared column and drops the right key column, and the
  model does the same (`SharedKey`, `Carry`, `ExampleSharedKey`).
- `_1` is a single suffix level, and pandas' `_x`/`_y` resolve what it
  leaves. This happens in the app's ordinary use when every file is keyed on
  "ID". From the third file on, the working table already holds "ID_1", and
  the new key is renamed "ID_1" too. pandas then labels the two "ID_1_x" and
  "ID_1_y" (`ExampleThirdFile`, `ExampleThirdFileLabels`). At the fifth
  file, suffixing "ID_1" again repeats the "ID_1_x" the table already holds. pandas refuses that merge,
  and `merge_datasets` returns `None` (`SuffixClash`, `ExampleFifthFile`).

## Model

| member | source | states |
|---|---|---|
| Text.Trim | Merging_Multiple_Input_File_Version2.py:74-75 | `strip()` leaves no whitespace at either end of its result |
| Text.TrimIsSlice | Merging_Multiple_Input_File_Version2.py:74-75 | `strip()` returns the slice of the input between leading and trailing whitespace: everything outside the slice is whitespace |
| Text.TrimStart | Merging_Multiple_Input_File_Version2.py:74-75 | dropping leading whitespace never lengthens the text |
| Text.TrimStartSpec | Merging_Multiple_Input_File_Version2.py:74-75 | drops exactly the leading whitespace: a suffix of the input, everything dropped is whitespace, the result does not start with whitespace |
| Text.TrimEnd | Merging_Multiple_Input_File_Version2.py:74-75 | dropping trailing whitespace never lengthens the text |
| Text.TrimEndSpec | Merging_Multiple_Input_File_Version2.py:74-75 | drops exactly the trailing whitespace: a prefix of the input, everything dropped is whitespace, the result does not end with whitespace |
| Text.TrimOfTrimmed | Merging_Multiple_Input_File_Version2.py:74-75 | a string with no whitespace at its ends is left unchanged |
| Text.TrimIdempotent | Merging_Multiple_Input_File_Version2.py:74-75 | stripping twice is stripping once |
| Tables.NormalizeCell | Merging_Multiple_Input_File_Version2.py:74-75 | a normalised cell is always present and trimmed: through `Stringify` (`astype(str)`, where a missing value prints as "nan") and `Trim`: a present value becomes its `strip()`, a missing value becomes "nan", and a present, trimmed value is unchanged |
| Tables.NormalizeCellIdempotent | Merging_Multiple_Input_File_Version2.py:74-75 | normalising a cell twice is normalising it once |
| Tables.FirstIndex | Merging_Multiple_Input_File_Version2.py:74 | the first position holding the label |
| Tables.KeyLookup | Merging_Multiple_Input_File_Version2.py:74-75 | absent exactly when no column has the label; repeated exactly when two columns have it; otherwise the one position holding it |
| Tables.NormalizeColumn | Merging_Multiple_Input_File_Version2.py:74-75 | cell by cell, column `k` of each row is normalised and every other cell is kept |
| Tables.KeyNormalized | Merging_Multiple_Input_File_Version2.py:74-75 | labels and row count are kept, well-formedness is preserved, and a label that is absent or repeated leaves the table as it was |
| Tables.KeyNormalizedCells | Merging_Multiple_Input_File_Version2.py:74-75 | in a normalised table, the key column's cells are normalised and all other cells are unchanged |
| Tables.KeyColumnNormalized | Merging_Multiple_Input_File_Version2.py:74-75 | after normalisation every key cell is present and trimmed |
| Tables.KeyNormalizedIdempotent | Merging_Multiple_Input_File_Version2.py:74-75 | normalising a key column twice is normalising it once |
| Tables.NormalizeColumnOfClean | Merging_Multiple_Input_File_Version2.py:74-75 | a column whose cells are all normalised already is left as it is |
| Tables.KeyNormalizedOfClean | Merging_Multiple_Input_File_Version2.py:74-75 | a key column whose cells are all normalised already is left as it is |
| Tables.KeyNormalizedRow | Merging_Multiple_Input_File_Version2.py:74-75 | each normalised row keeps its width, and its key cell is the normalised original |
| Tables.Frame.constructor | Merging_Multiple_Input_File_Version2.py:145 | a new frame holds the given table |
| Tables.Frame.NormalizeKey | Merging_Multiple_Input_File_Version2.py:74-75 | reports how the label resolved; the frame's new contents are the key-normalised old contents |
| Cleaning.KeepComplete | Merging_Multiple_Input_File_Version2.py:53-56 | `dropna(subset=["Completion %"])`: the kept rows are exactly the original rows with a completion value, and kept plus incomplete rows add up to the original count |
| Cleaning.KeepCompleteAppend | Merging_Multiple_Input_File_Version2.py:55 | the filter works row by row: filtering a concatenation concatenates the filtered parts, so relative order is kept |
| Cleaning.KeepCompleteWithoutColumn | Merging_Multiple_Input_File_Version2.py:53-57 | with no completion column, every row is kept |
| Cleaning.CleanData | Merging_Multiple_Input_File_Version2.py:50-58 | an unloaded file gives the empty table; otherwise labels are kept, the remaining rows are exactly the complete ones, in order and with their multiplicity (`KeepComplete` of the rows), a table with no completion column is returned unchanged, and well-formedness is preserved |
| Cleaning.RemovedCount | Merging_Multiple_Input_File_Version2.py:54-56 | the reported number of removed rows is the number of original rows without a completion value |
| MergeEngine.Repeats | Merging_Multiple_Input_File_Version2.py:77 | `duplicated()` then `unique()`: each value occurring at two positions of the key column is listed exactly once, and nothing else is listed |
| MergeEngine.RepeatsOfPrefix | Merging_Multiple_Input_File_Version2.py:77-79 | the repeats of a prefix of the column are a prefix of the repeats of the whole column; with the membership contract this fixes the order `unique()` gives, and so which ten values the warning lists |
| MergeEngine.RepeatsEmpty | Merging_Multiple_Input_File_Version2.py:77-80 | the duplicate list is empty exactly when the key column has no repeated value |
| MergeEngine.Preview | Merging_Multiple_Input_File_Version2.py:79 | `[:10]`: a prefix of the duplicate list holding exactly `min(10, len)` values, so all of them when there are ten or fewer |
| MergeEngine.ColumnTexts | Merging_Multiple_Input_File_Version2.py:77 | one text per row |
| MergeEngine.RenameRight | Merging_Multiple_Input_File_Version2.py:82-88 | the right labels after both renames, one per original label, each given by `RenamedLabel`: first the overlap rename of line 83, then the key rename of line 88 applied to whatever carries `key_new` by then |
| MergeEngine.EffectiveKey | Merging_Multiple_Input_File_Version2.py:85-87 | the join looks up a label other than `key_new` exactly when `key_new` is also a left label, and that label is then `key_new + "_1"` |
| MergeEngine.RenameRules | Merging_Multiple_Input_File_Version2.py:82-88 | the right key becomes the effective key and changes exactly when shared; a shared non-key label gets `_1`, or `_1_1` in the corner where its `_1` form is `key_new` and `key_new` is a left label (line 88 renames it again); an unshared label is kept |
| MergeEngine.RenamedLabelsDistinct | Merging_Multiple_Input_File_Version2.py:82-90 | when neither table repeats a label and one suffix level suffices, the merged labels are all different |
| MergeEngine.EffectiveKeyResolves | Merging_Multiple_Input_File_Version2.py:85-90 | under the same conditions, the join label names exactly one renamed right column: the right key's |
| MergeEngine.SharedKeyCase | Merging_Multiple_Input_File_Version2.py:85-90 | the two join labels coincide exactly when the right key is a left label and the left key is that label with `_1` |
| MergeEngine.SharedKeyExcluded | Merging_Multiple_Input_File_Version2.py:85-90 | when one suffix level suffices, the join labels never coincide |
| MergeEngine.Carry | Merging_Multiple_Input_File_Version2.py:90 | what a right row contributes to a joined row: all of it, or one cell fewer when the key column is shared |
| MergeEngine.CarryElements | Merging_Multiple_Input_File_Version2.py:90 | dropping the key cell keeps every other cell, in order |
| MergeEngine.CarryRows | Merging_Multiple_Input_File_Version2.py:90 | one contribution per right row, each that row's `Carry` |
| MergeEngine.SuffixShared | Merging_Multiple_Input_File_Version2.py:90 | pandas' suffixing of one side: a label the other side also holds gets the suffix, any other is kept, one label per original |
| MergeEngine.OverlapLabels | Merging_Multiple_Input_File_Version2.py:90 | pandas' labels for a join: as many as the two sides together, or `None` when the suffixes would repeat a label |
| MergeEngine.OverlapLabelsSides | Merging_Multiple_Input_File_Version2.py:90 | the joined labels are the left labels with `_x` where the right also holds them, then the right labels with `_y` where the left also holds them |
| MergeEngine.OverlapLabelsDisjoint | Merging_Multiple_Input_File_Version2.py:90 | with no label on both sides, pandas keeps every label as it is |
| MergeEngine.OverlapLabelsDistinct | Merging_Multiple_Input_File_Version2.py:90 | when the suffixing goes through, a side without repeated labels still has none |
| MergeEngine.FindRow | Merging_Multiple_Input_File_Version2.py:90 | finds a right row with the given key, or reports correctly that none has it |
| MergeEngine.MissingCells | Merging_Multiple_Input_File_Version2.py:90 | the right-hand part of an unmatched left row: that many missing cells |
| MergeEngine.JoinRows | Merging_Multiple_Input_File_Version2.py:90 | never more rows than the left table; a left join keeps one row per left row, in order, each followed by what its matching right row carries or by missing cells (the inner join, row by row, is `InnerJoinRowAt`) |
| MergeEngine.InnerJoinOrigin | Merging_Multiple_Input_File_Version2.py:90 | every inner-join row is a left row followed by what a right row with the same key carries |
| MergeEngine.InnerJoinKeeps | Merging_Multiple_Input_File_Version2.py:90 | an inner join keeps every left row whose key finds a right row, joined to that row |
| MergeEngine.JoinRowsWidth | Merging_Multiple_Input_File_Version2.py:90 | every joined row has one cell per left column plus one per carried right column (one fewer when the key column is shared) |
| MergeEngine.FindRowOfUniqueKey | Merging_Multiple_Input_File_Version2.py:77-90 | with a unique key column, a key finds the row it came from |
| MergeEngine.LeftJoinRow | Merging_Multiple_Input_File_Version2.py:90 | with a unique right key, left-join row `i` is left row `i` followed by what the right row with the same key carries, or by missing cells when there is none |
| MergeEngine.InnerJoinComplete | Merging_Multiple_Input_File_Version2.py:90 | with a unique right key, every left row with a partner appears in the inner join, joined to that partner |
| MergeEngine.JoinRowsAppend | Merging_Multiple_Input_File_Version2.py:90 | the join works row by row: joining two runs of left rows one after the other gives the two joins one after the other |
| MergeEngine.JoinRowsOne | Merging_Multiple_Input_File_Version2.py:90 | one left row joins to one row when its key finds a right row, to one row with missing cells in a left join otherwise, and to nothing in an inner join otherwise |
| MergeEngine.Partnered | Merging_Multiple_Input_File_Version2.py:90 | the positions of the left rows whose key finds a right row, each a valid position of such a row |
| MergeEngine.PartneredOrder | Merging_Multiple_Input_File_Version2.py:90 | those positions increase, so each partnered row is listed once, in left order |
| MergeEngine.PartneredExactly | Merging_Multiple_Input_File_Version2.py:90 | a left row is listed exactly when its key finds a right row |
| MergeEngine.InnerJoinCount | Merging_Multiple_Input_File_Version2.py:90 | an inner join has exactly one row per partnered left row, duplicates included |
| MergeEngine.InnerJoinRowAt | Merging_Multiple_Input_File_Version2.py:90 | row `j` of an inner join is the `j`-th partnered left row followed by what the right row its key finds carries |
| MergeEngine.InnerJoinPartnerRow | Merging_Multiple_Input_File_Version2.py:77-90 | with a unique right key, row `j` of an inner join is the `j`-th partnered left row followed by what the right row with the same key carries |
| MergeEngine.KeyedMerge | Merging_Multiple_Input_File_Version2.py:77-92 | once both keys resolved: refuses a repeated key, then fails when the join label names no single renamed column, else is `JoinAt` that column; a successful merge has rows that fit its labels |
| MergeEngine.JoinAt | Merging_Multiple_Input_File_Version2.py:82-92 | `pd.merge` once the join label named a right column: well formed when it goes through, and otherwise failing only with `SuffixClash` |
| MergeEngine.JoinAtRows | Merging_Multiple_Input_File_Version2.py:82-92 | `JoinAt` goes through exactly when pandas' suffixes repeat no label, and then has pandas' labels and the rows joined on that column |
| MergeEngine.KeyedMergeJoins | Merging_Multiple_Input_File_Version2.py:77-92 | with no repeated key and the join label naming right column `kr`, the keyed merge is `JoinAt` that column |
| MergeEngine.KeyedMergeLabels | Merging_Multiple_Input_File_Version2.py:82-90 | a successful keyed merge found the join label in one renamed right column, and has pandas' labels (`OverlapLabels`) for the left labels and the renamed right labels, less that column when the key column is shared |
| MergeEngine.Merge | Merging_Multiple_Input_File_Version2.py:72-95 | `merge_datasets`' outcome on the tables as they were: a successful merge is well formed (its labels are stated by `MergedLabels`, its rows by `MergedShape`) |
| MergeEngine.MergedLabels | Merging_Multiple_Input_File_Version2.py:72-92 | a successful merge resolved both key labels and the join label, and has pandas' labels (`OverlapLabels`) for the left labels and the renamed right labels, less the right key column when the two join labels coincide |
| MergeEngine.MergeDatasets | Merging_Multiple_Input_File_Version2.py:72-95 | normalises the base key in place, then the new key only if the base key resolved; returns `Merge` of the tables as they were |
| MergeProperties.NormalizedKeyText | Merging_Multiple_Input_File_Version2.py:74-77 | the duplicate check sees exactly the normalised key text of each right row |
| MergeProperties.RightKeyUniqueTexts | Merging_Multiple_Input_File_Version2.py:74-80 | the right key's normalised values are all different exactly when the duplicate check sees no repeat |
| MergeProperties.KeysMatchOnNormalized | Merging_Multiple_Input_File_Version2.py:74-90 | two rows match in the join exactly when their normalised keys are equal |
| MergeProperties.NormalizedKeyCellsDistinct | Merging_Multiple_Input_File_Version2.py:75-90 | a unique right key stays unique in the normalised table |
| MergeProperties.MergeUnfold | Merging_Multiple_Input_File_Version2.py:72-92 | when both keys resolve, the merge is the keyed merge of the two normalised tables |
| MergeProperties.KeyedMergeRefusal | Merging_Multiple_Input_File_Version2.py:77-80 | the keyed merge refuses with duplicate keys exactly when the duplicate list is non-empty, and then carries its first ten values |
| MergeProperties.PreviewNonEmpty | Merging_Multiple_Input_File_Version2.py:78-79 | a non-empty duplicate list gives a non-empty warning |
| MergeProperties.PreviewRepeated | Merging_Multiple_Input_File_Version2.py:77-79 | every value in the warning occurs twice in the key column |
| MergeProperties.MergedShape | Merging_Multiple_Input_File_Version2.py:72-92 | a successful merge implies both keys resolved and the right key is unique; its rows are the join of the normalised tables |
| MergeProperties.MergedKeyUnique | Merging_Multiple_Input_File_Version2.py:74-80 | a successful merge resolved both key labels, saw no repeated key text, and so had a unique normalised right key |
| MergeProperties.MergedRows | Merging_Multiple_Input_File_Version2.py:82-90 | the rows of a successful merge are the join of the normalised tables on the right key column itself (through `KeyedMergeJoins` and `JoinAtRows`) |
| MergeProperties.DuplicateKeysRefused | Merging_Multiple_Input_File_Version2.py:74-80 | once both keys resolve, the merge refuses with duplicate keys exactly when two right rows share a normalised key |
| MergeProperties.DuplicateKeysListed | Merging_Multiple_Input_File_Version2.py:77-80 | a duplicate-keys refusal lists between one and ten values, each the normalised key of two different right rows |
| MergeProperties.PreviewedKeyRows | Merging_Multiple_Input_File_Version2.py:77-79 | a listed value is the normalised key of two different right rows, with those rows as witnesses |
| MergeProperties.RepeatedKeyRows | Merging_Multiple_Input_File_Version2.py:77 | a repeated key text comes from two different right rows |
| MergeProperties.MissingKeysCollide | Merging_Multiple_Input_File_Version2.py:74-80 | two right rows with missing keys make the merge refuse with duplicate keys (both print as "nan") |
| MergeProperties.LeftJoinOfNormalized | Merging_Multiple_Input_File_Version2.py:90 | a left join of the normalised tables has one row per left row: the normalised left row followed by its matching normalised right row (without its key cell when the key column is shared), or by missing cells |
| MergeProperties.LeftMergeRow | Merging_Multiple_Input_File_Version2.py:72-92 | a successful left merge keeps every left row in order, each followed by the right row whose normalised key equals its own (without its key cell when the key column is shared), or by missing cells when there is none |
| MergeProperties.InnerJoinOfNormalizedSound | Merging_Multiple_Input_File_Version2.py:90 | each row of the normalised inner join comes from a left row and a right row whose keys match |
| MergeProperties.InnerMergeSound | Merging_Multiple_Input_File_Version2.py:72-92 | a successful inner merge has at most the left row count, and every row joins a left row to a right row with the same normalised key |
| MergeProperties.InnerJoinOfNormalizedComplete | Merging_Multiple_Input_File_Version2.py:90 | with a unique right key, every matching pair of normalised rows appears in the inner join |
| MergeProperties.InnerMergeComplete | Merging_Multiple_Input_File_Version2.py:72-92 | a successful inner merge contains every pair of left and right rows whose normalised keys match |
| MergeProperties.Partners | Merging_Multiple_Input_File_Version2.py:90 | the positions of the left rows whose normalised key some right row has |
| MergeProperties.PartnersExactly | Merging_Multiple_Input_File_Version2.py:74-90 | those positions increase, and a left row is among them exactly when some right row's normalised key equals its own |
| MergeProperties.PartnerOfRow | Merging_Multiple_Input_File_Version2.py:74-90 | left row `i` is partnered exactly when some right row matches it |
| MergeProperties.InnerJoinRowOfNormalized | Merging_Multiple_Input_File_Version2.py:74-90 | with a unique right key, row `j` of the normalised inner join is the `j`-th partnered normalised left row followed by the right row whose key matches it |
| MergeProperties.InnerJoinOfNormalizedRows | Merging_Multiple_Input_File_Version2.py:74-90 | with a unique right key, the normalised inner join has one row per partnered left row, and row `j` is the `j`-th of them followed by its right row |
| MergeProperties.InnerMergeRows | Merging_Multiple_Input_File_Version2.py:72-92 | a successful inner merge has exactly one row per partnered left row, in left order and with the left table's multiplicity; row `j` is the `j`-th partnered normalised left row followed by the right row whose normalised key equals its own |
| MergeProperties.MergeGoesThrough | Merging_Multiple_Input_File_Version2.py:72-95 | with both keys resolved and a unique right key, the merge succeeds exactly when the join label resolves to one renamed column and pandas' suffixes repeat no label |
| MergeProperties.MergeSucceeds | Merging_Multiple_Input_File_Version2.py:72-95 | when both keys resolve, the right key is unique, neither table repeats a label and one suffix level suffices, the merge succeeds, its labels are the left labels followed by the renamed right labels (pandas adds no `_x`/`_y`), and they are all different |
| MergeExamples.ExampleRenaming | Merging_Multiple_Input_File_Version2.py:82-88 | with "ID" in both tables, the right key becomes "ID_1" and the join looks it up |
| MergeExamples.ExampleSharedLabel | Merging_Multiple_Input_File_Version2.py:82-83 | a shared non-key label gets "_1"; an unshared key keeps its label |
| MergeExamples.ExamplePaddedKeys | Merging_Multiple_Input_File_Version2.py:74-75 | " 1" and "1 " both normalise to "1" |
| MergeExamples.ExampleRepeatedKey | Merging_Multiple_Input_File_Version2.py:77 | a value occurring twice is listed once |
| MergeExamples.ExampleSharedKey | Merging_Multiple_Input_File_Version2.py:85-90 | merging a table labelled "ID", "ID_1" on "ID_1" with one keyed "ID": the join labels coincide and the right key column is dropped, leaving "ID", "ID_1", "Y" |
| MergeExamples.ExampleJoin | Merging_Multiple_Input_File_Version2.py:90 | a left join keeps an unmatched row with missing cells; an inner join drops it |
| MergeExamples.ExampleRepeatedLeftRow | Merging_Multiple_Input_File_Version2.py:90 | a left row held twice, with one partner, gives the joined row twice in an inner join |
| MergeExamples.ExampleThirdFile | Merging_Multiple_Input_File_Version2.py:82-88 | the third "ID"-keyed file: the new key becomes "ID_1", a label the working table already holds |
| MergeExamples.ExampleThirdFileLabels | Merging_Multiple_Input_File_Version2.py:90 | pandas then labels the two "ID_1" columns "ID_1_x" and "ID_1_y" |
| MergeExamples.ExampleFifthFile | Merging_Multiple_Input_File_Version2.py:90 | the fifth "ID"-keyed file: suffixing "ID_1" again repeats "ID_1_x", so the merge fails |
| Workflow.MergeSession.constructor | Merging_Multiple_Input_File_Version2.py:17-26 | the initial session: no files, no selections, nothing merged, no used files, step one |
| Workflow.MergeSession.Reset | Merging_Multiple_Input_File_Version2.py:60-70 | every entry back to its initial value |
| Workflow.MergeSession.Prune | Merging_Multiple_Input_File_Version2.py:113-121 | the files are those still uploaded, each keeping its table and selection; the used files are the still-uploaded ones; the merged table and step are unchanged |
| Workflow.MergeSession.SyncUploads | Merging_Multiple_Input_File_Version2.py:110-121 | an empty upload list resets the session; any other one prunes it |
| Workflow.MergeSession.Track | Merging_Multiple_Input_File_Version2.py:125-127 | a new file is registered with no table and no sheet; a known file is untouched |
| Workflow.MergeSession.Ingest | Merging_Multiple_Input_File_Version2.py:123-145 | the requested sheet is the one just chosen, else the remembered one, and it is remembered; the file now holds a new table equal to the cleaned load; other files are unchanged |
| Workflow.MergeSession.Store | Merging_Multiple_Input_File_Version2.py:139-145 | a known file gets a new frame with the given table and sheet; nothing else changes |
| Workflow.MergeSession.InitialMerge | Merging_Multiple_Input_File_Version2.py:164-177 | the outcome is `Merge` of the two tables; both key columns are normalised in place; on success a new merged table, used files = the two files, step 2; on failure, merged table, used files and step unchanged |
| Workflow.MergeSession.AddFile | Merging_Multiple_Input_File_Version2.py:179-208 | the outcome is `Merge` of the merged table and the file; both key columns are normalised in place; on success a new merged table, the file becomes used, and the step advances by one; on failure nothing else changes |
| Workflow.MergeSession.Record | Merging_Multiple_Input_File_Version2.py:172-177 | records a merge outcome: on success a new frame becomes the merged table and the used files and step are set; on failure nothing changes |
| Workflow.TrackKeepsConsistent | Merging_Multiple_Input_File_Version2.py:125-127 | registering a new file keeps the session invariant |
| Workflow.StoreKeepsConsistent | Merging_Multiple_Input_File_Version2.py:139-145 | storing a table no other file holds keeps the invariant |
| Workflow.PruneKeepsConsistent | Merging_Multiple_Input_File_Version2.py:113-121 | dropping files, their selections and their used-file entries keeps the invariant, including "never more used files than the step number" |
| Workflow.CommitKeepsConsistent | Merging_Multiple_Input_File_Version2.py:172-174 | committing a merge into a table no file holds, with step ≥ 2 and at most `step` known used files, keeps the invariant |
| Export.OutputFileName | Merging_Multiple_Input_File_Version2.py:223-227 | an empty name offers no download; a name ending in ".csv" is kept; any other gets ".csv" appended; the result always ends in ".csv" |
| Export.OutputFileNameIdempotent | Merging_Multiple_Input_File_Version2.py:225-226 | naming an already-named file changes nothing |

## Left out

- Page layout, widgets, messages, warnings and previews (`st.*` calls): these are user-interface only. The sheet and key selections reach the model as parameters.
- `load_file` (lines 29-48): reading and parsing bytes is I/O. It includes the empty-file and no-data checks and the stripping of column labels. The loaded table, or `None`, is a parameter of `MergeSession.Ingest`.
- Listing a workbook's sheets (lines 131-137): this is I/O. The failure `continue` at line 142 is modelled by calling `MergeSession.Track` alone, which leaves a new file with no table. The app would then fail on that file's `.columns` at lines 161-162 and 190 once it is offered for a merge; that crash is why `MergeSession.InitialMerge` and `MergeSession.AddFile` require a table for the files they merge.
- `download_csv` (lines 97-101): writing CSV bytes is I/O.
- The column multiselect and projection (lines 213-221): this is interactive display only. The export name is modelled.
- `clean_data`'s returned table is the pruned copy. pandas index labels are not modelled.
- When the two join labels coincide and the left table has no rows, some pandas versions drop the left key column instead of the right one. The model always drops the right one; the merged table has no rows either way, only its label order can differ.
- pandas' `_x`/`_y` suffixing follows pandas 2.x, where a suffix that creates a repeated label raises `MergeError`. Older pandas releases only warned there and returned the table with the repeated labels; the model does not cover those releases.
- `MergeEngine.JoinRows`, `MergeProperties.InnerMergeRows`: an inner join keeps the left table's row order, as pandas does from release 2.2. Before 2.2, `pd.merge(how="inner", sort=False)` grouped the rows by key when a left key repeated out of sequence (left keys 1, 2, 1 gave 1, 1, 2); the model does not cover that order.
- `pd.merge` pairs a left row with every right row that has its key. The model joins to the first match (`FindRow`). The two agree whenever a merge goes through, because a repeated right key is refused before the join.
- The broad `except` at lines 93-95 is modelled by four failures: `ColumnNotFound`, `ColumnNotUnique` (a label held by several columns), `JoinFailed` (the join label resolving to several right columns) and `SuffixClash` (pandas' suffixes repeating a label). Any other exception pandas may raise, such as an out-of-memory or a dtype error, is not modelled.
- Cell text is modelled through `Option<string>`. pandas' number formatting in `str(value)` is not modelled (for example, `1.0` for an integer column holding NaN).
- `MergeSession.Ingest`: the requested sheet is the one just chosen, else the remembered one. This treats an empty sheet name like any other. Python's `or` would fall back to the remembered selection, but for an empty name that is the same value, so the results agree.
