# xltablediff reconciliation core, modelled in Dafny

xltablediff compares two versions of a keyed table held in spreadsheets and
writes a "diff table". Every diff row starts with a marker cell:

- `=`: unchanged;
- `-`: deleted;
- `+`: added;
- `c-` / `c+`: the old and new versions of a changed row;
- `#`: the echoed command line.

The model covers the reconciliation engine in `src/xltablediff/xltablediff.py`.
The workbook loading, the styling and the command line are not modelled.

- **SimpleDiff** (`simplediff.dfy`): the vendored `diff` of two lists.
  - `LongestRun` is the longest common contiguous run, with ties going to the first one found in scan order.
  - `Diff` splits recursively around that run.
  - The overlap-map loop `FindLongestRun` and the recursion `ComputeDiff` are proved equal to these functions.
  - `Diff` is proved to be a faithful edit script: its old side is the old list and its new side is the new list.
- **Interleave** (`interleave.dfy`): the ordering rule shared by the header merge and the body.
  - First the leading old items missing from the new list.
  - Then each new item, followed by the run of deleted old items that follow its old position.
- **HeaderMerge** (`headers.dfy`): `CompareHeaders`, which gives the union of the header rows with their `=`/`-`/`+` marks, or the error it raises.
- **Output** (`rows.dfy`): the growing diff-row list and the change count.
- **Preamble** (`preamble.dfy`): `RemoveTrailingEmpties` and `CompareLeadingTrailingRows`, which diff the tab-joined lines before and after the table.
- **Body** (`body.dfy`): `CompareBody`.
  - It checks the keys and the `--ignore` columns.
  - It lays out `=`, `-`, `+` and `c-`/`c+` rows by key, and counts the changed cells.
- **Tables** (`tables.dfy`): `CompareTables`, which assembles the echo row, leading rows, header zone, body and trailing rows into one report.
- **Sheets** (`sheet.dfy`): `NoTabs`, `TrimAndPad`, `GuessHeaderRow` and `UniqueName`.
- **Legacy** (`legacy.dfy`): the older engine kept in the root `xltablediff.py`.
  - Modelled: `Unique`, `GuessHeaderRow`, `CompareHeaders`, `CompareTableRows` and its header zone.
  - Its `NoTabs`, `TrimAndPad` and `RemoveTrailingEmpties` are the same code as the current engine's, and share the Sheets and Preamble models.

Two details of the source's error paths are kept as written:

- `CompareBody` raises the bad `--ignore` error only after it has appended the leading deleted rows (src/xltablediff/xltablediff.py:495-511). `BodyOutcome` pairs that error with those rows.
- The empty-header message names a column letter (src/xltablediff/xltablediff.py:417-424). The model reports the 0-based column index instead.

## Model

| member | source | states |
|---|---|---|
| Common.PositionMapIsLastIndex | src/xltablediff/xltablediff.py:622-625 | the `{v: i}` index of a row maps every value to its last position |
| SimpleDiff.OverlapIsCommonSuffix | src/xltablediff/xltablediff.py:1528-1531 | `overlap[i]` for new position `inew` is a common suffix of `old[:i+1]` and `new[:inew+1]` |
| SimpleDiff.OverlapIsLongest | src/xltablediff/xltablediff.py:1528-1531 | no common suffix ending at those positions is longer than `overlap[i]` |
| SimpleDiff.LongestRunIsFirstLongest | src/xltablediff/xltablediff.py:1552-1564 | the kept run is common and no overlap is longer; every pair scanned before its end has a strictly shorter overlap, so ties go to the first found |
| SimpleDiff.LongestRunIsMaximal | src/xltablediff/xltablediff.py:1525-1564 | every common run is at most as long as the kept run |
| SimpleDiff.LongestRunEmptyIff | src/xltablediff/xltablediff.py:1566-1568 | the kept run is empty exactly when the two lists share no item |
| SimpleDiff.SplitRoundTrip | src/xltablediff/xltablediff.py:1566-1568 | the delete-then-insert answer rebuilds both lists |
| SimpleDiff.DiffUnfold | src/xltablediff/xltablediff.py:1566-1575 | `diff` is the split answer when no run is shared; otherwise it is the diff of the prefixes, the run marked `=`, then the diff of the suffixes |
| SimpleDiff.DiffRoundTrip | src/xltablediff/xltablediff.py:1634-1662 | the `=`/`-` items of a diff rebuild the old list, its `=`/`+` items rebuild the new list, and no segment is empty |
| SimpleDiff.DiffDisjoint | src/xltablediff/xltablediff.py:1566-1568 | lists with no item in common give one `-` segment and one `+` segment, each left out when its list is empty |
| SimpleDiff.DiffEmpty | src/xltablediff/xltablediff.py:1566-1568 | two empty lists give no segment |
| SimpleDiff.DiffIdentical | src/xltablediff/xltablediff.py:1482-1575 | a non-empty list diffed with itself is one `=` segment |
| SimpleDiff.IndexMap | src/xltablediff/xltablediff.py:1520-1523 | `old_index_map` lists, for every old value, all of its positions in increasing order |
| SimpleDiff.ScanNewItem | src/xltablediff/xltablediff.py:1553-1564 | one pass over the positions of `new[inew]` builds the next overlap map and keeps the best run the reference scan keeps |
| SimpleDiff.FindLongestRun | src/xltablediff/xltablediff.py:1541-1564 | the dynamic-programming loop finds exactly the reference longest run |
| SimpleDiff.ComputeDiff | src/xltablediff/xltablediff.py:1482-1575 | the recursive procedure returns exactly `Diff` |
| SimpleDiff.DocExampleDeletion | src/xltablediff/xltablediff.py:1502-1503 | `diff([1,2,3,4],[1,3,4])` is `= [1]`, `- [2]`, `= [3,4]` |
| SimpleDiff.DocExampleRotation | src/xltablediff/xltablediff.py:1505-1506 | `diff([1,2,3,4],[2,3,4,1])` is `- [1]`, `= [2,3,4]`, `+ [1]` |
| SimpleDiff.TieGoesToFirstFound | src/xltablediff/xltablediff.py:1558-1563 | of two equally long runs the first found wins: `diff([1,2],[2,1])` is `- [1]`, `= [2]`, `+ [1]` |
| Interleave.LayoutIsUnion | src/xltablediff/xltablediff.py:431-452 | for repeat-free lists the merged order holds each item of either list exactly once, and its length is the size of the union |
| Interleave.LayoutMarks | src/xltablediff/xltablediff.py:431-450 | an item is marked `=` iff in both lists, `+` iff only new and `-` iff only old |
| Interleave.LayoutNewOrder | src/xltablediff/xltablediff.py:440-450 | dropping the `-` items leaves exactly the new list, in its order |
| Interleave.LayoutPlacement | src/xltablediff/xltablediff.py:444-448 | every deleted old item comes right after its nearest surviving old predecessor and the deleted items between them, or at the front when it has none |
| Interleave.LayoutComplete | src/xltablediff/xltablediff.py:517-556 | every new item and every deleted old item is placed |
| Interleave.LayoutDistinct | src/xltablediff/xltablediff.py:517-556 | no item is placed twice |
| Interleave.LayoutIdentical | src/xltablediff/xltablediff.py:431-450 | merging a list with itself yields the list, all items from the new side |
| HeaderMerge.CompareHeaders | src/xltablediff/xltablediff.py:408-453 | the procedure returns exactly the header union, or the error it raises |
| HeaderMerge.MergeHeaders | src/xltablediff/xltablediff.py:427-450 | the two loops build the merged headers and their marks in the interleaved order |
| HeaderMerge.DeletedRun | src/xltablediff/xltablediff.py:444-448 | the inner `while` copies the run of deleted old headers that start at `j` |
| HeaderMerge.HeaderUnionFails | src/xltablediff/xltablediff.py:417-426 | the merge fails iff a header row has an empty cell or a repeated name; an empty old header is reported at its first column |
| HeaderMerge.HeaderUnionIsUnion | src/xltablediff/xltablediff.py:451-452 | the merged headers are the union of both rows, each once, with one mark per header |
| HeaderMerge.HeaderUnionMarks | src/xltablediff/xltablediff.py:440-450 | `=` iff in both rows, `+` iff only new, `-` iff only old |
| HeaderMerge.HeaderUnionNewOrder | src/xltablediff/xltablediff.py:440-441 | the non-deleted headers are the new header row, in order |
| HeaderMerge.HeaderUnionPlacement | src/xltablediff/xltablediff.py:431-448 | every deleted header follows its old predecessor, or leads when its predecessors are all deleted |
| HeaderMerge.HeaderUnionIdentical | src/xltablediff/xltablediff.py:408-453 | equal header rows merge to themselves, all marked `=` |
| Output.DiffRows.constructor | src/xltablediff/xltablediff.py:631 | a new diff-row list is empty |
| Output.DiffRows.Append | src/xltablediff/xltablediff.py:403 | appending adds one row at the end and changes nothing else |
| Output.Differing | src/xltablediff/xltablediff.py:571-572 | the count is zero exactly when the two rows agree on every cell after the marker |
| Output.CountChanges | src/xltablediff/xltablediff.py:567-573 | the counting loop returns the reference count of body changes |
| Output.ChangesSplit | src/xltablediff/xltablediff.py:567-573 | the change count of two concatenated row blocks is the sum of their counts |
| Preamble.RemoveTrailingEmpties | src/xltablediff/xltablediff.py:372-377 | the result is a prefix, all dropped items are empty, and its last item is not empty |
| Preamble.RemoveTrailingEmptiesIsShortest | src/xltablediff/xltablediff.py:372-377 | no shorter prefix leaves only empty items behind |
| Preamble.SplitJoin | src/xltablediff/xltablediff.py:387-401 | splitting a tab-joined line of tab-free cells gives back the cells |
| Preamble.Fit | src/xltablediff/xltablediff.py:402 | the padded row has exactly the width, keeps the cells that fit and fills the rest with `""` |
| Preamble.CompareLeadingTrailingRows | src/xltablediff/xltablediff.py:380-405 | appends one row per flattened diff entry and returns the number of entries not marked `=` |
| Preamble.ComparedRoundTrip | src/xltablediff/xltablediff.py:387-397 | the `=`/`-` lines are the old lines, the `=`/`+` lines are the new ones, and the change count is what the unchanged lines leave |
| Preamble.FlattenSides | src/xltablediff/xltablediff.py:396-397 | flattening keeps each side of the diff and counts every non-`=` item |
| Preamble.LineRowCells | src/xltablediff/xltablediff.py:399-402 | a written row is the marker followed by the line's cells, padded to the table width |
| Preamble.LineRowMarker | src/xltablediff/xltablediff.py:399-402 | a written row is one cell wider than the headers and starts with its marker |
| Preamble.ComparedRowsShape | src/xltablediff/xltablediff.py:399-403 | every leading or trailing row is table-wide and marked `=`, `-` or `+` |
| Preamble.CountChangedNone | src/xltablediff/xltablediff.py:397 | no change is counted iff every entry is marked `=` |
| Preamble.LineRowsUnchanged | src/xltablediff/xltablediff.py:397-403 | no change is counted iff every written row starts with `=` |
| Preamble.ComparedIdentical | src/xltablediff/xltablediff.py:389-397 | equal row ranges compare with no change |
| Body.Keys | src/xltablediff/xltablediff.py:465 | one key per body row |
| Body.Cells | src/xltablediff/xltablediff.py:499 | a side's cells are laid out under the merged headers |
| Body.MatchedCells | src/xltablediff/xltablediff.py:520-529 | a matched new row is laid out under the merged headers |
| Body.ChangedOldCells | src/xltablediff/xltablediff.py:539-544 | the `c-` row is laid out under the merged headers |
| Body.KeyIndexLookup | src/xltablediff/xltablediff.py:469-476 | the key index holds exactly the keys, each at its offset row |
| Body.KeyIndexIsIndex | src/xltablediff/xltablediff.py:469-476 | the index built key by key holds exactly the keys, each mapped to the sheet row of its last occurrence |
| Body.IndexKeys | src/xltablediff/xltablediff.py:469-489 | the indexing loop raises the reference key error, or builds an index holding exactly the keys, each at its sheet row |
| Body.KeyErrorFirstBad | src/xltablediff/xltablediff.py:469-489 | no error iff the keys are non-empty and distinct; otherwise the error names the first bad row, is `EmptyKey` iff that key is empty, and carries a duplicate's key |
| Body.AppendDeletedRows | src/xltablediff/xltablediff.py:549-556 | the loop appends the run of deleted old rows that follows a matched row |
| Body.AppendDeletedRow | src/xltablediff/xltablediff.py:552-556 | appends the `-` row of one old body row: its values under the merged headers |
| Body.RunRows | src/xltablediff/xltablediff.py:549-556 | a run of deleted old rows that stops at the next surviving key gives the `-` rows of exactly the rows before it |
| Body.IncludeOldValues | src/xltablediff/xltablediff.py:527-529 | an old-only column takes the old value; every other cell is kept |
| Body.MatchedNewRow | src/xltablediff/xltablediff.py:520-529 | the `+` row of a matched key carries the new value in every column the new table has and the old value in a column only the old table has |
| Body.ChangedOldRow | src/xltablediff/xltablediff.py:539-545 | the `c-` row is the marker followed by the old cells, using the new value where only the new table has the column |
| Body.AppendNewKey | src/xltablediff/xltablediff.py:517-563 | one iteration appends the rows of one new key, then its following deleted rows |
| Body.AppendMatchedKey | src/xltablediff/xltablediff.py:523-547 | a matched key gives one `=` row when the compared columns agree, otherwise a `c-`/`c+` pair |
| Body.CompareBody | src/xltablediff/xltablediff.py:456-573 | the body comparison appends exactly the reference rows and returns the reference count or error |
| Body.SlotRowsShape | src/xltablediff/xltablediff.py:532-547 | each key gives table-wide rows: one `-` row, or one `=`/`+` row, or a `c-` row then a `c+` row |
| Body.LayoutRowsShape | src/xltablediff/xltablediff.py:459-461 | every body row is table-wide and every `c-` row is followed by its `c+` row |
| Body.MatchedRowsChanges | src/xltablediff/xltablediff.py:567-573 | a matched key counts no change when its compared cells agree, otherwise one per differing common cell |
| Body.CommonDifferencesPositive | src/xltablediff/xltablediff.py:531 | a differing value in a shared column makes the count positive |
| Body.BodyUnchanged | src/xltablediff/xltablediff.py:567-573 | when every merged header belongs to a table, the body counts no change iff every body row is `=` |
| Body.BodyIdentical | src/xltablediff/xltablediff.py:456-573 | a table compared with itself gives one `=` row per body row and no change |
| Tables.CommandRow | src/xltablediff/xltablediff.py:633-638 | the echo row is table-wide and starts with `#` |
| Tables.UnionNonEmpty | src/xltablediff/xltablediff.py:635-637 | the merged header row is never empty, so the echo row has a command cell |
| Tables.EchoCommand | src/xltablediff/xltablediff.py:632-638 | the command is echoed only when it is given |
| Tables.AppendHeaderZone | src/xltablediff/xltablediff.py:645-663 | appends the header zone and returns the number of column changes |
| Tables.CompareTables | src/xltablediff/xltablediff.py:598-678 | the comparison returns exactly the reference report or error |
| Tables.CompareTablesWith | src/xltablediff/xltablediff.py:626-678 | once the headers have merged, the rows appended and the indices returned are the reference assembly |
| Tables.Assemble | src/xltablediff/xltablediff.py:640-678 | the header, body and trailing indices are ordered and inside the diff rows |
| Tables.OneSidedNone | src/xltablediff/xltablediff.py:661-663 | no column is counted iff every merged header is in both tables |
| Tables.NamedCellsDiffer | src/xltablediff/xltablediff.py:655-663 | the `c-`/`c+` header rows differ in exactly the one-sided columns |
| Tables.SameWidthIffSameColumns | src/xltablediff/xltablediff.py:647 | the width test holds iff both header rows hold the same names |
| Tables.ColumnChangesCount | src/xltablediff/xltablediff.py:646-663 | the column-change count is the number of one-sided columns, and is zero iff the header rows hold the same names |
| Tables.HeaderZoneNamesColumns | src/xltablediff/xltablediff.py:647-660 | one `=` row of the merged headers iff the columns are the same; otherwise the `c-`/`c+` rows name a column exactly when that side has it |
| Tables.ZoneQuiet | src/xltablediff/xltablediff.py:647-660 | the header zone is all `=` iff the width test holds |
| Tables.BodyQuiet | src/xltablediff/xltablediff.py:668-672 | the body counts no change iff all of its rows are `=` |
| Tables.ComparedQuiet | src/xltablediff/xltablediff.py:397-403 | leading or trailing rows count no change iff they are all `=` |
| Tables.EchoQuiet | src/xltablediff/xltablediff.py:633-638 | the echo row is never counted as a change |
| Tables.AssembleQuiet | src/xltablediff/xltablediff.py:640-677 | when every part counts zero iff it is quiet, so does the whole report |
| Tables.ReconciledUnchanged | src/xltablediff/xltablediff.py:598-678 | a report counts no change iff every row is `=` or `#` |
| Tables.ReconciledParts | src/xltablediff/xltablediff.py:626-678 | a report is the echo, leading rows, header zone, body and trailing rows, with the change counts added |
| Tables.AssembleRows | src/xltablediff/xltablediff.py:642-673 | the header zone and the body rows sit at the returned indices |
| Tables.CellsOwnHeaders | src/xltablediff/xltablediff.py:499 | a row laid out under its own header row is itself |
| Tables.ReconciledIdentical | src/xltablediff/xltablediff.py:598-678 | a table compared with itself succeeds with no change, one `=` header row, and each body row echoed as `=` |
| Sheets.Untab | src/xltablediff/xltablediff.py:151 | a cell keeps its length and loses its tabs |
| Sheets.UntabKeeps | src/xltablediff/xltablediff.py:151 | a tab-free cell is unchanged |
| Sheets.UntabbedShape | src/xltablediff/xltablediff.py:144-152 | rows keep their shape, no cell holds a tab, and a second pass changes nothing |
| Sheets.Sheet.NoTabs | src/xltablediff/xltablediff.py:144-152 | the rows become their untabbed version |
| Sheets.Sheet.TrimAndPad | src/xltablediff/xltablediff.py:155-188 | the rows become their trimmed and padded version |
| Sheets.Width | src/xltablediff/xltablediff.py:160-177 | no row has a non-empty cell beyond the width |
| Sheets.Depth | src/xltablediff/xltablediff.py:172-176 | all rows after the depth are empty and the last kept row is not |
| Sheets.Trimmed | src/xltablediff/xltablediff.py:178-187 | the trimmed rows are as many as the depth, each as wide as the width |
| Sheets.TrimmedKeepsCells | src/xltablediff/xltablediff.py:178-187 | every kept cell is the original or padding, and every dropped cell was empty |
| Sheets.TrimmedRow | src/xltablediff/xltablediff.py:180-187 | each kept row is cut or padded to the width |
| Sheets.TrimmedLastRowUsed | src/xltablediff/xltablediff.py:172-178 | the last kept row has a non-empty cell |
| Sheets.TrimmedLastColumnUsed | src/xltablediff/xltablediff.py:166-177 | some kept row has a non-empty cell in the last kept column |
| Sheets.TrimmedEmpty | src/xltablediff/xltablediff.py:176-177 | no row is kept iff no column is kept |
| Sheets.TrimmedExtent | src/xltablediff/xltablediff.py:155-188 | trimming keeps the extent of the used cells |
| Sheets.TrimmedIdempotent | src/xltablediff/xltablediff.py:155-188 | trimming a trimmed sheet changes nothing |
| Sheets.Extent | src/xltablediff/xltablediff.py:160-177 | the scan finds the reference depth and width |
| Sheets.LastUsed | src/xltablediff/xltablediff.py:164-171 | the backward scan finds the last non-empty cell of a row, or -1 |
| Sheets.LeadingValues | src/xltablediff/xltablediff.py:208 | the count is the number of non-empty cells before the first empty one |
| Sheets.FirstHeaderRow | src/xltablediff/xltablediff.py:204-219 | the found row qualifies and no earlier row does |
| Sheets.HeaderCandidateMeaning | src/xltablediff/xltablediff.py:208-215 | a full-width row qualifies iff it has no empty cell, no repeated value, and holds the key when one is given |
| Sheets.ColumnRun | src/xltablediff/xltablediff.py:230-236 | the values below the header row up to the first empty cell hold no empty value |
| Sheets.PossibleKeysMeaning | src/xltablediff/xltablediff.py:220-237 | a header is a possible key iff its column has no repeated value before its first empty cell |
| Sheets.ColumnHasDuplicate | src/xltablediff/xltablediff.py:229-236 | the inner loop reports a duplicate iff that column run has a repeated value |
| Sheets.GuessHeaderRow | src/xltablediff/xltablediff.py:191-239 | a sheet with no rows fails with `BlankSheet`, the `IndexError` of reading the first row's width; otherwise returns the first qualifying row, and the possible keys when there is one |
| Sheets.NatStrInjective | src/xltablediff/xltablediff.py:253 | distinct numbers are written as distinct decimal strings |
| Sheets.SuffixedInjective | src/xltablediff/xltablediff.py:253 | distinct suffix numbers give distinct names |
| Sheets.TakenSuffixes | src/xltablediff/xltablediff.py:251-254 | a name set can hold only as many suffixed names as it has names, so the search stops |
| Sheets.FirstFreeSuffix | src/xltablediff/xltablediff.py:249-254 | the search finds a free suffix, and every smaller suffix is taken |
| Sheets.FirstFreeSuffixUnique | src/xltablediff/xltablediff.py:249-254 | the smallest free suffix is the one found |
| Sheets.Renamed | src/xltablediff/xltablediff.py:242-256 | the new name is not taken; a free header keeps its name, and a taken one gets the smallest free `_k` suffix |
| Sheets.HeaderSet.UniqueName | src/xltablediff/xltablediff.py:242-256 | returns the renamed header and adds it to the set |
| Legacy.Unique | xltablediff.py:119-129 | the loop returns the reference de-duplicated list |
| Legacy.DedupedElements | xltablediff.py:119-129 | a value is kept iff it occurs in the input |
| Legacy.DedupedNoRepeats | xltablediff.py:122-128 | no value is kept twice |
| Legacy.DedupedOrderAt | xltablediff.py:124-128 | kept values are in the order of their first occurrences |
| Legacy.DedupedDistinct | xltablediff.py:119-129 | a list without repeats comes back unchanged |
| Legacy.Filled | xltablediff.py:232 | the non-empty values of a row are at most as many as its cells, and none is empty |
| Legacy.SetSizeDistinct | xltablediff.py:234-235 | the set of values is as large as the list iff no value repeats |
| Legacy.GuessHeaderRow | xltablediff.py:216-241 | None iff no eligible row has a value; otherwise the first eligible row with the most non-empty values |
| Legacy.CompareHeaders | xltablediff.py:355-390 | the procedure returns exactly the reference merge, or the failure it raises |
| Legacy.MergedHeadersAgree | xltablediff.py:355-390 | on repeat-free header rows the legacy merge agrees with the current one |
| Legacy.MergedHeadersMarks | xltablediff.py:363-390 | it fails iff a header is empty, keeps the new row in order, and marks `=`, `+` and `-` as the current merge does |
| Legacy.MergedHeadersRepeat | xltablediff.py:363-366 | a repeated new header passes the legacy merge but is an error in the current one |
| Legacy.DraftSide | xltablediff.py:402-403 | the key column of a table is the position of the key in its header row |
| Legacy.KeyIndexSize | xltablediff.py:407-411 | the key index is as large as the key list iff no key repeats |
| Legacy.IndexDraftKeys | xltablediff.py:401-411 | builds the key index and raises the reference failure |
| Legacy.AppendDraftMatched | xltablediff.py:447-463 | a matched key gives one `=` row when the shared columns agree, otherwise a `c-`/`c+` pair |
| Legacy.AppendDraftKey | xltablediff.py:441-479 | one iteration appends the rows of one new key, then its following deleted rows |
| Legacy.AppendDraftBody | xltablediff.py:427-479 | the two loops append the reference body rows in the interleaved key order |
| Legacy.CompareTableRows | xltablediff.py:394-479 | fails with the reference failure and appends nothing, or appends exactly the reference body |
| Legacy.DraftBodyFails | xltablediff.py:407-421 | it fails iff a key list has an empty or repeated key; the old table is checked first |
| Legacy.DraftRowsShape | xltablediff.py:397-399 | every body row is table-wide and every `c-` row is followed by its `c+` row |
| Legacy.DraftRunRows | xltablediff.py:427-434 | the leading and following deleted rows are the same as in the current engine |
| Legacy.DraftRowsAgree | xltablediff.py:441-479 | when every merged header is in both tables, the legacy body is the current body with no ignored column |
| Legacy.DraftDropsOldOnlyValues | xltablediff.py:444-463 | for a column only the old table has, the legacy matched row leaves the cell empty, while the current one shows the old value |
| Legacy.DraftBodyStart | xltablediff.py:505-509 | the body starts one row after the header zone when the merged row is as long as the old one, otherwise two |
| Legacy.DraftZoneHidesDeletedColumn | xltablediff.py:507-520 | a deleted column is written as one `=` header row |
| Legacy.DraftZoneMisnamesColumns | xltablediff.py:507-520 | reordered columns are named in the old order above cells in the new order |

## Left out

- Workbook loading (`LoadWorkBook`, `FindTable`, `TrimSheet`), cell conversion, styling, writing the diff workbook and the `merge`/`append`/`select`/`rename` commands: they are I/O through openpyxl.
- The command line (`main`), its option parsing and the `Info`/`Warn`/`Die` messages.
- `string_diff` and `html_diff`: they are formatting wrappers around `diff`.
- A cell is a string. A `None` key or value is modelled as `""`, which is how the source treats an empty cell.
- Exceptions are modelled as error values (`Result`, `Outcome`). The message text is left out; only which check fired, and where, is kept.
- Python dictionaries used as indexes become `PositionMap`/`KeyIndex` maps. Their lookups are stated through `LastIndex`, which is the position a later duplicate overwrites.
- `CompareHeaders`' duplicate-header `assert` becomes a `DuplicateHeader` error. With assertions disabled, the source would go on with a wrong merge.
- Sheets.GuessHeaderRow: requires every row to be as wide as the first, which `TrimAndPad` guarantees before every call (src/xltablediff/xltablediff.py:309-312). A blank sheet trims to no rows at all; that case is not excluded but modelled as the `BlankSheet` error, standing for the `IndexError` the source raises at src/xltablediff/xltablediff.py:201.
- Legacy.CompareTableRows: requires the key in both header rows, because the legacy caller looks the key up first. The `KeyError` it would otherwise raise is not modelled.
- Legacy.CompareHeaders: the legacy empty-header message uses an undefined name, so Python raises a `NameError` instead of the intended `ValueError`. Both are modelled as the same `BlankHeader` failure.
- The legacy `CompareLeadingRows`, `MakeDiffRow`, `WriteDiffFile` and `main` are not modelled, because they are the legacy counterparts of left-out I/O. The legacy leading rows follow the current engine's `CompareLeadingTrailingRows`.

## Findings

| source | as written | input that shows it | evidently intended | confidence | as-written member | corrected member |
|---|---|---|---|---|---|---|
| xltablediff.py:507-520 | one `=` header row of the old headers whenever the merged row is as long as the old row | old headers `a b`, new headers `a` | a `-`/`+` header pair, because column `b` was deleted | not executed | Legacy.DraftZoneHidesDeletedColumn | Tables.HeaderZoneNamesColumns |
| xltablediff.py:507-520 | the single `=` header row lists the old header order | old headers `a b`, new headers `b a` | the `=` row lists the merged order `b a`, which is the order of the body cells | not executed | Legacy.DraftZoneMisnamesColumns | Tables.HeaderZoneNamesColumns |
