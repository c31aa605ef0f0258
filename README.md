# Code folding in the sora editor widget, modelled in Dafny

This project models `FoldingManager`, the code-folding state machine of the
editor widget. It keeps three sorted integer-keyed maps, all keyed by start line:

- the foldable regions: start line -> outermost end line;
- the collapsed flags: start line -> true;
- the end line recorded when each region was collapsed.

From them it derives two further structures:

- the hidden line ranges: merged, ascending and separated by at least one line;
- a lazily rebuilt mapping between document lines and visible rows, guarded by
  a dirty flag.

It also moves collapsed states when lines are inserted or deleted.

Files:

- `sparse.dfy` (module `SparseArrays`) models Android's `SparseIntArray` /
  `SparseBooleanArray`. An array is a map from key to value together with its
  keys as a strictly ascending sequence. That sequence gives the index view
  (`keyAt`, `valueAt`) the manager iterates with, and `indexOfKey` is a
  binary search.
- `folding_spec.dfy` (module `FoldingSpec`) states the meaning of the state
  independently of the loops that compute it:
  - the foldable regions of a block list;
  - the lines a set of collapsed regions hides, and the canonical form of the
    hidden ranges;
  - the visible lines and rows;
  - the 32-bit hash of the ranges;
  - where collapsed states go after a line shift.
- `folding_manager.dfy` (module `Folding`) holds the class `FoldingManager`.
  Its fields are reassigned by its methods, and `visibleLines` and
  `lineToVisibleRow` are arrays. The loops of the private steps are
  module-level methods over sparse-array values:
  - collecting the foldable regions;
  - searching for the innermost enclosing foldable region;
  - pruning stale collapsed states;
  - rebuilding the hidden ranges;
  - hashing;
  - collapsing everything;
  - shifting and copying back;
  - counting and filling the line mappings.

  Each of them is proved against the functions of `FoldingSpec`.

The class invariant `Valid()` says:

- foldable regions start at a non-negative line and end after their start;
- collapsed starts are not negative;
- every stored collapsed flag is `true`;
- ends are recorded only for collapsed starts, and are not negative;
- the hidden ranges hide exactly the lines `s+1..end(s)` of the collapsed
  starts `s` whose foldable end lies after them;
- when the mapping is not dirty, `visibleLines` lists exactly the visible
  lines and `lineToVisibleRow` holds each line's row, or -1 for a hidden line.

The editor collaborator is reduced to the line count, which the operations
that read `editor.getLineCount()` take as a parameter. The ghost field
`mappedLineCount` remembers the count the arrays were built for.

## Model

| member | source | states |
|---|---|---|
| SparseArrays.Rank | editor/src/main/java/io/github/rosemoe/sora/widget/FoldingManager.java:159-162 | the insertion point: every element before it is below the key, and in an ascending array every element from it on is at least the key |
| SparseArrays.BinarySearch | editor/src/main/java/io/github/rosemoe/sora/widget/FoldingManager.java:159-162 | `indexOfKey`: for a present key, its index; otherwise negative exactly when the key is absent, with `~idx` equal to the insertion point |
| SparseArrays.SparseArray.Put | editor/src/main/java/io/github/rosemoe/sora/widget/FoldingManager.java:117-120 | `put` keeps the keys strictly ascending and in step with the entries, and sets exactly that entry; a present key keeps the key order; a key above all others is appended |
| SparseArrays.SparseArray.Delete | editor/src/main/java/io/github/rosemoe/sora/widget/FoldingManager.java:133-134 | `delete` removes exactly that key, keeps the array valid, and leaves the keys below it at their index |
| SparseArrays.SparseArray.Get | editor/src/main/java/io/github/rosemoe/sora/widget/FoldingManager.java:117 | `get(key, default)`: the value of a present key, otherwise the default |
| SparseArrays.SparseArray.ValueAt | editor/src/main/java/io/github/rosemoe/sora/widget/FoldingManager.java:274-276 | `valueAt(i)`: the value stored under the i-th key |
| SparseArrays.KeyIndex | editor/src/main/java/io/github/rosemoe/sora/widget/FoldingManager.java:294-296 | the index view and the key view agree: the i-th key has exactly i smaller keys, so `indexOfKey(keyAt(i)) == i`, and `get` of it is `valueAt(i)` |
| SparseArrays.KeysCount | editor/src/main/java/io/github/rosemoe/sora/widget/FoldingManager.java:156 | `size()`, the length of the key sequence, is the number of entries |
| SparseArrays.Empty | editor/src/main/java/io/github/rosemoe/sora/widget/FoldingManager.java:77-85 | `clear` leaves no key and no entry |
| SparseArrays.SortedUnique | editor/src/main/java/io/github/rosemoe/sora/widget/FoldingManager.java:54-67 | two strictly ascending key sequences with the same elements are equal |
| SparseArrays.SameEntriesSameArray | editor/src/main/java/io/github/rosemoe/sora/widget/FoldingManager.java:54-67 | a sparse array is determined by its entries |
| FoldingSpec.LastLine | editor/src/main/java/io/github/rosemoe/sora/widget/FoldingManager.java:97 | `max(0, lineCount - 1)` is not negative and is the last line of a non-empty document |
| FoldingSpec.ClampedEnd | editor/src/main/java/io/github/rosemoe/sora/widget/FoldingManager.java:110-113 | a block end clamped to the last line: at most the last line and at most the block end, and equal to one of them |
| FoldingSpec.Admits | editor/src/main/java/io/github/rosemoe/sora/widget/FoldingManager.java:103-116 | an admitted block is non-null and satisfies `0 <= start < clampedEnd <= lastLine` |
| FoldingSpec.FoldableEnds | editor/src/main/java/io/github/rosemoe/sora/widget/FoldingManager.java:100-121 | every region the per-block fold records satisfies `0 <= start < end <= lastLine` |
| FoldingSpec.FoldableEndsExact | editor/src/main/java/io/github/rosemoe/sora/widget/FoldingManager.java:100-121 | after the first n blocks, a start is present exactly when an admitted block starts there, and its end is the largest clamped end among those blocks |
| FoldingSpec.FoldableEndsMeaning | editor/src/main/java/io/github/rosemoe/sora/widget/FoldingManager.java:95-123 | the foldable map of a block list is that largest-clamped-end map over all blocks |
| FoldingSpec.FoldableEndsBounds | editor/src/main/java/io/github/rosemoe/sora/widget/FoldingManager.java:106-116 | every foldable region satisfies `0 <= start < end <= lastLine` |
| FoldingSpec.FoldableBounds | editor/src/main/java/io/github/rosemoe/sora/widget/FoldingManager.java:106-116 | every map meeting that description has those bounds |
| FoldingSpec.StartLineHiddenOnlyIfCovered | editor/src/main/java/io/github/rosemoe/sora/widget/FoldingManager.java:42-43 | a collapsed region's own start line is hidden exactly when another collapsed region covers it |
| FoldingSpec.RangesCanonical | editor/src/main/java/io/github/rosemoe/sora/widget/FoldingManager.java:64-67 | two well-formed range arrays (ascending, separated by a line) hiding the same lines are equal |
| FoldingSpec.HiddenRangesDetermined | editor/src/main/java/io/github/rosemoe/sora/widget/FoldingManager.java:443-477 | the collapsed and foldable maps determine the hidden ranges uniquely |
| FoldingSpec.NothingCollapsedNothingHidden | editor/src/main/java/io/github/rosemoe/sora/widget/FoldingManager.java:444-447 | with nothing collapsed the hidden ranges are empty |
| FoldingSpec.FoldThenUnfoldRestores | editor/src/main/java/io/github/rosemoe/sora/widget/FoldingManager.java:228-229 | folding a start that was not collapsed and then unfolding it restores the collapsed map, the recorded ends and the hidden ranges |
| FoldingSpec.VisibleLinesOf | editor/src/main/java/io/github/rosemoe/sora/widget/FoldingManager.java:429-436 | the visible lines below n are strictly ascending and lie in `0..n-1` |
| FoldingSpec.VisibleLinesExact | editor/src/main/java/io/github/rosemoe/sora/widget/FoldingManager.java:429-436 | a line is listed exactly when it lies in `0..n-1` and is not hidden |
| FoldingSpec.VisiblePrefix | editor/src/main/java/io/github/rosemoe/sora/widget/FoldingManager.java:429-436 | the visible lines below m are a prefix of those below n, and the rest are lines from m on |
| FoldingSpec.RowOfLine | editor/src/main/java/io/github/rosemoe/sora/widget/FoldingManager.java:427-435 | the row stored for a line is -1 exactly when the line is hidden, and never below -1 |
| FoldingSpec.RowOfVisibleLine | editor/src/main/java/io/github/rosemoe/sora/widget/FoldingManager.java:341-344 | a visible line's row (the number of visible lines before it) is a row that shows that line |
| FoldingSpec.RankAmongVisible | editor/src/main/java/io/github/rosemoe/sora/widget/FoldingManager.java:349-351 | the insertion point of a line among the visible lines is the number of visible lines before it |
| FoldingSpec.VisibleRowRoundTrip | editor/src/main/java/io/github/rosemoe/sora/widget/FoldingManager.java:331 | the line a row shows is a visible document line whose own row is that row |
| FoldingSpec.MappingInverse | editor/src/main/java/io/github/rosemoe/sora/widget/FoldingManager.java:430-436 | `lineToVisibleRow[l] == i` exactly when `visibleLines[i] == l` |
| FoldingSpec.Int32 | editor/src/main/java/io/github/rosemoe/sora/widget/FoldingManager.java:481-484 | Java `int` wrap-around: the result is in `[-2^31, 2^31)`, congruent to the input modulo 2^32, and equal to it when it is in range |
| FoldingSpec.HashOfFirst | editor/src/main/java/io/github/rosemoe/sora/widget/FoldingManager.java:480-485 | after at least one range the hash is an `int` |
| FoldingSpec.Mix | editor/src/main/java/io/github/rosemoe/sora/widget/FoldingManager.java:482-483 | one step `31 * h + x` is an `int`, congruent to the unbounded value modulo 2^32 |
| FoldingSpec.RangesHash | editor/src/main/java/io/github/rosemoe/sora/widget/FoldingManager.java:479-486 | the hash of the ranges is an `int`, and 17 when there are none |
| FoldingSpec.SameHiddenLinesSameHash | editor/src/main/java/io/github/rosemoe/sora/widget/FoldingManager.java:92-143 | two states that hide the same lines have equal ranges and equal hashes, so an unchanged set of hidden lines reports no change |
| FoldingSpec.HashCollision | editor/src/main/java/io/github/rosemoe/sora/widget/FoldingManager.java:479-486 | the converse fails: the ranges `[1,40]` and `[2,9]` both hash to 16408 |
| FoldingSpec.ShiftStep | editor/src/main/java/io/github/rosemoe/sora/widget/FoldingManager.java:365-387 | one shift step keeps both temporary arrays valid |
| FoldingSpec.ShiftStates | editor/src/main/java/io/github/rosemoe/sora/widget/FoldingManager.java:362-388 | the temporary arrays after the whole shift loop are valid |
| FoldingSpec.ShiftKeys | editor/src/main/java/io/github/rosemoe/sora/widget/FoldingManager.java:362-388 | after a shift a start is collapsed exactly when some old start lands on it: not in a deleted range `[anchor, deletedEnd]`, moved by delta when after the anchor, and not negative; every flag is true; ends are recorded only for collapsed starts and are not negative |
| FoldingSpec.ShiftStepKeys | editor/src/main/java/io/github/rosemoe/sora/widget/FoldingManager.java:370-387 | one step marks exactly the new line of a surviving start and keeps flags and ends consistent |
| FoldingSpec.LandsOnSnoc | editor/src/main/java/io/github/rosemoe/sora/widget/FoldingManager.java:366-387 | a start lands on s after one more old start exactly when one already did or the new one survives and moves to s |
| FoldingSpec.NewLine | editor/src/main/java/io/github/rosemoe/sora/widget/FoldingManager.java:374-381 | a line after the anchor moves by delta, and a line at or before it stays |
| FoldingSpec.Dropped | editor/src/main/java/io/github/rosemoe/sora/widget/FoldingManager.java:368-373 | an insertion drops nothing; a dropped start lies in the deleted range `[anchor, deletedEnd]` |
| FoldingSpec.Kept | editor/src/main/java/io/github/rosemoe/sora/widget/FoldingManager.java:368-383 | an insertion keeps every non-negative start, a start before the anchor always survives, and a kept start moves to a non-negative line |
| FoldingSpec.MovedEnd | editor/src/main/java/io/github/rosemoe/sora/widget/FoldingManager.java:367-380 | a missing end reads as -1; a recorded end after the anchor moves by delta, and one at or before it stays |
| FoldingSpec.ShiftStepCarries | editor/src/main/java/io/github/rosemoe/sora/widget/FoldingManager.java:382-385 | a surviving start whose new line no earlier start took gets exactly its moved end, or no end when that is negative |
| FoldingSpec.ShiftStepKeepsEnd | editor/src/main/java/io/github/rosemoe/sora/widget/FoldingManager.java:382-385 | a start landing on another line leaves the end recorded at a line as it was |
| FoldingSpec.ShiftEnds | editor/src/main/java/io/github/rosemoe/sora/widget/FoldingManager.java:365-387 | when no two kept starts collide, each surviving start carries exactly its moved end after the shift, or no end when that is negative |
| FoldingSpec.ShiftEndsAll | editor/src/main/java/io/github/rosemoe/sora/widget/FoldingManager.java:365-387 | the same for every surviving start at once |
| FoldingSpec.ShiftInjective | editor/src/main/java/io/github/rosemoe/sora/widget/FoldingManager.java:370-381 | an insertion, or a deletion whose dropped range covers the deleted lines, never sends two kept starts to the same line |
| Folding.CollectFoldableEnds | editor/src/main/java/io/github/rosemoe/sora/widget/FoldingManager.java:94-123 | the loop over the blocks produces exactly the foldable map of the blocks |
| Folding.InnermostEnclosing | editor/src/main/java/io/github/rosemoe/sora/widget/FoldingManager.java:155-174 | -1 exactly when no foldable region encloses the line; otherwise the largest enclosing start |
| Folding.LargestEncloser | editor/src/main/java/io/github/rosemoe/sora/widget/FoldingManager.java:163-171 | a region enclosing the line with no enclosing region after it in key order has the largest enclosing start |
| Folding.NoEncloser | editor/src/main/java/io/github/rosemoe/sora/widget/FoldingManager.java:163-173 | when no region in key order encloses the line, no region does |
| Folding.CoveredAmongAll | editor/src/main/java/io/github/rosemoe/sora/widget/FoldingManager.java:449-472 | covering by the collapsed keys taken in index order is covering by the collapsed map |
| Folding.InRangesPut | editor/src/main/java/io/github/rosemoe/sora/widget/FoldingManager.java:469 | putting a new range adds exactly its lines to the hidden lines |
| Folding.AppendRange | editor/src/main/java/io/github/rosemoe/sora/widget/FoldingManager.java:469 | appending a range that starts two or more lines after the last one keeps the ranges well formed and the earlier ranges in place |
| Folding.BuildHiddenRanges | editor/src/main/java/io/github/rosemoe/sora/widget/FoldingManager.java:443-477 | `rebuildHiddenRanges`: the ranges are ascending, non-empty and separated by at least one line (touching ranges merged), and hide exactly the lines `s+1..end(s)` of the collapsed starts whose foldable end lies after them |
| Folding.ShiftCollapsed | editor/src/main/java/io/github/rosemoe/sora/widget/FoldingManager.java:362-388 | the shift loop builds exactly the shifted states `ShiftStates` of the old keys and ends |
| Folding.CopyShifted | editor/src/main/java/io/github/rosemoe/sora/widget/FoldingManager.java:389-398 | the copy-back loop reproduces the temporary arrays exactly |
| Folding.ShiftAndRebuild | editor/src/main/java/io/github/rosemoe/sora/widget/FoldingManager.java:362-401 | the new collapsed map holds exactly the starts old starts land on, all non-negative; when no two kept starts collide, each surviving start carries exactly its moved end, or none when that is negative; the hidden ranges match the new map |
| Folding.HiddenRangesHash | editor/src/main/java/io/github/rosemoe/sora/widget/FoldingManager.java:479-486 | the hash loop computes `RangesHash` of the ranges |
| Folding.Restyle | editor/src/main/java/io/github/rosemoe/sora/widget/FoldingManager.java:92-144 | the foldable map of the blocks within bounds; the collapsed starts that survive, with their current ends; the rebuilt ranges; `changed` exactly when the hash differs |
| Folding.HidingKeysAll | editor/src/main/java/io/github/rosemoe/sora/widget/FoldingManager.java:274-277 | the starts among the first n regions that hide a line are those keys with end > start |
| Folding.CollapseStepPut | editor/src/main/java/io/github/rosemoe/sora/widget/FoldingManager.java:277-281 | collapsing a new start advances the `foldAll` loop state |
| Folding.CollapsePutEntries | editor/src/main/java/io/github/rosemoe/sora/widget/FoldingManager.java:277-280 | collapsing a start that hides a line and is not collapsed yet adds it to the collapsed starts and, when it was not collapsed before the loop, to the starts with a recorded end |
| Folding.CollapsePutValues | editor/src/main/java/io/github/rosemoe/sora/widget/FoldingManager.java:279-281 | the same step keeps every end recorded before the loop, records the region's current end for the new start, and reports a change |
| Folding.CollapseStepSkip | editor/src/main/java/io/github/rosemoe/sora/widget/FoldingManager.java:277 | skipping a start advances the `foldAll` loop state |
| Folding.CollapseAll | editor/src/main/java/io/github/rosemoe/sora/widget/FoldingManager.java:273-282 | the `foldAll` loop collapses every region with end > start, records the end for the newly collapsed ones only, keeps every old state and end, and reports a change exactly when some such start was not collapsed |
| Folding.CollapseAllAndRebuild | editor/src/main/java/io/github/rosemoe/sora/widget/FoldingManager.java:269-288 | the foldAll loop as `CollapseAll` states it, plus hidden ranges that hide exactly the lines of the new collapsed regions |
| Folding.LineHidden | editor/src/main/java/io/github/rosemoe/sora/widget/FoldingManager.java:303-316 | `isLineHidden` by binary search: true exactly when the line lies in some hidden range `[k, v]` |
| Folding.CountVisibleLines | editor/src/main/java/io/github/rosemoe/sora/widget/FoldingManager.java:416-421 | the counting loop yields the number of visible lines |
| Folding.FillStepHidden | editor/src/main/java/io/github/rosemoe/sora/widget/FoldingManager.java:430-431 | a hidden line leaves the fill-loop state unchanged |
| Folding.FillStepVisible | editor/src/main/java/io/github/rosemoe/sora/widget/FoldingManager.java:430-435 | a visible line is listed at the next slot, gets that slot as its row, and the slot lies within the array |
| Folding.FillLineMappings | editor/src/main/java/io/github/rosemoe/sora/widget/FoldingManager.java:427-435 | the fill loop lists the visible lines and writes each line's row, -1 for hidden lines |
| Folding.ComputeLineMappings | editor/src/main/java/io/github/rosemoe/sora/widget/FoldingManager.java:416-436 | fresh arrays with exactly the visible lines and each line's row |
| Folding.PruneCollapsed | editor/src/main/java/io/github/rosemoe/sora/widget/FoldingManager.java:125-139 | a collapsed start survives exactly when its foldable end lies after it, survivors keep their state, and their recorded end becomes the current foldable end |
| Folding.PruneStepDelete | editor/src/main/java/io/github/rosemoe/sora/widget/FoldingManager.java:131-135 | deleting a stale start advances the pruning loop state |
| Folding.PruneStepKeep | editor/src/main/java/io/github/rosemoe/sora/widget/FoldingManager.java:138 | syncing a surviving start's end advances the pruning loop state |
| Folding.PrunedAll | editor/src/main/java/io/github/rosemoe/sora/widget/FoldingManager.java:127-139 | the finished pruning state is the one `PruneCollapsed` promises |
| Folding.FoldingManager.constructor | editor/src/main/java/io/github/rosemoe/sora/widget/FoldingManager.java:54-75 | all maps empty, arrays empty, mapping dirty, invariant established |
| Folding.FoldingManager.ResetForNewText | editor/src/main/java/io/github/rosemoe/sora/widget/FoldingManager.java:77-85 | all maps cleared, arrays emptied, mapping dirty |
| Folding.FoldingManager.OnStylesUpdated | editor/src/main/java/io/github/rosemoe/sora/widget/FoldingManager.java:92-144 | foldable map rebuilt within `0 <= start < end <= lastLine`; collapsed starts are the old ones still foldable; their ends synced; invariant kept; result true exactly when the ranges' hash changed, so false when the ranges are unchanged |
| Folding.FoldingManager.IsFoldableLine | editor/src/main/java/io/github/rosemoe/sora/widget/FoldingManager.java:146-148 | true exactly when the line starts a region that hides a line |
| Folding.FoldingManager.FindFoldableStartLineForLine | editor/src/main/java/io/github/rosemoe/sora/widget/FoldingManager.java:155-174 | -1 exactly when no foldable region encloses the line; otherwise the largest enclosing start |
| Folding.FoldingManager.FindCollapsedStartLineForLine | editor/src/main/java/io/github/rosemoe/sora/widget/FoldingManager.java:181-203 | -1 exactly when no collapsed region with a live foldable end encloses the line; otherwise the largest such start |
| Folding.FoldingManager.IsCollapsed | editor/src/main/java/io/github/rosemoe/sora/widget/FoldingManager.java:205-212 | true exactly when the start is collapsed and its region still hides a line; then every line of the region is hidden |
| Folding.FoldingManager.GetFoldRegion | editor/src/main/java/io/github/rosemoe/sora/widget/FoldingManager.java:290-301 | a region exactly for a foldable start with end > start, carrying that end and its collapsed state |
| Folding.FoldingManager.IsLineHidden | editor/src/main/java/io/github/rosemoe/sora/widget/FoldingManager.java:303-316 | true exactly when the line lies in a hidden range |
| Folding.FoldingManager.Fold | editor/src/main/java/io/github/rosemoe/sora/widget/FoldingManager.java:214-236 | true exactly when the start is foldable and not collapsed; then it is collapsed with its current end recorded, and otherwise nothing changes |
| Folding.FoldingManager.Unfold | editor/src/main/java/io/github/rosemoe/sora/widget/FoldingManager.java:238-253 | true exactly when the start was collapsed; then it is removed from both collapsed maps, and otherwise nothing changes |
| Folding.FoldingManager.Toggle | editor/src/main/java/io/github/rosemoe/sora/widget/FoldingManager.java:255-257 | a collapsed region is expanded and only its state and end are removed; otherwise a foldable, uncollapsed start is collapsed with its current end and nothing else changes; any other start leaves the manager unchanged; a change marks the mapping dirty |
| Folding.FoldingManager.UnfoldAll | editor/src/main/java/io/github/rosemoe/sora/widget/FoldingManager.java:259-267 | no collapsed state, no recorded end and no hidden range remain; nothing changes when nothing was collapsed |
| Folding.FoldingManager.FoldAll | editor/src/main/java/io/github/rosemoe/sora/widget/FoldingManager.java:269-288 | every region with end > start becomes collapsed with its end recorded if newly collapsed; true exactly when one was newly collapsed; otherwise nothing changes |
| Folding.FoldingManager.EnsureLineMappings | editor/src/main/java/io/github/rosemoe/sora/widget/FoldingManager.java:405-441 | afterwards the mapping is clean and exact; a stale mapping is rebuilt for `max(lineCount, 0)` lines; a clean one is left alone |
| Folding.FoldingManager.GetVisibleRowCount | editor/src/main/java/io/github/rosemoe/sora/widget/FoldingManager.java:318-321 | the number of visible lines of the mapped document; the foldable, collapsed and end maps and the hidden ranges are unchanged, and on a clean mapping the whole manager is unchanged, so repeated calls agree |
| Folding.FoldingManager.GetLineForVisibleRow | editor/src/main/java/io/github/rosemoe/sora/widget/FoldingManager.java:323-332 | a negative row gives 0; a row past the end gives `max(0, lineCount-1)`; otherwise a visible line whose own row is the given row; the folding state is unchanged, and on a clean mapping the whole manager is unchanged |
| Folding.FoldingManager.GetVisibleRowForLine | editor/src/main/java/io/github/rosemoe/sora/widget/FoldingManager.java:334-352 | a negative line gives row 0 and a line past the end the last row; a visible line's row shows that line; a hidden line gets the row of the last visible line above it, or 0; the folding state is unchanged, and on a clean mapping the whole manager is unchanged |
| Folding.FoldingManager.OnLineShift | editor/src/main/java/io/github/rosemoe/sora/widget/FoldingManager.java:357-403 | delta 0 only marks the mapping dirty; otherwise the collapsed states become exactly the shifted states, and for an insertion or a covering deletion each surviving start carries its moved end (none when negative); the hidden ranges are rebuilt against the unchanged foldable map, and the mapping is dirty |

## Left out

- Debug logging (`Log.d` guarded by `foldingDebugLogEnabled`) has no effect on the state and is not modelled.
- The `CodeEditor` collaborator is reduced to the line count, passed to the operations that read it.
- `Styles` and `CodeBlock` are reduced to an optional list of optional `(startLine, endLine)` blocks. A null `Styles` and a null `blocksByStart` are both `None`.
- Line arithmetic (`key + deltaLines`, `endLine + deltaLines`, `startLine + 1`) is unbounded here. The source's 32-bit `int` overflow on documents near 2^31 lines is not modelled. The hash is the exception: it is modelled with Java's 32-bit wrap-around.
- Folding.FoldingManager.OnStylesUpdated: its result compares hashes, so a change between two range sets with the same hash (such as `[1,40]` and `[2,9]`) is reported as no change. The contract states exactly that hash comparison. "The ranges changed" is proved only in the direction "unchanged ranges give false".
- The foldable map is computed into a fresh value and then assigned, rather than cleared and filled in place. Likewise the pruning, rebuild and shift loops work on sparse-array values that the methods then assign to the fields. Aliasing of these maps is not modelled because no other object can reach them.
- The loops of the private steps are module-level methods called from the class methods:
  - rebuilding the hidden ranges;
  - pruning the collapsed states;
  - the `foldAll` loop;
  - the shift and copy-back loops;
  - the three loops of `ensureLineMappings`.
- The line/row arrays are rebuilt only while the mapping is dirty. A query made after the line count changed without a dirtying call answers for the old count. The contracts state this through `mappedLineCount`, which a query on a clean mapping leaves unchanged together with the arrays.
- Folding.FoldingManager.GetLineForVisibleRow and GetVisibleRowForLine: the contracts state the in-range answers in terms of the mapped line count. The source returns `max(0, lineCount - 1)` for a row past the end using the current count, and so does the model.
- Folding.FoldingManager.OnLineShift: the contract says where the collapsed states and their ends go. It does not claim that a shifted region still matches the text, since that holds only after the next restyling.
- Folding.FoldingManager.OnLineShift: where the ends go is stated for an insertion and for a deletion whose range `[anchor, deletedEnd]` covers the deleted lines. Otherwise two kept starts can land on the same line, and the later one's end overwrites the earlier one's. That case is given only through `ShiftStates`.
- SparseArrays.SparseArray.Size: has no contract of its own. `KeysCount` states that the key count is the number of entries, because a contract on `Size` would add a cardinality fact at every caller.
- Folding.CollapseAllAndRebuild: rebuilds the ranges even when nothing was newly collapsed. `FoldAll` then discards them, so the fields change exactly as in the source.
