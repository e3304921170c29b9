# Grid-split partition model

A Dafny model of the partition logic of pdfarranger's grid-splitting dialog
(`Dialog` in `pdfarranger/splitter.py`). The dialog splits a page into a grid.
Each direction (vertical columns, horizontal rows) is an **axis** with three
parts:

- a split count, 1 to 20;
- an "even" flag;
- a table of `(index, percent)` rows.

Four handlers change or read an axis:

- `_update_split`: the split count changed;
- `_even_split_toggled`: the even checkbox was toggled;
- `_edited`: one percentage cell was edited;
- `_crops`: derive the crop boundaries when the user confirms.

Files:

- `partition.dfy` (module `Partition`): the rows as values. It holds the
  specification functions for each handler: `EvenPartition`, `Grown`,
  `Shrunk`, `Resized`, `Spread` and `EditedRows`. It also holds a reference
  definition `Absorbed` of how far each row moves in an edit, and the lemmas
  about all of these.
- `boundaries.dfy` (module `Boundaries`): cumulative shares, `sorted(set(...))`
  as `SortedDistinct`, and the shape of the crop sequence.
- `splitter.dfy` (module `Splitter`): class `Axis`, whose fields `count`,
  `even` and `rows` the handlers update in place, each handler being a method
  with the source's loops. Class `Dialog` holds two `Axis` instances, one per
  `Direction`, in place of the source's per-direction dictionaries.

Percentages are exact integers. A crop boundary `k` stands for the fraction
`k/100`.

### Where an edit does not keep the total at 100

The comment at line 108 says that an edit fixes the total to 100. The loop
does not always do this, and the model follows the loop. The edited row always takes
the new value (line 106). Each other row can then absorb at most its own share
(line 113), and whatever is left over is dropped. Example: a single row of 100
edited to 50 leaves a total of 50 (`EditSingle`). `EditedTotal` gives the
exact total in every case.

The invariant the axis really keeps is weaker. In `Axis.Shaped`:

- the table has `count` rows, labelled 1..count;
- no share is negative;
- the total is **at most** 100.

In even mode, the rows are exactly the even partition, so the total is 100
(`Axis.Valid`).

## Model

| member | source | states |
|---|---|---|
| `Splitter.Axis.constructor` | pdfarranger/splitter.py:38-39 | a new axis has count 1, the even flag set and the single row (1, 100) that line 88 appends; this is the even partition of 1 |
| `Splitter.Axis.UpdateSplit` | pdfarranger/splitter.py:119-143 | the count becomes the new value and the flag is kept; in even mode the rows become `EvenPartition(value)`, otherwise `Resized(old rows, value)`; the axis invariant holds afterwards |
| `Splitter.Axis.RebuildEven` | pdfarranger/splitter.py:121-129 | clearing the table and appending the rows of the enumerated partition list yields exactly `EvenPartition(count)` |
| `Splitter.Axis.AppendZeroRows` | pdfarranger/splitter.py:132-136 | appending `delta` rows in a loop yields `Grown(old rows, old length + delta)` |
| `Splitter.Axis.FoldTail` | pdfarranger/splitter.py:137-143 | deleting the last k rows one at a time while summing them, then adding the sum to the new last row, yields `Shrunk(old rows, old length - k)` |
| `Splitter.Axis.EvenSplitToggled` | pdfarranger/splitter.py:145-147 | the flag takes the checkbox state and the count is unchanged; when switched on, the rows become the even partition of the current count, discarding edits; when switched off, the rows are unchanged |
| `Splitter.Axis.Edited` | pdfarranger/splitter.py:102-117 | the rows become `EditedRows(old rows, path, value)`; the flag is cleared unless the value equals the old one; the count is unchanged; the invariant (non-negative, total at most 100) is kept |
| `Splitter.Axis.Crops` | pdfarranger/splitter.py:149-157 | taking `sorted(set(...))` of the cumulative array gives `Boundaries.Crops(rows)`; the result starts at 0, is strictly increasing, ends at the total and has one entry more than there are nonzero rows |
| `Splitter.Axis.CumulativeShares` | pdfarranger/splitter.py:150-154 | filling the zero-padded array one longer than the table with running totals yields exactly `Boundaries.Cumulative(rows)` |
| `Splitter.Dialog.constructor` | pdfarranger/splitter.py:38-42 | both axes start with count 1, even, rows [(1, 100)], and they are distinct objects |
| `Splitter.Dialog.UpdateSplit` | pdfarranger/splitter.py:119-120 | the handler for one direction updates that axis as `Axis.UpdateSplit` does and leaves the other axis unchanged |
| `Splitter.Dialog.EvenSplitToggled` | pdfarranger/splitter.py:145-147 | the toggle for one direction acts on that axis only |
| `Splitter.Dialog.Edited` | pdfarranger/splitter.py:102-107 | an edit in one direction acts on that axis only |
| `Splitter.Dialog.Crops` | pdfarranger/splitter.py:149-157 | the crops of one direction start at 0, increase strictly and end at that axis's total |
| `Partition.EvenPartition` | pdfarranger/splitter.py:124-129 | for count c ≥ 1: c rows labelled 1..c; the first c-1 are `100 div c` and the last is `100 - (c-1)*(100 div c)`; all are non-negative and the total is exactly 100 |
| `Partition.Grown` | pdfarranger/splitter.py:131-136 | the new length is c; the existing rows are unchanged; the new rows at positions len..c-1 are `(k+1, 0)`; the total is unchanged |
| `Partition.Shrunk` | pdfarranger/splitter.py:137-143 | the new length is c; rows before c-1 are unchanged; the new last row keeps its label and holds everything from position c-1 on; the total is unchanged |
| `Partition.Resized` | pdfarranger/splitter.py:130-143 | the uneven count change gives length c and keeps the total; with c equal to the current length (the case of toggling even mode off) the rows are returned unchanged |
| `Partition.ResizedShape` | pdfarranger/splitter.py:131-143 | growing or shrinking keeps the labels 1..c and non-negative shares |
| `Partition.Spread` | pdfarranger/splitter.py:110-117 | the reverse redistribution loop as a function; it keeps the number of rows |
| `Partition.EditedRows` | pdfarranger/splitter.py:102-117 | an edit keeps the number of rows |
| `Partition.SpreadFrame` | pdfarranger/splitter.py:110-114 | the loop changes no label, never changes the edited row, and leaves the rows at or after its current position as they are |
| `Partition.SpreadLeftover` | pdfarranger/splitter.py:110-117 | the delta left after the loop keeps delta's sign, and its size is the part of abs(delta) that the visited other rows could not absorb; the total moves by exactly the absorbed part |
| `Partition.SpreadAbsorbed` | pdfarranger/splitter.py:110-117 | the loop moves each visited row by exactly the reference amount `Absorbed`: min(its share, what the later rows left of abs(delta)), in the sign of delta |
| `Partition.AbsorbedStep` | pdfarranger/splitter.py:112-115 | one visit of a row by the loop leaves every earlier row as it was and does not change the signed amount that row goes on to absorb |
| `Partition.EditStart` | pdfarranger/splitter.py:105-106 | after the edited row is set and before redistribution: shares are still non-negative, the total moved by value minus the old share, and the other rows hold the old total minus the old share |
| `Partition.EditedShape` | pdfarranger/splitter.py:103-114 | a no-op when the value is unchanged; otherwise the edited row holds the value, labels and row count are kept, and no row becomes negative |
| `Partition.EditedMoves` | pdfarranger/splitter.py:110-117 | when the value went down, another row grows by at most its own share; when it went up, another row shrinks by at most its share; a row is untouched when the later rows could absorb abs(delta); a row that moved means every later row was used up (emptied or doubled) |
| `Partition.EditedLeftover` | pdfarranger/splitter.py:110-117 | for a real edit, the new total is the old total minus sign(delta) times the part of abs(delta) the other rows could not absorb |
| `Partition.EditedTotal` | pdfarranger/splitter.py:108-117 | value up by d: the total is kept if the others sum to at least d, otherwise it becomes the value; value down by d: the total is kept if the others sum to at least d, otherwise it falls short by d minus the others; the total never exceeds max(value, old total) |
| `Partition.EvenFour` | pdfarranger/splitter.py:124-129 | the even partition of 4 is 25, 25, 25, 25 |
| `Partition.EditThree` | pdfarranger/splitter.py:102-117 | even 3 is [33, 33, 34]; editing the second row to 50 gives [33, 50, 17] |
| `Partition.EditSingle` | pdfarranger/splitter.py:102-117 | editing a lone 100 to 50 gives [50], so the total is 50 |
| `Partition.ShrinkFive` | pdfarranger/splitter.py:137-143 | shrinking [10, 20, 30, 15, 25] to 3 gives [10, 20, 70] |
| `Boundaries.Cumulative` | pdfarranger/splitter.py:151-154 | the padded array starts at 0, entry k+1 is entry k plus row k's share, and the last entry is the total |
| `Boundaries.Insert` | pdfarranger/splitter.py:156 | adding one value to a strictly increasing list keeps it strictly increasing, adds exactly that value, and grows the list by one exactly when the value was new |
| `Boundaries.SortedDistinct` | pdfarranger/splitter.py:156 | `sorted(set(s))`: strictly increasing, with exactly the values of s |
| `Boundaries.DistinctCount` | pdfarranger/splitter.py:156 | a strictly increasing list has as many entries as distinct values, so `sorted(set(s))` has one entry per distinct value of s |
| `Boundaries.SortedUnique` | pdfarranger/splitter.py:156 | two strictly increasing sequences with the same values are equal, so `SortedDistinct` is the only sorted, duplicate-free listing |
| `Boundaries.CumulativeElems` | pdfarranger/splitter.py:151-156 | with non-negative rows, every cumulative value lies in [0, total] and there is one distinct value more than there are nonzero rows |
| `Boundaries.CumulativeRange` | pdfarranger/splitter.py:151-154 | with non-negative rows, every cumulative value lies in [0, total] |
| `Boundaries.CumulativeCount` | pdfarranger/splitter.py:151-156 | with non-negative rows, a zero row repeats the previous running total and a nonzero row adds a new one, so there is one distinct value more than there are nonzero rows |
| `Boundaries.CropsShape` | pdfarranger/splitter.py:149-157 | with non-negative rows, the crops start at 0, increase strictly, end at the total (100 when the total is 100) and number 1 plus the nonzero rows |
| `Boundaries.CropsCount` | pdfarranger/splitter.py:155-156 | removing duplicates drops one boundary per empty row: there are 1 plus the nonzero rows boundaries |
| `Boundaries.CropsEnds` | pdfarranger/splitter.py:151-156 | the crops are never empty, the first is 0 and the last is the total |
| `Boundaries.CropsEvenFour` | pdfarranger/splitter.py:149-157 | four even columns give boundaries 0, 25, 50, 75, 100, meaning 0, 0.25, 0.5, 0.75 and 1 |

## Left out

- Gtk dialog and widget construction, layout, labels and gettext (pdfarranger/splitter.py:17-100). This is presentation code.
- The spin button: `_update_split` reads the new count with `get_value_as_int()`. The model passes the count as a parameter, bounded to 1..20 by the adjustment at line 72.
- The cell renderer: it passes the row as a path string and the value as text, which `int(value)` parses. The model takes a row position and an integer in 0..100, the bounds of the adjustment at line 96.
- `set_active(False)` at line 107 makes the checkbox emit a signal, which re-enters `_update_split`. The model sets the flag directly. The re-entered call does nothing, because the count already equals the number of rows.
- Floating point in `_crops` (`0.01 * value`, line 153) and in `sign` (line 112). The model uses integers: boundary k means k/100, and the sign is ±1. Float rounding, and duplicates that rounding could create or hide, are not modelled.
- `run_get` (lines 159-167): running and destroying the dialog. On cancel it returns no crops. This dialog lifecycle is not part of this model.
- The count change requires the rows to be as long as the old count, which every handler keeps. The source relies on the same fact when it compares the new count with the number of rows.
