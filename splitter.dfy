/** The grid-split dialog's state: one Axis per direction, each holding a
    split count, an "even" flag and the table of (index, percent) rows, and
    the four operations the dialog runs on an axis. */
module Splitter {
  import opened Partition
  import Boundaries

  /** The SpinButton bounds of the split count. */
  const MAX_SPLITS := 20

  class Axis {
    var count: int
    var even: bool
    var rows: seq<Row>

    /** What holds between events, whatever the flag: the table has count rows
        labelled 1..count, no share is negative and the shares add up to at
        most 100 (an edit can leave them short of 100, never above). */
    ghost predicate Shaped()
      reads this
    {
      1 <= count <= MAX_SPLITS && |rows| == count &&
      Numbered(rows) && NonNegative(rows) && Sum(rows) <= 100
    }

    /** In even mode the table is the even partition of the count. */
    ghost predicate Valid()
      reads this
    {
      Shaped() && (even ==> rows == EvenPartition(count))
    }

    /** A fresh axis: one split, even, a single row of 100 percent. */
    constructor ()
      ensures Valid()
      ensures count == 1 && even && rows == [Row(1, 100)]
    {
      count := 1;
      even := true;
      rows := [Row(1, 100)];
      assert EvenPartition(1) == [Row(1, 100)];
    }

    /** The split count changed to value. In even mode the table is rebuilt as
        the even partition; otherwise zero rows are appended or the tail is
        folded into the new last row. */
    method UpdateSplit(value: int)
      requires Shaped() && 1 <= value <= MAX_SPLITS
      modifies this
      ensures Valid()
      ensures count == value && even == old(even)
      ensures rows == if even then EvenPartition(value) else Resized(old(rows), value)
    {
      count := value;
      if even {
        RebuildEven();
      } else {
        ResizedShape(rows, value);
        var delta := count - |rows|;
        if delta > 0 {
          AppendZeroRows(delta);
        }
        if delta < 0 {
          FoldTail(-delta);
        }
      }
    }

    /** Even branch of UpdateSplit: clear the table and append the rows of
        the even partition of count, labelled 1..count. */
    method RebuildEven()
      requires 1 <= count
      modifies this`rows
      ensures rows == EvenPartition(count)
    {
      rows := [];
      var frac := 100 / count;
      var partition := seq(count - 1, _ => frac) + [100 - (count - 1) * frac];
      ghost var target := EvenPartition(count);
      var i := 0;
      while i < |partition|
        invariant 0 <= i <= |partition| == count
        invariant forall k :: 0 <= k < |partition| ==> partition[k] == target[k].percent
        invariant rows == target[..i]
      {
        rows := rows + [Row(i + 1, partition[i])];
        i := i + 1;
      }
      assert target[..count] == target;
    }

    /** Growing branch of UpdateSplit: append delta rows of share 0, labelled
        on from the current length. */
    method AppendZeroRows(delta: nat)
      modifies this`rows
      ensures rows == Grown(old(rows), |old(rows)| + delta)
    {
      var idx := |rows| + 1;
      var i := 0;
      while i < delta
        invariant 0 <= i <= delta
        invariant rows == Grown(old(rows), |old(rows)| + i)
      {
        rows := rows + [Row(idx + i, 0)];
        i := i + 1;
      }
    }

    /** Shrinking branch of UpdateSplit: delete the last k rows one by one,
        adding up their shares, and add the sum to the new last row. */
    method FoldTail(k: nat)
      requires k < |rows|
      modifies this`rows
      ensures rows == Shrunk(old(rows), |old(rows)| - k)
    {
      ghost var before := rows;
      var s := 0;
      var i := 0;
      while i < k
        invariant 0 <= i <= k
        invariant rows == before[..|before| - i]
        invariant s == Sum(before[|before| - i..])
      {
        SumFrom(before, |before| - i - 1);
        s := s + rows[|rows| - 1].percent;
        rows := rows[..|rows| - 1];
        i := i + 1;
      }
      ghost var kept := rows;
      rows := rows[|rows| - 1 := Row(rows[|rows| - 1].index, rows[|rows| - 1].percent + s)];
      assert kept[..|kept| - 1] == before[..|kept| - 1];
      assert rows == kept[..|kept| - 1] + [rows[|kept| - 1]];
    }

    /** The even checkbox was set to active: the flag follows it and the
        split count is applied again, which rebuilds the even partition when
        active and leaves the rows alone otherwise. */
    method EvenSplitToggled(active: bool)
      requires Shaped()
      modifies this
      ensures Valid()
      ensures even == active && count == old(count)
      ensures rows == if active then EvenPartition(count) else old(rows)
    {
      even := active;
      UpdateSplit(count);
    }

    /** Row path was edited to value. Unless the value is unchanged, the row
        takes it, the axis leaves even mode, and the difference is pushed onto
        the other rows from the last one back, each moving by at most its own
        share, until nothing is left. */
    method Edited(path: nat, value: int)
      requires Valid() && path < |rows| && 0 <= value <= 100
      modifies this
      ensures Valid() && count == old(count)
      ensures rows == EditedRows(old(rows), path, value)
      ensures even == (old(even) && old(rows[path].percent) == value)
    {
      var delta := rows[path].percent - value;
      if delta == 0 {
        return;
      }
      EditedShape(rows, path, value);
      EditedTotal(rows, path, value);
      rows := rows[path := Row(rows[path].index, value)];
      even := false;
      ghost var start := rows;
      ghost var delta0 := delta;
      var i := |rows|;
      while i > 0
        invariant 0 <= i <= |rows| == |start|
        invariant count == old(count) && !even
        invariant delta != 0
        invariant Spread(rows, path, delta, i) == Spread(start, path, delta0, |start|)
      {
        i := i - 1;
        if i != path {
          var sign := if delta > 0 then 1 else -1;
          var s := sign * Min(Abs(delta), rows[i].percent);
          assert s == Signed(delta, Min(Abs(delta), rows[i].percent));
          rows := rows[i := Row(rows[i].index, rows[i].percent + s)];
          delta := delta - s;
          if delta == 0 {
            assert rows == Spread(start, path, delta0, |start|).0;
            break;
          }
        }
      }
    }

    /** The crop boundaries of the axis: the cumulative shares, without
        duplicates, in ascending order. They start at 0, increase strictly,
        end at the total and have one boundary per nonzero row plus one. */
    method Crops() returns (crops: seq<int>)
      requires Valid()
      ensures crops == Boundaries.Crops(rows)
      ensures |crops| == 1 + Boundaries.NonZero(rows) && Boundaries.StrictlyIncreasing(crops)
      ensures crops[0] == 0 && crops[|crops| - 1] == Sum(rows)
    {
      var cum := CumulativeShares();
      crops := Boundaries.SortedDistinct(cum);
      Boundaries.CropsShape(rows);
    }

    /** First half of Crops: fill an array one longer than the table with 0
        followed by the running totals of the shares. */
    method CumulativeShares() returns (cum: seq<int>)
      ensures cum == Boundaries.Cumulative(rows)
    {
      ghost var c := Boundaries.Cumulative(rows);
      var a := new int[|rows| + 1](_ => 0);
      var i := 0;
      while i < |rows|
        invariant 0 <= i <= |rows|
        invariant forall k :: 0 <= k <= i ==> a[k] == c[k]
      {
        a[i + 1] := a[i] + rows[i].percent;
        i := i + 1;
      }
      cum := a[..];
    }
  }

  datatype Direction = Vertical | Horizontal

  /** The dialog holds one independent axis per direction. */
  class Dialog {
    const vertical: Axis
    const horizontal: Axis

    ghost predicate Valid()
      reads this, vertical, horizontal
    {
      vertical != horizontal && vertical.Valid() && horizontal.Valid()
    }

    function AxisOf(d: Direction): Axis
    {
      match d
      case Vertical => vertical
      case Horizontal => horizontal
    }

    function OtherOf(d: Direction): Axis
    {
      match d
      case Vertical => horizontal
      case Horizontal => vertical
    }

    /** Both axes start with one split, even, one row of 100 percent. */
    constructor ()
      ensures Valid() && fresh(vertical) && fresh(horizontal)
      ensures forall d: Direction :: AxisOf(d).count == 1 && AxisOf(d).even && AxisOf(d).rows == [Row(1, 100)]
    {
      vertical := new Axis();
      horizontal := new Axis();
    }

    method UpdateSplit(d: Direction, value: int)
      requires Valid() && 1 <= value <= MAX_SPLITS
      modifies AxisOf(d)
      ensures Valid() && unchanged(OtherOf(d))
      ensures AxisOf(d).count == value && AxisOf(d).even == old(AxisOf(d).even)
      ensures AxisOf(d).rows ==
        if AxisOf(d).even then EvenPartition(value) else Resized(old(AxisOf(d).rows), value)
    {
      AxisOf(d).UpdateSplit(value);
    }

    method EvenSplitToggled(d: Direction, active: bool)
      requires Valid()
      modifies AxisOf(d)
      ensures Valid() && unchanged(OtherOf(d))
      ensures AxisOf(d).even == active && AxisOf(d).count == old(AxisOf(d).count)
      ensures AxisOf(d).rows == if active then EvenPartition(AxisOf(d).count) else old(AxisOf(d).rows)
    {
      AxisOf(d).EvenSplitToggled(active);
    }

    method Edited(d: Direction, path: nat, value: int)
      requires Valid() && path < |AxisOf(d).rows| && 0 <= value <= 100
      modifies AxisOf(d)
      ensures Valid() && unchanged(OtherOf(d))
      ensures AxisOf(d).count == old(AxisOf(d).count)
      ensures AxisOf(d).rows == EditedRows(old(AxisOf(d).rows), path, value)
      ensures AxisOf(d).even == (old(AxisOf(d).even) && old(AxisOf(d).rows[path].percent) == value)
    {
      AxisOf(d).Edited(path, value);
    }

    method Crops(d: Direction) returns (crops: seq<int>)
      requires Valid()
      ensures crops == Boundaries.Crops(AxisOf(d).rows)
      ensures crops[0] == 0 && crops[|crops| - 1] == Sum(AxisOf(d).rows)
      ensures Boundaries.StrictlyIncreasing(crops)
    {
      crops := AxisOf(d).Crops();
    }
  }
}
