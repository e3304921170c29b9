/** The rows of one axis of the grid-split dialog, as values, and the effect of
    each of the dialog's events on them. Percentages are exact integers; a
    cumulative boundary k stands for the fraction k/100. */
module Partition {

  /** One row of the table: a 1-based display label and a share in percent. */
  datatype Row = Row(index: int, percent: int)

  function Abs(d: int): nat { if d < 0 then -d else d }

  function Min(a: int, b: int): int { if a <= b then a else b }

  function Max(a: int, b: int): int { if a <= b then b else a }

  /** sign(d) * m, where the sign of a nonzero d is +1 or -1. */
  function Signed(d: int, m: int): int { if d > 0 then m else -m }

  /** Total of the shares, summed from the last row back. */
  function Sum(rows: seq<Row>): int
  {
    if rows == [] then 0 else Sum(rows[..|rows| - 1]) + rows[|rows| - 1].percent
  }

  /** Rows are labelled 1, 2, ... in table order. */
  ghost predicate Numbered(rows: seq<Row>)
  {
    forall k :: 0 <= k < |rows| ==> rows[k].index == k + 1
  }

  ghost predicate NonNegative(rows: seq<Row>)
  {
    forall k :: 0 <= k < |rows| ==> 0 <= rows[k].percent
  }

  // ---------------------------------------------------------------------------
  // Sums

  lemma {:induction false} SumAppend(a: seq<Row>, b: seq<Row>)
    ensures Sum(a + b) == Sum(a) + Sum(b)
    decreases |b|
  {
    if b == [] {
      assert a + b == a;
    } else {
      assert (a + b)[..|a + b| - 1] == a + b[..|b| - 1];
      SumAppend(a, b[..|b| - 1]);
    }
  }

  lemma {:induction false} SumNonNegative(rows: seq<Row>)
    requires NonNegative(rows)
    ensures Sum(rows) >= 0
    decreases |rows|
  {
    if rows != [] {
      SumNonNegative(rows[..|rows| - 1]);
    }
  }

  /** Replacing one row changes the total by the change of that row's share. */
  lemma {:induction false} SumUpdate(rows: seq<Row>, k: nat, r: Row)
    requires k < |rows|
    ensures Sum(rows[k := r]) == Sum(rows) - rows[k].percent + r.percent
    decreases |rows|
  {
    var n := |rows|;
    if k == n - 1 {
      assert rows[k := r][..n - 1] == rows[..n - 1];
    } else {
      assert rows[k := r][..n - 1] == rows[..n - 1][k := r];
      SumUpdate(rows[..n - 1], k, r);
    }
  }

  /** The total of a tail is its first row plus the total of the rest. */
  lemma SumFrom(rows: seq<Row>, k: nat)
    requires k < |rows|
    ensures Sum(rows[k..]) == rows[k].percent + Sum(rows[k + 1..])
  {
    assert rows[k..] == [rows[k]] + rows[k + 1..];
    SumAppend([rows[k]], rows[k + 1..]);
    assert [rows[k]][..0] == [];
  }

  /** A sequence of rows whose shares are all v sums to |rows| * v. */
  lemma {:induction false} SumFlat(rows: seq<Row>, v: int)
    requires forall k :: 0 <= k < |rows| ==> rows[k].percent == v
    ensures Sum(rows) == |rows| * v
    decreases |rows|
  {
    if rows != [] {
      SumFlat(rows[..|rows| - 1], v);
    }
  }

  // ---------------------------------------------------------------------------
  // Split-count change

  lemma EvenShareBound(c: int)
    requires 1 <= c
    ensures 0 <= (c - 1) * (100 / c) <= 100
  {
    var q := 100 / c;
    assert c * q + 100 % c == 100;
    assert 0 <= q;
    assert (c - 1) * q <= c * q;
  }

  /** The even partition rebuilt for split count c: c rows labelled 1..c, the
      first c - 1 of share 100 div c and the last one taking the remainder, so
      the shares are non-negative and add up to exactly 100. */
  function EvenPartition(c: int): (r: seq<Row>)
    requires 1 <= c
    ensures |r| == c && Numbered(r) && NonNegative(r)
    ensures forall k :: 0 <= k < c - 1 ==> r[k].percent == 100 / c
    ensures r[c - 1].percent == 100 - (c - 1) * (100 / c)
    ensures Sum(r) == 100
  {
    var frac := 100 / c;
    var r := seq(c, k requires 0 <= k < c => Row(k + 1, if k < c - 1 then frac else 100 - (c - 1) * frac));
    EvenShareBound(c);
    SumFlat(r[..c - 1], frac);
    assert r[..c - 1] + [r[c - 1]] == r;
    SumAppend(r[..c - 1], [r[c - 1]]);
    assert [r[c - 1]][..0] == [];
    r
  }

  /** Uneven growth to c rows: the existing rows stay as they are and rows
      labelled |rows|+1 .. c with share 0 are appended; the total is kept. */
  function Grown(rows: seq<Row>, c: int): (r: seq<Row>)
    requires |rows| <= c
    ensures |r| == c && r[..|rows|] == rows
    ensures forall k :: |rows| <= k < c ==> r[k] == Row(k + 1, 0)
    ensures Sum(r) == Sum(rows)
  {
    var tail := seq(c - |rows|, k requires 0 <= k < c - |rows| => Row(|rows| + 1 + k, 0));
    SumFlat(tail, 0);
    SumAppend(rows, tail);
    rows + tail
  }

  /** Uneven shrinking to c rows: the rows after position c - 1 are removed and
      their shares are folded into the new last row, which keeps its label;
      the earlier rows and the total are kept. */
  function Shrunk(rows: seq<Row>, c: int): (r: seq<Row>)
    requires 1 <= c <= |rows|
    ensures |r| == c && r[..c - 1] == rows[..c - 1]
    ensures r[c - 1].index == rows[c - 1].index
    ensures r[c - 1].percent == Sum(rows) - Sum(rows[..c - 1])
    ensures Sum(r) == Sum(rows)
  {
    var last := Row(rows[c - 1].index, rows[c - 1].percent + Sum(rows[c..]));
    assert rows == rows[..c - 1] + [rows[c - 1]] + rows[c..];
    SumAppend(rows[..c - 1] + [rows[c - 1]], rows[c..]);
    SumAppend(rows[..c - 1], [rows[c - 1]]);
    SumAppend(rows[..c - 1], [last]);
    assert [last][..0] == [] && [rows[c - 1]][..0] == [];
    rows[..c - 1] + [last]
  }

  /** The rows after the split count is set to c while the axis is not even. */
  function Resized(rows: seq<Row>, c: int): (r: seq<Row>)
    requires 1 <= c
    ensures |r| == c && Sum(r) == Sum(rows)
    ensures c == |rows| ==> r == rows
  {
    if |rows| < c then Grown(rows, c)
    else if c < |rows| then Shrunk(rows, c)
    else rows
  }

  /** Resizing keeps the labels 1..c and the shares non-negative. */
  lemma ResizedShape(rows: seq<Row>, c: int)
    requires 1 <= c && Numbered(rows) && NonNegative(rows)
    ensures Numbered(Resized(rows, c)) && NonNegative(Resized(rows, c))
  {
    var r := Resized(rows, c);
    if c < |rows| {
      SumNonNegative(rows[c..]);
      SumAppend(rows[..c - 1] + [rows[c - 1]], rows[c..]);
      assert rows == rows[..c - 1] + [rows[c - 1]] + rows[c..];
      SumAppend(rows[..c - 1], [rows[c - 1]]);
      assert [rows[c - 1]][..0] == [];
      forall k | 0 <= k < c - 1
        ensures r[k] == rows[k]
      {
        assert r[k] == r[..c - 1][k];
      }
    } else if |rows| < c {
      forall k | 0 <= k < |rows|
        ensures r[k] == rows[k]
      {
        assert r[k] == r[..|rows|][k];
      }
    }
  }

  // ---------------------------------------------------------------------------
  // Single-row edit

  /** The redistribution loop of an edit. The rows at positions i - 1 down to 0
      are still to be visited, position path is skipped, and the loop ends once
      the outstanding delta is 0. Each visited row moves by sign(delta) times
      min(|delta|, its share), which is taken off delta. Returns the rows and
      the delta that is left over. */
  function Spread(rows: seq<Row>, path: int, delta: int, i: nat): (r: (seq<Row>, int))
    requires i <= |rows|
    ensures |r.0| == |rows|
    decreases i
  {
    if i == 0 || delta == 0 then (rows, delta)
    else if i - 1 == path then Spread(rows, path, delta, i - 1)
    else
      var s := Signed(delta, Min(Abs(delta), rows[i - 1].percent));
      Spread(rows[i - 1 := Row(rows[i - 1].index, rows[i - 1].percent + s)], path, delta - s, i - 1)
  }

  /** The rows after row path is edited to value. */
  function EditedRows(rows: seq<Row>, path: nat, value: int): (r: seq<Row>)
    requires path < |rows|
    ensures |r| == |rows|
  {
    var delta := rows[path].percent - value;
    if delta == 0 then rows
    else Spread(rows[path := Row(rows[path].index, value)], path, delta, |rows|).0
  }

  /** Sum of the shares at positions lo .. hi - 1, leaving out position path. */
  function Others(rows: seq<Row>, path: int, lo: nat, hi: nat): int
    requires lo <= hi <= |rows|
    decreases hi
  {
    if lo == hi then 0
    else Others(rows, path, lo, hi - 1) + (if hi - 1 == path then 0 else rows[hi - 1].percent)
  }

  /** Reference definition of the redistribution: how much row j moves when
      the rows j + 1 .. hi - 1 (other than path) have been visited before it.
      It sees the part of |delta| that those rows did not absorb, and absorbs
      at most its own share. */
  function Absorbed(rows: seq<Row>, path: int, delta: int, j: nat, hi: nat): int
    requires j < hi <= |rows|
  {
    Min(rows[j].percent, Max(0, Abs(delta) - Others(rows, path, j + 1, hi)))
  }

  lemma {:induction false} OthersNonNegative(rows: seq<Row>, path: int, lo: nat, hi: nat)
    requires lo <= hi <= |rows| && NonNegative(rows)
    ensures Others(rows, path, lo, hi) >= 0
    decreases hi
  {
    if lo < hi {
      OthersNonNegative(rows, path, lo, hi - 1);
    }
  }

  /** Others only looks at the shares in lo .. hi - 1 other than path. */
  lemma {:induction false} OthersFrame(a: seq<Row>, b: seq<Row>, path: int, lo: nat, hi: nat)
    requires lo <= hi <= |a| && hi <= |b|
    requires forall k :: lo <= k < hi && k != path ==> a[k].percent == b[k].percent
    ensures Others(a, path, lo, hi) == Others(b, path, lo, hi)
    decreases hi
  {
    if lo < hi {
      OthersFrame(a, b, path, lo, hi - 1);
    }
  }

  lemma {:induction false} OthersSplit(rows: seq<Row>, path: int, lo: nat, mid: nat, hi: nat)
    requires lo <= mid <= hi <= |rows|
    ensures Others(rows, path, lo, hi) == Others(rows, path, lo, mid) + Others(rows, path, mid, hi)
    decreases hi
  {
    if mid < hi {
      OthersSplit(rows, path, lo, mid, hi - 1);
    }
  }

  /** Over the whole table, the other rows hold the total minus row path. */
  lemma {:induction false} OthersWhole(rows: seq<Row>, path: nat, hi: nat)
    requires hi <= |rows|
    ensures Others(rows, path, 0, hi) == Sum(rows[..hi]) - (if path < hi then rows[path].percent else 0)
    decreases hi
  {
    if hi > 0 {
      OthersWhole(rows, path, hi - 1);
      assert rows[..hi][..hi - 1] == rows[..hi - 1];
    }
  }

  /** The redistribution loop leaves the labels, the row count, row path and
      the rows it has not reached as they are. */
  lemma {:induction false} SpreadFrame(rows: seq<Row>, path: int, delta: int, i: nat)
    requires i <= |rows|
    ensures forall k :: 0 <= k < |rows| ==> Spread(rows, path, delta, i).0[k].index == rows[k].index
    ensures forall k :: 0 <= k < |rows| && (i <= k || k == path) ==> Spread(rows, path, delta, i).0[k] == rows[k]
    decreases i
  {
    if i == 0 || delta == 0 {
    } else if i - 1 == path {
      SpreadFrame(rows, path, delta, i - 1);
    } else {
      var s := Signed(delta, Min(Abs(delta), rows[i - 1].percent));
      SpreadFrame(rows[i - 1 := Row(rows[i - 1].index, rows[i - 1].percent + s)], path, delta - s, i - 1);
    }
  }

  /** One step of the loop on non-negative rows: the row is moved by the
      absorbed amount, and the outstanding delta shrinks by as much without
      changing its sign. */
  lemma SpreadStep(delta: int, v: int)
    requires delta != 0 && 0 <= v
    ensures var s := Signed(delta, Min(Abs(delta), v));
      0 <= v + s && Abs(delta - s) == Max(0, Abs(delta) - v) &&
      (delta - s != 0 ==> (delta - s > 0) == (delta > 0))
  {
  }

  /** The left-over delta of the loop is what the visited rows could not
      absorb, and the total changes by exactly the part of delta that was
      absorbed. */
  lemma {:induction false} SpreadLeftover(rows: seq<Row>, path: int, delta: int, i: nat)
    requires i <= |rows| && NonNegative(rows)
    ensures Spread(rows, path, delta, i).1 == Signed(delta, Max(0, Abs(delta) - Others(rows, path, 0, i)))
    ensures Sum(Spread(rows, path, delta, i).0) == Sum(rows) + delta - Spread(rows, path, delta, i).1
    decreases i
  {
    OthersNonNegative(rows, path, 0, i);
    if i == 0 || delta == 0 {
    } else if i - 1 == path {
      SpreadLeftover(rows, path, delta, i - 1);
    } else {
      var v := rows[i - 1].percent;
      var s := Signed(delta, Min(Abs(delta), v));
      var rows1 := rows[i - 1 := Row(rows[i - 1].index, v + s)];
      SpreadStep(delta, v);
      SumUpdate(rows, i - 1, Row(rows[i - 1].index, v + s));
      OthersFrame(rows1, rows, path, 0, i - 1);
      OthersNonNegative(rows, path, 0, i - 1);
      SpreadLeftover(rows1, path, delta - s, i - 1);
    }
  }

  /** The loop moves every visited row other than path by exactly the amount
      the reference definition Absorbed gives. */
  lemma {:induction false} SpreadAbsorbed(rows: seq<Row>, path: int, delta: int, i: nat)
    requires i <= |rows| && NonNegative(rows)
    ensures forall k :: 0 <= k < i && k != path ==>
      Spread(rows, path, delta, i).0[k].percent == rows[k].percent + Signed(delta, Absorbed(rows, path, delta, k, i))
    decreases i
  {
    SpreadFrame(rows, path, delta, i);
    if i == 0 {
    } else if delta == 0 {
      forall k | 0 <= k < i && k != path
        ensures Absorbed(rows, path, delta, k, i) == 0
      {
        OthersNonNegative(rows, path, k + 1, i);
      }
    } else if i - 1 == path {
      SpreadAbsorbed(rows, path, delta, i - 1);
    } else {
      var v := rows[i - 1].percent;
      var s := Signed(delta, Min(Abs(delta), v));
      var rows1 := rows[i - 1 := Row(rows[i - 1].index, v + s)];
      SpreadStep(delta, v);
      SpreadAbsorbed(rows1, path, delta - s, i - 1);
      SpreadFrame(rows1, path, delta - s, i - 1);
      var r := Spread(rows, path, delta, i).0;
      assert r == Spread(rows1, path, delta - s, i - 1).0;
      forall k | 0 <= k < i && k != path
        ensures r[k].percent == rows[k].percent + Signed(delta, Absorbed(rows, path, delta, k, i))
      {
        if k < i - 1 {
          AbsorbedStep(rows, path, delta, k, i);
        } else {
          assert r[k] == rows1[k];
        }
      }
    }
  }

  /** One visit of row i - 1 by the loop does not change how much an earlier
      row k goes on to absorb. */
  lemma AbsorbedStep(rows: seq<Row>, path: int, delta: int, k: nat, i: nat)
    requires 0 < i <= |rows| && NonNegative(rows) && delta != 0 && i - 1 != path
    requires k < i - 1
    ensures var v := rows[i - 1].percent;
      var s := Signed(delta, Min(Abs(delta), v));
      var rows1 := rows[i - 1 := Row(rows[i - 1].index, v + s)];
      rows1[k] == rows[k] &&
      Signed(delta - s, Absorbed(rows1, path, delta - s, k, i - 1)) == Signed(delta, Absorbed(rows, path, delta, k, i))
  {
    var v := rows[i - 1].percent;
    var s := Signed(delta, Min(Abs(delta), v));
    var rows1 := rows[i - 1 := Row(rows[i - 1].index, v + s)];
    SpreadStep(delta, v);
    OthersFrame(rows1, rows, path, k + 1, i - 1);
    OthersNonNegative(rows, path, k + 1, i - 1);
    var o := Others(rows, path, k + 1, i - 1);
    assert Others(rows, path, k + 1, i) == o + v;
    assert Absorbed(rows1, path, delta - s, k, i - 1) == Min(rows[k].percent, Max(0, Abs(delta - s) - o));
    assert Absorbed(rows, path, delta, k, i) == Min(rows[k].percent, Max(0, Abs(delta) - o - v));
  }

  /** An edited table keeps its size and its labels; the edited row holds the
      new value; every other row moves towards the sign of the delta by at most
      its own share, so none becomes negative. */
  lemma EditedShape(rows: seq<Row>, path: nat, value: int)
    requires path < |rows| && NonNegative(rows) && 0 <= value
    ensures forall k :: 0 <= k < |rows| ==> EditedRows(rows, path, value)[k].index == rows[k].index
    ensures EditedRows(rows, path, value)[path].percent == value
    ensures NonNegative(EditedRows(rows, path, value))
    ensures rows[path].percent == value ==> EditedRows(rows, path, value) == rows
  {
    var r := EditedRows(rows, path, value);
    var delta := rows[path].percent - value;
    if delta != 0 {
      var base := rows[path := Row(rows[path].index, value)];
      SpreadFrame(base, path, delta, |rows|);
      SpreadAbsorbed(base, path, delta, |rows|);
      forall k | 0 <= k < |rows| && k != path
        ensures 0 <= r[k].percent
      {
        OthersNonNegative(base, path, k + 1, |rows|);
      }
    }
  }

  /** How far each other row moves. When the value went down (delta > 0) a row
      gains at most its own share; when it went up (delta < 0) a row loses at
      most its own share. A row is left as it is when the rows after it (other
      than the edited one) together hold at least |delta|, and a row moves only
      when every later row was used up completely: emptied when the value went
      up, doubled when it went down. */
  lemma EditedMoves(rows: seq<Row>, path: nat, value: int, j: nat)
    requires path < |rows| && NonNegative(rows) && 0 <= value
    requires j < |rows| && j != path
    ensures var r := EditedRows(rows, path, value);
      (value < rows[path].percent ==> rows[j].percent <= r[j].percent <= 2 * rows[j].percent) &&
      (value > rows[path].percent ==> 0 <= r[j].percent <= rows[j].percent) &&
      (Others(rows, path, j + 1, |rows|) >= Abs(rows[path].percent - value) ==> r[j] == rows[j]) &&
      (r[j] != rows[j] ==> forall k :: j < k < |rows| && k != path ==>
        r[k].percent == (if value > rows[path].percent then 0 else 2 * rows[k].percent))
  {
    var r := EditedRows(rows, path, value);
    var delta := rows[path].percent - value;
    var n := |rows|;
    if delta != 0 {
      var base := rows[path := Row(rows[path].index, value)];
      SpreadFrame(base, path, delta, n);
      SpreadAbsorbed(base, path, delta, n);
      OthersNonNegative(base, path, j + 1, n);
      OthersFrame(base, rows, path, j + 1, n);
      assert r[j].percent == rows[j].percent + Signed(delta, Absorbed(base, path, delta, j, n));
      if r[j] != rows[j] {
        forall k | j < k < n && k != path
          ensures r[k].percent == (if value > rows[path].percent then 0 else 2 * rows[k].percent)
        {
          OthersSplit(base, path, j + 1, k, n);
          OthersSplit(base, path, k, k + 1, n);
          OthersNonNegative(base, path, j + 1, k);
          OthersNonNegative(base, path, k + 1, n);
          assert Others(base, path, k, k + 1) == rows[k].percent;
          assert r[k].percent == rows[k].percent + Signed(delta, Absorbed(base, path, delta, k, n));
        }
      }
    }
  }

  /** The total after an edit. Let others be the sum of the other rows. When
      the value goes up by d, the total is kept if others >= d and otherwise
      becomes the new value itself; when it goes down by d, the total is kept
      if others >= d and otherwise falls short by d - others. Either way the
      total never exceeds the larger of the new value and the old total. */
  lemma EditedTotal(rows: seq<Row>, path: nat, value: int)
    requires path < |rows| && NonNegative(rows) && 0 <= value
    ensures var old_ := rows[path].percent;
      var others := Sum(rows) - old_;
      var total := Sum(EditedRows(rows, path, value));
      (value > old_ ==> total == if others >= value - old_ then Sum(rows) else value) &&
      (value < old_ ==> total == if others >= old_ - value then Sum(rows) else Sum(rows) - (old_ - value - others)) &&
      total <= Max(value, Sum(rows))
  {
    var delta := rows[path].percent - value;
    var others := Sum(rows) - rows[path].percent;
    if delta != 0 {
      EditedLeftover(rows, path, value);
      var m := Max(0, Abs(delta) - others);
      var total := Sum(EditedRows(rows, path, value));
      if delta > 0 {
        assert total == Sum(rows) - m;
      } else {
        assert total == Sum(rows) + m;
      }
    }
  }

  /** The table right after row path is set to value and before the loop
      runs: still non-negative, its total moved by -delta, and the other rows
      holding what they held before. */
  lemma EditStart(rows: seq<Row>, path: nat, value: int)
    requires path < |rows| && NonNegative(rows) && 0 <= value
    ensures var start := rows[path := Row(rows[path].index, value)];
      NonNegative(start) &&
      Sum(start) == Sum(rows) - rows[path].percent + value &&
      Others(start, path, 0, |rows|) == Sum(rows) - rows[path].percent >= 0
  {
    var n := |rows|;
    var start := rows[path := Row(rows[path].index, value)];
    OthersWhole(rows, path, n);
    assert rows[..n] == rows;
    OthersNonNegative(rows, path, 0, n);
    SumUpdate(rows, path, Row(rows[path].index, value));
    OthersFrame(start, rows, path, 0, n);
  }

  /** The total after an edit with a nonzero delta, in terms of the part of
      |delta| the other rows could not absorb. */
  lemma EditedLeftover(rows: seq<Row>, path: nat, value: int)
    requires path < |rows| && NonNegative(rows) && 0 <= value
    requires rows[path].percent != value
    ensures var delta := rows[path].percent - value;
      var others := Sum(rows) - rows[path].percent;
      others >= 0 &&
      Sum(EditedRows(rows, path, value)) == Sum(rows) - Signed(delta, Max(0, Abs(delta) - others))
  {
    var n := |rows|;
    var delta := rows[path].percent - value;
    var others := Sum(rows) - rows[path].percent;
    var start := rows[path := Row(rows[path].index, value)];
    var r := Spread(start, path, delta, n);
    assert EditedRows(rows, path, value) == r.0;
    EditStart(rows, path, value);
    SpreadLeftover(start, path, delta, n);
    assert r.1 == Signed(delta, Max(0, Abs(delta) - others));
    assert Sum(r.0) == Sum(rows) - r.1;
  }

  // ---------------------------------------------------------------------------
  // Worked examples

  /** Four even columns get 25 percent each. */
  lemma EvenFour()
    ensures EvenPartition(4) == [Row(1, 25), Row(2, 25), Row(3, 25), Row(4, 25)]
  {
    var r := EvenPartition(4);
    assert r[0] == Row(1, 25) && r[1] == Row(2, 25) && r[2] == Row(3, 25);
  }

  /** Three even rows, the second edited from 33 to 50: the 17 points come out
      of the last row. */
  lemma EditThree()
    ensures EvenPartition(3) == [Row(1, 33), Row(2, 33), Row(3, 34)]
    ensures EditedRows(EvenPartition(3), 1, 50) == [Row(1, 33), Row(2, 50), Row(3, 17)]
  {
    var r := EvenPartition(3);
    assert r[0] == Row(1, 33) && r[1] == Row(2, 33);
    assert r == [Row(1, 33), Row(2, 33), Row(3, 34)];
  }

  /** A single row has nowhere to put a decrease: editing 100 down to 50
      leaves a total of 50. */
  lemma EditSingle()
    ensures EditedRows([Row(1, 100)], 0, 50) == [Row(1, 50)]
    ensures Sum(EditedRows([Row(1, 100)], 0, 50)) == 50
  {
    assert [Row(1, 50)][..0] == [];
  }

  /** Shrinking five columns to three folds the last two into the third. */
  lemma ShrinkFive()
    ensures Resized([Row(1, 10), Row(2, 20), Row(3, 30), Row(4, 15), Row(5, 25)], 3)
      == [Row(1, 10), Row(2, 20), Row(3, 70)]
  {
    var rows := [Row(1, 10), Row(2, 20), Row(3, 30), Row(4, 15), Row(5, 25)];
    assert rows[3..] == [Row(4, 15), Row(5, 25)];
    assert rows[3..][..1] == [Row(4, 15)];
    assert [Row(4, 15)][..0] == [];
  }
}
