/** Crop boundaries derived from the rows of an axis: the cumulative shares,
    then the distinct values among them in ascending order. A boundary of k
    stands for the fraction k/100 of the page. */
module Boundaries {
  import opened Partition

  /** The cumulative shares: 0 first, then after each row the running total. */
  function Cumulative(rows: seq<Row>): (c: seq<int>)
    ensures |c| == |rows| + 1 && c[0] == 0 && c[|rows|] == Sum(rows)
    ensures forall k :: 0 <= k < |rows| ==> c[k + 1] == c[k] + rows[k].percent
  {
    if rows == [] then [0]
    else
      var pre := Cumulative(rows[..|rows| - 1]);
      assert forall k :: 0 <= k < |rows| - 1 ==> rows[..|rows| - 1][k] == rows[k];
      pre + [Sum(rows)]
  }

  ghost predicate StrictlyIncreasing(s: seq<int>)
  {
    forall i, j :: 0 <= i < j < |s| ==> s[i] < s[j]
  }

  function Elems(s: seq<int>): set<int>
  {
    set x | x in s
  }

  /** Inserts x into a strictly increasing sequence, unless it is there. */
  function Insert(r: seq<int>, x: int): (r': seq<int>)
    requires StrictlyIncreasing(r)
    ensures StrictlyIncreasing(r')
    ensures forall y :: y in r' <==> y in r || y == x
    ensures |r'| == if x in r then |r| else |r| + 1
    decreases |r|
  {
    if r == [] then [x]
    else if x < r[0] then
      PrependIncreasing(x, r);
      [x] + r
    else if x == r[0] then r
    else
      var tail := Insert(r[1..], x);
      assert r == [r[0]] + r[1..];
      PrependIncreasing(r[0], tail);
      [r[0]] + tail
  }

  /** Putting a value in front of a strictly increasing sequence of larger
      values keeps it strictly increasing. */
  lemma PrependIncreasing(x: int, r: seq<int>)
    requires StrictlyIncreasing(r)
    requires forall y :: y in r ==> x < y
    ensures StrictlyIncreasing([x] + r)
  {
    var r' := [x] + r;
    forall i, j | 0 <= i < j < |r'|
      ensures r'[i] < r'[j]
    {
      assert r'[j] == r[j - 1] && r[j - 1] in r;
      if i > 0 {
        assert r'[i] == r[i - 1];
      }
    }
  }

  /** sorted(set(s)): the distinct values of s in ascending order. */
  function SortedDistinct(s: seq<int>): (r: seq<int>)
    ensures StrictlyIncreasing(r)
    ensures forall y :: y in r <==> y in s
    decreases |s|
  {
    if s == [] then []
    else
      var x := s[|s| - 1];
      assert s == s[..|s| - 1] + [x];
      Insert(SortedDistinct(s[..|s| - 1]), x)
  }

  /** A strictly increasing sequence lists each of its values once. */
  lemma {:induction false} DistinctCount(r: seq<int>)
    requires StrictlyIncreasing(r)
    ensures |Elems(r)| == |r|
    decreases |r|
  {
    if r != [] {
      var tail := r[1..];
      assert StrictlyIncreasing(tail);
      DistinctCount(tail);
      assert r == [r[0]] + tail;
      assert Elems(r) == {r[0]} + Elems(tail);
      assert r[0] !in Elems(tail);
    }
  }

  /** A strictly increasing sequence is determined by its set of values, so
      SortedDistinct(s) is the only ascending, duplicate-free listing of the
      values of s. */
  lemma {:induction false} SortedUnique(a: seq<int>, b: seq<int>)
    requires StrictlyIncreasing(a) && StrictlyIncreasing(b) && Elems(a) == Elems(b)
    ensures a == b
    decreases |a|
  {
    if b != [] {
      assert b[0] in Elems(a) && b[0] in a;
    }
    if a != [] {
      assert a[0] in Elems(b) && a[0] in b;
    }
    if a != [] && b != [] {
      assert a[0] == b[0];
      assert a == [a[0]] + a[1..] && b == [b[0]] + b[1..];
      assert Elems(a[1..]) == Elems(a) - {a[0]};
      assert Elems(b[1..]) == Elems(b) - {b[0]};
      SortedUnique(a[1..], b[1..]);
    }
  }

  /** Number of rows with a nonzero share. */
  function NonZero(rows: seq<Row>): nat
  {
    if rows == [] then 0
    else NonZero(rows[..|rows| - 1]) + (if rows[|rows| - 1].percent != 0 then 1 else 0)
  }

  /** From non-negative rows the cumulative shares lie between 0 and the
      total, and take one distinct value more than there are nonzero rows. */
  lemma CumulativeElems(rows: seq<Row>)
    requires NonNegative(rows)
    ensures forall x :: x in Cumulative(rows) ==> 0 <= x <= Sum(rows)
    ensures |Elems(Cumulative(rows))| == 1 + NonZero(rows)
  {
    CumulativeRange(rows);
    CumulativeCount(rows);
  }

  lemma {:induction false} CumulativeRange(rows: seq<Row>)
    requires NonNegative(rows)
    ensures forall x :: x in Cumulative(rows) ==> 0 <= x <= Sum(rows)
    decreases |rows|
  {
    if rows != [] {
      var n := |rows|;
      var pre := rows[..n - 1];
      assert NonNegative(pre);
      CumulativeRange(pre);
      SumNonNegative(pre);
      var c := Cumulative(rows);
      assert c == Cumulative(pre) + [Sum(rows)];
      assert Sum(rows) == Sum(pre) + rows[n - 1].percent && rows[n - 1].percent >= 0;
      assert forall x :: x in c ==> x in Cumulative(pre) || x == Sum(rows);
    }
  }

  lemma {:induction false} CumulativeCount(rows: seq<Row>)
    requires NonNegative(rows)
    ensures |Elems(Cumulative(rows))| == 1 + NonZero(rows)
    decreases |rows|
  {
    if rows == [] {
      assert Elems([0]) == {0};
    } else {
      var n := |rows|;
      var pre := rows[..n - 1];
      assert NonNegative(pre);
      CumulativeCount(pre);
      var cp := Cumulative(pre);
      var c := Cumulative(rows);
      assert c == cp + [Sum(rows)];
      assert Elems(c) == Elems(cp) + {Sum(rows)};
      assert Sum(rows) == Sum(pre) + rows[n - 1].percent;
      if rows[n - 1].percent == 0 {
        assert Sum(rows) == cp[n - 1];
        assert Sum(rows) in Elems(cp);
      } else {
        CumulativeRange(pre);
        assert Sum(rows) !in Elems(cp);
      }
    }
  }

  /** The crop boundaries of a table: the distinct cumulative shares, in
      ascending order. */
  function Crops(rows: seq<Row>): seq<int>
  {
    SortedDistinct(Cumulative(rows))
  }

  /** For non-negative rows the crops start at 0, increase strictly, end at
      the total (100 for a table that sums to 100) and have one boundary more
      than there are nonzero rows. */
  lemma CropsShape(rows: seq<Row>)
    requires NonNegative(rows)
    ensures var c := Crops(rows);
      |c| == 1 + NonZero(rows) && StrictlyIncreasing(c) &&
      c[0] == 0 && c[|c| - 1] == Sum(rows)
  {
    CropsCount(rows);
    CropsEnds(rows);
  }

  lemma CropsCount(rows: seq<Row>)
    requires NonNegative(rows)
    ensures |Crops(rows)| == 1 + NonZero(rows)
  {
    var c := Crops(rows);
    CumulativeElems(rows);
    DistinctCount(c);
    assert Elems(c) == Elems(Cumulative(rows));
  }

  lemma CropsEnds(rows: seq<Row>)
    requires NonNegative(rows)
    ensures |Crops(rows)| > 0
    ensures Crops(rows)[0] == 0 && Crops(rows)[|Crops(rows)| - 1] == Sum(rows)
  {
    var cum := Cumulative(rows);
    var c := Crops(rows);
    CumulativeElems(rows);
    assert cum[0] in cum && cum[|rows|] in cum;
    assert 0 in c && Sum(rows) in c;
    var i :| 0 <= i < |c| && c[i] == 0;
    var j :| 0 <= j < |c| && c[j] == Sum(rows);
    assert c[0] in cum && c[|c| - 1] in cum;
    assert c[0] <= c[i] && c[j] <= c[|c| - 1];
  }

  /** Four even columns give the boundaries 0, 25, 50, 75 and 100. */
  lemma CropsEvenFour()
    ensures Crops(EvenPartition(4)) == [0, 25, 50, 75, 100]
  {
    EvenFour();
    var rows := EvenPartition(4);
    var cum := Cumulative(rows);
    assert cum[0] == 0 && cum[1] == 25 && cum[2] == 50 && cum[3] == 75 && cum[4] == 100;
    var want := [0, 25, 50, 75, 100];
    assert cum == want;
    assert StrictlyIncreasing(want);
    var c := Crops(rows);
    assert StrictlyIncreasing(c) && Elems(c) == Elems(want);
    SortedUnique(c, want);
  }
}
