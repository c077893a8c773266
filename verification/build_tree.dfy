/**
 `build_tree`: splits a range recursively at a point aligned to the
 granularity `floorRange`, until half the span is below the granularity.
 */
module TreeBuilder {
  import opened Wrappers
  import opened ValueRanges

  /** `(maxval - minval) // 2`. Dafny's `/` by a positive divisor rounds
      toward negative infinity, as Python's `//` does. */
  function HalfSpan(minvalue: int, maxvalue: int): int
  {
    (maxvalue - minvalue) / 2
  }

  /** `floors`: the half span divided by the granularity, with exact real
      division in place of Python's float division. */
  function Floors(minvalue: int, maxvalue: int, floorRange: int): real
    requires floorRange > 0
  {
    (HalfSpan(minvalue, maxvalue) as real) / (floorRange as real)
  }

  /** The stopping test `floors < 1` is the integer test `h < floorRange`. */
  lemma FloorsBelowOne(h: int, floorRange: int)
    requires floorRange > 0
    ensures (h as real) / (floorRange as real) < 1.0 <==> h < floorRange
  {
    var q := (h as real) / (floorRange as real);
    assert q * (floorRange as real) == h as real;
  }

  /** `math.floor(floors)` is the integer quotient `h / floorRange`. */
  lemma FloorOfFloors(h: int, floorRange: int)
    requires floorRange > 0
    ensures ((h as real) / (floorRange as real)).Floor == h / floorRange
  {
    var f := floorRange as real;
    var k := h / floorRange;
    var m := h % floorRange;
    assert h == k * floorRange + m;
    assert h as real == (k as real) * f + (m as real);
    var x := (h as real) / f;
    assert x == (k as real) + (m as real) / f;
    assert 0.0 <= (m as real) / f < 1.0;
  }

  /** `mid - minvalue` is a positive multiple of the granularity, the
      largest one not exceeding half the span. */
  ghost predicate GranularSplit(minvalue: int, mid: int, maxvalue: int, floorRange: int)
    requires floorRange > 0
  {
    && (mid - minvalue) % floorRange == 0
    && floorRange <= mid - minvalue <= HalfSpan(minvalue, maxvalue) < mid - minvalue + floorRange
  }

  /** `(h / f) * f` is the largest multiple of `f` not above `h`. */
  lemma QuotientMultiple(h: int, f: int)
    requires 0 < f <= h
    ensures f <= (h / f) * f <= h < (h / f) * f + f
    ensures ((h / f) * f) % f == 0
  {
    var k := h / f;
    assert h == k * f + h % f;
    assert k >= 1;
    assert k * f >= f;
    MultipleMod(k, f);
  }

  lemma MultipleBounds(d: int, f: int)
    requires f > 0
    ensures d >= 1 ==> d * f >= f
    ensures d <= -1 ==> d * f <= -f
  {
  }

  lemma MultipleMod(k: int, f: int)
    requires f > 0
    ensures (k * f) % f == 0
  {
    var q := (k * f) / f;
    var m := (k * f) % f;
    assert k * f == q * f + m;
    assert (k - q) * f == m;
    MultipleBounds(k - q, f);
  }

  /** `midval = minval + math.floor(floors) * floor_range`, computed once the
      stopping test has failed. */
  function SplitPoint(minvalue: int, maxvalue: int, floorRange: int): (mid: int)
    requires floorRange > 0
    requires Floors(minvalue, maxvalue, floorRange) >= 1.0
    ensures minvalue < mid < maxvalue
    ensures GranularSplit(minvalue, mid, maxvalue, floorRange)
    ensures mid - minvalue <= maxvalue - mid
  {
    var h := HalfSpan(minvalue, maxvalue);
    FloorsBelowOne(h, floorRange);
    FloorOfFloors(h, floorRange);
    QuotientMultiple(h, floorRange);
    minvalue + Floors(minvalue, maxvalue, floorRange).Floor * floorRange
  }

  /** `build_tree(val_range, floor_range)`. A stopped node is returned as it
      came; a split node gets two freshly built children. */
  function BuildTree(v: ValueRange, floorRange: int): (r: ValueRange)
    requires floorRange > 0
    ensures r.minvalue == v.minvalue && r.maxvalue == v.maxvalue
    ensures HalfSpan(v.minvalue, v.maxvalue) < floorRange ==> r == v
    ensures HalfSpan(v.minvalue, v.maxvalue) >= floorRange ==> r.left.Some? && r.right.Some?
    decreases v.maxvalue - v.minvalue
  {
    FloorsBelowOne(HalfSpan(v.minvalue, v.maxvalue), floorRange);
    if Floors(v.minvalue, v.maxvalue, floorRange) < 1.0 then
      v
    else
      var mid := SplitPoint(v.minvalue, v.maxvalue, floorRange);
      v.(left := Some(BuildTree(NewRange(v.minvalue, mid), floorRange)),
         right := Some(BuildTree(NewRange(mid, v.maxvalue), floorRange)))
  }

  /** A granularity-aligned split point is unique: it is the one `SplitPoint` computes. */
  lemma GranularSplitIsSplitPoint(minvalue: int, mid: int, maxvalue: int, floorRange: int)
    requires floorRange > 0
    requires GranularSplit(minvalue, mid, maxvalue, floorRange)
    ensures Floors(minvalue, maxvalue, floorRange) >= 1.0
    ensures mid == SplitPoint(minvalue, maxvalue, floorRange)
  {
    var h := HalfSpan(minvalue, maxvalue);
    var f := floorRange;
    var s := mid - minvalue;
    FloorsBelowOne(h, f);
    FloorOfFloors(h, f);
    var j := s / f;
    assert s == j * f + s % f;
    var q := h / f;
    assert h == q * f + h % f;
    assert -f < (j - q) * f < f;
    MultipleBounds(j - q, f);
  }

  /** The condition every node of a built tree meets, read off lines 57-63:
      a leaf stopped because half its span is below the granularity; an
      inner node has two children that split it without gap or overlap at
      a granularity-aligned point. No node has exactly one child. */
  ghost predicate WellSplit(n: ValueRange, floorRange: int)
    requires floorRange > 0
  {
    match (n.left, n.right)
    case (None, None) => HalfSpan(n.minvalue, n.maxvalue) < floorRange
    case (Some(l), Some(r)) =>
      && l.minvalue == n.minvalue
      && l.maxvalue == r.minvalue
      && r.maxvalue == n.maxvalue
      && GranularSplit(n.minvalue, l.maxvalue, n.maxvalue, floorRange)
    case _ => false
  }

  /** Every node reachable from `t` is well split. */
  ghost predicate Partitioned(t: ValueRange, floorRange: int)
    requires floorRange > 0
  {
    forall n :: n in Enumerate(t) ==> WellSplit(n, floorRange)
  }

  /** Being partitioned is inherited by the children. */
  lemma PartitionedChildren(t: ValueRange, floorRange: int)
    requires floorRange > 0
    requires Partitioned(t, floorRange)
    ensures WellSplit(t, floorRange)
    ensures t.left.Some? ==> Partitioned(t.left.value, floorRange)
    ensures t.right.Some? ==> Partitioned(t.right.value, floorRange)
  {
    assert t in Enumerate(t);
  }

  /** A tree built from a fresh node is partitioned. */
  lemma {:induction false} BuildTreePartitioned(minvalue: int, maxvalue: int, floorRange: int)
    requires floorRange > 0
    ensures Partitioned(BuildTree(NewRange(minvalue, maxvalue), floorRange), floorRange)
    decreases maxvalue - minvalue
  {
    var t := BuildTree(NewRange(minvalue, maxvalue), floorRange);
    FloorsBelowOne(HalfSpan(minvalue, maxvalue), floorRange);
    if HalfSpan(minvalue, maxvalue) >= floorRange {
      var mid := SplitPoint(minvalue, maxvalue, floorRange);
      BuildTreePartitioned(minvalue, mid, floorRange);
      BuildTreePartitioned(mid, maxvalue, floorRange);
      assert Enumerate(t) == [t] + Enumerate(t.left.value) + Enumerate(t.right.value);
      assert WellSplit(t, floorRange);
    }
  }

  /** Conversely, a partitioned tree is exactly what `build_tree` produces
      from a fresh node with the same bounds. */
  lemma {:induction false} PartitionedIsBuilt(t: ValueRange, floorRange: int)
    requires floorRange > 0
    requires Partitioned(t, floorRange)
    ensures t == BuildTree(NewRange(t.minvalue, t.maxvalue), floorRange)
  {
    PartitionedChildren(t, floorRange);
    FloorsBelowOne(HalfSpan(t.minvalue, t.maxvalue), floorRange);
    if !IsLeaf(t) {
      var l, r := t.left.value, t.right.value;
      GranularSplitIsSplitPoint(t.minvalue, l.maxvalue, t.maxvalue, floorRange);
      PartitionedIsBuilt(l, floorRange);
      PartitionedIsBuilt(r, floorRange);
    }
  }

  /** `build_tree` on fresh nodes and the partitioned trees are the same thing. */
  lemma BuildTreeCharacterized(t: ValueRange, floorRange: int)
    requires floorRange > 0
    ensures Partitioned(t, floorRange) <==> t == BuildTree(NewRange(t.minvalue, t.maxvalue), floorRange)
  {
    if Partitioned(t, floorRange) {
      PartitionedIsBuilt(t, floorRange);
    } else {
      BuildTreePartitioned(t.minvalue, t.maxvalue, floorRange);
    }
  }

  /** Every node of a built tree: a leaf has half its span below the
      granularity; any other node has both children, each strictly narrower
      than itself and non-empty, the left one a multiple of the granularity
      no wider than half the span and hence no wider than the right one. */
  lemma BuildTreeNodes(minvalue: int, maxvalue: int, floorRange: int, n: ValueRange)
    requires floorRange > 0
    requires n in Enumerate(BuildTree(NewRange(minvalue, maxvalue), floorRange))
    ensures IsLeaf(n) <==> HalfSpan(n.minvalue, n.maxvalue) < floorRange
    ensures n.left.Some? <==> n.right.Some?
    ensures !IsLeaf(n) ==>
      && 0 < Span(n.left.value) < Span(n)
      && 0 < Span(n.right.value) < Span(n)
      && Span(n.left.value) % floorRange == 0
      && Span(n.left.value) <= HalfSpan(n.minvalue, n.maxvalue)
      && Span(n.left.value) <= Span(n.right.value)
  {
    BuildTreePartitioned(minvalue, maxvalue, floorRange);
    assert WellSplit(n, floorRange);
    WellSplitNode(n, floorRange);
  }

  /** What a single well-split node says about its children's spans. */
  lemma WellSplitNode(n: ValueRange, floorRange: int)
    requires floorRange > 0
    requires WellSplit(n, floorRange)
    ensures IsLeaf(n) <==> HalfSpan(n.minvalue, n.maxvalue) < floorRange
    ensures n.left.Some? <==> n.right.Some?
    ensures !IsLeaf(n) ==>
      && 0 < Span(n.left.value) < Span(n)
      && 0 < Span(n.right.value) < Span(n)
      && Span(n.left.value) % floorRange == 0
      && Span(n.left.value) <= HalfSpan(n.minvalue, n.maxvalue)
      && Span(n.left.value) <= Span(n.right.value)
  {
  }

  /** A range narrower than twice the granularity, inverted ranges included,
      stays a single leaf. */
  lemma SmallRangeIsLeaf(minvalue: int, maxvalue: int, floorRange: int)
    requires floorRange > 0
    requires maxvalue - minvalue < 2 * floorRange
    ensures BuildTree(NewRange(minvalue, maxvalue), floorRange) == NewRange(minvalue, maxvalue)
    ensures Enumerate(BuildTree(NewRange(minvalue, maxvalue), floorRange)) == [NewRange(minvalue, maxvalue)]
  {
  }

  /** The leaves of `s`, in order. */
  function Leaves(s: seq<ValueRange>): seq<ValueRange>
  {
    if s == [] then []
    else (if IsLeaf(s[0]) then [s[0]] else []) + Leaves(s[1..])
  }

  /** `Leaves(s)` holds exactly the elements of `s` without children. */
  lemma {:induction false} LeavesMembers(s: seq<ValueRange>)
    ensures forall n :: n in Leaves(s) <==> n in s && IsLeaf(n)
  {
    if s != [] {
      LeavesMembers(s[1..]);
      assert s == [s[0]] + s[1..];
    }
  }

  lemma {:induction false} LeavesConcat(a: seq<ValueRange>, b: seq<ValueRange>)
    ensures Leaves(a + b) == Leaves(a) + Leaves(b)
  {
    if a == [] {
      assert a + b == b;
    } else {
      assert (a + b)[0] == a[0];
      assert (a + b)[1..] == a[1..] + b;
      LeavesConcat(a[1..], b);
    }
  }

  /** `s` lays its intervals end to end from `lo` to `hi`. */
  ghost predicate Tiles(s: seq<ValueRange>, lo: int, hi: int)
  {
    && |s| >= 1
    && s[0].minvalue == lo
    && s[|s| - 1].maxvalue == hi
    && forall i :: 0 <= i < |s| - 1 ==> s[i].maxvalue == s[i + 1].minvalue
  }

  lemma TilesConcat(a: seq<ValueRange>, b: seq<ValueRange>, lo: int, mid: int, hi: int)
    requires Tiles(a, lo, mid) && Tiles(b, mid, hi)
    ensures Tiles(a + b, lo, hi)
  {
    var s := a + b;
    forall i | 0 <= i < |s| - 1
      ensures s[i].maxvalue == s[i + 1].minvalue
    {
      if i < |a| - 1 {
      } else if i == |a| - 1 {
      } else {
        assert s[i] == b[i - |a|] && s[i + 1] == b[i + 1 - |a|];
      }
    }
  }

  /** The leaves of a partitioned tree, in pre-order, cover its interval
      end to end without gap or overlap. */
  lemma {:induction false} PartitionedLeavesTile(t: ValueRange, floorRange: int)
    requires floorRange > 0
    requires Partitioned(t, floorRange)
    ensures Tiles(Leaves(Enumerate(t)), t.minvalue, t.maxvalue)
  {
    PartitionedChildren(t, floorRange);
    if IsLeaf(t) {
      assert Leaves(Enumerate(t)) == [t];
    } else {
      var l, r := t.left.value, t.right.value;
      PartitionedLeavesTile(l, floorRange);
      PartitionedLeavesTile(r, floorRange);
      LeavesOfInner(t);
      TilesConcat(Leaves(Enumerate(l)), Leaves(Enumerate(r)), t.minvalue, l.maxvalue, t.maxvalue);
    }
  }

  lemma EnumerateInner(t: ValueRange)
    requires t.left.Some? && t.right.Some?
    ensures Enumerate(t) == [t] + Enumerate(t.left.value) + Enumerate(t.right.value)
  {
  }

  /** The leaves below an inner node are those of its left subtree, then those of its right. */
  lemma LeavesOfInner(t: ValueRange)
    requires t.left.Some? && t.right.Some?
    ensures Leaves(Enumerate(t)) == Leaves(Enumerate(t.left.value)) + Leaves(Enumerate(t.right.value))
  {
    EnumerateInner(t);
    LeavesAfterInner(t, Enumerate(t.left.value), Enumerate(t.right.value));
  }

  /** A node with children contributes no leaf of its own. */
  lemma LeavesAfterInner(t: ValueRange, el: seq<ValueRange>, er: seq<ValueRange>)
    requires !IsLeaf(t)
    ensures Leaves([t] + el + er) == Leaves(el) + Leaves(er)
  {
    var one := [t];
    assert one + el + er == one + (el + er);
    assert Leaves(one) == [] by {
      assert one[1..] == [];
    }
    LeavesConcat(one, el + er);
    LeavesConcat(el, er);
  }

  /** The leaves of a built tree tile `[minvalue, maxvalue]` contiguously,
      and each is below the splitting threshold. */
  lemma BuildTreeLeavesTile(minvalue: int, maxvalue: int, floorRange: int)
    requires floorRange > 0
    ensures Tiles(Leaves(Enumerate(BuildTree(NewRange(minvalue, maxvalue), floorRange))), minvalue, maxvalue)
    ensures forall n :: n in Leaves(Enumerate(BuildTree(NewRange(minvalue, maxvalue), floorRange))) ==>
      HalfSpan(n.minvalue, n.maxvalue) < floorRange
  {
    var t := BuildTree(NewRange(minvalue, maxvalue), floorRange);
    BuildTreePartitioned(minvalue, maxvalue, floorRange);
    PartitionedLeavesTile(t, floorRange);
    LeavesMembers(Enumerate(t));
    forall n | n in Leaves(Enumerate(t))
      ensures HalfSpan(n.minvalue, n.maxvalue) < floorRange
    {
      assert WellSplit(n, floorRange);
    }
  }

  /** The bounds of each node of `s`, in order. */
  function Bounds(s: seq<ValueRange>): seq<(int, int)>
  {
    seq(|s|, i requires 0 <= i < |s| => (s[i].minvalue, s[i].maxvalue))
  }

  /** [3, 10] with granularity 3: 7 // 2 = 3 and 3 / 3 = 1, so it splits at
      3 + 1 * 3 = 6 into the leaves [3, 6] and [6, 10]. */
  lemma ExampleRightHalf()
    ensures BuildTree(NewRange(3, 10), 3)
         == ValueRange(3, 10, Some(NewRange(3, 6)), Some(NewRange(6, 10)))
  {
    FloorsBelowOne(HalfSpan(3, 10), 3);
    FloorOfFloors(HalfSpan(3, 10), 3);
    assert SplitPoint(3, 10, 3) == 6;
    assert BuildTree(NewRange(3, 6), 3) == NewRange(3, 6);
    assert BuildTree(NewRange(6, 10), 3) == NewRange(6, 10);
  }

  /** [0, 10] with granularity 3: 10 // 2 = 5 and 5 / 3 >= 1, so it splits
      at 0 + 1 * 3 = 3 into the leaf [0, 3] and the tree built from [3, 10]. */
  lemma ExampleRoot()
    ensures BuildTree(NewRange(0, 10), 3)
         == ValueRange(0, 10, Some(NewRange(0, 3)), Some(BuildTree(NewRange(3, 10), 3)))
  {
    FloorsBelowOne(HalfSpan(0, 10), 3);
    FloorOfFloors(HalfSpan(0, 10), 3);
    assert SplitPoint(0, 10, 3) == 3;
    assert BuildTree(NewRange(0, 3), 3) == NewRange(0, 3);
  }

  /** The tree `build_tree(ValueRange(0, 10), 3)` as a literal. */
  function ExampleTree(): ValueRange
  {
    ValueRange(0, 10, Some(NewRange(0, 3)),
      Some(ValueRange(3, 10, Some(NewRange(3, 6)), Some(NewRange(6, 10)))))
  }

  /** `build_tree(ValueRange(0, 10), 3)` is the literal tree `ExampleTree()`. */
  lemma ExampleBuild()
    ensures BuildTree(NewRange(0, 10), 3) == ExampleTree()
  {
    ExampleRightHalf();
    ExampleRoot();
  }

  /** The pre-order enumeration of `ExampleTree()`. */
  lemma ExampleEnumeration()
    ensures Enumerate(ExampleTree())
         == [ExampleTree(), NewRange(0, 3), ExampleTree().right.value, NewRange(3, 6), NewRange(6, 10)]
  {
    var b := ExampleTree().right.value;
    assert Enumerate(b) == [b, NewRange(3, 6), NewRange(6, 10)];
  }

  /** `build_tree(ValueRange(0, 10), 3)` enumerates as (0,10), (0,3), (3,10),
      (3,6), (6,10), and its leaves are (0,3), (3,6), (6,10). */
  lemma WorkedExample()
    ensures Bounds(Enumerate(BuildTree(NewRange(0, 10), 3)))
         == [(0, 10), (0, 3), (3, 10), (3, 6), (6, 10)]
    ensures Bounds(Leaves(Enumerate(BuildTree(NewRange(0, 10), 3))))
         == [(0, 3), (3, 6), (6, 10)]
  {
    ExampleBuild();
    ExampleEnumeration();
    var t := ExampleTree();
    var b := t.right.value;
    var a, c, d := NewRange(0, 3), NewRange(3, 6), NewRange(6, 10);
    LeavesOfFive(t, a, b, c, d);
    BoundsOfFive(t, a, b, c, d);
    BoundsOfThree(a, c, d);
  }

  lemma BoundsOfFive(t: ValueRange, a: ValueRange, b: ValueRange, c: ValueRange, d: ValueRange)
    ensures Bounds([t, a, b, c, d]) == [(t.minvalue, t.maxvalue), (a.minvalue, a.maxvalue),
      (b.minvalue, b.maxvalue), (c.minvalue, c.maxvalue), (d.minvalue, d.maxvalue)]
  {
  }

  lemma BoundsOfThree(a: ValueRange, c: ValueRange, d: ValueRange)
    ensures Bounds([a, c, d]) == [(a.minvalue, a.maxvalue), (c.minvalue, c.maxvalue), (d.minvalue, d.maxvalue)]
  {
  }

  lemma LeavesOfFive(t: ValueRange, a: ValueRange, b: ValueRange, c: ValueRange, d: ValueRange)
    requires !IsLeaf(t) && IsLeaf(a) && !IsLeaf(b) && IsLeaf(c) && IsLeaf(d)
    ensures Leaves([t, a, b, c, d]) == [a, c, d]
  {
    assert Leaves([d]) == [d] by { assert [d][1..] == []; }
    assert Leaves([c, d]) == [c, d] by { assert [c, d][1..] == [d]; }
    assert Leaves([b, c, d]) == [c, d] by { assert [b, c, d][1..] == [c, d]; }
    assert Leaves([a, b, c, d]) == [a, c, d] by { assert [a, b, c, d][1..] == [b, c, d]; }
    assert [t, a, b, c, d][1..] == [a, b, c, d];
  }
}
