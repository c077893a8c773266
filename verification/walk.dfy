/**
 `walk`: a pre-order visit that calls a boolean callback on each node it
 reaches. A `false` answer skips that node's children only; the caller
 still goes on to the next subtree.
 */
module TreeWalker {
  import opened Wrappers
  import opened ValueRanges
  import TreeBuilder

  /** `walk(val_range, fun)`, with `fun` a pure predicate. The result is the
      sequence of nodes `fun` is called on, in call order. */
  function Walk(t: ValueRange, fun: ValueRange -> bool): (visited: seq<ValueRange>)
    ensures 1 <= |visited| <= |Enumerate(t)|
    ensures visited[0] == t
    ensures !fun(t) ==> visited == [t]
  {
    if !fun(t) then [t]
    else
      [t]
      + (match t.left case Some(l) => Walk(l, fun) case None => [])
      + (match t.right case Some(r) => Walk(r, fun) case None => [])
  }

  /** The walk reaches the node at address `p`: the address exists and every
      strict ancestor on the way was accepted by `fun`. */
  ghost predicate Reached(t: ValueRange, p: seq<Side>, fun: ValueRange -> bool)
  {
    && At(t, p).Some?
    && forall k :: 0 <= k < |p| ==> At(t, p[..k]).Some? && fun(At(t, p[..k]).value)
  }

  /** The nodes at those addresses of `ps` that the walk reaches, in order. */
  ghost function Reachable(t: ValueRange, ps: seq<seq<Side>>, fun: ValueRange -> bool): seq<ValueRange>
  {
    if ps == [] then []
    else (if Reached(t, ps[0], fun) then [At(t, ps[0]).value] else []) + Reachable(t, ps[1..], fun)
  }

  lemma {:induction false} ReachableConcat(t: ValueRange, ps: seq<seq<Side>>, qs: seq<seq<Side>>, fun: ValueRange -> bool)
    ensures Reachable(t, ps + qs, fun) == Reachable(t, ps, fun) + Reachable(t, qs, fun)
  {
    if ps == [] {
      assert ps + qs == qs;
    } else {
      assert (ps + qs)[0] == ps[0];
      assert (ps + qs)[1..] == ps[1..] + qs;
      ReachableConcat(t, ps[1..], qs, fun);
    }
  }

  /** Reaching `[s] + p` from `t` is accepting `t` and then reaching `p` from its child. */
  lemma ReachedUnder(t: ValueRange, c: ValueRange, s: Side, p: seq<Side>, fun: ValueRange -> bool)
    requires Child(t, s) == Some(c)
    ensures At(t, [s] + p) == At(c, p)
    ensures Reached(t, [s] + p, fun) <==> fun(t) && Reached(c, p, fun)
  {
    var q := [s] + p;
    AtUnder(t, c, s, p);
    assert q[..0] == [];
    forall k | 0 <= k < |p|
      ensures At(t, q[..k + 1]) == At(c, p[..k])
    {
      assert q[..k + 1] == [s] + p[..k];
      AtUnder(t, c, s, p[..k]);
    }
    if fun(t) && Reached(c, p, fun) {
      forall k | 0 <= k < |q|
        ensures At(t, q[..k]).Some? && fun(At(t, q[..k]).value)
      {
        if k > 0 {
          assert At(t, q[..(k - 1) + 1]) == At(c, p[..k - 1]);
        }
      }
    }
    if Reached(t, q, fun) {
      assert At(t, q[..0]).Some? && fun(At(t, q[..0]).value);
      forall k | 0 <= k < |p|
        ensures At(c, p[..k]).Some? && fun(At(c, p[..k]).value)
      {
        assert At(t, q[..k + 1]) == At(c, p[..k]);
      }
    }
  }

  lemma {:induction false} ReachableUnder(t: ValueRange, c: ValueRange, s: Side, ps: seq<seq<Side>>, fun: ValueRange -> bool)
    requires Child(t, s) == Some(c)
    ensures Reachable(t, Under(s, ps), fun) == if fun(t) then Reachable(c, ps, fun) else []
  {
    if ps != [] {
      ReachedUnder(t, c, s, ps[0], fun);
      assert Under(s, ps)[1..] == Under(s, ps[1..]);
      ReachableUnder(t, c, s, ps[1..], fun);
    }
  }

  /** The walk visits, in pre-order, exactly the nodes all of whose strict
      ancestors `fun` accepted: a rejected node hides its own descendants and
      nothing else. */
  lemma {:induction false} WalkVisitsReachedNodes(t: ValueRange, fun: ValueRange -> bool)
    ensures Walk(t, fun) == Reachable(t, Addresses(t), fun)
  {
    var al := match t.left case Some(l) => Under(Left, Addresses(l)) case None => [];
    var ar := match t.right case Some(r) => Under(Right, Addresses(r)) case None => [];
    var wl := match t.left case Some(l) => Walk(l, fun) case None => [];
    var wr := match t.right case Some(r) => Walk(r, fun) case None => [];
    assert Addresses(t) == [[]] + al + ar;
    ReachableConcat(t, [[]] + al, ar, fun);
    ReachableConcat(t, [[]], al, fun);
    assert Reached(t, [], fun);
    var root: seq<seq<Side>> := [[]];
    assert Reachable(t, root, fun) == [t] by {
      assert root[1..] == [];
    }
    if t.left.Some? {
      ReachableUnder(t, t.left.value, Left, Addresses(t.left.value), fun);
      WalkVisitsReachedNodes(t.left.value, fun);
    }
    if t.right.Some? {
      ReachableUnder(t, t.right.value, Right, Addresses(t.right.value), fun);
      WalkVisitsReachedNodes(t.right.value, fun);
    }
    if fun(t) {
      assert Walk(t, fun) == [t] + wl + wr;
    }
  }

  /** With a callback that accepts every node, `walk` calls it on the whole
      pre-order enumeration. */
  lemma {:induction false} WalkAcceptingAll(t: ValueRange, fun: ValueRange -> bool)
    requires forall n :: n in Enumerate(t) ==> fun(n)
    ensures Walk(t, fun) == Enumerate(t)
  {
    assert t in Enumerate(t);
    if t.left.Some? {
      WalkAcceptingAll(t.left.value, fun);
    }
    if t.right.Some? {
      WalkAcceptingAll(t.right.value, fun);
    }
  }

  /** A rejected left child stops only its own subtree: the walk still
      visits the whole right sibling subtree afterwards. */
  lemma WalkRejectedLeftChild(t: ValueRange, fun: ValueRange -> bool)
    requires t.left.Some? && t.right.Some?
    requires fun(t) && !fun(t.left.value)
    ensures Walk(t, fun) == [t, t.left.value] + Walk(t.right.value, fun)
  {
  }

  /** No address strictly below a rejected node is reached. */
  lemma RejectedNodeHidesDescendants(t: ValueRange, p: seq<Side>, q: seq<Side>, fun: ValueRange -> bool)
    requires At(t, p).Some? && !fun(At(t, p).value)
    requires |p| < |q| && q[..|p|] == p
    ensures !Reached(t, q, fun)
  {
  }

  /** A callback that returns `False` on the nodes with bounds `(lo, hi)` only. */
  function RejectBounds(lo: int, hi: int): ValueRange -> bool
  {
    (n: ValueRange) => !(n.minvalue == lo && n.maxvalue == hi)
  }

  /** On `build_tree(ValueRange(0, 10), 3)`, rejecting the second node
      visited, the leaf (0,3), does not end the walk: all five nodes are
      still passed to the callback. */
  lemma ExampleWalkContinuesAfterRejection()
    ensures Walk(TreeBuilder.ExampleTree(), RejectBounds(0, 3))
         == Enumerate(TreeBuilder.ExampleTree())
    ensures |Walk(TreeBuilder.ExampleTree(), RejectBounds(0, 3))| == 5
  {
    var fun := RejectBounds(0, 3);
    var t := TreeBuilder.ExampleTree();
    var a, b := t.left.value, t.right.value;
    var c, d := b.left.value, b.right.value;
    assert Walk(c, fun) == [c] && Walk(d, fun) == [d];
    assert Walk(b, fun) == [b, c, d];
    assert Walk(a, fun) == [a];
    assert Walk(t, fun) == [t, a, b, c, d];
    TreeBuilder.ExampleEnumeration();
  }

  /** Rejecting (3,10) hides its children (3,6) and (6,10). */
  lemma ExampleWalkPrunesSubtree()
    ensures Walk(TreeBuilder.ExampleTree(), RejectBounds(3, 10))
         == [TreeBuilder.ExampleTree(), NewRange(0, 3), TreeBuilder.ExampleTree().right.value]
  {
  }
}
