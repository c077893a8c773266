/**
 A node of a binary range tree (`ValueRange` in src/binrange/binary_range.py):
 an interval `[minvalue, maxvalue]` with two independently optional children,
 its span, its span-only ordering, and its pre-order enumeration.
 */
module ValueRanges {
  import opened Wrappers

  /** `Numeric` is modelled as `int`; the children are two separate options,
      so a node with exactly one child is representable, as in the source. */
  datatype ValueRange = ValueRange(
    minvalue: int,
    maxvalue: int,
    left: Option<ValueRange>,
    right: Option<ValueRange>)

  /** `ValueRange(minvalue, maxvalue)`: both children default to `None`. */
  function NewRange(minvalue: int, maxvalue: int): ValueRange
  {
    ValueRange(minvalue, maxvalue, None, None)
  }

  predicate IsLeaf(t: ValueRange)
  {
    t.left.None? && t.right.None?
  }

  /** `_range`: the span of the interval, negative when the bounds are inverted. */
  function Span(t: ValueRange): int
  {
    t.maxvalue - t.minvalue
  }

  // The rich comparisons look at the span only, never at bounds or children.

  predicate Eq(a: ValueRange, b: ValueRange) { Span(a) == Span(b) }
  predicate Lt(a: ValueRange, b: ValueRange) { Span(a) < Span(b) }
  predicate Le(a: ValueRange, b: ValueRange) { Span(a) <= Span(b) }
  predicate Gt(a: ValueRange, b: ValueRange) { Span(a) > Span(b) }
  predicate Ge(a: ValueRange, b: ValueRange) { Span(a) >= Span(b) }

  /** `==` on nodes is an equivalence relation. */
  lemma EqIsEquivalence(a: ValueRange, b: ValueRange, c: ValueRange)
    ensures Eq(a, a)
    ensures Eq(a, b) <==> Eq(b, a)
    ensures Eq(a, b) && Eq(b, c) ==> Eq(a, c)
  {
  }

  /** Exactly one of `<`, `==`, `>` holds, and the other three operators
      are the expected combinations of them. */
  lemma ComparisonsAreTotal(a: ValueRange, b: ValueRange)
    ensures Lt(a, b) || Eq(a, b) || Gt(a, b)
    ensures !(Lt(a, b) && Eq(a, b)) && !(Lt(a, b) && Gt(a, b)) && !(Eq(a, b) && Gt(a, b))
    ensures Le(a, b) <==> Lt(a, b) || Eq(a, b)
    ensures Ge(a, b) <==> Gt(a, b) || Eq(a, b)
    ensures Gt(a, b) <==> Lt(b, a)
    ensures Ge(a, b) <==> Le(b, a)
  {
  }

  /** Replacing a node by any other node of the same span, wherever it lies
      and whatever its children, changes no comparison. */
  lemma ComparisonsSeeOnlySpan(a: ValueRange, a': ValueRange, b: ValueRange)
    requires Span(a) == Span(a')
    ensures Eq(a, b) == Eq(a', b) && Lt(a, b) == Lt(a', b) && Le(a, b) == Le(a', b)
    ensures Gt(a, b) == Gt(a', b) && Ge(a, b) == Ge(a', b)
    ensures Eq(a, a')
  {
  }

  /** Two disjoint intervals of the same length compare equal although they
      are different values. */
  lemma DisjointEqualSpansCompareEqual()
    ensures Eq(NewRange(0, 5), NewRange(100, 105))
    ensures NewRange(0, 5) != NewRange(100, 105)
  {
  }

  /** `__iter__`: the node itself, then all of `left`, then all of `right`. */
  function Enumerate(t: ValueRange): (r: seq<ValueRange>)
    ensures |r| >= 1 && r[0] == t
    ensures IsLeaf(t) ==> r == [t]
  {
    [t]
    + (match t.left case Some(l) => Enumerate(l) case None => [])
    + (match t.right case Some(rt) => Enumerate(rt) case None => [])
  }

  /** The number of nodes reachable from `t`, counted independently of the enumeration. */
  function Size(t: ValueRange): (n: nat)
    ensures n >= 1
  {
    1
    + (match t.left case Some(l) => Size(l) case None => 0)
    + (match t.right case Some(rt) => Size(rt) case None => 0)
  }

  /** Which child to descend into. */
  datatype Side = Left | Right

  function Child(t: ValueRange, s: Side): Option<ValueRange>
  {
    match s
    case Left => t.left
    case Right => t.right
  }

  /** The node reached from `t` by following the sides in `p`, if every step exists. */
  function At(t: ValueRange, p: seq<Side>): Option<ValueRange>
    decreases |p|
  {
    if p == [] then Some(t)
    else match Child(t, p[0])
      case None => None
      case Some(c) => At(c, p[1..])
  }

  /** Prefixes every address in `ps` with one step `s`. */
  function Under(s: Side, ps: seq<seq<Side>>): seq<seq<Side>>
  {
    seq(|ps|, i requires 0 <= i < |ps| => [s] + ps[i])
  }

  /** The address of every node of `t`, in pre-order. */
  function Addresses(t: ValueRange): seq<seq<Side>>
  {
    [[]]
    + (match t.left case Some(l) => Under(Left, Addresses(l)) case None => [])
    + (match t.right case Some(rt) => Under(Right, Addresses(rt)) case None => [])
  }

  /** Descending one step and then along `p` is following `[s] + p`. */
  lemma AtUnder(t: ValueRange, c: ValueRange, s: Side, p: seq<Side>)
    requires Child(t, s) == Some(c)
    ensures At(t, [s] + p) == At(c, p)
  {
    assert ([s] + p)[1..] == p;
  }

  /** `ps[i]` is the address in `t` of `ns[i]`, for every `i`. */
  ghost predicate Addressed(t: ValueRange, ps: seq<seq<Side>>, ns: seq<ValueRange>)
  {
    |ps| == |ns| && forall i :: 0 <= i < |ps| ==> At(t, ps[i]) == Some(ns[i])
  }

  lemma AddressedConcat(t: ValueRange, ps: seq<seq<Side>>, ns: seq<ValueRange>, qs: seq<seq<Side>>, ms: seq<ValueRange>)
    requires Addressed(t, ps, ns) && Addressed(t, qs, ms)
    ensures Addressed(t, ps + qs, ns + ms)
  {
    forall i | 0 <= i < |ps + qs|
      ensures At(t, (ps + qs)[i]) == Some((ns + ms)[i])
    {
      if i >= |ps| {
        assert (ps + qs)[i] == qs[i - |ps|] && (ns + ms)[i] == ms[i - |ps|];
      }
    }
  }

  lemma AddressedUnder(t: ValueRange, c: ValueRange, s: Side, ps: seq<seq<Side>>, ns: seq<ValueRange>)
    requires Child(t, s) == Some(c)
    requires Addressed(c, ps, ns)
    ensures Addressed(t, Under(s, ps), ns)
  {
    forall i | 0 <= i < |ps|
      ensures At(t, Under(s, ps)[i]) == Some(ns[i])
    {
      AtUnder(t, c, s, ps[i]);
    }
  }

  /** The enumeration has one entry per node, and its i-th entry is the
      node at the i-th pre-order address. */
  lemma {:induction false} EnumerateAddresses(t: ValueRange)
    ensures |Enumerate(t)| == Size(t) == |Addresses(t)|
    ensures forall i :: 0 <= i < |Addresses(t)| ==> At(t, Addresses(t)[i]) == Some(Enumerate(t)[i])
  {
    var el := match t.left case Some(l) => Enumerate(l) case None => [];
    var er := match t.right case Some(rt) => Enumerate(rt) case None => [];
    var al := match t.left case Some(l) => Under(Left, Addresses(l)) case None => [];
    var ar := match t.right case Some(rt) => Under(Right, Addresses(rt)) case None => [];
    var sl := match t.left case Some(l) => Size(l) case None => 0;
    var sr := match t.right case Some(rt) => Size(rt) case None => 0;
    assert Enumerate(t) == [t] + el + er;
    assert Addresses(t) == [[]] + al + ar;
    assert Size(t) == 1 + sl + sr;
    if t.left.Some? {
      EnumerateAddresses(t.left.value);
      AddressedUnder(t, t.left.value, Left, Addresses(t.left.value), el);
    }
    if t.right.Some? {
      EnumerateAddresses(t.right.value);
      AddressedUnder(t, t.right.value, Right, Addresses(t.right.value), er);
    }
    assert Addressed(t, [[]], [t]);
    AddressedConcat(t, [[]], [t], al, el);
    AddressedConcat(t, [[]] + al, [t] + el, ar, er);
  }

  /** No address occurs twice in `ps`. */
  ghost predicate Distinct(ps: seq<seq<Side>>)
  {
    forall i, j :: 0 <= i < j < |ps| ==> ps[i] != ps[j]
  }

  lemma DistinctUnder(s: Side, ps: seq<seq<Side>>)
    requires Distinct(ps)
    ensures Distinct(Under(s, ps))
  {
    forall i, j | 0 <= i < j < |ps|
      ensures Under(s, ps)[i] != Under(s, ps)[j]
    {
      assert ([s] + ps[i])[1..] == ps[i];
      assert ([s] + ps[j])[1..] == ps[j];
    }
  }

  lemma DistinctConcat(ps: seq<seq<Side>>, qs: seq<seq<Side>>)
    requires Distinct(ps) && Distinct(qs)
    requires forall i, j :: 0 <= i < |ps| && 0 <= j < |qs| ==> ps[i] != qs[j]
    ensures Distinct(ps + qs)
  {
    forall i, j | 0 <= i < j < |ps + qs|
      ensures (ps + qs)[i] != (ps + qs)[j]
    {
      if j < |ps| {
        assert (ps + qs)[i] == ps[i] && (ps + qs)[j] == ps[j];
      } else if i < |ps| {
        assert (ps + qs)[i] == ps[i] && (ps + qs)[j] == qs[j - |ps|];
      } else {
        assert (ps + qs)[i] == qs[i - |ps|] && (ps + qs)[j] == qs[j - |ps|];
      }
    }
  }

  /** Every address of `Under(s, ps)` starts with the step `s`. */
  lemma UnderStartsWith(s: Side, ps: seq<seq<Side>>)
    ensures forall i :: 0 <= i < |ps| ==> |Under(s, ps)[i]| >= 1 && Under(s, ps)[i][0] == s
  {
  }

  lemma {:induction false} AddressesDistinct(t: ValueRange)
    ensures Distinct(Addresses(t))
  {
    var al := match t.left case Some(l) => Under(Left, Addresses(l)) case None => [];
    var ar := match t.right case Some(rt) => Under(Right, Addresses(rt)) case None => [];
    var root: seq<seq<Side>> := [[]];
    assert Addresses(t) == root + al + ar;
    if t.left.Some? {
      AddressesDistinct(t.left.value);
      DistinctUnder(Left, Addresses(t.left.value));
      UnderStartsWith(Left, Addresses(t.left.value));
    }
    if t.right.Some? {
      AddressesDistinct(t.right.value);
      DistinctUnder(Right, Addresses(t.right.value));
      UnderStartsWith(Right, Addresses(t.right.value));
    }
    DistinctConcat(root, al);
    DistinctConcat(root + al, ar);
  }

  lemma InUnder(s: Side, ps: seq<seq<Side>>, q: seq<Side>)
    requires q in ps
    ensures [s] + q in Under(s, ps)
  {
    var k :| 0 <= k < |ps| && ps[k] == q;
    assert Under(s, ps)[k] == [s] + q;
  }

  /** An address of a child, prefixed with the step to it, is an address of the parent. */
  lemma InAddresses(t: ValueRange, c: ValueRange, s: Side, q: seq<Side>)
    requires Child(t, s) == Some(c)
    requires q in Addresses(c)
    ensures [s] + q in Addresses(t)
  {
    InUnder(s, Addresses(c), q);
    var al := match t.left case Some(l) => Under(Left, Addresses(l)) case None => [];
    var ar := match t.right case Some(rt) => Under(Right, Addresses(rt)) case None => [];
    assert Addresses(t) == [[]] + al + ar;
  }

  lemma {:induction false} AddressesComplete(t: ValueRange, p: seq<Side>)
    requires At(t, p).Some?
    ensures p in Addresses(t)
    decreases |p|
  {
    if p != [] {
      var c := Child(t, p[0]).value;
      AddressesComplete(c, p[1..]);
      InAddresses(t, c, p[0], p[1..]);
      assert [p[0]] + p[1..] == p;
    }
  }

  /** The pre-order addresses of `t` are pairwise distinct and name every
      node of `t`: each path that leads to a node is among them. Together with
      `EnumerateAddresses`, the enumeration lists each node position exactly once. */
  lemma AddressesArePositions(t: ValueRange)
    ensures Distinct(Addresses(t))
    ensures forall p :: At(t, p).Some? ==> p in Addresses(t)
  {
    AddressesDistinct(t);
    forall p | At(t, p).Some?
      ensures p in Addresses(t)
    {
      AddressesComplete(t, p);
    }
  }
}
