/**
 Positions in a flat tree: a binary tree whose leaves sit at the even numbers
 and whose parents sit between their children.

 The iterator used by the log is a triple (index, offset, factor) with
 index == offset * factor + factor / 2 - 1 and factor == 2^(depth + 1). A `Pos`
 is that triple without redundancy;
 `IteratorIndex`, `IteratorMoves` and `IteratorSpan` state that every
 move on positions is the arithmetic the iterator performs on its fields.
 */
module FlatTree {

  datatype Pos = Pos(depth: nat, offset: nat)

  function Leaf(i: nat): Pos {
    Pos(0, i)
  }

  /** The position stored at flat index `i`: the depth is the number of trailing ones. */
  function PosOf(i: nat): Pos {
    if i % 2 == 0 then Leaf(i / 2) else Lift(PosOf(i / 2))
  }

  /** The flat index of a position. */
  function Index(p: Pos): nat
    decreases p.depth
  {
    if p.depth == 0 then 2 * p.offset else 2 * Index(Pos(p.depth - 1, p.offset)) + 1
  }

  /** The same place in the tree whose leaves are pairs of the old leaves. */
  function Lift(p: Pos): Pos {
    Pos(p.depth + 1, p.offset)
  }

  function Parent(p: Pos): Pos {
    Pos(p.depth + 1, p.offset / 2)
  }

  function Sibling(p: Pos): Pos {
    if p.offset % 2 == 0 then Pos(p.depth, p.offset + 1) else Pos(p.depth, p.offset - 1)
  }

  function LeftChild(p: Pos): Pos
    requires p.depth > 0
  {
    Pos(p.depth - 1, 2 * p.offset)
  }

  function RightChild(p: Pos): Pos
    requires p.depth > 0
  {
    Pos(p.depth - 1, 2 * p.offset + 1)
  }

  /** First leaf (counted in blocks) under `p`. */
  function Lo(p: Pos): nat
    decreases p.depth
  {
    if p.depth == 0 then p.offset else Lo(LeftChild(p))
  }

  /** One past the last leaf under `p`. */
  function Hi(p: Pos): nat
    decreases p.depth
  {
    if p.depth == 0 then p.offset + 1 else Hi(RightChild(p))
  }

  function Pow2(d: nat): (r: nat)
    ensures r > 0
  {
    if d == 0 then 1 else 2 * Pow2(d - 1)
  }

  function Factor(p: Pos): nat {
    2 * HalfFactor(p)
  }

  /** Half the iterator's factor: the number of leaves under `p`. */
  function HalfFactor(p: Pos): nat {
    Pow2(p.depth)
  }

  /** `contains` of the iterator: flat index `x` lies in the span of `p`. */
  predicate Contains(p: Pos, x: nat) {
    2 * Lo(p) <= x <= 2 * Hi(p) - 2
  }

  predicate HasLeaf(p: Pos, i: nat) {
    Lo(p) <= i < Hi(p)
  }

  // ---------------------------------------------------------------- spans

  /** Index and PosOf are mutually inverse, so a node's index may be kept as its position. */
  lemma {:induction false} PosOfIndex(p: Pos)
    ensures PosOf(Index(p)) == p
    decreases p.depth
  {
    if p.depth > 0 {
      var q := Pos(p.depth - 1, p.offset);
      PosOfIndex(q);
      PosOfOdd(Index(q));
    }
  }

  lemma {:induction false} PosOfOdd(k: nat)
    ensures PosOf(2 * k + 1) == Lift(PosOf(k))
  {
    assert (2 * k + 1) / 2 == k;
  }

  lemma {:induction false} IndexOfPosOf(i: nat)
    ensures Index(PosOf(i)) == i
  {
    if i % 2 == 1 {
      IndexOfPosOf(i / 2);
    }
  }

  /** The next position of the same depth starts where this one ends. */
  lemma {:induction false} NextSpan(p: Pos)
    ensures Lo(Pos(p.depth, p.offset + 1)) == Hi(p)
    ensures Lo(p) < Hi(p)
    decreases p.depth
  {
    if p.depth > 0 {
      NextSpan(LeftChild(p));
      NextSpan(RightChild(p));
      assert LeftChild(Pos(p.depth, p.offset + 1)) == Pos(p.depth - 1, RightChild(p).offset + 1);
    }
  }

  lemma {:induction false} LiftSpan(p: Pos)
    ensures Lo(Lift(p)) == 2 * Lo(p) && Hi(Lift(p)) == 2 * Hi(p)
    decreases p.depth
  {
    if p.depth > 0 {
      LiftSpan(LeftChild(p));
      LiftSpan(RightChild(p));
      assert LeftChild(Lift(p)) == Lift(LeftChild(p)) && RightChild(Lift(p)) == Lift(RightChild(p));
    }
  }

  lemma {:induction false} IndexSpan(p: Pos)
    ensures Index(p) == Lo(p) + Hi(p) - 1
    decreases p.depth
  {
    if p.depth > 0 {
      var q := Pos(p.depth - 1, p.offset);
      IndexSpan(q);
      LiftSpan(q);
    }
  }

  lemma {:induction false} SpanSize(p: Pos)
    ensures Hi(p) == Lo(p) + Pow2(p.depth)
    decreases p.depth
  {
    if p.depth > 0 {
      NextSpan(LeftChild(p));
      SpanSize(LeftChild(p));
      SpanSize(RightChild(p));
    }
  }

  /** A node's span is its children's spans laid end to end. */
  lemma {:induction false} ChildSpans(p: Pos)
    requires p.depth > 0
    ensures Lo(p) == Lo(LeftChild(p)) < Hi(LeftChild(p)) == Lo(RightChild(p)) < Hi(RightChild(p)) == Hi(p)
  {
    var l := LeftChild(p);
    assert Pos(l.depth, l.offset + 1) == RightChild(p);
    NextSpan(l);
    NextSpan(RightChild(p));
  }

  lemma {:induction false} ParentOf(p: Pos)
    ensures p.offset % 2 == 0 ==> LeftChild(Parent(p)) == p && RightChild(Parent(p)) == Sibling(p)
    ensures p.offset % 2 == 1 ==> RightChild(Parent(p)) == p && LeftChild(Parent(p)) == Sibling(p)
  {
  }

  lemma {:induction false} ParentSpan(p: Pos)
    ensures p.offset % 2 == 0 ==>
              Lo(Parent(p)) == Lo(p) && Hi(Parent(p)) == Hi(Sibling(p)) && Lo(Sibling(p)) == Hi(p)
    ensures p.offset % 2 == 1 ==>
              Lo(Parent(p)) == Lo(Sibling(p)) && Hi(Parent(p)) == Hi(p) && Hi(Sibling(p)) == Lo(p)
    ensures Lo(p) < Hi(p) && Lo(Sibling(p)) < Hi(Sibling(p))
  {
    ParentOf(p);
    ChildSpans(Parent(p));
  }

  lemma {:induction false} OffsetTimesSize(p: Pos)
    ensures Lo(p) == p.offset * Pow2(p.depth)
    decreases p.depth
  {
    if p.depth > 0 {
      OffsetTimesSize(LeftChild(p));
      assert 2 * p.offset * Pow2(p.depth - 1) == p.offset * Pow2(p.depth);
    }
  }

  /** index == offset * factor + factor / 2 - 1 */
  lemma {:induction false} IteratorIndex(p: Pos)
    ensures Index(p) == p.offset * Factor(p) + HalfFactor(p) - 1
  {
    IndexSpan(p);
    SpanSize(p);
    LiftSpan(p);
    OffsetTimesSize(Lift(p));
  }

  /** Every move on positions is the iterator's arithmetic on its index and factor. */
  lemma {:induction false} IteratorMoves(p: Pos)
    ensures Index(Sibling(p)) == if p.offset % 2 == 0 then Index(p) + Factor(p) else Index(p) - Factor(p)
    ensures Index(Parent(p)) == if p.offset % 2 == 0 then Index(p) + HalfFactor(p) else Index(p) - HalfFactor(p)
  {
    ParentOf(p);
    ChildIndices(Parent(p));
  }

  lemma {:induction false} ChildIndices(p: Pos)
    requires p.depth > 0
    ensures Index(LeftChild(p)) == Index(p) - HalfFactor(LeftChild(p))
    ensures Index(RightChild(p)) == Index(p) + HalfFactor(RightChild(p))
  {
    HalfSpans(p);
    IndexSpan(p);
    StartIndex(LeftChild(p));
    StartIndex(RightChild(p));
  }

  lemma {:induction false} StartIndex(p: Pos)
    ensures Index(p) == 2 * Lo(p) + HalfFactor(p) - 1
  {
    IndexSpan(p);
    SpanSize(p);
  }

  lemma {:induction false} HalfSpans(p: Pos)
    requires p.depth > 0
    ensures Lo(LeftChild(p)) == Lo(p) && Lo(RightChild(p)) == Lo(p) + HalfFactor(LeftChild(p))
    ensures Hi(p) == Lo(p) + 2 * HalfFactor(LeftChild(p)) && HalfFactor(RightChild(p)) == HalfFactor(LeftChild(p))
  {
    ChildSpans(p);
    ChildSize(p);
  }

  lemma {:induction false} ChildSize(p: Pos)
    requires p.depth > 0
    ensures Hi(LeftChild(p)) == Lo(LeftChild(p)) + HalfFactor(LeftChild(p))
            && Hi(p) == Lo(p) + 2 * HalfFactor(LeftChild(p))
  {
    SpanSize(p);
    SpanSize(LeftChild(p));
  }

  /** A parent's index lies between its two halves. */
  lemma {:induction false} MidIndex(p: Pos, i: nat)
    requires p.depth > 0
    ensures Index(Leaf(i)) < Index(p) <==> i < Hi(LeftChild(p))
  {
    ChildSpans(p);
    IndexSpan(p);
    SpanSize(LeftChild(p));
    SpanSize(RightChild(p));
  }

  /** `next_tree` and `contains` in terms of index and factor. */
  lemma {:induction false} IteratorSpan(p: Pos)
    ensures 2 * Hi(p) == Index(p) + HalfFactor(p) + 1
    ensures forall x: nat :: Contains(p, x) <==> Index(p) - HalfFactor(p) < x < Index(p) + HalfFactor(p)
  {
    IndexSpan(p);
    SpanSize(p);
  }

  // ---------------------------------------------------------------- ancestors

  function Up(p: Pos, k: nat): Pos
    decreases k
  {
    if k == 0 then p else Up(Parent(p), k - 1)
  }

  predicate Within(c: Pos, r: Pos) {
    c.depth <= r.depth && Up(c, r.depth - c.depth) == r
  }

  lemma {:induction false} UpParent(p: Pos, k: nat)
    ensures Up(p, k + 1) == Parent(Up(p, k))
    ensures Up(p, k).depth == p.depth + k
    decreases k
  {
    if k > 0 {
      UpParent(Parent(p), k - 1);
    }
  }

  lemma {:induction false} WithinSpan(c: Pos, r: Pos)
    requires Within(c, r)
    ensures Lo(r) <= Lo(c) < Hi(c) <= Hi(r)
    ensures c != r ==> Within(Parent(c), r)
    decreases r.depth - c.depth
  {
    ParentSpan(c);
    if c.depth < r.depth {
      WithinSpan(Parent(c), r);
    }
  }

  /** A leaf in the span of `r` climbs to `r`. */
  lemma {:induction false} LeafWithin(i: nat, r: Pos)
    requires HasLeaf(r, i)
    ensures Within(Leaf(i), r)
    decreases r.depth
  {
    if r.depth > 0 {
      ChildSpans(r);
      var c := if i < Hi(LeftChild(r)) then LeftChild(r) else RightChild(r);
      LeafWithin(i, c);
      UpParent(Leaf(i), c.depth);
    }
  }

  lemma {:induction false} UpUp(p: Pos, j: nat, k: nat)
    ensures Up(Up(p, j), k) == Up(p, j + k)
    decreases j
  {
    if j > 0 {
      UpUp(Parent(p), j - 1, k);
    }
  }

  /** Two positions that share a leaf are nested, the shallower inside the deeper. */
  lemma {:induction false} SharedLeafNests(c: Pos, r: Pos, i: nat)
    requires HasLeaf(c, i) && HasLeaf(r, i) && c.depth <= r.depth
    ensures Within(c, r)
  {
    LeafWithin(i, c);
    LeafWithin(i, r);
    UpUp(Leaf(i), c.depth, r.depth - c.depth);
  }

  // ---------------------------------------------------------------- full roots

  /** `full_root` of the iterator: climb while the parent starts here and still ends by `b`. */
  function FullRootFrom(p: Pos, b: nat): (r: Pos)
    requires Hi(p) <= b
    ensures Lo(r) == Lo(p) && Hi(r) <= b
    ensures r.offset % 2 == 1 || b < Hi(Parent(r))
    decreases b - Hi(p)
  {
    ParentSpan(p);
    if p.offset % 2 == 0 && Hi(Parent(p)) <= b then FullRootFrom(Parent(p), b) else p
  }

  function FullRoot(s: nat, b: nat): (r: Pos)
    requires s < b
    ensures Lo(r) == s && s < Hi(r) <= b
    ensures r.offset % 2 == 1 || b < Hi(Parent(r))
  {
    var r := FullRootFrom(Leaf(s), b);
    ParentSpan(r);
    r
  }

  function LeftDescendant(p: Pos, k: nat): Pos
    requires k <= p.depth
    decreases k
  {
    if k == 0 then p else LeftDescendant(LeftChild(p), k - 1)
  }

  lemma {:induction false} LeftDescendantSpan(p: Pos, k: nat)
    requires k <= p.depth
    ensures Lo(LeftDescendant(p, k)) == Lo(p) && Hi(LeftDescendant(p, k)) <= Hi(p)
    ensures LeftDescendant(p, k).depth == p.depth - k
    ensures k == p.depth ==> LeftDescendant(p, k) == Leaf(Lo(p))
    decreases k
  {
    if k > 0 {
      ChildSpans(p);
      LeftDescendantSpan(LeftChild(p), k - 1);
    }
  }

  lemma {:induction false} ClimbsToLeftAncestor(p: Pos, k: nat, b: nat)
    requires k <= p.depth && Hi(p) <= b
    ensures Hi(LeftDescendant(p, k)) <= b
    ensures FullRootFrom(LeftDescendant(p, k), b) == FullRootFrom(p, b)
    decreases k
  {
    LeftDescendantSpan(p, k);
    if k > 0 {
      ChildSpans(p);
      ClimbsToLeftAncestor(LeftChild(p), k - 1, b);
      assert Parent(LeftChild(p)) == p;
    }
  }

  /** The full root is the only position that starts at `Lo(p)`, fits in `b` and cannot grow. */
  lemma {:induction false} FullRootIs(p: Pos, b: nat)
    requires Hi(p) <= b
    requires p.offset % 2 == 1 || b < Hi(Parent(p))
    ensures Lo(p) < b && FullRoot(Lo(p), b) == p
  {
    ParentSpan(p);
    ClimbsToLeftAncestor(p, p.depth, b);
    LeftDescendantSpan(p, p.depth);
  }

  /** Next to a left child inside `r`, the full root is its sibling. */
  lemma {:induction false} RightSiblingFits(c: Pos, r: Pos, b: nat)
    requires c.offset % 2 == 0 && Within(c, r) && c != r && Hi(r) <= b
    ensures var sib := Sibling(c);
            Lo(sib) == Hi(c) < Hi(sib) == Hi(Parent(c)) <= Hi(r) && FullRoot(Hi(c), b) == sib
  {
    WithinSpan(c, r);
    WithinSpan(Parent(c), r);
    ParentSpan(c);
    FullRootIs(Sibling(c), b);
  }

  /** From an odd offset nothing bigger starts: the full root is a leftmost descendant. */
  lemma {:induction false} FullRootBelow(p: Pos, k: nat, b: nat) returns (j: nat)
    requires k <= p.depth && p.offset % 2 == 1
    requires Hi(LeftDescendant(p, k)) <= b
    ensures j <= k && FullRootFrom(LeftDescendant(p, k), b) == LeftDescendant(p, j)
  {
    var q := LeftDescendant(p, k);
    if k == 0 || b < Hi(Parent(q)) {
      j := k;
    } else {
      LeftDescendantStep(p, k);
      j := FullRootBelow(p, k - 1, b);
    }
  }

  lemma {:induction false} LeftDescendantStep(p: Pos, k: nat)
    requires 0 < k <= p.depth
    ensures LeftDescendant(p, k).offset % 2 == 0
    ensures Parent(LeftDescendant(p, k)) == LeftDescendant(p, k - 1)
    decreases k
  {
    if k > 1 {
      LeftDescendantStep(LeftChild(p), k - 1);
    }
  }

  // ---------------------------------------------------------------- roots and paths

  /** `Path(a, b)`: the blocks [a, b) cut greedily into complete subtrees. */
  function Path(a: nat, b: nat): seq<Pos>
    decreases b - a
  {
    if a >= b then [] else
      var r := FullRoot(a, b);
      [r] + Path(Hi(r), b)
  }

  /** Roots of the tree over `n` blocks, by halving: `full_roots(2n)`. */
  function Roots(n: nat): seq<Pos> {
    if n == 0 then []
    else if n % 2 == 0 then LiftAll(Roots(n / 2))
    else LiftAll(Roots(n / 2)) + [Leaf(n - 1)]
  }

  function LiftAll(s: seq<Pos>): seq<Pos> {
    seq(|s|, i requires 0 <= i < |s| => Lift(s[i]))
  }

  /** Attaching at an odd offset completes the last root; at an even offset it adds one. */
  lemma {:induction false} RootsStep(p: Pos)
    ensures p.offset % 2 == 1 ==> Roots(Lo(p)) == Roots(Lo(Parent(p))) + [Sibling(p)]
    ensures p.offset % 2 == 0 ==> Roots(Hi(p)) == Roots(Lo(p)) + [p]
  {
    if p.offset % 2 == 1 {
      RootsAtOdd(p);
    } else {
      RootsAtEven(p);
    }
  }

  lemma {:induction false} RootsAtOdd(p: Pos)
    requires p.offset % 2 == 1
    ensures Roots(Lo(p)) == Roots(Lo(Parent(p))) + [Sibling(p)]
    decreases p.depth
  {
    if p.depth == 0 {
      ParentSpan(p);
      assert Sibling(p) == Leaf(p.offset - 1);
      RootsOfOdd(p.offset / 2);
    } else {
      var q := Pos(p.depth - 1, p.offset);
      RootsAtOdd(q);
      LiftSpan(q);
      LiftParent(q);
      LiftSpan(Parent(q));
      RootsLifted(Lo(q), Lo(Parent(q)), Sibling(q));
    }
  }

  lemma {:induction false} RootsAtEven(p: Pos)
    requires p.offset % 2 == 0
    ensures Roots(Hi(p)) == Roots(Lo(p)) + [p]
    decreases p.depth
  {
    if p.depth > 0 {
      var q := Pos(p.depth - 1, p.offset);
      RootsAtEven(q);
      LiftSpan(q);
      RootsLifted(Hi(q), Lo(q), q);
    }
  }

  lemma {:induction false} RootsLifted(n: nat, m: nat, q: Pos)
    requires Roots(n) == Roots(m) + [q]
    ensures Roots(2 * n) == Roots(2 * m) + [Lift(q)]
  {
    RootsOfEven(n);
    RootsOfEven(m);
    LiftAllSnoc(Roots(m), q);
  }

  lemma {:induction false} LiftParent(q: Pos)
    ensures Parent(Lift(q)) == Lift(Parent(q)) && Sibling(Lift(q)) == Lift(Sibling(q))
  {
  }

  lemma {:induction false} RootsOfOdd(n: nat)
    ensures Roots(2 * n + 1) == Roots(2 * n) + [Leaf(2 * n)]
  {
    RootsOfEven(n);
    assert (2 * n + 1) / 2 == n;
  }

  lemma {:induction false} RootsOfEven(n: nat)
    ensures Roots(2 * n) == LiftAll(Roots(n))
  {
    var m := 2 * n;
    assert m % 2 == 0 && m / 2 == n;
    if n == 0 {
      assert Roots(n) == [] && LiftAll([]) == [];
    }
  }

  lemma {:induction false} LiftAllSnoc(s: seq<Pos>, p: Pos)
    ensures LiftAll(s + [p]) == LiftAll(s) + [Lift(p)]
  {
  }

  lemma {:induction false} RootsSpan(n: nat, i: nat)
    requires i < |Roots(n)|
    ensures Roots(n)[i].offset % 2 == 0
    ensures Hi(Roots(n)[i]) <= n
    ensures i == |Roots(n)| - 1 ==> Hi(Roots(n)[i]) == n
    ensures Roots(n)[..i] == Roots(Lo(Roots(n)[i]))
  {
    var r := Roots(n)[i];
    if n % 2 == 1 && i == |Roots(n)| - 1 {
      assert Roots(n)[..i] == Roots(n - 1);
    } else {
      RootsSpan(n / 2, i);
      var q := Roots(n / 2)[i];
      LiftSpan(q);
      assert Roots(n)[..i] == LiftAll(Roots(n / 2)[..i]);
      RootsOfEven(Lo(q));
    }
  }

  /** No root can grow: its parent reaches past the end. */
  lemma {:induction false} RootsMaximal(n: nat, i: nat)
    requires i < |Roots(n)|
    ensures n < Hi(Parent(Roots(n)[i]))
  {
    var r := Roots(n)[i];
    if n % 2 == 1 && i == |Roots(n)| - 1 {
      ParentSpan(r);
    } else {
      RootsMaximal(n / 2, i);
      var q := Roots(n / 2)[i];
      LiftSpan(Parent(q));
      LiftParent(q);
    }
  }

  /** First block under root number `i`, or the end. */
  function Boundary(n: nat, i: nat): nat
    requires i <= |Roots(n)|
  {
    if i < |Roots(n)| then Lo(Roots(n)[i]) else n
  }

  /** Walking `full_root` and `next_tree` from 0 visits exactly the roots. */
  lemma {:induction false} PathIsRoots(n: nat, i: nat)
    requires i <= |Roots(n)|
    ensures Path(Boundary(n, i), n) == Roots(n)[i..]
    decreases |Roots(n)| - i
  {
    if i < |Roots(n)| {
      var r := Roots(n)[i];
      RootsSpan(n, i);
      RootsMaximal(n, i);
      FullRootIs(r, n);
      PathIsRoots(n, i + 1);
      RootsAdjacent(n, i);
      assert Roots(n)[i..] == [r] + Roots(n)[i + 1..];
    }
  }

  lemma {:induction false} RootsStart(n: nat)
    ensures Boundary(n, 0) == 0
    ensures n > 0 ==> |Roots(n)| > 0
  {
    if Roots(n) == [] {
      RootsOfNone(n);
    } else {
      RootsSpan(n, 0);
      RootsOfNone(Lo(Roots(n)[0]));
    }
  }

  lemma {:induction false} RootsOfNone(n: nat)
    requires Roots(n) == []
    ensures n == 0
  {
    if n > 0 && n % 2 == 0 {
      assert |LiftAll(Roots(n / 2))| == |Roots(n / 2)|;
      RootsOfNone(n / 2);
    }
  }

  lemma {:induction false} RootsAdjacent(n: nat, i: nat)
    requires i < |Roots(n)|
    ensures Hi(Roots(n)[i]) == Boundary(n, i + 1)
  {
    RootsSpan(n, i);
    if i + 1 < |Roots(n)| {
      RootsSpan(n, i + 1);
      var s := Lo(Roots(n)[i + 1]);
      RootsSpan(s, i);
      assert Roots(s)[i] == Roots(n)[..i + 1][i];
    }
  }
}
