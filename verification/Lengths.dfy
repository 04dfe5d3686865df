/**
 Byte lengths of accepted nodes. A parent's hash covers only the sum of its children's
 lengths, so acceptance does not always fix the length of each node.
 */
module Lengths {
  import opened Common
  import opened FlatTree
  import opened Hashes
  import opened Changesets
  import opened Verify
  import opened Soundness
  import opened Completeness

  /** The nodes are the writer's, hash and length. */
  ghost predicate AllExact(log: seq<Block>, nodes: seq<Node>) {
    forall x :: x in nodes ==> x == NodeAt(log, x.pos)
  }

  ghost predicate ExactQueue(log: seq<Block>, q: Queue) {
    AllExact(log, q.rest) && (q.extra.Some? ==> q.extra.value == NodeAt(log, q.extra.value.pos))
  }

  lemma {:induction false} ShiftExact(log: seq<Block>, q: Queue, p: Pos)
    requires ExactQueue(log, q) && Shift(q, p).Ok?
    ensures Shift(q, p).value.0 == NodeAt(log, p) && ExactQueue(log, Shift(q, p).value.1)
  {
  }

  // ---------------------------------------------------------------- a block's path

  /** Below a root with the writer's hash, the lengths next to an exact node are exact. */
  lemma {:induction false} AnchoredClimb(log: seq<Block>, q: Queue, cur: Node, acc: seq<Node>)
    requires Climb(q, cur, acc).Ok? && Good(log, Climb(q, cur, acc).value.0)
    requires cur == NodeAt(log, cur.pos) && AllExact(log, acc)
    ensures AllExact(log, Climb(q, cur, acc).value.1)
    decreases Size(q)
  {
    if Size(q) != 0 {
      var s := Shift(q, Sibling(cur.pos)).value;
      var parent := ParentNode(Parent(cur.pos), cur, s.0);
      ClimbGood(log, s.1, parent, acc + [s.0, parent]);
      SiblingExact(log, cur, s.0);
      AnchoredClimb(log, s.1, parent, acc + [s.0, parent]);
    }
  }

  lemma {:induction false} SiblingExact(log: seq<Block>, a: Node, b: Node)
    requires a == NodeAt(log, a.pos) && b.pos == Sibling(a.pos) && Good(log, ParentNode(Parent(a.pos), a, b))
    ensures b == NodeAt(log, b.pos) && ParentNode(Parent(a.pos), a, b) == NodeAt(log, Parent(a.pos))
  {
    GoodChildren(log, a, b);
    ParentOfSiblings(log, a.pos);
    ParentOf(a.pos);
  }

  // ---------------------------------------------------------------- attaching exact nodes

  lemma {:induction false} AttachExact(log: seq<Block>, roots: seq<Node>)
    requires roots != [] && AllExact(log, roots)
    ensures AllExact(log, Attach(roots).roots) && AllExact(log, Attach(roots).added)
    decreases |roots|
  {
    if Mergeable(roots) {
      ParentOfSiblings(log, Last(roots).pos);
      AttachExact(log, MergeOnce(roots));
    }
  }

  /** Everything attached is exact if what it is made from is. */
  ghost predicate ExactDraft(log: seq<Block>, d: Draft) {
    AllExact(log, d.roots) && AllExact(log, d.nodes)
  }

  lemma {:induction false} AppendRootExact(log: seq<Block>, d: Draft, node: Node)
    requires ExactDraft(log, d) && node == NodeAt(log, node.pos)
    ensures ExactDraft(log, AppendRootSpec(d, node).0)
  {
    AttachExact(log, d.roots + [node]);
  }

  lemma {:induction false} GrowExact(log: seq<Block>, d: Draft, q: Queue, it: Pos, target: Pos)
    requires ExactDraft(log, d) && ExactQueue(log, q) && Grow(d, q, it, target).Ok?
    ensures var r := Grow(d, q, it, target).value; ExactDraft(log, r.0) && ExactQueue(log, r.1)
    decreases Size(q)
  {
    if it != target {
      var s := Shift(q, Sibling(it)).value;
      ShiftExact(log, q, Sibling(it));
      AppendRootExact(log, d, s.0);
      var next := AppendRootSpec(d, s.0);
      GrowExact(log, next.0, s.1, next.1, target);
    }
  }

  lemma {:induction false} UpgradeRootsExact(log: seq<Block>, d: Draft, q: Queue, i: nat, grow: bool, s: nat, b: nat)
    requires ExactDraft(log, d) && ExactQueue(log, q) && UpgradeRoots(d, q, i, grow, s, b).Ok?
    ensures var r := UpgradeRoots(d, q, i, grow, s, b).value; ExactDraft(log, r.0) && ExactQueue(log, r.1)
    decreases b - s
  {
    if s < b {
      var r := FullRoot(s, b);
      if i < |d.roots| && d.roots[i].pos == r {
        UpgradeRootsExact(log, d, q, i + 1, grow, Hi(r), b);
      } else if grow && i < |d.roots| {
        GrowExact(log, d, q, Last(d.roots).pos, r);
        var g := Grow(d, q, Last(d.roots).pos, r).value;
        UpgradeRootsExact(log, g.0, g.1, i, false, Hi(r), b);
      } else {
        var x := Shift(q, r).value;
        ShiftExact(log, q, r);
        AppendRootExact(log, d, x.0);
        var next := AppendRootSpec(d, x.0);
        UpgradeRootsExact(log, next.0, x.1, i, false, Hi(next.1), b);
      }
    }
  }

  lemma {:induction false} ExtraUpExact(log: seq<Block>, d: Draft, extra: seq<Node>, it: Pos)
    requires ExactDraft(log, d) && AllExact(log, extra)
    ensures ExactDraft(log, ExtraUp(d, extra, it).0) && AllExact(log, ExtraUp(d, extra, it).1)
    decreases |extra|
  {
    if extra != [] && extra[0].pos == Sibling(it) {
      AppendRootExact(log, d, extra[0]);
      var next := AppendRootSpec(d, extra[0]);
      ExtraUpExact(log, next.0, extra[1..], next.1);
    }
  }

  lemma {:induction false} ExtraDownExact(log: seq<Block>, d: Draft, extra: seq<Node>, it: Pos)
    requires ExactDraft(log, d) && AllExact(log, extra) && ExtraDown(d, extra, it).Ok?
    ensures ExactDraft(log, ExtraDown(d, extra, it).value)
    decreases |extra|
  {
    if extra != [] {
      AppendRootExact(log, d, extra[0]);
      var next := AppendRootSpec(d, extra[0]);
      ExtraDownExact(log, next.0, extra[1..], Sibling(next.1));
    }
  }

  lemma {:induction false} AdditionalExact(log: seq<Block>, d: Draft, extra: seq<Node>)
    requires ExactDraft(log, d) && AllExact(log, extra) && Additional(d, extra).Ok?
    ensures ExactDraft(log, Additional(d, extra).value)
  {
    var it := Last(d.roots).pos;
    var up := ExtraUp(d, extra, it);
    ExtraUpExact(log, d, extra, it);
    ExtraDownExact(log, up.0, up.1, up.2);
  }

  lemma {:induction false} UpgradeExact(log: seq<Block>, d: Draft, u: DataUpgrade, root: Option<Node>)
    requires ExactDraft(log, d) && ExactQueue(log, Queue(u.nodes, root)) && AllExact(log, u.additionalNodes)
    requires UpgradeSpec(d, u, root).Ok?
    ensures ExactDraft(log, UpgradeSpec(d, u, root).value.0)
  {
    var q, b := Queue(u.nodes, root), u.start + u.length;
    UpgradeRootsExact(log, d, q, 0, d.roots != [], 0, b);
    AdditionalExact(log, RootsPhase(d, q, b).value.0, u.additionalNodes);
  }

  // ---------------------------------------------------------------- anchored proofs

  function PosSeq(nodes: seq<Node>): seq<Pos> {
    seq(|nodes|, i requires 0 <= i < |nodes| => nodes[i].pos)
  }

  /** Where roots merge depends on positions alone. */
  lemma {:induction false} AttachPositions(a: seq<Node>, b: seq<Node>)
    requires a != [] && PosSeq(a) == PosSeq(b)
    ensures b != [] && PosSeq(Attach(a).roots) == PosSeq(Attach(b).roots)
    decreases |a|
  {
    SamePositions(a, b);
    if Mergeable(a) {
      AttachPositions(MergeOnce(a), MergeOnce(b));
    }
  }

  lemma {:induction false} SamePositions(a: seq<Node>, b: seq<Node>)
    requires a != [] && PosSeq(a) == PosSeq(b)
    ensures |a| == |b| && (Mergeable(a) <==> Mergeable(b))
    ensures Mergeable(a) ==> PosSeq(MergeOnce(a)) == PosSeq(MergeOnce(b))
  {
    assert |a| == |PosSeq(a)| == |PosSeq(b)| == |b|;
    assert forall i :: 0 <= i < |a| ==> a[i].pos == PosSeq(a)[i] == PosSeq(b)[i] == b[i].pos;
  }

  /** A subtree attached where the roots of `n` blocks end gives the roots of its end. */
  lemma {:induction false} AppendRootPositions(d: Draft, node: Node, n: nat)
    requires PosSeq(d.roots) == Roots(n) && Lo(node.pos) == n
    ensures var r := AppendRootSpec(d, node); PosSeq(r.0.roots) == Roots(Hi(node.pos)) && r.1 == LastRoot(Hi(node.pos))
  {
    var rs, hs := d.roots + [node], NodesAt([], Roots(n) + [node.pos]);
    assert PosSeq(rs) == Roots(n) + [node.pos] == PosSeq(hs);
    AttachPositions(rs, hs);
    AttachHonest([], node.pos);
    assert PosSeq(NodesAt([], Roots(Hi(node.pos)))) == Roots(Hi(node.pos));
    ParentSpan(node.pos);
    LastOf(Attach(rs).roots, Hi(node.pos));
  }

  lemma {:induction false} LastOf(roots: seq<Node>, n: nat)
    requires roots != [] && n > 0 && PosSeq(roots) == Roots(n)
    ensures Last(roots).pos == LastRoot(n)
  {
    assert PosSeq(roots)[|roots| - 1] == Last(roots).pos;
  }

  lemma {:induction false} ParentEitherWay(a: Node, b: Node)
    requires b.pos == Sibling(a.pos)
    ensures ParentNode(Parent(a.pos), a, b) == ParentNode(Parent(b.pos), b, a)
  {
    ParentOf(a.pos);
    ChildOrder(Parent(a.pos));
  }

  /** A node next to an exact last root is exact if the roots after merging have the writer's hashes. */
  lemma {:induction false} AppendAnchored(log: seq<Block>, d: Draft, node: Node)
    requires ExactDraft(log, d) && d.roots != [] && node.pos == Sibling(Last(d.roots).pos)
    requires AllGood(log, AppendRootSpec(d, node).0.roots)
    ensures ExactDraft(log, AppendRootSpec(d, node).0)
  {
    var rs, last := d.roots + [node], Last(d.roots);
    AttachGood(log, rs);
    assert rs[|rs| - 2] == last && Last(rs) == node && Mergeable(rs);
    assert MergedParent(rs) == Attach(rs).added[0];
    ParentEitherWay(last, node);
    SiblingExact(log, last, node);
    AppendRootExact(log, d, node);
  }

  /** Growth: every sibling taken is anchored by the exact root it grows. */
  lemma {:induction false} GrowAnchored(log: seq<Block>, d: Draft, q: Queue, n: nat, target: Pos)
    requires ExactDraft(log, d) && n > 0 && PosSeq(d.roots) == Roots(n)
    requires Grow(d, q, LastRoot(n), target).Ok? && AllGood(log, Grow(d, q, LastRoot(n), target).value.0.roots)
    ensures var r := Grow(d, q, LastRoot(n), target).value;
            ExactDraft(log, r.0) && PosSeq(r.0.roots) == Roots(Hi(target))
    decreases Size(q)
  {
    var it := LastRoot(n);
    if it != target {
      var s := Shift(q, Sibling(it)).value;
      var next := AppendRootSpec(d, s.0);
      ParentSpan(it);
      RootsNonEmpty(n);
      assert d.roots != [];
      LastOf(d.roots, n);
      AppendRootPositions(d, s.0, n);
      GrowVouches(log, next.0, s.1, next.1, target);
      AppendAnchored(log, d, s.0);
      GrowAnchored(log, next.0, s.1, Hi(Sibling(it)), target);
    }
  }

  lemma {:induction false} RootsNonEmpty(n: nat)
    requires n > 0
    ensures |Roots(n)| > 0
  {
    RootsStart(n);
  }

  /** A full root of `b` attached after the roots before it merges with none of them. */
  lemma {:induction false} TakenStays(d: Draft, node: Node, b: nat, j: nat)
    requires j < |Roots(b)| && node.pos == Roots(b)[j] && PosSeq(d.roots) == Roots(Lo(node.pos))
    ensures var r := AppendRootSpec(d, node);
            r.0.roots == d.roots + [node] && r.0.nodes == d.nodes + [node] && r.1 == node.pos
  {
    var s := Lo(node.pos);
    RootsSpan(b, j);
    ParentSpan(node.pos);
    var rs := d.roots + [node];
    if |rs| > 1 {
      var k := |d.roots| - 1;
      assert PosSeq(d.roots)[k] == d.roots[k].pos == Roots(s)[k];
      RootsSpan(s, k);
      ParentSpan(Sibling(node.pos));
      ParentSpan(d.roots[k].pos);
    }
    assert !Mergeable(rs);
    assert d.nodes + [node] + [] == d.nodes + [node];
  }

  lemma {:induction false} NextFullRoot(b: nat, j: nat)
    requires j < |Roots(b)|
    ensures Boundary(b, j) < b && FullRoot(Boundary(b, j), b) == Roots(b)[j] && Hi(Roots(b)[j]) == Boundary(b, j + 1)
  {
    RootsSpan(b, j);
    RootsMaximal(b, j);
    FullRootIs(Roots(b)[j], b);
    RootsAdjacent(b, j);
    ParentSpan(Roots(b)[j]);
  }

  /** The roots have only grown, by the nodes that were added. */
  ghost predicate Gained(d: Draft, r: Draft) {
    |d.roots| <= |r.roots| && r.roots[..|d.roots|] == d.roots && r.nodes == d.nodes + r.roots[|d.roots|..]
  }

  /** New full roots stay roots: what is taken is what the roots have gained. */
  lemma {:induction false} RootsTaken(d: Draft, q: Queue, i: nat, grow: bool, b: nat, j: nat)
    requires j <= |Roots(b)| && PosSeq(d.roots) == Roots(Boundary(b, j)) && (!grow || i >= |d.roots|)
    requires UpgradeRoots(d, q, i, grow, Boundary(b, j), b).Ok?
    ensures Gained(d, UpgradeRoots(d, q, i, grow, Boundary(b, j), b).value.0)
    decreases |Roots(b)| - j
  {
    var s := Boundary(b, j);
    if j == |Roots(b)| {
      assert d.nodes + [] == d.nodes;
    } else {
      NextFullRoot(b, j);
      if i < |d.roots| {
        NotAmong(d.roots, s, Roots(b)[j], i);
      }
      TakeUnfolds(d, q, i, grow, s, b);
      var x := Shift(q, Roots(b)[j]).value;
      TakenStays(d, x.0, b, j);
      var next := AppendRootSpec(d, x.0).0;
      AppendRootPositions(d, x.0, s);
      RootsTaken(next, x.1, i, false, b, j + 1);
      TakenOne(d, x.0, next, UpgradeRoots(next, x.1, i, false, Boundary(b, j + 1), b).value.0);
    }
  }

  /** One step of the walk that takes a new root. */
  lemma {:induction false} TakeUnfolds(d: Draft, q: Queue, i: nat, grow: bool, s: nat, b: nat)
    requires s < b && (i < |d.roots| ==> d.roots[i].pos != FullRoot(s, b) && !grow)
             && UpgradeRoots(d, q, i, grow, s, b).Ok?
    ensures Shift(q, FullRoot(s, b)).Ok?
    ensures var x := Shift(q, FullRoot(s, b)).value;
            var next := AppendRootSpec(d, x.0);
            UpgradeRoots(d, q, i, grow, s, b) == UpgradeRoots(next.0, x.1, i, false, Hi(next.1), b)
  {
  }

  lemma {:induction false} TakenOne(d: Draft, x: Node, next: Draft, r: Draft)
    requires next.roots == d.roots + [x] && next.nodes == d.nodes + [x] && Gained(next, r)
    ensures Gained(d, r)
  {
    assert r.roots[..|d.roots|] == r.roots[..|d.roots| + 1][..|d.roots|];
    assert r.roots[|d.roots|] == r.roots[..|d.roots| + 1][|d.roots|] == x;
    assert r.roots[|d.roots|..] == [x] + r.roots[|d.roots| + 1..];
  }

  lemma {:induction false} NotAmong(roots: seq<Node>, s: nat, p: Pos, i: nat)
    requires PosSeq(roots) == Roots(s) && Lo(p) == s && i < |roots|
    ensures roots[i].pos != p
  {
    assert PosSeq(roots)[i] == roots[i].pos;
    RootsSpan(s, i);
    ParentSpan(p);
  }

  lemma {:induction false} SharedThenGrown(log: seq<Block>, d: Draft, q: Queue, i: nat, m: nat, b: nat)
    requires ExactDraft(log, d) && PosSeq(d.roots) == Roots(m)
    requires i <= |Roots(m)| && i <= |Roots(b)| && Boundary(m, i) == Boundary(b, i)
    requires UpgradeRoots(d, q, i, d.roots != [], Boundary(b, i), b).Ok?
    requires var r := UpgradeRoots(d, q, i, d.roots != [], Boundary(b, i), b).value.0;
             AllExact(log, r.roots) && AllGood(log, r.roots)
    ensures AllExact(log, UpgradeRoots(d, q, i, d.roots != [], Boundary(b, i), b).value.0.nodes)
    decreases |Roots(m)| - i
  {
    var s := Boundary(b, i);
    assert |d.roots| == |PosSeq(d.roots)|;
    if i < |Roots(b)| {
      NextFullRoot(b, i);
    }
    if i < |Roots(b)| && i < |d.roots| {
      var r := Roots(b)[i];
      assert d.roots[i].pos == PosSeq(d.roots)[i];
      if d.roots[i].pos == r {
        RootsAdjacent(m, i);
        SharedThenGrown(log, d, q, i + 1, m, b);
      } else {
        GrownThenTaken(log, d, q, i, m, b);
      }
    } else if i == |d.roots| {
      TakenFrom(log, d, q, i, d.roots != [], b, i);
    }
  }

  lemma {:induction false} TakenFrom(log: seq<Block>, d: Draft, q: Queue, i: nat, grow: bool, b: nat, j: nat)
    requires AllExact(log, d.nodes) && j <= |Roots(b)| && PosSeq(d.roots) == Roots(Boundary(b, j))
             && (!grow || i >= |d.roots|)
    requires UpgradeRoots(d, q, i, grow, Boundary(b, j), b).Ok?
    requires AllExact(log, UpgradeRoots(d, q, i, grow, Boundary(b, j), b).value.0.roots)
    ensures AllExact(log, UpgradeRoots(d, q, i, grow, Boundary(b, j), b).value.0.nodes)
  {
    RootsTaken(d, q, i, grow, b, j);
  }

  lemma {:induction false} GrownThenTaken(log: seq<Block>, d: Draft, q: Queue, i: nat, m: nat, b: nat)
    requires ExactDraft(log, d) && PosSeq(d.roots) == Roots(m) && i < |d.roots| && i < |Roots(b)|
    requires d.roots[i].pos != Roots(b)[i]
    requires UpgradeRoots(d, q, i, true, Boundary(b, i), b).Ok?
    requires var r := UpgradeRoots(d, q, i, true, Boundary(b, i), b).value.0;
             AllExact(log, r.roots) && AllGood(log, r.roots)
    ensures AllExact(log, UpgradeRoots(d, q, i, true, Boundary(b, i), b).value.0.nodes)
  {
    NextFullRoot(b, i);
    var r := Roots(b)[i];
    RootsOfSome(d.roots, m);
    LastOf(d.roots, m);
    var g := Grow(d, q, LastRoot(m), r).value;
    UpgradeRootsVouches(log, g.0, g.1, i, false, Hi(r), b);
    GrowAnchored(log, d, q, m, r);
    TakenFrom(log, g.0, g.1, i, false, b, i + 1);
  }

  lemma {:induction false} RootsOfSome(roots: seq<Node>, n: nat)
    requires roots != [] && PosSeq(roots) == Roots(n)
    ensures n > 0
  {
    assert |PosSeq(roots)| == |roots|;
    assert n == 0 ==> Roots(n) == [];
  }

  /** An upgrade without additional nodes, once its final roots are the writer's. */
  lemma {:induction false} UpgradeAnchored(log: seq<Block>, d: Draft, u: DataUpgrade, root: Option<Node>)
    requires ExactDraft(log, d) && d.roots == NodesAt(log, Roots(d.length)) && u.additionalNodes == []
    requires UpgradeSpec(d, u, root).Ok?
    requires var r := UpgradeSpec(d, u, root).value.0; AllExact(log, r.roots) && AllGood(log, r.roots)
    ensures AllExact(log, UpgradeSpec(d, u, root).value.0.nodes)
  {
    var b, q := u.start + u.length, Queue(u.nodes, root);
    assert PosSeq(d.roots) == Roots(d.length);
    RootsStart(d.length);
    RootsStart(b);
    SharedThenGrown(log, d, q, 0, d.length, b);
  }

  /**
   What a receiver can check: no seek, a block instead of a bare hash, and no additional nodes. Every node
   is then anchored, by the block's bytes, by a root the tree has, or by the signature over the new roots.
   */
  predicate Anchored(proof: Proof) {
    && proof.seek.None? && (proof.block.Some? || proof.hash.None?)
    && (proof.upgrade.Some? ==> proof.upgrade.value.additionalNodes == [])
  }

  lemma {:induction false} BlockRootIsGood(log: seq<Block>, t: Tree, proof: Proof, signed: set<Signable>)
    requires Trusted(log, t) && SignedOnly(signed, log) && VerifyProofSpec(t, proof, signed).Ok?
    ensures var root := VerifyTreeSpec(proof.block, proof.hash, proof.seek).value.0;
            root.Some? ==> Good(log, root.value)
  {
    var root, d0, d, extra := AcceptedSteps(t, proof, signed);
    if proof.upgrade.Some? {
      UpgradeIsGood(log, d0, proof.upgrade.value, root, signed, proof.fork);
    }
  }

  lemma {:induction false} BlockPathExact(log: seq<Block>, t: Tree, proof: Proof, signed: set<Signable>)
    requires Trusted(log, t) && SignedOnly(signed, log) && VerifyProofSpec(t, proof, signed).Ok? && Anchored(proof)
    ensures AllExact(log, VerifyTreeSpec(proof.block, proof.hash, proof.seek).value.1)
  {
    if proof.block.Some? {
      BlockRootIsGood(log, t, proof, signed);
      AcceptedIsGood(log, t, proof, signed);
      var block := proof.block.value;
      var node := BlockNode(Leaf(block.index), block.value);
      assert node == NodeAt(log, Leaf(block.index));
      assert [] + [node] == [node];
      AnchoredClimb(log, Queue(block.nodes, None), node, [node]);
    }
  }

  /** An accepted proof that is anchored brings exact nodes only, however it was made. */
  lemma {:induction false} AnchoredProofIsExact(log: seq<Block>, t: Tree, proof: Proof, signed: set<Signable>)
    requires Trusted(log, t) && SignedOnly(signed, log) && VerifyProofSpec(t, proof, signed).Ok? && Anchored(proof)
    ensures AllExact(log, VerifyProofSpec(t, proof, signed).value.nodes)
  {
    var root, d0, d, extra := AcceptedSteps(t, proof, signed);
    BlockPathExact(log, t, proof, signed);
    AcceptedIsGood(log, t, proof, signed);
    if proof.upgrade.Some? {
      AnchoredSteps(log, d0, proof.upgrade.value, root, d);
    }
  }

  lemma {:induction false} AnchoredSteps(log: seq<Block>, d0: Draft, u: DataUpgrade, root: Option<Node>, d: Draft)
    requires AllExact(log, d0.nodes) && d0.roots == NodesAt(log, Roots(d0.length)) && u.additionalNodes == []
    requires UpgradeSpec(d0, u, root).Ok? && UpgradeSpec(d0, u, root).value.0 == d
    requires d.length <= |log| && d.roots == NodesAt(log, Roots(d.length))
    ensures AllExact(log, d.nodes)
  {
    FinalRoots(log, d);
    UpgradeAnchored(log, d0, u, root);
  }

  lemma {:induction false} FinalRoots(log: seq<Block>, d: Draft)
    requires d.length <= |log| && d.roots == NodesAt(log, Roots(d.length))
    ensures AllExact(log, d.roots) && AllGood(log, d.roots)
  {
    RootsGood(log, d.length);
  }

  // ---------------------------------------------------------------- exact messages

  lemma {:induction false} ClimbExact(log: seq<Block>, q: Queue, cur: Node, acc: seq<Node>)
    requires ExactQueue(log, q) && cur == NodeAt(log, cur.pos) && AllExact(log, acc) && Climb(q, cur, acc).Ok?
    ensures var r := Climb(q, cur, acc).value; r.0 == NodeAt(log, r.0.pos) && AllExact(log, r.1)
    decreases Size(q)
  {
    if Size(q) != 0 {
      var s := Shift(q, Sibling(cur.pos)).value;
      ShiftExact(log, q, Sibling(cur.pos));
      ParentOfSiblings(log, cur.pos);
      ClimbExact(log, s.1, ParentNode(Parent(cur.pos), cur, s.0), acc + [s.0, ParentNode(Parent(cur.pos), cur, s.0)]);
    }
  }

  lemma {:induction false} ClimbFromExact(log: seq<Block>, q: Queue, p: Pos, value: Option<Block>, acc: seq<Node>)
    requires ExactQueue(log, q) && AllExact(log, acc) && ClimbFrom(q, p, value, acc).Ok?
    requires value.Some? ==> BlockNode(p, value.value) == NodeAt(log, p)
    ensures var r := ClimbFrom(q, p, value, acc).value; r.0 == NodeAt(log, r.0.pos) && AllExact(log, r.1)
  {
    if value.Some? {
      ClimbExact(log, q, BlockNode(p, value.value), acc + [BlockNode(p, value.value)]);
    } else {
      var s := Shift(q, p).value;
      ShiftExact(log, q, p);
      ClimbExact(log, s.1, s.0, acc + [s.0]);
    }
  }

  /** Every node and the block in the message are the writer's. */
  ghost predicate ExactMessage(log: seq<Block>, proof: Proof) {
    && (proof.block.Some? ==>
          var leaf := Leaf(proof.block.value.index);
          BlockNode(leaf, proof.block.value.value) == NodeAt(log, leaf) && AllExact(log, proof.block.value.nodes))
    && (proof.hash.Some? ==> AllExact(log, proof.hash.value.nodes))
    && (proof.seek.Some? ==> AllExact(log, proof.seek.value.nodes))
    && (proof.upgrade.Some? ==> AllExact(log, proof.upgrade.value.nodes) && AllExact(log, proof.upgrade.value.additionalNodes))
  }

  lemma {:induction false} TreePartExact(log: seq<Block>, proof: Proof)
    requires ExactMessage(log, proof) && VerifyTreeSpec(proof.block, proof.hash, proof.seek).Ok?
    ensures var r := VerifyTreeSpec(proof.block, proof.hash, proof.seek).value;
            AllExact(log, r.1) && (r.0.Some? ==> r.0.value == NodeAt(log, r.0.value.pos))
  {
    var s := SeekRoot(proof.seek).value;
    if s.0.Some? {
      ClimbFromExact(log, Queue(proof.seek.value.nodes, None), proof.seek.value.nodes[0].pos, None, []);
    }
    var u := NormalizeData(proof.block, proof.hash);
    if u.Some? {
      ClimbFromExact(log, Queue(u.value.nodes, s.0), u.value.pos, u.value.value, s.1);
    }
  }

  /** A message with exact nodes leads to exact nodes only: every parent computed from them is the writer's. */
  lemma {:induction false} ExactMessageIsExact(log: seq<Block>, t: Tree, proof: Proof, signed: set<Signable>)
    requires Trusted(log, t) && VerifyProofSpec(t, proof, signed).Ok? && ExactMessage(log, proof)
    ensures AllExact(log, VerifyProofSpec(t, proof, signed).value.nodes)
  {
    var root, d0, d, extra := AcceptedSteps(t, proof, signed);
    TreePartExact(log, proof);
    if proof.upgrade.Some? {
      UpgradeExact(log, d0, proof.upgrade.value, root);
    }
  }

  // ---------------------------------------------------------------- a message that shifts lengths

  /** An upgrade to two blocks, one byte too many on the first leaf and one too few on the second. */
  function ShiftedLeaves(log: seq<Block>): (Node, Node)
    requires |log| == 2 && log[1] != []
  {
    (Node(Leaf(0), LeafHash(log[0]), |log[0]| + 1), Node(Leaf(1), LeafHash(log[1]), |log[1]| - 1))
  }

  function ShiftedProof(log: seq<Block>): Proof
    requires |log| == 2 && log[1] != []
  {
    var (a, b) := ShiftedLeaves(log);
    Proof(0, None, None, None, Some(DataUpgrade(0, 1, [a], [b], Some(Signature(WriterSignable(log, 2, 0))))))
  }

  lemma {:induction false} FirstLeaf(a: Node)
    requires a.pos == Leaf(0)
    ensures RootsPhase(Draft(0, 0, false, [], []), Queue([a], None), 1)
            == Ok((Draft(1, a.length, true, [a], [a]), Queue([], None)))
  {
    var d0, d1 := Draft(0, 0, false, [], []), Draft(1, a.length, true, [a], [a]);
    FullRootIs(Leaf(0), 1);
    assert d0.roots + [a] == [a] && d0.nodes + [a] + [] == [a];
    assert AppendRootSpec(d0, a) == (d1, Leaf(0));
    assert UpgradeRoots(d1, Queue([], None), 0, false, 1, 1) == Ok((d1, Queue([], None)));
  }

  lemma {:induction false} SecondLeaf(a: Node, b: Node)
    requires a.pos == Leaf(0) && b.pos == Leaf(1)
    ensures var p := ParentNode(Pos(1, 0), b, a);
            Additional(Draft(1, a.length, true, [a], [a]), [b]) == Ok(Draft(2, a.length + b.length, true, [p], [a, b, p]))
  {
    var p := ParentNode(Pos(1, 0), b, a);
    var d1 := Draft(1, a.length, true, [a], [a]);
    var d2 := Draft(2, a.length + b.length, true, [p], [a, b, p]);
    var rs := [a] + [b];
    assert rs == [a, b] && rs[..0] + [p] == [p];
    assert Mergeable(rs) && MergeOnce(rs) == [p] && !Mergeable([p]);
    assert Attach(rs) == Attached([p], [p], Pos(1, 0));
    assert [a] + [b] + [p] == [a, b, p] && Pow2(0) == 1;
    assert AppendRootSpec(d1, b) == (d2, Pos(1, 0));
    assert [b][1..] == [];
    assert ExtraUp(d2, [], Pos(1, 0)) == (d2, [], Pos(1, 0));
    assert ExtraUp(d1, [b], Leaf(0)) == (d2, [], Pos(1, 0));
  }

  /** Additional nodes are not anchored: this proof is accepted by an empty replica. */
  lemma {:induction false} LengthsAreNotBound(log: seq<Block>)
    requires |log| == 2 && log[1] != []
    ensures var t, signed := Tree(0, 0, 0, [], map[]), {WriterSignable(log, 2, 0)};
            var r := VerifyProofSpec(t, ShiftedProof(log), signed);
            Trusted(log, t) && SignedOnly(signed, log) && r.Ok? && !AllExact(log, r.value.nodes)
  {
    var a, b := ShiftedLeaves(log).0, ShiftedLeaves(log).1;
    var p := ParentNode(Pos(1, 0), b, a);
    EmptyTreeIsTrusted(log, 0);
    ShiftedSum(log);
    FirstLeaf(a);
    SecondLeaf(a, b);
    var d := Draft(2, a.length + b.length, true, [p], [a, b, p]);
    VerifyInSteps(Tree(0, 0, 0, [], map[]), ShiftedProof(log), {WriterSignable(log, 2, 0)}, None,
                  Draft(0, 0, false, [], []), d,
                  Queue([], None));
    assert d.nodes[0] in d.nodes && a != NodeAt(log, a.pos);
  }

  /** A replica of two blocks that knows only their common root. */
  function RootOnly(log: seq<Block>): Tree {
    var root := NodeAt(log, Pos(1, 0));
    Tree(2, root.length, 0, [root], map[root.pos := root])
  }

  lemma {:induction false} RootOnlyIsTrusted(log: seq<Block>)
    requires |log| == 2
    ensures Trusted(log, RootOnly(log))
  {
    var root := NodeAt(log, Pos(1, 0));
    assert Roots(1) == [Leaf(0)];
    assert Roots(2) == [Pos(1, 0)];
    assert [root] == NodesAt(log, Roots(2));
    TotalLengthSnoc([], root);
    assert [] + [root] == [root];
    assert Positions([root]) == {root.pos};
    assert Hi(Pos(1, 0)) == Hi(Leaf(1)) == 2;
  }

  lemma {:induction false} TwoLeavesClimb(a: Node, b: Node)
    requires a.pos == Leaf(0) && b.pos == Leaf(1)
    ensures var p := ParentNode(Pos(1, 0), a, b);
            ClimbFrom(Queue([a, b], None), Leaf(0), None, []) == Ok((p, [a, b, p]))
  {
    var p := ParentNode(Pos(1, 0), a, b);
    assert [a, b][1..] == [b] && [b][1..] == [] && [] + [a] == [a] && [a] + [b, p] == [a, b, p];
    assert Climb(Queue([], None), p, [a, b, p]) == Ok((p, [a, b, p]));
    assert Climb(Queue([b], None), a, [a]) == Ok((p, [a, b, p]));
  }

  /** Nor is a bare hash. */
  lemma {:induction false} HashIsNotBound(log: seq<Block>)
    requires |log| == 2 && log[1] != []
    ensures var a, b := ShiftedLeaves(log).0, ShiftedLeaves(log).1;
            var r := VerifyProofSpec(RootOnly(log), Proof(0, None, Some(DataHash(Leaf(0), [a, b])), None, None), {});
            Trusted(log, RootOnly(log)) && SignedOnly({}, log) && r.Ok? && !AllExact(log, r.value.nodes)
  {
    RootOnlyIsTrusted(log);
    ShiftedClimb(log);
  }

  /** Nor is a seek. */
  lemma {:induction false} SeekIsNotBound(log: seq<Block>)
    requires |log| == 2 && log[1] != []
    ensures var a, b := ShiftedLeaves(log).0, ShiftedLeaves(log).1;
            var r := VerifyProofSpec(RootOnly(log), Proof(0, None, None, Some(DataSeek(1, [a, b])), None), {});
            Trusted(log, RootOnly(log)) && SignedOnly({}, log) && r.Ok? && !AllExact(log, r.value.nodes)
  {
    RootOnlyIsTrusted(log);
    ShiftedClimb(log);
  }

  /** The shifted leaves climb to the root that the replica knows. */
  lemma {:induction false} ShiftedClimb(log: seq<Block>)
    requires |log| == 2 && log[1] != []
    ensures var a, b := ShiftedLeaves(log).0, ShiftedLeaves(log).1;
            var nodes := [a, b, NodeAt(log, Pos(1, 0))];
            ClimbFrom(Queue([a, b], None), Leaf(0), None, []) == Ok((NodeAt(log, Pos(1, 0)), nodes))
            && !AllExact(log, nodes)
  {
    var a, b := ShiftedLeaves(log).0, ShiftedLeaves(log).1;
    TwoLeavesClimb(a, b);
    ShiftedParent(log);
    FirstIsInexact(log, [a, b, NodeAt(log, Pos(1, 0))]);
  }

  lemma {:induction false} FirstIsInexact(log: seq<Block>, nodes: seq<Node>)
    requires |log| == 2 && log[1] != [] && nodes != [] && nodes[0] == ShiftedLeaves(log).0
    ensures !AllExact(log, nodes)
  {
    assert nodes[0] in nodes && nodes[0] != NodeAt(log, nodes[0].pos);
  }

  /** The two shifts cancel in the parent. */
  lemma {:induction false} ShiftedParent(log: seq<Block>)
    requires |log| == 2 && log[1] != []
    ensures ParentNode(Pos(1, 0), ShiftedLeaves(log).1, ShiftedLeaves(log).0) == NodeAt(log, Pos(1, 0))
    ensures ParentNode(Pos(1, 0), ShiftedLeaves(log).0, ShiftedLeaves(log).1) == NodeAt(log, Pos(1, 0))
  {
    assert LeftChild(Pos(1, 0)) == Leaf(0) && RightChild(Pos(1, 0)) == Leaf(1);
    ChildOrder(Pos(1, 0));
  }

  lemma {:induction false} ShiftedSum(log: seq<Block>)
    requires |log| == 2 && log[1] != []
    ensures [ParentNode(Pos(1, 0), ShiftedLeaves(log).1, ShiftedLeaves(log).0)] == NodesAt(log, Roots(2))
  {
    ShiftedParent(log);
    assert Roots(1) == [Leaf(0)];
    assert Roots(2) == [Pos(1, 0)];
  }
}
