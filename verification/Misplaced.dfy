/** Accepted proofs whose block is looked for in the wrong place (src/tree/merkle_tree.rs, byte_offset_in_changeset). */
module Misplaced {
  import opened Common
  import opened FlatTree
  import opened Hashes
  import opened Changesets
  import opened Verify
  import opened Soundness
  import opened Lengths
  import opened Prover
  import opened Completeness
  import opened Accumulator
  import opened Offsets
  import opened CoreState
  import opened ReplicaState
  import opened Replication

  /** All nodes of the first `n` blocks. */
  function PrefixView(log: seq<Block>, n: nat): View {
    AddNodes(map[], NodesAt(log, Emitted(0, n)))
  }

  /** A replica that has all nodes of the first `n` blocks. */
  function PrefixOf(log: seq<Block>, n: nat): Tree {
    Tree(n, ByteStart(log, n), 0, NodesAt(log, Roots(n)), PrefixView(log, n))
  }

  lemma {:induction false} PrefixIsHonest(log: seq<Block>, n: nat)
    requires n <= |log|
    ensures Honest(log, PrefixOf(log, n)) && Full(PrefixView(log, n), log, n)
  {
    EmittedAdded(log, map[], 0, n);
    forall p: Pos
      ensures Hi(p) > 0
    {
      ParentSpan(p);
    }
    PrefixIsTrusted(log, n, PrefixOf(log, n));
  }

  /**
   The writer's answer to a replica of `m` blocks that upgrades to all blocks and asks for block `i` of the new ones.
   */
  function AnswerTo(log: seq<Block>, m: nat, i: nat): Proof
    requires m <= i < |log|
  {
    ArrivingProof(log, m, |log|, 0, Some(RequestBlock(i, 0)), Some(RequestUpgrade(m, |log| - m)))
  }

  function SignedBy(log: seq<Block>): set<Signable> {
    {WriterSignable(log, |log|, 0)}
  }

  /** The answer is accepted, and its changeset is exact. */
  lemma {:induction false} AnswerAccepted(log: seq<Block>, m: nat, i: nat)
    requires m <= i < |log|
    ensures var t := PrefixOf(log, m);
            var r := VerifyProofSpec(t, AnswerTo(log, m, i), SignedBy(log));
            r.Ok? && r.value.length == |log| && ExactChangeset(log, t, r.value.nodes, r.value.roots, i, |log|)
  {
    var t, proof := PrefixOf(log, m), AnswerTo(log, m, i);
    PrefixIsHonest(log, m);
    PrefixIsHonest(log, |log|);
    var block, upgrade := Some(RequestBlock(i, 0)), Some(RequestUpgrade(m, |log| - m));
    SentBrings(log, PrefixOf(log, |log|), t, SignedBy(log), block, upgrade);
    AcceptedIsExactChangeset(log, t, proof, SignedBy(log), VerifyProofSpec(t, proof, SignedBy(log)).value);
  }

  /** It is what the writer's prover gives to such a request. */
  lemma {:induction false} WriterSendsThis(log: seq<Block>, m: nat, p: Tree, block: Option<RequestBlock>,
                                           upgrade: Option<RequestUpgrade>)
    requires p == PrefixOf(log, |log|) && block.Some? && m <= block.value.index < |log| && block.value.nodes == 0
    requires upgrade == Some(RequestUpgrade(m, |log| - m))
    ensures var sent := ProofSpec(p.view, p.length, p.fork, WriterSignature(log, p.length, p.fork), block, upgrade);
            sent.Ok? && AnswerWith(log, sent.value, block) == AnswerTo(log, m, block.value.index)
  {
    PrefixIsHonest(log, m);
    PrefixIsHonest(log, |log|);
    WriterSends(log, p, PrefixOf(log, m), block, upgrade);
  }

  /** Where applying this answer puts the block. */
  function PlaceOfAnswer(log: seq<Block>, m: nat, i: nat): Result<nat>
    requires m <= i < |log| && VerifyProofSpec(PrefixOf(log, m), AnswerTo(log, m, i), SignedBy(log)).Ok?
  {
    var d := VerifyProofSpec(PrefixOf(log, m), AnswerTo(log, m, i), SignedBy(log)).value;
    PlaceIn(PrefixOf(log, m), i, d.nodes, d.roots)
  }

  lemma {:induction false} AnswerIsFound(log: seq<Block>, m: nat, i: nat)
    requires m < i < |log|
    ensures VerifyProofSpec(PrefixOf(log, m), AnswerTo(log, m, i), SignedBy(log)).Ok?
    ensures Found(log, PrefixOf(log, m), NodesAt(log, Roots(|log|)), i, PlaceOfAnswer(log, m, i))
  {
    AnswerAccepted(log, m, i);
    var d := VerifyProofSpec(PrefixOf(log, m), AnswerTo(log, m, i), SignedBy(log)).value;
    PlaceIsFound(log, PrefixOf(log, m), d.nodes, d.roots, i, d.length);
  }

  lemma {:induction false} OneByteStarts(log: seq<Block>, i: nat)
    requires i <= |log| && forall k :: 0 <= k < |log| ==> |log[k]| == 1
    ensures ByteStart(log, i) == i
  {
    if i > 0 {
      OneByteStarts(log, i - 1);
    }
  }

  lemma {:induction false} RootsOfSix()
    ensures Roots(3) == [Pos(1, 0), Leaf(2)] && Roots(6) == [Pos(2, 0), Pos(1, 2)]
  {
    assert Roots(1) == [Leaf(0)];
    assert Roots(3) == [Pos(1, 0), Leaf(2)];
  }

  lemma {:induction false} BytesOfSix(log: seq<Block>)
    requires |log| == 6 && forall k :: 0 <= k < |log| ==> |log[k]| == 1
    ensures ByteStart(log, 4) == 4 && ByteStart(log, 2) == 2
    ensures TotalLength(NodesAt(log, Roots(6))[..1]) == 4 && TotalLength(NodesAt(log, Roots(3))[..1]) == 2
  {
    RootsOfSix();
    OneByteStarts(log, 4);
    OneByteStarts(log, 2);
    RootsBytes(log, 6, 1);
    RootsBytes(log, 3, 1);
    assert Lo(Pos(1, 2)) == Lo(Leaf(4)) == 4 && Lo(Leaf(2)) == 2;
  }

  lemma {:induction false} FoundForSix(log: seq<Block>, t: Tree, r: Result<nat>)
    requires |log| == 6 && forall k :: 0 <= k < |log| ==> |log[k]| == 1
    requires t.roots == NodesAt(log, Roots(3)) && Found(log, t, NodesAt(log, Roots(6)), 4, r)
    ensures r == Ok(2)
  {
    BytesOfSix(log);
    RootsOfSix();
    var roots := NodesAt(log, Roots(6));
    assert Lo(Pos(1, 2)) == Lo(Leaf(4)) && Hi(Pos(1, 2)) == Hi(Leaf(5));
    assert HasLeaf(roots[1].pos, 4) && FoundUnder(log, t, roots, 4, 1, r);
  }

  lemma {:induction false} FoundForThree(log: seq<Block>, t: Tree, r: Result<nat>)
    requires |log| == 3 && t.roots == [] && Found(log, t, NodesAt(log, Roots(3)), 2, r)
    ensures r == Err(Panic)
  {
    RootsOfSix();
    var roots := NodesAt(log, Roots(3));
    assert HasLeaf(roots[1].pos, 2) && FoundUnder(log, t, roots, 2, 1, r);
  }

  /**
   A replica of three one-byte blocks upgrades to six and asks for block 4. The answer is accepted and nothing fails,
   but the block, which belongs at byte 4, is put at byte 2, over block 2.
   */
  lemma {:induction false} BlockOverwritten(log: seq<Block>)
    requires |log| == 6 && forall k :: 0 <= k < |log| ==> |log[k]| == 1
    ensures VerifyProofSpec(PrefixOf(log, 3), AnswerTo(log, 3, 4), SignedBy(log)).Ok?
            && PlaceOfAnswer(log, 3, 4) == Ok(2)
    ensures ByteStart(log, 4) == 4 && ByteStart(log, 2) == 2
  {
    AnswerIsFound(log, 3, 4);
    BytesOfSix(log);
    FoundForSix(log, PrefixOf(log, 3), PlaceOfAnswer(log, 3, 4));
  }

  /** An empty replica that gets the last of three blocks with the upgrade: the lookup reads past the tree's roots. */
  lemma {:induction false} LastOfThreeBlocks(log: seq<Block>)
    requires |log| == 3
    ensures VerifyProofSpec(PrefixOf(log, 0), AnswerTo(log, 0, 2), SignedBy(log)).Ok?
            && PlaceOfAnswer(log, 0, 2) == Err(Panic)
  {
    AnswerIsFound(log, 0, 2);
    FoundForThree(log, PrefixOf(log, 0), PlaceOfAnswer(log, 0, 2));
  }

  // ---------------------------------------------------------------- lengths that an earlier proof got wrong

  /** While only anchored proofs are applied, all known lengths are the writer's. */
  lemma {:induction false} AnchoredRunIsHonest(log: seq<Block>, t: Tree, proofs: seq<Proof>, signed: set<Signable>)
    requires Honest(log, t) && SignedOnly(signed, log) && forall p :: p in proofs ==> Anchored(p)
    ensures Honest(log, Receive(t, proofs, signed))
  {
    if proofs != [] {
      var front, last := proofs[..|proofs| - 1], proofs[|proofs| - 1];
      AnchoredRunIsHonest(log, t, front, signed);
      var t' := Receive(t, front, signed);
      if last.fork == t'.fork && VerifyProofSpec(t', last, signed).Ok? {
        AcceptedKeepsFollowing(log, t', last, signed, iset{});
      }
    }
  }

  /**
   For a replica that was sent only anchored proofs, in any number: the block of the next one is put in its place if
   and only if the sums of the old and the new roots agree, which the replica can check beforehand.
   */
  lemma {:induction false} PlacedExactly(log: seq<Block>, fork: nat, proofs: seq<Proof>, signed: set<Signable>,
                                         next: Proof)
    requires SignedOnly(signed, log) && (forall p :: p in proofs ==> Anchored(p)) && Anchored(next) && next.block.Some?
    ensures var t := Receive(Tree(0, 0, fork, [], map[]), proofs, signed);
            var r := VerifyProofSpec(t, next, signed);
            var i := next.block.value.index;
            r.Ok? ==> (PlaceIn(t, i, r.value.nodes, r.value.roots) == Ok(ByteStart(log, i)) <==> PlacedRight(t, r.value.roots, i))
  {
    var t := Receive(Tree(0, 0, fork, [], map[]), proofs, signed);
    EmptyTreeIsTrusted(log, fork);
    AnchoredRunIsHonest(log, Tree(0, 0, fork, [], map[]), proofs, signed);
    var r := VerifyProofSpec(t, next, signed);
    if r.Ok? {
      PlacedExactlyIn(log, t, signed, next, r.value);
    }
  }

  lemma {:induction false} PlacedExactlyIn(log: seq<Block>, t: Tree, signed: set<Signable>, next: Proof, d: Draft)
    requires Honest(log, t) && SignedOnly(signed, log) && Anchored(next) && next.block.Some?
    requires VerifyProofSpec(t, next, signed) == Ok(d)
    ensures var i := next.block.value.index;
            PlaceIn(t, i, d.nodes, d.roots) == Ok(ByteStart(log, i)) <==> PlacedRight(t, d.roots, i)
  {
    AcceptedIsExactChangeset(log, t, next, signed, d);
    if t.length == next.block.value.index {
      TotalBytes(log, t.length);
    } else {
      PlaceIsFound(log, t, d.nodes, d.roots, next.block.value.index, d.length);
    }
  }

  /** The bare hash that shifts the lengths of two leaves. */
  function ShiftedHash(log: seq<Block>): Proof
    requires |log| == 2 && log[1] != []
  {
    Proof(0, None, Some(DataHash(Leaf(0), [ShiftedLeaves(log).0, ShiftedLeaves(log).1])), None, None)
  }

  /** What a replica of two blocks that knows only their root makes of it. */
  function ShiftedTree(log: seq<Block>): Tree
    requires |log| == 2 && log[1] != []
  {
    Receive(RootOnly(log), [ShiftedHash(log)], {})
  }

  function SecondBlock(log: seq<Block>): Proof
    requires |log| == 2
  {
    Proof(0, Some(DataBlock(1, log[1], [])), None, None, None)
  }

  lemma {:induction false} ReceiveOne(t: Tree, proof: Proof, signed: set<Signable>, d: Draft)
    requires proof.fork == t.fork && VerifyProofSpec(t, proof, signed) == Ok(d)
    ensures Receive(t, [proof], signed) == CommitSpec(t, d, proof.fork)
  {
    assert [proof][..0] == [] && Receive(t, [], signed) == t;
  }

  lemma {:induction false} ShiftedHashAccepted(log: seq<Block>)
    requires |log| == 2 && log[1] != []
    ensures var t := RootOnly(log);
            var nodes := [ShiftedLeaves(log).0, ShiftedLeaves(log).1, NodeAt(log, Pos(1, 0))];
            VerifyProofSpec(t, ShiftedHash(log), {}) == Ok(Draft(2, t.byteLength, false, t.roots, nodes))
  {
    HashIsNotBound(log);
    ShiftedClimb(log);
  }

  lemma {:induction false} ShiftedTreeIs(log: seq<Block>)
    requires |log| == 2 && log[1] != []
    ensures var t := ShiftedTree(log);
            && t.length == 2 && t.fork == 0 && t.roots == [NodeAt(log, Pos(1, 0))]
            && Leaf(0) in t.view && t.view[Leaf(0)] == ShiftedLeaves(log).0
            && Leaf(1) in t.view && t.view[Leaf(1)] == ShiftedLeaves(log).1
  {
    var t, a, b, root := RootOnly(log), ShiftedLeaves(log).0, ShiftedLeaves(log).1, NodeAt(log, Pos(1, 0));
    ShiftedHashAccepted(log);
    var d := Draft(2, t.byteLength, false, t.roots, [a, b, root]);
    ReceiveOne(t, ShiftedHash(log), {}, d);
    AddThree(t.view, a, b, root);
    assert root.pos == Pos(1, 0);
  }

  lemma {:induction false} AddThree(view: View, a: Node, b: Node, c: Node)
    ensures AddNodes(view, [a, b, c]) == view[a.pos := a][b.pos := b][c.pos := c]
  {
    assert [a, b, c][..2] == [a, b] && [a, b][..1] == [a] && [a][..0] == [];
    assert AddNodes(view, [a]) == view[a.pos := a];
    assert AddNodes(view, [a, b]) == view[a.pos := a][b.pos := b];
  }

  /** The walk to block 1 passes leaf 0, whose length is one too many. */
  lemma {:induction false} ShiftedOffset(log: seq<Block>)
    requires |log| == 2 && log[1] != []
    ensures OffsetIn(ShiftedTree(log), 1) == Ok(|log[0]| + 1)
  {
    var t := ShiftedTree(log);
    ShiftedTreeIs(log);
    assert Index(Leaf(1)) == 2 && Index(Pos(1, 0)) == 1;
    assert LeftChild(Pos(1, 0)) == Leaf(0) && RightChild(Pos(1, 0)) == Leaf(1);
    assert WalkFrom(t.view, Leaf(1), 1, |log[0]| + 1) == Ok(|log[0]| + 1);
    assert WalkFrom(t.view, Pos(1, 0), 1, 0) == Ok(|log[0]| + 1);
  }

  /**
   Equal sums are not enough after a proof that is not anchored: a replica accepts the shifted hash and then an anchored
   proof for block 1, which is put one byte too far.
   */
  lemma {:induction false} PlacedOneTooFar(log: seq<Block>)
    requires |log| == 2 && log[1] != []
    ensures var t := ShiftedTree(log);
            var r := VerifyProofSpec(t, SecondBlock(log), {});
            && Trusted(log, t) && Anchored(SecondBlock(log)) && r.Ok? && PlacedRight(t, r.value.roots, 1)
            && PlaceIn(t, 1, r.value.nodes, r.value.roots) == Ok(|log[0]| + 1) && ByteStart(log, 1) == |log[0]|
  {
    var t, leaf := ShiftedTree(log), BlockNode(Leaf(1), log[1]);
    RootOnlyIsTrusted(log);
    ReceiveIsSafe(log, RootOnly(log), [ShiftedHash(log)], {});
    SecondBlockAccepted(log);
    OneNodeInside(leaf, 1);
    assert NodeAt(log, Pos(1, 0)).pos != Leaf(1);
    ShiftedOffset(log);
    assert ByteStart(log, 0) == 0;
  }

  lemma {:induction false} SecondBlockAccepted(log: seq<Block>)
    requires |log| == 2 && log[1] != []
    ensures var t := ShiftedTree(log);
            && t.length == 2 && t.roots == [NodeAt(log, Pos(1, 0))] && PlacedRight(t, t.roots, 1)
            && VerifyProofSpec(t, SecondBlock(log), {})
               == Ok(Draft(2, t.byteLength, false, t.roots, [BlockNode(Leaf(1), log[1])]))
  {
    ShiftedTreeIs(log);
    var leaf := BlockNode(Leaf(1), log[1]);
    assert [] + [leaf] == [leaf];
  }

  lemma {:induction false} OneNodeInside(leaf: Node, i: nat)
    requires leaf.pos == Leaf(i)
    ensures InsideOf([leaf], i) == Ok(Inside(0, Some(leaf)))
  {
    assert [leaf][1..] == [];
    assert InsideFrom([], Parent(leaf.pos), leaf.pos.offset % 2 == 1, Inside(0, Some(leaf)))
           == Ok(Inside(0, Some(leaf)));
  }
}
