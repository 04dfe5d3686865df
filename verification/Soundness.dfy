/**
 Proof soundness. The received proof is arbitrary; the only assumptions are that
 hashes are collision free and that the key has signed nothing but trees over
 prefixes of the writer's log.
 */
module Soundness {
  import opened Common
  import opened FlatTree
  import opened Hashes
  import opened Changesets
  import opened Verify
  import opened VerifyClosed

  /** Everything the tree holds is the writer's: roots, length, byte length and every known hash. */
  ghost predicate Trusted(log: seq<Block>, t: Tree) {
    && t.length <= |log| && t.roots == NodesAt(log, Roots(t.length)) && t.byteLength == TotalLength(t.roots)
    && (forall p :: p in t.view ==> t.view[p].pos == p && Good(log, t.view[p]))
    && Closed(t.view.Keys, t.roots)
  }

  lemma {:induction false} RootsGood(log: seq<Block>, n: nat)
    requires n <= |log|
    ensures AllGood(log, NodesAt(log, Roots(n)))
  {
    var roots := NodesAt(log, Roots(n));
    forall x | x in roots
      ensures Good(log, x)
    {
      var i :| 0 <= i < |roots| && roots[i] == x;
      RootsSpan(n, i);
    }
  }

  /** A tree hash that was signed belongs to one length of the log, and fixes roots and length. */
  lemma {:induction false} SignedRoots(log: seq<Block>, signed: set<Signable>, roots: seq<Node>, length: nat, fork: nat)
    requires SignedOnly(signed, log) && SignableOf(roots, length, fork) in signed
    ensures length <= |log| && roots == NodesAt(log, Roots(length))
  {
    var n: nat, f: nat :| n <= |log| && SignableOf(roots, length, fork) == WriterSignable(log, n, f);
  }

  /** The steps an accepted proof has passed. */
  lemma {:induction false} AcceptedSteps(t: Tree, proof: Proof, signed: set<Signable>)
    returns (root: Option<Node>, d0: Draft, d: Draft, extra: Option<Node>)
    requires VerifyProofSpec(t, proof, signed).Ok?
    ensures d == VerifyProofSpec(t, proof, signed).value
    ensures VerifyTreeSpec(proof.block, proof.hash, proof.seek) == Ok((root, d0.nodes))
    ensures d0 == Draft(t.length, t.byteLength, false, t.roots, d0.nodes)
    ensures proof.upgrade.None? ==> d == d0 && extra == root
    ensures proof.upgrade.Some? ==>
              && UpgradeSpec(d0, proof.upgrade.value, root).Ok?
              && UpgradeSpec(d0, proof.upgrade.value, root).value.0 == d
              && UpgradeSpec(d0, proof.upgrade.value, root).value.1.extra == extra
              && SignableOf(d.roots, d.length, proof.fork) in signed
    ensures extra.Some? && root.Some? ==>
              root.value.pos in t.view && t.view[root.value.pos].hash == root.value.hash
  {
    var (root', nodes) := VerifyTreeSpec(proof.block, proof.hash, proof.seek).value;
    root, d0 := root', Draft(t.length, t.byteLength, false, t.roots, nodes);
    if proof.upgrade.None? {
      d, extra := d0, root;
    } else {
      var (d', q) := UpgradeSpec(d0, proof.upgrade.value, root).value;
      d, extra := d', q.extra;
    }
  }

  lemma {:induction false} UpgradeIsGood(log: seq<Block>, d0: Draft, u: DataUpgrade, root: Option<Node>,
                                         signed: set<Signable>, fork: nat)
    requires SignedOnly(signed, log) && UpgradeSpec(d0, u, root).Ok?
    requires var d := UpgradeSpec(d0, u, root).value.0; SignableOf(d.roots, d.length, fork) in signed
    ensures var (d, q) := UpgradeSpec(d0, u, root).value;
            && d0.nodes <= d.nodes && AllGood(log, d.nodes[|d0.nodes|..])
            && d.length <= |log| && d.roots == NodesAt(log, Roots(d.length))
            && (root.Some? && q.extra.None? ==> Good(log, root.value)) && (q.extra.None? || q.extra == root)
            && Vouches(log, d0, d)
  {
    var d := UpgradeSpec(d0, u, root).value.0;
    UpgradeVouches(log, d0, u, root);
    SignedRoots(log, signed, d.roots, d.length, fork);
    RootsGood(log, d.length);
  }

  /** What acceptance says about the draft, before it is committed. */
  lemma {:induction false} AcceptedIsGood(log: seq<Block>, t: Tree, proof: Proof, signed: set<Signable>)
    requires Trusted(log, t) && SignedOnly(signed, log)
    requires VerifyProofSpec(t, proof, signed).Ok?
    ensures var d := VerifyProofSpec(t, proof, signed).value;
            && d.length <= |log| && d.roots == NodesAt(log, Roots(d.length)) && d.byteLength == TotalLength(d.roots)
            && t.length <= d.length && (d.upgraded || (d.roots == t.roots && d.length == t.length))
            && AllGood(log, d.nodes)
    ensures proof.block.Some? ==>
              proof.block.value.index < |log| && log[proof.block.value.index] == proof.block.value.value
  {
    var root, d0, d, extra := AcceptedSteps(t, proof, signed);
    VerifyTreeGood(log, proof.block, proof.hash, proof.seek);
    if proof.upgrade.Some? {
      UpgradeIsGood(log, d0, proof.upgrade.value, root, signed, proof.fork);
    }
    assert root.Some? ==> Good(log, root.value);
    assert d.nodes == d0.nodes + d.nodes[|d0.nodes|..];
  }

  /** Accepted nodes fit the tree: every known node but the roots has its sibling and parent known. */
  lemma {:induction false} AcceptedIsClosed(t: Tree, proof: Proof, signed: set<Signable>)
    requires Closed(t.view.Keys, t.roots)
    requires VerifyProofSpec(t, proof, signed).Ok?
    ensures var d := VerifyProofSpec(t, proof, signed).value;
            Closed(t.view.Keys + Positions(d.nodes), d.roots)
    ensures proof.block.Some? ==>
              Leaf(proof.block.value.index) in Positions(VerifyProofSpec(t, proof, signed).value.nodes)
  {
    var root, d0, d, extra := AcceptedSteps(t, proof, signed);
    VerifyTreeLinked(proof.block, proof.hash, proof.seek);
    var known := t.view.Keys;
    if proof.upgrade.Some? {
      UpgradeVouches([], d0, proof.upgrade.value, root);
      UpgradeExtends(known, d0, proof.upgrade.value, root);
    } else {
      assert d.nodes[|d0.nodes|..] == [];
      assert known + Positions([]) == known;
    }
    ClosedInParts(known, d0.nodes, d, if root.Some? then Some(root.value.pos) else None);
  }

  /** The upgrade's nodes keep the known ones closed, and the block's nodes hang below one of them. */
  lemma {:induction false} ClosedInParts(known: set<Pos>, nodes: seq<Node>, d: Draft, root: Option<Pos>)
    requires nodes <= d.nodes && Closed(known + Positions(d.nodes[|nodes|..]), d.roots)
    requires if root.None? then nodes == []
             else LinkedTo(Positions(nodes), root.value) && root.value in known + Positions(d.nodes[|nodes|..])
    ensures Closed(known + Positions(d.nodes), d.roots)
  {
    var more := d.nodes[|nodes|..];
    assert d.nodes == nodes + more;
    PositionsConcat(nodes, more);
    assert known + Positions(d.nodes) == known + Positions(more) + Positions(nodes);
    if root.Some? {
      ClosedUnion(known + Positions(more), d.roots, Positions(nodes), root.value);
    } else {
      assert Positions([]) == {};
    }
  }

  /**
   Soundness: a proof that is accepted by a trusted tree carries the writer's
   block, and committing it leaves the tree trusted: its roots, length and byte
   length are ones the writer signed, every known node has the writer's hash, and
   every known node that is not a root has its sibling and its parent known.
   */
  lemma {:induction false} AcceptedProofIsSound(log: seq<Block>, t: Tree, proof: Proof, signed: set<Signable>)
    requires Trusted(log, t) && SignedOnly(signed, log)
    requires VerifyProofSpec(t, proof, signed).Ok?
    ensures proof.block.Some? ==>
              proof.block.value.index < |log| && log[proof.block.value.index] == proof.block.value.value
    ensures var d := VerifyProofSpec(t, proof, signed).value;
            var t' := CommitSpec(t, d, proof.fork);
            && Trusted(log, t') && t'.length == d.length
            && (proof.block.Some? ==> Leaf(proof.block.value.index) in t'.view)
  {
    AcceptedIsGood(log, t, proof, signed);
    AcceptedIsClosed(t, proof, signed);
    CommitKeepsTrust(log, t, VerifyProofSpec(t, proof, signed).value, proof.fork);
  }

  lemma {:induction false} CommitKeepsTrust(log: seq<Block>, t: Tree, d: Draft, fork: nat)
    requires Trusted(log, t)
    requires d.length <= |log| && d.roots == NodesAt(log, Roots(d.length)) && d.byteLength == TotalLength(d.roots)
    requires d.upgraded || (d.roots == t.roots && d.length == t.length)
    requires AllGood(log, d.nodes) && Closed(t.view.Keys + Positions(d.nodes), d.roots)
    ensures var t' := CommitSpec(t, d, fork);
            Trusted(log, t') && t'.length == d.length && t'.view.Keys == t.view.Keys + Positions(d.nodes)
  {
    AddNodesView(t.view, d.nodes);
  }

  /** Proofs arriving one after the other; a refused proof changes nothing. */
  function Receive(t: Tree, proofs: seq<Proof>, signed: set<Signable>): Tree {
    if proofs == [] then t
    else
      var t' := Receive(t, proofs[..|proofs| - 1], signed);
      var proof := proofs[|proofs| - 1];
      if proof.fork != t'.fork then t'
      else match VerifyProofSpec(t', proof, signed)
        case Err(_) => t'
        case Ok(d) => CommitSpec(t', d, proof.fork)
  }

  /** Safety over whole runs: no sequence of received proofs can make a trusted tree hold anything foreign. */
  lemma {:induction false} ReceiveIsSafe(log: seq<Block>, t: Tree, proofs: seq<Proof>, signed: set<Signable>)
    requires Trusted(log, t) && SignedOnly(signed, log)
    ensures Trusted(log, Receive(t, proofs, signed))
  {
    if proofs != [] {
      ReceiveIsSafe(log, t, proofs[..|proofs| - 1], signed);
      var t' := Receive(t, proofs[..|proofs| - 1], signed);
      var proof := proofs[|proofs| - 1];
      if proof.fork == t'.fork && VerifyProofSpec(t', proof, signed).Ok? {
        AcceptedProofIsSound(log, t', proof, signed);
      }
    }
  }

  lemma {:induction false} EmptyTreeIsTrusted(log: seq<Block>, fork: nat)
    ensures Trusted(log, Tree(0, 0, fork, [], map[]))
  {
    assert Positions([]) == {};
  }

  lemma {:induction false} RootInside(log: seq<Block>, n: nat, p: Pos)
    requires p in Positions(NodesAt(log, Roots(n)))
    ensures Hi(p) <= n && p.offset % 2 == 0
  {
    var roots := NodesAt(log, Roots(n));
    var x :| x in roots && x.pos == p;
    var i :| 0 <= i < |roots| && roots[i] == x;
    RootsSpan(n, i);
  }

  lemma {:induction false} KnownParent(log: seq<Block>, t: Tree, p: Pos)
    requires Trusted(log, t) && p in t.view && p !in Positions(t.roots)
    ensures Parent(p) in t.view && Hi(Parent(p)) <= |log| && Lo(Parent(p)) <= Lo(p) < Hi(p) <= Hi(Parent(p))
    ensures Hi(p) - Lo(p) < Hi(Parent(p)) - Lo(Parent(p))
  {
    var q := Parent(p);
    assert q in t.view && Good(log, t.view[q]);
    ParentSpan(p);
  }

  lemma {:induction false} WithinParent(p: Pos, r: Pos)
    requires Within(Parent(p), r)
    ensures Within(p, r) && Hi(p) <= Hi(r)
  {
    ParentSpan(p);
    WithinSpan(Parent(p), r);
  }

  /** Every known node hangs below a root, so inside the tree's length. */
  lemma {:induction false} KnownUnderRoot(log: seq<Block>, t: Tree, p: Pos) returns (r: Pos)
    requires Trusted(log, t) && p in t.view
    ensures r in Positions(t.roots) && Within(p, r) && Hi(p) <= t.length
    decreases |log| + Lo(p) - Hi(p)
  {
    if p in Positions(t.roots) {
      r := p;
    } else {
      KnownParent(log, t, p);
      r := KnownUnderRoot(log, t, Parent(p));
      WithinParent(p, r);
    }
    RootInside(log, t.length, r);
  }
}
