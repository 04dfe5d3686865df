/** Changeset of a Merkle tree (src/tree/merkle_tree_changeset.rs). */
module Changesets {
  import opened Common
  import opened FlatTree
  import opened Hashes

  /** The part of a changeset that attaching subtrees changes. */
  datatype Draft = Draft(length: nat, byteLength: nat, upgraded: bool, roots: seq<Node>, nodes: seq<Node>)

  /** Roots after merging, the parents hashed on the way, and where the iterator stops. */
  datatype Attached = Attached(roots: seq<Node>, added: seq<Node>, it: Pos)

  /** The last two roots are siblings. */
  predicate Mergeable(roots: seq<Node>) {
    |roots| > 1 && Sibling(Last(roots).pos) == roots[|roots| - 2].pos
  }

  function Last(roots: seq<Node>): Node
    requires roots != []
  {
    roots[|roots| - 1]
  }

  function MergedParent(roots: seq<Node>): Node
    requires Mergeable(roots)
  {
    ParentNode(Parent(Last(roots).pos), Last(roots), roots[|roots| - 2])
  }

  function MergeOnce(roots: seq<Node>): seq<Node>
    requires Mergeable(roots)
  {
    roots[..|roots| - 2] + [MergedParent(roots)]
  }

  function Attach(roots: seq<Node>): (r: Attached)
    requires roots != []
    ensures r.roots != [] && r.it == Last(r.roots).pos
    ensures Hi(r.it) >= Hi(Last(roots).pos)
    decreases |roots|
  {
    if Mergeable(roots) then
      ParentSpan(Last(roots).pos);
      var r := Attach(MergeOnce(roots));
      Attached(r.roots, [MergedParent(roots)] + r.added, r.it)
    else
      Attached(roots, [], Last(roots).pos)
  }

  /** `append_root`: attach a subtree's node and merge complete pairs of roots. */
  function AppendRootSpec(d: Draft, node: Node): (r: (Draft, Pos))
    ensures Hi(r.1) >= Hi(node.pos)
  {
    var a := Attach(d.roots + [node]);
    (Draft(d.length + Pow2(node.pos.depth), d.byteLength + node.length, true, a.roots, d.nodes + [node] + a.added),
     a.it)
  }

  class Changeset {
    var length: nat
    var ancestors: nat
    var byteLength: nat
    var batchLength: nat
    var fork: nat
    var roots: seq<Node>
    var nodes: seq<Node>
    var hash: Option<Hash>
    var signature: Option<Signature>
    var upgraded: bool
    const originalLength: nat
    const originalFork: nat

    constructor (length: nat, byteLength: nat, fork: nat, roots: seq<Node>)
      ensures this.length == ancestors == originalLength == length
      ensures this.byteLength == byteLength && batchLength == 0
      ensures this.fork == originalFork == fork
      ensures this.roots == roots && nodes == [] && hash.None? && signature.None? && !upgraded
    {
      this.length, ancestors, originalLength := length, length, length;
      this.byteLength, batchLength := byteLength, 0;
      this.fork, originalFork := fork, fork;
      this.roots, nodes, hash, signature, upgraded := roots, [], None, None, false;
    }

    function View(): Draft
      reads this
    {
      Draft(length, byteLength, upgraded, roots, nodes)
    }

    /** The iterator stands at the node on entry and at the last root on exit. */
    method AppendRoot(node: Node, it0: Pos) returns (it: Pos)
      requires node.pos == it0
      modifies this`length, this`byteLength, this`roots, this`nodes, this`upgraded
      ensures (View(), it) == AppendRootSpec(old(View()), node)
    {
      upgraded := true;
      length := length + Pow2(it0.depth);
      byteLength := byteLength + node.length;
      roots := roots + [node];
      nodes := nodes + [node];
      it := it0;
      ghost var a0 := Attach(roots);
      while |roots| > 1
        invariant roots != [] && it == Last(roots).pos
        invariant upgraded && length == old(length) + Pow2(it0.depth) && byteLength == old(byteLength) + node.length
        invariant Attach(roots).roots == a0.roots
        invariant nodes + Attach(roots).added == old(nodes) + [node] + a0.added
      {
        var a := roots[|roots| - 1];
        var b := roots[|roots| - 2];
        if Sibling(it) != b.pos {
          break;
        }
        it := Parent(it);
        var parent := ParentNode(it, a, b);
        ghost var rest := Attach(MergeOnce(roots)).added;
        assert nodes + ([parent] + rest) == nodes + [parent] + rest;
        nodes := nodes + [parent];
        roots := roots[..|roots| - 2] + [parent];
      }
      assert !Mergeable(roots);
      assert nodes + [] == nodes;
    }

    /** Appends one block: a leaf at the end of the tree. */
    method Append(data: Block) returns (size: nat)
      modifies this`length, this`byteLength, this`roots, this`nodes, this`upgraded, this`batchLength
      ensures size == |data| && batchLength == old(batchLength) + 1
      ensures View() == AppendRootSpec(old(View()), BlockNode(Leaf(old(length)), data)).0
    {
      var head := Leaf(length);
      var it := AppendRoot(BlockNode(head, data), head);
      batchLength := batchLength + 1;
      size := |data|;
    }

    function SignableNow(): Signable
      reads this
    {
      SignableOf(roots, length, fork)
    }

    method HashAndSign()
      modifies this`hash, this`signature
      ensures hash == Some(TreeHash(roots)) && signature == Some(Signature(SignableNow()))
    {
      hash := Some(TreeHash(roots));
      signature := Some(Signature(SignableOf(roots, length, fork)));
    }

    /** `None` is a signature that does not parse. */
    method VerifyAndSetSignature(candidate: Option<Signature>, signed: set<Signable>) returns (r: Result<()>)
      modifies this`hash, this`signature
      ensures r.Ok? <==> candidate.Some? && Verifies(signed, SignableNow(), candidate.value)
      ensures r.Ok? ==> hash == Some(TreeHash(roots)) && signature == candidate
      ensures r.Err? ==> hash == old(hash) && signature == old(signature) && r.error == InvalidSignature
    {
      if candidate.None? || !Verifies(signed, SignableOf(roots, length, fork), candidate.value) {
        return Err(InvalidSignature);
      }
      hash := Some(TreeHash(roots));
      signature := candidate;
      return Ok(());
    }
  }

  // ---------------------------------------------------------------- roots vouch for what is under them

  lemma {:induction false} AttachGood(log: seq<Block>, roots: seq<Node>)
    requires roots != [] && AllGood(log, Attach(roots).roots)
    ensures AllGood(log, roots) && AllGood(log, Attach(roots).added)
    decreases |roots|
  {
    if Mergeable(roots) {
      AttachGood(log, MergeOnce(roots));
      MergeOnceGood(log, roots);
    }
  }

  lemma {:induction false} MergeOnceGood(log: seq<Block>, roots: seq<Node>)
    requires Mergeable(roots) && AllGood(log, MergeOnce(roots))
    ensures AllGood(log, roots) && Good(log, MergedParent(roots))
  {
    var a, b, merged := Last(roots), roots[|roots| - 2], MergeOnce(roots);
    assert Last(merged) in merged;
    GoodChildren(log, a, b);
    forall x | x in roots
      ensures Good(log, x)
    {
      if x != a && x != b {
        assert x in roots[..|roots| - 2];
        assert x in merged;
      }
    }
  }

  /** Whatever node is appended, roots with the writer's hashes leave only nodes with the writer's hashes. */
  lemma {:induction false} AppendRootGood(log: seq<Block>, d: Draft, node: Node)
    ensures var d' := AppendRootSpec(d, node).0;
            AllGood(log, d'.roots) ==> AllGood(log, d.roots) && Good(log, node) && AllGood(log, d'.nodes[|d.nodes|..])
  {
    var d' := AppendRootSpec(d, node).0;
    if AllGood(log, d'.roots) {
      AttachGood(log, d.roots + [node]);
      assert (d.roots + [node])[|d.roots|] == node;
      assert forall x :: x in d.roots ==> x in d.roots + [node];
      assert d'.nodes[|d.nodes|..] == [node] + Attach(d.roots + [node]).added;
    }
  }

  lemma {:induction false} AttachTotal(roots: seq<Node>)
    requires roots != []
    ensures TotalLength(Attach(roots).roots) == TotalLength(roots)
    decreases |roots|
  {
    if Mergeable(roots) {
      AttachTotal(MergeOnce(roots));
      TotalLengthMerge(roots, MergedParent(roots));
    }
  }

  /** The byte length stays the sum of the roots' byte lengths. */
  lemma {:induction false} AppendRootTotal(d: Draft, node: Node)
    ensures var d' := AppendRootSpec(d, node).0;
            d'.byteLength - TotalLength(d'.roots) == d.byteLength - TotalLength(d.roots)
  {
    TotalLengthSnoc(d.roots, node);
    AttachTotal(d.roots + [node]);
  }

  // ---------------------------------------------------------------- no loose ends

  function Positions(s: seq<Node>): set<Pos> {
    set x | x in s :: x.pos
  }

  /** Every position is a top or has its sibling and its parent in the set. */
  ghost predicate Linked(s: set<Pos>, tops: set<Pos>) {
    forall p {:trigger Sibling(p)} {:trigger Parent(p)} :: p in s ==> p in tops || (Sibling(p) in s && Parent(p) in s)
  }

  ghost predicate Closed(known: set<Pos>, roots: seq<Node>) {
    Positions(roots) <= known && Linked(known, Positions(roots))
  }

  lemma {:induction false} PositionsConcat(a: seq<Node>, b: seq<Node>)
    ensures Positions(a + b) == Positions(a) + Positions(b)
  {
    assert forall x :: x in a + b <==> x in a || x in b;
    assert forall p :: p in Positions(a + b) <==> p in Positions(a) || p in Positions(b);
  }

  lemma {:induction false} MergeOnceClosed(known: set<Pos>, roots: seq<Node>)
    requires Mergeable(roots) && Closed(known, roots)
    ensures Closed(known + {MergedParent(roots).pos}, MergeOnce(roots))
  {
    var a, b, parent := Last(roots), roots[|roots| - 2], MergedParent(roots);
    var front := roots[..|roots| - 2];
    assert roots == front + [b, a];
    PositionsConcat(front, [b, a]);
    PositionsConcat(front, [parent]);
    assert Positions([b, a]) == {a.pos, b.pos};
    assert Positions([parent]) == {parent.pos};
    assert Sibling(b.pos) == a.pos && Parent(b.pos) == Parent(a.pos);
  }

  lemma {:induction false} AttachClosed(known: set<Pos>, roots: seq<Node>)
    requires roots != [] && Closed(known, roots)
    ensures Closed(known + Positions(Attach(roots).added), Attach(roots).roots)
    decreases |roots|
  {
    if Mergeable(roots) {
      var parent := MergedParent(roots);
      MergeOnceClosed(known, roots);
      AttachClosed(known + {parent.pos}, MergeOnce(roots));
      PositionsConcat([parent], Attach(MergeOnce(roots)).added);
      assert Positions([parent]) == {parent.pos};
      assert known + Positions(Attach(roots).added) == known + {parent.pos} + Positions(Attach(MergeOnce(roots)).added);
    } else {
      assert Positions([]) == {};
      assert known + Positions(Attach(roots).added) == known;
    }
  }

  lemma {:induction false} RootAdded(known: set<Pos>, roots: seq<Node>, node: Node)
    requires Closed(known, roots)
    ensures Closed(known + {node.pos}, roots + [node])
  {
    PositionsConcat(roots, [node]);
    assert Positions([node]) == {node.pos};
  }

  lemma {:induction false} AddedPositions(d: Draft, node: Node)
    ensures Positions(AppendRootSpec(d, node).0.nodes[|d.nodes|..])
            == {node.pos} + Positions(Attach(d.roots + [node]).added)
  {
    var added := Attach(d.roots + [node]).added;
    assert (d.nodes + [node] + added)[|d.nodes|..] == [node] + added;
    PositionsConcat([node], added);
    assert Positions([node]) == {node.pos};
  }

  /** Appending keeps every known non-root next to its sibling and under its parent. */
  lemma {:induction false} AppendRootClosed(known: set<Pos>, d: Draft, node: Node)
    requires Closed(known, d.roots)
    ensures var d' := AppendRootSpec(d, node).0;
            Closed(known + Positions(d'.nodes[|d.nodes|..]), d'.roots)
  {
    var rs := d.roots + [node];
    RootAdded(known, d.roots, node);
    AttachClosed(known + {node.pos}, rs);
    AddedPositions(d, node);
    assert known + ({node.pos} + Positions(Attach(rs).added)) == known + {node.pos} + Positions(Attach(rs).added);
  }

  // ---------------------------------------------------------------- the writer's accumulator

  /** Positions completed by attaching a subtree at `p`, in the order they are hashed. */
  function MergeChain(p: Pos): seq<Pos>
    decreases p.offset
  {
    [p] + if p.offset % 2 == 1 then MergeChain(Parent(p)) else []
  }

  lemma {:induction false} AttachHonest(log: seq<Block>, p: Pos)
    ensures var a := Attach(NodesAt(log, Roots(Lo(p)) + [p]));
            a.roots == NodesAt(log, Roots(Hi(p))) && a.added == NodesAt(log, MergeChain(p)[1..])
    decreases p.offset
  {
    var rs := NodesAt(log, Roots(Lo(p)) + [p]);
    if p.offset % 2 == 1 {
      var q := Parent(p);
      MergeOnceHonest(log, p);
      AttachHonest(log, q);
      ParentSpan(p);
      assert MergeChain(p)[1..] == MergeChain(q) == [q] + MergeChain(q)[1..];
      NodesAtConcat(log, [q], MergeChain(q)[1..]);
      NodesAtOne(log, q);
    } else {
      NotMergeable(log, p);
      RootsStep(p);
      assert MergeChain(p)[1..] == [];
    }
  }

  lemma {:induction false} NotMergeable(log: seq<Block>, p: Pos)
    requires p.offset % 2 == 0
    ensures !Mergeable(NodesAt(log, Roots(Lo(p)) + [p]))
  {
    var ps := Roots(Lo(p)) + [p];
    if |ps| > 1 {
      RootsSpan(Lo(p), |ps| - 2);
      ParentSpan(p);
      assert NodesAt(log, ps)[|ps| - 2].pos == ps[|ps| - 2];
    }
  }

  lemma {:induction false} MergeOnceHonest(log: seq<Block>, p: Pos)
    requires p.offset % 2 == 1
    ensures var rs := NodesAt(log, Roots(Lo(p)) + [p]);
            Mergeable(rs) && MergedParent(rs) == NodeAt(log, Parent(p))
            && MergeOnce(rs) == NodesAt(log, Roots(Lo(Parent(p))) + [Parent(p)])
  {
    RootsStep(p);
    ParentOfSiblings(log, p);
    var rs := NodesAt(log, Roots(Lo(p)) + [p]);
    var k := |Roots(Lo(Parent(p)))|;
    assert rs[k] == NodeAt(log, Sibling(p)) && rs[k + 1] == NodeAt(log, p);
  }

  lemma {:induction false} AttachedHonest(log: seq<Block>, roots: seq<Node>, p: Pos)
    requires roots == NodesAt(log, Roots(Lo(p)))
    ensures var a := Attach(roots + [NodeAt(log, p)]);
            a.roots == NodesAt(log, Roots(Hi(p)))
            && [NodeAt(log, p)] + a.added == NodesAt(log, MergeChain(p))
  {
    AttachHonest(log, p);
    NodesAtConcat(log, Roots(Lo(p)), [p]);
    NodesAtOne(log, p);
    var c := MergeChain(p);
    assert c == [p] + c[1..];
    NodesAtConcat(log, [p], c[1..]);
  }

  function LastRoot(n: nat): (r: Pos)
    requires n > 0
    ensures Hi(r) == n && r.offset % 2 == 0
  {
    RootsStart(n);
    RootsSpan(n, |Roots(n)| - 1);
    Roots(n)[|Roots(n)| - 1]
  }

  /** The writer's subtree attached at the end of the writer's tree gives the writer's next tree. */
  lemma {:induction false} AppendRootHonest(log: seq<Block>, d: Draft, p: Pos)
    requires d.roots == NodesAt(log, Roots(Lo(p))) && d.length == Lo(p)
    ensures Hi(p) > 0
    ensures var (d', it) := AppendRootSpec(d, NodeAt(log, p));
            d'.roots == NodesAt(log, Roots(Hi(p))) && d'.length == Hi(p)
            && d'.nodes == d.nodes + NodesAt(log, MergeChain(p))
            && it == LastRoot(Hi(p))
  {
    AttachedHonest(log, d.roots, p);
    SpanSize(p);
    var a := Attach(d.roots + [NodeAt(log, p)]);
    assert d.nodes + [NodeAt(log, p)] + a.added == d.nodes + ([NodeAt(log, p)] + a.added);
    assert Last(a.roots) == NodeAt(log, LastRoot(Hi(p)));
  }
}
