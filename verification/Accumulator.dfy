/** The append-only accumulator: which nodes appending blocks creates, and in which order. */
module Accumulator {
  import opened Common
  import opened FlatTree
  import opened Hashes
  import opened Changesets
  import opened Offsets

  /** Positions completed by appending blocks m, ..., n - 1. */
  function Emitted(m: nat, n: nat): seq<Pos>
    decreases n
  {
    if m >= n then [] else Emitted(m, n - 1) + MergeChain(Leaf(n - 1))
  }

  /** Every ancestor of a left child ends later. */
  lemma {:induction false} LeftEndsFirst(p: Pos, q: Pos)
    requires p.offset % 2 == 0 && Within(p, q) && q != p
    ensures Hi(q) > Hi(p)
  {
    WithinSpan(p, q);
    WithinSpan(Parent(p), q);
    ParentSpan(p);
  }

  lemma {:induction false} WithinStep(p: Pos, q: Pos)
    ensures Within(p, q) <==> q == p || Within(Parent(p), q)
  {
    if Within(p, q) {
      WithinSpan(p, q);
    }
  }

  lemma {:induction false} MergeChainHas(p: Pos, q: Pos)
    ensures q in MergeChain(p) <==> Within(p, q) && Hi(q) == Hi(p)
    decreases p.offset
  {
    if p.offset % 2 == 1 {
      ParentSpan(p);
      MergeChainHas(Parent(p), q);
      WithinStep(p, q);
    } else if Within(p, q) && q != p {
      LeftEndsFirst(p, q);
    }
  }

  /** Block `i` completes exactly the subtrees whose last block it is. */
  lemma {:induction false} BlockCompletes(i: nat, q: Pos)
    ensures q in MergeChain(Leaf(i)) <==> Hi(q) == i + 1
  {
    MergeChainHas(Leaf(i), q);
    ParentSpan(q);
    if Hi(q) == i + 1 {
      LeafWithin(i, q);
    }
  }

  lemma {:induction false} EmittedStep(m: nat, n: nat, q: Pos)
    requires m < n
    ensures q in Emitted(m, n) <==> q in Emitted(m, n - 1) || q in MergeChain(Leaf(n - 1))
  {
    var front, chain := Emitted(m, n - 1), MergeChain(Leaf(n - 1));
    assert Emitted(m, n) == front + chain;
  }

  /** Every complete subtree that ends in the appended blocks is emitted, and nothing else is. */
  lemma {:induction false} EmittedExactly(m: nat, n: nat, q: Pos)
    ensures q in Emitted(m, n) <==> m < Hi(q) <= n
    decreases n
  {
    if m < n {
      EmittedExactly(m, n - 1, q);
      BlockCompletes(n - 1, q);
      EmittedStep(m, n, q);
    }
  }

  lemma {:induction false} MergeChainDepths(p: Pos, k: nat)
    requires k < |MergeChain(p)|
    ensures MergeChain(p)[k].depth == p.depth + k && Hi(MergeChain(p)[k]) == Hi(p)
    decreases p.offset
  {
    if k > 0 {
      ParentSpan(p);
      MergeChainDepths(Parent(p), k - 1);
    }
  }

  /** `a` is completed before `b`: it ends earlier, or ends with it further down. */
  predicate Before(a: Pos, b: Pos) {
    Hi(a) < Hi(b) || (Hi(a) == Hi(b) && a.depth < b.depth)
  }

  /** Nodes come out strictly in order, so each exactly once and after its children. */
  lemma {:induction false} EmittedInOrder(m: nat, n: nat, a: nat, b: nat)
    requires a < b < |Emitted(m, n)|
    ensures Before(Emitted(m, n)[a], Emitted(m, n)[b])
    decreases n
  {
    var front, chain := Emitted(m, n - 1), MergeChain(Leaf(n - 1));
    assert Emitted(m, n) == front + chain;
    if b < |front| {
      EmittedInOrder(m, n - 1, a, b);
    } else if a < |front| {
      EarlierEmitted(m, n - 1, a, b - |front|);
    } else {
      ChainElement(n - 1, a - |front|);
      ChainElement(n - 1, b - |front|);
    }
  }

  /** What earlier blocks complete comes before what block `n` completes. */
  lemma {:induction false} EarlierEmitted(m: nat, n: nat, a: nat, k: nat)
    requires a < |Emitted(m, n)| && k < |MergeChain(Leaf(n))|
    ensures Before(Emitted(m, n)[a], MergeChain(Leaf(n))[k])
  {
    EmittedExactly(m, n, Emitted(m, n)[a]);
    ChainElement(n, k);
  }

  lemma {:induction false} ChainElement(i: nat, k: nat)
    requires k < |MergeChain(Leaf(i))|
    ensures MergeChain(Leaf(i))[k].depth == k && Hi(MergeChain(Leaf(i))[k]) == i + 1
  {
    MergeChainDepths(Leaf(i), k);
  }

  lemma {:induction false} ChildrenBefore(q: Pos)
    requires q.depth > 0
    ensures Before(LeftChild(q), q) && Before(RightChild(q), q)
  {
    ChildSpans(q);
  }

  lemma {:induction false} MergeChainCount(p: Pos)
    ensures |MergeChain(p)| + |Roots(Hi(p))| == |Roots(Lo(p))| + 2
    decreases p.offset
  {
    RootsStep(p);
    if p.offset % 2 == 1 {
      ParentSpan(p);
      MergeChainCount(Parent(p));
    }
  }

  /** From an empty tree, n appends emit 2n nodes less the roots that remain. */
  lemma {:induction false} EmittedCount(n: nat)
    ensures |Emitted(0, n)| + |Roots(n)| == 2 * n
  {
    if n > 0 {
      EmittedCount(n - 1);
      MergeChainCount(Leaf(n - 1));
    }
  }

  // ---------------------------------------------------------------- appending a batch

  /** Appending one block of the log. */
  lemma {:induction false} AppendOne(log: seq<Block>, d: Draft)
    requires d.length < |log| && d.roots == NodesAt(log, Roots(d.length))
    ensures var d' := AppendRootSpec(d, BlockNode(Leaf(d.length), log[d.length])).0;
            && d'.length == d.length + 1 && d'.roots == NodesAt(log, Roots(d.length + 1)) && d'.upgraded
            && d'.nodes == d.nodes + NodesAt(log, MergeChain(Leaf(d.length)))
            && d'.byteLength == d.byteLength + |log[d.length]|
  {
    var n := d.length;
    LeafIs(log, n);
    AppendRootHonest(log, d, Leaf(n));
    AppendRootCounts(d, NodeAt(log, Leaf(n)));
  }

  lemma {:induction false} LeafIs(log: seq<Block>, n: nat)
    requires n < |log|
    ensures NodeAt(log, Leaf(n)) == BlockNode(Leaf(n), log[n]) && Lo(Leaf(n)) == n && Hi(Leaf(n)) == n + 1
  {
  }

  lemma {:induction false} AppendRootCounts(d: Draft, node: Node)
    ensures var d' := AppendRootSpec(d, node).0; d'.upgraded && d'.byteLength == d.byteLength + node.length
  {
  }

  lemma {:induction false} AppendNext(log: seq<Block>, d: Draft, m: nat)
    requires m <= d.length < |log| && d.roots == NodesAt(log, Roots(d.length))
             && d.nodes == NodesAt(log, Emitted(m, d.length))
    requires d.byteLength == ByteStart(log, d.length)
    ensures var n := d.length + 1;
            var d' := AppendRootSpec(d, BlockNode(Leaf(d.length), log[d.length])).0;
            d' == Draft(n, ByteStart(log, n), true, NodesAt(log, Roots(n)), NodesAt(log, Emitted(m, n)))
            && ByteStart(log, n) == ByteStart(log, d.length) + |log[d.length]|
  {
    AppendOne(log, d);
    NodesAtConcat(log, Emitted(m, d.length), MergeChain(Leaf(d.length)));
  }

  /** The changeset of a batch: the writer's next roots and every node completed, once and in order. */
  method AppendBatch(cs: Changeset, batch: seq<Block>, ghost log: seq<Block>) returns (batchBytes: nat)
    requires cs.length <= |log| && log[cs.length..] == batch
    requires cs.roots == NodesAt(log, Roots(cs.length)) && cs.nodes == [] && cs.byteLength == ByteStart(log, cs.length)
    modifies cs`length, cs`byteLength, cs`roots, cs`nodes, cs`upgraded, cs`batchLength
    ensures cs.length == |log| && cs.roots == NodesAt(log, Roots(|log|))
    ensures cs.nodes == NodesAt(log, Emitted(old(cs.length), |log|))
    ensures cs.batchLength == old(cs.batchLength) + |batch|
    ensures cs.byteLength == old(cs.byteLength) + batchBytes == ByteStart(log, |log|)
    ensures batch != [] ==> cs.upgraded
    ensures batch == [] ==> cs.View() == old(cs.View())
  {
    batchBytes := 0;
    ghost var m := cs.length;
    for k := 0 to |batch|
      invariant Reached(cs, log, m, m + k) && (k > 0 ==> cs.upgraded)
      invariant cs.batchLength == old(cs.batchLength) + k && cs.byteLength == old(cs.byteLength) + batchBytes
      invariant k == 0 ==> cs.View() == old(cs.View())
    {
      assert batch[k] == log[m + k];
      var size := AppendBlock(cs, batch[k], log, m);
      batchBytes := batchBytes + size;
    }
  }

  /** The changeset that started at `m` blocks has got to `n`. */
  ghost predicate Reached(cs: Changeset, log: seq<Block>, m: nat, n: nat)
    reads cs
  {
    && cs.length == n && cs.byteLength == ByteStart(log, n)
    && cs.roots == NodesAt(log, Roots(n)) && cs.nodes == NodesAt(log, Emitted(m, n))
  }

  method AppendBlock(cs: Changeset, block: Block, ghost log: seq<Block>, ghost m: nat) returns (size: nat)
    requires m <= cs.length < |log| && block == log[cs.length] && Reached(cs, log, m, cs.length)
    modifies cs`length, cs`byteLength, cs`roots, cs`nodes, cs`upgraded, cs`batchLength
    ensures Reached(cs, log, m, old(cs.length) + 1) && cs.upgraded
    ensures cs.batchLength == old(cs.batchLength) + 1 && cs.byteLength == old(cs.byteLength) + size
  {
    AppendNext(log, cs.View(), m);
    size := cs.Append(block);
  }

  // ---------------------------------------------------------------- nodes never change

  lemma {:induction false} NodeAtStable(log: seq<Block>, more: seq<Block>, p: Pos)
    requires Hi(p) <= |log|
    ensures NodeAt(log + more, p) == NodeAt(log, p)
    decreases p.depth
  {
    if p.depth > 0 {
      ChildSpans(p);
      NodeAtStable(log, more, LeftChild(p));
      NodeAtStable(log, more, RightChild(p));
    }
  }

  lemma {:induction false} RootsStable(log: seq<Block>, more: seq<Block>, n: nat)
    requires n <= |log|
    ensures NodesAt(log + more, Roots(n)) == NodesAt(log, Roots(n))
  {
    forall i | 0 <= i < |Roots(n)|
      ensures NodeAt(log + more, Roots(n)[i]) == NodeAt(log, Roots(n)[i])
    {
      RootsSpan(n, i);
      NodeAtStable(log, more, Roots(n)[i]);
    }
  }
}
