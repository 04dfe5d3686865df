/** Opening a core from its stores (`Hypercore::new`): header, roots, bitfield pages, then the logged entries. */
module Recovery {
  import opened Common
  import opened FlatTree
  import opened Hashes
  import opened Changesets
  import opened Verify
  import opened Prover
  import opened MerkleTrees
  import opened Offsets
  import opened FixedBitfields
  import opened DynamicBitfields
  import opened Storage
  import opened Durability
  import opened CoreState
  import opened Core
  import opened Hints

  /** A tree over the log that knows only nodes of the log. */
  ghost predicate TreeAt(log: seq<Block>, t: Tree) {
    t == TreeOver(log, t.length, t.fork, t.view) && t.length <= |log| && ExactNodes(log, t.view)
  }

  /** Header and tree have the same length, fork and signature, and the signature is the writer's. */
  ghost predicate InStep(tree: MerkleTree, header: Header, log: seq<Block>)
    reads tree
  {
    && header.length == tree.length && header.fork == tree.fork && header.signature == tree.signature
    && HeaderSigned(log, header)
  }

  method ReplayNodes(tree: MerkleTree, nodes: seq<Node>, ghost store: View, ghost log: seq<Block>)
    requires tree.Coherent(store) && ExactNodes(log, tree.ViewOf(store))
    requires forall x :: x in nodes ==> x == NodeAt(log, x.pos)
    modifies tree`unflushed
    ensures tree.Coherent(store) && tree.ViewOf(store) == AddNodes(old(tree.ViewOf(store)), nodes)
  {
    for k := 0 to |nodes|
      invariant tree.Coherent(store) && ExactNodes(log, tree.ViewOf(store))
      invariant tree.ViewOf(store) == AddNodes(old(tree.ViewOf(store)), nodes[..k])
    {
      assert nodes[..k + 1][..k] == nodes[..k] && nodes[k] in nodes;
      tree.AddNode(nodes[k], store);
    }
    assert nodes[..|nodes|] == nodes;
  }

  /** Moves the tree to the length of a logged upgrade. */
  method ReplayUpgrade(tree: MerkleTree, u: TreeUpgrade, store: View, ghost log: seq<Block>) returns (r: Result<Hash>)
    requires tree.Coherent(store) && TreeAt(log, tree.TreeOf(store))
    requires tree.length == u.ancestors <= u.length <= |log| && RootsIn(tree.ViewOf(store), u.length)
    modifies tree
    ensures r == Ok(TreeHash(NodesAt(log, Roots(u.length))))
    ensures tree.Coherent(store) && tree.TreeOf(store) == TreeOver(log, u.length, u.fork, old(tree.ViewOf(store)))
    ensures tree.signature == u.signature
  {
    TotalBytes(log, u.length);
    var truncated := tree.Truncate(u.length, u.fork, store, log);
    match truncated
    case Err(error) =>
      r := Err(error);
    case Ok(cs) =>
      cs.ancestors := u.ancestors;
      cs.hash := Some(TreeHash(cs.roots));
      cs.signature := u.signature;
      CommitLength(tree, cs, u.length, store, log);
      r := Ok(TreeHash(cs.roots));
  }

  /** Commits a changeset that only moves the tree to another length. */
  method CommitLength(tree: MerkleTree, cs: Changeset, ghost n: nat, ghost store: View, ghost log: seq<Block>)
    requires cs.View() == Draft(n, ByteStart(log, n), true, NodesAt(log, Roots(n)), [])
    requires cs.ancestors >= cs.originalLength && tree.Commitable(cs) && tree.Coherent(store)
    modifies tree
    ensures tree.Coherent(store) && tree.TreeOf(store) == TreeOver(log, n, cs.fork, old(tree.ViewOf(store)))
    ensures tree.signature == cs.signature
  {
    var done := tree.Commit(cs, store);
  }

  /** Replays what an entry says about the tree. */
  method ReplayTree(tree: MerkleTree, e: Entry, header: Header, store: View,
                    ghost log: seq<Block>) returns (r: Result<Header>)
    requires tree.Coherent(store) && TreeAt(log, tree.TreeOf(store)) && InStep(tree, header, log)
    requires EntryFits(log, tree.ViewOf(store), tree.length, tree.fork, e)
    modifies tree
    ensures tree.Coherent(store) && TreeAt(log, tree.TreeOf(store))
    ensures tree.TreeOf(store) == TreeWith(log, old(tree.TreeOf(store)), e)
    ensures r.Ok? && InStep(tree, r.value, log) && r.value.contiguous == header.contiguous
  {
    ExactlyAdded(log, tree.ViewOf(store), e.nodes);
    ReplayNodes(tree, e.nodes, store, log);
    if e.upgrade.None? {
      return Ok(header);
    }
    var hash := ReplayUpgrade(tree, e.upgrade.value, store, log);
    r := Ok(header.(rootHash := Some(hash.value), signature := e.upgrade.value.signature,
                    length := e.upgrade.value.length));
  }

  lemma {:induction false} ExactlyAdded(log: seq<Block>, view: View, nodes: seq<Node>)
    requires ExactNodes(log, view) && forall x :: x in nodes ==> x == NodeAt(log, x.pos)
    ensures ExactNodes(log, AddNodes(view, nodes))
  {
    AddNodesView(view, nodes);
  }

  /** Replays what an entry says about the bitfield. */
  method ReplayBits(bitfield: DynamicBitfield, e: Entry, c0: nat, ghost bound: nat,
                    ghost store: seq<Byte>) returns (c: nat)
    requires bitfield.Valid() && Below(BitsOf(bitfield.Words()), bound)
    requires e.bitfield.Some? && !e.bitfield.value.drop ==> e.bitfield.value.start + e.bitfield.value.length <= bound
    modifies bitfield
    ensures bitfield.Valid() && Below(BitsOf(bitfield.Words()), bound)
    ensures forall i: nat :: i in BitsOf(bitfield.Words()) <==> ApplyUpdate(e, i, i in old(BitsOf(bitfield.Words())))
    ensures bound <= 8192 && old(PagesClean(bitfield.Words(), bitfield.unflushed, store)) ==>
              PagesClean(bitfield.Words(), bitfield.unflushed, store)
    ensures HintMoves(e, BitsOf(bitfield.Words()), c0, c)
  {
    if e.bitfield.None? {
      assert BitsOf(bitfield.Words()) == old(BitsOf(bitfield.Words()));
      return c0;
    }
    var u := e.bitfield.value;
    WriteBits(bitfield, u.start, u.length, !u.drop, bound, store);
    c := UpdateContiguousLength(c0, bitfield, u, bound);
  }

  /** The bits that replay has reached after the first `k` entries. */
  ghost predicate BitsAfter(words: Pages, stored: iset<nat>, es: seq<Entry>) {
    forall i: nat :: i in BitsOf(words) <==> AfterUpdates(es, i, i in stored)
  }

  lemma {:induction false} BitsAfterSnoc(was: Pages, now: Pages, stored: iset<nat>, es: seq<Entry>, e: Entry)
    requires BitsAfter(was, stored, es)
    requires forall i: nat :: i in BitsOf(now) <==> ApplyUpdate(e, i, i in BitsOf(was))
    ensures BitsAfter(now, stored, es + [e])
  {
    forall i: nat
      ensures i in BitsOf(now) <==> AfterUpdates(es + [e], i, i in stored)
    {
      AfterUpdatesSnoc(es, e, i, i in stored);
    }
  }

  /** One entry on top of those in `front`. */
  method ReplayEntry(tree: MerkleTree, bitfield: DynamicBitfield, e: Entry, header0: Header, store: View,
                     ghost log: seq<Block>,
                     ghost pages: seq<Byte>, ghost bound: nat, ghost stored: iset<nat>, ghost front: seq<Entry>)
    returns (header: Header)
    requires tree.Coherent(store) && TreeAt(log, tree.TreeOf(store)) && InStep(tree, header0, log)
    requires EntryFits(log, tree.ViewOf(store), tree.length, tree.fork, e) && |log| <= bound
    requires bitfield.Valid() && Below(BitsOf(bitfield.Words()), bound) && BitsAfter(bitfield.Words(), stored, front)
    modifies tree, bitfield
    ensures tree.Coherent(store) && TreeAt(log, tree.TreeOf(store)) && InStep(tree, header, log)
    ensures tree.TreeOf(store) == TreeWith(log, old(tree.TreeOf(store)), e)
    ensures bitfield.Valid() && Below(BitsOf(bitfield.Words()), bound)
            && BitsAfter(bitfield.Words(), stored, front + [e])
    ensures bound <= 8192 && old(PagesClean(bitfield.Words(), bitfield.unflushed, pages)) ==>
              PagesClean(bitfield.Words(), bitfield.unflushed, pages)
    ensures HintMoves(e, BitsOf(bitfield.Words()), header0.contiguous, header.contiguous)
  {
    ghost var was := bitfield.Words();
    var c := ReplayBits(bitfield, e, header0.contiguous, bound, pages);
    BitsAfterSnoc(was, bitfield.Words(), stored, front, e);
    var step := ReplayTree(tree, e, header0.(contiguous := c), store, log);
    header := step.value;
  }

  /** Entry `k` fits the tree that the ones before it lead to. */
  lemma {:induction false} NextFits(log: seq<Block>, d: Disk, es: seq<Entry>, k: nat)
    requires Chain(log, d.tree, d.header.length, d.header.fork, es) && k < |es|
    ensures var t := TreeAfter(log, d, es[..k]); EntryFits(log, t.view, t.length, t.fork, es[k])
    ensures es[..k + 1] == es[..k] + [es[k]]
            && TreeAfter(log, d, es[..k + 1]) == TreeWith(log, TreeAfter(log, d, es[..k]), es[k])
  {
    assert es[..k + 1] == es[..k] + [es[k]];
    TreeAfterSnoc(log, d, es[..k], es[k]);
  }

  /** Tree, bitfield and header are what the entries in `front` make of the stores. */
  ghost predicate Reached(tree: MerkleTree, bitfield: DynamicBitfield, header: Header, log: seq<Block>, d: Disk,
                          bound: nat, stored: iset<nat>, front: seq<Entry>)
    reads tree, bitfield
  {
    && tree.Coherent(d.tree) && TreeAt(log, tree.TreeOf(d.tree)) && tree.TreeOf(d.tree) == TreeAfter(log, d, front)
    && InStep(tree, header, log)
    && bitfield.Valid() && Below(BitsOf(bitfield.Words()), bound) && BitsAfter(bitfield.Words(), stored, front)
  }

  /** One entry further. */
  method ReplayNext(tree: MerkleTree, bitfield: DynamicBitfield, es: seq<Entry>, k: nat, header0: Header, store: View,
                    ghost log: seq<Block>, ghost d: Disk, ghost bound: nat, ghost stored: iset<nat>)
    returns (header: Header)
    requires d.tree == store && Chain(log, store, d.header.length, d.header.fork, es) && k < |es| && |log| <= bound
    requires Reached(tree, bitfield, header0, log, d, bound, stored, es[..k])
    modifies tree, bitfield
    ensures Reached(tree, bitfield, header, log, d, bound, stored, es[..k + 1])
    ensures HintMoves(es[k], BitsBefore(es, stored, k + 1), header0.contiguous, header.contiguous)
    ensures bound <= 8192 && old(PagesClean(bitfield.Words(), bitfield.unflushed, d.bitfield)) ==>
              PagesClean(bitfield.Words(), bitfield.unflushed, d.bitfield)
  {
    NextFits(log, d, es, k);
    header := ReplayEntry(tree, bitfield, es[k], header0, store, log, d.bitfield, bound, stored, es[..k]);
    assert BitsOf(bitfield.Words()) == BitsBefore(es, stored, k + 1);
  }

  /** Entry by entry: nodes, bits, upgrade. */
  method ReplayEntries(tree: MerkleTree, bitfield: DynamicBitfield, es: seq<Entry>, header0: Header, store: View,
                       ghost log: seq<Block>, ghost d: Disk, ghost bound: nat)
    returns (header: Header, ghost hints: seq<nat>)
    requires d.tree == store && Chain(log, store, d.header.length, d.header.fork, es) && |log| <= bound
    requires Reached(tree, bitfield, header0, log, d, bound, BitsOf(bitfield.Words()), [])
    modifies tree, bitfield
    ensures Reached(tree, bitfield, header, log, d, bound, old(BitsOf(bitfield.Words())), es)
    ensures bound <= 8192 && old(PagesClean(bitfield.Words(), bitfield.unflushed, d.bitfield)) ==>
              PagesClean(bitfield.Words(), bitfield.unflushed, d.bitfield)
    ensures Traced(es, old(BitsOf(bitfield.Words())), hints) && hints[0] == header0.contiguous
            && hints[|es|] == header.contiguous
  {
    header, hints := header0, [header0.contiguous];
    ghost var stored := BitsOf(bitfield.Words());
    assert es[..0] == [];
    for k := 0 to |es|
      invariant Reached(tree, bitfield, header, log, d, bound, stored, es[..k])
      invariant bound <= 8192 && old(PagesClean(bitfield.Words(), bitfield.unflushed, d.bitfield)) ==>
                  PagesClean(bitfield.Words(), bitfield.unflushed, d.bitfield)
      invariant TracedTo(es, stored, hints, k) && hints[0] == header0.contiguous && hints[k] == header.contiguous
    {
      header := ReplayNext(tree, bitfield, es, k, header, store, log, d, bound, stored);
      TracedNext(es, stored, hints, k, header.contiguous);
      hints := hints + [header.contiguous];
    }
    assert es[..|es|] == es;
  }

  // ---------------------------------------------------------------- opening

  lemma {:induction false} OpenedTree(log: seq<Block>, store: View, h: nat)
    requires NodesInside(log, store) && RootsIn(store, h)
    ensures Lookup(store, Roots(h)) == NodesAt(log, Roots(h))
            && TotalLength(NodesAt(log, Roots(h))) == ByteStart(log, h)
    ensures ExactNodes(log, store) && forall p :: p in store ==> store[p].pos == p
  {
    TotalBytes(log, h);
  }

  method OpenRoots(d: Disk, cached: bool, ghost log: seq<Block>) returns (r: Result<MerkleTree>)
    requires d.header.length <= |log| && NodesInside(log, d.tree) && RootsIn(d.tree, d.header.length)
    ensures r.Ok? && fresh(r.value) && r.value.Coherent(d.tree)
    ensures TreeAt(log, r.value.TreeOf(d.tree)) && r.value.TreeOf(d.tree) == TreeAfter(log, d, [])
    ensures r.value.signature == d.header.signature
  {
    OpenedTree(log, d.tree, d.header.length);
    r := OpenTree(d.header.length, d.header.fork, d.header.signature, cached, d.tree);
    assert d.tree + map[] == d.tree;
  }

  lemma {:induction false} OpenedClean(store: seq<Byte>)
    requires store == [] || |store| == PAGE_BYTES
    requires Below(BitsOf(OpenedPages(store)), 8192)
    ensures PagesClean(OpenedPages(store), [], store)
  {
    UpperPagesEmpty(OpenedPages(store), 8192);
  }

  method OpenBits(store: seq<Byte>) returns (r: Result<DynamicBitfield>)
    requires store == [] || |store| == PAGE_BYTES
    requires Below(BitsOf(OpenedPages(store)), 8192)
    ensures r.Ok? && fresh(r.value) && r.value.Valid() && r.value.Words() == OpenedPages(store)
    ensures PagesClean(r.value.Words(), r.value.unflushed, store)
  {
    OpenedClean(store);
    var pages := OpenPages(store);
    var bitfield := new DynamicBitfield.Opened(pages.value);
    r := Ok(bitfield);
  }

  /** Tree, bitfield and header as they are opened and replayed. */
  method OpenParts(d: Disk, cached: bool, ghost log: seq<Block>, ghost t: Tree, ghost bits: iset<nat>)
    returns (tree: MerkleTree, bitfield: DynamicBitfield, header: Header, ghost hints: seq<nat>)
    requires Opens(d, log, t, bits)
    ensures fresh(tree) && fresh(bitfield) && tree.Coherent(d.tree) && tree.TreeOf(d.tree) == t
    ensures bitfield.Valid() && BitsOf(bitfield.Words()) == bits && InStep(tree, header, log)
    ensures |log| <= 8192 ==> PagesClean(bitfield.Words(), bitfield.unflushed, d.bitfield)
    ensures TracedFrom(d, hints) && hints[|d.entries.value|] == header.contiguous
  {
    ghost var bound: nat := if |log| <= 8192 then 8192 else |log|;
    var roots := OpenRoots(d, cached, log);
    var pages := OpenBits(d.bitfield);
    tree, bitfield := roots.value, pages.value;
    header, hints := ReplayEntries(tree, bitfield, d.entries.value, d.header, d.tree, log, d, bound);
    assert BitsOf(bitfield.Words()) == bits;
  }

  /** The hints of a replay of the disk's entries, from its header's hint on. */
  ghost predicate TracedFrom(d: Disk, hints: seq<nat>) {
    d.entries.Known? && Traced(d.entries.value, BitsOf(OpenedPages(d.bitfield)), hints)
    && hints[0] == d.header.contiguous
  }

  lemma {:induction false} ReplayedBits(d: Disk, log: seq<Block>, t: Tree, bits: iset<nat>)
    requires Opens(d, log, t, bits)
    ensures bits == BitsBefore(d.entries.value, BitsOf(OpenedPages(d.bitfield)), |d.entries.value|)
  {
    assert d.entries.value[..|d.entries.value|] == d.entries.value;
  }

  /**
   Opening stores gives a core with exactly the log, the tree and the blocks that they stand for, a writer's core or a
   replica's. The recovered hint is right if and only if no replayed clear has left a block behind.
   */
  method Open(d: Disk, writable: bool, cached: bool, ghost m: Meaning) returns (r: Result<Hypercore>,
              ghost hints: seq<nat>)
    requires Means(d, m) && FollowingTree(m.log, m.tree, m.bits)
    ensures r.Ok? && fresh(r.value) && fresh(r.value.tree) && fresh(r.value.bitfield)
    ensures r.value.Following() && r.value.Meant() == m && (WriterTree(m.log, m.tree) ==> r.value.Valid())
    ensures r.value.disk == d && r.value.writable == writable && r.value.journal == []
    ensures r.value.entriesBytes == 0 && r.value.skipFlushCount == 0
    ensures |m.log| <= 8192 ==> r.value.Durably()
    ensures TracedFrom(d, hints) && hints[|d.entries.value|] == r.value.header.contiguous
    ensures FirstUnset(BitsOf(OpenedPages(d.bitfield)), d.header.contiguous) ==>
              (FirstUnset(m.bits, r.value.header.contiguous) <==> !SomeLeftBehind(d.entries.value, hints))
  {
    var tree, bitfield, header;
    tree, bitfield, header, hints := OpenParts(d, cached, m.log, m.tree, m.bits);
    var core := new Hypercore.Opened(tree, bitfield, writable, header, d, m.log);
    if FirstUnset(BitsOf(OpenedPages(d.bitfield)), d.header.contiguous) {
      ReplayedBits(d, m.log, m.tree, m.bits);
      ReplayedHintIsRight(d.entries.value, BitsOf(OpenedPages(d.bitfield)), hints);
    }
    r := Ok(core);
  }

  /** Two writer's cores with the same log have the same tree, however they came by it. */
  lemma {:induction false} TreesAgree(log: seq<Block>, a: Tree, b: Tree)
    requires WriterTree(log, a) && WriterTree(log, b)
    ensures a.length == b.length && a.byteLength == b.byteLength && a.roots == b.roots && a.view == b.view
  {
  }
}
