/** What the steps of a core (src/core.rs) do to its stores, its bits and its tree, as facts about values. */
module CoreState {
  import opened Common
  import opened FlatTree
  import opened Hashes
  import opened Changesets
  import opened Verify
  import opened Soundness
  import opened Completeness
  import opened Prover
  import opened MerkleTrees
  import opened Accumulator
  import opened Offsets
  import opened FixedBitfields
  import opened DynamicBitfields
  import opened Storage
  import opened Durability

  /** The tree of the writer of `log`, with every complete subtree's node known. */
  ghost predicate WriterTree(log: seq<Block>, t: Tree) {
    && t.length == |log| && t.roots == NodesAt(log, Roots(|log|)) && t.byteLength == ByteStart(log, |log|)
    && (forall p :: p in t.view <==> Hi(p) <= |log|)
    && ExactNodes(log, t.view)
  }

  /** The tree is part of the writer's, and knows every block that is held. */
  ghost predicate FollowingTree(log: seq<Block>, t: Tree, bits: iset<nat>) {
    Honest(log, t) && forall i: nat :: i in bits ==> Leaf(i) in t.view
  }

  lemma {:induction false} LeavesInside(log: seq<Block>, t: Tree, bits: iset<nat>)
    requires FollowingTree(log, t, bits)
    ensures Below(bits, t.length) && Below(bits, |log|)
  {
    forall i: nat | i in bits
      ensures i < t.length
    {
      var root := KnownUnderRoot(log, t, Leaf(i));
    }
  }

  /** A tree that is part of the writer's is one over its nodes, which are nodes of the log. */
  lemma {:induction false} HonestIsOver(log: seq<Block>, t: Tree)
    requires Honest(log, t)
    ensures t == TreeOver(log, t.length, t.fork, t.view) && NodesInside(log, t.view) && RootsIn(t.view, t.length)
  {
    TotalBytes(log, t.length);
    forall p | p in t.view
      ensures Hi(p) <= |log|
    {
      var root := KnownUnderRoot(log, t, p);
    }
    forall j | 0 <= j < |Roots(t.length)|
      ensures Roots(t.length)[j] in t.view
    {
      RootIsKnown(log, t, j);
    }
  }

  /** `c` is the first index that is not held. */
  ghost predicate FirstUnset(bits: iset<nat>, c: nat) {
    c !in bits && forall i: nat :: i < c ==> i in bits
  }

  /** What the core looks like from outside: a sequence of blocks that are held or not. */
  ghost function ContentOf(log: seq<Block>, bits: iset<nat>): seq<Option<Block>> {
    seq(|log|, i requires 0 <= i < |log| => if i in bits then Some(log[i]) else None)
  }

  function ReadData(data: map<nat, Byte>, offset: nat, length: nat): Option<seq<Byte>> {
    if length == 0 then Some([])
    else
      var front := ReadData(data, offset, length - 1);
      if front.None? || offset + length - 1 !in data then None else Some(front.value + [data[offset + length - 1]])
  }

  lemma {:induction false} ReadStored(data: map<nat, Byte>, offset: nat, bytes: seq<Byte>)
    requires Stored(data, offset, bytes)
    ensures ReadData(data, offset, |bytes|) == Some(bytes)
  {
    if bytes != [] {
      ReadStored(data, offset, bytes[..|bytes| - 1]);
      assert bytes[..|bytes| - 1] + [bytes[|bytes| - 1]] == bytes;
    }
  }

  // ---------------------------------------------------------------- contiguous length

  ghost predicate Below(bits: iset<nat>, bound: nat) {
    forall i: nat :: i in bits ==> i < bound
  }

  /** All bits in [end, c) are set and `c` is not. */
  ghost predicate RunEnds(bits: iset<nat>, end: nat, c: nat) {
    c >= end && c !in bits && forall i: nat :: end <= i < c ==> i in bits
  }

  /** What `update_contiguous_length` makes of the hint when a clear is replayed. */
  function AfterReplayedClear(c: nat, start: nat, end: nat): nat {
    if start < c <= end then start else c
  }

  /** What `clear` itself makes of it. */
  function AfterClear(c: nat, start: nat): nat {
    if start < c then start else c
  }

  /** `update_contiguous_length` after the bitfield has been updated. */
  method UpdateContiguousLength(c0: nat, bitfield: DynamicBitfield, update: BitfieldUpdate,
                                ghost bound: nat) returns (c: nat)
    requires bitfield.Valid() && Below(BitsOf(bitfield.Words()), bound)
    ensures var end := update.start + update.length;
            if update.drop then c == AfterReplayedClear(c0, update.start, end)
            else if update.start <= c0 <= end then RunEnds(BitsOf(bitfield.Words()), end, c)
            else c == c0
  {
    ghost var bits := BitsOf(bitfield.Words());
    var end: nat := update.start + update.length;
    c := c0;
    if update.drop {
      if c <= end && c > update.start {
        c := update.start;
      }
    } else if c <= end && c >= update.start {
      c := end;
      while bitfield.Get(c)
        invariant c >= end && forall i: nat :: end <= i < c ==> i in bits
        decreases bound - c
      {
        assert c in bits;
        c := c + 1;
      }
    }
  }

  /** Setting a range: the incremental hint stays the first unset index. */
  lemma {:induction false} HintAfterSet(bits: iset<nat>, c0: nat, c: nat, start: nat, end: nat)
    requires FirstUnset(bits, c0) && start <= end
    requires if start <= c0 <= end then RunEnds(Marked(bits, start, end, true), end, c) else c == c0
    ensures FirstUnset(Marked(bits, start, end, true), c)
  {
  }

  /** Clearing a range, as `clear` does it. */
  lemma {:induction false} HintAfterClear(bits: iset<nat>, c0: nat, start: nat, end: nat)
    requires FirstUnset(bits, c0) && start < end
    ensures FirstUnset(Marked(bits, start, end, false), AfterClear(c0, start))
  {
  }

  /**
   Replaying a logged clear leaves the first unset index exactly if the cleared range does not end before the hint.
   */
  lemma {:induction false} ReplayedHint(bits: iset<nat>, c: nat, start: nat, end: nat)
    requires FirstUnset(bits, c) && start < end
    ensures FirstUnset(Marked(bits, start, end, false), AfterReplayedClear(c, start, end)) <==> c <= end
  {
    if c > end {
      assert start !in Marked(bits, start, end, false);
    }
  }

  /** Three blocks held, the first one cleared and the clear replayed: the hint stays at 3. */
  lemma {:induction false} StaleHint()
    ensures var bits := iset{0, 1, 2};
            FirstUnset(bits, 3) && AfterReplayedClear(3, 0, 1) == 3 && !FirstUnset(Marked(bits, 0, 1, false), 3)
  {
    ReplayedHint(iset{0, 1, 2}, 3, 0, 1);
  }

  // ---------------------------------------------------------------- bitfield pages and store

  /** Only page 0 has bits or changes, and a page 0 without changes is what the store holds. */
  ghost predicate PagesClean(words: Pages, unflushed: seq<nat>, store: seq<Byte>) {
    && WellFormed(words)
    && (forall p :: p in unflushed ==> p == 0)
    && (forall p :: p > 0 ==> PageOf(words, p) == ZeroPage())
    && (store == [] || |store| == PAGE_BYTES)
    && (0 !in unflushed ==> BitfieldStored(store, BitsOf(words)))
  }

  lemma {:induction false} EmptyPage(words: Pages, p: nat)
    requires WellFormed(words) && forall j: nat :: j < PAGE_BITS ==> !BitInPage(words, p, j)
    ensures PageOf(words, p) == ZeroPage()
  {
    if PageOf(words, p) != ZeroPage() {
      var j := SomeBitDiffers(PageOf(words, p), ZeroPage());
      ZeroPageBit(j);
      assert BitInPage(words, p, j);
    }
  }

  lemma {:induction false} UpperPagesEmpty(words: Pages, bound: nat)
    requires WellFormed(words) && bound <= 8192 && Below(BitsOf(words), bound)
    ensures forall p :: p > 0 ==> PageOf(words, p) == ZeroPage()
  {
    forall p: nat | p > 0
      ensures PageOf(words, p) == ZeroPage()
    {
      forall j: nat | j < PAGE_BITS
        ensures !BitInPage(words, p, j)
      {
        PageBit(words, p, j);
        assert PAGE_BITS * p + j !in BitsOf(words);
      }
      EmptyPage(words, p);
    }
  }

  /** Bits depend only on the pages' words, whether a page exists or not. */
  lemma {:induction false} SamePages(was: Pages, now: Pages)
    requires WellFormed(was) && WellFormed(now) && forall p: nat :: PageOf(was, p) == PageOf(now, p)
    ensures BitsOf(was) == BitsOf(now)
  {
    forall i: nat
      ensures BitIn(was, i) <==> BitIn(now, i)
    {
      ZeroPageBit(i % PAGE_BITS);
      assert PageOf(was, i / PAGE_BITS) == PageOf(now, i / PAGE_BITS);
    }
  }

  lemma {:induction false} PagesStayClean(was: Pages, now: Pages, before: seq<nat>, listed: seq<nat>, store: seq<Byte>,
                                          bound: nat)
    requires PagesClean(was, before, store) && ListsChanges(was, now, before, listed) && WellFormed(now)
    requires bound <= 8192 && Below(BitsOf(now), bound)
    ensures PagesClean(now, listed, store)
  {
    UpperPagesEmpty(now, bound);
    if 0 !in listed {
      SamePages(was, now);
    }
  }

  /** A range write on the bitfield, as a change of the set of held blocks. */
  method WriteBits(bitfield: DynamicBitfield, start: nat, length: nat, value: bool, ghost bound: nat,
                   ghost store: seq<Byte>)
    requires bitfield.Valid() && Below(BitsOf(bitfield.Words()), bound) && (value ==> start + length <= bound)
    modifies bitfield
    ensures bitfield.Valid() && Below(BitsOf(bitfield.Words()), bound)
    ensures BitsOf(bitfield.Words()) == Marked(old(BitsOf(bitfield.Words())), start, start + length, value)
    ensures bound <= 8192 && old(PagesClean(bitfield.Words(), bitfield.unflushed, store)) ==>
              PagesClean(bitfield.Words(), bitfield.unflushed, store)
  {
    ghost var words, listed := bitfield.Words(), bitfield.unflushed;
    bitfield.Update(BitfieldUpdate(!value, start, length));
    RangeMarks(words, bitfield.Words(), start, start + length, value);
    if bound <= 8192 && PagesClean(words, listed, store) {
      PagesStayClean(words, bitfield.Words(), listed, bitfield.unflushed, store, bound);
    }
  }

  /** With few enough blocks, page 0 says everything. */
  lemma {:induction false} PageZeroHolds(words: Pages, bits: iset<nat>, bound: nat)
    requires WellFormed(words) && bits == BitsOf(words) && bound <= 8192 && Below(bits, bound)
    ensures PageHolds(PageOf(words, 0), bits)
  {
    var page := PageOf(words, 0);
    forall i: nat | i < PAGE_BITS
      ensures BitOf(page, i) <==> i in bits
    {
      PageBit(words, 0, i);
      ZeroPageBit(i);
    }
  }

  /** Page 0 is the only page written, and only if it changed. */
  lemma {:induction false} OnePageWritten(words: Pages, unflushed: seq<nat>, store: seq<Byte>)
    requires PagesClean(words, unflushed, store) && unflushed != []
    requires forall a, b :: 0 <= a < b < |unflushed| ==> unflushed[a] != unflushed[b]
    ensures PageWrites(words, unflushed) == [Write(0, BytesOf(PageOf(words, 0)))]
  {
    var last := |unflushed| - 1;
    assert unflushed[0] in unflushed && unflushed[last] in unflushed;
    assert last == 0;
    assert unflushed[..0] == [] && PageWrites(words, []) == [];
  }

  lemma {:induction false} WholePage(store: seq<Byte>, page: seq<Byte>)
    requires |page| == PAGE_BYTES && (store == [] || |store| == PAGE_BYTES)
    ensures ApplyWrites(store, [Write(0, page)]) == page
  {
    var w := Write(0, page);
    assert [w][..0] == [] && ApplyWrites(store, []) == store;
    assert ApplyWrite(store, w) == page;
  }

  /** After a flush the store holds exactly the bits. */
  lemma {:induction false} FlushedPages(words: Pages, unflushed: seq<nat>, store: seq<Byte>, bound: nat)
    requires PagesClean(words, unflushed, store)
    requires bound <= 8192 && Below(BitsOf(words), bound)
    requires forall a, b :: 0 <= a < b < |unflushed| ==> unflushed[a] != unflushed[b]
    ensures var ws := PageWrites(words, unflushed);
            && (unflushed == [] || ws == [Write(0, BytesOf(PageOf(words, 0)))])
            && BitfieldStored(ApplyWrites(store, ws), BitsOf(words)) && PagesClean(words, [], ApplyWrites(store, ws))
  {
    if unflushed != [] {
      PageZeroHolds(words, BitsOf(words), bound);
      StoredPageOpens(PageOf(words, 0), BitsOf(words));
      OnePageWritten(words, unflushed, store);
      WholePage(store, BytesOf(PageOf(words, 0)));
    }
  }

  // ---------------------------------------------------------------- crash states

  lemma {:induction false} AddedKeys(a: View, b: View, nodes: seq<Node>)
    requires forall p :: p in a ==> p in b
    ensures forall p :: p in AddNodes(a, nodes) ==> p in AddNodes(b, nodes)
  {
    AddNodesView(a, nodes);
    AddNodesView(b, nodes);
  }

  lemma {:induction false} ViewGrows(a: View, b: View, es: seq<Entry>)
    requires forall p :: p in a ==> p in b
    ensures forall p :: p in ViewAfter(a, es) ==> p in ViewAfter(b, es)
  {
    if es != [] {
      ViewGrows(a, b, es[..|es| - 1]);
      AddedKeys(ViewAfter(a, es[..|es| - 1]), ViewAfter(b, es[..|es| - 1]), es[|es| - 1].nodes);
    }
  }

  /** Entries that fit go on fitting when more nodes are stored. */
  lemma {:induction false} ChainGrows(log: seq<Block>, a: View, b: View, h: nat, fork: nat, es: seq<Entry>)
    requires Chain(log, a, h, fork, es) && forall p :: p in a ==> p in b
    ensures Chain(log, b, h, fork, es)
  {
    forall k | 0 <= k < |es|
      ensures EntryFits(log, ViewAfter(b, es[..k]), LengthAfter(h, es[..k]), fork, es[k])
    {
      ViewGrows(a, b, es[..k]);
      AddedKeys(ViewAfter(a, es[..k]), ViewAfter(b, es[..k]), es[k].nodes);
    }
  }

  /** Writing a node that the tree knows leaves the stores standing for the same tree. */
  lemma {:induction false} NodeWrittenKeeps(d: Disk, log: seq<Block>, t: Tree, bits: iset<nat>, p: Pos)
    requires Durable(d, log, t, bits) && p in t.view
    ensures Durable(AfterWrite(d, WriteNode(p, t.view[p])), log, t, bits)
  {
    var now := d.tree[p := t.view[p]];
    ChainLeads(log, d.tree, d.header.length, d.header.fork, d.entries.value);
    ChainGrows(log, d.tree, now, d.header.length, d.header.fork, d.entries.value);
    NodeWriteKeeps(d.tree, d.entries.value, p, t.view[p]);
  }

  /** `d` lies in the window between writing the next header and truncating the log. */
  predicate HeaderAhead(before: Disk, d: Disk) {
    d.header != before.header && d.entries != Known([])
  }

  /** What a flush needs to know about the stores. */
  ghost predicate Persistable(d: Disk, words: Pages, unflushed: seq<nat>, log: seq<Block>) {
    |log| <= 8192 && PagesClean(words, unflushed, d.bitfield)
  }

  lemma {:induction false} BitfieldFlushed(d: Disk, words: Pages, unflushed: seq<nat>, log: seq<Block>, t: Tree,
                                           bits: iset<nat>)
    requires Persistable(d, words, unflushed, log) && Durable(d, log, t, bits) && bits == BitsOf(words)
    requires forall a, b :: 0 <= a < b < |unflushed| ==> unflushed[a] != unflushed[b]
    ensures var ws := PageWrites(words, unflushed);
            |ws| <= 1 && Durable(d.(bitfield := ApplyWrites(d.bitfield, ws)), log, t, bits)
  {
    if unflushed == [] {
      assert d.(bitfield := d.bitfield) == d;
    } else {
      OnePageWritten(words, unflushed, d.bitfield);
      PageZeroHolds(words, bits, |log|);
      BitfieldWriteKeeps(d, log, t, bits, PageOf(words, 0));
      WholePage(d.bitfield, BytesOf(PageOf(words, 0)));
    }
  }

  /** The stores `d` stand for one of the two, unless they lie in the window after `before`. */
  ghost predicate Recoverable(before: Disk, d: Disk, m: Meaning, m': Meaning) {
    HeaderAhead(before, d) || Means(d, m) || Means(d, m')
  }

  /** A crash before, between or after any of the writes leaves recoverable stores. */
  ghost predicate CrashSafe(before: Disk, d: Disk, ws: seq<StoreWrite>, m: Meaning, m': Meaning) {
    forall k: nat :: k <= |ws| ==> Recoverable(before, AfterWrites(d, ws[..k]), m, m')
  }

  lemma {:induction false} CrashSafeConcat(before: Disk, d: Disk, a: seq<StoreWrite>, b: seq<StoreWrite>, m: Meaning,
                                           m': Meaning)
    requires CrashSafe(before, d, a, m, m')
    requires CrashSafe(before, AfterWrites(d, a), b, m, m')
    ensures CrashSafe(before, d, a + b, m, m')
  {
    forall k: nat | k <= |a + b|
      ensures Recoverable(before, AfterWrites(d, (a + b)[..k]), m, m')
    {
      if k <= |a| {
        assert (a + b)[..k] == a[..k];
      } else {
        assert (a + b)[..k] == a + b[..k - |a|];
        AfterWritesConcat(d, a, b[..k - |a|]);
      }
    }
  }

  /** From stores that stand for the old log by one write to stores that stand for either. */
  lemma {:induction false} OneWriteSafe(before: Disk, d: Disk, w: StoreWrite, m: Meaning, m': Meaning)
    requires Recoverable(before, d, m, m') && Recoverable(before, AfterWrite(d, w), m, m')
    ensures CrashSafe(before, d, [w], m, m') && AfterWrites(d, [w]) == AfterWrite(d, w)
  {
    AfterWritesSnoc(d, [], w);
    assert [] + [w] == [w] && [w][..0] == [] && [w][..1] == [w];
  }

  /** The writes of a flush: changed pages, unflushed nodes in some order, header, truncation. */
  function PageStores(ws: seq<Write>): seq<StoreWrite> {
    seq(|ws|, i requires 0 <= i < |ws| => WritePage(ws[i]))
  }

  function NodeStores(nodes: View, order: seq<Pos>): seq<StoreWrite>
    requires forall p :: p in order ==> p in nodes
  {
    seq(|order|, i requires 0 <= i < |order| => assert order[i] in order; WriteNode(order[i], nodes[order[i]]))
  }

  /** Every node once, in some order. */
  ghost predicate Enumerates(order: seq<Pos>, nodes: View) {
    Lists(order, nodes.Keys)
  }

  ghost predicate Lists(order: seq<Pos>, keys: set<Pos>) {
    (forall p :: p in order <==> p in keys) && forall a, b :: 0 <= a < b < |order| ==> order[a] != order[b]
  }

  lemma {:induction false} ListsSnoc(order: seq<Pos>, keys: set<Pos>, p: Pos)
    requires Lists(order, keys) && p !in keys
    ensures Lists(order + [p], keys + {p})
  {
    assert forall a :: 0 <= a < |order| ==> order[a] in order;
  }

  ghost function FlushWrites(pages: seq<Write>, nodes: View, order: seq<Pos>, header: Header): seq<StoreWrite>
    requires Enumerates(order, nodes)
  {
    PageStores(pages) + NodeStores(nodes, order) + [WriteHeader(header), CutEntries]
  }

  /** What the stores hold after each of the three parts. */
  lemma {:induction false} AfterPages(d: Disk, ws: seq<Write>)
    ensures AfterWrites(d, PageStores(ws)) == d.(bitfield := ApplyWrites(d.bitfield, ws))
  {
    if ws != [] {
      var front, last := ws[..|ws| - 1], ws[|ws| - 1];
      AfterPages(d, front);
      assert PageStores(ws) == PageStores(front) + [WritePage(last)];
      AfterWritesSnoc(d, PageStores(front), WritePage(last));
    }
  }

  lemma {:induction false} NodeStoresSnoc(nodes: View, order: seq<Pos>)
    requires order != [] && forall p :: p in order ==> p in nodes
    ensures var front, last := order[..|order| - 1], order[|order| - 1];
            && (forall p :: p in front ==> p in nodes) && last in nodes
            && NodeStores(nodes, order) == NodeStores(nodes, front) + [WriteNode(last, nodes[last])]
  {
    assert order == order[..|order| - 1] + [order[|order| - 1]];
    assert forall p :: p in order <==> p in order[..|order| - 1] || p == order[|order| - 1];
  }

  lemma {:induction false} AfterNodes(d: Disk, nodes: View, order: seq<Pos>)
    requires forall p :: p in order ==> p in nodes
    ensures var x := AfterWrites(d, NodeStores(nodes, order));
            && x == d.(tree := x.tree)
            && (forall p :: p in x.tree <==> p in d.tree || p in order)
            && forall p :: p in x.tree ==> x.tree[p] == if p in order then nodes[p] else d.tree[p]
  {
    if order != [] {
      var front, last := order[..|order| - 1], order[|order| - 1];
      NodeStoresSnoc(nodes, order);
      assert forall p :: p in order <==> p in front || p == last;
      AfterNodes(d, nodes, front);
      AfterWritesSnoc(d, NodeStores(nodes, front), WriteNode(last, nodes[last]));
    }
  }

  lemma {:induction false} AfterAllNodes(d: Disk, nodes: View, order: seq<Pos>)
    requires Enumerates(order, nodes)
    ensures AfterWrites(d, NodeStores(nodes, order)) == d.(tree := d.tree + nodes)
  {
    AfterNodes(d, nodes, order);
    assert AfterWrites(d, NodeStores(nodes, order)).tree == d.tree + nodes;
  }

  lemma {:induction false} AfterHeader(d: Disk, header: Header)
    ensures AfterWrites(d, [WriteHeader(header), CutEntries]) == d.(header := header, entries := Known([]))
  {
    AfterWritesSnoc(d, [], WriteHeader(header));
    AfterWritesSnoc(d, [WriteHeader(header)], CutEntries);
    assert [] + [WriteHeader(header)] == [WriteHeader(header)];
    assert [WriteHeader(header)] + [CutEntries] == [WriteHeader(header), CutEntries];
  }

  /** The stores after a whole flush. */
  ghost function Flushed(d: Disk, pages: seq<Write>, nodes: View, header: Header): Disk {
    d.(bitfield := ApplyWrites(d.bitfield, pages), tree := d.tree + nodes, header := header, entries := Known([]))
  }

  lemma {:induction false} AfterFlush(d: Disk, pages: seq<Write>, nodes: View, order: seq<Pos>, header: Header)
    requires Enumerates(order, nodes)
    ensures AfterWrites(d, FlushWrites(pages, nodes, order, header)) == Flushed(d, pages, nodes, header)
  {
    var a, b, c := PageStores(pages), NodeStores(nodes, order), [WriteHeader(header), CutEntries];
    AfterWritesConcat(d, a + b, c);
    AfterWritesConcat(d, a, b);
    AfterPages(d, pages);
    AfterAllNodes(d.(bitfield := ApplyWrites(d.bitfield, pages)), nodes, order);
    AfterHeader(AfterWrites(d, a + b), header);
  }

  lemma {:induction false} HeaderIsSafe(before: Disk, d: Disk, header: Header, m: Meaning)
    requires Means(d, m) && Means(d.(header := header, entries := Known([])), m) && d.header == before.header
    ensures CrashSafe(before, d, [WriteHeader(header), CutEntries], m, m)
  {
    var mid := d.(header := header);
    if header == before.header {
      assert mid == d;
    } else if d.entries == Known([]) {
      assert mid == d.(header := header, entries := Known([]));
    }
    assert mid.(entries := Known([])) == d.(header := header, entries := Known([]));
    OneWriteSafe(before, d, WriteHeader(header), m, m);
    OneWriteSafe(before, mid, CutEntries, m, m);
    CrashSafeConcat(before, d, [WriteHeader(header)], [CutEntries], m, m);
    assert [WriteHeader(header)] + [CutEntries] == [WriteHeader(header), CutEntries];
  }

  /** The nodes are nodes of the tree. */
  ghost predicate NodesOf(t: Tree, nodes: View) {
    forall p :: p in nodes ==> p in t.view && nodes[p] == t.view[p]
  }

  lemma {:induction false} NodesWrittenKeep(d: Disk, nodes: View, order: seq<Pos>, m: Meaning)
    requires Means(d, m) && NodesOf(m.tree, nodes) && forall p :: p in order ==> p in nodes
    ensures Means(AfterWrites(d, NodeStores(nodes, order)), m)
  {
    if order != [] {
      var front, last := order[..|order| - 1], order[|order| - 1];
      NodeStoresSnoc(nodes, order);
      NodesWrittenKeep(d, nodes, front, m);
      AfterWritesSnoc(d, NodeStores(nodes, front), WriteNode(last, nodes[last]));
      NodeWrittenKeeps(AfterWrites(d, NodeStores(nodes, front)), m.log, m.tree, m.bits, last);
    }
  }

  lemma {:induction false} NodesAreSafe(before: Disk, d: Disk, nodes: View, order: seq<Pos>, m: Meaning)
    requires Means(d, m) && NodesOf(m.tree, nodes) && forall p :: p in order ==> p in nodes
    ensures CrashSafe(before, d, NodeStores(nodes, order), m, m)
  {
    forall k: nat | k <= |order|
      ensures Recoverable(before, AfterWrites(d, NodeStores(nodes, order)[..k]), m, m)
    {
      assert NodeStores(nodes, order)[..k] == NodeStores(nodes, order[..k]);
      NodesWrittenKeep(d, nodes, order[..k], m);
    }
  }

  lemma {:induction false} PagesAreSafe(before: Disk, d: Disk, words: Pages, unflushed: seq<nat>, m: Meaning)
    requires Persistable(d, words, unflushed, m.log) && Means(d, m) && m.bits == BitsOf(words)
    requires forall a, b :: 0 <= a < b < |unflushed| ==> unflushed[a] != unflushed[b]
    ensures var ws := PageWrites(words, unflushed);
            && CrashSafe(before, d, PageStores(ws), m, m) && Means(d.(bitfield := ApplyWrites(d.bitfield, ws)), m)
  {
    var ws := PageWrites(words, unflushed);
    BitfieldFlushed(d, words, unflushed, m.log, m.tree, m.bits);
    AfterPages(d, ws);
    AtMostOneWrite(before, d, PageStores(ws), m);
  }

  lemma {:induction false} AtMostOneWrite(before: Disk, d: Disk, ws: seq<StoreWrite>, m: Meaning)
    requires |ws| <= 1 && Means(d, m) && Means(AfterWrites(d, ws), m)
    ensures CrashSafe(before, d, ws, m, m)
  {
    forall k: nat | k <= |ws|
      ensures Recoverable(before, AfterWrites(d, ws[..k]), m, m)
    {
      assert ws[..|ws|] == ws && ws[..0] == [];
    }
  }

  /** A crash anywhere in a flush leaves the same log, but for the window between header and truncation. */
  lemma {:induction false} FlushIsSafe(d: Disk, words: Pages, unflushed: seq<nat>, nodes: View, order: seq<Pos>,
                                       header: Header,
                                       m: Meaning)
    requires Persistable(d, words, unflushed, m.log) && Means(d, m) && m.bits == BitsOf(words)
    requires Means(Flushed(d, PageWrites(words, unflushed), nodes, header), m)
    requires forall a, b :: 0 <= a < b < |unflushed| ==> unflushed[a] != unflushed[b]
    requires NodesOf(m.tree, nodes) && Enumerates(order, nodes)
    ensures CrashSafe(d, d, FlushWrites(PageWrites(words, unflushed), nodes, order, header), m, m)
  {
    var pages := PageWrites(words, unflushed);
    var a, b, c := PageStores(pages), NodeStores(nodes, order), [WriteHeader(header), CutEntries];
    var d1 := d.(bitfield := ApplyWrites(d.bitfield, pages));
    var d2 := d1.(tree := d.tree + nodes);
    PagesAreSafe(d, d, words, unflushed, m);
    AfterPages(d, pages);
    NodesAreSafe(d, d1, nodes, order, m);
    NodesWrittenKeep(d1, nodes, order, m);
    AfterAllNodes(d1, nodes, order);
    CrashSafeConcat(d, d, a, b, m, m);
    AfterWritesConcat(d, a, b);
    assert d2.(header := header, entries := Known([])) == Flushed(d, pages, nodes, header);
    HeaderIsSafe(d, d2, header, m);
    CrashSafeConcat(d, d, a + b, c, m, m);
  }

  /** After a whole flush the stores stand for the log by themselves. */
  lemma {:induction false} FlushIsDurable(d: Disk, words: Pages, unflushed: seq<nat>, nodes: View, header: Header,
                                          log: seq<Block>,
                                          t: Tree)
    requires Persistable(d, words, unflushed, log) && Holds(d.data, log, BitsOf(words))
    requires header.length == t.length <= |log| && header.fork == t.fork && HeaderSigned(log, header)
    requires forall a, b :: 0 <= a < b < |unflushed| ==> unflushed[a] != unflushed[b]
    requires t == TreeOver(log, t.length, t.fork, d.tree + nodes) && NodesInside(log, t.view)
             && RootsIn(t.view, t.length)
    ensures var now := Flushed(d, PageWrites(words, unflushed), nodes, header);
            Durable(now, log, t, BitsOf(words)) && Persistable(now, words, [], log)
  {
    var pages := PageWrites(words, unflushed);
    FlushedPages(words, unflushed, d.bitfield, |log|);
    var d1 := d.(bitfield := ApplyWrites(d.bitfield, pages), tree := d.tree + nodes);
    FlushedIsDurable(d1, log, t, BitsOf(words), header);
    assert d1.(header := header, entries := Known([])) == Flushed(d, pages, nodes, header);
  }

  lemma {:induction false} FreshIsDurable(words: Pages)
    requires words == map[]
    ensures var d := Disk(map[], map[], [], Header(0, 0, None, None, 0), Known([]));
            && WriterTree([], Tree(0, 0, 0, [], map[])) && BitsOf(words) == iset{}
            && Persistable(d, words, [], []) && forall log :: Durable(d, log, Tree(0, 0, 0, [], map[]), BitsOf(words))
  {
    assert Roots(0) == [];
    forall p: Pos
      ensures Hi(p) > 0
    {
      ParentSpan(p);
    }
    forall i: nat
      ensures !BitIn(OpenedPages([]), i) && !BitIn(words, i)
    {
      OpenEmpty(i);
    }
  }

  // ---------------------------------------------------------------- appended nodes

  lemma {:induction false} EmittedPositions(log: seq<Block>, m: nat, n: nat)
    ensures forall p :: p in Positions(NodesAt(log, Emitted(m, n))) <==> m < Hi(p) <= n
  {
    var ps := Emitted(m, n);
    var nodes := NodesAt(log, ps);
    forall p
      ensures p in Positions(nodes) <==> m < Hi(p) <= n
    {
      EmittedExactly(m, n, p);
      if p in ps {
        var k :| 0 <= k < |ps| && ps[k] == p;
        assert nodes[k] in nodes && nodes[k].pos == p;
      }
    }
  }

  /** Adding the nodes that blocks m, ..., n - 1 complete. */
  lemma {:induction false} EmittedAdded(log: seq<Block>, view: View, m: nat, n: nat)
    requires m <= n && ExactNodes(log, view)
    ensures var now := AddNodes(view, NodesAt(log, Emitted(m, n)));
            ExactNodes(log, now) && forall p :: p in now <==> p in view || m < Hi(p) <= n
  {
    AddNodesView(view, NodesAt(log, Emitted(m, n)));
    EmittedPositions(log, m, n);
  }

  lemma {:induction false} ViewStable(log: seq<Block>, batch: seq<Block>, view: View)
    requires ExactNodes(log, view) && forall p :: p in view ==> Hi(p) <= |log|
    ensures ExactNodes(log + batch, view)
  {
    forall p | p in view
      ensures view[p] == NodeAt(log + batch, p)
    {
      NodeAtStable(log, batch, p);
    }
  }

  /** Committing the changeset of a batch gives the writer's tree of the longer log. */
  lemma {:induction false} CommitAppends(log: seq<Block>, batch: seq<Block>, t: Tree, d: Draft, fork: nat)
    requires WriterTree(log, t) && batch != []
    requires var log' := log + batch;
             d == Draft(|log'|, ByteStart(log', |log'|), true, NodesAt(log', Roots(|log'|)),
                        NodesAt(log', Emitted(|log|, |log'|)))
    ensures WriterTree(log + batch, CommitSpec(t, d, fork)) && Agrees(t.view, d.nodes)
  {
    ViewStable(log, batch, t.view);
    EmittedAdded(log + batch, t.view, |log|, |log + batch|);
    AppendedIsNew(log, batch, t.view);
  }

  /** The changeset of a batch, hashed and signed. */
  ghost predicate BatchChangeset(cs: Changeset, log: seq<Block>, batch: seq<Block>)
    reads cs
  {
    var log' := log + batch;
    && cs.View() == Draft(|log'|, ByteStart(log', |log'|), true, NodesAt(log', Roots(|log'|)),
                          NodesAt(log', Emitted(|log|, |log'|)))
    && cs.originalLength == cs.ancestors == |log| && cs.batchLength == |batch|
    && cs.hash == Some(TreeHash(cs.roots)) && cs.signature == Some(Signature(cs.SignableNow()))
  }

  lemma {:induction false} BytesKeep(d: Disk, m: Meaning, batch: seq<Block>)
    requires Means(d, m)
    ensures Means(BatchWritten(d, m.log, batch), m)
  {
    DataWriteKeeps(d, m.log, m.tree, m.bits, batch);
  }

  lemma {:induction false} BatchCounted(d: Disk, log: seq<Block>, batch: seq<Block>, bytes: nat, fork: nat)
    requires d.entries.Known? && bytes == EntriesSize(d.entries.value)
    ensures var d' := BatchLogged(d, log, batch, bytes, fork);
            && d'.entries.Known?
            && bytes + EntrySize(AppendEntry(log + batch, |log|, fork)) == EntriesSize(d'.entries.value)
  {
    EntriesSizeSnoc(d.entries.value, AppendEntry(log + batch, |log|, fork));
  }

  lemma {:induction false} WriterFollows(log: seq<Block>, t: Tree, bits: iset<nat>)
    requires WriterTree(log, t) && Trusted(log, t) && Below(bits, |log|)
    ensures FollowingTree(log, t, bits)
  {
    forall i: nat | i in bits
      ensures Leaf(i) in t.view
    {
      assert Hi(Leaf(i)) == i + 1;
    }
  }

  lemma {:induction false} WriterIsInside(log: seq<Block>, t: Tree)
    requires WriterTree(log, t)
    ensures t.length == |log| && NodesInside(log, t.view) && forall p :: Hi(p) <= |log| ==> p in t.view
  {
  }

  function AllHeld(batch: seq<Block>): seq<Option<Block>> {
    seq(|batch|, i requires 0 <= i < |batch| => Some(batch[i]))
  }

  lemma {:induction false} ContentAppends(log: seq<Block>, batch: seq<Block>, bits: iset<nat>)
    ensures ContentOf(log + batch, Marked(bits, |log|, |log + batch|, true)) == ContentOf(log, bits) + AllHeld(batch)
  {
  }

  // ---------------------------------------------------------------- holes

  /** Blocks [first, last) and the bytes they occupy. */
  datatype Hole = Hole(first: nat, last: nat, offset: nat, length: nat)

  /** Nothing in [first, last) is held, and it ends on both sides at a held block or at an end of the `n` blocks. */
  ghost predicate Nearest(bits: iset<nat>, n: nat, start: nat, end: nat, first: nat, last: nat) {
    && first <= start && last <= n && (end <= last || last == n)
    && (first > 0 ==> first - 1 in bits) && (last < n ==> last in bits)
    && (forall i: nat :: first <= i < last ==> i !in bits)
  }

  /**
   `h` covers the blocks [start, end) among the first `n`, reaches to the nearest held block or the end of those on
   both sides, and is exactly the bytes of the blocks in between.
   */
  ghost predicate IsHole(log: seq<Block>, n: nat, bits: iset<nat>, start: nat, end: nat, h: Hole) {
    && Nearest(bits, n, start, end, h.first, h.last) && h.first < h.last
    && h.offset == ByteStart(log, h.first) && h.offset + h.length == ByteStart(log, h.last)
  }

  /** No byte of a held block lies in the hole. */
  lemma {:induction false} HoleIsDead(log: seq<Block>, n: nat, bits: iset<nat>, start: nat, end: nat, h: Hole)
    requires IsHole(log, n, bits, start, end, h)
    ensures Dead(log, bits, h.offset, h.length)
  {
    forall i | i in bits && i < |log|
      ensures ByteStart(log, i) + |log[i]| <= h.offset || h.offset + h.length <= ByteStart(log, i)
    {
      if i < h.first {
        RangesDisjoint(log, i, h.first);
      } else {
        StartsIncrease(log, h.last, i);
      }
    }
  }

  /** Every byte of a cleared block lies in the hole. */
  lemma {:induction false} HoleCovers(log: seq<Block>, n: nat, bits: iset<nat>, start: nat, end: nat, h: Hole,
                                      i: nat)
    requires IsHole(log, n, bits, start, end, h) && start <= i < end && i < n <= |log|
    ensures h.offset <= ByteStart(log, i) && ByteStart(log, i) + |log[i]| <= h.offset + h.length
  {
    StartsIncrease(log, h.first, i);
    StartsIncrease(log, i + 1, h.last);
  }

  /**
   In a tree that need not know all blocks, a clear finds its hole if that starts inside the tree and its last block is
   known. `bits` are the blocks held after the clear.
   */
  ghost predicate ClearFinds(t: Tree, bits: iset<nat>, start: nat, end: nat) {
    start >= end
    || exists first, last :: Nearest(bits, t.length, start, end, first, last) && HoleKnown(t, first, last)
  }

  predicate HoleKnown(t: Tree, first: nat, last: nat) {
    first < t.length && 0 < last && Leaf(last - 1) in t.view
  }

  /** There is a hole around every range that is not held. */
  lemma {:induction false} HoleAround(bits: iset<nat>, n: nat, start: nat, end: nat) returns (first: nat, last: nat)
    requires Below(bits, n) && start < end && forall i: nat :: start <= i < end ==> i !in bits
    ensures Nearest(bits, n, start, end, first, last)
  {
    first := FirstOf(bits, start);
    last := LastOf(bits, n, end);
  }

  lemma {:induction false} FirstOf(bits: iset<nat>, start: nat) returns (first: nat)
    ensures first <= start && (first > 0 ==> first - 1 in bits) && forall i: nat :: first <= i < start ==> i !in bits
  {
    if start == 0 || start - 1 in bits {
      first := start;
    } else {
      first := FirstOf(bits, start - 1);
    }
  }

  lemma {:induction false} LastOf(bits: iset<nat>, n: nat, end: nat) returns (last: nat)
    ensures last <= n && (end <= last || last == n) && (last < n ==> last in bits)
    ensures forall i: nat :: end <= i < last ==> i !in bits
    decreases n - end
  {
    if end >= n {
      last := n;
    } else if end in bits {
      last := end;
    } else {
      last := LastOf(bits, n, end + 1);
    }
  }

  /** There is only one hole. */
  lemma {:induction false} NearestIsUnique(bits: iset<nat>, n: nat, start: nat, end: nat, first: nat, last: nat,
                                           first': nat, last': nat)
    requires Below(bits, n) && start < end
    requires Nearest(bits, n, start, end, first, last) && Nearest(bits, n, start, end, first', last')
    ensures first == first' && last == last'
  {
  }

  lemma {:induction false} FindsThis(t: Tree, bits: iset<nat>, start: nat, end: nat, first: nat, last: nat)
    requires Below(bits, t.length) && start < end && Nearest(bits, t.length, start, end, first, last)
    ensures ClearFinds(t, bits, start, end) <==> HoleKnown(t, first, last)
  {
    if ClearFinds(t, bits, start, end) {
      var f, l :| Nearest(bits, t.length, start, end, f, l) && HoleKnown(t, f, l);
      NearestIsUnique(bits, t.length, start, end, first, last, f, l);
    }
  }

  /** In the writer's tree a clear completes if it starts inside the log or the last block is not held. */
  predicate ClearCompletes(n: nat, bits: iset<nat>, start: nat, end: nat) {
    start >= end || start < n || (n > 0 && n - 1 !in bits)
  }

  lemma {:induction false} CompletesAfter(n: nat, bits: iset<nat>, start: nat, end: nat)
    ensures ClearCompletes(n, Marked(bits, start, end, false), start, end) <==> ClearCompletes(n, bits, start, end)
    ensures forall i: nat :: start <= i < end ==> i !in Marked(bits, start, end, false)
  {
  }

  lemma {:induction false} HoleExists(bits: iset<nat>, n: nat, start: nat, end: nat, first: nat, last: nat)
    requires Nearest(bits, n, start, end, first, last) && Below(bits, n) && start < end
    ensures first < n <==> ClearCompletes(n, bits, start, end)
    ensures first < n ==> first < last
  {
    if first < n <= start {
      assert first <= n - 1 < last;
    }
  }

  /** The writer's tree knows the last block of every hole. */
  lemma {:induction false} WriterFinds(log: seq<Block>, t: Tree, bits: iset<nat>, start: nat, end: nat, first: nat,
                                       last: nat)
    requires WriterTree(log, t) && Below(bits, |log|)
    requires start < end ==> Nearest(bits, |log|, start, end, first, last)
    ensures ClearFinds(t, bits, start, end) <==> ClearCompletes(|log|, bits, start, end)
  {
    if start < end {
      FindsThis(t, bits, start, end, first, last);
      HoleExists(bits, |log|, start, end, first, last);
    }
  }

  lemma {:induction false} WriterPaths(log: seq<Block>, t: Tree)
    requires WriterTree(log, t)
    ensures Exact(log, t)
    ensures forall i: nat :: i < t.length ==> Leaf(i) in t.view && PathKnown(t, i)
  {
    forall i: nat | i < t.length
      ensures Leaf(i) in t.view && PathKnown(t, i)
    {
      assert Hi(Leaf(i)) == i + 1;
      forall q: Pos | q.depth > 0 && HasLeaf(RightChild(q), i) && Hi(q) <= t.length
        ensures LeftChild(q) in t.view
      {
        ChildSpans(q);
        ParentSpan(RightChild(q));
      }
    }
  }

  /** Where a hole starts is known: next to a held block, or at the start of the log. */
  lemma {:induction false} HoleStarts(log: seq<Block>, t: Tree, bits: iset<nat>, start: nat, end: nat, first: nat,
                                      last: nat)
    requires FollowingTree(log, t, bits) && Nearest(bits, t.length, start, end, first, last)
    ensures PathKnown(t, first)
  {
    if first == 0 {
      FirstPathKnown(t);
    } else {
      NextPathKnown(log, t, first - 1);
    }
  }

  method StartOf(t: Tree, first: nat, ghost log: seq<Block>) returns (r: Result<nat>)
    requires t.roots == NodesAt(log, Roots(t.length))
    ensures r.Ok? <==> first < t.length && PathKnown(t, first)
    ensures r.Ok? && ExactNodes(log, t.view) ==> r == Ok(ByteStart(log, first))
  {
    r := ByteOffset(t, Leaf(first), log);
  }

  method EndOf(t: Tree, i: nat, ghost log: seq<Block>) returns (r: Result<nat>)
    requires t.roots == NodesAt(log, Roots(t.length)) && t.length <= |log|
    ensures r.Ok? <==> i < t.length && Leaf(i) in t.view && PathKnown(t, i)
    ensures r.Ok? && ExactNodes(log, t.view) ==> r == Ok(ByteStart(log, i + 1))
  {
    var range := BlockRange(t, i, log);
    if range.Err? {
      return Err(range.error);
    }
    return Ok(range.value.index + range.value.length);
  }

  /** Where the bytes of blocks [first, last) lie: the start of the first and the end of the last must be known. */
  method BytesBetween(t: Tree, first: nat, last: nat, ghost log: seq<Block>) returns (r: Result<ByteRange>)
    requires t.roots == NodesAt(log, Roots(t.length)) && t.length <= |log| && (first < t.length ==> first < last)
    ensures r.Ok? ==> first < t.length && PathKnown(t, first) && Leaf(last - 1) in t.view
    ensures Honest(log, t) ==> (r.Ok? <==> first < t.length && PathKnown(t, first) && Leaf(last - 1) in t.view)
    ensures r.Ok? && ExactNodes(log, t.view) ==>
              r.value.index == ByteStart(log, first) && r.value.index + r.value.length == ByteStart(log, last)
  {
    var offset := StartOf(t, first, log);
    if offset.Err? {
      return Err(offset.error);
    }
    if Honest(log, t) && Leaf(last - 1) in t.view {
      KnownPath(log, t, Leaf(last - 1));
    }
    var end := EndOf(t, last - 1, log);
    if end.Err? {
      return Err(end.error);
    }
    StartsIncrease(log, first, last);
    r := if end.value < offset.value then Err(Panic) else Ok(ByteRange(offset.value, end.value - offset.value));
  }

  /** What the stores stand for after a clear. */
  ghost function WithoutRange(m: Meaning, start: nat, end: nat): Meaning {
    m.(bits := Marked(m.bits, start, end, false))
  }

  lemma {:induction false} ClearMeans(d: Disk, m: Meaning, bytes: nat, start: nat, end: nat)
    requires Means(d, m) && bytes == EntriesSize(d.entries.value) && start <= end
    ensures Means(LogEntry(d, bytes, ClearEntry(start, end)), WithoutRange(m, start, end))
  {
    ClearIsDurable(d, m.log, m.tree, m.bits, bytes, start, end);
  }

  lemma {:induction false} ClearCounted(d: Disk, bytes: nat, start: nat, end: nat)
    requires d.entries.Known? && bytes == EntriesSize(d.entries.value) && start <= end
    ensures var d' := LogEntry(d, bytes, ClearEntry(start, end));
            d'.entries.Known? && bytes + EntrySize(ClearEntry(start, end)) == EntriesSize(d'.entries.value)
  {
    EntriesSizeSnoc(d.entries.value, ClearEntry(start, end));
  }

  // ---------------------------------------------------------------- crash safety of append and clear

  lemma {:induction false} CrashSafeFrom(before: Disk, d: Disk, ws: seq<StoreWrite>, m: Meaning, m': Meaning)
    requires CrashSafe(d, d, ws, m', m') && before.header == d.header
    ensures CrashSafe(before, d, ws, m, m')
  {
    forall k: nat | k <= |ws|
      ensures Recoverable(before, AfterWrites(d, ws[..k]), m, m')
    {
      assert Recoverable(d, AfterWrites(d, ws[..k]), m', m');
    }
  }

  /** The two writes of an append before its flush. */
  function BatchWrites(log: seq<Block>, batch: seq<Block>, bytes: nat, fork: nat): seq<StoreWrite> {
    [WriteBlocks(ByteStart(log, |log|), Flatten(batch)),
     WriteEntry(bytes, AppendEntry(log + batch, |log|, fork))]
  }

  lemma {:induction false} AfterBatch(d: Disk, log: seq<Block>, batch: seq<Block>, bytes: nat, fork: nat)
    ensures AfterWrites(d, BatchWrites(log, batch, bytes, fork))
            == BatchLogged(d, log, batch, bytes, fork)
  {
    var ws := BatchWrites(log, batch, bytes, fork);
    AfterWritesSnoc(d, [], ws[0]);
    AfterWritesSnoc(d, [ws[0]], ws[1]);
    assert [] + [ws[0]] == [ws[0]] && [ws[0]] + [ws[1]] == ws;
  }

  /** Bytes first, entry second: at every point the stores stand for the log before or after. */
  lemma {:induction false} BatchIsSafe(d: Disk, m: Meaning, batch: seq<Block>, bytes: nat, fork: nat)
    requires Means(d, m) && bytes == EntriesSize(d.entries.value) && WriterTree(m.log, m.tree) && fork == m.tree.fork
    ensures CrashSafe(d, d, BatchWrites(m.log, batch, bytes, fork), m, WithBatch(m, batch, fork))
  {
    var a := WriteBlocks(ByteStart(m.log, |m.log|), Flatten(batch));
    var b := WriteEntry(bytes, AppendEntry(m.log + batch, |m.log|, fork));
    var d1, d2 := BatchWritten(d, m.log, batch), BatchLogged(d, m.log, batch, bytes, fork);
    BytesKeep(d, m, batch);
    WriterIsInside(m.log, m.tree);
    AppendIsDurable(d, m, batch, bytes, fork);
    BatchSteps(d, m.log, batch, bytes, fork);
    TwoWritesSafe(d, d1, d2, a, b, m, WithBatch(m, batch, fork));
  }

  /** ... in the end for the log after, and the counter is right. */
  lemma {:induction false} BatchIsDurable(d: Disk, m: Meaning, batch: seq<Block>, bytes: nat, fork: nat)
    requires Means(d, m) && bytes == EntriesSize(d.entries.value) && WriterTree(m.log, m.tree) && fork == m.tree.fork
    ensures var now := BatchLogged(d, m.log, batch, bytes, fork);
            && Means(now, WithBatch(m, batch, fork))
            && bytes + EntrySize(AppendEntry(m.log + batch, |m.log|, fork)) == EntriesSize(now.entries.value)
    ensures CrashSafe(d, d, BatchWrites(m.log, batch, bytes, fork), m, WithBatch(m, batch, fork))
  {
    WriterIsInside(m.log, m.tree);
    AppendIsDurable(d, m, batch, bytes, fork);
    BatchCounted(d, m.log, batch, bytes, fork);
    BatchIsSafe(d, m, batch, bytes, fork);
  }

  lemma {:induction false} BatchSteps(d: Disk, log: seq<Block>, batch: seq<Block>, bytes: nat, fork: nat)
    ensures AfterWrite(d, WriteBlocks(ByteStart(log, |log|), Flatten(batch))) == BatchWritten(d, log, batch)
    ensures AfterWrite(BatchWritten(d, log, batch), WriteEntry(bytes, AppendEntry(log + batch, |log|, fork)))
            == BatchLogged(d, log, batch, bytes, fork)
  {
  }

  lemma {:induction false} TwoWritesSafe(d: Disk, d1: Disk, d2: Disk, a: StoreWrite, b: StoreWrite, m: Meaning,
                                         m': Meaning)
    requires d1 == AfterWrite(d, a) && d2 == AfterWrite(d1, b) && Means(d, m) && Means(d2, m')
    requires Means(d1, m) || Means(d1, m')
    ensures CrashSafe(d, d, [a, b], m, m')
  {
    OneWriteSafe(d, d, a, m, m');
    OneWriteSafe(d, d1, b, m, m');
    CrashSafeConcat(d, d, [a], [b], m, m');
    assert [a] + [b] == [a, b];
  }

  /** A flush of stores that are as they should be adds no unsafe point. */
  lemma {:induction false} CrashSafeThen(d: Disk, a: seq<StoreWrite>, b: seq<StoreWrite>, m: Meaning, m': Meaning)
    requires AfterWrites(d, a).header == d.header && CrashSafe(d, d, a, m, m')
    requires CrashSafe(AfterWrites(d, a), AfterWrites(d, a), b, m', m')
    ensures CrashSafe(d, d, a + b, m, m')
  {
    CrashSafeFrom(d, AfterWrites(d, a), b, m, m');
    CrashSafeConcat(d, d, a, b, m, m');
  }

  /** The writes of a clear before its flush; there is no hole when its place cannot be found. */
  function ClearWrites(bytes: nat, start: nat, end: nat, hole: Option<Hole>): seq<StoreWrite>
    requires start <= end
  {
    [WriteEntry(bytes, ClearEntry(start, end))]
    + if hole.Some? then [DeleteBlocks(hole.value.offset, hole.value.length)] else []
  }

  lemma {:induction false} AfterClearWrites(d: Disk, bytes: nat, start: nat, end: nat, hole: Option<Hole>)
    requires start <= end
    ensures var d' := LogEntry(d, bytes, ClearEntry(start, end));
            AfterWrites(d, ClearWrites(bytes, start, end, hole))
            == if hole.Some? then d'.(data := DeleteData(d.data, hole.value.offset, hole.value.length)) else d'
  {
    var w := WriteEntry(bytes, ClearEntry(start, end));
    AfterWritesSnoc(d, [], w);
    assert [] + [w] == [w] && [w] + [] == [w];
    if hole.Some? {
      AfterWritesSnoc(d, [w], DeleteBlocks(hole.value.offset, hole.value.length));
    }
  }

  /** The stores after the writes of a clear. */
  lemma {:induction false} ClearedMeans(d: Disk, m: Meaning, bytes: nat, start: nat, end: nat, hole: Option<Hole>)
    requires Means(d, m) && bytes == EntriesSize(d.entries.value) && start <= end
    requires hole.Some? ==> Dead(m.log, Marked(m.bits, start, end, false), hole.value.offset, hole.value.length)
    ensures Means(AfterWrites(d, ClearWrites(bytes, start, end, hole)), WithoutRange(m, start, end))
  {
    var d' := LogEntry(d, bytes, ClearEntry(start, end));
    ClearMeans(d, m, bytes, start, end);
    AfterClearWrites(d, bytes, start, end, hole);
    if hole.Some? {
      HolePunched(d', WithoutRange(m, start, end), hole.value.offset, hole.value.length);
    }
  }

  lemma {:induction false} EntryWritten(d: Disk, at: nat, e: Entry)
    ensures AfterWrite(d, WriteEntry(at, e)) == LogEntry(d, at, e)
  {
  }

  /** ... and at every point between them. */
  lemma {:induction false} ClearIsSafe(d: Disk, m: Meaning, bytes: nat, start: nat, end: nat, hole: Option<Hole>)
    requires Means(d, m) && bytes == EntriesSize(d.entries.value) && start <= end
    requires hole.Some? ==> Dead(m.log, Marked(m.bits, start, end, false), hole.value.offset, hole.value.length)
    ensures CrashSafe(d, d, ClearWrites(bytes, start, end, hole), m, WithoutRange(m, start, end))
  {
    var m' := WithoutRange(m, start, end);
    var w, d' := WriteEntry(bytes, ClearEntry(start, end)), LogEntry(d, bytes, ClearEntry(start, end));
    EntryWritten(d, bytes, ClearEntry(start, end));
    ClearMeans(d, m, bytes, start, end);
    if hole.Some? {
      var h := DeleteBlocks(hole.value.offset, hole.value.length);
      HolePunched(d', m', hole.value.offset, hole.value.length);
      TwoWritesSafe(d, d', AfterWrite(d', h), w, h, m, m');
      assert [w] + [h] == [w, h];
    } else {
      OneWriteSafe(d, d, w, m, m');
      assert [w] + [] == [w];
    }
  }

  lemma {:induction false} HolePunched(d: Disk, m: Meaning, offset: nat, length: nat)
    requires Means(d, m) && Dead(m.log, m.bits, offset, length)
    ensures Means(AfterWrite(d, DeleteBlocks(offset, length)), m)
  {
    DeleteHolds(d.data, m.log, m.bits, offset, length);
  }

  // ---------------------------------------------------------------- trust

  /** A tree with every node of the first `n` blocks, and no other. */
  ghost predicate PrefixTree(log: seq<Block>, n: nat, t: Tree) {
    && t.length == n <= |log| && t.roots == NodesAt(log, Roots(n)) && t.byteLength == ByteStart(log, n)
    && (forall p :: p in t.view <==> Hi(p) <= n)
    && ExactNodes(log, t.view)
  }

  lemma {:induction false} PrefixIsTrusted(log: seq<Block>, n: nat, t: Tree)
    requires PrefixTree(log, n, t)
    ensures Trusted(log, t)
  {
    TotalBytes(log, n);
    forall p | p in t.view
      ensures p in Positions(t.roots) || (Sibling(p) in t.view && Parent(p) in t.view)
    {
      var j := UnderRoot(n, p);
      var r := Roots(n)[j];
      assert t.roots[j] in t.roots && t.roots[j].pos == r;
      if p != r {
        WithinSpan(p, r);
        WithinSpan(Parent(p), r);
        ParentSpan(p);
      }
    }
    forall k | 0 <= k < |t.roots|
      ensures t.roots[k].pos in t.view
    {
      RootsSpan(n, k);
    }
  }

  /** A writer's tree is a trusted tree. */
  lemma {:induction false} WriterIsTrusted(log: seq<Block>, t: Tree)
    requires WriterTree(log, t)
    ensures Trusted(log, t)
  {
    PrefixIsTrusted(log, |log|, t);
  }

  lemma {:induction false} EmittedClosed(log: seq<Block>, known: set<Pos>, m: nat, n: nat)
    requires m <= n <= |log| && Closed(known, NodesAt(log, Roots(m)))
    ensures Closed(known + Positions(NodesAt(log, Emitted(m, n))), NodesAt(log, Roots(n)))
    decreases n
  {
    if m == n {
      assert Emitted(m, n) == [] && NodesAt(log, []) == [] && Positions([]) == {};
      assert known + {} == known;
    } else {
      EmittedClosed(log, known, m, n - 1);
      var before := known + Positions(NodesAt(log, Emitted(m, n - 1)));
      var chain := MergeChain(Leaf(n - 1));
      LastBlockClosed(log, before, n - 1);
      NodesAtConcat(log, Emitted(m, n - 1), chain);
      PositionsConcat(NodesAt(log, Emitted(m, n - 1)), NodesAt(log, chain));
      assert known + Positions(NodesAt(log, Emitted(m, n))) == before + Positions(NodesAt(log, chain));
    }
  }

  lemma {:induction false} LastBlockClosed(log: seq<Block>, known: set<Pos>, i: nat)
    requires i < |log| && Closed(known, NodesAt(log, Roots(i)))
    ensures Closed(known + Positions(NodesAt(log, MergeChain(Leaf(i)))), NodesAt(log, Roots(i + 1)))
  {
    var d := Draft(i, 0, false, NodesAt(log, Roots(i)), []);
    AppendOne(log, d);
    RootAttached(known, d, BlockNode(Leaf(i), log[i]), d.roots, NodesAt(log, MergeChain(Leaf(i))),
                 NodesAt(log, Roots(i + 1)));
  }

  lemma {:induction false} RootAttached(known: set<Pos>, d: Draft, node: Node, roots: seq<Node>, added: seq<Node>,
                                        roots': seq<Node>)
    requires Closed(known, roots) && d.roots == roots && d.nodes == []
    requires var d' := AppendRootSpec(d, node).0; d'.nodes == [] + added && d'.roots == roots'
    ensures Closed(known + Positions(added), roots')
  {
    AppendRootClosed(known, d, node);
    assert added == ([] + added)[0..];
  }

  lemma {:induction false} GoodStable(log: seq<Block>, batch: seq<Block>, view: View)
    requires forall p :: p in view ==> view[p].pos == p && Good(log, view[p])
    ensures forall p :: p in view ==> Good(log + batch, view[p])
  {
    forall p | p in view
      ensures Good(log + batch, view[p])
    {
      NodeAtStable(log, batch, p);
    }
  }

  /** Nothing that an append completes was known before it. */
  lemma {:induction false} AppendedIsNew(log: seq<Block>, batch: seq<Block>, view: View)
    requires forall p :: p in view ==> Hi(p) <= |log|
    ensures var nodes := NodesAt(log + batch, Emitted(|log|, |log + batch|));
            Agrees(view, nodes) && HashAgrees(view, nodes)
  {
    var ps := Emitted(|log|, |log + batch|);
    forall k | 0 <= k < |ps|
      ensures ps[k] !in view
    {
      EmittedExactly(|log|, |log + batch|, ps[k]);
    }
  }

  /** Appending to a trusted tree that has reached the end of the log keeps it trusted. */
  lemma {:induction false} AppendKeepsTrust(log: seq<Block>, batch: seq<Block>, t: Tree, d: Draft, fork: nat)
    requires Trusted(log, t) && t.length == |log|
    requires var log' := log + batch;
             d == Draft(|log'|, ByteStart(log', |log'|), true, NodesAt(log', Roots(|log'|)),
                        NodesAt(log', Emitted(|log|, |log'|)))
    ensures Trusted(log + batch, CommitSpec(t, d, fork)) && HashAgrees(t.view, d.nodes)
  {
    var log' := log + batch;
    var now := AddNodes(t.view, d.nodes);
    AddNodesView(t.view, d.nodes);
    GoodStable(log, batch, t.view);
    EmittedGood(log', |log|);
    RootsStable(log, batch, |log|);
    EmittedClosed(log', t.view.Keys, |log|, |log'|);
    TotalBytes(log', |log'|);
    AppendedIsNew(log, batch, t.view);
    assert now.Keys == t.view.Keys + Positions(d.nodes);
  }

  lemma {:induction false} EmittedGood(log: seq<Block>, m: nat)
    ensures AllGood(log, NodesAt(log, Emitted(m, |log|)))
  {
    var ps := Emitted(m, |log|);
    forall k | 0 <= k < |ps|
      ensures Good(log, NodeAt(log, ps[k]))
    {
      EmittedExactly(m, |log|, ps[k]);
    }
  }
}
