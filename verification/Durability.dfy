/** Which store writes keep the stores standing for the same log, and which move them to the next. */
module Durability {
  import opened Common
  import opened FlatTree
  import opened Hashes
  import opened Verify
  import opened Prover
  import opened Accumulator
  import opened Offsets
  import opened Words
  import opened FixedBitfields
  import opened DynamicBitfields
  import opened Storage

  /** Bits with [start, end) set or cleared. */
  ghost function Marked(bits: iset<nat>, start: nat, end: nat, value: bool): iset<nat> {
    iset i: nat | if start <= i < end then value else i in bits
  }

  ghost function BitsOf(m: Pages): iset<nat> {
    iset i: nat | BitIn(m, i)
  }

  lemma {:induction false} RangeMarks(was: Pages, now: Pages, start: nat, end: nat, value: bool)
    requires RangeWritten(was, now, start, end, value)
    ensures BitsOf(now) == Marked(BitsOf(was), start, end, value)
  {
  }

  /** The entry that append_batch logs. */
  function AppendEntry(log: seq<Block>, m: nat, fork: nat): Entry
    requires m <= |log|
  {
    Entry(NodesAt(log, Emitted(m, |log|)), Some(TreeUpgrade(fork, m, |log|, WriterSignature(log, |log|, fork))),
          Some(BitfieldUpdate(false, m, |log| - m)))
  }

  function ClearEntry(start: nat, end: nat): Entry
    requires start <= end
  {
    Entry([], None, Some(BitfieldUpdate(true, start, end - start)))
  }

  // ---------------------------------------------------------------- logging an entry

  /** What stores stand for: a log, a tree over it and the blocks that are held. */
  datatype Meaning = Meaning(log: seq<Block>, tree: Tree, bits: iset<nat>)

  ghost predicate Means(d: Disk, m: Meaning) {
    Durable(d, m.log, m.tree, m.bits)
  }


  /** The bits after an entry's update. */
  ghost function BitsUpdated(bits: iset<nat>, e: Entry): iset<nat> {
    iset i: nat | ApplyUpdate(e, i, i in bits)
  }

  /** A well-placed entry that fits moves the stores to the tree and the bits that it leads to. */
  lemma {:induction false} EntryLogged(d: Disk, log: seq<Block>, t: Tree, bits: iset<nat>, bytes: nat, e: Entry)
    requires Opens(d, log, t, bits) && bytes == EntriesSize(d.entries.value)
             && EntryFits(log, t.view, t.length, t.fork, e)
    ensures Opens(LogEntry(d, bytes, e), log, TreeWith(log, t, e), BitsUpdated(bits, e))
  {
    var es := d.entries.value;
    ChainSnoc(log, d.tree, d.header.length, d.header.fork, es, e);
    TreeAfterSnoc(log, d, es, e);
    forall i: nat
      ensures i in BitsUpdated(bits, e) <==> AfterUpdates(es + [e], i, BitIn(OpenedPages(d.bitfield), i))
    {
      AfterUpdatesSnoc(es, e, i, BitIn(OpenedPages(d.bitfield), i));
    }
  }

  // ---------------------------------------------------------------- append

  /** The blocks' bytes alone change nothing: they lie past the end. */
  lemma {:induction false} DataWriteKeeps(d: Disk, log: seq<Block>, t: Tree, bits: iset<nat>, batch: seq<Block>)
    requires Durable(d, log, t, bits)
    ensures Durable(d.(data := WriteData(d.data, ByteStart(log, |log|), Flatten(batch))), log, t, bits)
  {
    var now := WriteData(d.data, ByteStart(log, |log|), Flatten(batch));
    forall i | i in bits
      ensures i < |log| && Stored(now, ByteStart(log, i), log[i])
    {
      OldBlockStored(d.data, log, batch, i);
      PrefixStarts(log, batch, i);
    }
  }

  lemma {:induction false} InsideStable(log: seq<Block>, batch: seq<Block>, view: View)
    requires NodesInside(log, view)
    ensures NodesInside(log + batch, view)
  {
    forall p | p in view
      ensures view[p] == NodeAt(log + batch, p)
    {
      NodeAtStable(log, batch, p);
    }
  }

  lemma {:induction false} SignedStays(log: seq<Block>, batch: seq<Block>, n: nat, fork: nat)
    requires n <= |log|
    ensures WriterSignature(log + batch, n, fork) == WriterSignature(log, n, fork)
    ensures NodesAt(log + batch, Roots(n)) == NodesAt(log, Roots(n))
  {
    RootsStable(log, batch, n);
  }

  lemma {:induction false} EntryStable(log: seq<Block>, batch: seq<Block>, view: View, l: nat, fork: nat, e: Entry)
    requires EntryFits(log, view, l, fork, e)
    ensures EntryFits(log + batch, view, l, fork, e)
  {
    forall x | x in e.nodes
      ensures x == NodeAt(log + batch, x.pos)
    {
      NodeAtStable(log, batch, x.pos);
    }
    if e.upgrade.Some? {
      SignedStays(log, batch, e.upgrade.value.length, fork);
    }
  }

  lemma {:induction false} ChainStable(log: seq<Block>, batch: seq<Block>, view: View, h: nat, fork: nat,
                                       es: seq<Entry>)
    requires Chain(log, view, h, fork, es)
    ensures Chain(log + batch, view, h, fork, es)
  {
    forall k | 0 <= k < |es|
      ensures EntryFits(log + batch, ViewAfter(view, es[..k]), LengthAfter(h, es[..k]), fork, es[k])
    {
      EntryStable(log, batch, ViewAfter(view, es[..k]), LengthAfter(h, es[..k]), fork, es[k]);
    }
  }

  lemma {:induction false} RootsStay(log: seq<Block>, batch: seq<Block>, n: nat)
    requires n <= |log|
    ensures NodesAt(log + batch, Roots(n)) == NodesAt(log, Roots(n)) && ByteStart(log + batch, n) == ByteStart(log, n)
  {
    PrefixStarts(log, batch, n);
    RootsStable(log, batch, n);
  }

  /** What opens to a tree over the log opens to the same tree over a longer log. */
  lemma {:induction false} OpensStable(d: Disk, log: seq<Block>, batch: seq<Block>, t: Tree, bits: iset<nat>)
    requires Opens(d, log, t, bits)
    ensures Opens(d, log + batch, t, bits)
  {
    var es := d.entries.value;
    ChainLeads(log, d.tree, d.header.length, d.header.fork, es);
    InsideStable(log, batch, d.tree);
    ChainStable(log, batch, d.tree, d.header.length, d.header.fork, es);
    RootsStay(log, batch, LengthAfter(d.header.length, es));
    SignedStays(log, batch, d.header.length, d.header.fork);
  }

  /** The append's entry fits a tree with every node of the log. */
  lemma {:induction false} AppendFits(log: seq<Block>, batch: seq<Block>, view: View, fork: nat)
    requires NodesInside(log, view) && forall p :: Hi(p) <= |log| ==> p in view
    ensures EntryFits(log + batch, view, |log|, fork, AppendEntry(log + batch, |log|, fork))
  {
    var log' := log + batch;
    var e := AppendEntry(log', |log|, fork);
    forall x | x in e.nodes
      ensures Hi(x.pos) <= |log'| && x == NodeAt(log', x.pos)
    {
      EmittedExactly(|log|, |log'|, x.pos);
      assert x.pos in Emitted(|log|, |log'|);
    }
    forall j | 0 <= j < |Roots(|log'|)|
      ensures Roots(|log'|)[j] in AddNodes(view, e.nodes)
    {
      EmittedKnown(log', view, |log|, Roots(|log'|)[j]);
      RootsSpan(|log'|, j);
    }
  }

  lemma {:induction false} EmittedKnown(log: seq<Block>, view: View, m: nat, p: Pos)
    requires m <= |log| && (Hi(p) <= m ==> p in view)
    ensures Hi(p) <= |log| ==> p in AddNodes(view, NodesAt(log, Emitted(m, |log|)))
  {
    var ps := Emitted(m, |log|);
    AddNodesView(view, NodesAt(log, ps));
    EmittedExactly(m, |log|, p);
    if p in ps {
      var k :| 0 <= k < |ps| && ps[k] == p;
      assert NodesAt(log, ps)[k] in NodesAt(log, ps);
    }
  }

  /** The stores once the blocks of a batch are written behind the others. */
  ghost function BatchWritten(d: Disk, log: seq<Block>, batch: seq<Block>): Disk {
    d.(data := WriteData(d.data, ByteStart(log, |log|), Flatten(batch)))
  }

  /** ... and the entry is logged. */
  ghost function BatchLogged(d: Disk, log: seq<Block>, batch: seq<Block>, bytes: nat, fork: nat): Disk {
    LogEntry(BatchWritten(d, log, batch), bytes, AppendEntry(log + batch, |log|, fork))
  }

  /** What the stores stand for after a batch. */
  ghost function WithBatch(m: Meaning, batch: seq<Block>, fork: nat): Meaning {
    var log := m.log + batch;
    Meaning(log, TreeWith(log, m.tree, AppendEntry(log, |m.log|, fork)),
            Marked(m.bits, |m.log|, |log|, true))
  }

  /** With its bytes written, the logged entry moves the stores to the longer log. */
  lemma {:induction false} AppendIsDurable(d: Disk, m: Meaning, batch: seq<Block>, bytes: nat, fork: nat)
    requires Means(d, m) && bytes == EntriesSize(d.entries.value) && fork == m.tree.fork
    requires m.tree.length == |m.log| && NodesInside(m.log, m.tree.view)
             && forall p :: Hi(p) <= |m.log| ==> p in m.tree.view
    ensures Means(BatchLogged(d, m.log, batch, bytes, fork), WithBatch(m, batch, fork))
  {
    var log, t, bits := m.log, m.tree, m.bits;
    var log', d1 := log + batch, BatchWritten(d, log, batch);
    var e := AppendEntry(log', |log|, fork);
    OpensStable(d1, log, batch, t, bits);
    AppendFits(log, batch, t.view, fork);
    EntryLogged(d1, log', t, bits, bytes, e);
    assert BitsUpdated(bits, e) == Marked(bits, |log|, |log| + |batch|, true);
    BatchStored(d.data, log, batch, bits, Marked(bits, |log|, |log'|, true));
  }

  // ---------------------------------------------------------------- clear

  lemma {:induction false} ClearIsDurable(d: Disk, log: seq<Block>, t: Tree, bits: iset<nat>, bytes: nat, start: nat,
                                          end: nat)
    requires Durable(d, log, t, bits) && bytes == EntriesSize(d.entries.value) && start <= end
    ensures Durable(LogEntry(d, bytes, ClearEntry(start, end)), log, t, Marked(bits, start, end, false))
  {
    var e := ClearEntry(start, end);
    EntryLogged(d, log, t, bits, bytes, e);
    assert BitsUpdated(bits, e) == Marked(bits, start, end, false);
    assert TreeWith(log, t, e) == t;
  }

  /** No held block overlaps the byte range. */
  ghost predicate Dead(log: seq<Block>, bits: iset<nat>, offset: nat, length: nat) {
    forall i :: i in bits && i < |log| ==>
      ByteStart(log, i) + |log[i]| <= offset || offset + length <= ByteStart(log, i)
  }

  lemma {:induction false} DeleteHolds(data: map<nat, Byte>, log: seq<Block>, bits: iset<nat>, offset: nat, length: nat)
    requires Holds(data, log, bits) && Dead(log, bits, offset, length)
    ensures Holds(DeleteData(data, offset, length), log, bits)
  {
  }

  // ---------------------------------------------------------------- flush

  /** Page 0 holds exactly these bits, all below 8192. */
  ghost predicate PageHolds(words: seq<Word>, bits: iset<nat>) {
    |words| == WORDS && AllBelow8192(words) && forall i: nat :: i in bits <==> i < PAGE_BITS && BitOf(words, i)
  }

  /** Reopening a flushed page gives its bits back. */
  lemma {:induction false} StoredPageOpens(words: seq<Word>, bits: iset<nat>)
    requires PageHolds(words, bits)
    ensures |BytesOf(words)| == PAGE_BYTES
    ensures forall i: nat :: BitIn(OpenedPages(BytesOf(words)), i) <==> i in bits
  {
    OpenAfterFlush(words);
    forall i: nat
      ensures BitIn(OpenedPages(BytesOf(words)), i) <==> i in bits
    {
      SameBit(OpenedPages(BytesOf(words)), words, i);
    }
  }

  lemma {:induction false} BitfieldWriteKeeps(d: Disk, log: seq<Block>, t: Tree, bits: iset<nat>, words: seq<Word>)
    requires Durable(d, log, t, bits) && PageHolds(words, bits)
    ensures Durable(d.(bitfield := BytesOf(words)), log, t, bits)
  {
    StoredPageOpens(words, bits);
    forall i: nat
      ensures i in bits <==> AfterUpdates(d.entries.value, i, BitIn(OpenedPages(BytesOf(words)), i))
    {
      ReplayIsIdempotent(d.entries.value, i, BitIn(OpenedPages(d.bitfield), i));
    }
  }

  /** The bitfield store holds exactly `bits`. */
  ghost predicate BitfieldStored(store: seq<Byte>, bits: iset<nat>) {
    (store == [] || |store| == PAGE_BYTES) && forall i: nat :: i in bits <==> BitIn(OpenedPages(store), i)
  }

  /** A node that the entries lead to anyway can be stored at any time. */
  lemma {:induction false} NodeWriteKeeps(view: View, es: seq<Entry>, p: Pos, x: Node)
    requires p in ViewAfter(view, es) && x == ViewAfter(view, es)[p]
    ensures ViewAfter(view[p := x], es) == ViewAfter(view, es)
  {
    AnywayAdded(view, es, p, x);
  }

  lemma {:induction false} AnywayAdded(view: View, es: seq<Entry>, p: Pos, x: Node)
    ensures var now := ViewAfter(view[p := x], es);
            now == ViewAfter(view, es) || now == ViewAfter(view, es)[p := x]
  {
    if es != [] {
      AnywayAdded(view, es[..|es| - 1], p, x);
      AddedOver(ViewAfter(view, es[..|es| - 1]), es[|es| - 1].nodes, p, x);
    }
  }

  lemma {:induction false} AddedOver(view: View, nodes: seq<Node>, p: Pos, x: Node)
    ensures var now := AddNodes(view[p := x], nodes);
            now == AddNodes(view, nodes) || now == AddNodes(view, nodes)[p := x]
  {
    if nodes != [] {
      AddedOver(view, nodes[..|nodes| - 1], p, x);
    }
  }

  /** Header written and log truncated over flushed stores. */
  lemma {:induction false} FlushedIsDurable(d: Disk, log: seq<Block>, t: Tree, bits: iset<nat>, header: Header)
    requires header.length == t.length <= |log| && header.fork == t.fork && HeaderSigned(log, header)
    requires NodesInside(log, t.view) && RootsIn(t.view, t.length)
    requires t == TreeOver(log, t.length, t.fork, d.tree)
    requires |log| <= 8192 && Holds(d.data, log, bits) && BitfieldStored(d.bitfield, bits)
    ensures Durable(d.(header := header, entries := Known([])), log, t, bits)
  {
  }
}
