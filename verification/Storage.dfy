/**
 The four stores of a core and what they say together. The data store maps
 offsets to bytes, the tree store positions to nodes, the bitfield store is
 bytes, and the oplog is the newest header and the entries logged after it.
 */
module Storage {
  import opened Common
  import Encoding
  import opened FlatTree
  import opened Hashes
  import opened Verify
  import opened Prover
  import opened Offsets
  import opened FixedBitfields
  import opened DynamicBitfields

  datatype Header = Header(length: nat, fork: nat, rootHash: Option<Hash>, signature: Option<Signature>,
                           contiguous: nat)

  datatype TreeUpgrade = TreeUpgrade(fork: nat, ancestors: nat, length: nat, signature: Option<Signature>)

  datatype Entry = Entry(nodes: seq<Node>, upgrade: Option<TreeUpgrade>, bitfield: Option<BitfieldUpdate>)

  /** The entries behind the header; after a write across them only the first ones are known. */
  datatype Logged = Known(value: seq<Entry>) | Garbled(front: seq<Entry>)

  datatype Disk = Disk(tree: View, data: map<nat, Byte>, bitfield: seq<Byte>, header: Header, entries: Logged)

  // ---------------------------------------------------------------- sizes

  function NodesSize(nodes: seq<Node>): nat {
    if nodes == [] then 0
    else
      var last := nodes[|nodes| - 1];
      NodesSize(nodes[..|nodes| - 1]) + Encoding.UintSize(Index(last.pos)) + Encoding.UintSize(last.length) + 32
  }

  /** Bytes of a framed entry: leader, flags and the parts that are present. */
  function EntrySize(e: Entry): (s: nat)
    ensures s > 0
  {
    9 + (if e.nodes == [] then 0 else Encoding.UintSize(|e.nodes|) + NodesSize(e.nodes))
    + (if e.upgrade.None? then 0
       else
         Encoding.UintSize(e.upgrade.value.fork) + Encoding.UintSize(e.upgrade.value.ancestors)
         + Encoding.UintSize(e.upgrade.value.length) + 65)
    + (if e.bitfield.None? then 0
       else 1 + Encoding.UintSize(e.bitfield.value.start) + Encoding.UintSize(e.bitfield.value.length))
  }

  function EntriesSize(es: seq<Entry>): nat {
    if es == [] then 0 else EntriesSize(es[..|es| - 1]) + EntrySize(es[|es| - 1])
  }

  lemma {:induction false} EntriesSizeSnoc(es: seq<Entry>, e: Entry)
    ensures EntriesSize(es + [e]) == EntriesSize(es) + EntrySize(e)
  {
    assert (es + [e])[..|es|] == es;
  }

  /** How many entries end within the first `bytes` bytes. */
  function EndingBy(es: seq<Entry>, bytes: nat): (k: nat)
    ensures k <= |es| && EntriesSize(es[..k]) <= bytes
    ensures k < |es| ==> bytes < EntriesSize(es[..k + 1])
  {
    if es == [] then 0
    else if EntriesSize(es) <= bytes then assert es[..|es|] == es; |es|
    else
      var front := es[..|es| - 1];
      var k := EndingBy(front, bytes);
      assert es[..k] == front[..k] && (k < |front| ==> es[..k + 1] == front[..k + 1]) && es[..|es|] == es;
      k
  }

  /**
   An entry written over others, as the file shows it. Where it starts and ends on the boundaries of entries, it takes
   their place; where it reaches the end, it is the last one; otherwise what follows it is not an entry.
   */
  function Overwritten(es: seq<Entry>, bytes: nat, size: nat, e: Entry): Logged {
    var k, m := EndingBy(es, bytes), EndingBy(es, bytes + size);
    if EntriesSize(es[..k]) != bytes then Garbled(es[..k])
    else if m == |es| || EntriesSize(es[..m]) == bytes + size then Known(es[..k] + [e] + es[m..])
    else Garbled(es[..k] + [e])
  }

  /** Writing an entry after `bytes` bytes of entries: it extends the log or overwrites a part of it. */
  function WithEntry(was: Logged, bytes: nat, e: Entry): Logged {
    match was
    case Known(es) => if bytes == EntriesSize(es) then Known(es + [e]) else Overwritten(es, bytes, EntrySize(e), e)
    case Garbled(front) =>
      var k := EndingBy(front, bytes);
      Garbled(if EntriesSize(front[..k]) == bytes then front[..k] + [e] else front[..k])
  }

  function LogEntry(d: Disk, bytes: nat, e: Entry): Disk {
    d.(entries := WithEntry(d.entries, bytes, e))
  }

  /** A write to a store of bytes, padding with zeros up to its offset. */
  function ApplyWrite(store: seq<Byte>, w: Write): seq<Byte> {
    var padded := store + seq(if |store| < w.offset then w.offset - |store| else 0, _ => 0);
    padded[..w.offset] + w.data + (if |padded| > w.offset + |w.data| then padded[w.offset + |w.data|..] else [])
  }

  function ApplyWrites(store: seq<Byte>, ws: seq<Write>): seq<Byte> {
    if ws == [] then store else ApplyWrite(ApplyWrites(store, ws[..|ws| - 1]), ws[|ws| - 1])
  }

  // ---------------------------------------------------------------- data store

  function WriteData(data: map<nat, Byte>, offset: nat, bytes: seq<Byte>): map<nat, Byte> {
    if bytes == [] then data
    else WriteData(data, offset, bytes[..|bytes| - 1])[offset + |bytes| - 1 := bytes[|bytes| - 1]]
  }

  lemma {:induction false} WriteDataAt(data: map<nat, Byte>, offset: nat, bytes: seq<Byte>, k: nat)
    ensures var now := WriteData(data, offset, bytes);
            if offset <= k < offset + |bytes| then k in now && now[k] == bytes[k - offset]
            else (k in now <==> k in data) && (k in data ==> now[k] == data[k])
  {
    if bytes != [] {
      WriteDataAt(data, offset, bytes[..|bytes| - 1], k);
    }
  }

  function DeleteData(data: map<nat, Byte>, offset: nat, length: nat): map<nat, Byte> {
    map k | k in data && !(offset <= k < offset + length) :: data[k]
  }

  predicate Stored(data: map<nat, Byte>, offset: nat, bytes: seq<Byte>) {
    forall k :: offset <= k < offset + |bytes| ==> k in data && data[k] == bytes[k - offset]
  }

  /** Every held block is in the data store, at its place. */
  ghost predicate Holds(data: map<nat, Byte>, log: seq<Block>, bits: iset<nat>) {
    forall i :: i in bits ==> i < |log| && Stored(data, ByteStart(log, i), log[i])
  }

  function Flatten(batch: seq<Block>): seq<Byte> {
    if batch == [] then [] else Flatten(batch[..|batch| - 1]) + batch[|batch| - 1]
  }

  lemma {:induction false} FlattenSize(batch: seq<Block>)
    ensures |Flatten(batch)| == ByteStart(batch, |batch|)
  {
    if batch != [] {
      var front := batch[..|batch| - 1];
      assert front + [batch[|batch| - 1]] == batch;
      PrefixStarts(front, [batch[|batch| - 1]], |front|);
      FlattenSize(front);
    }
  }

  lemma {:induction false} FlattenBlock(batch: seq<Block>, j: nat)
    requires j < |batch|
    ensures var s := ByteStart(batch, j);
            s + |batch[j]| <= |Flatten(batch)| && Flatten(batch)[s..s + |batch[j]|] == batch[j]
  {
    var front, last := batch[..|batch| - 1], batch[|batch| - 1];
    assert front + [last] == batch;
    PrefixStarts(front, [last], j);
    FlattenSize(front);
    if j < |front| {
      FlattenBlock(front, j);
      assert Flatten(batch)[..|Flatten(front)|] == Flatten(front);
    }
  }

  lemma {:induction false} StartsInBatch(log: seq<Block>, batch: seq<Block>, j: nat)
    requires j <= |batch|
    ensures ByteStart(log + batch, |log| + j) == ByteStart(log, |log|) + ByteStart(batch, j)
  {
    if j == 0 {
      PrefixStarts(log, batch, |log|);
    } else {
      StartsInBatch(log, batch, j - 1);
      assert (log + batch)[|log| + j - 1] == batch[j - 1];
    }
  }

  /** A batch written at the end of the log puts each of its blocks at its own start and touches no other. */
  lemma {:induction false} BatchStored(data: map<nat, Byte>, log: seq<Block>, batch: seq<Block>, bits: iset<nat>,
                                       bits': iset<nat>)
    requires Holds(data, log, bits)
    requires forall i :: i in bits' ==> i in bits || |log| <= i < |log| + |batch|
    ensures Holds(WriteData(data, ByteStart(log, |log|), Flatten(batch)), log + batch, bits')
  {
    var offset, bytes := ByteStart(log, |log|), Flatten(batch);
    var now := WriteData(data, offset, bytes);
    forall i | i in bits'
      ensures i < |log + batch| && Stored(now, ByteStart(log + batch, i), (log + batch)[i])
    {
      if i < |log| {
        OldBlockStored(data, log, batch, i);
      } else {
        NewBlockStored(data, log, batch, i - |log|);
      }
    }
  }

  lemma {:induction false} OldBlockStored(data: map<nat, Byte>, log: seq<Block>, batch: seq<Block>, i: nat)
    requires i < |log| && Stored(data, ByteStart(log, i), log[i])
    ensures Stored(WriteData(data, ByteStart(log, |log|), Flatten(batch)), ByteStart(log + batch, i), (log + batch)[i])
  {
    PrefixStarts(log, batch, i);
    RangesDisjoint(log, i, |log|);
    forall k: nat
      ensures var now := WriteData(data, ByteStart(log, |log|), Flatten(batch));
              k < ByteStart(log, |log|) ==> (k in now <==> k in data) && (k in data ==> now[k] == data[k])
    {
      WriteDataAt(data, ByteStart(log, |log|), Flatten(batch), k);
    }
  }

  lemma {:induction false} NewBlockStored(data: map<nat, Byte>, log: seq<Block>, batch: seq<Block>, j: nat)
    requires j < |batch|
    ensures Stored(WriteData(data, ByteStart(log, |log|), Flatten(batch)),
                   ByteStart(log + batch, |log| + j), (log + batch)[|log| + j])
  {
    StartsInBatch(log, batch, j);
    FlattenBlock(batch, j);
    PieceStored(data, ByteStart(log, |log|), Flatten(batch), ByteStart(batch, j), batch[j]);
  }

  /** A piece of what is written is stored where it lies. */
  lemma {:induction false} PieceStored(data: map<nat, Byte>, offset: nat, bytes: seq<Byte>, s: nat, piece: seq<Byte>)
    requires s + |piece| <= |bytes| && bytes[s..s + |piece|] == piece
    ensures Stored(WriteData(data, offset, bytes), offset + s, piece)
  {
    forall k: nat | offset + s <= k < offset + s + |piece|
      ensures var now := WriteData(data, offset, bytes); k in now && now[k] == piece[k - (offset + s)]
    {
      WriteDataAt(data, offset, bytes, k);
      assert bytes[s..s + |piece|][k - offset - s] == bytes[k - offset];
    }
  }

  // ---------------------------------------------------------------- single writes

  /** One write to one store: what is done as a whole or not at all. */
  datatype StoreWrite =
    | WriteBlocks(offset: nat, bytes: seq<Byte>)
    | DeleteBlocks(offset: nat, length: nat)
    | WriteNode(pos: Pos, node: Node)
    | WritePage(write: Write)
    | WriteHeader(header: Header)
    | WriteEntry(at: nat, entry: Entry)
    | CutEntries

  function AfterWrite(d: Disk, w: StoreWrite): Disk {
    match w
    case WriteBlocks(offset, bytes) => d.(data := WriteData(d.data, offset, bytes))
    case DeleteBlocks(offset, length) => d.(data := DeleteData(d.data, offset, length))
    case WriteNode(pos, node) => d.(tree := d.tree[pos := node])
    case WritePage(write) => d.(bitfield := ApplyWrite(d.bitfield, write))
    case WriteHeader(header) => d.(header := header)
    case WriteEntry(at, entry) => LogEntry(d, at, entry)
    case CutEntries => d.(entries := Known([]))
  }

  /** The stores after a sequence of writes. */
  function AfterWrites(d: Disk, ws: seq<StoreWrite>): Disk {
    if ws == [] then d else AfterWrite(AfterWrites(d, ws[..|ws| - 1]), ws[|ws| - 1])
  }

  lemma {:induction false} AfterWritesSnoc(d: Disk, ws: seq<StoreWrite>, w: StoreWrite)
    ensures AfterWrites(d, ws + [w]) == AfterWrite(AfterWrites(d, ws), w)
  {
    assert (ws + [w])[..|ws|] == ws;
  }

  lemma {:induction false} AfterWritesConcat(d: Disk, a: seq<StoreWrite>, b: seq<StoreWrite>)
    ensures AfterWrites(d, a + b) == AfterWrites(AfterWrites(d, a), b)
  {
    if b == [] {
      assert a + b == a;
    } else {
      var front, last := b[..|b| - 1], b[|b| - 1];
      AfterWritesConcat(d, a, front);
      SplitLast(a, b);
      AfterWritesSnoc(d, a + front, last);
    }
  }

  lemma {:induction false} SplitLast(a: seq<StoreWrite>, b: seq<StoreWrite>)
    requires b != []
    ensures a + b == a + b[..|b| - 1] + [b[|b| - 1]]
  {
  }

  // ---------------------------------------------------------------- logged entries

  function ApplyUpdate(e: Entry, i: nat, bit: bool): bool {
    if e.bitfield.Some? && e.bitfield.value.start <= i < e.bitfield.value.start + e.bitfield.value.length
    then !e.bitfield.value.drop else bit
  }

  /** A bit after the updates of all entries. */
  function AfterUpdates(es: seq<Entry>, i: nat, bit: bool): bool {
    if es == [] then bit else ApplyUpdate(es[|es| - 1], i, AfterUpdates(es[..|es| - 1], i, bit))
  }

  lemma {:induction false} AfterUpdatesSnoc(es: seq<Entry>, e: Entry, i: nat, bit: bool)
    ensures AfterUpdates(es + [e], i, bit) == ApplyUpdate(e, i, AfterUpdates(es, i, bit))
  {
    assert (es + [e])[..|es|] == es;
  }

  /** Replaying over bits that are already final changes nothing. */
  lemma {:induction false} ReplayIsIdempotent(es: seq<Entry>, i: nat, bit: bool)
    ensures AfterUpdates(es, i, AfterUpdates(es, i, bit)) == AfterUpdates(es, i, bit)
  {
    ReplayIsConstantOrIdentity(es, i);
  }

  lemma {:induction false} ReplayIsConstantOrIdentity(es: seq<Entry>, i: nat)
    ensures AfterUpdates(es, i, true) == AfterUpdates(es, i, false) || (AfterUpdates(es, i, true) && !AfterUpdates(es, i, false))
  {
    if es != [] {
      ReplayIsConstantOrIdentity(es[..|es| - 1], i);
    }
  }

  // ---------------------------------------------------------------- the tree after the entries

  function ViewAfter(view: View, es: seq<Entry>): View {
    if es == [] then view else AddNodes(ViewAfter(view, es[..|es| - 1]), es[|es| - 1].nodes)
  }

  function LengthAfter(h: nat, es: seq<Entry>): nat {
    if es == [] then h
    else if es[|es| - 1].upgrade.Some? then es[|es| - 1].upgrade.value.length
    else LengthAfter(h, es[..|es| - 1])
  }

  /** The tree of `n` blocks of the log that knows these nodes. */
  function TreeOver(log: seq<Block>, n: nat, fork: nat, view: View): Tree {
    Tree(n, ByteStart(log, n), fork, NodesAt(log, Roots(n)), view)
  }

  /** What an entry makes of a tree. */
  function TreeWith(log: seq<Block>, t: Tree, e: Entry): Tree {
    TreeOver(log, if e.upgrade.Some? then e.upgrade.value.length else t.length, t.fork, AddNodes(t.view, e.nodes))
  }

  /** What the entries make of the tree in the stores. */
  function TreeAfter(log: seq<Block>, d: Disk, es: seq<Entry>): Tree {
    TreeOver(log, LengthAfter(d.header.length, es), d.header.fork, ViewAfter(d.tree, es))
  }

  lemma {:induction false} TreeAfterSnoc(log: seq<Block>, d: Disk, es: seq<Entry>, e: Entry)
    ensures TreeAfter(log, d, es + [e]) == TreeWith(log, TreeAfter(log, d, es), e)
  {
    assert (es + [e])[..|es|] == es;
  }

  ghost predicate RootsIn(view: View, n: nat) {
    forall j :: 0 <= j < |Roots(n)| ==> Roots(n)[j] in view
  }

  /** The signature of `n` blocks of the log; an empty tree may have none. */
  ghost predicate SignedFor(log: seq<Block>, n: nat, fork: nat, signature: Option<Signature>) {
    signature == WriterSignature(log, n, fork) || (n == 0 && signature.None?)
  }

  /** The header's signature and tree hash are those of its length. */
  ghost predicate HeaderSigned(log: seq<Block>, h: Header) {
    && SignedFor(log, h.length, h.fork, h.signature)
    && (h.rootHash == Some(TreeHash(NodesAt(log, Roots(h.length)))) || (h.length == 0 && h.rootHash.None?))
  }

  /** Only nodes of the log. */
  ghost predicate NodesInside(log: seq<Block>, view: View) {
    forall p :: p in view ==> Hi(p) <= |log| && view[p] == NodeAt(log, p)
  }

  /**
   An entry that a tree of `l` blocks can take: nodes of the log, a signed upgrade from that length to one whose roots
   are known, in the same fork, and marks for blocks of the log.
   */
  ghost predicate EntryFits(log: seq<Block>, view: View, l: nat, fork: nat, e: Entry) {
    && (forall x :: x in e.nodes ==> Hi(x.pos) <= |log| && x == NodeAt(log, x.pos))
    && (e.upgrade.Some? ==>
          var u := e.upgrade.value;
          && u.fork == fork && l == u.ancestors <= u.length <= |log| && RootsIn(AddNodes(view, e.nodes), u.length)
          && SignedFor(log, u.length, fork, u.signature))
    && (e.bitfield.Some? && !e.bitfield.value.drop ==> e.bitfield.value.start + e.bitfield.value.length <= |log|)
  }

  /** Every entry fits what the ones before it lead to. */
  ghost predicate Chain(log: seq<Block>, view: View, h: nat, fork: nat, es: seq<Entry>) {
    forall k :: 0 <= k < |es| ==> EntryFits(log, ViewAfter(view, es[..k]), LengthAfter(h, es[..k]), fork, es[k])
  }

  lemma {:induction false} ChainSnoc(log: seq<Block>, view: View, h: nat, fork: nat, es: seq<Entry>, e: Entry)
    ensures Chain(log, view, h, fork, es + [e]) <==>
            Chain(log, view, h, fork, es) && EntryFits(log, ViewAfter(view, es), LengthAfter(h, es), fork, e)
  {
    var all := es + [e];
    assert all[|es|] == e && all[..|es|] == es;
    assert forall k :: 0 <= k < |es| ==> all[k] == es[k] && all[..k] == es[..k];
    if Chain(log, view, h, fork, all) {
      forall k | 0 <= k < |es|
        ensures EntryFits(log, ViewAfter(view, es[..k]), LengthAfter(h, es[..k]), fork, es[k])
      {
        assert EntryFits(log, ViewAfter(view, all[..k]), LengthAfter(h, all[..k]), fork, all[k]);
      }
      assert EntryFits(log, ViewAfter(view, all[..|es|]), LengthAfter(h, all[..|es|]), fork, all[|es|]);
    }
  }

  lemma {:induction false} NodesAdded(log: seq<Block>, view: View, nodes: seq<Node>)
    requires NodesInside(log, view) && forall x :: x in nodes ==> Hi(x.pos) <= |log| && x == NodeAt(log, x.pos)
    ensures NodesInside(log, AddNodes(view, nodes)) && forall p :: p in view ==> p in AddNodes(view, nodes)
  {
    AddNodesView(view, nodes);
  }

  /** A chain leads to nodes of the log, and to a length whose roots are known. */
  lemma {:induction false} ChainLeads(log: seq<Block>, view: View, h: nat, fork: nat, es: seq<Entry>)
    requires Chain(log, view, h, fork, es) && NodesInside(log, view) && RootsIn(view, h) && h <= |log|
    ensures NodesInside(log, ViewAfter(view, es)) && forall p :: p in view ==> p in ViewAfter(view, es)
    ensures RootsIn(ViewAfter(view, es), LengthAfter(h, es)) && h <= LengthAfter(h, es) <= |log|
  {
    if es != [] {
      var front, e := es[..|es| - 1], es[|es| - 1];
      assert es == front + [e];
      ChainSnoc(log, view, h, fork, front, e);
      ChainLeads(log, view, h, fork, front);
      NodesAdded(log, ViewAfter(view, front), e.nodes);
    }
  }

  // ---------------------------------------------------------------- what the stores stand for

  /** The stored bits, after the logged updates, are `bits`. */
  ghost predicate BitsLogged(store: seq<Byte>, es: seq<Entry>, bits: iset<nat>) {
    && (store == [] || |store| == PAGE_BYTES)
    && (forall i: nat :: BitIn(OpenedPages(store), i) ==> i < 8192)
    && forall i: nat :: i in bits <==> AfterUpdates(es, i, BitIn(OpenedPages(store), i))
  }

  /** The header is signed, its roots are stored, and the entries lead on from there. */
  ghost predicate TreeLogged(d: Disk, log: seq<Block>) {
    && d.entries.Known? && d.header.length <= |log| && NodesInside(log, d.tree) && RootsIn(d.tree, d.header.length)
    && HeaderSigned(log, d.header)
    && Chain(log, d.tree, d.header.length, d.header.fork, d.entries.value)
  }

  /** Opening these stores gives the tree `t` over the log, with the blocks `bits` marked as held. */
  ghost predicate Opens(d: Disk, log: seq<Block>, t: Tree, bits: iset<nat>) {
    && TreeLogged(d, log) && t == TreeAfter(log, d, d.entries.value)
    && BitsLogged(d.bitfield, d.entries.value, bits)
  }

  /** ... and those blocks are there. */
  ghost predicate Durable(d: Disk, log: seq<Block>, t: Tree, bits: iset<nat>) {
    Opens(d, log, t, bits) && Holds(d.data, log, bits)
  }
}
