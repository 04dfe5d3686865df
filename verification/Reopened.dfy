/** What becomes of logged entries when a core is opened with them and goes on logging. */
module Reopened {
  import opened Common
  import opened FlatTree
  import opened Hashes
  import opened Changesets
  import opened Verify
  import opened Accumulator
  import opened Offsets
  import opened DynamicBitfields
  import opened Storage
  import opened Durability
  import opened CoreState
  import opened Core
  import opened Recovery
  import opened Overwrites

  // ---------------------------------------------------------------- entries that are only logged

  lemma {:induction false} NodesSizeBound(nodes: seq<Node>)
    ensures NodesSize(nodes) <= 50 * |nodes|
  {
    if nodes != [] {
      NodesSizeBound(nodes[..|nodes| - 1]);
    }
  }

  lemma {:induction false} EntrySizeBound(e: Entry)
    ensures EntrySize(e) <= 150 + 50 * |e.nodes|
  {
    NodesSizeBound(e.nodes);
  }

  /** The second block completes its leaf and the first parent. */
  lemma {:induction false} SecondEmitted()
    ensures |Emitted(1, 2)| == 2
  {
    assert MergeChain(Pos(1, 0)) == [Pos(1, 0)] && Parent(Leaf(1)) == Pos(1, 0);
    assert MergeChain(Leaf(1)) == [Leaf(1)] + MergeChain(Pos(1, 0));
    assert Emitted(1, 1) == [];
  }

  /** A small entry after a flush is only logged. */
  lemma {:induction false} SmallIsLogged(e: Entry, was: Disk, skip: nat, bytes: nat, now: Disk)
    requires |e.nodes| <= 2 && was.entries == Known([]) && LoggedThenFlushed(3, 0, was, e, skip, bytes, now)
    ensures now == was.(entries := Known([e]), data := now.data)
  {
    EntrySizeBound(e);
    assert [] + [e] == [e];
  }

  lemma {:induction false} SecondEntry(log: seq<Block>, m: nat, fork: nat)
    requires |log| == 2 && m == 1
    ensures |AppendEntry(log, m, fork).nodes| == 2
  {
    SecondEmitted();
  }

  method AppendTo(core: Hypercore, batch: seq<Block>)
    requires core.Valid() && core.Durably() && core.writable && batch != [] && |core.log + batch| <= 8192
    modifies core, core.tree, core.bitfield
    ensures core.Valid() && core.Durably() && core.log == old(core.log) + batch
            && core.Content() == old(core.Content()) + AllHeld(batch)
    ensures LoggedThenFlushed(old(core.skipFlushCount), old(core.entriesBytes), old(core.disk),
                              AppendEntry(core.log, |old(core.log)|, core.tree.fork),
                              core.skipFlushCount, core.entriesBytes, core.disk)
  {
    core.ValidTracks();
    var _, _ := core.AppendBatch(batch);
  }

  /** The first append to a new core is flushed at once. */
  method FirstAppend(batch: seq<Block>) returns (core: Hypercore)
    requires batch != [] && |batch| <= 8192
    ensures fresh(core) && fresh(core.tree) && fresh(core.bitfield) && core.writable
    ensures core.Valid() && core.Durably() && core.log == batch && core.Content() == AllHeld(batch)
    ensures core.disk.entries == Known([]) && core.entriesBytes == 0 && core.skipFlushCount == 3
  {
    core := new Hypercore.Fresh(true);
    AppendTo(core, batch);
  }

  /** The second one is only logged. */
  method TwoAppends(a: seq<Block>, b: seq<Block>) returns (core: Hypercore)
    requires |a| == |b| == 1
    ensures fresh(core) && fresh(core.tree) && fresh(core.bitfield)
    ensures core.Valid() && core.Durably() && core.log == a + b && core.Content() == AllHeld(a) + AllHeld(b)
    ensures core.disk.entries == Known([AppendEntry(core.log, |a|, core.tree.fork)])
  {
    core := FirstAppend(a);
    ghost var was, m := core.disk, |core.log|;
    AppendTo(core, b);
    SecondEntry(core.log, m, core.tree.fork);
    SmallIsLogged(AppendEntry(core.log, m, core.tree.fork), was, core.skipFlushCount,
                  core.entriesBytes, core.disk);
  }

  /** A writer's core that is opened from stores with logged entries counts none of them. */
  method OpenUncounted(d: Disk, ghost m: Meaning) returns (core: Hypercore)
    requires Means(d, m) && FollowingTree(m.log, m.tree, m.bits) && WriterTree(m.log, m.tree)
    requires |m.log| <= 8192 && d.entries != Known([])
    ensures fresh(core) && fresh(core.tree) && fresh(core.bitfield)
    ensures core.Valid() && core.Durably() && !core.Synced() && core.Meant() == m
    ensures core.disk == d && core.entriesBytes == 0 && core.journal == []
  {
    var again, _ := Open(d, true, false, m);
    core := again.value;
    var es := d.entries.value;
    assert EntriesSize(es) >= EntrySize(es[|es| - 1]);
  }

  // ---------------------------------------------------------------- a logged append under a clear that fails

  lemma {:induction false} BothHeld(a: Block, b: Block, bits: iset<nat>)
    requires ContentOf([a, b], bits) == [Some(a), Some(b)]
    ensures !ClearCompletes(2, bits, 2, 3)
    ensures Below(bits, 2) ==> Marked(bits, 2, 3, false) == bits
  {
    assert ContentOf([a, b], bits)[1] == Some(b);
  }

  lemma {:induction false} TwoBlocks(a: Block, b: Block, log: seq<Block>, content: seq<Option<Block>>)
    requires log == [a] + [b] && content == AllHeld([a]) + AllHeld([b])
    ensures log == [a, b] && content == [Some(a), Some(b)]
  {
  }

  /** A clear over a logged append garbles it, and the clear alone leads only to the length before the append. */
  lemma {:induction false} AppendGarbled(d: Disk, log: seq<Block>, m: nat, fork: nat)
    requires m < |log| && d.entries == Known([AppendEntry(log, m, fork)]) && TreeLogged(d, log)
    ensures LogEntry(d, 0, ClearEntry(2, 3)).entries == Garbled([ClearEntry(2, 3)])
    ensures OpensShort(d.(entries := Known([ClearEntry(2, 3)])), log, m)
  {
    var e, c := d.entries.value[0], ClearEntry(2, 3);
    SmallerGarbles(d.entries.value, c);
    LedFrom(log, d, e, m);
    StaysAt(d.header.length, c);
  }

  lemma {:induction false} LedFrom(log: seq<Block>, d: Disk, e: Entry, m: nat)
    requires Chain(log, d.tree, d.header.length, d.header.fork, [e]) && e.upgrade.Some?
             && e.upgrade.value.ancestors == m
    ensures d.header.length == m
  {
    assert [e][..0] == [];
    assert EntryFits(log, ViewAfter(d.tree, [e][..0]), LengthAfter(d.header.length, [e][..0]), d.header.fork, [e][0]);
  }

  lemma {:induction false} StaysAt(h: nat, e: Entry)
    requires e.upgrade.None?
    ensures LengthAfter(h, [e]) == h
  {
    assert [e][..0] == [];
  }

  /** A writer's core over stores with logged entries makes a clear. */
  method ClearUncounted(d: Disk, ghost m: Meaning, start: nat, end: nat)
    returns (core: Hypercore, r: Result<()>, ghost writes: seq<StoreWrite>)
    requires Means(d, m) && FollowingTree(m.log, m.tree, m.bits) && WriterTree(m.log, m.tree)
    requires |m.log| <= 8192 && d.entries != Known([]) && start < end
    ensures fresh(core) && fresh(core.tree) && fresh(core.bitfield)
    ensures core.log == m.log && core.Bits() == Marked(m.bits, start, end, false) && core.journal == writes
    ensures [WriteEntry(0, ClearEntry(start, end))] <= writes
    ensures r.Ok? <==> ClearCompletes(|m.log|, m.bits, start, end)
    ensures r.Err? ==>
              writes == [WriteEntry(0, ClearEntry(start, end))] && core.disk == LogEntry(d, 0, ClearEntry(start, end))
  {
    core := OpenUncounted(d, m);
    core.ValidTracks();
    r, writes := core.Clear(start, end);
    assert [] + writes == writes;
    if r.Err? {
      OnlyEntry(d, writes, 0, ClearEntry(start, end));
    }
  }

  /** The stores after an entry as the first of some writes. */
  lemma {:induction false} FirstEntry(d: Disk, writes: seq<StoreWrite>, at: nat, e: Entry)
    requires [WriteEntry(at, e)] <= writes
    ensures AfterWrites(d, writes[..1]) == LogEntry(d, at, e) == AfterWrite(d, WriteEntry(at, e))
  {
    AfterWritesSnoc(d, [], WriteEntry(at, e));
    assert writes[..1] == [WriteEntry(at, e)] == [] + [WriteEntry(at, e)];
  }

  lemma {:induction false} OnlyEntry(d: Disk, writes: seq<StoreWrite>, at: nat, e: Entry)
    requires [WriteEntry(at, e)] <= writes && |writes| == 1
    ensures writes == [WriteEntry(at, e)] && AfterWrites(d, writes) == LogEntry(d, at, e)
  {
    FirstEntry(d, writes, at, e);
    assert writes[..1] == writes;
  }

  /** Everything that the stores may open to has the length `n`. */
  ghost predicate OpensShort(d: Disk, log: seq<Block>, n: nat) {
    forall t, bits :: Opens(d, log, t, bits) ==> t.length == n
  }

  /** Stores with a flushed block and a second one that is only logged. */
  method SecondLogged(a: Block, b: Block) returns (d: Disk, ghost m: Meaning)
    ensures Means(d, m) && FollowingTree(m.log, m.tree, m.bits) && WriterTree(m.log, m.tree) && m.log == [a, b]
    ensures ContentOf(m.log, m.bits) == [Some(a), Some(b)] && Below(m.bits, 2)
    ensures d.entries != Known([]) && LogEntry(d, 0, ClearEntry(2, 3)).entries == Garbled([ClearEntry(2, 3)])
    ensures OpensShort(d.(entries := Known([ClearEntry(2, 3)])), [a, b], 1)
  {
    var first := TwoAppends([a], [b]);
    first.ValidTracks();
    TwoBlocks(a, b, first.log, first.Content());
    d, m := first.disk, first.Meant();
    AppendGarbled(d, first.log, |[a]|, first.tree.fork);
  }

  /**
   A core of two blocks whose second append is logged but not flushed is reopened; a clear past its end then fails after
   its entry, the only write, has garbled the logged one. Opening fails or finds the clear first, and the clear alone
   does not lead to the log.
   */
  method LoggedAppendLost(a: Block, b: Block) returns (reopened: Disk, core: Hypercore, r: Result<()>, ghost m: Meaning)
    ensures Means(reopened, m) && m.log == [a, b] && m.tree.length == 2 && m.bits == core.Bits()
    ensures core.Content() == [Some(a), Some(b)] && r.Err? && core.journal == [WriteEntry(0, ClearEntry(2, 3))]
    ensures core.disk == LogEntry(reopened, 0, ClearEntry(2, 3)) && core.disk.entries == Garbled([ClearEntry(2, 3)])
    ensures OpensShort(core.disk.(entries := Known([ClearEntry(2, 3)])), [a, b], 1)
  {
    reopened, m := SecondLogged(a, b);
    BothHeld(a, b, m.bits);
    ghost var writes;
    core, r, writes := ClearUncounted(reopened, m, 2, 3);
    assert core.disk.(entries := Known([])) == reopened.(entries := Known([]));
  }

  // ---------------------------------------------------------------- a logged clear under another clear

  /** The first block of a flushed core is cleared; the clear is only logged. */
  method ClearFirst(core: Hypercore)
    requires core.Valid() && core.Durably() && core.disk.entries == Known([]) && core.entriesBytes == 0
             && core.skipFlushCount == 3
    requires core.log != [] && core.log[0] != []
    modifies core, core.tree, core.bitfield
    ensures core.Valid() && core.Durably() && core.log == old(core.log) && 0 !in core.Bits()
    ensures core.disk == old(core.disk).(entries := Known([ClearEntry(0, 1)]), data := core.disk.data)
    ensures !Stored(core.disk.data, ByteStart(core.log, 0), core.log[0])
  {
    core.ValidTracks();
    ghost var was := core.disk;
    var done, _ := core.Clear(0, 1);
    SmallIsLogged(ClearEntry(0, 1), was, core.skipFlushCount, core.entriesBytes, core.disk);
    core.ValidTracks();
    ghost var h :| IsHole(core.log, core.tree.length, core.Bits(), 0, 1, h)
                   && core.disk.data == DeleteData(was.data, h.offset, h.length);
    HoleCovers(core.log, core.tree.length, core.Bits(), 0, 1, h, 0);
    Deleted(was.data, h.offset, h.length, ByteStart(core.log, 0), core.log[0]);
  }

  lemma {:induction false} Deleted(data: map<nat, Byte>, offset: nat, length: nat, start: nat, bytes: seq<Byte>)
    requires bytes != [] && offset <= start && start + |bytes| <= offset + length
    ensures !Stored(DeleteData(data, offset, length), start, bytes)
  {
    assert start !in DeleteData(data, offset, length);
  }

  lemma {:induction false} StoredWhenHeld(d: Disk, log: seq<Block>, t: Tree, bits: iset<nat>)
    requires Durable(d, log, t, bits) && d.entries == Known([]) && log != [] && ContentOf(log, bits) == AllHeld(log)
    ensures BitIn(OpenedPages(d.bitfield), 0)
  {
    assert ContentOf(log, bits)[0] == AllHeld(log)[0];
  }

  /**
   The core is reopened and the second block is cleared. The new entry has the size of the logged one and takes its
   place: if the program crashes right after this write, the stores open without any error, with the first block
   marked as held and its bytes gone.
   */
  method ClearedBlockComesBack(batch: seq<Block>)
    returns (reopened: Disk, ghost m: Meaning, ghost writes: seq<StoreWrite>, crashed: Disk, ghost held: iset<nat>)
    requires 2 <= |batch| <= 8192 && batch[0] != []
    ensures Means(reopened, m) && m.log == batch && 0 !in m.bits
    ensures writes != [] && crashed == AfterWrites(reopened, writes[..1])
            && crashed.entries == Known([ClearEntry(1, 2)])
    ensures Opens(crashed, batch, m.tree, held) && 0 in held && !Stored(crashed.data, ByteStart(batch, 0), batch[0])
  {
    var first := FirstAppend(batch);
    StoredWhenHeld(first.disk, batch, first.Meant().tree, first.Bits());
    ClearFirst(first);
    first.ValidTracks();
    reopened, m := first.disk, first.Meant();
    var core, done;
    core, done, writes := ClearUncounted(reopened, m, 1, 2);
    FirstEntry(reopened, writes, 0, ClearEntry(1, 2));
    OtherClear(reopened, m);
    crashed := LogEntry(reopened, 0, ClearEntry(1, 2));
    held := Replayed(reopened.bitfield, [ClearEntry(1, 2)]);
  }

  lemma {:induction false} OtherClear(d: Disk, m: Meaning)
    requires Opens(d, m.log, m.tree, m.bits) && d.entries == Known([ClearEntry(0, 1)])
             && BitIn(OpenedPages(d.bitfield), 0)
    ensures var now, held := LogEntry(d, 0, ClearEntry(1, 2)), Replayed(d.bitfield, [ClearEntry(1, 2)]);
            now.entries == Known([ClearEntry(1, 2)]) && Opens(now, m.log, m.tree, held) && 0 in held
  {
    var c, e := ClearEntry(0, 1), ClearEntry(1, 2);
    SameSizeReplaces(d, c, e);
    assert [e] + [c][1..] == [e];
    ClearOverClears(d, m.log, m.tree, m.bits, 0, 1, 2);
    assert [e][..0] == [];
    assert AfterUpdates([e], 0, true);
  }
}
