/** The hypercore itself (src/core.rs): appends, clears and reads over the four stores. */
module Core {
  import opened Common
  import opened FlatTree
  import opened Hashes
  import opened Changesets
  import opened Verify
  import opened Soundness
  import opened Prover
  import opened MerkleTrees
  import opened Accumulator
  import opened Offsets
  import opened DynamicBitfields
  import opened Storage
  import opened Durability
  import opened CoreState

  const MAX_OPLOG_ENTRIES_BYTE_SIZE := 65536

  datatype AppendOutcome = AppendOutcome(length: nat, byteLength: nat)

  /** `ws` are the writes that led from one state of the stores to the other, and were journaled as they were made. */
  ghost predicate Journaled(was: Disk, journalWas: seq<StoreWrite>, now: Disk, journal: seq<StoreWrite>,
                            ws: seq<StoreWrite>) {
    journal == journalWas + ws && now == AfterWrites(was, ws)
  }

  lemma {:induction false} JournaledThen(d0: Disk, j0: seq<StoreWrite>, d1: Disk, j1: seq<StoreWrite>, d2: Disk,
                                         j2: seq<StoreWrite>,
                      a: seq<StoreWrite>, b: seq<StoreWrite>)
    requires Journaled(d0, j0, d1, j1, a) && Journaled(d1, j1, d2, j2, b)
    ensures Journaled(d0, j0, d2, j2, a + b)
  {
    AfterWritesConcat(d0, a, b);
    assert j0 + a + b == j0 + (a + b);
  }

  /** An entry is logged, and the flush that follows is due or not. */
  ghost predicate LoggedThenFlushed(skipWas: nat, bytesWas: nat, was: Disk, e: Entry, skip: nat, bytes: nat,
                                    now: Disk) {
    if skipWas == 0 || bytesWas + EntrySize(e) >= MAX_OPLOG_ENTRIES_BYTE_SIZE
    then skip == 3 && bytes == 0 && now.entries == Known([])
    else
      && skip == skipWas - 1 && bytes == bytesWas + EntrySize(e)
      && now == LogEntry(was, bytesWas, e).(data := now.data)
  }

  /** Such an entry keeps the counter of logged bytes right, or makes it right. */
  lemma {:induction false} LoggedSyncs(skipWas: nat, bytesWas: nat, was: Disk, e: Entry, skip: nat, bytes: nat,
                                       now: Disk)
    requires LoggedThenFlushed(skipWas, bytesWas, was, e, skip, bytes, now)
    requires skipWas == 0 || (was.entries.Known? && bytesWas == EntriesSize(was.entries.value))
    ensures now.entries.Known? && bytes == EntriesSize(now.entries.value)
  {
    if was.entries.Known? {
      EntriesSizeSnoc(was.entries.value, e);
    }
  }

  class Hypercore {
    const tree: MerkleTree
    const bitfield: DynamicBitfield
    const writable: bool
    var header: Header
    var skipFlushCount: nat
    var entriesBytes: nat
    /** What the stores hold; only `Store` changes it. */
    var disk: Disk
    /** The writer's log: all blocks ever appended. */
    ghost var log: seq<Block>
    /** Every write to a store so far, in order. */
    ghost var journal: seq<StoreWrite>

    ghost function Bits(): iset<nat>
      reads bitfield
    {
      BitsOf(bitfield.Words())
    }

    ghost function Content(): seq<Option<Block>>
      reads this`log, bitfield
    {
      ContentOf(log, Bits())
    }

    /** What every core keeps, whatever it was sent: its tree carries the writer's hashes. */
    ghost predicate Tracking()
      reads this`disk, this`log, tree, bitfield
    {
      TracksOver(disk.tree)
    }

    ghost predicate TracksOver(store: View)
      reads this`log, tree, bitfield
    {
      bitfield.Valid() && tree.HashCoherent(store) && Trusted(log, tree.TreeOf(store)) && Below(Bits(), |log|)
    }

    /** The writer's own core: tree, bitfield, block store and header all describe `log`, lengths included. */
    ghost predicate Valid()
      reads this`disk, this`header, this`log, tree, bitfield
    {
      WritesOver(disk.tree) && Holds(disk.data, log, Bits()) && Signs()
    }

    /** Tree and header carry the writer's signature and tree hash of their length. */
    ghost predicate Signs()
      reads this`header, this`log, tree
    {
      && header.length == tree.length && header.fork == tree.fork && header.signature == tree.signature
      && HeaderSigned(log, header)
    }

    ghost predicate WritesOver(store: View)
      reads this`log, tree, bitfield
    {
      bitfield.Valid() && tree.Coherent(store) && WriterTree(log, tree.TreeOf(store))
    }

    /**
     A core whose tree is part of the writer's, lengths included, whose header agrees with it and whose held blocks are
     known and stored.
     */
    ghost predicate Following()
      reads this`disk, this`header, this`log, tree, bitfield
    {
      FollowsOver(disk.tree) && Holds(disk.data, log, Bits()) && Signs()
    }

    ghost predicate FollowsOver(store: View)
      reads this`log, tree, bitfield
    {
      bitfield.Valid() && tree.Coherent(store) && FollowingTree(log, tree.TreeOf(store), Bits())
    }

    /** What the core holds in memory, as what its stores should stand for. */
    ghost function Meant(): Meaning
      reads this`disk, this`log, tree, bitfield
    {
      Meaning(log, tree.TreeOf(disk.tree), Bits())
    }

    /** The counter of logged bytes is right; after reopening it starts from 0 whatever is logged. */
    ghost predicate Synced()
      reads this`disk, this`entriesBytes
    {
      disk.entries.Known? && entriesBytes == EntriesSize(disk.entries.value)
    }

    /** The stores can be reopened to this state, and the next logged entry is either well placed or flushed away. */
    ghost predicate Durably()
      reads this, tree, bitfield
    {
      Flushable() && Means(disk, Meant()) && (Synced() || skipFlushCount == 0)
    }

    /** A flush would leave stores that can be reopened to this state. */
    ghost predicate Flushable()
      reads this, tree, bitfield
    {
      Following() && Persistable(disk, bitfield.Words(), bitfield.unflushed, log)
    }

    /** A writer's core is in particular a tracking and a following one. */
    lemma {:induction false} ValidTracks()
      requires Valid()
      ensures Tracking() && Following() && tree.length == |log| && tree.SeenOf(disk.tree) == tree.ViewOf(disk.tree)
    {
      WriterIsTrusted(log, tree.TreeOf(disk.tree));
      WriterFollows(log, tree.TreeOf(disk.tree), Bits());
    }

    lemma {:induction false} FollowingTracks()
      requires Following()
      ensures Tracking() && Below(Bits(), tree.length) && tree.SeenTree(disk.tree) == tree.TreeOf(disk.tree)
    {
      LeavesInside(log, tree.TreeOf(disk.tree), Bits());
      assert tree.SeenOf(disk.tree) == tree.ViewOf(disk.tree);
    }

    /** A following core with the writer's whole tree is the writer's. */
    lemma {:induction false} FollowingWrites()
      requires Following() && WriterTree(log, tree.TreeOf(disk.tree))
      ensures Valid()
    {
    }

    /** A core that has any block has its writer's signature for them. */
    lemma {:induction false} SignedWhole()
      requires Signs() && tree.length > 0
      ensures tree.signature == header.signature == WriterSignature(log, tree.length, tree.fork)
      ensures header.rootHash == Some(TreeHash(NodesAt(log, Roots(tree.length))))
    {
    }

    /** A core over stores that have been opened and replayed. */
    constructor Opened(tree: MerkleTree, bitfield: DynamicBitfield, writable: bool, header: Header, disk: Disk,
                       ghost log: seq<Block>)
      ensures this.tree == tree && this.bitfield == bitfield && this.writable == writable
      ensures this.header == header && this.disk == disk && this.log == log && journal == []
      ensures skipFlushCount == 0 && entriesBytes == 0
    {
      this.tree, this.bitfield, this.writable := tree, bitfield, writable;
      this.header, this.disk, this.log, journal := header, disk, log, [];
      skipFlushCount, entriesBytes := 0, 0;
    }

    /** A new core over empty stores. */
    constructor Fresh(writable: bool)
      ensures fresh(tree) && fresh(bitfield) && this.writable == writable
      ensures Valid() && Durably() && Synced() && log == [] && tree.fork == 0 && journal == []
      ensures skipFlushCount == 0 && entriesBytes == 0 && disk.entries == Known([])
      ensures FirstUnset(Bits(), header.contiguous)
    {
      this.writable := writable;
      header := Header(0, 0, None, None, 0);
      tree := new MerkleTree([], 0, 0, 0, None, false);
      bitfield := new DynamicBitfield();
      skipFlushCount, entriesBytes := 0, 0;
      disk := Disk(map[], map[], [], Header(0, 0, None, None, 0), Known([]));
      log, journal := [], [];
      new;
      FreshIsDurable(bitfield.Words());
      assert tree.ViewOf(disk.tree) == map[];
      ValidTracks();
    }

    /** A new core over empty stores that will follow the writer of `log`. */
    constructor FreshReplica(ghost log: seq<Block>)
      ensures fresh(tree) && fresh(bitfield) && !writable && this.log == log
      ensures Tracking() && tree.TreeOf(disk.tree) == Tree(0, 0, 0, [], map[]) && Bits() == iset{}
      ensures Following() && (|log| <= 8192 ==> Durably()) && Synced() && journal == []
      ensures skipFlushCount == 0 && entriesBytes == 0 && disk.entries == Known([])
      ensures FirstUnset(Bits(), header.contiguous)
    {
      writable := false;
      header := Header(0, 0, None, None, 0);
      tree := new MerkleTree([], 0, 0, 0, None, false);
      bitfield := new DynamicBitfield();
      skipFlushCount, entriesBytes := 0, 0;
      disk := Disk(map[], map[], [], Header(0, 0, None, None, 0), Known([]));
      this.log, journal := log, [];
      new;
      FreshIsDurable(bitfield.Words());
      EmptyTreeIsTrusted(log, 0);
      assert tree.ViewOf(disk.tree) == map[];
    }

    /** One write to one store. */
    method Store(w: StoreWrite)
      modifies this`disk, this`journal
      ensures disk == AfterWrite(old(disk), w) && journal == old(journal) + [w]
    {
      disk := AfterWrite(disk, w);
      journal := journal + [w];
    }

    // -------------------------------------------------------------- flushing

    /** `should_flush_bitfield_and_tree_and_oplog`. */
    method ShouldFlush() returns (r: bool)
      modifies this`skipFlushCount
      ensures r <==> old(skipFlushCount) == 0 || entriesBytes >= MAX_OPLOG_ENTRIES_BYTE_SIZE
      ensures skipFlushCount == if r then 3 else old(skipFlushCount) - 1
    {
      if skipFlushCount == 0 || entriesBytes >= MAX_OPLOG_ENTRIES_BYTE_SIZE {
        skipFlushCount := 3;
        return true;
      }
      skipFlushCount := skipFlushCount - 1;
      return false;
    }

    method WritePages(writes: seq<Write>)
      modifies this`disk, this`journal
      ensures Journaled(old(disk), old(journal), disk, journal, PageStores(writes))
    {
      for k := 0 to |writes|
        invariant Journaled(old(disk), old(journal), disk, journal, PageStores(writes[..k]))
      {
        assert PageStores(writes[..k + 1]) == PageStores(writes[..k]) + [WritePage(writes[k])];
        AfterWritesSnoc(old(disk), PageStores(writes[..k]), WritePage(writes[k]));
        Store(WritePage(writes[k]));
      }
      assert writes[..|writes|] == writes;
    }

    method FlushBitfield()
      requires bitfield.Valid()
      modifies this`disk, this`journal, bitfield
      ensures bitfield.Valid() && bitfield.unflushed == [] && bitfield.Words() == old(bitfield.Words())
      ensures disk == old(disk).(bitfield := disk.bitfield)
      ensures Journaled(old(disk), old(journal), disk, journal,
                        PageStores(PageWrites(old(bitfield.Words()), old(bitfield.unflushed))))
    {
      var writes := bitfield.Flush();
      WritePages(writes);
      AfterPages(old(disk), writes);
    }

    /** The nodes are written one at a time, in any order. */
    method WriteNodes(nodes: View) returns (ghost order: seq<Pos>)
      modifies this`disk, this`journal
      ensures Enumerates(order, nodes)
      ensures Journaled(old(disk), old(journal), disk, journal, NodeStores(nodes, order))
    {
      var rest := nodes.Keys;
      order := [];
      while rest != {}
        invariant rest <= nodes.Keys && Lists(order, nodes.Keys - rest)
        invariant Journaled(old(disk), old(journal), disk, journal, NodeStores(nodes, order))
        decreases rest
      {
        var p :| p in rest;
        ListsSnoc(order, nodes.Keys - rest, p);
        rest := rest - {p};
        assert nodes.Keys - rest == nodes.Keys - (rest + {p}) + {p};
        assert NodeStores(nodes, order + [p]) == NodeStores(nodes, order) + [WriteNode(p, nodes[p])];
        AfterWritesSnoc(old(disk), NodeStores(nodes, order), WriteNode(p, nodes[p]));
        Store(WriteNode(p, nodes[p]));
        order := order + [p];
      }
    }

    method FlushTree() returns (ghost order: seq<Pos>)
      requires tree.HashCoherent(disk.tree)
      modifies this`disk, this`journal, tree`unflushed
      ensures tree.HashCoherent(disk.tree) && (old(tree.Coherent(disk.tree)) ==> tree.Coherent(disk.tree))
      ensures tree.TreeOf(disk.tree) == old(tree.TreeOf(disk.tree))
      ensures Enumerates(order, old(tree.unflushed)) && disk == old(disk).(tree := disk.tree)
      ensures Journaled(old(disk), old(journal), disk, journal, NodeStores(old(tree.unflushed), order))
    {
      var nodes := tree.FlushNodes(disk.tree);
      order := WriteNodes(nodes);
      AfterAllNodes(old(disk), nodes, order);
    }

    /** The header goes to its slot, then the logged entries are cut off. */
    method FlushOplog()
      modifies this`disk, this`journal, this`entriesBytes
      ensures entriesBytes == 0 && disk == old(disk).(header := header, entries := Known([]))
      ensures Journaled(old(disk), old(journal), disk, journal, [WriteHeader(header), CutEntries])
    {
      AfterHeader(disk, header);
      Store(WriteHeader(header));
      Store(CutEntries);
      entriesBytes := 0;
    }

    /** `flush_bitfield_and_tree_and_oplog`. */
    method Flush() returns (ghost order: seq<Pos>)
      requires bitfield.Valid() && tree.HashCoherent(disk.tree)
      modifies this`disk, this`journal, this`entriesBytes, bitfield, tree`unflushed
      ensures bitfield.Valid() && bitfield.Words() == old(bitfield.Words()) && bitfield.unflushed == []
      ensures tree.HashCoherent(disk.tree) && (old(tree.Coherent(disk.tree)) ==> tree.Coherent(disk.tree))
      ensures tree.TreeOf(disk.tree) == old(tree.TreeOf(disk.tree))
      ensures Enumerates(order, old(tree.unflushed)) && entriesBytes == 0
      ensures disk == Flushed(old(disk), PageWrites(old(bitfield.Words()), old(bitfield.unflushed)),
                              old(tree.unflushed), header)
      ensures Journaled(old(disk), old(journal), disk, journal,
                        FlushWrites(PageWrites(old(bitfield.Words()), old(bitfield.unflushed)), old(tree.unflushed),
                                    order, header))
    {
      ghost var pages, nodes, d0, j0 := PageWrites(bitfield.Words(), bitfield.unflushed), tree.unflushed, disk, journal;
      FlushBitfield();
      ghost var d1, j1 := disk, journal;
      order := FlushTree();
      ghost var d2, j2 := disk, journal;
      FlushOplog();
      JournaledThen(d0, j0, d1, j1, d2, j2, PageStores(pages), NodeStores(nodes, order));
      JournaledThen(d0, j0, d2, j2, disk, journal, PageStores(pages) + NodeStores(nodes, order),
                    [WriteHeader(header), CutEntries]);
      AfterFlush(d0, pages, nodes, order, header);
    }

    /** A flush keeps everything but what is yet to be written. */
    method FlushNow(ghost d0: Disk, ghost j0: seq<StoreWrite>, ghost made: seq<StoreWrite>, ghost m: Meaning)
      returns (ghost writes: seq<StoreWrite>)
      requires Tracking() && Journaled(d0, j0, disk, journal, made) && disk.header == d0.header
      modifies this`disk, this`journal, this`entriesBytes, bitfield, tree`unflushed
      ensures Tracking() && bitfield.Words() == old(bitfield.Words()) && disk.data == old(disk.data)
      ensures tree.TreeOf(disk.tree) == old(tree.TreeOf(disk.tree))
      ensures (old(Valid()) ==> Valid()) && (old(Following()) ==> Following())
      ensures Journaled(d0, j0, disk, journal, writes) && made <= writes && entriesBytes == 0
              && disk.entries == Known([])
      ensures old(Flushable()) ==> Flushable() && Means(disk, Meant())
      ensures old(Flushable() && Means(disk, Meant())) && CrashSafe(d0, d0, made, m, old(Meant())) ==>
                CrashSafe(d0, d0, writes, m, Meant())
    {
      ghost var d, j, words, listed, nodes, m' := disk, journal, bitfield.Words(), bitfield.unflushed, tree.unflushed, Meant();
      ghost var flushable := Flushable();
      ghost var order := Flush();
      ghost var flush := FlushWrites(PageWrites(words, listed), nodes, order, header);
      writes := made + flush;
      JournaledThen(d0, j0, d, j, disk, journal, made, flush);
      if flushable {
        HonestIsOver(log, m'.tree);
        FlushIsDurable(d, words, listed, nodes, header, log, m'.tree);
        if Means(d, m') && CrashSafe(d0, d0, made, m, m') {
          FlushIsSafe(d, words, listed, nodes, order, header, m');
          CrashSafeThen(d0, made, flush, m, m');
        }
      }
    }

    /** The flush at the end of every operation, if it is due. */
    method FlushIfDue(ghost d0: Disk, ghost j0: seq<StoreWrite>, ghost made: seq<StoreWrite>, ghost m: Meaning)
      returns (ghost writes: seq<StoreWrite>)
      requires Tracking() && Journaled(d0, j0, disk, journal, made) && disk.header == d0.header
      modifies this`disk, this`journal, this`entriesBytes, this`skipFlushCount, bitfield, tree`unflushed
      ensures Tracking() && bitfield.Words() == old(bitfield.Words()) && disk.data == old(disk.data)
      ensures tree.TreeOf(disk.tree) == old(tree.TreeOf(disk.tree))
      ensures (old(Valid()) ==> Valid()) && (old(Following()) ==> Following())
      ensures Journaled(d0, j0, disk, journal, writes) && made <= writes
      ensures if old(skipFlushCount == 0 || entriesBytes >= MAX_OPLOG_ENTRIES_BYTE_SIZE)
              then skipFlushCount == 3 && entriesBytes == 0 && disk.entries == Known([])
              else skipFlushCount == old(skipFlushCount) - 1 && entriesBytes == old(entriesBytes) && disk == old(disk)
      ensures old(Flushable() && (skipFlushCount == 0 || (Synced() && Means(disk, Meant())))) ==> Durably()
      ensures old(Flushable() && Means(disk, Meant())) && CrashSafe(d0, d0, made, m, old(Meant())) ==>
                CrashSafe(d0, d0, writes, m, Meant())
    {
      ghost var m' := Meant();
      var due := ShouldFlush();
      assert Meant() == m';
      if due {
        writes := FlushNow(d0, j0, made, m);
      } else {
        writes := made;
      }
    }

    // -------------------------------------------------------------- appending

    /** The signed changeset of a batch. */
    method SignedChangeset(batch: seq<Block>) returns (cs: Changeset)
      requires Tracking() && tree.length == |log| && batch != []
      ensures fresh(cs) && BatchChangeset(cs, log, batch) && cs.originalFork == cs.fork == tree.fork
    {
      cs := tree.NewChangeset();
      TotalBytes(log, |log|);
      RootsStable(log, batch, |log|);
      PrefixStarts(log, batch, |log|);
      assert (log + batch)[|log|..] == batch;
      var bytes := Accumulator.AppendBatch(cs, batch, log + batch);
      cs.HashAndSign();
    }

    /** The blocks go to the data store, then the changeset to the oplog and the header. */
    method LogBatch(cs: Changeset, batch: seq<Block>)
      requires BatchChangeset(cs, log, batch) && tree.byteLength == ByteStart(log, |log|)
      modifies this`header, this`disk, this`journal, this`entriesBytes
      ensures header == old(header).(rootHash := Some(TreeHash(NodesAt(log + batch, Roots(|log + batch|)))),
                                     signature := WriterSignature(log + batch, |log + batch|, cs.fork),
                                     length := |log + batch|)
      ensures cs.signature == WriterSignature(log + batch, |log + batch|, cs.fork)
      ensures disk == BatchLogged(old(disk), log, batch, old(entriesBytes), cs.fork)
      ensures Journaled(old(disk), old(journal), disk, journal,
                        BatchWrites(log, batch, old(entriesBytes), cs.fork))
      ensures entriesBytes == old(entriesBytes) + EntrySize(AppendEntry(log + batch, |log|, cs.fork))
    {
      AfterBatch(disk, log, batch, entriesBytes, cs.fork);
      Store(WriteBlocks(tree.byteLength, Flatten(batch)));
      var update := BitfieldUpdate(false, cs.ancestors, cs.batchLength);
      var entry := Entry(cs.nodes, Some(TreeUpgrade(cs.fork, cs.ancestors, cs.length, cs.signature)), Some(update));
      Store(WriteEntry(entriesBytes, entry));
      entriesBytes := entriesBytes + EntrySize(entry);
      header := header.(rootHash := cs.hash, signature := cs.signature, length := cs.length);
    }

    method CommitBatch(cs: Changeset, ghost batch: seq<Block>)
      requires BatchChangeset(cs, log, batch) && batch != [] && cs.originalFork == cs.fork == tree.fork
      requires tree.HashCoherent(disk.tree) && Trusted(log, tree.TreeOf(disk.tree)) && tree.length == |log|
      modifies tree
      ensures tree.HashCoherent(disk.tree) && Trusted(log + batch, tree.TreeOf(disk.tree))
              && tree.length == |log + batch|
      ensures old(tree.Coherent(disk.tree) && WriterTree(log, tree.TreeOf(disk.tree))) ==>
                tree.Coherent(disk.tree) && WriterTree(log + batch, tree.TreeOf(disk.tree))
      ensures tree.fork == cs.fork && tree.signature == cs.signature
      ensures tree.TreeOf(disk.tree)
              == TreeWith(log + batch, old(tree.TreeOf(disk.tree)),
                          AppendEntry(log + batch, |log|, cs.fork))
    {
      ghost var t := tree.TreeOf(disk.tree);
      AppendKeepsTrust(log, batch, t, cs.View(), cs.fork);
      if WriterTree(log, t) {
        CommitAppends(log, batch, t, cs.View(), cs.fork);
      }
      var done := tree.Commit(cs, disk.tree);
    }

    /** Sets the bits of an update and moves the contiguous length with them. */
    method Mark(start: nat, length: nat, ghost bound: nat)
      requires bitfield.Valid() && start + length <= bound && Below(Bits(), bound)
      modifies this`header, bitfield
      ensures bitfield.Valid() && Bits() == Marked(old(Bits()), start, start + length, true)
      ensures bound <= 8192 && old(PagesClean(bitfield.Words(), bitfield.unflushed, disk.bitfield)) ==>
                PagesClean(bitfield.Words(), bitfield.unflushed, disk.bitfield)
      ensures header == old(header).(contiguous := header.contiguous)
      ensures old(FirstUnset(Bits(), header.contiguous)) ==> FirstUnset(Bits(), header.contiguous)
    {
      ghost var bits, c0 := Bits(), header.contiguous;
      WriteBits(bitfield, start, length, true, bound, disk.bitfield);
      var c := UpdateContiguousLength(header.contiguous, bitfield, BitfieldUpdate(false, start, length), bound);
      header := header.(contiguous := c);
      if FirstUnset(bits, c0) {
        HintAfterSet(bits, c0, c, start, start + length);
      }
    }

    /** Marks the batch's blocks and commits its changeset. */
    method MarkAndCommit(cs: Changeset, ghost batch: seq<Block>)
      requires Tracking() && tree.length == |log| && batch != []
      requires BatchChangeset(cs, log, batch) && cs.originalFork == cs.fork == tree.fork
      modifies this`header, this`log, tree, bitfield
      ensures Tracking() && tree.length == |log| && log == old(log) + batch
      ensures tree.fork == cs.fork && tree.signature == cs.signature
              && header == old(header).(contiguous := header.contiguous)
      ensures Bits() == Marked(old(Bits()), |old(log)|, |log|, true)
      ensures old(FirstUnset(Bits(), header.contiguous)) ==> FirstUnset(Bits(), header.contiguous)
      ensures |log| <= 8192 && old(PagesClean(bitfield.Words(), bitfield.unflushed, disk.bitfield)) ==>
                PagesClean(bitfield.Words(), bitfield.unflushed, disk.bitfield)
      ensures old(tree.Coherent(disk.tree) && WriterTree(log, tree.TreeOf(disk.tree))) ==>
                tree.Coherent(disk.tree) && WriterTree(log, tree.TreeOf(disk.tree))
      ensures tree.TreeOf(disk.tree)
              == TreeWith(log, old(tree.TreeOf(disk.tree)), AppendEntry(log, |old(log)|, cs.fork))
    {
      Mark(cs.ancestors, cs.batchLength, |log + batch|);
      CommitBatch(cs, batch);
      log := log + batch;
    }

    /** Everything `append_batch` does before flushing. */
    method Apply(batch: seq<Block>)
      requires Tracking() && tree.length == |log| && batch != []
      modifies this`header, this`disk, this`journal, this`entriesBytes, this`log, tree, bitfield
      ensures Tracking() && tree.length == |log| && log == old(log) + batch
      ensures (old(Valid()) ==> Valid()) && (old(Signs()) ==> Signs())
      ensures Bits() == Marked(old(Bits()), |old(log)|, |log|, true)
      ensures old(FirstUnset(Bits(), header.contiguous)) ==> FirstUnset(Bits(), header.contiguous)
      ensures |log| <= 8192 && old(PagesClean(bitfield.Words(), bitfield.unflushed, disk.bitfield)) ==>
                PagesClean(bitfield.Words(), bitfield.unflushed, disk.bitfield)
      ensures disk == BatchLogged(old(disk), old(log), batch, old(entriesBytes), tree.fork)
      ensures Journaled(old(disk), old(journal), disk, journal,
                        BatchWrites(old(log), batch, old(entriesBytes), tree.fork))
      ensures entriesBytes == old(entriesBytes) + EntrySize(AppendEntry(log, |old(log)|, tree.fork))
      ensures Meant() == WithBatch(old(Meant()), batch, tree.fork) && tree.fork == old(tree.fork)
    {
      var cs := SignedChangeset(batch);
      ApplySigned(cs, batch);
    }

    method ApplySigned(cs: Changeset, batch: seq<Block>)
      requires Tracking() && tree.length == |log| && batch != []
      requires BatchChangeset(cs, log, batch) && cs.originalFork == cs.fork == tree.fork
      modifies this`header, this`disk, this`journal, this`entriesBytes, this`log, tree, bitfield
      ensures Tracking() && tree.length == |log| && log == old(log) + batch
      ensures (old(Valid()) ==> Valid()) && (old(Signs()) ==> Signs())
      ensures Bits() == Marked(old(Bits()), |old(log)|, |log|, true)
      ensures old(FirstUnset(Bits(), header.contiguous)) ==> FirstUnset(Bits(), header.contiguous)
      ensures |log| <= 8192 && old(PagesClean(bitfield.Words(), bitfield.unflushed, disk.bitfield)) ==>
                PagesClean(bitfield.Words(), bitfield.unflushed, disk.bitfield)
      ensures disk == BatchLogged(old(disk), old(log), batch, old(entriesBytes), tree.fork)
      ensures Journaled(old(disk), old(journal), disk, journal,
                        BatchWrites(old(log), batch, old(entriesBytes), tree.fork))
      ensures entriesBytes == old(entriesBytes) + EntrySize(AppendEntry(log, |old(log)|, tree.fork))
      ensures Meant() == WithBatch(old(Meant()), batch, tree.fork) && tree.fork == old(tree.fork)
    {
      TotalBytes(log, |log|);
      LogBatch(cs, batch);
      assert disk.tree == old(disk.tree) && disk.bitfield == old(disk.bitfield);
      MarkAndCommit(cs, batch);
      if old(Valid()) {
        BatchStored(old(disk.data), old(log), batch, old(Bits()), Bits());
      }
    }

    /** What `Apply` leaves for the flush: clean pages, and durable stores if the entry was well placed. */
    method ApplyDurably(batch: seq<Block>) returns (ghost writes: seq<StoreWrite>)
      requires Tracking() && tree.length == |log| && batch != []
      modifies this`header, this`disk, this`journal, this`entriesBytes, this`log, tree, bitfield
      ensures Tracking() && tree.length == |log| && log == old(log) + batch && disk.header == old(disk.header)
      ensures tree.fork == old(tree.fork)
      ensures (old(Valid()) ==> Valid()) && (old(Signs()) ==> Signs())
      ensures Bits() == Marked(old(Bits()), |old(log)|, |log|, true)
      ensures old(FirstUnset(Bits(), header.contiguous)) ==> FirstUnset(Bits(), header.contiguous)
      ensures Journaled(old(disk), old(journal), disk, journal, writes)
      ensures |log| <= 8192 && old(PagesClean(bitfield.Words(), bitfield.unflushed, disk.bitfield)) ==>
                PagesClean(bitfield.Words(), bitfield.unflushed, disk.bitfield)
      ensures old(Valid() && Means(disk, Meant()) && Synced()) ==>
                Synced() && Means(disk, Meant()) && CrashSafe(old(disk), old(disk), writes, old(Meant()), Meant())
      ensures writes == BatchWrites(old(log), batch, old(entriesBytes), tree.fork)
      ensures var e := AppendEntry(log, |old(log)|, tree.fork);
              && disk == LogEntry(old(disk), old(entriesBytes), e).(data := disk.data)
              && entriesBytes == old(entriesBytes) + EntrySize(e)
    {
      ghost var d, m, bytes := disk, Meant(), entriesBytes;
      ghost var durable := Valid() && Means(d, m) && Synced();
      Apply(batch);
      writes := BatchWrites(old(log), batch, bytes, tree.fork);
      if durable {
        BatchIsDurable(d, m, batch, bytes, tree.fork);
      }
    }

    /** ... ready for it. */
    method ApplyReady(batch: seq<Block>) returns (ghost writes: seq<StoreWrite>)
      requires Tracking() && tree.length == |log| && batch != []
      modifies this`header, this`disk, this`journal, this`entriesBytes, this`log, tree, bitfield
      ensures Tracking() && tree.length == |log| && log == old(log) + batch && disk.header == old(disk.header)
      ensures tree.fork == old(tree.fork) && (old(Valid()) ==> Valid()) && (old(Signs()) ==> Signs())
      ensures Bits() == Marked(old(Bits()), |old(log)|, |log|, true)
      ensures old(FirstUnset(Bits(), header.contiguous)) ==> FirstUnset(Bits(), header.contiguous)
      ensures Journaled(old(disk), old(journal), disk, journal, writes)
      ensures old(Valid() && Flushable()) && |log| <= 8192 ==> Flushable()
      ensures old(Valid() && Means(disk, Meant()) && Synced()) ==>
                Synced() && Means(disk, Meant()) && CrashSafe(old(disk), old(disk), writes, old(Meant()), Meant())
      ensures writes == BatchWrites(old(log), batch, old(entriesBytes), tree.fork)
      ensures var e := AppendEntry(log, |old(log)|, tree.fork);
              && disk == LogEntry(old(disk), old(entriesBytes), e).(data := disk.data)
              && entriesBytes == old(entriesBytes) + EntrySize(e)
    {
      writes := ApplyDurably(batch);
      if Valid() {
        ValidTracks();
      }
    }

    /** `append_batch`. */
    method AppendBatch(batch: seq<Block>) returns (r: Result<AppendOutcome>, ghost writes: seq<StoreWrite>)
      requires Tracking() && (writable ==> tree.length == |log|)
      modifies this, tree, bitfield
      ensures Tracking() && (old(Valid()) ==> Valid()) && (old(Signs()) ==> Signs())
      ensures r == if writable then Ok(AppendOutcome(|log|, ByteStart(log, |log|))) else Err(NotWritable)
      ensures log == if writable then old(log) + batch else old(log)
      ensures tree.length == (if writable then |log| else old(tree.length)) && tree.fork == old(tree.fork)
      ensures Content() == if writable then old(Content()) + AllHeld(batch) else old(Content())
      ensures old(FirstUnset(Bits(), header.contiguous)) ==> FirstUnset(Bits(), header.contiguous)
      ensures Journaled(old(disk), old(journal), disk, journal, writes)
      ensures old(Valid() && Durably()) && |log| <= 8192 ==> Durably()
      ensures old(Valid() && Durably() && Synced()) && |log| <= 8192 ==>
                CrashSafe(old(disk), old(disk), writes, old(Meant()), Meant())
      ensures writable && batch != [] ==>
                BatchWrites(old(log), batch, old(entriesBytes), tree.fork) <= writes
      ensures writable && batch != [] ==>
                LoggedThenFlushed(old(skipFlushCount), old(entriesBytes), old(disk),
                                  AppendEntry(log, |old(log)|, tree.fork), skipFlushCount, entriesBytes, disk)
      ensures !writable || batch == [] ==>
                disk == old(disk) && skipFlushCount == old(skipFlushCount) && entriesBytes == old(entriesBytes)
      ensures old(Synced()) || (writable && batch != [] && old(skipFlushCount) == 0) ==> Synced()
    {
      writes := [];
      if !writable {
        return Err(NotWritable), [];
      }
      TotalBytes(log, |log|);
      if batch != [] {
        writes := AppendAndFlush(batch);
        if old(Synced()) {
          LoggedSyncs(old(skipFlushCount), old(entriesBytes), old(disk),
                      AppendEntry(log, |old(log)|, tree.fork),
                      skipFlushCount, entriesBytes, disk);
        }
        ContentAppends(old(log), batch, old(Bits()));
        TotalBytes(log, |log|);
      }
      r := Ok(AppendOutcome(tree.length, tree.byteLength));
    }

    method AppendAndFlush(batch: seq<Block>) returns (ghost writes: seq<StoreWrite>)
      requires Tracking() && tree.length == |log| && batch != []
      modifies this, tree, bitfield
      ensures Tracking() && tree.length == |log| && log == old(log) + batch
      ensures (old(Valid()) ==> Valid()) && (old(Signs()) ==> Signs()) && tree.fork == old(tree.fork)
      ensures Bits() == Marked(old(Bits()), |old(log)|, |log|, true)
      ensures old(FirstUnset(Bits(), header.contiguous)) ==> FirstUnset(Bits(), header.contiguous)
      ensures Journaled(old(disk), old(journal), disk, journal, writes)
      ensures old(Valid() && Durably()) && |log| <= 8192 ==> Durably()
      ensures old(Valid() && Durably() && Synced()) && |log| <= 8192 ==>
                CrashSafe(old(disk), old(disk), writes, old(Meant()), Meant())
      ensures BatchWrites(old(log), batch, old(entriesBytes), tree.fork) <= writes
      ensures LoggedThenFlushed(old(skipFlushCount), old(entriesBytes), old(disk),
                                AppendEntry(log, |old(log)|, tree.fork), skipFlushCount, entriesBytes, disk)
    {
      ghost var d0, j0, m := disk, journal, Meant();
      ghost var a := ApplyReady(batch);
      writes := FlushIfDue(d0, j0, a, m);
    }

    // -------------------------------------------------------------- reading and clearing

    /** `get`, as far as the tree knows the way to the block. */
    method ReadBlock(i: nat) returns (r: Result<Option<Block>>)
      requires bitfield.Valid() && tree.Coherent(disk.tree) && Holds(disk.data, log, Bits())
               && Exact(log, tree.TreeOf(disk.tree))
      requires i in Bits() ==> var t := tree.TreeOf(disk.tree); i < t.length && Leaf(i) in t.view && PathKnown(t, i)
      ensures r == Ok(if i < |log| then Content()[i] else None)
    {
      if !bitfield.Get(i) {
        return Ok(None);
      }
      assert i in Bits();
      assert tree.SeenOf(disk.tree) == tree.ViewOf(disk.tree);
      var range := BlockRange(tree.SeenTree(disk.tree), i, log);
      match range
      case Err(error) =>
        r := Err(error);
      case Ok(place) =>
        ReadStored(disk.data, place.index, log[i]);
        var data := ReadData(disk.data, place.index, place.length);
        r := if data.Some? then Ok(data) else Err(InvalidOperation);
    }

    /** `get`: the block, or nothing if it is not held. */
    method Get(i: nat) returns (r: Result<Option<Block>>)
      requires Valid()
      ensures r == Ok(if i < |log| then Content()[i] else None)
    {
      WriterPaths(log, tree.TreeOf(disk.tree));
      r := ReadBlock(i);
    }

    /** The held blocks next to cleared ones, or the ends of the log. */
    method Neighbours(start: nat, end: nat) returns (first: nat, last: nat)
      requires bitfield.Valid() && start < end && forall i: nat :: start <= i < end ==> i !in Bits()
      ensures first <= start && (first < tree.length ==> first < last)
      ensures Below(Bits(), tree.length) ==> Nearest(Bits(), tree.length, start, end, first, last)
    {
      var below := bitfield.LastIndexOfSet(start);
      first := if below.Some? then below.value + 1 else 0;
      var above := bitfield.IndexOfSet(end);
      last := if above.Some? then above.value else tree.length;
      assert start !in Bits();
      assert forall i: nat :: i in Bits() <==> bitfield.Get(i);
    }

    /** The biggest hole around cleared blocks: everything between the nearest held blocks. */
    method FindHole(start: nat, end: nat) returns (r: Result<Hole>)
      requires Tracking() && start < end && forall i: nat :: start <= i < end ==> i !in Bits()
      ensures Following() ==> (r.Ok? <==> ClearFinds(tree.TreeOf(disk.tree), Bits(), start, end))
      ensures Following() && r.Ok? ==> IsHole(log, tree.length, Bits(), start, end, r.value)
    {
      var first, last := Neighbours(start, end);
      if Following() {
        FollowingTracks();
        FindsThis(tree.TreeOf(disk.tree), Bits(), start, end, first, last);
        HoleStarts(log, tree.TreeOf(disk.tree), Bits(), start, end, first, last);
      }
      var bytes := BytesBetween(tree.SeenTree(disk.tree), first, last, log);
      if bytes.Err? {
        return Err(bytes.error);
      }
      return Ok(Hole(first, last, bytes.value.index, bytes.value.length));
    }

    /** Drops the bits of a range and lowers the contiguous length. */
    method Unset(start: nat, end: nat)
      requires Tracking() && start < end
      modifies this`header, bitfield
      ensures Tracking() && (old(Following()) ==> Following()) && (old(Signs()) ==> Signs())
      ensures Bits() == Marked(old(Bits()), start, end, false)
      ensures old(FirstUnset(Bits(), header.contiguous)) ==> FirstUnset(Bits(), header.contiguous)
      ensures |log| <= 8192 && old(PagesClean(bitfield.Words(), bitfield.unflushed, disk.bitfield)) ==>
                PagesClean(bitfield.Words(), bitfield.unflushed, disk.bitfield)
    {
      ghost var bits, c0 := Bits(), header.contiguous;
      WriteBits(bitfield, start, end - start, false, |log|, disk.bitfield);
      if start < header.contiguous {
        header := header.(contiguous := start);
      }
      if FirstUnset(bits, c0) {
        HintAfterClear(bits, c0, start, end);
      }
    }

    /** Logs the clear, then drops the bits. */
    method Unmark(start: nat, end: nat)
      requires Tracking() && start < end
      modifies this`header, this`disk, this`journal, this`entriesBytes, bitfield
      ensures Tracking() && (old(Following()) ==> Following()) && (old(Signs()) ==> Signs())
      ensures Bits() == Marked(old(Bits()), start, end, false)
      ensures old(FirstUnset(Bits(), header.contiguous)) ==> FirstUnset(Bits(), header.contiguous)
      ensures disk == LogEntry(old(disk), old(entriesBytes), ClearEntry(start, end))
      ensures journal == old(journal) + [WriteEntry(old(entriesBytes), ClearEntry(start, end))]
      ensures entriesBytes == old(entriesBytes) + EntrySize(ClearEntry(start, end))
      ensures |log| <= 8192 && old(PagesClean(bitfield.Words(), bitfield.unflushed, disk.bitfield)) ==>
                PagesClean(bitfield.Words(), bitfield.unflushed, disk.bitfield)
    {
      LogClear(start, end);
      Unset(start, end);
    }

    method LogClear(start: nat, end: nat)
      requires Tracking() && start < end
      modifies this`disk, this`journal, this`entriesBytes
      ensures Tracking() && (old(Following()) ==> Following())
      ensures disk == LogEntry(old(disk), old(entriesBytes), ClearEntry(start, end))
      ensures journal == old(journal) + [WriteEntry(old(entriesBytes), ClearEntry(start, end))]
      ensures entriesBytes == old(entriesBytes) + EntrySize(ClearEntry(start, end))
    {
      var entry := Entry([], None, Some(BitfieldUpdate(true, start, end - start)));
      Store(WriteEntry(entriesBytes, entry));
      assert disk.tree == old(disk.tree) && disk.data == old(disk.data);
      entriesBytes := entriesBytes + EntrySize(entry);
    }

    /** Frees the bytes of the hole around the cleared blocks. */
    method Punch(start: nat, end: nat) returns (r: Result<Hole>)
      requires Tracking() && start < end && forall i: nat :: start <= i < end ==> i !in Bits()
      modifies this`disk, this`journal
      ensures Tracking() && (old(Following()) ==> Following())
      ensures old(Following()) ==> (r.Ok? <==> ClearFinds(tree.TreeOf(disk.tree), Bits(), start, end))
      ensures r.Err? ==> disk == old(disk) && journal == old(journal)
      ensures r.Ok? ==> disk == old(disk).(data := DeleteData(old(disk.data), r.value.offset, r.value.length))
                        && journal == old(journal) + [DeleteBlocks(r.value.offset, r.value.length)]
      ensures old(Following()) && r.Ok? ==> IsHole(log, tree.length, Bits(), start, end, r.value)
    {
      r := FindHole(start, end);
      if r.Ok? {
        if Following() {
          HoleIsDead(log, tree.length, Bits(), start, end, r.value);
        }
        Delete(r.value.offset, r.value.length);
      }
    }

    /** Frees bytes of the block store. */
    method Delete(offset: nat, length: nat)
      requires Tracking() && (Following() ==> Dead(log, Bits(), offset, length))
      modifies this`disk, this`journal
      ensures Tracking() && (old(Following()) ==> Following())
      ensures disk == old(disk).(data := DeleteData(old(disk.data), offset, length))
      ensures journal == old(journal) + [DeleteBlocks(offset, length)]
    {
      if Following() {
        DeleteHolds(disk.data, log, Bits(), offset, length);
      }
      Store(DeleteBlocks(offset, length));
    }

    /** Everything `clear` does before flushing. */
    method ClearBlocks(start: nat, end: nat) returns (r: Result<Hole>, ghost writes: seq<StoreWrite>)
      requires Tracking() && start < end
      modifies this`header, this`disk, this`journal, this`entriesBytes, bitfield
      ensures Tracking() && (old(Following()) ==> Following()) && (old(Signs()) ==> Signs())
      ensures Bits() == Marked(old(Bits()), start, end, false)
      ensures old(FirstUnset(Bits(), header.contiguous)) ==> FirstUnset(Bits(), header.contiguous)
      ensures old(Following()) ==> (r.Ok? <==> ClearFinds(tree.TreeOf(disk.tree), Bits(), start, end))
      ensures old(Following()) && r.Ok? ==> IsHole(log, tree.length, Bits(), start, end, r.value)
      ensures disk.data == if r.Ok? then DeleteData(old(disk.data), r.value.offset, r.value.length) else old(disk.data)
      ensures |log| <= 8192 && old(PagesClean(bitfield.Words(), bitfield.unflushed, disk.bitfield)) ==>
                PagesClean(bitfield.Words(), bitfield.unflushed, disk.bitfield)
      ensures disk.tree == old(disk.tree)
      ensures writes == ClearWrites(old(entriesBytes), start, end, if r.Ok? then Some(r.value) else None)
      ensures disk == LogEntry(old(disk), old(entriesBytes), ClearEntry(start, end)).(data := disk.data)
      ensures Journaled(old(disk), old(journal), disk, journal, writes)
      ensures entriesBytes == old(entriesBytes) + EntrySize(ClearEntry(start, end))
    {
      Unmark(start, end);
      CompletesAfter(|log|, old(Bits()), start, end);
      r := Punch(start, end);
      var hole := if r.Ok? then Some(r.value) else None;
      writes := ClearWrites(old(entriesBytes), start, end, hole);
      AfterClearWrites(old(disk), old(entriesBytes), start, end, hole);
    }

    /** ... and what it leaves for the flush. */
    method ClearDurably(start: nat, end: nat) returns (r: Result<Hole>, ghost writes: seq<StoreWrite>)
      requires Tracking() && start < end
      modifies this`header, this`disk, this`journal, this`entriesBytes, bitfield
      ensures Tracking() && disk.header == old(disk.header) && disk.tree == old(disk.tree)
      ensures (old(Following()) ==> Following()) && (old(Signs()) ==> Signs())
      ensures Bits() == Marked(old(Bits()), start, end, false)
      ensures old(FirstUnset(Bits(), header.contiguous)) ==> FirstUnset(Bits(), header.contiguous)
      ensures old(Following()) ==> (r.Ok? <==> ClearFinds(tree.TreeOf(disk.tree), Bits(), start, end))
      ensures old(Following()) && r.Ok? ==> IsHole(log, tree.length, Bits(), start, end, r.value)
      ensures disk.data == if r.Ok? then DeleteData(old(disk.data), r.value.offset, r.value.length) else old(disk.data)
      ensures |log| <= 8192 && old(PagesClean(bitfield.Words(), bitfield.unflushed, disk.bitfield)) ==>
                PagesClean(bitfield.Words(), bitfield.unflushed, disk.bitfield)
      ensures Journaled(old(disk), old(journal), disk, journal, writes)
      ensures [WriteEntry(old(entriesBytes), ClearEntry(start, end))] <= writes && (r.Err? ==> |writes| == 1)
      ensures old(Following() && Means(disk, Meant()) && Synced()) ==>
                Synced() && Means(disk, Meant()) && CrashSafe(old(disk), old(disk), writes, old(Meant()), Meant())
      ensures disk == LogEntry(old(disk), old(entriesBytes), ClearEntry(start, end)).(data := disk.data)
      ensures entriesBytes == old(entriesBytes) + EntrySize(ClearEntry(start, end))
    {
      ghost var d, m, bytes := disk, Meant(), entriesBytes;
      ghost var durable := Following() && Means(d, m) && Synced();
      r, writes := ClearBlocks(start, end);
      ghost var hole := if r.Ok? then Some(r.value) else None;
      AfterClearWrites(d, bytes, start, end, hole);
      if durable {
        if hole.Some? {
          HoleIsDead(log, tree.length, Bits(), start, end, hole.value);
        }
        ClearCounted(d, bytes, start, end);
        ClearedMeans(d, m, bytes, start, end, hole);
        ClearIsSafe(d, m, bytes, start, end, hole);
      }
    }

    /** The data store after a clear: without the hole, or as it was if there is none. */
    ghost predicate Cleared(was: map<nat, Byte>, start: nat, end: nat, done: bool)
      reads this`disk, this`log, tree, bitfield
    {
      if !done || start >= end then disk.data == was
      else exists h :: IsHole(log, tree.length, Bits(), start, end, h)
                       && disk.data == DeleteData(was, h.offset, h.length)
    }

    /**
     `clear`, for a writer and for a replica: it completes if the hole around the range starts inside the tree and the
     hole's last block is known, and then deletes exactly the hole, in which no block is held; otherwise it deletes nothing.
     */
    method Clear(start: nat, end: nat) returns (r: Result<()>, ghost writes: seq<StoreWrite>)
      requires Tracking()
      modifies this, tree, bitfield
      ensures Tracking() && (old(Valid()) ==> Valid()) && (old(Following()) ==> Following())
              && (old(Signs()) ==> Signs())
      ensures log == old(log) && tree.TreeOf(disk.tree) == old(tree.TreeOf(disk.tree))
      ensures Bits() == Marked(old(Bits()), start, end, false)
      ensures old(Following()) ==>
                && (r.Ok? <==> ClearFinds(tree.TreeOf(disk.tree), Bits(), start, end))
                && Cleared(old(disk.data), start, end, r.Ok?)
      ensures old(Valid()) ==> (r.Ok? <==> ClearCompletes(|log|, old(Bits()), start, end))
      ensures old(FirstUnset(Bits(), header.contiguous)) ==> FirstUnset(Bits(), header.contiguous)
      ensures Journaled(old(disk), old(journal), disk, journal, writes)
      ensures old(Durably()) && (old(Synced()) || r.Ok?) ==> Durably()
      ensures old(Durably() && Synced()) ==> CrashSafe(old(disk), old(disk), writes, old(Meant()), Meant())
      ensures start < end ==> [WriteEntry(old(entriesBytes), ClearEntry(start, end))] <= writes
      ensures start < end && r.Ok? ==>
                LoggedThenFlushed(old(skipFlushCount), old(entriesBytes), old(disk), ClearEntry(start, end),
                                  skipFlushCount, entriesBytes, disk)
      ensures start < end && r.Err? ==>
                && |writes| == 1 && skipFlushCount == old(skipFlushCount)
                && entriesBytes == old(entriesBytes) + EntrySize(ClearEntry(start, end))
                && disk == LogEntry(old(disk), old(entriesBytes), ClearEntry(start, end))
      ensures start >= end ==>
                disk == old(disk) && skipFlushCount == old(skipFlushCount) && entriesBytes == old(entriesBytes)
      ensures old(Synced()) || (start < end && r.Ok? && old(skipFlushCount) == 0) ==> Synced()
    {
      writes := [];
      if start >= end {
        assert Marked(Bits(), start, end, false) == Bits();
        return Ok(()), [];
      }
      r, writes := ClearRange(start, end);
      if old(Synced()) {
        if r.Ok? {
          LoggedSyncs(old(skipFlushCount), old(entriesBytes), old(disk), ClearEntry(start, end), skipFlushCount,
                      entriesBytes, disk);
        } else {
          EntriesSizeSnoc(old(disk).entries.value, ClearEntry(start, end));
        }
      }
    }

    method ClearRange(start: nat, end: nat) returns (r: Result<()>, ghost writes: seq<StoreWrite>)
      requires Tracking() && start < end
      modifies this`header, this`disk, this`journal, this`entriesBytes, this`skipFlushCount, bitfield, tree`unflushed
      ensures Tracking() && (old(Valid()) ==> Valid()) && (old(Following()) ==> Following())
              && (old(Signs()) ==> Signs())
      ensures tree.TreeOf(disk.tree) == old(tree.TreeOf(disk.tree))
      ensures Bits() == Marked(old(Bits()), start, end, false)
      ensures old(Following()) ==>
                && (r.Ok? <==> ClearFinds(tree.TreeOf(disk.tree), Bits(), start, end))
                && Cleared(old(disk.data), start, end, r.Ok?)
      ensures old(Valid()) ==> (r.Ok? <==> ClearCompletes(|log|, old(Bits()), start, end))
      ensures old(FirstUnset(Bits(), header.contiguous)) ==> FirstUnset(Bits(), header.contiguous)
      ensures Journaled(old(disk), old(journal), disk, journal, writes)
      ensures old(Durably()) && (old(Synced()) || r.Ok?) ==> Durably()
      ensures old(Durably() && Synced()) ==> CrashSafe(old(disk), old(disk), writes, old(Meant()), Meant())
      ensures [WriteEntry(old(entriesBytes), ClearEntry(start, end))] <= writes
      ensures r.Ok? ==>
                LoggedThenFlushed(old(skipFlushCount), old(entriesBytes), old(disk), ClearEntry(start, end),
                                  skipFlushCount, entriesBytes, disk)
      ensures r.Err? ==>
                && |writes| == 1 && skipFlushCount == old(skipFlushCount)
                && entriesBytes == old(entriesBytes) + EntrySize(ClearEntry(start, end))
                && disk == LogEntry(old(disk), old(entriesBytes), ClearEntry(start, end))
    {
      ghost var valid := Valid();
      if valid {
        ValidTracks();
      }
      r, writes := ClearAndFlush(start, end);
      if valid {
        FollowingWrites();
        WriterClears(old(Bits()), start, end);
      }
    }

    /** In a writer's core that is when the clear completes. */
    lemma {:induction false} WriterClears(was: iset<nat>, start: nat, end: nat)
      requires Valid() && start < end && Bits() == Marked(was, start, end, false)
      ensures ClearFinds(tree.TreeOf(disk.tree), Bits(), start, end) <==> ClearCompletes(|log|, was, start, end)
    {
      ValidTracks();
      CompletesAfter(|log|, was, start, end);
      var first, last := HoleAround(Bits(), |log|, start, end);
      WriterFinds(log, tree.TreeOf(disk.tree), Bits(), start, end, first, last);
    }

    method ClearAndFlush(start: nat, end: nat) returns (r: Result<()>, ghost writes: seq<StoreWrite>)
      requires Tracking() && start < end
      modifies this`header, this`disk, this`journal, this`entriesBytes, this`skipFlushCount, bitfield, tree`unflushed
      ensures Tracking() && (old(Following()) ==> Following()) && (old(Signs()) ==> Signs())
      ensures tree.TreeOf(disk.tree) == old(tree.TreeOf(disk.tree))
      ensures Bits() == Marked(old(Bits()), start, end, false)
      ensures old(Following()) ==>
                && (r.Ok? <==> ClearFinds(tree.TreeOf(disk.tree), Bits(), start, end))
                && Cleared(old(disk.data), start, end, r.Ok?)
      ensures old(FirstUnset(Bits(), header.contiguous)) ==> FirstUnset(Bits(), header.contiguous)
      ensures Journaled(old(disk), old(journal), disk, journal, writes)
      ensures old(Durably()) && (old(Synced()) || r.Ok?) ==> Durably()
      ensures old(Durably() && Synced()) ==> CrashSafe(old(disk), old(disk), writes, old(Meant()), Meant())
      ensures [WriteEntry(old(entriesBytes), ClearEntry(start, end))] <= writes
      ensures r.Ok? ==>
                LoggedThenFlushed(old(skipFlushCount), old(entriesBytes), old(disk), ClearEntry(start, end),
                                  skipFlushCount, entriesBytes, disk)
      ensures r.Err? ==>
                && |writes| == 1 && skipFlushCount == old(skipFlushCount)
                && entriesBytes == old(entriesBytes) + EntrySize(ClearEntry(start, end))
                && disk == LogEntry(old(disk), old(entriesBytes), ClearEntry(start, end))
    {
      ghost var d0, j0, m := disk, journal, Meant();
      var hole;
      ghost var a;
      hole, a := ClearDurably(start, end);
      if hole.Err? {
        return Err(hole.error), a;
      }
      writes := FlushIfDue(d0, j0, a, m);
      r := Ok(());
    }
  }
}
