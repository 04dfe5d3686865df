/** A core that follows a writer by applying proofs (`verify_and_apply_proof` in src/core.rs). */
module Replication {
  import opened Common
  import opened FlatTree
  import opened Hashes
  import opened Changesets
  import opened Verify
  import opened Prover
  import opened Soundness
  import opened Completeness
  import opened Lengths
  import opened Offsets
  import opened DynamicBitfields
  import opened Storage
  import opened Durability
  import opened CoreState
  import opened ReplicaState
  import opened Core

  // ---------------------------------------------------------------- where the block goes

  /** What the lookup gives, and what that means for exact nodes. */
  method FindPlace(t: Tree, cs: Changeset, i: nat, ghost log: seq<Block>) returns (r: Result<nat>)
    requires t.roots == NodesAt(log, Roots(t.length))
    ensures r == PlaceIn(t, i, cs.nodes, cs.roots)
    ensures ExactChangeset(log, t, cs.nodes, cs.roots, i, cs.length) ==>
              && (if InRange(t, cs.roots, i) then r.Ok? else r == Err(Panic))
              && (r == Ok(ByteStart(log, i)) <==> PlacedRight(t, cs.roots, i))
  {
    r := ByteOffsetInChangeset(t, i, cs.nodes, cs.roots, log, cs.length);
    TotalBytes(log, t.length);
    if ExactChangeset(log, t, cs.nodes, cs.roots, i, cs.length) && t.length != i {
      FoundInRange(log, t, cs.length, i, r);
    }
  }

  /** The block goes to the data store, at the offset that the changeset gives it. */
  method PutBlock(core: Hypercore, cs: Changeset, block: DataBlock) returns (r: Result<()>)
    requires core.Tracking() && block.index < |core.log| && core.log[block.index] == block.value
    modifies core`disk, core`journal
    ensures core.disk == old(core.disk).(data := core.disk.data) && (r.Err? ==> core.disk == old(core.disk))
    ensures var place := PlaceIn(old(core.tree.SeenTree(core.disk.tree)), block.index, cs.nodes, cs.roots);
            if place.Ok? then
              && r == Ok(()) && core.disk == AfterWrite(old(core.disk), WriteBlocks(place.value, block.value))
              && core.journal == old(core.journal) + [WriteBlocks(place.value, block.value)]
            else r == Err(place.error) && core.journal == old(core.journal)
    ensures var t := old(core.tree.SeenTree(core.disk.tree));
            ExactChangeset(core.log, t, cs.nodes, cs.roots, block.index, cs.length) ==>
              && (r == if InRange(t, cs.roots, block.index) then Ok(()) else Err(Panic))
              && (PlaceIn(t, block.index, cs.nodes, cs.roots) == Ok(ByteStart(core.log, block.index)) <==>
                    PlacedRight(t, cs.roots, block.index))
              && (old(Holds(core.disk.data, core.log, core.Bits())) && PlacedRight(t, cs.roots, block.index) ==>
                    r.Ok? && Holds(core.disk.data, core.log, Marked(core.Bits(), block.index, block.index + 1, true)))
  {
    var offset := FindPlace(core.tree.SeenTree(core.disk.tree), cs, block.index, core.log);
    if offset.Err? {
      return Err(offset.error);
    }
    if Holds(core.disk.data, core.log, core.Bits()) {
      BlockPut(core.disk.data, core.log, core.Bits(), block.index);
    }
    core.Store(WriteBlocks(offset.value, block.value));
    return Ok(());
  }

  /** The changeset goes to the oplog, and its length and signature to the header. */
  method LogChangeset(core: Hypercore, cs: Changeset, proof: Proof)
    requires Sealed(cs)
    modifies core`disk, core`journal, core`header, core`entriesBytes
    ensures var e := ChangeEntry(cs.View(), cs.ancestors, cs.fork, proof);
            && core.disk == LogEntry(old(core.disk), old(core.entriesBytes), e)
            && Journaled(old(core.disk), old(core.journal), core.disk, core.journal,
                         [WriteEntry(old(core.entriesBytes), e)])
            && core.entriesBytes == old(core.entriesBytes) + EntrySize(e)
    ensures core.header == if cs.upgraded then old(core.header).(rootHash := Some(TreeHash(cs.roots)),
                                                                 signature := cs.signature, length := cs.length)
                           else old(core.header)
  {
    var upgrade := if cs.upgraded then Some(TreeUpgrade(cs.fork, cs.ancestors, cs.length, cs.signature)) else None;
    if cs.upgraded {
      core.header := core.header.(rootHash := cs.hash, signature := cs.signature, length := cs.length);
    }
    var update := if proof.block.Some? then Some(BitfieldUpdate(false, proof.block.value.index, 1)) else None;
    var entry := Entry(cs.nodes, upgrade, update);
    core.Store(WriteEntry(core.entriesBytes, entry));
    OneWrite(old(core.disk), old(core.journal), core.disk, core.journal, WriteEntry(core.entriesBytes, entry));
    core.entriesBytes := core.entriesBytes + EntrySize(entry);
  }

  /** An upgraded changeset is hashed and signed. */
  ghost predicate Sealed(cs: Changeset)
    reads cs
  {
    cs.upgraded ==> cs.hash == Some(TreeHash(cs.roots))
                    && cs.signature == Some(Signature(SignableOf(cs.roots, cs.length, cs.fork)))
  }

  /** The changeset of an accepted proof. */
  ghost predicate Accepted(core: Hypercore, cs: Changeset, proof: Proof, signed: set<Signable>)
    reads core, core.tree, cs
  {
    && VerifyProofSpec(core.tree.TreeOf(core.disk.tree), proof, signed) == Ok(cs.View())
    && cs.originalLength == cs.ancestors == core.tree.length
    && cs.originalFork == cs.fork == core.tree.fork == proof.fork && Sealed(cs)
  }

  method CommitChangeset(core: Hypercore, cs: Changeset, proof: Proof, ghost signed: set<Signable>,
                         ghost bits: iset<nat>)
    requires core.tree.HashCoherent(core.disk.tree) && Trusted(core.log, core.tree.TreeOf(core.disk.tree))
    requires SignedOnly(signed, core.log) && Accepted(core, cs, proof, signed)
    modifies core.tree
    ensures core.tree.HashCoherent(core.disk.tree) && Trusted(core.log, core.tree.TreeOf(core.disk.tree))
    ensures core.tree.TreeOf(core.disk.tree) == CommitSpec(old(core.tree.TreeOf(core.disk.tree)), cs.View(), proof.fork)
    ensures core.tree.signature == if cs.upgraded then cs.signature else old(core.tree.signature)
    ensures Exactly(core.log, proof)
            && old(core.tree.Coherent(core.disk.tree) && FollowingTree(core.log, core.tree.TreeOf(core.disk.tree),
                                                                       bits)) ==>
              core.tree.Coherent(core.disk.tree)
              && FollowingTree(core.log, core.tree.TreeOf(core.disk.tree), BitsWith(bits, proof))
  {
    ghost var t := core.tree.TreeOf(core.disk.tree);
    AcceptedKeepsTrust(core.log, t, proof, signed);
    if Exactly(core.log, proof) && FollowingTree(core.log, t, bits) {
      AcceptedKeepsFollowing(core.log, t, proof, signed, bits);
    }
    var done := core.tree.Commit(cs, core.disk.tree);
  }

  /** Marks the block and commits the changeset. */
  method MarkAndCommit(core: Hypercore, cs: Changeset, proof: Proof, ghost signed: set<Signable>)
    requires core.Tracking() && SignedOnly(signed, core.log) && Accepted(core, cs, proof, signed)
    requires proof.block.Some? ==> proof.block.value.index < |core.log|
    modifies core`header, core.tree, core.bitfield
    ensures core.Tracking() && core.Bits() == BitsWith(old(core.Bits()), proof)
    ensures core.tree.TreeOf(core.disk.tree) == CommitSpec(old(core.tree.TreeOf(core.disk.tree)), cs.View(), proof.fork)
    ensures old(FirstUnset(core.Bits(), core.header.contiguous)) ==> FirstUnset(core.Bits(), core.header.contiguous)
    ensures Exactly(core.log, proof)
            && old(core.tree.Coherent(core.disk.tree)
                   && FollowingTree(core.log, core.tree.TreeOf(core.disk.tree), core.Bits())) ==>
              core.tree.Coherent(core.disk.tree)
              && FollowingTree(core.log, core.tree.TreeOf(core.disk.tree), core.Bits())
    ensures core.header == old(core.header).(contiguous := core.header.contiguous)
    ensures core.tree.signature == if cs.upgraded then cs.signature else old(core.tree.signature)
    ensures |core.log| <= 8192 && old(PagesClean(core.bitfield.Words(), core.bitfield.unflushed,
                                                 core.disk.bitfield)) ==>
              PagesClean(core.bitfield.Words(), core.bitfield.unflushed, core.disk.bitfield)
  {
    ghost var bits := core.Bits();
    if proof.block.Some? {
      core.Mark(proof.block.value.index, 1, |core.log|);
    }
    CommitChangeset(core, cs, proof, signed, bits);
  }

  /** Everything after verification, before the flush. */
  method ApplyChangeset(core: Hypercore, cs: Changeset, proof: Proof, ghost signed: set<Signable>)
    returns (r: Result<()>, ghost writes: seq<StoreWrite>)
    requires core.Tracking() && Accepted(core, cs, proof, signed) && SignedOnly(signed, core.log)
    modifies core`header, core`disk, core`journal, core`entriesBytes, core.tree, core.bitfield
    ensures core.Tracking() && Journaled(old(core.disk), old(core.journal), core.disk, core.journal, writes)
    ensures old(core.Signs()) ==> core.Signs()
    ensures r.Ok? ==> core.Meant() == WithProof(old(core.Meant()), cs.View(), proof)
    ensures r.Err? ==> core.disk == old(core.disk) && Kept(core, old(core.header), old(core.Meant()))
                       && core.entriesBytes == old(core.entriesBytes)
                       && core.bitfield.Words() == old(core.bitfield.Words())
                       && core.bitfield.unflushed == old(core.bitfield.unflushed)
                       && (old(core.Following()) ==> core.Following())
    ensures PutAsFound(old(core.disk.data), core.disk.data, old(core.tree.SeenTree(core.disk.tree)), cs.View(), proof,
                       r.Ok?)
    ensures old(FirstUnset(core.Bits(), core.header.contiguous)) ==> FirstUnset(core.Bits(), core.header.contiguous)
    ensures old(core.Following()) && Exactly(core.log, proof) ==>
              && r == (if BlockInRange(old(core.tree.TreeOf(core.disk.tree)), cs.View(), proof) then Ok(()) else Err(Panic))
              && (BlockPlacedRight(old(core.tree.TreeOf(core.disk.tree)), cs.View(), proof) ==>
                    && r.Ok? && core.Following()
                    && writes == ProofWrites(PlaceOf(core.log, proof), old(core.entriesBytes),
                                             ChangeEntry(cs.View(), cs.ancestors, cs.fork, proof), proof))
    ensures r.Ok? ==> Logged(core, old(core.disk), old(core.entriesBytes),
                             ChangeEntry(cs.View(), cs.ancestors, cs.fork, proof))
    ensures |core.log| <= 8192 && old(PagesClean(core.bitfield.Words(), core.bitfield.unflushed,
                                                 core.disk.bitfield)) ==>
              PagesClean(core.bitfield.Words(), core.bitfield.unflushed, core.disk.bitfield)
  {
    AcceptedKeepsTrust(core.log, core.tree.TreeOf(core.disk.tree), proof, signed);
    ghost var place, d0, j0 := 0, core.disk, core.journal;
    writes := [];
    r, place := PlaceBlock(core, cs, proof, signed);
    if r.Err? {
      NothingWritten(d0, j0, core.disk, core.journal);
      return;
    }
    ghost var d1, j1 := core.disk, core.journal;
    LogAndCommit(core, cs, proof, signed);
    ghost var w := WriteEntry(old(core.entriesBytes),
                              ChangeEntry(cs.View(), cs.ancestors, cs.fork, proof));
    writes := BlockWrites(place, proof) + [w];
    JournaledThen(d0, j0, d1, j1, core.disk, core.journal, BlockWrites(place, proof), [w]);
  }

  /** ... and what that does to the stores of a following core. */
  method ApplyDurably(core: Hypercore, cs: Changeset, proof: Proof, ghost signed: set<Signable>)
    returns (r: Result<()>, ghost writes: seq<StoreWrite>)
    requires core.Tracking() && Accepted(core, cs, proof, signed) && SignedOnly(signed, core.log)
    modifies core`header, core`disk, core`journal, core`entriesBytes, core.tree, core.bitfield
    ensures core.Tracking() && Journaled(old(core.disk), old(core.journal), core.disk, core.journal, writes)
    ensures old(core.Signs()) ==> core.Signs()
    ensures r.Ok? ==> core.Meant() == WithProof(old(core.Meant()), cs.View(), proof)
    ensures r.Err? ==> core.disk == old(core.disk) && Kept(core, old(core.header), old(core.Meant()))
                       && core.entriesBytes == old(core.entriesBytes)
                       && core.bitfield.Words() == old(core.bitfield.Words())
                       && core.bitfield.unflushed == old(core.bitfield.unflushed)
                       && (old(core.Following()) ==> core.Following())
    ensures PutAsFound(old(core.disk.data), core.disk.data, old(core.tree.SeenTree(core.disk.tree)), cs.View(), proof,
                       r.Ok?)
    ensures old(FirstUnset(core.Bits(), core.header.contiguous)) ==> FirstUnset(core.Bits(), core.header.contiguous)
    ensures old(core.Following()) && Exactly(core.log, proof) ==>
              && r == (if BlockInRange(old(core.tree.TreeOf(core.disk.tree)), cs.View(), proof) then Ok(()) else Err(Panic))
              && (BlockPlacedRight(old(core.tree.TreeOf(core.disk.tree)), cs.View(), proof) ==>
                    && r.Ok? && core.Following()
                    && (old(Means(core.disk, core.Meant()) && core.Synced()) ==>
                          && Means(core.disk, core.Meant()) && core.Synced()
                          && CrashSafe(old(core.disk), old(core.disk), writes, old(core.Meant()), core.Meant())))
    ensures r.Ok? ==> Logged(core, old(core.disk), old(core.entriesBytes),
                             ChangeEntry(cs.View(), cs.ancestors, cs.fork, proof))
    ensures |core.log| <= 8192 && old(PagesClean(core.bitfield.Words(), core.bitfield.unflushed,
                                                 core.disk.bitfield)) ==>
              PagesClean(core.bitfield.Words(), core.bitfield.unflushed, core.disk.bitfield)
  {
    ghost var d, m, bytes := core.disk, core.Meant(), core.entriesBytes;
    ghost var durable := core.Following() && Exactly(core.log, proof) && Means(d, m) && core.Synced();
    r, writes := ApplyChangeset(core, cs, proof, signed);
    if durable && BlockPlacedRight(m.tree, cs.View(), proof) {
      AppliedIsDurable(d, m, bytes, proof, signed);
      AppliedIsCounted(d, PlaceOf(m.log, proof), bytes,
                       ChangeEntry(cs.View(), m.tree.length, proof.fork, proof), proof);
    }
  }

  lemma {:induction false} NothingWritten(d: Disk, j: seq<StoreWrite>, d': Disk, j': seq<StoreWrite>)
    requires Journaled(d, j, d', j', [])
    ensures d' == d && j' == j
  {
  }

  /** An entry has been logged and counted; but for it and the block store the stores are as they were. */
  ghost predicate Logged(core: Hypercore, was: Disk, bytes: nat, e: Entry)
    reads core
  {
    core.disk == LogEntry(was, bytes, e).(data := core.disk.data) && core.entriesBytes == bytes + EntrySize(e)
  }

  /** Header and meaning are as they were. */
  ghost predicate Kept(core: Hypercore, header: Header, m: Meaning)
    reads core, core.tree, core.bitfield
  {
    core.header == header && core.Meant() == m
  }

  /** The changeset goes to the oplog, then to bitfield and tree; the data store stays. */
  method LogAndCommit(core: Hypercore, cs: Changeset, proof: Proof, ghost signed: set<Signable>)
    requires core.Tracking() && SignedOnly(signed, core.log) && Accepted(core, cs, proof, signed)
    requires proof.block.Some? ==> proof.block.value.index < |core.log|
    modifies core`header, core`disk, core`journal, core`entriesBytes, core.tree, core.bitfield
    ensures core.Tracking() && core.Bits() == BitsWith(old(core.Bits()), proof)
    ensures core.tree.TreeOf(core.disk.tree) == CommitSpec(old(core.tree.TreeOf(core.disk.tree)), cs.View(), proof.fork)
    ensures old(FirstUnset(core.Bits(), core.header.contiguous)) ==> FirstUnset(core.Bits(), core.header.contiguous)
    ensures var e := ChangeEntry(cs.View(), cs.ancestors, cs.fork, proof);
            && core.disk == LogEntry(old(core.disk), old(core.entriesBytes), e)
            && Journaled(old(core.disk), old(core.journal), core.disk, core.journal,
                         [WriteEntry(old(core.entriesBytes), e)])
            && core.entriesBytes == old(core.entriesBytes) + EntrySize(e)
    ensures old(core.FollowsOver(core.disk.tree)) && Exactly(core.log, proof) ==> core.FollowsOver(core.disk.tree)
    ensures old(core.Signs()) ==> core.Signs()
    ensures |core.log| <= 8192 && old(PagesClean(core.bitfield.Words(), core.bitfield.unflushed,
                                                 core.disk.bitfield)) ==>
              PagesClean(core.bitfield.Words(), core.bitfield.unflushed, core.disk.bitfield)
  {
    ghost var t := core.tree.TreeOf(core.disk.tree);
    LogChangeset(core, cs, proof);
    if old(core.Signs()) && cs.upgraded {
      UpgradeIsSigned(core.log, t, proof, signed, core.header);
    }
    assert core.disk.tree == old(core.disk.tree) && core.disk.bitfield == old(core.disk.bitfield);
    MarkAndCommit(core, cs, proof, signed);
  }

  /** The block of an accepted proof, if it has one, goes to the place that is found for it. */
  method PlaceBlock(core: Hypercore, cs: Changeset, proof: Proof, ghost signed: set<Signable>) returns (r: Result<()>,
                    ghost place: nat)
    requires core.Tracking() && Accepted(core, cs, proof, signed) && SignedOnly(signed, core.log)
    modifies core`disk, core`journal
    ensures core.disk == old(core.disk).(data := core.disk.data)
    ensures Journaled(old(core.disk), old(core.journal), core.disk, core.journal,
                      if r.Ok? then BlockWrites(place, proof) else [])
    ensures PutAsFound(old(core.disk.data), core.disk.data, old(core.tree.SeenTree(core.disk.tree)), cs.View(), proof,
                       r.Ok?)
    ensures old(core.Following()) && Exactly(core.log, proof) ==>
              && r == (if BlockInRange(core.tree.TreeOf(core.disk.tree), cs.View(), proof) then Ok(()) else Err(Panic))
              && (BlockPlacedRight(core.tree.TreeOf(core.disk.tree), cs.View(), proof) ==>
                    r.Ok? && place == PlaceOf(core.log, proof)
                    && Holds(core.disk.data, core.log, BitsWith(core.Bits(), proof)))
  {
    NoWrites(core.disk, core.journal);
    place := 0;
    if proof.block.None? {
      return Ok(()), 0;
    }
    ghost var t := core.tree.TreeOf(core.disk.tree);
    BlockIsWriters(core.log, t, proof, signed);
    if core.Following() && Exactly(core.log, proof) {
      SeenIsKnown(core);
      AcceptedIsExactChangeset(core.log, t, proof, signed, cs.View());
    }
    ghost var found := PlaceIn(core.tree.SeenTree(core.disk.tree), proof.block.value.index, cs.nodes, cs.roots);
    ghost var d, j := core.disk, core.journal;
    r := PutBlock(core, cs, proof.block.value);
    if r.Ok? {
      place := found.value;
      OneWrite(d, j, core.disk, core.journal, WriteBlocks(place, proof.block.value.value));
    }
  }

  lemma {:induction false} NoWrites(d: Disk, j: seq<StoreWrite>)
    ensures Journaled(d, j, d, j, [])
  {
    assert j + [] == j;
  }

  lemma {:induction false} OneWrite(d: Disk, j: seq<StoreWrite>, d': Disk, j': seq<StoreWrite>, w: StoreWrite)
    requires d' == AfterWrite(d, w) && j' == j + [w]
    ensures Journaled(d, j, d', j', [w])
  {
    AfterWritesSnoc(d, [], w);
    assert [] + [w] == [w];
  }

  lemma {:induction false} SeenIsKnown(core: Hypercore)
    requires core.tree.Coherent(core.disk.tree)
    ensures core.tree.SeenTree(core.disk.tree) == core.tree.TreeOf(core.disk.tree)
  {
    assert core.tree.SeenOf(core.disk.tree) == core.tree.ViewOf(core.disk.tree);
  }

  // ---------------------------------------------------------------- verify_and_apply_proof

  /** `verify_proof` and `commitable`. */
  method Verified(core: Hypercore, proof: Proof, signed: set<Signable>) returns (r: Result<Changeset>)
    requires core.Tracking() && proof.fork == core.tree.fork
    modifies core.tree`cache
    ensures core.Tracking() && (old(core.Following()) ==> core.Following()) && (old(core.Signs()) ==> core.Signs())
    ensures core.tree.SeenTree(core.disk.tree) == old(core.tree.SeenTree(core.disk.tree))
    ensures r.Ok? <==> VerifyProofSpec(core.tree.TreeOf(core.disk.tree), proof, signed).Ok?
    ensures r.Ok? ==> fresh(r.value) && Accepted(core, r.value, proof, signed) && core.tree.Commitable(r.value)
  {
    r := core.tree.VerifyProof(proof, signed, core.disk.tree);
  }

  /** The part of `verify_and_apply_proof` after the check of the fork, up to the flush. */
  method VerifyThenApply(core: Hypercore, proof: Proof, signed: set<Signable>) returns (r: Result<()>,
                         ghost writes: seq<StoreWrite>)
    requires core.Tracking() && SignedOnly(signed, core.log) && proof.fork == core.tree.fork
    modifies core`header, core`disk, core`journal, core`entriesBytes, core.tree, core.bitfield
    ensures core.Tracking() && Journaled(old(core.disk), old(core.journal), core.disk, core.journal, writes)
    ensures old(core.Signs()) ==> core.Signs()
    ensures r.Ok? ==> core.Bits() == BitsWith(old(core.Bits()), proof)
                      && Applied(old(core.tree.TreeOf(core.disk.tree)), proof, signed, core.tree.TreeOf(core.disk.tree))
    ensures r.Err? ==> core.disk == old(core.disk) && Kept(core, old(core.header), old(core.Meant()))
                       && core.entriesBytes == old(core.entriesBytes)
                       && core.bitfield.Words() == old(core.bitfield.Words())
                       && core.bitfield.unflushed == old(core.bitfield.unflushed)
                       && (old(core.Following()) ==> core.Following())
    ensures Put(old(core.disk.data), core.disk.data, old(core.tree.TreeOf(core.disk.tree)),
                old(core.tree.SeenTree(core.disk.tree)),
                proof, signed, r.Ok?)
    ensures old(FirstUnset(core.Bits(), core.header.contiguous)) ==> FirstUnset(core.Bits(), core.header.contiguous)
    ensures old(core.Following()) && Exactly(core.log, proof) ==>
              && (r.Ok? <==> Applicable(old(core.tree.TreeOf(core.disk.tree)), proof, signed))
              && (WellPlaced(old(core.tree.TreeOf(core.disk.tree)), proof, signed) ==> r.Ok? && core.Following())
    ensures r.Ok? ==>
              Logged(core, old(core.disk), old(core.entriesBytes), EntryOf(old(core.Meant()).tree, proof, signed))
    ensures |core.log| <= 8192 && old(PagesClean(core.bitfield.Words(), core.bitfield.unflushed,
                                                 core.disk.bitfield)) ==>
              PagesClean(core.bitfield.Words(), core.bitfield.unflushed, core.disk.bitfield)
    ensures old(core.Following()) && Exactly(core.log, proof)
            && WellPlaced(old(core.tree.TreeOf(core.disk.tree)), proof, signed)
            && old(Means(core.disk, core.Meant()) && core.Synced()) ==>
              && Means(core.disk, core.Meant()) && core.Synced()
              && CrashSafe(old(core.disk), old(core.disk), writes, old(core.Meant()), core.Meant())
  {
    NoWrites(core.disk, core.journal);
    writes := [];
    var verified := Verified(core, proof, signed);
    if verified.Err? {
      return Err(verified.error), [];
    }
    r, writes := ApplyDurably(core, verified.value, proof, signed);
  }

  /**
   `verify_and_apply_proof`: `Ok(false)` when the fork differs, an error when the proof is refused. Whatever
   proof a core is sent, it keeps tracking the writer and its contiguous length stays exact. A following core that
   is sent a proof with the writer's lengths whose block is put in its place goes on following, its stores go on standing
   for it, and a crash at any point leaves it as it was before or after the proof.
   */
  method VerifyAndApplyProof(core: Hypercore, proof: Proof, signed: set<Signable>)
    returns (r: Result<bool>, ghost writes: seq<StoreWrite>)
    requires core.Tracking() && SignedOnly(signed, core.log)
    modifies core, core.tree, core.bitfield
    ensures core.Tracking() && core.log == old(core.log) && (old(core.Signs()) ==> core.Signs())
    ensures Journaled(old(core.disk), old(core.journal), core.disk, core.journal, writes)
    ensures r == Ok(false) <==> proof.fork != old(core.tree.fork)
    ensures r == Ok(true) ==> core.Bits() == BitsWith(old(core.Bits()), proof)
                              && Applied(old(core.tree.TreeOf(core.disk.tree)), proof, signed,
                                         core.tree.TreeOf(core.disk.tree))
    ensures r != Ok(true) ==> core.Meant() == old(core.Meant()) && core.disk == old(core.disk)
                              && (old(core.Following()) ==> core.Following())
                              && (old(core.Durably()) ==> core.Durably())
    ensures if r == Ok(true) then
              LoggedThenFlushed(old(core.skipFlushCount), old(core.entriesBytes), old(core.disk),
                                EntryOf(old(core.Meant()).tree, proof, signed), core.skipFlushCount, core.entriesBytes,
                                core.disk)
            else core.skipFlushCount == old(core.skipFlushCount) && core.entriesBytes == old(core.entriesBytes)
    ensures proof.fork == old(core.tree.fork) ==>
              Put(old(core.disk.data), core.disk.data, old(core.tree.TreeOf(core.disk.tree)),
                  old(core.tree.SeenTree(core.disk.tree)),
                  proof, signed, r == Ok(true))
    ensures old(FirstUnset(core.Bits(), core.header.contiguous)) ==> FirstUnset(core.Bits(), core.header.contiguous)
    ensures old(core.Following()) && Exactly(core.log, proof) && proof.fork == old(core.tree.fork) ==>
              && (r == Ok(true) <==> Applicable(old(core.tree.TreeOf(core.disk.tree)), proof, signed))
              && (WellPlaced(old(core.tree.TreeOf(core.disk.tree)), proof, signed) ==> r == Ok(true) && core.Following())
    ensures old(core.Durably()) && Exactly(core.log, proof) && proof.fork == old(core.tree.fork)
            && WellPlaced(old(core.tree.TreeOf(core.disk.tree)), proof, signed) ==>
              && core.Durably()
              && (old(core.Synced()) ==> CrashSafe(old(core.disk), old(core.disk), writes, old(core.Meant()),
                                                   core.Meant()))
  {
    NoWrites(core.disk, core.journal);
    writes := [];
    if proof.fork != core.tree.fork {
      return Ok(false), [];
    }
    r, writes := ApplyAndFlush(core, proof, signed);
  }

  method ApplyAndFlush(core: Hypercore, proof: Proof, signed: set<Signable>) returns (r: Result<bool>,
                       ghost writes: seq<StoreWrite>)
    requires core.Tracking() && SignedOnly(signed, core.log) && proof.fork == core.tree.fork
    modifies core`header, core`disk, core`journal, core`entriesBytes, core`skipFlushCount, core.tree, core.bitfield
    ensures core.Tracking() && (r.Ok? ==> r.value) && (old(core.Signs()) ==> core.Signs())
    ensures Journaled(old(core.disk), old(core.journal), core.disk, core.journal, writes)
    ensures r.Ok? ==> core.Bits() == BitsWith(old(core.Bits()), proof)
                      && Applied(old(core.tree.TreeOf(core.disk.tree)), proof, signed, core.tree.TreeOf(core.disk.tree))
    ensures r.Err? ==> core.Meant() == old(core.Meant()) && core.disk == old(core.disk)
                       && (old(core.Following()) ==> core.Following()) && (old(core.Durably()) ==> core.Durably())
    ensures if r.Ok? then
              LoggedThenFlushed(old(core.skipFlushCount), old(core.entriesBytes), old(core.disk),
                                EntryOf(old(core.Meant()).tree, proof, signed), core.skipFlushCount, core.entriesBytes,
                                core.disk)
            else core.skipFlushCount == old(core.skipFlushCount) && core.entriesBytes == old(core.entriesBytes)
    ensures Put(old(core.disk.data), core.disk.data, old(core.tree.TreeOf(core.disk.tree)),
                old(core.tree.SeenTree(core.disk.tree)),
                proof, signed, r.Ok?)
    ensures old(FirstUnset(core.Bits(), core.header.contiguous)) ==> FirstUnset(core.Bits(), core.header.contiguous)
    ensures old(core.Following()) && Exactly(core.log, proof) ==>
              && (r.Ok? <==> Applicable(old(core.tree.TreeOf(core.disk.tree)), proof, signed))
              && (WellPlaced(old(core.tree.TreeOf(core.disk.tree)), proof, signed) ==> r.Ok? && core.Following())
    ensures old(core.Durably()) && Exactly(core.log, proof)
            && WellPlaced(old(core.tree.TreeOf(core.disk.tree)), proof, signed) ==>
              && core.Durably()
              && (old(core.Synced()) ==> CrashSafe(old(core.disk), old(core.disk), writes, old(core.Meant()),
                                                   core.Meant()))
  {
    ghost var d0, j0, m := core.disk, core.journal, core.Meant();
    var applied;
    ghost var a;
    applied, a := VerifyThenApply(core, proof, signed);
    if applied.Err? {
      return Err(applied.error), a;
    }
    writes := core.FlushIfDue(d0, j0, a, m);
    return Ok(true), writes;
  }

  /** A replica reads back exactly the writer's blocks that it holds. */
  method Get(core: Hypercore, i: nat) returns (r: Result<Option<Block>>)
    requires core.Following()
    ensures r == Ok(if i in core.Bits() then Some(core.log[i]) else None)
  {
    core.FollowingTracks();
    if core.bitfield.Get(i) {
      assert i in core.Bits();
      KnownPath(core.log, core.tree.TreeOf(core.disk.tree), Leaf(i));
    }
    r := core.ReadBlock(i);
  }

  // ---------------------------------------------------------------- request, answer, application

  /** What the replica may ask a core of `n` blocks for. */
  ghost predicate Wants(t: Tree, n: nat, index: Option<nat>, upgrade: Option<RequestUpgrade>) {
    && (index.Some? || upgrade.Some?)
    && (upgrade.Some? ==> upgrade.value.start == t.length && 0 < upgrade.value.length <= n - t.length)
    && (index.Some? ==> index.value < t.length + (if upgrade.Some? then upgrade.value.length else 0))
  }

  /** The length that the answer leads to. */
  function LengthThen(t: Tree, n: nat, upgrade: Option<RequestUpgrade>): nat {
    if upgrade.Some? then n else t.length
  }

  lemma {:induction false} SentIsExact(log: seq<Block>, m: nat, n: nat, fork: nat, block: Option<RequestBlock>,
                                       upgrade: Option<RequestUpgrade>)
    requires block.Some? ==> block.value.index < |log|
    ensures ExactMessage(log, ArrivingProof(log, m, n, fork, block, upgrade))
  {
  }

  /** The proof carries the block, if one was asked for, and leads from `t` to the writer's roots of `length`. */
  ghost predicate Brings(log: seq<Block>, t: Tree, proof: Proof, signed: set<Signable>, block: Option<RequestBlock>,
                         length: nat) {
    var r := VerifyProofSpec(t, proof, signed);
    && proof.fork == t.fork && ExactMessage(log, proof)
    && r.Ok? && r.value.roots == NodesAt(log, Roots(length)) && CommitSpec(t, r.value, t.fork).length == length
    && (if block.Some? then proof.block.Some? && proof.block.value.index == block.value.index else proof.block.None?)
  }

  /** What an answer brings, whoever gives it. */
  lemma {:induction false} AnswerIsAccepted(log: seq<Block>, p: Tree, t: Tree, signed: set<Signable>,
                         block: Option<RequestBlock>, upgrade: Option<RequestUpgrade>)
    requires Honest(log, p) && Honest(log, t) && p.fork == t.fork && Request(t, p.length, block, upgrade)
    requires SignedOnly(signed, log) && WriterSignable(log, p.length, t.fork) in signed
    ensures block.Some? ==> block.value.index < |log|
    ensures var r := ProofSpec(p.view, p.length, p.fork, WriterSignature(log, p.length, p.fork), block, upgrade);
            && (r.Ok? <==> Answerable(p.view, p.length, block, upgrade))
            && (r.Ok? ==> Brings(log, t, AnswerWith(log, r.value, block), signed, block,
                                 LengthThen(t, p.length, upgrade)))
  {
    ReplicationSucceeds(log, p, t, signed, block, upgrade);
    SentBrings(log, p, t, signed, block, upgrade);
  }

  lemma {:induction false} SentBrings(log: seq<Block>, p: Tree, t: Tree, signed: set<Signable>,
                                      block: Option<RequestBlock>, upgrade: Option<RequestUpgrade>)
    requires Honest(log, p) && Honest(log, t) && p.fork == t.fork && Request(t, p.length, block, upgrade)
    requires SignedOnly(signed, log) && WriterSignable(log, p.length, t.fork) in signed
    ensures block.Some? ==> block.value.index < |log|
    ensures Brings(log, t, ArrivingProof(log, t.length, p.length, t.fork, block, upgrade), signed, block,
                   LengthThen(t, p.length, upgrade))
  {
    SentLeads(log, p, t, signed, block, upgrade);
    var proof := ArrivingProof(log, t.length, p.length, t.fork, block, upgrade);
    AcceptedProofIsSound(log, t, proof, signed);
    AcceptedIsGood(log, t, proof, signed);
    SentIsExact(log, t.length, p.length, t.fork, block, upgrade);
  }

  /** The request the replica forms: a block with the nodes it misses, and an upgrade. */
  method MakeRequest(core: Hypercore, index: Option<nat>, ghost upgrade: Option<RequestUpgrade>, ghost n: nat)
    returns (block: Option<RequestBlock>)
    requires core.Following() && Wants(core.tree.TreeOf(core.disk.tree), n, index, upgrade)
    ensures Request(core.tree.TreeOf(core.disk.tree), n, block, upgrade) && BlockIndex(block) == index
  {
    if index.None? {
      return None;
    }
    SeenIsKnown(core);
    var nodes := MissingNodes(core.tree.SeenTree(core.disk.tree), Leaf(index.value), core.log);
    return Some(RequestBlock(index.value, nodes));
  }

  /** A proof from the core's own tree and signature, with the block's value; nothing if it does not hold the block. */
  method CreateProof(core: Hypercore, block: Option<RequestBlock>, upgrade: Option<RequestUpgrade>)
    returns (r: Result<Option<Proof>>)
    requires core.Following()
    ensures var sent := ProofSpec(core.tree.ViewOf(core.disk.tree), core.tree.length, core.tree.fork,
                                  core.tree.signature,
                                  block, upgrade);
            && (sent.Err? ==> r == Err(sent.error))
            && (sent.Ok? && block.Some? && block.value.index !in core.Bits() ==> r == Ok(None))
            && (sent.Ok? && (block.Some? ==> block.value.index in core.Bits()) ==>
                  && (block.Some? ==> block.value.index < |core.log|)
                  && r == Ok(Some(AnswerWith(core.log, sent.value, block))))
  {
    SeenIsKnown(core);
    core.FollowingTracks();
    var sent := CreateValuelessProof(core.tree.SeenOf(core.disk.tree), core.tree.length, core.tree.fork,
                                     core.tree.signature, block, upgrade);
    if sent.Err? {
      return Err(sent.error);
    }
    var value: Option<Block> := None;
    if sent.value.block.Some? {
      var got := Get(core, sent.value.block.value.pos.offset);
      if got.value.None? {
        return Ok(None);
      }
      value := got.value;
    }
    return Ok(Some(WithValue(sent.value, value)));
  }

  /**
   The other side, a writer or a replica: it answers from its own tree and signature if and only if it knows every
   position that the answer needs and holds the block, and what it answers is accepted.
   */
  method Answer(provider: Hypercore, block: Option<RequestBlock>, upgrade: Option<RequestUpgrade>,
                ghost t: Tree, ghost signed: set<Signable>)
    returns (r: Result<Option<Proof>>)
    requires provider.Following() && Honest(provider.log, t) && t.fork == provider.tree.fork
    requires Request(t, provider.tree.length, block, upgrade) && SignedOnly(signed, provider.log)
    requires provider.tree.signature.Some? ==> provider.tree.signature.value.signed in signed
    ensures r.Ok? <==> Answerable(provider.tree.ViewOf(provider.disk.tree), provider.tree.length, block, upgrade)
    ensures r.Ok? ==> (r.value.Some? <==> (block.Some? ==> block.value.index in provider.Bits()))
    ensures r.Ok? && r.value.Some? ==>
              Brings(provider.log, t, r.value.value, signed, block, LengthThen(t, provider.tree.length, upgrade))
  {
    if provider.tree.length > 0 {
      provider.SignedWhole();
      AnswerIsAccepted(provider.log, provider.tree.TreeOf(provider.disk.tree), t, signed, block, upgrade);
    }
    r := CreateProof(provider, block, upgrade);
  }

  /** Two cores of the same log and fork. */
  ghost predicate Peers(core: Hypercore, provider: Hypercore)
    reads core, core.tree, core.bitfield, provider, provider.tree, provider.bitfield
  {
    && core.Following() && provider.Following() && provider.log == core.log && provider.tree.fork == core.tree.fork
    && provider != core && provider.tree != core.tree && provider.bitfield != core.bitfield
  }

  /**
   Whether a core that knows `p` answers the request `block`, `upgrade` of one that knows `m`: if and only if it knows every
   position that the answer needs and holds the block. A writer that is not shorter knows them all.
   */
  ghost predicate Asked(m: Meaning, p: Meaning, index: Option<nat>, upgrade: Option<RequestUpgrade>,
                        block: Option<RequestBlock>, answered: bool) {
    && Request(m.tree, p.tree.length, block, upgrade) && BlockIndex(block) == index
    && (answered <==>
          Answerable(p.tree.view, p.tree.length, block, upgrade) && (index.Some? ==> index.value in p.bits))
    && (WriterTree(p.log, p.tree) && m.tree.length <= p.tree.length ==>
          (answered <==> (index.Some? ==> index.value in p.bits)))
  }

  /** The request of a replica, and the answer of another core to it. */
  method Ask(core: Hypercore, provider: Hypercore, index: Option<nat>, upgrade: Option<RequestUpgrade>,
             ghost signed: set<Signable>)
    returns (answer: Option<Proof>, ghost block: Option<RequestBlock>)
    requires Peers(core, provider) && Wants(core.Meant().tree, provider.tree.length, index, upgrade)
    requires SignedOnly(signed, core.log)
    requires provider.tree.signature.Some? ==> provider.tree.signature.value.signed in signed
    ensures Asked(core.Meant(), provider.Meant(), index, upgrade, block, answer.Some?)
    ensures answer.Some? ==>
              Brings(core.log, core.Meant().tree, answer.value, signed, block,
                     LengthThen(core.Meant().tree, provider.tree.length, upgrade))
  {
    ghost var t := core.tree.TreeOf(core.disk.tree);
    var request := MakeRequest(core, index, upgrade, provider.tree.length);
    block := request;
    if WriterTree(provider.log, provider.Meant().tree) && core.tree.length <= provider.tree.length {
      WriterAnswers(core.log, provider.tree.length, provider.tree.ViewOf(provider.disk.tree), t, block, upgrade);
    }
    var given := Answer(provider, request, upgrade, t, signed);
    answer := if given.Ok? then given.value else None;
  }

  /**
   A replica asks another core, the writer or a replica of any length, for a block, an upgrade or both, and applies the
   answer. An answer is always accepted. It is applied unless the block's place is looked for past the tree's roots, and
   the replica goes on following the writer if the lookup finds the block's place.
   */
  method Fetch(core: Hypercore, provider: Hypercore, index: Option<nat>, upgrade: Option<RequestUpgrade>,
               signed: set<Signable>)
    returns (r: Option<Result<bool>>, ghost block: Option<RequestBlock>)
    requires Peers(core, provider) && Wants(core.Meant().tree, provider.tree.length, index, upgrade)
    requires SignedOnly(signed, core.log)
    requires provider.tree.signature.Some? ==> provider.tree.signature.value.signed in signed
    modifies core, core.tree, core.bitfield
    ensures core.log == old(core.log) && core.Signs()
    ensures Asked(old(core.Meant()), old(provider.Meant()), index, upgrade, block, r.Some?)
    ensures r.None? ==> core.Following() && core.Meant() == old(core.Meant()) && core.disk == old(core.disk)
    ensures r.Some? ==>
              Fetched(core, old(core.Meant()), old(core.Durably()), r.value, index,
                      LengthThen(old(core.Meant().tree), old(provider.tree.length), upgrade))
  {
    var answer;
    answer, block := Ask(core, provider, index, upgrade, signed);
    r := UseAnswer(core, answer, signed, index, block, LengthThen(core.Meant().tree, provider.tree.length, upgrade));
  }

  /** Applies the answer, if there is one. */
  method UseAnswer(core: Hypercore, answer: Option<Proof>, signed: set<Signable>, ghost index: Option<nat>,
                   ghost block: Option<RequestBlock>, ghost length: nat)
    returns (r: Option<Result<bool>>)
    requires core.Following() && SignedOnly(signed, core.log) && index == BlockIndex(block)
    requires answer.Some? ==> Brings(core.log, core.Meant().tree, answer.value, signed, block, length)
    modifies core, core.tree, core.bitfield
    ensures core.log == old(core.log) && core.Signs() && (r.Some? <==> answer.Some?)
    ensures r.None? ==> core.Following() && core.Meant() == old(core.Meant()) && core.disk == old(core.disk)
    ensures r.Some? ==> Fetched(core, old(core.Meant()), old(core.Durably()), r.value, index, length)
  {
    if answer.None? {
      return None;
    }
    var done := ApplyAnswer(core, answer.value, signed, index, block, length);
    return Some(done);
  }

  /** What an answer has done to the core that asked for it. */
  ghost predicate Fetched(core: Hypercore, was: Meaning, durable: bool, r: Result<bool>, index: Option<nat>,
                          length: nat)
    reads core, core.tree, core.bitfield
  {
    && (r == Ok(true) <==> Findable(was, index, length))
    && (r == Ok(true) ==>
          && core.tree.length == length
          && core.Bits() == if index.Some? then Marked(was.bits, index.value, index.value + 1, true) else was.bits)
    && (FoundRight(was, index, length) ==> r == Ok(true) && core.Following() && (durable ==> core.Durably()))
  }

  /** The block's place is not looked for past the tree's roots. */
  ghost predicate Findable(was: Meaning, index: Option<nat>, length: nat) {
    index.Some? ==> InRange(was.tree, NodesAt(was.log, Roots(length)), index.value)
  }

  /** The lookup finds the block's place. */
  ghost predicate FoundRight(was: Meaning, index: Option<nat>, length: nat) {
    index.Some? ==> PlacedRight(was.tree, NodesAt(was.log, Roots(length)), index.value)
  }

  method ApplyAnswer(core: Hypercore, proof: Proof, signed: set<Signable>, ghost index: Option<nat>,
                     ghost block: Option<RequestBlock>, ghost length: nat)
    returns (r: Result<bool>)
    requires core.Following() && SignedOnly(signed, core.log) && index == BlockIndex(block)
    requires Brings(core.log, core.tree.TreeOf(core.disk.tree), proof, signed, block, length)
    modifies core, core.tree, core.bitfield
    ensures core.Tracking() && core.Signs() && core.log == old(core.log)
    ensures Fetched(core, old(core.Meant()), old(core.Durably()), r, index, length)
  {
    core.FollowingTracks();
    BringsMeans(core.Meant(), proof, signed, index, block, length);
    ghost var writes;
    r, writes := VerifyAndApplyProof(core, proof, signed);
  }

  lemma {:induction false} BringsMeans(m: Meaning, proof: Proof, signed: set<Signable>, index: Option<nat>,
                                       block: Option<RequestBlock>, length: nat)
    requires Brings(m.log, m.tree, proof, signed, block, length) && index == BlockIndex(block)
    ensures proof.fork == m.tree.fork && Exactly(m.log, proof)
    ensures Applicable(m.tree, proof, signed) <==> Findable(m, index, length)
    ensures WellPlaced(m.tree, proof, signed) <==> FoundRight(m, index, length)
    ensures forall t' :: Applied(m.tree, proof, signed, t') ==> t'.length == length
    ensures BitsWith(m.bits, proof) == if index.Some? then Marked(m.bits, index.value, index.value + 1, true) else m.bits
  {
  }
}
