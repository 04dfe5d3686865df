/** Whole runs of a replica: proofs arrive, and now and then it is restarted. */
module ReplicaRuns {
  import opened Common
  import opened Hashes
  import opened Verify
  import opened Lengths
  import opened Storage
  import opened Durability
  import opened CoreState
  import opened Core
  import opened Schedules
  import opened Recovery
  import opened ReplicaState
  import opened Replication

  datatype ReplicaStep = Arrives(proof: Proof) | Clears(start: nat, end: nat) | Restart(cached: bool)

  /** The proof is for this fork and is accepted. */
  ghost predicate Taking(m: Meaning, proof: Proof, signed: set<Signable>) {
    proof.fork == m.tree.fork && VerifyProofSpec(m.tree, proof, signed).Ok?
  }

  /** What a step does to a replica that forgets nothing: refused proofs and restarts change nothing. */
  ghost function Taken(m: Meaning, s: ReplicaStep, signed: set<Signable>): Meaning {
    match s
    case Restart(_) => m
    case Clears(start, end) => WithoutRange(m, start, end)
    case Arrives(proof) =>
      if Taking(m, proof, signed) then WithProof(m, VerifyProofSpec(m.tree, proof, signed).value, proof) else m
  }

  ghost function TakenAll(m: Meaning, steps: seq<ReplicaStep>, signed: set<Signable>): Meaning {
    if steps == [] then m else Taken(TakenAll(m, steps[..|steps| - 1], signed), steps[|steps| - 1], signed)
  }

  /** The clear finds its hole. */
  ghost predicate Finds(m: Meaning, start: nat, end: nat) {
    ClearFinds(m.tree, Marked(m.bits, start, end, false), start, end)
  }

  /** What a step does to the flush schedule. */
  ghost function NextSchedule(c: Schedule, m: Meaning, s: ReplicaStep, signed: set<Signable>): Schedule {
    match s
    case Restart(_) => Reopening(c)
    case Clears(start, end) =>
      if start >= end then c
      else LoggedBy(c, EntrySize(ClearEntry(start, end)), Finds(m, start, end))
    case Arrives(proof) =>
      if Taking(m, proof, signed) then Logging(c, EntrySize(EntryOf(m.tree, proof, signed))) else c
  }

  ghost function ScheduleOf(m: Meaning, steps: seq<ReplicaStep>, signed: set<Signable>): Schedule {
    if steps == [] then Schedule(0, 0, 0)
    else
      var front := steps[..|steps| - 1];
      NextSchedule(ScheduleOf(m, front, signed), TakenAll(m, front, signed), steps[|steps| - 1], signed)
  }

  /**
   A proof that arrives is anchored, and if it is accepted, its block is found in its place; a clear finds its hole or
   no entry is logged that is not counted. The replica can check all of this.
   */
  ghost predicate Takeable(m: Meaning, c: Schedule, s: ReplicaStep, signed: set<Signable>) {
    match s
    case Restart(_) => true
    case Clears(start, end) => Finds(m, start, end) || c.counted == c.logged
    case Arrives(proof) => Anchored(proof) && (Taking(m, proof, signed) ==> WellPlaced(m.tree, proof, signed))
  }

  method TakeProof(core: Hypercore, proof: Proof, signed: set<Signable>, ghost c: Schedule)
    requires core.Durably() && SignedOnly(signed, core.log) && Scheduled(core, c)
    requires Takeable(core.Meant(), c, Arrives(proof), signed)
    modifies core, core.tree, core.bitfield
    ensures core.Durably() && core.Meant() == Taken(old(core.Meant()), Arrives(proof), signed)
    ensures Scheduled(core, NextSchedule(c, old(core.Meant()), Arrives(proof), signed))
  {
    ghost var was, t := core.disk, core.Meant().tree;
    core.FollowingTracks();
    var outcome, _ := VerifyAndApplyProof(core, proof, signed);
    if outcome == Ok(true) {
      LoggingKeeps(c, was, EntryOf(t, proof, signed), core.skipFlushCount, core.entriesBytes, core.disk);
    }
  }

  /** A clear of a replica, as far as its entry is concerned. */
  method ClearLogged(core: Hypercore, start: nat, end: nat)
    requires core.Durably() && start < end && (Finds(core.Meant(), start, end) || core.Synced())
    modifies core, core.tree, core.bitfield
    ensures core.Durably() && core.Meant() == WithoutRange(old(core.Meant()), start, end)
    ensures if old(Finds(core.Meant(), start, end)) then
              LoggedThenFlushed(old(core.skipFlushCount), old(core.entriesBytes), old(core.disk),
                                ClearEntry(start, end),
                                core.skipFlushCount, core.entriesBytes, core.disk)
            else
              && core.skipFlushCount == old(core.skipFlushCount)
              && core.entriesBytes == old(core.entriesBytes) + EntrySize(ClearEntry(start, end))
              && core.disk == LogEntry(old(core.disk), old(core.entriesBytes), ClearEntry(start, end))
  {
    core.FollowingTracks();
    var outcome, _ := core.Clear(start, end);
  }

  method ClearScheduled(core: Hypercore, start: nat, end: nat, ghost c: Schedule)
    requires core.Durably() && Scheduled(core, c) && start < end
    requires Finds(core.Meant(), start, end) || c.counted == c.logged
    modifies core, core.tree, core.bitfield
    ensures core.Durably() && core.Meant() == WithoutRange(old(core.Meant()), start, end)
    ensures Scheduled(core, LoggedBy(c, EntrySize(ClearEntry(start, end)), old(Finds(core.Meant(), start, end))))
  {
    ghost var was, finds := core.disk, Finds(core.Meant(), start, end);
    ClearLogged(core, start, end);
    LoggedByKeeps(c, was, ClearEntry(start, end), finds, core.skipFlushCount, core.entriesBytes, core.disk);
  }

  method TakeClear(core: Hypercore, start: nat, end: nat, ghost c: Schedule)
    requires core.Durably() && Scheduled(core, c) && (Finds(core.Meant(), start, end) || c.counted == c.logged)
    modifies core, core.tree, core.bitfield
    ensures core.Durably() && core.Meant() == WithoutRange(old(core.Meant()), start, end)
    ensures Scheduled(core, NextSchedule(c, old(core.Meant()), Clears(start, end), {}))
  {
    if start >= end {
      core.FollowingTracks();
      assert Marked(core.Bits(), start, end, false) == core.Bits();
      var outcome, _ := core.Clear(start, end);
    } else {
      ClearScheduled(core, start, end, c);
    }
  }

  method Take(core: Hypercore, s: ReplicaStep, signed: set<Signable>, ghost c: Schedule) returns (next: Hypercore)
    requires core.Durably() && SignedOnly(signed, core.log) && Scheduled(core, c)
    requires Takeable(core.Meant(), c, s, signed)
    modifies core, core.tree, core.bitfield
    ensures next.Durably() && next.Meant() == Taken(old(core.Meant()), s, signed)
    ensures Scheduled(next, NextSchedule(c, old(core.Meant()), s, signed))
    ensures if s.Restart? then fresh(next) && fresh(next.tree) && fresh(next.bitfield) else next == core
  {
    next := core;
    match s
    case Arrives(proof) =>
      TakeProof(core, proof, signed, c);
    case Clears(start, end) =>
      TakeClear(core, start, end, c);
    case Restart(cached) =>
      var again, _ := Open(core.disk, core.writable, cached, core.Meant());
      next := again.value;
  }

  /** A replica of the writer of `log` that has received nothing yet. */
  ghost function Nothing(log: seq<Block>): Meaning {
    Meaning(log, Tree(0, 0, 0, [], map[]), iset{})
  }

  ghost predicate AllTakeable(log: seq<Block>, steps: seq<ReplicaStep>, signed: set<Signable>) {
    forall k :: 0 <= k < |steps| ==>
      Takeable(TakenAll(Nothing(log), steps[..k], signed), ScheduleOf(Nothing(log), steps[..k], signed), steps[k],
               signed)
  }

  /** The replica's memory and stores are what the steps lead to. */
  ghost predicate Reached(core: Hypercore, steps: seq<ReplicaStep>, signed: set<Signable>)
    reads core, core.tree, core.bitfield
  {
    && core.Durably() && core.Meant() == TakenAll(Nothing(core.log), steps, signed)
    && Scheduled(core, ScheduleOf(Nothing(core.log), steps, signed))
  }

  method TakeNext(core: Hypercore, steps: seq<ReplicaStep>, k: nat, signed: set<Signable>) returns (next: Hypercore)
    requires k < |steps| && SignedOnly(signed, core.log) && AllTakeable(core.log, steps, signed)
    requires Reached(core, steps[..k], signed)
    modifies core, core.tree, core.bitfield
    ensures next == core || (fresh(next) && fresh(next.tree) && fresh(next.bitfield))
    ensures next.log == old(core.log) && Reached(next, steps[..k + 1], signed)
  {
    assert steps[..k + 1][..k] == steps[..k];
    next := Take(core, steps[k], signed, ScheduleOf(Nothing(core.log), steps[..k], signed));
  }

  method NewReplica(ghost log: seq<Block>, ghost signed: set<Signable>) returns (core: Hypercore)
    requires |log| <= 8192
    ensures fresh(core) && fresh(core.tree) && fresh(core.bitfield) && core.log == log && Reached(core, [], signed)
  {
    core := new Hypercore.FreshReplica(log);
  }

  /**
   Any run of a new replica in which anchored proofs arrive, whoever made them, blocks are cleared and restarts happen:
   at its end the replica has exactly the tree and the blocks of one that forgets nothing, and its stores stand for them.
   */
  method RunReplica(ghost log: seq<Block>, steps: seq<ReplicaStep>, signed: set<Signable>) returns (core: Hypercore)
    requires SignedOnly(signed, log) && |log| <= 8192 && AllTakeable(log, steps, signed)
    ensures core.Durably() && core.Meant() == TakenAll(Nothing(log), steps, signed)
  {
    core := NewReplica(log, signed);
    for k := 0 to |steps|
      invariant fresh(core) && fresh(core.tree) && fresh(core.bitfield)
      invariant core.log == log && Reached(core, steps[..k], signed)
    {
      core := TakeNext(core, steps, k, signed);
    }
    assert steps[..|steps|] == steps;
  }
}
