/** Whole runs of a core against a plain sequence of optional blocks. */
module Runs {
  import opened Common
  import opened Hashes
  import opened Verify
  import opened Soundness
  import opened Storage
  import opened Durability
  import opened CoreState
  import opened Core
  import opened Schedules
  import opened Recovery
  import opened ReplicaState
  import opened Replication

  datatype Step = Append(batch: seq<Block>) | ClearRange(start: nat, end: nat) | Reopen(cached: bool)

  /** What a step does to a plain sequence. */
  function PlainStep(c: seq<Option<Block>>, s: Step): seq<Option<Block>> {
    match s
    case Append(batch) => c + AllHeld(batch)
    case ClearRange(start, end) =>
      seq(|c|, i requires 0 <= i < |c| => if start <= i < end then None else c[i])
    case Reopen(_) => c
  }

  function Plain(steps: seq<Step>): seq<Option<Block>> {
    if steps == [] then [] else PlainStep(Plain(steps[..|steps| - 1]), steps[|steps| - 1])
  }

  predicate NoReopen(steps: seq<Step>) {
    forall s :: s in steps ==> !s.Reopen?
  }

  /** A clear completes if it is empty, starts inside the sequence, or the last block is missing. */
  predicate Completes(c: seq<Option<Block>>, s: Step) {
    s.ClearRange? ==> s.start >= s.end || s.start < |c| || (|c| > 0 && c[|c| - 1].None?)
  }

  // ---------------------------------------------------------------- when a core flushes

  /** All blocks that were ever appended. */
  function LogOf(steps: seq<Step>): seq<Block> {
    if steps == [] then []
    else
      var before := LogOf(steps[..|steps| - 1]);
      if steps[|steps| - 1].Append? then before + steps[|steps| - 1].batch else before
  }

  /** A reopened core counts from 0; a clear that fails logs its entry and does not flush. */
  function NextSchedule(s: Schedule, log: seq<Block>, c: seq<Option<Block>>, step: Step): Schedule {
    match step
    case Append(batch) =>
      if batch == [] then s else Logging(s, EntrySize(AppendEntry(log + batch, |log|, 0)))
    case ClearRange(start, end) =>
      if start >= end then s
      else
        var size := EntrySize(ClearEntry(start, end));
        if Completes(c, step) then Logging(s, size) else LoggingOnly(s, size)
    case Reopen(_) => Reopening(s)
  }

  function ScheduleOf(steps: seq<Step>): Schedule {
    if steps == [] then Schedule(0, 0, 0)
    else
      var front := steps[..|steps| - 1];
      NextSchedule(ScheduleOf(front), LogOf(front), Plain(front), steps[|steps| - 1])
  }

  /** No clear fails while there are logged entries that the core has not counted. */
  predicate NoEntryLost(steps: seq<Step>) {
    forall k :: 0 <= k < |steps| ==>
      Completes(Plain(steps[..k]), steps[k]) || ScheduleOf(steps[..k]).counted == ScheduleOf(steps[..k]).logged
  }

  lemma {:induction false} PlainGrows(steps: seq<Step>, k: nat)
    requires k <= |steps|
    ensures |Plain(steps[..k])| <= |Plain(steps)|
  {
    if k == |steps| {
      assert steps[..k] == steps;
    } else {
      var front := steps[..|steps| - 1];
      assert front[..k] == steps[..k];
      PlainGrows(front, k);
    }
  }

  lemma {:induction false} ContentClears(log: seq<Block>, bits: iset<nat>, start: nat, end: nat)
    ensures ContentOf(log, Marked(bits, start, end, false)) == PlainStep(ContentOf(log, bits), ClearRange(start, end))
    ensures ClearCompletes(|log|, bits, start, end) <==> Completes(ContentOf(log, bits), ClearRange(start, end))
  {
  }

  /** One step of a core. */
  method Do(core: Hypercore, s: Step, ghost schedule: Schedule) returns (next: Hypercore)
    requires core.Valid() && core.writable && (s.Reopen? ==> core.Durably())
    modifies core, core.tree, core.bitfield
    ensures next.Valid() && next.writable && next.Content() == PlainStep(old(core.Content()), s)
    ensures next.log == (if s.Append? then old(core.log) + s.batch else old(core.log))
            && next.tree.fork == old(core.tree.fork)
    ensures if s.Reopen? then fresh(next) && fresh(next.tree) && fresh(next.bitfield) else next == core
    ensures !s.Reopen? && old(FirstUnset(core.Bits(), core.header.contiguous)) ==>
              FirstUnset(next.Bits(), next.header.contiguous)
    ensures old(core.Durably()) && |next.log| <= 8192 && (Completes(old(core.Content()), s) || old(core.Synced())) ==>
              next.Durably()
    ensures old(core.Durably() && Scheduled(core, schedule) && core.tree.fork == 0)
            && (Completes(old(core.Content()), s) || schedule.counted == schedule.logged) ==>
              Scheduled(next, NextSchedule(schedule, old(core.log), old(core.Content()), s))
  {
    next := core;
    match s
    case Append(batch) =>
      DoAppend(core, batch, schedule);
    case ClearRange(start, end) =>
      DoClear(core, start, end, schedule);
    case Reopen(cached) =>
      var again, _ := Open(core.disk, core.writable, cached, core.Meant());
      next := again.value;
  }

  method DoAppend(core: Hypercore, batch: seq<Block>, ghost schedule: Schedule)
    requires core.Valid() && core.writable
    modifies core, core.tree, core.bitfield
    ensures core.Valid() && core.Content() == old(core.Content()) + AllHeld(batch)
    ensures core.log == old(core.log) + batch && core.tree.fork == old(core.tree.fork)
    ensures old(FirstUnset(core.Bits(), core.header.contiguous)) ==> FirstUnset(core.Bits(), core.header.contiguous)
    ensures old(core.Durably()) && |core.log| <= 8192 ==> core.Durably()
    ensures old(core.Durably() && Scheduled(core, schedule) && core.tree.fork == 0) ==>
              Scheduled(core, if batch == [] then schedule
                              else Logging(schedule, EntrySize(AppendEntry(core.log, |old(core.log)|, 0))))
  {
    core.ValidTracks();
    ghost var was, known := core.disk, core.Durably() && Scheduled(core, schedule) && core.tree.fork == 0;
    var outcome, _ := core.AppendBatch(batch);
    if known && batch != [] {
      LoggingKeeps(schedule, was, AppendEntry(core.log, |old(core.log)|, core.tree.fork),
                   core.skipFlushCount, core.entriesBytes, core.disk);
    }
  }

  method DoClear(core: Hypercore, start: nat, end: nat, ghost schedule: Schedule)
    requires core.Valid()
    modifies core, core.tree, core.bitfield
    ensures core.Valid() && core.Content() == PlainStep(old(core.Content()), ClearRange(start, end))
    ensures core.log == old(core.log) && core.tree.fork == old(core.tree.fork)
    ensures old(FirstUnset(core.Bits(), core.header.contiguous)) ==> FirstUnset(core.Bits(), core.header.contiguous)
    ensures old(core.Durably()) && (Completes(old(core.Content()), ClearRange(start, end)) || old(core.Synced())) ==>
              core.Durably()
    ensures old(core.Durably() && Scheduled(core, schedule))
            && (Completes(old(core.Content()), ClearRange(start, end)) || schedule.counted == schedule.logged) ==>
              Scheduled(core, NextSchedule(schedule, old(core.log), old(core.Content()), ClearRange(start, end)))
  {
    core.ValidTracks();
    ghost var was, known := core.disk, core.Durably() && Scheduled(core, schedule);
    ContentClears(core.log, core.Bits(), start, end);
    var outcome, _ := core.Clear(start, end);
    if known && start < end && outcome.Ok? {
      LoggingKeeps(schedule, was, ClearEntry(start, end), core.skipFlushCount, core.entriesBytes, core.disk);
    }
  }

  /** Without reopening every run is covered; with reopening, runs that the pages and the log allow for. */
  predicate Covered(steps: seq<Step>) {
    NoReopen(steps) || (|Plain(steps)| <= 8192 && NoEntryLost(steps))
  }

  /** After the steps in `front` of a run of `steps`, the core stands for the plain sequence. */
  ghost predicate StandsFor(core: Hypercore, steps: seq<Step>, front: seq<Step>)
    reads core, core.tree, core.bitfield
  {
    && core.Valid() && core.writable && core.Content() == Plain(front) && core.log == LogOf(front)
    && core.tree.fork == 0
    && (NoReopen(steps) ==> FirstUnset(core.Bits(), core.header.contiguous))
    && (|Plain(steps)| <= 8192 && NoEntryLost(steps) ==> core.Durably() && Scheduled(core, ScheduleOf(front)))
  }

  method DoNext(core: Hypercore, steps: seq<Step>, k: nat) returns (next: Hypercore)
    requires k < |steps| && Covered(steps) && StandsFor(core, steps, steps[..k])
    modifies core, core.tree, core.bitfield
    ensures next == core || (fresh(next) && fresh(next.tree) && fresh(next.bitfield))
    ensures StandsFor(next, steps, steps[..k + 1])
  {
    assert steps[..k + 1][..k] == steps[..k] && steps[k] in steps;
    PlainGrows(steps, k + 1);
    next := Do(core, steps[k], ScheduleOf(steps[..k]));
  }

  /**
   Any run of a new core stands for the plain sequence. Without reopening that holds for every run; with reopening,
   while there are at most 8192 blocks and no clear fails over logged entries that the core has not counted.
   */
  method Run(steps: seq<Step>) returns (core: Hypercore)
    requires Covered(steps)
    ensures core.Valid() && core.Content() == Plain(steps)
    ensures NoReopen(steps) ==> FirstUnset(core.Bits(), core.header.contiguous)
    ensures |Plain(steps)| <= 8192 && NoEntryLost(steps) ==> core.Durably()
  {
    core := new Hypercore.Fresh(true);
    for k := 0 to |steps|
      invariant fresh(core) && fresh(core.tree) && fresh(core.bitfield)
      invariant StandsFor(core, steps, steps[..k])
    {
      core := DoNext(core, steps, k);
    }
    assert steps[..|steps|] == steps;
  }

  // ---------------------------------------------------------------- the contiguous length under everything a core is sent

  datatype MixedStep = AppendBlocks(batch: seq<Block>) | ClearBlocks(start: nat, end: nat) | Receive(proof: Proof,
                                    signed: set<Signable>)

  /** The writer's log after the steps. */
  function LogAfter(writable: bool, log: seq<Block>, steps: seq<MixedStep>): seq<Block> {
    if steps == [] then log
    else
      var before := LogAfter(writable, log, steps[..|steps| - 1]);
      var s := steps[|steps| - 1];
      if s.AppendBlocks? && writable then before + s.batch else before
  }

  /** Whenever a proof arrives, the key has signed nothing but prefixes of the log so far. */
  ghost predicate WellSigned(writable: bool, log: seq<Block>, steps: seq<MixedStep>) {
    forall k :: 0 <= k < |steps| && steps[k].Receive? ==>
      SignedOnly(steps[k].signed, LogAfter(writable, log, steps[..k]))
  }

  /** A core that keeps track of its writer, at the end of the log if it is the writer's own. */
  ghost predicate InRun(core: Hypercore)
    reads core, core.tree, core.bitfield
  {
    core.Tracking() && (core.writable ==> core.tree.length == |core.log|)
    && FirstUnset(core.Bits(), core.header.contiguous)
  }

  lemma {:induction false} AppliedGrows(log: seq<Block>, t: Tree, proof: Proof, signed: set<Signable>, t': Tree)
    requires Trusted(log, t) && SignedOnly(signed, log) && Applied(t, proof, signed, t')
    ensures t.length <= t'.length
  {
    AcceptedKeepsTrust(log, t, proof, signed);
  }

  method DoMixed(core: Hypercore, s: MixedStep)
    requires InRun(core) && (s.Receive? ==> SignedOnly(s.signed, core.log))
    modifies core, core.tree, core.bitfield
    ensures InRun(core)
    ensures core.log == if s.AppendBlocks? && core.writable then old(core.log) + s.batch else old(core.log)
  {
    match s
    case AppendBlocks(batch) =>
      var outcome, _ := core.AppendBatch(batch);
    case ClearBlocks(start, end) =>
      var outcome, _ := core.Clear(start, end);
    case Receive(proof, signed) =>
      ghost var t := core.tree.TreeOf(core.disk.tree);
      var done, _ := VerifyAndApplyProof(core, proof, signed);
      if done == Ok(true) {
        AppliedGrows(core.log, t, proof, signed, core.tree.TreeOf(core.disk.tree));
      }
  }

  /**
   Any run of appends, clears and received proofs, whoever made the proofs: the contiguous length is the
   first index whose bit is not set.
   */
  method RunMixed(core: Hypercore, steps: seq<MixedStep>)
    requires InRun(core) && WellSigned(core.writable, core.log, steps)
    modifies core, core.tree, core.bitfield
    ensures InRun(core) && core.log == LogAfter(core.writable, old(core.log), steps)
  {
    for k := 0 to |steps|
      invariant InRun(core) && core.log == LogAfter(core.writable, old(core.log), steps[..k])
    {
      assert steps[..k + 1][..k] == steps[..k];
      DoMixed(core, steps[k]);
    }
    assert steps[..|steps|] == steps;
  }

  /** In particular from creation, for a writer and for a replica. */
  method RunFromCreation(writable: bool, ghost log: seq<Block>, steps: seq<MixedStep>) returns (core: Hypercore)
    requires WellSigned(writable, if writable then [] else log, steps)
    ensures FirstUnset(core.Bits(), core.header.contiguous) && core.Tracking()
  {
    if writable {
      core := new Hypercore.Fresh(true);
      core.ValidTracks();
    } else {
      core := new Hypercore.FreshReplica(log);
    }
    RunMixed(core, steps);
  }
}
