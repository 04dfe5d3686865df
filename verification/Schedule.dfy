/**
 When a core flushes (`should_flush_bitfield_and_tree_and_oplog` in src/core.rs), told from the sizes of its entries.
 */
module Schedules {
  import opened Storage
  import opened Core

  /** Operations until the next flush, entry bytes that the core counts, and entry bytes that are logged. */
  datatype Schedule = Schedule(skip: nat, counted: nat, logged: nat)

  /** An entry is logged, and flushed with all others if that is due. */
  function Logging(s: Schedule, size: nat): Schedule {
    if s.skip == 0 || s.counted + size >= MAX_OPLOG_ENTRIES_BYTE_SIZE then Schedule(3, 0, 0)
    else Schedule(s.skip - 1, s.counted + size, s.logged + size)
  }

  /** An entry is logged by an operation that fails afterwards. */
  function LoggingOnly(s: Schedule, size: nat): Schedule {
    Schedule(s.skip, s.counted + size, s.logged + size)
  }

  /** A reopened core counts from 0. */
  function Reopening(s: Schedule): Schedule {
    Schedule(0, 0, s.logged)
  }

  ghost predicate Scheduled(core: Hypercore, s: Schedule)
    reads core
  {
    && core.skipFlushCount == s.skip && core.entriesBytes == s.counted
    && core.disk.entries.Known? && EntriesSize(core.disk.entries.value) == s.logged
  }

  lemma {:induction false} LoggingKeeps(s: Schedule, was: Disk, e: Entry, skip: nat, bytes: nat, now: Disk)
    requires LoggedThenFlushed(s.skip, s.counted, was, e, skip, bytes, now)
    requires was.entries.Known? && EntriesSize(was.entries.value) == s.logged && (s.skip == 0 || s.counted == s.logged)
    ensures var s' := Logging(s, EntrySize(e));
            skip == s'.skip && bytes == s'.counted && now.entries.Known? && EntriesSize(now.entries.value) == s'.logged
  {
    EntriesSizeSnoc(was.entries.value, e);
  }

  /** The schedule after an operation that logs an entry and completes or not. */
  function LoggedBy(s: Schedule, size: nat, completes: bool): Schedule {
    if completes then Logging(s, size) else LoggingOnly(s, size)
  }

  lemma {:induction false} LoggedByKeeps(s: Schedule, was: Disk, e: Entry, completes: bool, skip: nat, bytes: nat,
                                         now: Disk)
    requires was.entries.Known? && EntriesSize(was.entries.value) == s.logged
    requires if completes then LoggedThenFlushed(s.skip, s.counted, was, e, skip, bytes, now)
             else skip == s.skip && bytes == s.counted + EntrySize(e) && now == LogEntry(was, s.counted, e)
    requires if completes then s.skip == 0 || s.counted == s.logged else s.counted == s.logged
    ensures var s' := LoggedBy(s, EntrySize(e), completes);
            skip == s'.skip && bytes == s'.counted && now.entries.Known? && EntriesSize(now.entries.value) == s'.logged
  {
    if completes {
      LoggingKeeps(s, was, e, skip, bytes, now);
    } else {
      EntriesSizeSnoc(was.entries.value, e);
    }
  }
}
