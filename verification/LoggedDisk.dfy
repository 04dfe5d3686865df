/**
 The core's oplog store, a header and a list of entries, as the bytes of the oplog's file: every journaled write of a
 core is a write to the file, and what the file opens to is what the core is opened from.
 */
module LoggedDisk {
  import opened Common
  import opened FlatTree
  import opened Hashes
  import opened Storage
  import opened Oplogs
  import opened OplogFiles
  import opened Framing
  import opened Overwrites

  type Layout = Format<LoggedHeader, LoggedEntry>

  /** The file and the oplog's bits. */
  datatype OnFile = OnFile(file: seq<Byte>, bits: (bool, bool))

  /** The codecs read back what they write, and an entry takes as many bytes as the core counts, the leader included. */
  ghost predicate Suits(f: Layout, r: Rendering) {
    Sound(f) && forall e: Entry :: EntryRenderable(e) ==> 8 + |f.entry.encode(RenderedEntry(r, e))| == EntrySize(e)
  }

  /** The oplog's own format suits, whatever the checksum and however hashes and signatures are rendered. */
  lemma {:induction false} OplogFormatSuits(crc: seq<Byte> -> Checksum, r: Rendering)
    ensures Suits(OplogFormat(crc), r)
  {
    OplogFormatIsSound(crc);
    forall e: Entry | EntryRenderable(e)
      ensures 8 + |OplogFormat(crc).entry.encode(RenderedEntry(r, e))| == EntrySize(e)
    {
      FrameSize(r, e);
    }
  }

  // ---------------------------------------------------------------- writes

  /** What is written can be written: its numbers are 64 bits wide. */
  predicate Writable(w: StoreWrite) {
    match w
    case WriteHeader(h) => Renderable(h)
    case WriteEntry(_, e) => EntryRenderable(e)
    case _ => true
  }

  /** An entry as it stands in the file. */
  function EntryFrame(r: Rendering, f: Layout, mark: bool, e: Entry): seq<Byte>
    requires EntryRenderable(e)
  {
    Frame(f, f.entry.encode(RenderedEntry(r, e)), mark, false)
  }

  lemma {:induction false} EntryFramed(r: Rendering, f: Layout, mark: bool, e: Entry)
    requires Suits(f, r) && EntryRenderable(e)
    ensures |EntryFrame(r, f, mark, e)| == EntrySize(e) && Frameable(f.entry, RenderedEntry(r, e))
  {
  }

  /** What a write of the core does to the file. */
  function FileOps(r: Rendering, f: Layout, bits: (bool, bool), w: StoreWrite): seq<FileOp>
    requires Writable(w)
  {
    match w
    case WriteHeader(h) => [Content(NextSlot(bits).0, SlotData(f, RenderedHeader(r, h), NextSlot(bits).1, false))]
    case WriteEntry(at, e) => [Content(ENTRIES + at, EntryFrame(r, f, bits.0 != bits.1, e))]
    case CutEntries => [Cut(ENTRIES)]
    case _ => []
  }

  function FileAfter(r: Rendering, f: Layout, s: OnFile, w: StoreWrite): OnFile
    requires Writable(w)
  {
    OnFile(ApplyOps(s.file, FileOps(r, f, s.bits, w)), if w.WriteHeader? then NextBits(s.bits) else s.bits)
  }

  function FileAfterAll(r: Rendering, f: Layout, s: OnFile, ws: seq<StoreWrite>): OnFile
    requires forall k :: 0 <= k < |ws| ==> Writable(ws[k])
  {
    if ws == [] then s else FileAfter(r, f, FileAfterAll(r, f, s, ws[..|ws| - 1]), ws[|ws| - 1])
  }

  /** Header and truncation together are what the oplog's flush writes, and an entry is what its append writes. */
  lemma {:induction false} WritesAreSteps(r: Rendering, f: Layout, bits: (bool, bool), h: Header, at: nat, e: Entry)
    requires Renderable(h) && EntryRenderable(e)
    ensures FileOps(r, f, bits, WriteHeader(h)) + FileOps(r, f, NextBits(bits), CutEntries)
            == StepOps(f, bits, at, Insert(RenderedHeader(r, h), false))
    ensures FileOps(r, f, bits, WriteEntry(at, e)) == StepOps(f, bits, at, Log(RenderedEntry(r, e)))
  {
  }

  // ---------------------------------------------------------------- what the file stands for

  predicate AllRenderable(es: seq<Entry>) {
    forall i :: 0 <= i < |es| ==> EntryRenderable(es[i])
  }

  function RenderedEntries(r: Rendering, es: seq<Entry>): (raws: seq<LoggedEntry>)
    requires AllRenderable(es)
    ensures |raws| == |es| && forall i :: 0 <= i < |es| ==> raws[i] == RenderedEntry(r, es[i])
  {
    seq(|es|, i requires 0 <= i < |es| => RenderedEntry(r, es[i]))
  }

  /** The newest header in the file is the disk's. */
  ghost predicate HeaderIs(r: Rendering, f: Layout, s: OnFile, h: Header, before: Option<LoggedHeader>) {
    Renderable(h) && |s.file| >= ENTRIES && Slots(f, s.file, s.bits, RenderedHeader(r, h), before)
  }

  /** Entries as they stand in the file, each with the header bit it was framed with. */
  function Tail(r: Rendering, f: Layout, es: seq<Entry>, marks: seq<bool>): seq<Byte>
    requires AllRenderable(es) && |marks| == |es|
  {
    Frames(f, Encoded(f.entry, RenderedEntries(r, es)), marks)
  }

  /**
   The file behind the slots: exactly the known entries, or the ones before the garbled part and anything behind them.
   */
  ghost predicate Shows(r: Rendering, f: Layout, file: seq<Byte>, l: Logged, marks: seq<bool>) {
    var es := if l.Known? then l.value else l.front;
    && AllRenderable(es) && |marks| == |es| && |file| >= ENTRIES
    && if l.Known? then file[ENTRIES..] == Tail(r, f, es, marks) else Tail(r, f, es, marks) <= file[ENTRIES..]
  }

  ghost predicate Shown(r: Rendering, f: Layout, file: seq<Byte>, l: Logged) {
    exists marks :: Shows(r, f, file, l, marks)
  }

  /** The file holds the disk's header and its entries, as far as they are known. */
  ghost predicate Represents(r: Rendering, f: Layout, s: OnFile, d: Disk) {
    (exists before :: HeaderIs(r, f, s, d.header, before)) && Shown(r, f, s.file, d.entries)
  }

  lemma {:induction false} RepresentedBy(r: Rendering, f: Layout, s: OnFile, d: Disk, before: Option<LoggedHeader>,
                                         marks: seq<bool>)
    requires HeaderIs(r, f, s, d.header, before) && Shows(r, f, s.file, d.entries, marks)
    ensures Represents(r, f, s, d)
  {
  }

  lemma {:induction false} NothingShown(r: Rendering, f: Layout, file: seq<Byte>)
    requires |file| == ENTRIES
    ensures Shows(r, f, file, Known([]), [])
  {
    assert Encoded(f.entry, RenderedEntries(r, [])) == [];
  }

  lemma {:induction false} RenderedConcat(r: Rendering, f: Layout, a: seq<Entry>, b: seq<Entry>)
    requires AllRenderable(a) && AllRenderable(b)
    ensures AllRenderable(a + b)
    ensures Encoded(f.entry, RenderedEntries(r, a + b))
            == Encoded(f.entry, RenderedEntries(r, a)) + Encoded(f.entry, RenderedEntries(r, b))
  {
    assert RenderedEntries(r, a + b) == RenderedEntries(r, a) + RenderedEntries(r, b);
  }

  lemma {:induction false} TailConcat(r: Rendering, f: Layout, a: seq<Entry>, ma: seq<bool>, b: seq<Entry>,
                                      mb: seq<bool>)
    requires AllRenderable(a) && AllRenderable(b) && |a| == |ma| && |b| == |mb|
    ensures AllRenderable(a + b) && Tail(r, f, a + b, ma + mb) == Tail(r, f, a, ma) + Tail(r, f, b, mb)
  {
    RenderedConcat(r, f, a, b);
    FramesConcat(f, Encoded(f.entry, RenderedEntries(r, a)), ma, Encoded(f.entry, RenderedEntries(r, b)), mb);
  }

  lemma {:induction false} TailOne(r: Rendering, f: Layout, mark: bool, e: Entry)
    requires EntryRenderable(e)
    ensures AllRenderable([e]) && Tail(r, f, [e], [mark]) == EntryFrame(r, f, mark, e)
  {
    var raw := RenderedEntry(r, e);
    assert RenderedEntries(r, [e]) == [raw] && Encoded(f.entry, [raw]) == [f.entry.encode(raw)];
    FramesSnoc(f, [], [], f.entry.encode(raw), mark);
    assert [] + [f.entry.encode(raw)] == [f.entry.encode(raw)] && [] + [mark] == [mark];
  }

  /** The entries take as many bytes as the core counts. */
  lemma {:induction false} TailSize(r: Rendering, f: Layout, es: seq<Entry>, marks: seq<bool>)
    requires Suits(f, r) && AllRenderable(es) && |marks| == |es|
    ensures |Tail(r, f, es, marks)| == EntriesSize(es) && AllFrameable(f.entry, RenderedEntries(r, es))
  {
    if es == [] {
      assert Encoded(f.entry, RenderedEntries(r, es)) == [];
    } else {
      var n := |es| - 1;
      TailSize(r, f, es[..n], marks[..n]);
      TailSizeSnoc(r, f, es[..n], marks[..n], es[n], marks[n]);
      LastApart(es, marks);
    }
  }

  lemma {:induction false} LastApart(es: seq<Entry>, marks: seq<bool>)
    requires es != [] && |marks| == |es|
    ensures var n := |es| - 1; es == es[..n] + [es[n]] && marks == marks[..n] + [marks[n]]
  {
  }

  lemma {:induction false} TailSizeSnoc(r: Rendering, f: Layout, es: seq<Entry>, marks: seq<bool>, e: Entry, mark: bool)
    requires Suits(f, r) && AllRenderable(es) && EntryRenderable(e) && |marks| == |es|
    requires |Tail(r, f, es, marks)| == EntriesSize(es) && AllFrameable(f.entry, RenderedEntries(r, es))
    ensures AllRenderable(es + [e]) && |Tail(r, f, es + [e], marks + [mark])| == EntriesSize(es + [e])
    ensures AllFrameable(f.entry, RenderedEntries(r, es + [e]))
  {
    TailSnoc(r, f, es, marks, e, mark);
    EntryFramed(r, f, mark, e);
    EntriesSizeSnoc(es, e);
  }

  lemma {:induction false} TailSnoc(r: Rendering, f: Layout, es: seq<Entry>, marks: seq<bool>, e: Entry, mark: bool)
    requires AllRenderable(es) && EntryRenderable(e) && |marks| == |es|
    ensures AllRenderable(es + [e])
    ensures Tail(r, f, es + [e], marks + [mark]) == Tail(r, f, es, marks) + EntryFrame(r, f, mark, e)
  {
    TailOne(r, f, mark, e);
    TailConcat(r, f, es, marks, [e], [mark]);
  }

  lemma {:induction false} CutBytes(a: seq<Byte>, b: seq<Byte>)
    ensures (a + b)[..|a|] == a && (a + b)[|a|..] == b
  {
  }

  /** The entries before and behind a boundary. */
  lemma {:induction false} TailCut(r: Rendering, f: Layout, es: seq<Entry>, marks: seq<bool>, k: nat)
    requires Suits(f, r) && AllRenderable(es) && |marks| == |es| && k <= |es|
    ensures AllRenderable(es[..k]) && AllRenderable(es[k..])
    ensures var tail, n := Tail(r, f, es, marks), EntriesSize(es[..k]);
            n <= |tail| && tail[..n] == Tail(r, f, es[..k], marks[..k]) && tail[n..] == Tail(r, f, es[k..], marks[k..])
  {
    var a, b := Tail(r, f, es[..k], marks[..k]), Tail(r, f, es[k..], marks[k..]);
    assert Tail(r, f, es, marks) == a + b by {
      TailConcat(r, f, es[..k], marks[..k], es[k..], marks[k..]);
      assert es == es[..k] + es[k..] && marks == marks[..k] + marks[k..];
    }
    TailSize(r, f, es[..k], marks[..k]);
    CutBytes(a, b);
  }

  /** A new file, with the header of a new core. */
  lemma {:induction false} CreatedRepresents(r: Rendering, f: Layout, d: Disk)
    requires Suits(f, r) && Renderable(d.header) && d.entries == Known([])
    ensures var c := Created(f, RenderedHeader(r, d.header)); Represents(r, f, OnFile(c.file, c.bits), d)
  {
    var h := RenderedHeader(r, d.header);
    CreatedTracked(f, h);
    var c := Created(f, h);
    NothingShown(r, f, c.file);
    assert HeaderIs(r, f, OnFile(c.file, c.bits), d.header, None);
  }

  // ---------------------------------------------------------------- one write

  lemma {:induction false} AfterHeaderWrite(r: Rendering, f: Layout, s: OnFile, h: Header)
    requires Renderable(h)
    ensures var slot := Content(NextSlot(s.bits).0, SlotData(f, RenderedHeader(r, h), NextSlot(s.bits).1, false));
            FileAfter(r, f, s, WriteHeader(h)) == OnFile(ApplyOp(s.file, slot), NextBits(s.bits))
  {
    OneOp(s.file, Content(NextSlot(s.bits).0, SlotData(f, RenderedHeader(r, h), NextSlot(s.bits).1, false)));
  }

  lemma {:induction false} AfterEntryWrite(r: Rendering, f: Layout, s: OnFile, at: nat, e: Entry)
    requires EntryRenderable(e)
    ensures var frame := EntryFrame(r, f, s.bits.0 != s.bits.1, e);
            FileAfter(r, f, s, WriteEntry(at, e)) == OnFile(ApplyOp(s.file, Content(ENTRIES + at, frame)), s.bits)
  {
    OneOp(s.file, Content(ENTRIES + at, EntryFrame(r, f, s.bits.0 != s.bits.1, e)));
  }

  lemma {:induction false} HeaderWritten(r: Rendering, f: Layout, s: OnFile, was: Header, before: Option<LoggedHeader>,
                                         h: Header)
    requires Suits(f, r) && HeaderIs(r, f, s, was, before) && Renderable(h)
    ensures var now := FileAfter(r, f, s, WriteHeader(h));
            && HeaderIs(r, f, now, h, Some(RenderedHeader(r, was)))
            && |now.file| == |s.file| && now.file[ENTRIES..] == s.file[ENTRIES..]
  {
    var raw := RenderedHeader(r, h);
    AfterHeaderWrite(r, f, s, h);
    SlotInserted(f, s.file, s.bits, RenderedHeader(r, was), before, raw, false);
    SlotLeavesEntries(f, s.file, s.bits, raw);
  }

  /** A write behind the slots leaves the slots. */
  lemma {:induction false} HeaderStays(r: Rendering, f: Layout, s: OnFile, h: Header, before: Option<LoggedHeader>,
                                       at: nat, e: Entry)
    requires Suits(f, r) && HeaderIs(r, f, s, h, before) && EntryRenderable(e)
    ensures HeaderIs(r, f, FileAfter(r, f, s, WriteEntry(at, e)), h, before)
  {
    var frame := EntryFrame(r, f, s.bits.0 != s.bits.1, e);
    AfterEntryWrite(r, f, s, at, e);
    EntryLeavesSlots(f, s.file, s.bits, RenderedHeader(r, h), before, at, frame);
  }

  lemma {:induction false} TailSpliced(r: Rendering, f: Layout, a: seq<Entry>, ma: seq<bool>, e: Entry, mark: bool,
                                       b: seq<Entry>, mb: seq<bool>)
    requires AllRenderable(a) && EntryRenderable(e) && AllRenderable(b) && |a| == |ma| && |b| == |mb|
    ensures AllRenderable(a + [e] + b)
    ensures Tail(r, f, a + [e] + b, ma + [mark] + mb)
            == Tail(r, f, a, ma) + EntryFrame(r, f, mark, e) + Tail(r, f, b, mb)
  {
    TailSnoc(r, f, a, ma, e, mark);
    TailConcat(r, f, a + [e], ma + [mark], b, mb);
  }

  /** What lies before the first of two boundaries and behind the second one. */
  lemma {:induction false} CutTwice(r: Rendering, f: Layout, es: seq<Entry>, marks: seq<bool>, k: nat, m: nat, at: nat,
                                    end: nat)
    requires Suits(f, r) && AllRenderable(es) && |marks| == |es| && k <= m <= |es| && at == EntriesSize(es[..k])
             && EndsOn(es, m, end)
    ensures AllRenderable(es[..k]) && AllRenderable(es[m..])
    ensures var tail := Tail(r, f, es, marks);
            && at <= |tail| && tail[..at] == Tail(r, f, es[..k], marks[..k])
            && Rest(tail, end) == Tail(r, f, es[m..], marks[m..])
  {
    TailCut(r, f, es, marks, k);
    RestOf(r, f, es, marks, m, end);
  }

  /** An entry between two boundaries, or from one to the end, takes the place of what was there. */
  lemma {:induction false} EntrySpliced(r: Rendering, f: Layout, file: seq<Byte>, now: seq<Byte>, mark: bool,
                                        tail: seq<Byte>, at: nat,
                                        a: seq<Entry>, ma: seq<bool>, e: Entry, b: seq<Entry>, mb: seq<bool>)
    requires AllRenderable(a) && EntryRenderable(e) && AllRenderable(b) && |a| == |ma| && |b| == |mb|
    requires Overlaid(file, at, EntryFrame(r, f, mark, e), now) && file[ENTRIES..] == tail && at <= |tail|
    requires tail[..at] == Tail(r, f, a, ma) && Rest(tail, at + |EntryFrame(r, f, mark, e)|) == Tail(r, f, b, mb)
    ensures Shown(r, f, now, Known(a + [e] + b))
  {
    OverlaidIs(file, at, EntryFrame(r, f, mark, e), now, tail, Tail(r, f, a, ma), Tail(r, f, b, mb));
    ShownInThree(r, f, now, a, ma, e, mark, b, mb);
  }

  lemma {:induction false} ShownInThree(r: Rendering, f: Layout, now: seq<Byte>, a: seq<Entry>, ma: seq<bool>, e: Entry,
                                        mark: bool,
                                        b: seq<Entry>, mb: seq<bool>)
    requires AllRenderable(a) && EntryRenderable(e) && AllRenderable(b) && |a| == |ma| && |b| == |mb|
             && |now| >= ENTRIES
    requires now[ENTRIES..] == Tail(r, f, a, ma) + EntryFrame(r, f, mark, e) + Tail(r, f, b, mb)
    ensures Shown(r, f, now, Known(a + [e] + b))
  {
    TailSpliced(r, f, a, ma, e, mark, b, mb);
    assert Shows(r, f, now, Known(a + [e] + b), ma + [mark] + mb);
  }

  /** What is left behind a boundary, or nothing behind the end. */
  lemma {:induction false} RestOf(r: Rendering, f: Layout, es: seq<Entry>, marks: seq<bool>, m: nat, end: nat)
    requires Suits(f, r) && AllRenderable(es) && |marks| == |es| && m <= |es| && EndsOn(es, m, end)
    ensures var tail := Tail(r, f, es, marks);
            AllRenderable(es[m..]) && Rest(tail, end) == Tail(r, f, es[m..], marks[m..])
  {
    TailCut(r, f, es, marks, m);
    if end >= |Tail(r, f, es, marks)| {
      TailSize(r, f, es[m..], marks[m..]);
    }
  }

  /** Whatever is overwritten, the entries that end before the write stay, and a write at their end follows them. */
  lemma {:induction false} FrontStays(r: Rendering, f: Layout, file: seq<Byte>, now: seq<Byte>, mark: bool,
                                      front: seq<Entry>,
                                      marks: seq<bool>, k: nat, at: nat, e: Entry)
    requires Suits(f, r) && Shows(r, f, file, Garbled(front), marks) && EntryRenderable(e)
    requires k <= |front| && EntriesSize(front[..k]) <= at && Overlaid(file, at, EntryFrame(r, f, mark, e), now)
    ensures Shown(r, f, now, Garbled(front[..k]))
    ensures EntriesSize(front[..k]) == at ==> Shown(r, f, now, Garbled(front[..k] + [e]))
  {
    var n, a := EntriesSize(front[..k]), Tail(r, f, front[..k], marks[..k]);
    assert a <= now[ENTRIES..] && (n == at ==> a + EntryFrame(r, f, mark, e) <= now[ENTRIES..]) by {
      TailCut(r, f, front, marks, k);
      FrontOfTail(Tail(r, f, front, marks), file[ENTRIES..], n);
    }
    ShownFirst(r, f, now, front[..k], marks[..k], e, mark);
  }

  lemma {:induction false} ShownFirst(r: Rendering, f: Layout, now: seq<Byte>, a: seq<Entry>, ma: seq<bool>, e: Entry,
                                      mark: bool)
    requires AllRenderable(a) && EntryRenderable(e) && |a| == |ma| && |now| >= ENTRIES
             && Tail(r, f, a, ma) <= now[ENTRIES..]
    ensures Shown(r, f, now, Garbled(a))
    ensures Tail(r, f, a, ma) + EntryFrame(r, f, mark, e) <= now[ENTRIES..] ==> Shown(r, f, now, Garbled(a + [e]))
  {
    assert Shows(r, f, now, Garbled(a), ma);
    TailSnoc(r, f, a, ma, e, mark);
    if Tail(r, f, a, ma) + EntryFrame(r, f, mark, e) <= now[ENTRIES..] {
      assert Shows(r, f, now, Garbled(a + [e]), ma + [mark]);
    }
  }

  lemma {:induction false} FrontOfTail(front: seq<Byte>, tail: seq<Byte>, n: nat)
    requires front <= tail && n <= |front|
    ensures tail[..n] == front[..n]
  {
  }

  lemma {:induction false} WriteHeaderRefines(r: Rendering, f: Layout, s: OnFile, d: Disk, h: Header)
    requires Suits(f, r) && Represents(r, f, s, d) && Renderable(h)
    ensures Represents(r, f, FileAfter(r, f, s, WriteHeader(h)), d.(header := h))
  {
    var before :| HeaderIs(r, f, s, d.header, before);
    var marks :| Shows(r, f, s.file, d.entries, marks);
    HeaderWritten(r, f, s, d.header, before, h);
    RepresentedBy(r, f, FileAfter(r, f, s, WriteHeader(h)), d.(header := h), Some(RenderedHeader(r, d.header)), marks);
  }

  /** The entries after a write over garbled ones. */
  lemma {:induction false} GarbledWritten(r: Rendering, f: Layout, file: seq<Byte>, now: seq<Byte>, mark: bool,
                                          front: seq<Entry>,
                                          marks: seq<bool>, at: nat, e: Entry)
    requires Suits(f, r) && Shows(r, f, file, Garbled(front), marks) && EntryRenderable(e)
    requires Overlaid(file, at, EntryFrame(r, f, mark, e), now)
    ensures Shown(r, f, now, WithEntry(Garbled(front), at, e))
  {
    FrontStays(r, f, file, now, mark, front, marks, EndingBy(front, at), at, e);
  }

  /** The file behind the slots, cut where an entry is to go. */
  ghost predicate Parted(r: Rendering, f: Layout, file: seq<Byte>, es: seq<Entry>, marks: seq<bool>, k: nat, m: nat,
                         at: nat, end: nat) {
    && k <= m <= |es| == |marks| && |file| >= ENTRIES && at <= |file[ENTRIES..]|
    && AllRenderable(es[..k]) && AllRenderable(es[m..])
    && file[ENTRIES..][..at] == Tail(r, f, es[..k], marks[..k])
    && Rest(file[ENTRIES..], end) == Tail(r, f, es[m..], marks[m..])
  }

  lemma {:induction false} PartedAt(r: Rendering, f: Layout, file: seq<Byte>, es: seq<Entry>, marks: seq<bool>, k: nat,
                                    m: nat, at: nat, end: nat)
    requires Suits(f, r) && Shows(r, f, file, Known(es), marks) && k <= m <= |es|
    requires at == EntriesSize(es[..k]) && EndsOn(es, m, end)
    ensures Parted(r, f, file, es, marks, k, m, at, end)
  {
    CutTwice(r, f, es, marks, k, m, at, end);
  }

  lemma {:induction false} PartedSpliced(r: Rendering, f: Layout, file: seq<Byte>, now: seq<Byte>, mark: bool,
                                         es: seq<Entry>, marks: seq<bool>, k: nat, m: nat, at: nat, size: nat, e: Entry)
    requires Parted(r, f, file, es, marks, k, m, at, at + size) && EntryRenderable(e)
    requires |EntryFrame(r, f, mark, e)| == size && Overlaid(file, at, EntryFrame(r, f, mark, e), now)
    ensures Shown(r, f, now, Known(es[..k] + [e] + es[m..]))
  {
    EntrySpliced(r, f, file, now, mark, file[ENTRIES..], at, es[..k], marks[..k], e, es[m..], marks[m..]);
  }

  /** Which entries an entry takes the place of, when the log stays known. */
  lemma {:induction false} PlaceOfEntry(es: seq<Entry>, at: nat, e: Entry) returns (k: nat, m: nat)
    requires WithEntry(Known(es), at, e).Known?
    ensures k <= m <= |es| && at == EntriesSize(es[..k]) && EndsOn(es, m, at + EntrySize(e))
    ensures WithEntry(Known(es), at, e) == Known(es[..k] + [e] + es[m..])
  {
    Spliced(es, at, e);
    k, m := EndingBy(es, at), EndingBy(es, at + EntrySize(e));
  }

  lemma {:induction false} KnownWritten(r: Rendering, f: Layout, file: seq<Byte>, now: seq<Byte>, mark: bool,
                                        es: seq<Entry>,
                                        marks: seq<bool>, at: nat, e: Entry)
    requires Suits(f, r) && Shows(r, f, file, Known(es), marks) && EntryRenderable(e)
    requires Overlaid(file, at, EntryFrame(r, f, mark, e), now)
    ensures Shown(r, f, now, WithEntry(Known(es), at, e))
  {
    EntryFramed(r, f, mark, e);
    if WithEntry(Known(es), at, e).Known? {
      var k, m := PlaceOfEntry(es, at, e);
      PartedAt(r, f, file, es, marks, k, m, at, at + EntrySize(e));
      PartedSpliced(r, f, file, now, mark, es, marks, k, m, at, EntrySize(e), e);
    } else {
      GarbledFrom(es, at, e);
      GarbledWritten(r, f, file, now, mark, es, marks, at, e);
    }
  }

  lemma {:induction false} WriteEntryRefines(r: Rendering, f: Layout, s: OnFile, d: Disk, at: nat, e: Entry)
    requires Suits(f, r) && Represents(r, f, s, d) && EntryRenderable(e)
    ensures Represents(r, f, FileAfter(r, f, s, WriteEntry(at, e)), LogEntry(d, at, e))
  {
    var before :| HeaderIs(r, f, s, d.header, before);
    var marks :| Shows(r, f, s.file, d.entries, marks);
    var now, mark := FileAfter(r, f, s, WriteEntry(at, e)), s.bits.0 != s.bits.1;
    HeaderStays(r, f, s, d.header, before, at, e);
    AfterEntryWrite(r, f, s, at, e);
    WriteBehind(s.file, at, EntryFrame(r, f, mark, e));
    if d.entries.Known? {
      KnownWritten(r, f, s.file, now.file, mark, d.entries.value, marks, at, e);
    } else {
      GarbledWritten(r, f, s.file, now.file, mark, d.entries.front, marks, at, e);
    }
  }

  lemma {:induction false} CutRefines(r: Rendering, f: Layout, s: OnFile, d: Disk)
    requires Suits(f, r) && Represents(r, f, s, d)
    ensures Represents(r, f, FileAfter(r, f, s, CutEntries), d.(entries := Known([])))
  {
    var before :| HeaderIs(r, f, s, d.header, before);
    var now := FileAfter(r, f, s, CutEntries);
    OneOp(s.file, Cut(ENTRIES));
    SlotsInCut(f, s.file, s.bits, RenderedHeader(r, d.header), before);
    assert HeaderIs(r, f, now, d.header, before);
    NothingShown(r, f, now.file);
  }

  /** Every write of the core, well placed or not, is its write to the file. */
  lemma {:induction false} WriteRefines(r: Rendering, f: Layout, s: OnFile, d: Disk, w: StoreWrite)
    requires Suits(f, r) && Represents(r, f, s, d) && Writable(w)
    ensures Represents(r, f, FileAfter(r, f, s, w), AfterWrite(d, w))
  {
    match w
    case WriteHeader(h) => WriteHeaderRefines(r, f, s, d, h);
    case WriteEntry(at, e) => WriteEntryRefines(r, f, s, d, at, e);
    case CutEntries => CutRefines(r, f, s, d);
    case _ => SameOplog(r, f, s, d, AfterWrite(d, w));
  }

  lemma {:induction false} SameOplog(r: Rendering, f: Layout, s: OnFile, d: Disk, d': Disk)
    requires Represents(r, f, s, d) && d'.header == d.header && d'.entries == d.entries
    ensures Represents(r, f, s, d') && OnFile(ApplyOps(s.file, []), s.bits) == s
  {
    var before :| HeaderIs(r, f, s, d.header, before);
    assert HeaderIs(r, f, s, d'.header, before);
  }

  // ---------------------------------------------------------------- whole journals

  /** A core's journal, written to the file write by write, leaves a file that stands for the core's stores. */
  lemma {:induction false} JournalRefines(r: Rendering, f: Layout, s: OnFile, d: Disk, ws: seq<StoreWrite>)
    requires Suits(f, r) && Represents(r, f, s, d) && forall k :: 0 <= k < |ws| ==> Writable(ws[k])
    ensures Represents(r, f, FileAfterAll(r, f, s, ws), AfterWrites(d, ws))
  {
    if ws != [] {
      var front := ws[..|ws| - 1];
      JournalRefines(r, f, s, d, front);
      WriteRefines(r, f, FileAfterAll(r, f, s, front), AfterWrites(d, front), ws[|ws| - 1]);
    }
  }

  /** Opening the file gives the header and the entries that the core is opened from. */
  lemma {:induction false} OpensAsDisk(r: Rendering, f: Layout, s: OnFile, d: Disk)
    requires Suits(f, r) && Represents(r, f, s, d)
    ensures Renderable(d.header)
            && OpenHeader(f, s.file, None) == Ok(OpenedHeader(s.bits, RenderedHeader(r, d.header), []))
    ensures Finds(r, f, s.file, d.entries)
  {
    var before :| HeaderIs(r, f, s, d.header, before);
    var marks :| Shows(r, f, s.file, d.entries, marks);
    NewestHeaderOpens(f, s.file, s.bits, RenderedHeader(r, d.header), before, None);
    var es := if d.entries.Known? then d.entries.value else d.entries.front;
    TailSize(r, f, es, marks);
    if d.entries.Known? {
      FramedOpen(f, s.file, RenderedEntries(r, es), marks);
    } else {
      FrontOpens(f, s.file, RenderedEntries(r, es), marks);
    }
  }

  /**
   Opening the file finds exactly the known entries; if they are garbled, it fails or finds the ones before that part
   first.
   */
  ghost predicate Finds(r: Rendering, f: Layout, file: seq<Byte>, l: Logged) {
    var found := OpenEntries(f, file);
    match l
    case Known(es) => AllRenderable(es) && found == Ok(if es == [] then None else Some(RenderedEntries(r, es)))
    case Garbled(front) =>
      AllRenderable(front)
      && (found.Ok? ==> RenderedEntries(r, front) <= if found.value.Some? then found.value.value else [])
  }

  /** A crash after any number of a journal's writes leaves a file that opens to the stores after just those writes. */
  lemma {:induction false} CrashedFileOpens(r: Rendering, f: Layout, s: OnFile, d: Disk, ws: seq<StoreWrite>, k: nat)
    requires Suits(f, r) && Represents(r, f, s, d) && k <= |ws| && forall k :: 0 <= k < |ws| ==> Writable(ws[k])
    ensures var file := FileAfterAll(r, f, s, ws[..k]).file;
            var now := AfterWrites(d, ws[..k]);
            && Renderable(now.header) && OpenHeader(f, file, None).Ok?
            && OpenHeader(f, file, None).value.header == RenderedHeader(r, now.header)
            && Finds(r, f, file, now.entries)
  {
    JournalRefines(r, f, s, d, ws[..k]);
    OpensAsDisk(r, f, FileAfterAll(r, f, s, ws[..k]), AfterWrites(d, ws[..k]));
  }

  // ---------------------------------------------------------------- nothing is lost

  /** Different hashes and signatures have different bytes, among those given. */
  ghost predicate TellsApart(r: Rendering, hashes: set<Hash>, signatures: set<Signature>) {
    && (forall a, b :: a in hashes && b in hashes && r.hash(a) == r.hash(b) ==> a == b)
    && (forall a, b :: a in signatures && b in signatures && r.signature(a) == r.signature(b) ==> a == b)
  }

  predicate HeaderWithin(h: Header, hashes: set<Hash>, signatures: set<Signature>) {
    (h.rootHash.Some? ==> h.rootHash.value in hashes) && (h.signature.Some? ==> h.signature.value in signatures)
  }

  predicate EntryWithin(e: Entry, hashes: set<Hash>, signatures: set<Signature>) {
    && (forall i :: 0 <= i < |e.nodes| ==> e.nodes[i].hash in hashes)
    && (e.upgrade.Some? && e.upgrade.value.signature.Some? ==> e.upgrade.value.signature.value in signatures)
  }

  ghost predicate Within(d: Disk, hashes: set<Hash>, signatures: set<Signature>) {
    && HeaderWithin(d.header, hashes, signatures)
    && (d.entries.Known? ==> forall i :: 0 <= i < |d.entries.value| ==> EntryWithin(d.entries.value[i], hashes, signatures))
  }

  lemma {:induction false} SameHeader(r: Rendering, a: Header, b: Header, hashes: set<Hash>, signatures: set<Signature>)
    requires TellsApart(r, hashes, signatures) && HeaderWithin(a, hashes, signatures)
             && HeaderWithin(b, hashes, signatures)
    requires Renderable(a) && Renderable(b) && RenderedHeader(r, a) == RenderedHeader(r, b)
    ensures a == b
  {
    var x, y := RenderedHeader(r, a).tree, RenderedHeader(r, b).tree;
    assert |x.rootHash| == (if a.rootHash.Some? then 32 else 0) && |y.rootHash| == (if b.rootHash.Some? then 32 else 0);
    assert |x.signature| == (if a.signature.Some? then 64 else 0)
           && |y.signature| == (if b.signature.Some? then 64 else 0);
  }

  lemma {:induction false} SameNode(r: Rendering, a: Node, b: Node, hashes: set<Hash>, signatures: set<Signature>)
    requires TellsApart(r, hashes, signatures) && a.hash in hashes && b.hash in hashes
    requires NodeRenderable(a) && NodeRenderable(b) && RenderedNode(r, a) == RenderedNode(r, b)
    ensures a == b
  {
    PosOfIndex(a.pos);
    PosOfIndex(b.pos);
  }

  lemma {:induction false} SameEntry(r: Rendering, a: Entry, b: Entry, hashes: set<Hash>, signatures: set<Signature>)
    requires TellsApart(r, hashes, signatures) && EntryWithin(a, hashes, signatures)
             && EntryWithin(b, hashes, signatures)
    requires EntryRenderable(a) && EntryRenderable(b) && RenderedEntry(r, a) == RenderedEntry(r, b)
    ensures a == b
  {
    var xs, ys := RenderedNodes(r, a.nodes), RenderedNodes(r, b.nodes);
    assert xs == RenderedEntry(r, a).nodes && ys == RenderedEntry(r, b).nodes;
    forall i | 0 <= i < |a.nodes|
      ensures a.nodes[i] == b.nodes[i]
    {
      assert xs[i] == ys[i];
      SameNode(r, a.nodes[i], b.nodes[i], hashes, signatures);
    }
    assert a.nodes == b.nodes;
  }

  /** The file determines the disk's header and entries, as long as no two of its hashes or signatures collide. */
  lemma {:induction false} FileFixesDisk(r: Rendering, f: Layout, s: OnFile, a: Disk, b: Disk, hashes: set<Hash>,
                                         signatures: set<Signature>)
    requires Suits(f, r) && Represents(r, f, s, a) && Represents(r, f, s, b) && a.entries.Known? && b.entries.Known?
    requires TellsApart(r, hashes, signatures) && Within(a, hashes, signatures) && Within(b, hashes, signatures)
    ensures a.header == b.header && a.entries == b.entries
  {
    OpensAsDisk(r, f, s, a);
    OpensAsDisk(r, f, s, b);
    SameHeader(r, a.header, b.header, hashes, signatures);
    var xs, ys := RenderedEntries(r, a.entries.value), RenderedEntries(r, b.entries.value);
    assert xs == ys;
    forall i | 0 <= i < |xs|
      ensures a.entries.value[i] == b.entries.value[i]
    {
      assert xs[i] == ys[i];
      SameEntry(r, a.entries.value[i], b.entries.value[i], hashes, signatures);
    }
    assert a.entries.value == b.entries.value;
  }

  // ---------------------------------------------------------------- an entry over the first one

  /**
   The first entry overwritten, as after a reopen that counts no entries: opening fails or finds the new entry first.
   */
  lemma {:induction false} FirstEntryOverwritten(r: Rendering, f: Layout, s: OnFile, d: Disk, e: Entry)
    requires Suits(f, r) && Represents(r, f, s, d) && EntryRenderable(e)
    ensures var found := OpenEntries(f, FileAfter(r, f, s, WriteEntry(0, e)).file);
            found.Ok? ==> found.value.Some? && found.value.value != [] && found.value.value[0] == RenderedEntry(r, e)
  {
    EntryFramed(r, f, s.bits.0 != s.bits.1, e);
    AfterEntryWrite(r, f, s, 0, e);
    OverwrittenFound(f, s.file, RenderedEntry(r, e), s.bits.0 != s.bits.1);
  }

  /**
   If it has the size of the first one, opening finds it in the other's place, with all that followed, and no error.
   */
  lemma {:induction false} FirstEntryReplaced(r: Rendering, f: Layout, s: OnFile, d: Disk, first: Entry,
                                              rest: seq<Entry>, e: Entry)
    requires Suits(f, r) && Represents(r, f, s, d) && EntryRenderable(e)
    requires d.entries == Known([first] + rest) && EntrySize(e) == EntrySize(first)
    ensures AllRenderable([e] + rest)
    ensures OpenEntries(f, FileAfter(r, f, s, WriteEntry(0, e)).file) == Ok(Some(RenderedEntries(r, [e] + rest)))
  {
    SameSizeReplaces(d, first, e);
    assert ([first] + rest)[1..] == rest;
    WriteRefines(r, f, s, d, WriteEntry(0, e));
    OpensAsDisk(r, f, FileAfter(r, f, s, WriteEntry(0, e)), LogEntry(d, 0, e));
  }

  /** The only entry written again leaves a file that stands for the same stores. */
  lemma {:induction false} OnlyEntryRepeated(r: Rendering, f: Layout, s: OnFile, d: Disk, e: Entry)
    requires Suits(f, r) && Represents(r, f, s, d) && EntryRenderable(e) && d.entries == Known([e])
    ensures Represents(r, f, FileAfter(r, f, s, WriteEntry(0, e)), d)
  {
    SameEntryAgain(d, e);
    WriteRefines(r, f, s, d, WriteEntry(0, e));
  }
}
