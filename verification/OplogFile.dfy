/**
 The oplog as an object and its file: creating it, inserting headers, appending entries, opening (src/oplog/mod.rs).
 */
module OplogFiles {
  import opened Common
  import opened DynamicBitfields
  import opened Storage
  import opened Oplogs
  import opened OplogReads

  /** What is to be done to the file. */
  datatype FileOp = Content(offset: nat, data: seq<Byte>) | Cut(length: nat)

  function Zeros(n: nat): (s: seq<Byte>)
    ensures |s| == n
  {
    seq(n, _ => 0)
  }

  function ApplyOp(file: seq<Byte>, op: FileOp): seq<Byte> {
    match op
    case Content(offset, data) => ApplyWrite(file, Write(offset, data))
    case Cut(length) => if |file| >= length then file[..length] else file + Zeros(length - |file|)
  }

  function ApplyOps(file: seq<Byte>, ops: seq<FileOp>): seq<Byte>
    decreases |ops|
  {
    if ops == [] then file else ApplyOps(ApplyOp(file, ops[0]), ops[1..])
  }

  /** Behind the slots the file holds exactly these entries, framed with these header bits. */
  ghost predicate EntriesAre<H(!new), E(!new)>(f: Format<H, E>, file: seq<Byte>, es: seq<E>, marks: seq<bool>) {
    && |marks| == |es| && AllFrameable(f.entry, es)
    && |file| >= ENTRIES && file[ENTRIES..] == Frames(f, Encoded(f.entry, es), marks)
  }

  /** The header bit of entries that are logged under these slots. */
  function Marks(n: nat, bits: (bool, bool)): (marks: seq<bool>)
    ensures |marks| == n
  {
    seq(n, _ => bits.0 != bits.1)
  }

  /** The file holds the headers, the newest and the one before, and these entries since the newest. */
  ghost predicate LogIs<H(!new), E(!new)>(f: Format<H, E>, file: seq<Byte>, bits: (bool, bool), newest: H,
                                          before: Option<H>, es: seq<E>) {
    Slots(f, file, bits, newest, before) && EntriesAre(f, file, es, Marks(|es|, bits))
  }

  const INITIAL_BITS := (true, false)

  /** `insert_header`: the slot's content, then the entries are cut off. */
  function InsertOps<H, E>(f: Format<H, E>, h: H, bits: (bool, bool), clearTraces: bool): seq<FileOp> {
    [Content(NextSlot(bits).0, SlotData(f, h, NextSlot(bits).1, clearTraces)), Cut(ENTRIES)]
  }

  // ---------------------------------------------------------------- writes

  lemma {:induction false} SlotWrite(file: seq<Byte>, slot: nat, data: seq<Byte>)
    requires |file| >= ENTRIES && slot + |data| <= ENTRIES
    ensures var now := ApplyOp(file, Content(slot, data));
            && |now| == |file| && now[slot..slot + |data|] == data
            && now == file[..slot] + data + file[slot + |data|..]
  {
    assert file + Zeros(0) == file;
  }

  /** What `insert_header` writes to the slot: the frame, and zeros up to the slot's end when clearing traces. */
  function SlotData<H, E>(f: Format<H, E>, h: H, bit: bool, clearTraces: bool): seq<Byte> {
    var frame := Frame(f, f.header.encode(h), bit, false);
    if clearTraces && |frame| < HEADER_SIZE then frame + Zeros(HEADER_SIZE - |frame|) else frame
  }

  lemma {:induction false} SlotDataFits<H(!new), E(!new)>(f: Format<H, E>, h: H, bit: bool, clearTraces: bool)
    requires Sound(f)
    ensures var data := SlotData(f, h, bit, clearTraces);
            var n := 8 + |f.header.encode(h)|;
            n <= |data| <= HEADER_SIZE && data[..n] == Frame(f, f.header.encode(h), bit, false)
  {
  }

  /** A header written to the next slot is the newest, and the one that was newest is the one before. */
  lemma {:induction false} SlotInserted<H(!new), E(!new)>(f: Format<H, E>, file: seq<Byte>, bits: (bool, bool),
                                                          newest: H, before: Option<H>,
                                                          h: H, clearTraces: bool)
    requires Sound(f) && |file| >= ENTRIES && Slots(f, file, bits, newest, before)
    ensures var written := ApplyOp(file, Content(NextSlot(bits).0, SlotData(f, h, NextSlot(bits).1, clearTraces)));
            |written| >= ENTRIES && Slots(f, written, NextBits(bits), h, Some(newest))
  {
    var (slot, bit) := NextSlot(bits);
    var data := SlotData(f, h, bit, clearTraces);
    SlotDataFits(f, h, bit, clearTraces);
    SlotWrite(file, slot, data);
    var now := ApplyOp(file, Content(slot, data));
    var n := 8 + |f.header.encode(h)|;
    assert now[slot..slot + n] == now[slot..slot + |data|][..n];
    OtherSlotStays(f, file, now, slot, data, newest);
  }

  lemma {:induction false} OtherSlotStays<H(!new), E(!new)>(f: Format<H, E>, file: seq<Byte>, now: seq<Byte>, slot: nat,
                                                            data: seq<Byte>, x: H)
    requires Sound(f) && (slot == 0 || slot == HEADER_SIZE) && |data| <= HEADER_SIZE && |file| >= ENTRIES
    requires |now| == |file| && now == file[..slot] + data + file[slot + |data|..]
    ensures var other := HEADER_SIZE - slot;
            forall bit :: InSlot(f, file, other, bit, x) ==> InSlot(f, now, other, bit, x)
  {
    var other := HEADER_SIZE - slot;
    var n := 8 + |f.header.encode(x)|;
    if slot == 0 {
      var k := |data|;
      assert now[k..] == file[k..];
      assert now[other..other + n] == now[k..][other - k..other + n - k] == file[k..][other - k..other + n - k];
    } else {
      assert now[..slot] == file[..slot];
      assert now[other..other + n] == now[..slot][other..other + n];
    }
    assert now[other..other + n] == file[other..other + n];
  }

  lemma {:induction false} SlotLeavesEntries<H(!new), E(!new)>(f: Format<H, E>, file: seq<Byte>, bits: (bool, bool),
                                                               h: H)
    requires Sound(f) && |file| >= ENTRIES
    ensures var now := ApplyOp(file, Content(NextSlot(bits).0, SlotData(f, h, NextSlot(bits).1, false)));
            |now| == |file| && now[ENTRIES..] == file[ENTRIES..]
  {
    var (slot, bit) := NextSlot(bits);
    var data := SlotData(f, h, bit, false);
    SlotDataFits(f, h, bit, false);
    SlotWrite(file, slot, data);
    TailStays(file, slot, data);
  }

  lemma {:induction false} TailStays(file: seq<Byte>, slot: nat, data: seq<Byte>)
    requires |file| >= ENTRIES && slot + |data| <= ENTRIES
    ensures (file[..slot] + data + file[slot + |data|..])[ENTRIES..] == file[ENTRIES..]
  {
  }

  lemma {:induction false} EntryLeavesSlots<H(!new), E(!new)>(f: Format<H, E>, file: seq<Byte>, bits: (bool, bool),
                                                              newest: H, before: Option<H>, at: nat,
                                                              data: seq<Byte>)
    requires Sound(f) && |file| >= ENTRIES && Slots(f, file, bits, newest, before)
    ensures var now := ApplyOp(file, Content(ENTRIES + at, data));
            |now| >= ENTRIES && Slots(f, now, bits, newest, before)
  {
    var now := ApplyOp(file, Content(ENTRIES + at, data));
    assert now[..ENTRIES] == file[..ENTRIES];
    SlotsInCut(f, file, bits, newest, before);
    SlotsGrow(f, now[..ENTRIES], now[ENTRIES..], bits, newest, before);
    assert now[..ENTRIES] + now[ENTRIES..] == now;
  }

  lemma {:induction false} CutKeepsSlots<H(!new), E(!new)>(f: Format<H, E>, file: seq<Byte>, bits: (bool, bool),
                                                           newest: H, before: H)
    requires Sound(f) && |file| >= ENTRIES && Slots(f, file, bits, newest, Some(before))
    ensures LogIs(f, ApplyOp(file, Cut(ENTRIES)), bits, newest, Some(before), [])
  {
    SlotsInCut(f, file, bits, newest, Some(before));
    assert Encoded(f.entry, []) == [];
  }

  lemma {:induction false} SlotsInCut<H(!new), E(!new)>(f: Format<H, E>, file: seq<Byte>, bits: (bool, bool), newest: H,
                                                        before: Option<H>)
    requires Sound(f) && |file| >= ENTRIES && Slots(f, file, bits, newest, before)
    ensures Slots(f, file[..ENTRIES], bits, newest, before)
  {
    var now := file[..ENTRIES];
    forall x: H, slot: nat, bit: bool | (slot == 0 || slot == HEADER_SIZE) && InSlot(f, file, slot, bit, x)
      ensures InSlot(f, now, slot, bit, x)
    {
      var n := 8 + |f.header.encode(x)|;
      assert now[slot..slot + n] == file[slot..slot + n];
    }
    assert now[HEADER_SIZE..HEADER_SIZE + 8] == file[HEADER_SIZE..HEADER_SIZE + 8];
  }

  /** A frame behind the entries that are there adds one entry. */
  lemma {:induction false} EntryAppended<H(!new), E(!new)>(f: Format<H, E>, file: seq<Byte>, bits: (bool, bool),
                                                           newest: H, before: Option<H>,
                                                           es: seq<E>, e: E)
    requires Sound(f) && LogIs(f, file, bits, newest, before, es) && Frameable(f.entry, e)
    ensures var frame := Frame(f, f.entry.encode(e), bits.0 != bits.1, false);
            var now := ApplyOp(file, Content(|file|, frame));
            now == file + frame && LogIs(f, now, bits, newest, before, es + [e])
  {
    var bit := bits.0 != bits.1;
    FrameAppended(f, file, es, Marks(|es|, bits), e, bit);
    assert Marks(|es|, bits) + [bit] == Marks(|es + [e]|, bits);
    SlotsGrow(f, file, Frame(f, f.entry.encode(e), bit, false), bits, newest, before);
  }

  lemma {:induction false} FrameAppended<H(!new), E(!new)>(f: Format<H, E>, file: seq<Byte>, es: seq<E>,
                                                           marks: seq<bool>, e: E, bit: bool)
    requires EntriesAre(f, file, es, marks) && Frameable(f.entry, e)
    ensures var frame := Frame(f, f.entry.encode(e), bit, false);
            var now := ApplyOp(file, Content(|file|, frame));
            now == file + frame && EntriesAre(f, now, es + [e], marks + [bit])
  {
    var frame := Frame(f, f.entry.encode(e), bit, false);
    EndWrite(file, frame);
    EncodedSnoc(f.entry, es, e);
    FramesSnoc(f, Encoded(f.entry, es), marks, f.entry.encode(e), bit);
  }

  lemma {:induction false} EndWrite(file: seq<Byte>, frame: seq<Byte>)
    ensures ApplyOp(file, Content(|file|, frame)) == file + frame
    ensures |file| >= ENTRIES ==> (file + frame)[ENTRIES..] == file[ENTRIES..] + frame
  {
    assert file + Zeros(0) == file && file[..|file|] == file;
  }

  lemma {:induction false} EncodedSnoc<E>(c: RecordCodec<E>, es: seq<E>, e: E)
    requires AllFrameable(c, es) && Frameable(c, e)
    ensures Encoded(c, es + [e]) == Encoded(c, es) + [c.encode(e)] && AllFrameable(c, es + [e])
  {
  }

  lemma {:induction false} SlotsGrow<H(!new), E(!new)>(f: Format<H, E>, file: seq<Byte>, more: seq<Byte>,
                                                       bits: (bool, bool), newest: H, before: Option<H>)
    requires Slots(f, file, bits, newest, before)
    ensures Slots(f, file + more, bits, newest, before)
  {
    var now := file + more;
    forall x: H, slot: nat, bit: bool | InSlot(f, file, slot, bit, x)
      ensures InSlot(f, now, slot, bit, x)
    {
      var n := 8 + |f.header.encode(x)|;
      assert now[slot..slot + n] == file[slot..slot + n];
    }
    if Blank(file, HEADER_SIZE) {
      assert now[HEADER_SIZE..HEADER_SIZE + 8] == file[HEADER_SIZE..HEADER_SIZE + 8];
    }
  }

  lemma {:induction false} TwoOps(file: seq<Byte>, a: FileOp, b: FileOp)
    ensures ApplyOps(file, [a, b]) == ApplyOp(ApplyOp(file, a), b)
  {
    var mid := ApplyOp(file, a);
    assert [a, b][1..] == [b] && [b][1..] == [];
    assert ApplyOps(mid, [b]) == ApplyOps(ApplyOp(mid, b), []);
  }

  /** The first header, in an empty file. */
  lemma {:induction false} FirstHeader<H(!new), E(!new)>(f: Format<H, E>, h: H)
    requires Sound(f)
    ensures LogIs(f, ApplyOps([], InsertOps(f, h, INITIAL_BITS, false)), NextBits(INITIAL_BITS), h, None, [])
  {
    var frame := Frame(f, f.header.encode(h), false, false);
    TwoOps([], Content(0, frame), Cut(ENTRIES));
    FirstFrame(frame);
    assert Encoded(f.entry, []) == [];
  }

  lemma {:induction false} FirstFrame(frame: seq<Byte>)
    requires |frame| <= HEADER_SIZE
    ensures var file := ApplyOp(ApplyOp([], Content(0, frame)), Cut(ENTRIES));
            |file| == ENTRIES && file[0..|frame|] == frame && Blank(file, HEADER_SIZE) && file[ENTRIES..] == []
  {
    assert ApplyOp([], Content(0, frame)) == frame;
    var file := frame + Zeros(ENTRIES - |frame|);
    assert file[HEADER_SIZE..HEADER_SIZE + 8] == seq(8, _ => 0);
  }

  lemma {:induction false} HeaderOps<H(!new), E(!new)>(f: Format<H, E>, file: seq<Byte>, bits: (bool, bool), newest: H,
                                                       before: Option<H>, es: seq<E>, h: H)
    requires Sound(f) && LogIs(f, file, bits, newest, before, es)
    ensures LogIs(f, ApplyOps(file, InsertOps(f, h, bits, false)), NextBits(bits), h, Some(newest), [])
  {
    var slot := Content(NextSlot(bits).0, SlotData(f, h, NextSlot(bits).1, false));
    TwoOps(file, slot, Cut(ENTRIES));
    SlotInserted(f, file, bits, newest, before, h, false);
    CutKeepsSlots(f, ApplyOp(file, slot), NextBits(bits), h, newest);
  }

  /** With `clear_traces` the header is written to both slots before the cut. */
  function ClearOps<H, E>(f: Format<H, E>, h: H, bits: (bool, bool)): seq<FileOp> {
    InsertOps(f, h, bits, true)[..1] + InsertOps(f, h, NextBits(bits), true)
  }

  lemma {:induction false} ClearedHeaders<H(!new), E(!new)>(f: Format<H, E>, file: seq<Byte>, bits: (bool, bool),
                                                            newest: H, before: Option<H>, es: seq<E>, h: H)
    requires Sound(f) && LogIs(f, file, bits, newest, before, es)
    ensures LogIs(f, ApplyOps(file, ClearOps(f, h, bits)), NextBits(NextBits(bits)), h, Some(h), [])
  {
    var next := NextBits(bits);
    var a := Content(NextSlot(bits).0, SlotData(f, h, NextSlot(bits).1, true));
    var b := Content(NextSlot(next).0, SlotData(f, h, NextSlot(next).1, true));
    assert ClearOps(f, h, bits) == [a, b, Cut(ENTRIES)] && [a, b, Cut(ENTRIES)][1..] == [b, Cut(ENTRIES)];
    var mid := ApplyOp(file, a);
    TwoOps(mid, b, Cut(ENTRIES));
    SlotInserted(f, file, bits, newest, before, h, true);
    SlotInserted(f, mid, next, h, Some(newest), h, true);
    CutKeepsSlots(f, ApplyOp(mid, b), NextBits(next), h, h);
  }

  /** Clearing traces leaves no byte of what the file held before, whatever that was. */
  lemma {:induction false} TracesAreCleared<H(!new), E(!new)>(f: Format<H, E>, a: seq<Byte>, b: seq<Byte>,
                                                              bits: (bool, bool), h: H)
    requires Sound(f) && |a| >= ENTRIES && |b| >= ENTRIES
    ensures ApplyOps(a, ClearOps(f, h, bits)) == ApplyOps(b, ClearOps(f, h, bits))
  {
    BothSlots(f, a, bits, h);
    BothSlots(f, b, bits, h);
  }

  /** After clearing traces the file is the two slots. */
  lemma {:induction false} BothSlots<H(!new), E(!new)>(f: Format<H, E>, file: seq<Byte>, bits: (bool, bool), h: H)
    requires Sound(f) && |file| >= ENTRIES
    ensures var next := NextBits(bits);
            var a, b := SlotData(f, h, NextSlot(bits).1, true), SlotData(f, h, NextSlot(next).1, true);
            ApplyOps(file, ClearOps(f, h, bits)) == if NextSlot(bits).0 == 0 then a + b else b + a
  {
    var next := NextBits(bits);
    var (slotA, bitA) := NextSlot(bits);
    var (slotB, bitB) := NextSlot(next);
    var a, b := SlotData(f, h, bitA, true), SlotData(f, h, bitB, true);
    var opA, opB := Content(slotA, a), Content(slotB, b);
    assert ClearOps(f, h, bits) == [opA, opB, Cut(ENTRIES)] && [opA, opB, Cut(ENTRIES)][1..] == [opB, Cut(ENTRIES)];
    var mid := ApplyOp(file, opA);
    TwoOps(mid, opB, Cut(ENTRIES));
    SlotDataFits(f, h, bitA, true);
    SlotDataFits(f, h, bitB, true);
    SlotWrite(file, slotA, a);
    SlotWrite(mid, slotB, b);
    TwoSlots(file, mid, ApplyOp(mid, opB), slotA, a, b);
  }

  lemma {:induction false} TwoSlots(file: seq<Byte>, mid: seq<Byte>, now: seq<Byte>, slot: nat, a: seq<Byte>,
                                    b: seq<Byte>)
    requires |file| >= ENTRIES && |a| == |b| == HEADER_SIZE && (slot == 0 || slot == HEADER_SIZE)
    requires mid == file[..slot] + a + file[slot + HEADER_SIZE..]
    requires var other := HEADER_SIZE - slot; now == mid[..other] + b + mid[other + HEADER_SIZE..]
    ensures now[..ENTRIES] == if slot == 0 then a + b else b + a
  {
  }

  // ---------------------------------------------------------------- open

  datatype OpenedHeader<H> = OpenedHeader(bits: (bool, bool), header: H, ops: seq<FileOp>)

  datatype Opened<H, E> = Opened(bits: (bool, bool), header: H, entries: Option<seq<E>>, ops: seq<FileOp>)

  function ReadHeader<H, E>(f: Format<H, E>, file: seq<Byte>, l: Leader, bits: (bool, bool)): Result<OpenedHeader<H>>
    requires l.start <= l.end <= |file|
  {
    var h := f.header.decode(file[l.start..l.end]);
    if h.Err? then Err(h.error) else Ok(OpenedHeader(bits, h.value, []))
  }

  /** The header that counts, or a new one when there is none. */
  function OpenHeader<H, E>(f: Format<H, E>, file: seq<Byte>, first: Option<H>): Result<OpenedHeader<H>> {
    var h1 := ValidateLeader(f, 0, file);
    if h1.Err? then Err(h1.error)
    else
      var h2 := ValidateLeader(f, HEADER_SIZE, file);
      if h2.Err? then Err(h2.error)
      else if h1.value.Some? && h2.value.Some? then
        var bits := (h1.value.value.headerBit, h2.value.value.headerBit);
        ReadHeader(f, file, if bits.0 == bits.1 then h1.value.value else h2.value.value, bits)
      else if h1.value.Some? then ReadHeader(f, file, h1.value.value,
                                             (h1.value.value.headerBit, h1.value.value.headerBit))
      else if h2.value.Some? then ReadHeader(f, file, h2.value.value,
                                             (!h2.value.value.headerBit, h2.value.value.headerBit))
      else if first.Some? then
        Ok(OpenedHeader(NextBits(INITIAL_BITS), first.value, InsertOps(f, first.value, INITIAL_BITS, false)))
      else Err(EmptyStorage)
  }

  /** The logged entries, if there are any; a trailing partial entry is never got rid of. */
  function OpenEntries<H, E>(f: Format<H, E>, file: seq<Byte>): Result<Option<seq<E>>> {
    if |file| <= ENTRIES then Ok(None)
    else
      var found := Scan(f, file, ENTRIES);
      if found.Err? then Err(found.error)
      else if found.value != [] && found.value[|found.value| - 1].partialBit then Err(Hang)
      else Ok(Some(seq(|found.value|, i requires 0 <= i < |found.value| => found.value[i].entry)))
  }

  lemma {:induction false} HeaderFound<H(!new), E(!new)>(f: Format<H, E>, file: seq<Byte>, slot: nat, bit: bool, h: H)
    requires Sound(f) && InSlot(f, file, slot, bit, h)
    ensures var end := slot + 8 + |f.header.encode(h)|;
            && ValidateLeader(f, slot, file) == Ok(Some(Leader(bit, false, slot + 8, end)))
            && f.header.decode(file[slot + 8..end]) == Ok(h)
  {
    FrameIsFound(f, file, slot, f.header.encode(h), bit, false);
  }

  /** Opening finds the newest header and the bits, whichever slot it is in. */
  lemma {:induction false} NewestHeaderOpens<H(!new), E(!new)>(f: Format<H, E>, file: seq<Byte>, bits: (bool, bool),
                                                               newest: H, before: Option<H>,
                                                               first: Option<H>)
    requires Sound(f) && Slots(f, file, bits, newest, before)
    ensures OpenHeader(f, file, first) == Ok(OpenedHeader(bits, newest, []))
  {
    if bits.0 != bits.1 {
      SecondSlotOpens(f, file, bits, newest, before.value, first);
    } else {
      FirstSlotOpens(f, file, bits.0, newest, before, first);
    }
  }

  lemma {:induction false} SecondSlotOpens<H(!new), E(!new)>(f: Format<H, E>, file: seq<Byte>, bits: (bool, bool),
                                                             newest: H, before: H, first: Option<H>)
    requires Sound(f) && bits.0 != bits.1 && InSlot(f, file, HEADER_SIZE, bits.1, newest)
             && InSlot(f, file, 0, bits.0, before)
    ensures OpenHeader(f, file, first) == Ok(OpenedHeader(bits, newest, []))
  {
    HeaderFound(f, file, HEADER_SIZE, bits.1, newest);
    HeaderFound(f, file, 0, bits.0, before);
  }

  lemma {:induction false} FirstSlotOpens<H(!new), E(!new)>(f: Format<H, E>, file: seq<Byte>, bit: bool, newest: H,
                                                            before: Option<H>, first: Option<H>)
    requires Sound(f) && InSlot(f, file, 0, bit, newest)
    requires if before.Some? then InSlot(f, file, HEADER_SIZE, bit, before.value) else Blank(file, HEADER_SIZE)
    ensures OpenHeader(f, file, first) == Ok(OpenedHeader((bit, bit), newest, []))
  {
    HeaderFound(f, file, 0, bit, newest);
    if before.Some? {
      HeaderFound(f, file, HEADER_SIZE, bit, before.value);
    } else {
      BlankIsNothing(f, file, HEADER_SIZE);
    }
  }

  /** Opening finds exactly the entries since the newest header. */
  lemma {:induction false} EntriesOpen<H(!new), E(!new)>(f: Format<H, E>, file: seq<Byte>, bits: (bool, bool),
                                                         newest: H, before: Option<H>, es: seq<E>)
    requires Sound(f) && LogIs(f, file, bits, newest, before, es)
    ensures OpenEntries(f, file) == Ok(if es == [] then None else Some(es))
  {
    FramedOpen(f, file, es, Marks(|es|, bits));
  }

  lemma {:induction false} FramedOpen<H(!new), E(!new)>(f: Format<H, E>, file: seq<Byte>, es: seq<E>, marks: seq<bool>)
    requires Sound(f) && EntriesAre(f, file, es, marks)
    ensures OpenEntries(f, file) == Ok(if es == [] then None else Some(es))
  {
    ScanFrames(f, file, ENTRIES, es, marks);
    var found := Whole(es);
    if es != [] {
      assert Encoded(f.entry, es)[0] == f.entry.encode(es[0]);
      assert |file[ENTRIES..]| > 0;
      assert seq(|found|, i requires 0 <= i < |found| => found[i].entry) == es;
    } else {
      assert Encoded(f.entry, es) == [];
      assert |file[ENTRIES..]| == 0;
    }
  }

  /** A file whose entries start with these fails to open or is found to start with them. */
  lemma {:induction false} FrontOpens<H(!new), E(!new)>(f: Format<H, E>, file: seq<Byte>, es: seq<E>, marks: seq<bool>)
    requires Sound(f) && AllFrameable(f.entry, es) && |marks| == |es| && |file| >= ENTRIES
    requires Frames(f, Encoded(f.entry, es), marks) <= file[ENTRIES..]
    ensures var found := OpenEntries(f, file);
            found.Ok? ==> es <= if found.value.Some? then found.value.value else []
  {
    ScanFront(f, file, ENTRIES, es, marks);
    if es != [] {
      FrameAhead(f, file, ENTRIES, Encoded(f.entry, es), marks);
      if OpenEntries(f, file).Ok? {
        FrontEntries(Scan(f, file, ENTRIES).value, es);
      }
    }
  }

  lemma {:induction false} FrontEntries<E>(found: seq<Scanned<E>>, es: seq<E>)
    requires Whole(es) <= found
    ensures es <= seq(|found|, i requires 0 <= i < |found| => found[i].entry)
  {
    forall i | 0 <= i < |es|
      ensures found[i].entry == es[i]
    {
      assert found[i] == Whole(es)[i];
    }
  }

  // ---------------------------------------------------------------- opening any file

  /** A slot holds this frame, or nothing that is long enough to be one. */
  ghost predicate SlotShows<H, E>(f: Format<H, E>, file: seq<Byte>, slot: nat, x: Option<RawFrame>) {
    if x.Some? then Starts(f, Behind(file, slot), x.value) else !Complete(Behind(file, slot))
  }

  /** The frame that counts: the first slot's if the header bits agree or the second has none, else the second's. */
  function NewestFrame(a: Option<RawFrame>, b: Option<RawFrame>): Option<RawFrame> {
    if a.None? || (b.Some? && a.value.headerBit != b.value.headerBit) then b else a
  }

  /** Bits under which the next header does not go where that frame is. */
  predicate BitsTell(a: Option<RawFrame>, b: Option<RawFrame>, bits: (bool, bool)) {
    && (a.Some? ==> bits.0 == a.value.headerBit) && (b.Some? ==> bits.1 == b.value.headerBit)
    && (NextSlot(bits).0 == 0 <==> NewestFrame(a, b) == b && (a.None? || a.value.headerBit != b.value.headerBit))
  }

  lemma {:induction false} SlotIsRead<H, E>(f: Format<H, E>, file: seq<Byte>, slot: nat, x: Option<RawFrame>)
    requires ShortSums(f) && SlotShows(f, file, slot, x)
    ensures var r := ValidateLeader(f, slot, file);
            if x.None? then r == Ok(None)
            else r == Ok(Some(Leader(x.value.headerBit, x.value.partialBit, slot + 8, slot + 8 + |x.value.data|)))
                 && file[slot + 8..slot + 8 + |x.value.data|] == x.value.data
  {
    LeaderIsRead(f, file, slot);
  }

  /** Whatever the slots hold, the header is read from the frame that counts. */
  lemma {:induction false} HeaderIsRead<H, E>(f: Format<H, E>, file: seq<Byte>, first: Option<H>, a: Option<RawFrame>,
                                              b: Option<RawFrame>)
    requires ShortSums(f) && SlotShows(f, file, 0, a) && SlotShows(f, file, HEADER_SIZE, b)
    ensures var x, r := NewestFrame(a, b), OpenHeader(f, file, first);
            if x.Some? then
              var h := f.header.decode(x.value.data);
              if h.Err? then r == Err(h.error)
              else r.Ok? && r.value.header == h.value && r.value.ops == [] && BitsTell(a, b, r.value.bits)
            else if first.None? then r == Err(EmptyStorage)
            else
              r.Ok? && r.value.header == first.value && r.value.bits == (false, false)
              && r.value.ops == InsertOps(f, first.value, INITIAL_BITS, false)
  {
    SlotIsRead(f, file, 0, a);
    SlotIsRead(f, file, HEADER_SIZE, b);
  }

  /** A damaged frame in a slot is reported, whatever the other one holds. */
  lemma {:induction false} DamagedSlot<H, E>(f: Format<H, E>, file: seq<Byte>, first: Option<H>)
    requires ShortSums(f) && (Damaged(f, Behind(file, 0)) || Damaged(f, Behind(file, HEADER_SIZE)))
    ensures OpenHeader(f, file, first) == Err(InvalidChecksum)
  {
    LeaderIsRead(f, file, 0);
    LeaderIsRead(f, file, HEADER_SIZE);
    AnyShows(f, Behind(file, 0));
  }

  /** Any bytes start with a frame, are damaged or are too short. */
  lemma {:induction false} AnyShows<H, E>(f: Format<H, E>, s: seq<Byte>)
    ensures !Complete(s) || Damaged(f, s) || exists x :: Starts(f, s, x)
  {
  }

  /** The entries of the frames, in order. */
  ghost predicate EntriesOf<E>(c: RecordCodec<E>, xs: seq<RawFrame>, es: seq<E>) {
    |es| == |xs| && forall i :: 0 <= i < |xs| ==> c.decode(xs[i].data) == Ok(es[i])
  }

  /**
   Any bytes behind the slots: the entries are found if and only if every frame can be decoded, what follows the frames
   is too short to be one, and the last frame is whole; then they are exactly the frames' entries. If all frames can
   be decoded and a damaged one follows, its checksum is reported.
   */
  lemma {:induction false} EntriesAreRead<H, E>(f: Format<H, E>, file: seq<Byte>, xs: seq<RawFrame>, rest: seq<Byte>)
    requires ShortSums(f) && |file| > ENTRIES && Split(f, file[ENTRIES..], xs, rest)
    ensures var r := OpenEntries(f, file);
            && (r.Ok? <==>
                  && !Complete(rest) && (forall i :: 0 <= i < |xs| ==> f.entry.decode(xs[i].data).Ok?)
                  && (xs != [] ==> !xs[|xs| - 1].partialBit))
            && (r.Ok? ==> r.value.Some? && EntriesOf(f.entry, xs, r.value.value))
            && (Complete(rest) && (forall i :: 0 <= i < |xs| ==> f.entry.decode(xs[i].data).Ok?) ==>
                  r == Err(InvalidChecksum))
  {
    var found, k := DecodesOrFails(f.entry, xs);
    if found.Some? {
      ScanFinds(f, file, ENTRIES, xs, rest, found.value);
    } else {
      SplitIsLed(f, file, ENTRIES, xs, rest);
      ScanFails(f, file, ENTRIES, xs, |file| - |rest|, k);
    }
  }

  /** A write behind the slots, as the part of the file behind them shows it. */
  ghost predicate Overlaid(file: seq<Byte>, at: nat, data: seq<Byte>, now: seq<Byte>) {
    && |file| >= ENTRIES && |now| >= ENTRIES
    && var tail := file[ENTRIES..];
    && (at <= |tail| ==> now[ENTRIES..] == tail[..at] + data + Rest(tail, at + |data|))
    && forall k :: 0 <= k <= at && k <= |tail| ==> tail[..k] <= now[ENTRIES..]
  }

  function Rest(tail: seq<Byte>, end: nat): seq<Byte> {
    if end < |tail| then tail[end..] else []
  }

  lemma {:induction false} OverlaidIs(file: seq<Byte>, at: nat, data: seq<Byte>, now: seq<Byte>, tail: seq<Byte>,
                                      a: seq<Byte>, b: seq<Byte>)
    requires Overlaid(file, at, data, now) && file[ENTRIES..] == tail
    requires at <= |tail| && tail[..at] == a && Rest(tail, at + |data|) == b
    ensures now[ENTRIES..] == a + data + b
  {
  }

  lemma {:induction false} WriteBehind(file: seq<Byte>, at: nat, data: seq<Byte>)
    requires |file| >= ENTRIES
    ensures Overlaid(file, at, data, ApplyOp(file, Content(ENTRIES + at, data)))
  {
    var tail, now := file[ENTRIES..], ApplyOp(file, Content(ENTRIES + at, data));
    var padded := file + seq(if |file| < ENTRIES + at then ENTRIES + at - |file| else 0, _ => 0);
    var more := data + if |padded| > ENTRIES + at + |data| then padded[ENTRIES + at + |data|..] else [];
    assert now == padded[..ENTRIES + at] + more;
    if at <= |tail| {
      assert padded == file;
      assert padded[..ENTRIES + at][ENTRIES..] == tail[..at];
    }
    forall k | 0 <= k <= at && k <= |tail|
      ensures tail[..k] <= now[ENTRIES..]
    {
      FrontKept(padded, at, more, k);
      assert padded[ENTRIES..ENTRIES + k] == tail[..k];
    }
  }

  lemma {:induction false} FrontKept(padded: seq<Byte>, at: nat, more: seq<Byte>, k: nat)
    requires k <= at && ENTRIES + at <= |padded|
    ensures (padded[..ENTRIES + at] + more)[ENTRIES..][..k] == padded[ENTRIES..ENTRIES + k]
  {
  }

  /** A frame written over the first entry is what opening finds first, if it does not fail. */
  lemma {:induction false} OverwrittenFound<H(!new), E(!new)>(f: Format<H, E>, file: seq<Byte>, e: E, bit: bool)
    requires Sound(f) && |file| >= ENTRIES && Frameable(f.entry, e)
    ensures var found := OpenEntries(f, ApplyOp(file, Content(ENTRIES, Frame(f, f.entry.encode(e), bit, false))));
            found.Ok? ==> found.value.Some? && found.value.value != [] && found.value.value[0] == e
  {
    var frame := Frame(f, f.entry.encode(e), bit, false);
    var now := ApplyOp(file, Content(ENTRIES, frame));
    assert file + Zeros(0) == file;
    assert |now| >= ENTRIES + |frame| && now[ENTRIES..ENTRIES + |frame|] == frame;
    EntryFound(f, now, ENTRIES, e, bit);
    FoundFirst(f, now, Leader(bit, false, ENTRIES + 8, ENTRIES + |frame|), e);
  }

  lemma {:induction false} FoundFirst<H, E>(f: Format<H, E>, file: seq<Byte>, l: Leader, e: E)
    requires |file| > ENTRIES && ValidateLeader(f, ENTRIES, file) == Ok(Some(l))
             && f.entry.decode(file[l.start..l.end]) == Ok(e)
    ensures var found := OpenEntries(f, file);
            found.Ok? ==> found.value.Some? && found.value.value != [] && found.value.value[0] == e
  {
  }

  // ---------------------------------------------------------------- steps of the oplog

  datatype LogStep<H, E> = Insert(header: H, clearTraces: bool) | Log(entry: E)

  /** The file, the bits and the counter of entry bytes. */
  datatype LogFile = LogFile(file: seq<Byte>, bits: (bool, bool), entriesBytes: nat)

  /** A new oplog: the first header in an empty file. */
  function Created<H, E>(f: Format<H, E>, first: H): LogFile {
    LogFile(ApplyOps([], InsertOps(f, first, INITIAL_BITS, false)), NextBits(INITIAL_BITS), 0)
  }

  /** Opening an empty file creates that oplog, given a first header; without one there is nothing to open. */
  lemma {:induction false} OpeningCreates<H(!new), E(!new)>(f: Format<H, E>, first: H)
    requires Sound(f)
    ensures var r, c := OpenHeader(f, [], Some(first)), Created(f, first);
            && r.Ok? && r.value.header == first && ApplyOps([], r.value.ops) == c.file && r.value.bits == c.bits
            && OpenHeader(f, c.file, None) == Ok(OpenedHeader(r.value.bits, first, []))
            && OpenEntries(f, c.file) == Ok(None)
    ensures OpenEntries(f, []) == Ok(None) && OpenHeader(f, [], None) == Err(EmptyStorage)
  {
    CreatedTracked(f, first);
    var c := Created(f, first);
    NewestHeaderOpens(f, c.file, c.bits, first, None, None);
    EntriesOpen(f, c.file, c.bits, first, None, []);
  }

  /** What a step does to the file. */
  function StepOps<H, E>(f: Format<H, E>, bits: (bool, bool), entriesBytes: nat, step: LogStep<H, E>): seq<FileOp> {
    match step
    case Insert(h, clearTraces) => if clearTraces then ClearOps(f, h, bits) else InsertOps(f, h, bits, false)
    case Log(e) => [Content(ENTRIES + entriesBytes, Frame(f, f.entry.encode(e), bits.0 != bits.1, false))]
  }

  function AfterStep<H, E>(f: Format<H, E>, s: LogFile, step: LogStep<H, E>): LogFile {
    var file := ApplyOps(s.file, StepOps(f, s.bits, s.entriesBytes, step));
    match step
    case Insert(_, clearTraces) => LogFile(file, if clearTraces then NextBits(NextBits(s.bits)) else NextBits(s.bits),
                                           0)
    case Log(e) => LogFile(file, s.bits, s.entriesBytes + 8 + |f.entry.encode(e)|)
  }

  function AfterSteps<H, E>(f: Format<H, E>, first: H, steps: seq<LogStep<H, E>>): LogFile {
    if steps == [] then Created(f, first) else AfterStep(f, AfterSteps(f, first, steps[..|steps| - 1]),
                                                         steps[|steps| - 1])
  }

  /** The header inserted last. */
  function Newest<H, E>(first: H, steps: seq<LogStep<H, E>>): H {
    if steps == [] then first
    else if steps[|steps| - 1].Insert? then steps[|steps| - 1].header
    else Newest(first, steps[..|steps| - 1])
  }

  /** The entries logged since. */
  function Since<H, E>(steps: seq<LogStep<H, E>>): seq<E> {
    if steps == [] || steps[|steps| - 1].Insert? then []
    else Since(steps[..|steps| - 1]) + [steps[|steps| - 1].entry]
  }

  predicate StepFits<H, E>(f: Format<H, E>, step: LogStep<H, E>) {
    step.Log? ==> Frameable(f.entry, step.entry)
  }

  /** The file holds these headers and entries, and the counter ends where the file does. */
  ghost predicate Tracked<H(!new), E(!new)>(f: Format<H, E>, s: LogFile, newest: H, before: Option<H>, es: seq<E>) {
    LogIs(f, s.file, s.bits, newest, before, es) && ENTRIES + s.entriesBytes == |s.file|
  }

  lemma {:induction false} OneOp(file: seq<Byte>, op: FileOp)
    ensures ApplyOps(file, [op]) == ApplyOp(file, op)
  {
    assert [op][1..] == [];
  }

  lemma {:induction false} InsertTracked<H(!new), E(!new)>(f: Format<H, E>, s: LogFile, newest: H, before: Option<H>,
                                                           es: seq<E>, h: H, clearTraces: bool)
    requires Sound(f) && Tracked(f, s, newest, before, es)
    ensures Tracked(f, AfterStep(f, s, Insert(h, clearTraces)), h, Some(if clearTraces then h else newest), [])
  {
    if clearTraces {
      ClearedHeaders(f, s.file, s.bits, newest, before, es, h);
    } else {
      HeaderOps(f, s.file, s.bits, newest, before, es, h);
    }
    NoEntries(f, AfterStep(f, s, Insert(h, clearTraces)).file);
  }

  lemma {:induction false} EntryTracked<H(!new), E(!new)>(f: Format<H, E>, s: LogFile, newest: H, before: Option<H>,
                                                          es: seq<E>, e: E)
    requires Sound(f) && Tracked(f, s, newest, before, es) && Frameable(f.entry, e)
    ensures Tracked(f, AfterStep(f, s, Log(e)), newest, before, es + [e])
  {
    EntryAppended(f, s.file, s.bits, newest, before, es, e);
    OneOp(s.file, Content(ENTRIES + s.entriesBytes, Frame(f, f.entry.encode(e), s.bits.0 != s.bits.1, false)));
  }

  lemma {:induction false} CreatedTracked<H(!new), E(!new)>(f: Format<H, E>, first: H)
    requires Sound(f)
    ensures Tracked(f, Created(f, first), first, None, [])
  {
    FirstHeader(f, first);
    NoEntries(f, Created(f, first).file);
  }

  lemma {:induction false} RunTracked<H(!new), E(!new)>(f: Format<H, E>, first: H, steps: seq<LogStep<H,
                                        E>>) returns (before: Option<H>)
    requires Sound(f) && forall k :: 0 <= k < |steps| ==> StepFits(f, steps[k])
    ensures Tracked(f, AfterSteps(f, first, steps), Newest(first, steps), before, Since(steps))
  {
    if steps == [] {
      CreatedTracked(f, first);
      before := None;
    } else {
      var front, last := steps[..|steps| - 1], steps[|steps| - 1];
      before := RunTracked(f, first, front);
      var s := AfterSteps(f, first, front);
      if last.Insert? {
        InsertTracked(f, s, Newest(first, front), before, Since(front), last.header, last.clearTraces);
        before := Some(if last.clearTraces then last.header else Newest(first, front));
      } else {
        EntryTracked(f, s, Newest(first, front), before, Since(front), last.entry);
      }
    }
  }

  /** Any run of header inserts and entries on a new oplog, and what opening its file then gives. */
  lemma {:induction false} RunOpens<H(!new), E(!new)>(f: Format<H, E>, first: H, steps: seq<LogStep<H, E>>)
    requires Sound(f) && forall k :: 0 <= k < |steps| ==> StepFits(f, steps[k])
    ensures var s := AfterSteps(f, first, steps);
            && OpenHeader(f, s.file, None) == Ok(OpenedHeader(s.bits, Newest(first, steps), []))
            && OpenEntries(f, s.file) == Ok(if Since(steps) == [] then None else Some(Since(steps)))
  {
    var before := RunTracked(f, first, steps);
    var s := AfterSteps(f, first, steps);
    NewestHeaderOpens(f, s.file, s.bits, Newest(first, steps), before, None);
    EntriesOpen(f, s.file, s.bits, Newest(first, steps), before, Since(steps));
  }

  // ---------------------------------------------------------------- the oplog object

  class Oplog {
    var headerBits: (bool, bool)
    var entriesLength: nat
    var entriesByteLength: nat

    constructor (bits: (bool, bool))
      ensures headerBits == bits && entriesLength == entriesByteLength == 0
    {
      headerBits, entriesLength, entriesByteLength := bits, 0, 0;
    }

    /** The oplog with its file. */
    ghost function With(file: seq<Byte>): LogFile
      reads this
    {
      LogFile(file, headerBits, entriesByteLength)
    }

    /** `append_entries` with one entry. */
    method AppendEntry<H, E>(f: Format<H, E>, e: E) returns (ops: seq<FileOp>)
      modifies this
      ensures ops == StepOps(f, old(headerBits), old(entriesByteLength), Log(e))
              && entriesLength == old(entriesLength) + 1
      ensures forall file :: With(ApplyOps(file, ops)) == AfterStep(f, old(With(file)), Log(e))
    {
      var bit := headerBits.0 != headerBits.1;
      var frame := Frame(f, f.entry.encode(e), bit, false);
      ops := [Content(ENTRIES + entriesByteLength, frame)];
      entriesLength, entriesByteLength := entriesLength + 1, entriesByteLength + |frame|;
    }

    /** `flush`: the header goes to the next slot, or to both, and the entries are cut off. */
    method Flush<H, E>(f: Format<H, E>, header: H, clearTraces: bool) returns (ops: seq<FileOp>)
      modifies this
      ensures ops == StepOps(f, old(headerBits), old(entriesByteLength), Insert(header, clearTraces))
              && entriesLength == 0
      ensures forall file :: With(ApplyOps(file, ops)) == AfterStep(f, old(With(file)), Insert(header, clearTraces))
    {
      if clearTraces {
        ops := ClearOps(f, header, headerBits);
        headerBits := NextBits(NextBits(headerBits));
      } else {
        ops := InsertOps(f, header, headerBits, false);
        headerBits := NextBits(headerBits);
      }
      entriesLength, entriesByteLength := 0, 0;
    }
  }

  lemma {:induction false} NoEntries<H(!new), E(!new)>(f: Format<H, E>, file: seq<Byte>)
    ensures EntriesAre(f, file, [], []) <==> |file| == ENTRIES
  {
    assert Encoded(f.entry, []) == [];
    assert |file| >= ENTRIES ==> |file[ENTRIES..]| == |file| - ENTRIES;
  }

  /** The scan of the entries, leader by leader. */
  method ScanEntries<H, E>(f: Format<H, E>, file: seq<Byte>) returns (r: Result<seq<Scanned<E>>>)
    requires |file| >= ENTRIES
    ensures r == Scan(f, file, ENTRIES)
  {
    var offset: nat, found: seq<Scanned<E>> := ENTRIES, [];
    PrependedNothing(Scan(f, file, ENTRIES));
    while true
      invariant offset <= |file| && Scan(f, file, ENTRIES) == Prepended(found, Scan(f, file, offset))
      decreases |file| - offset
    {
      var leader := ValidateLeader(f, offset, file);
      if leader.Err? {
        return Err(leader.error);
      }
      if leader.value.None? {
        assert found + [] == found;
        return Ok(found);
      }
      var l := leader.value.value;
      var e := f.entry.decode(file[l.start..l.end]);
      if e.Err? {
        return Err(e.error);
      }
      var one := Scanned(e.value, l.partialBit);
      assert Scan(f, file, offset) == Prepended([one], Scan(f, file, l.end));
      PrependedSnoc(found, one, Scan(f, file, l.end));
      found, offset := found + [one], l.end;
    }
  }

  function Prepended<T>(front: seq<T>, r: Result<seq<T>>): Result<seq<T>> {
    if r.Err? then r else Ok(front + r.value)
  }

  lemma {:induction false} PrependedNothing<T>(r: Result<seq<T>>)
    ensures Prepended([], r) == r
  {
    if r.Ok? {
      assert [] + r.value == r.value;
    }
  }

  lemma {:induction false} PrependedSnoc<T>(front: seq<T>, x: T, r: Result<seq<T>>)
    ensures Prepended(front, Prepended([x], r)) == Prepended(front + [x], r)
  {
    if r.Ok? {
      assert front + ([x] + r.value) == front + [x] + r.value;
    }
  }

  /** `open`; the counter of entry bytes starts from 0 even when entries were found. */
  method Open<H, E>(f: Format<H, E>, file: seq<Byte>, first: Option<H>) returns (r: Result<Opened<H, E>>)
    ensures var h := OpenHeader(f, file, first);
            var es := OpenEntries(f, file);
            if h.Err? then r == Err(h.error) else if es.Err? then r == Err(es.error)
            else r == Ok(Opened(h.value.bits, h.value.header, es.value, h.value.ops))
    ensures ShortSums(f) && r.Ok? && |file| > ENTRIES ==>
              exists xs, rest :: Split(f, file[ENTRIES..], xs, rest) && !Complete(rest)
                                 && r.value.entries.Some? && EntriesOf(f.entry, xs, r.value.entries.value)
  {
    if ShortSums(f) && |file| > ENTRIES {
      ghost var xs, rest := Splits(f, file[ENTRIES..]);
      EntriesAreRead(f, file, xs, rest);
    }
    var h := OpenHeader(f, file, first);
    if h.Err? {
      return Err(h.error);
    }
    var entries: Option<seq<E>> := None;
    if |file| > ENTRIES {
      var found := ScanEntries(f, file);
      if found.Err? {
        return Err(found.error);
      }
      if found.value != [] && found.value[|found.value| - 1].partialBit {
        return Err(Hang);
      }
      entries := Some(seq(|found.value|, i requires 0 <= i < |found.value| => found.value[i].entry));
    }
    return Ok(Opened(h.value.bits, h.value.header, entries, h.value.ops));
  }

  // ---------------------------------------------------------------- whole runs

  /** Any run of header inserts and entries on a new oplog, and then opening its file. */
  method Run<H(!new), E(!new)>(f: Format<H, E>, first: H, steps: seq<LogStep<H, E>>)
    returns (oplog: Oplog, file: seq<Byte>, again: Result<Opened<H, E>>)
    requires Sound(f) && forall k :: 0 <= k < |steps| ==> StepFits(f, steps[k])
    ensures oplog.With(file) == AfterSteps(f, first, steps)
    ensures again == Ok(Opened(oplog.headerBits, Newest(first, steps),
                               if Since(steps) == [] then None else Some(Since(steps)), []))
  {
    OpeningCreates(f, first);
    var created := Open(f, [], Some(first));
    file := ApplyOps([], created.value.ops);
    oplog := new Oplog(created.value.bits);
    for k := 0 to |steps|
      invariant fresh(oplog) && oplog.With(file) == AfterSteps(f, first, steps[..k])
    {
      assert steps[..k + 1][..k] == steps[..k];
      var ops;
      match steps[k]
      case Insert(header, clearTraces) =>
        ops := oplog.Flush(f, header, clearTraces);
        file := ApplyOps(file, ops);
      case Log(e) =>
        ops := oplog.AppendEntry(f, e);
        file := ApplyOps(file, ops);
    }
    assert steps[..|steps|] == steps;
    RunOpens(f, first, steps);
    again := Open(f, file, None);
  }
}
