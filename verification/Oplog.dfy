/**
 The write-ahead log at the level of bytes (src/oplog/mod.rs): two alternating header slots of
 4096 bytes, then framed entries. The checksum and the header's codec are parameters.
 */
module Oplogs {
  import opened Common
  import opened Encoding

  const HEADER_SIZE := 4096
  const ENTRIES := 8192

  /** How a value is written and read. */
  datatype RecordCodec<!T> = RecordCodec(encode: T -> seq<Byte>, decode: seq<Byte> -> Result<T>)

  /** Checksum, codec of headers and codec of entries. */
  datatype Format<!H, !E> = Format(crc: seq<Byte> -> nat, header: RecordCodec<H>, entry: RecordCodec<E>)

  ghost predicate ReadsBack<T(!new)>(c: RecordCodec<T>) {
    forall x: T :: c.encode(x) != [] && c.decode(c.encode(x)) == Ok(x)
  }

  /** Checksums have 32 bits; headers and entries are read back as written; headers fit their slot. */
  ghost predicate Sound<H(!new), E(!new)>(f: Format<H, E>) {
    && (forall b: seq<Byte> :: f.crc(b) < 0x1_0000_0000)
    && ReadsBack(f.header) && ReadsBack(f.entry)
    && (forall h: H :: |f.header.encode(h)| <= HEADER_SIZE - 8)
  }

  // ---------------------------------------------------------------- frames

  function Leading(length: nat, headerBit: bool, partialBit: bool): nat {
    4 * length + (if headerBit then 1 else 0) + (if partialBit then 2 else 0)
  }

  /** Checksum, length with the two bits, data. */
  function Frame<H, E>(f: Format<H, E>, data: seq<Byte>, headerBit: bool, partialBit: bool): (s: seq<Byte>)
    ensures |s| == 8 + |data|
  {
    var rest := LittleEndian(Leading(|data|, headerBit, partialBit), 4) + data;
    LittleEndian(f.crc(rest), 4) + rest
  }

  datatype Leader = Leader(headerBit: bool, partialBit: bool, start: nat, end: nat)

  /** `validate_leader`: nothing there, a frame, or a frame with a wrong checksum. */
  function ValidateLeader<H, E>(f: Format<H, E>, index: nat, file: seq<Byte>): (r: Result<Option<Leader>>)
    ensures r.Ok? && r.value.Some? ==> index + 8 == r.value.value.start < r.value.value.end <= |file|
  {
    if |file| < index + 8 then Ok(None)
    else
      var stored := FromLittleEndian(file[index..index + 4]);
      var leading := FromLittleEndian(file[index + 4..index + 8]);
      var length := leading / 4;
      if length == 0 || |file| - (index + 8) < length then Ok(None)
      else if f.crc(file[index + 4..index + 8 + length]) != stored then Err(InvalidChecksum)
      else Ok(Some(Leader(leading % 2 == 1, leading / 2 % 2 == 1, index + 8, index + 8 + length)))
  }

  predicate FrameAt<H, E>(f: Format<H, E>, file: seq<Byte>, index: nat, data: seq<Byte>, headerBit: bool,
                          partialBit: bool) {
    index + 8 + |data| <= |file| && file[index..index + 8 + |data|] == Frame(f, data, headerBit, partialBit)
  }

  lemma {:induction false} Subslice(file: seq<Byte>, index: nat, k: nat, a: nat, b: nat)
    requires index + k <= |file| && a <= b <= k
    ensures file[index..index + k][a..b] == file[index + a..index + b]
  {
    var l, r := file[index..index + k][a..b], file[index + a..index + b];
    assert forall j :: 0 <= j < |l| ==> l[j] == r[j];
  }

  lemma {:induction false} FrameParts<H, E>(f: Format<H, E>, file: seq<Byte>, index: nat, data: seq<Byte>,
                                            headerBit: bool, partialBit: bool)
    requires FrameAt(f, file, index, data, headerBit, partialBit)
    ensures var leading := LittleEndian(Leading(|data|, headerBit, partialBit), 4);
            && file[index..index + 4] == LittleEndian(f.crc(leading + data), 4)
            && file[index + 4..index + 8] == leading
            && file[index + 4..index + 8 + |data|] == leading + data
            && file[index + 8..index + 8 + |data|] == data
  {
    var s := file[index..index + 8 + |data|];
    assert file[index..index + 4] == s[..4];
    Subslice(file, index, 8 + |data|, 4, 8);
    assert file[index + 4..index + 8 + |data|] == s[4..];
    assert file[index + 8..index + 8 + |data|] == s[8..];
    assert s[4..8] == s[4..][..4];
  }

  lemma {:induction false} LeadingTells(length: nat, headerBit: bool, partialBit: bool)
    ensures var n := Leading(length, headerBit, partialBit);
            n / 4 == length && (n % 2 == 1 <==> headerBit) && (n / 2 % 2 == 1 <==> partialBit)
  {
  }

  lemma {:induction false} FoundInParts<H, E>(f: Format<H, E>, file: seq<Byte>, index: nat, length: nat,
                                              headerBit: bool, partialBit: bool)
    requires 0 < length && index + 8 + length <= |file|
    requires FromLittleEndian(file[index + 4..index + 8]) == Leading(length, headerBit, partialBit)
    requires FromLittleEndian(file[index..index + 4]) == f.crc(file[index + 4..index + 8 + length])
    ensures ValidateLeader(f, index, file) == Ok(Some(Leader(headerBit, partialBit, index + 8, index + 8 + length)))
  {
    LeadingTells(length, headerBit, partialBit);
  }

  /** A frame that was written is found again, with its bits and its data. */
  lemma {:induction false} FrameIsFound<H, E>(f: Format<H, E>, file: seq<Byte>, index: nat, data: seq<Byte>,
                                              headerBit: bool, partialBit: bool)
    requires f.crc(LittleEndian(Leading(|data|, headerBit, partialBit), 4) + data) < 0x1_0000_0000
    requires 0 < |data| < 0x4000_0000 && FrameAt(f, file, index, data, headerBit, partialBit)
    ensures ValidateLeader(f, index, file) == Ok(Some(Leader(headerBit, partialBit, index + 8, index + 8 + |data|)))
    ensures file[index + 8..index + 8 + |data|] == data
  {
    var n := Leading(|data|, headerBit, partialBit);
    FrameParts(f, file, index, data, headerBit, partialBit);
    LeaderRoundTrip(n, f.crc(LittleEndian(n, 4) + data));
    FoundInParts(f, file, index, |data|, headerBit, partialBit);
  }

  lemma {:induction false} LeaderRoundTrip(n: nat, crc: nat)
    requires n < 0x1_0000_0000 && crc < 0x1_0000_0000
    ensures FromLittleEndian(LittleEndian(n, 4)) == n && FromLittleEndian(LittleEndian(crc, 4)) == crc
  {
    Powers();
    LittleEndianRoundTrip(n, 4);
    LittleEndianRoundTrip(crc, 4);
  }

  // ---------------------------------------------------------------- header slots

  /** Which slot the next header goes to, and its bit. */
  function NextSlot(bits: (bool, bool)): (nat, bool) {
    if bits.0 != bits.1 then (0, !bits.0) else (HEADER_SIZE, !bits.1)
  }

  function NextBits(bits: (bool, bool)): (bool, bool) {
    var (slot, bit) := NextSlot(bits);
    if slot == 0 then (bit, bits.1) else (bits.0, bit)
  }

  ghost predicate InSlot<H, E>(f: Format<H, E>, file: seq<Byte>, slot: nat, bit: bool, h: H) {
    FrameAt(f, file, slot, f.header.encode(h), bit, false)
  }

  /**
   The newest header is in the first slot if the bits agree, else in the second; the other slot holds the one before.
   */
  ghost predicate Slots<H, E>(f: Format<H, E>, file: seq<Byte>, bits: (bool, bool), newest: H, before: Option<H>) {
    if bits.0 == bits.1 then
      && InSlot(f, file, 0, bits.0, newest)
      && (if before.Some? then InSlot(f, file, HEADER_SIZE, bits.1, before.value) else Blank(file, HEADER_SIZE))
    else InSlot(f, file, HEADER_SIZE, bits.1, newest) && before.Some? && InSlot(f, file, 0, bits.0, before.value)
  }

  predicate Blank(file: seq<Byte>, slot: nat) {
    slot + 8 <= |file| && file[slot..slot + 8] == seq(8, _ => 0)
  }

  lemma {:induction false} ZerosAreZero(s: seq<Byte>)
    requires forall i :: 0 <= i < |s| ==> s[i] == 0
    ensures FromLittleEndian(s) == 0
  {
    if s != [] {
      ZerosAreZero(s[1..]);
    }
  }

  lemma {:induction false} BlankIsNothing<H, E>(f: Format<H, E>, file: seq<Byte>, slot: nat)
    requires Blank(file, slot)
    ensures ValidateLeader(f, slot, file) == Ok(None)
  {
    assert file[slot + 4..slot + 8] == file[slot..slot + 8][4..];
    ZerosAreZero(file[slot + 4..slot + 8]);
  }

  // ---------------------------------------------------------------- entries

  /** One frame after the other, each with its header bit. */
  function Frames<H, E>(f: Format<H, E>, ds: seq<seq<Byte>>, marks: seq<bool>): seq<Byte>
    requires |ds| == |marks|
  {
    if ds == [] then [] else Frame(f, ds[0], marks[0], false) + Frames(f, ds[1..], marks[1..])
  }

  /** Small enough for the 30 bits of a frame's length. */
  predicate Frameable<E>(c: RecordCodec<E>, e: E) {
    |c.encode(e)| < 0x4000_0000
  }

  /** The encoded entries. */
  function Encoded<E>(c: RecordCodec<E>, es: seq<E>): seq<seq<Byte>> {
    seq(|es|, i requires 0 <= i < |es| => c.encode(es[i]))
  }

  predicate AllFrameable<E>(c: RecordCodec<E>, es: seq<E>) {
    forall i :: 0 <= i < |es| ==> Frameable(c, es[i])
  }

  datatype Scanned<E> = Scanned(entry: E, partialBit: bool)

  /** Entries from an offset on, until no leader is found. */
  function Scan<H, E>(f: Format<H, E>, file: seq<Byte>, offset: nat): Result<seq<Scanned<E>>>
    decreases |file| - offset
  {
    var leader := ValidateLeader(f, offset, file);
    if leader.Err? then Err(leader.error)
    else if leader.value.None? then Ok([])
    else
      var l := leader.value.value;
      var e := f.entry.decode(file[l.start..l.end]);
      if e.Err? then Err(e.error)
      else
        var rest := Scan(f, file, l.end);
        if rest.Err? then rest else Ok([Scanned(e.value, l.partialBit)] + rest.value)
  }

  function Whole<E>(es: seq<E>): seq<Scanned<E>> {
    seq(|es|, i requires 0 <= i < |es| => Scanned(es[i], false))
  }

  lemma {:induction false} EntryFound<H(!new), E(!new)>(f: Format<H, E>, file: seq<Byte>, offset: nat, e: E, bit: bool)
    requires Sound(f) && Frameable(f.entry, e) && FrameAt(f, file, offset, f.entry.encode(e), bit, false)
    ensures var end := offset + 8 + |f.entry.encode(e)|;
            && ValidateLeader(f, offset, file) == Ok(Some(Leader(bit, false, offset + 8, end)))
            && f.entry.decode(file[offset + 8..end]) == Ok(e)
  {
    FrameIsFound(f, file, offset, f.entry.encode(e), bit, false);
  }

  /** Scanning finds exactly the framed entries, in order, whatever their header bits. */
  lemma {:induction false} ScanFrames<H(!new), E(!new)>(f: Format<H, E>, file: seq<Byte>, offset: nat, es: seq<E>,
                                                        marks: seq<bool>)
    requires Sound(f) && AllFrameable(f.entry, es) && offset <= |file| && |marks| == |es|
    requires file[offset..] == Frames(f, Encoded(f.entry, es), marks)
    ensures Scan(f, file, offset) == Ok(Whole(es))
    decreases |es|, 1
  {
    var ds := Encoded(f.entry, es);
    if es == [] {
      assert ds == [] && |file[offset..]| == |file| - offset;
      ScanEnd(f, file);
      assert Whole(es) == [];
    } else {
      assert ds[1..] == Encoded(f.entry, es[1..]);
      FrameAhead(f, file, offset, ds, marks);
      ScanOne(f, file, offset, es, marks);
    }
  }

  lemma {:induction false} ScanOne<H(!new), E(!new)>(f: Format<H, E>, file: seq<Byte>, offset: nat, es: seq<E>,
                                                     marks: seq<bool>)
    requires Sound(f) && AllFrameable(f.entry, es) && es != [] && |marks| == |es|
    requires FrameAt(f, file, offset, f.entry.encode(es[0]), marks[0], false)
    requires file[offset + 8 + |f.entry.encode(es[0])|..] == Frames(f, Encoded(f.entry, es[1..]), marks[1..])
    ensures Scan(f, file, offset) == Ok(Whole(es))
    decreases |es|, 0
  {
    var end := offset + 8 + |f.entry.encode(es[0])|;
    WholeCons(f.entry, es);
    EntryFound(f, file, offset, es[0], marks[0]);
    ScanFrames(f, file, end, es[1..], marks[1..]);
    ScanStep(f, file, offset, Leader(marks[0], false, offset + 8, end), es[0], Whole(es[1..]));
  }

  /** Scanning a file that starts with framed entries fails or finds them first. */
  lemma {:induction false} ScanFront<H(!new), E(!new)>(f: Format<H, E>, file: seq<Byte>, offset: nat, es: seq<E>,
                                                       marks: seq<bool>)
    requires Sound(f) && AllFrameable(f.entry, es) && offset <= |file| && |marks| == |es|
    requires Frames(f, Encoded(f.entry, es), marks) <= file[offset..]
    ensures Scan(f, file, offset).Ok? ==> Whole(es) <= Scan(f, file, offset).value
    decreases |es|, 1
  {
    if es == [] {
      assert Whole(es) == [];
    } else {
      var ds := Encoded(f.entry, es);
      assert ds[1..] == Encoded(f.entry, es[1..]);
      FrameAhead(f, file, offset, ds, marks);
      ScanOneFront(f, file, offset, es, marks);
    }
  }

  lemma {:induction false} ScanOneFront<H(!new), E(!new)>(f: Format<H, E>, file: seq<Byte>, offset: nat, es: seq<E>,
                                                          marks: seq<bool>)
    requires Sound(f) && AllFrameable(f.entry, es) && es != [] && |marks| == |es|
    requires FrameAt(f, file, offset, f.entry.encode(es[0]), marks[0], false)
    requires Frames(f, Encoded(f.entry, es[1..]), marks[1..]) <= file[offset + 8 + |f.entry.encode(es[0])|..]
    ensures Scan(f, file, offset).Ok? ==> Whole(es) <= Scan(f, file, offset).value
    decreases |es|, 0
  {
    var end := offset + 8 + |f.entry.encode(es[0])|;
    WholeCons(f.entry, es);
    EntryFound(f, file, offset, es[0], marks[0]);
    ScanFront(f, file, end, es[1..], marks[1..]);
    if Scan(f, file, end).Ok? {
      ScanStep(f, file, offset, Leader(marks[0], false, offset + 8, end), es[0], Scan(f, file, end).value);
    }
  }

  lemma {:induction false} WholeCons<E>(c: RecordCodec<E>, es: seq<E>)
    requires es != [] && AllFrameable(c, es)
    ensures Whole(es) == [Scanned(es[0], false)] + Whole(es[1..]) && Frameable(c, es[0]) && AllFrameable(c, es[1..])
  {
  }

  lemma {:induction false} ScanEnd<H, E>(f: Format<H, E>, file: seq<Byte>)
    ensures Scan(f, file, |file|) == Ok([])
  {
  }

  lemma {:induction false} ScanStep<H, E>(f: Format<H, E>, file: seq<Byte>, offset: nat, l: Leader, e: E,
                                          rest: seq<Scanned<E>>)
    requires ValidateLeader(f, offset, file) == Ok(Some(l)) && f.entry.decode(file[l.start..l.end]) == Ok(e)
    requires Scan(f, file, l.end) == Ok(rest)
    ensures Scan(f, file, offset) == Ok([Scanned(e, l.partialBit)] + rest)
  {
  }

  lemma {:induction false} FrameAhead<H, E>(f: Format<H, E>, file: seq<Byte>, offset: nat, ds: seq<seq<Byte>>,
                                            marks: seq<bool>)
    requires ds != [] && |ds| == |marks| && offset <= |file| && Frames(f, ds, marks) <= file[offset..]
    ensures FrameAt(f, file, offset, ds[0], marks[0], false)
            && Frames(f, ds[1..], marks[1..]) <= file[offset + 8 + |ds[0]|..]
    ensures file[offset..] == Frames(f, ds, marks) ==> file[offset + 8 + |ds[0]|..] == Frames(f, ds[1..], marks[1..])
  {
    var k, all := 8 + |ds[0]|, Frames(f, ds, marks);
    assert all[..k] == Frame(f, ds[0], marks[0], false) && all[k..] == Frames(f, ds[1..], marks[1..]);
    assert file[offset..offset + k] == file[offset..][..k] == all[..k];
    assert file[offset + k..] == file[offset..][k..] && file[offset..][k..|all|] == all[k..];
  }

  lemma {:induction false} FramesConcat<H, E>(f: Format<H, E>, a: seq<seq<Byte>>, ma: seq<bool>, b: seq<seq<Byte>>,
                                              mb: seq<bool>)
    requires |a| == |ma| && |b| == |mb|
    ensures Frames(f, a + b, ma + mb) == Frames(f, a, ma) + Frames(f, b, mb)
  {
    if a == [] {
      assert a + b == b && ma + mb == mb;
    } else {
      assert (a + b)[1..] == a[1..] + b && (ma + mb)[1..] == ma[1..] + mb;
      FramesConcat(f, a[1..], ma[1..], b, mb);
    }
  }

  lemma {:induction false} FramesSnoc<H, E>(f: Format<H, E>, ds: seq<seq<Byte>>, marks: seq<bool>, d: seq<Byte>,
                                            bit: bool)
    requires |ds| == |marks|
    ensures Frames(f, ds + [d], marks + [bit]) == Frames(f, ds, marks) + Frame(f, d, bit, false)
  {
    var frame := Frame(f, d, bit, false);
    if ds == [] {
      assert ds + [d] == [d] && [d][1..] == [] && marks + [bit] == [bit] && [bit][1..] == [];
      assert Frames(f, [d], [bit]) == frame + Frames(f, [], []) == frame;
    } else {
      assert (ds + [d])[1..] == ds[1..] + [d] && (marks + [bit])[1..] == marks[1..] + [bit];
      FramesSnoc(f, ds[1..], marks[1..], d, bit);
    }
  }
}
