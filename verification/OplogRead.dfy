/**
 What the oplog makes of any bytes (`validate_leader` and the scan in src/oplog/mod.rs): frames, then something that is
 not a frame, either too short for the length it announces or with another checksum.
 */
module OplogReads {
  import opened Common
  import opened Encoding
  import opened Oplogs

  datatype RawFrame = RawFrame(data: seq<Byte>, headerBit: bool, partialBit: bool)

  ghost predicate ShortSums<H, E>(f: Format<H, E>) {
    forall b: seq<Byte> :: f.crc(b) < 0x1_0000_0000
  }

  /** Checksum, length with the two bits, data. */
  function FrameOf<H, E>(f: Format<H, E>, x: RawFrame): seq<Byte> {
    Frame(f, x.data, x.headerBit, x.partialBit)
  }

  /** The bytes start with this frame. */
  predicate Starts<H, E>(f: Format<H, E>, s: seq<Byte>, x: RawFrame) {
    0 < |x.data| < 0x4000_0000 && FrameOf(f, x) <= s
  }

  /** Long enough for the data that the length word announces. */
  predicate Complete(s: seq<Byte>) {
    |s| >= 8 && 0 < FromLittleEndian(s[4..8]) / 4 <= |s| - 8
  }

  /** The bytes announce a frame that they are not. */
  ghost predicate Damaged<H, E>(f: Format<H, E>, s: seq<Byte>) {
    Complete(s) && forall x :: !Starts(f, s, x)
  }

  function Behind(file: seq<Byte>, index: nat): seq<Byte> {
    if index <= |file| then file[index..] else []
  }

  // ---------------------------------------------------------------- one leader

  lemma {:induction false} BytesRoundTrip(s: seq<Byte>)
    ensures LittleEndian(FromLittleEndian(s), |s|) == s
  {
    if s != [] {
      BytesRoundTrip(s[1..]);
      var n := FromLittleEndian(s);
      assert n % 256 == s[0] && n / 256 == FromLittleEndian(s[1..]);
    }
  }

  lemma {:induction false} SliceBehind(file: seq<Byte>, index: nat, a: nat, b: nat)
    requires a <= b && index + b <= |file|
    ensures file[index..][a..b] == file[index + a..index + b]
  {
  }

  lemma {:induction false} StartsAt<H, E>(f: Format<H, E>, file: seq<Byte>, index: nat, x: RawFrame)
    requires Starts(f, Behind(file, index), x)
    ensures FrameAt(f, file, index, x.data, x.headerBit, x.partialBit)
  {
    var s, n := Behind(file, index), 8 + |x.data|;
    assert index <= |file| && s[..n] == file[index..index + n];
  }

  /** The frame that the length word and the bytes behind it would make, if the checksum is theirs. */
  lemma {:induction false} SumMakesFrame<H, E>(f: Format<H, E>, s: seq<Byte>) returns (x: RawFrame)
    requires Complete(s) && FromLittleEndian(s[..4]) == f.crc(s[4..8 + FromLittleEndian(s[4..8]) / 4])
    ensures Starts(f, s, x)
  {
    var n := FromLittleEndian(s[4..8]);
    x := RawFrame(s[8..8 + n / 4], n % 2 == 1, n / 2 % 2 == 1);
    BytesRoundTrip(s[..4]);
    BytesRoundTrip(s[4..8]);
    Powers();
    assert Leading(|x.data|, x.headerBit, x.partialBit) == n;
    assert s[4..8] + x.data == s[4..8 + n / 4];
    assert s[..4] + s[4..8 + n / 4] == s[..8 + n / 4];
  }

  /** What is read at an index: a frame that starts there, nothing, or an error, and which of them the bytes decide. */
  lemma {:induction false} LeaderIsRead<H, E>(f: Format<H, E>, file: seq<Byte>, index: nat)
    requires ShortSums(f)
    ensures var s, r := Behind(file, index), ValidateLeader(f, index, file);
            && (!Complete(s) ==> r == Ok(None))
            && (Damaged(f, s) ==> r == Err(InvalidChecksum))
            && (forall x :: Starts(f, s, x) ==>
                  r == Ok(Some(Leader(x.headerBit, x.partialBit, index + 8, index + 8 + |x.data|)))
                  && file[index + 8..index + 8 + |x.data|] == x.data)
  {
    var s := Behind(file, index);
    forall x | Starts(f, s, x)
      ensures ValidateLeader(f, index, file)
              == Ok(Some(Leader(x.headerBit, x.partialBit, index + 8, index + 8 + |x.data|)))
      ensures file[index + 8..index + 8 + |x.data|] == x.data
    {
      StartsAt(f, file, index, x);
      FrameIsFound(f, file, index, x.data, x.headerBit, x.partialBit);
    }
    if |s| >= 8 {
      SliceBehind(file, index, 0, 4);
      SliceBehind(file, index, 4, 8);
      var n := FromLittleEndian(s[4..8]) / 4;
      if Complete(s) {
        SliceBehind(file, index, 4, 8 + n);
        if f.crc(s[4..8 + n]) == FromLittleEndian(s[..4]) {
          var x := SumMakesFrame(f, s);
        }
      }
    }
  }

  // ---------------------------------------------------------------- the scan

  function Framed<H, E>(f: Format<H, E>, xs: seq<RawFrame>): seq<Byte> {
    if xs == [] then [] else FrameOf(f, xs[0]) + Framed(f, xs[1..])
  }

  /** The bytes are these frames, and what is left does not start with another one. */
  ghost predicate Split<H, E>(f: Format<H, E>, s: seq<Byte>, xs: seq<RawFrame>, rest: seq<Byte>) {
    && s == Framed(f, xs) + rest && (forall i :: 0 <= i < |xs| ==> 0 < |xs[i].data| < 0x4000_0000)
    && forall x :: !Starts(f, rest, x)
  }

  lemma {:induction false} SplitCons<H, E>(f: Format<H, E>, s: seq<Byte>, x: RawFrame, xs: seq<RawFrame>,
                                           rest: seq<Byte>)
    requires Starts(f, s, x) && Split(f, s[8 + |x.data|..], xs, rest)
    ensures Split(f, s, [x] + xs, rest)
  {
    assert ([x] + xs)[1..] == xs;
    assert s == s[..8 + |x.data|] + s[8 + |x.data|..] == FrameOf(f, x) + (Framed(f, xs) + rest);
  }

  /** All bytes can be split that way. */
  lemma {:induction false} Splits<H, E>(f: Format<H, E>, s: seq<Byte>) returns (xs: seq<RawFrame>, rest: seq<Byte>)
    ensures Split(f, s, xs, rest)
    decreases |s|
  {
    if x :| Starts(f, s, x) {
      xs, rest := Splits(f, s[8 + |x.data|..]);
      SplitCons(f, s, x, xs, rest);
      xs := [x] + xs;
    } else {
      xs, rest := [], s;
    }
  }

  /** The frames' data, decoded. */
  ghost predicate Decodes<E>(c: RecordCodec<E>, xs: seq<RawFrame>, found: seq<Scanned<E>>) {
    && |found| == |xs|
    && forall i :: 0 <= i < |xs| ==> c.decode(xs[i].data) == Ok(found[i].entry) && found[i].partialBit == xs[i].partialBit
  }

  /** The first frame that cannot be decoded. */
  ghost predicate FailsAt<E>(c: RecordCodec<E>, xs: seq<RawFrame>, k: nat) {
    k < |xs| && c.decode(xs[k].data).Err? && forall i :: 0 <= i < k ==> c.decode(xs[i].data).Ok?
  }

  lemma {:induction false} SplitStep<H, E>(f: Format<H, E>, file: seq<Byte>, offset: nat, xs: seq<RawFrame>,
                                           rest: seq<Byte>)
    requires offset <= |file| && Split(f, file[offset..], xs, rest) && xs != []
    ensures Starts(f, file[offset..], xs[0])
    ensures var end := offset + 8 + |xs[0].data|; end <= |file| && Split(f, file[end..], xs[1..], rest)
  {
    var s, n := file[offset..], 8 + |xs[0].data|;
    assert s == FrameOf(f, xs[0]) + (Framed(f, xs[1..]) + rest);
    assert s[n..] == Framed(f, xs[1..]) + rest == file[offset + n..];
  }

  /** What a scan makes of its first frame and of what it finds behind it. */
  function Then<E>(e: Result<E>, partialBit: bool, more: Result<seq<Scanned<E>>>): Result<seq<Scanned<E>>> {
    if e.Err? then Err(e.error) else if more.Err? then more else Ok([Scanned(e.value, partialBit)] + more.value)
  }

  lemma {:induction false} ScanThen<H, E>(f: Format<H, E>, file: seq<Byte>, offset: nat, l: Leader)
    requires ValidateLeader(f, offset, file) == Ok(Some(l))
    ensures Scan(f, file, offset) == Then(f.entry.decode(file[l.start..l.end]), l.partialBit, Scan(f, file, l.end))
  {
  }

  /** From `offset` to `end` the leaders of these frames are found, one behind the other. */
  ghost predicate Led<H, E>(f: Format<H, E>, file: seq<Byte>, offset: nat, xs: seq<RawFrame>, end: nat)
    decreases |xs|
  {
    if xs == [] then offset == end
    else
      var next := offset + 8 + |xs[0].data|;
      && next <= |file| && file[offset + 8..next] == xs[0].data
      && ValidateLeader(f, offset, file) == Ok(Some(Leader(xs[0].headerBit, xs[0].partialBit, offset + 8, next)))
      && Led(f, file, next, xs[1..], end)
  }

  lemma {:induction false} FirstIsLed<H, E>(f: Format<H, E>, file: seq<Byte>, offset: nat, x: RawFrame)
    requires ShortSums(f) && offset <= |file| && Starts(f, file[offset..], x)
    ensures var next := offset + 8 + |x.data|;
            && next <= |file| && file[offset + 8..next] == x.data
            && ValidateLeader(f, offset, file) == Ok(Some(Leader(x.headerBit, x.partialBit, offset + 8, next)))
  {
    assert Behind(file, offset) == file[offset..];
    LeaderIsRead(f, file, offset);
  }

  lemma {:induction false} SplitIsLed<H, E>(f: Format<H, E>, file: seq<Byte>, offset: nat, xs: seq<RawFrame>,
                                            rest: seq<Byte>)
    requires ShortSums(f) && offset <= |file| && Split(f, file[offset..], xs, rest)
    ensures |rest| <= |file| && file[|file| - |rest|..] == rest && Led(f, file, offset, xs, |file| - |rest|)
    decreases |xs|
  {
    if xs == [] {
      assert file[offset..] == rest;
    } else {
      SplitStep(f, file, offset, xs, rest);
      FirstIsLed(f, file, offset, xs[0]);
      SplitIsLed(f, file, offset + 8 + |xs[0].data|, xs[1..], rest);
    }
  }

  lemma {:induction false} DecodesCons<E>(c: RecordCodec<E>, xs: seq<RawFrame>, found: seq<Scanned<E>>)
    requires Decodes(c, xs, found) && xs != []
    ensures Decodes(c, xs[1..], found[1..]) && c.decode(xs[0].data) == Ok(found[0].entry)
    ensures forall more :: [Scanned(found[0].entry, xs[0].partialBit)] + (found[1..] + more) == found + more
  {
  }

  lemma {:induction false} ScanLed<H, E>(f: Format<H, E>, file: seq<Byte>, offset: nat, xs: seq<RawFrame>, end: nat,
                                         found: seq<Scanned<E>>, last: Result<seq<Scanned<E>>>)
    requires Led(f, file, offset, xs, end) && Decodes(f.entry, xs, found) && Scan(f, file, end) == last
    ensures Scan(f, file, offset) == if last.Err? then last else Ok(found + last.value)
    decreases |xs|
  {
    if xs == [] {
      assert last.Ok? ==> found + last.value == last.value;
    } else {
      var next := offset + 8 + |xs[0].data|;
      DecodesCons(f.entry, xs, found);
      ScanLed(f, file, next, xs[1..], end, found[1..], last);
      ScanThen(f, file, offset, Leader(xs[0].headerBit, xs[0].partialBit, offset + 8, next));
    }
  }

  lemma {:induction false} RestIsRead<H, E>(f: Format<H, E>, file: seq<Byte>, offset: nat, rest: seq<Byte>)
    requires ShortSums(f) && offset <= |file| && file[offset..] == rest && forall x :: !Starts(f, rest, x)
    ensures Scan(f, file, offset) == if Complete(rest) then Err(InvalidChecksum) else Ok([])
  {
    assert Behind(file, offset) == rest;
    LeaderIsRead(f, file, offset);
  }

  /**
   Scanning any bytes whose frames can be decoded finds exactly the frames' entries, or reports the checksum of what
   follows them; a rest that ends too early is passed over.
   */
  lemma {:induction false} ScanFinds<H, E>(f: Format<H, E>, file: seq<Byte>, offset: nat, xs: seq<RawFrame>,
                                           rest: seq<Byte>, found: seq<Scanned<E>>)
    requires ShortSums(f) && offset <= |file| && Split(f, file[offset..], xs, rest) && Decodes(f.entry, xs, found)
    ensures Scan(f, file, offset) == if Complete(rest) then Err(InvalidChecksum) else Ok(found)
  {
    SplitIsLed(f, file, offset, xs, rest);
    RestIsRead(f, file, |file| - |rest|, rest);
    ScanLed(f, file, offset, xs, |file| - |rest|, found, if Complete(rest) then Err(InvalidChecksum) else Ok([]));
    assert found + [] == found;
  }

  /** A frame that cannot be decoded ends the scan. */
  lemma {:induction false} ScanFails<H, E>(f: Format<H, E>, file: seq<Byte>, offset: nat, xs: seq<RawFrame>, end: nat,
                                           k: nat)
    requires Led(f, file, offset, xs, end) && FailsAt(f.entry, xs, k)
    ensures Scan(f, file, offset) == Err(f.entry.decode(xs[k].data).error)
    decreases |xs|
  {
    var next := offset + 8 + |xs[0].data|;
    ScanThen(f, file, offset, Leader(xs[0].headerBit, xs[0].partialBit, offset + 8, next));
    if k > 0 {
      assert f.entry.decode(xs[0].data).Ok?;
      ScanFails(f, file, next, xs[1..], end, k - 1);
    }
  }

  /** Either all frames can be decoded or there is a first that cannot. */
  lemma {:induction false} DecodesOrFails<E>(c: RecordCodec<E>, xs: seq<RawFrame>)
    returns (found: Option<seq<Scanned<E>>>, k: nat)
    ensures if found.Some? then Decodes(c, xs, found.value) else FailsAt(c, xs, k)
  {
    k := 0;
    if xs == [] {
      found := Some([]);
    } else {
      var front, last := xs[..|xs| - 1], xs[|xs| - 1];
      found, k := DecodesOrFails(c, front);
      if found.Some? {
        var e := c.decode(last.data);
        if e.Ok? {
          found := Some(found.value + [Scanned(e.value, last.partialBit)]);
        } else {
          found, k := None, |front|;
        }
      }
    }
  }
}
