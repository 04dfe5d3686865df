/** The three passes over an entry: sizing it, writing it into a buffer of that size, and reading it. */
module Encoders {
  import opened Common
  import opened Encoding

  /** `now` is `was` with `bytes` written at `at`. */
  ghost predicate Written(was: seq<Byte>, now: seq<Byte>, at: nat, bytes: seq<Byte>) {
    at + |bytes| <= |was| && now == was[..at] + bytes + was[at + |bytes|..]
  }

  lemma {:induction false} WrittenThen(a: seq<Byte>, b: seq<Byte>, c: seq<Byte>, at: nat, x: seq<Byte>, y: seq<Byte>)
    requires Written(a, b, at, x) && Written(b, c, at + |x|, y)
    ensures Written(a, c, at, x + y)
  {
    assert b[..at + |x|] == a[..at] + x;
    assert b[at + |x| + |y|..] == a[at + |x| + |y|..];
  }

  /** The byte kept free in front is filled in last. */
  lemma {:induction false} WrittenFlags(a: seq<Byte>, b: seq<Byte>, at: nat, flags: Byte, x: seq<Byte>)
    requires at < |a| && Written(a, b, at + 1, x)
    ensures Written(a, b[at := flags], at, [flags] + x)
  {
    assert b[..at] == a[..at];
    assert b[at := flags] == b[..at] + [flags] + b[at + 1..];
    assert b[at + 1..] == x + a[at + 1 + |x|..];
  }

  lemma {:induction false} EncodeEachSnoc<T>(c: Codec<T>, xs: seq<T>, k: nat)
    requires k < |xs|
    ensures EncodeEach(c, xs[..k + 1]) == EncodeEach(c, xs[..k]) + c.encode(xs[k])
  {
    if k == 0 {
      assert xs[..1][1..] == [];
    } else {
      assert xs[..k + 1][1..] == xs[1..][..k] && xs[..k][1..] == xs[1..][..k - 1];
      EncodeEachSnoc(c, xs[1..], k - 1);
    }
  }

  // ---------------------------------------------------------------- preencode

  method PreencodeNodes(xs: seq<RawNode>) returns (end: nat)
    requires |xs| < 0x1_0000_0000_0000_0000
    ensures end == |EncodeSeq(NodeCodec(), xs)|
  {
    end := UintSize(|xs|);
    for k := 0 to |xs|
      invariant end == UintSize(|xs|) + |EncodeEach(NodeCodec(), xs[..k])|
    {
      EncodeEachSnoc(NodeCodec(), xs, k);
      end := end + UintSize(xs[k].index) + UintSize(xs[k].length) + 32;
    }
    assert xs[..|xs|] == xs;
  }

  method PreencodeUserData(xs: seq<Bytes>) returns (end: nat)
    requires |xs| < 0x1_0000_0000_0000_0000
    ensures end == |EncodeSeq(BytesCodec(), xs)|
  {
    end := UintSize(|xs|);
    for k := 0 to |xs|
      invariant end == UintSize(|xs|) + |EncodeEach(BytesCodec(), xs[..k])|
    {
      EncodeEachSnoc(BytesCodec(), xs, k);
      end := end + UintSize(|xs[k]|) + |xs[k]|;
    }
    assert xs[..|xs|] == xs;
  }

  /** The space that `preencode` reserves is exactly what `encode` fills. */
  method Preencode(e: RawEntry) returns (end: nat)
    requires Countable(e)
    ensures end == |EncodeEntry(e)|
  {
    end := 1;
    if e.userData != [] {
      var size := PreencodeUserData(e.userData);
      end := end + size;
    }
    if e.nodes != [] {
      var size := PreencodeNodes(e.nodes);
      end := end + size;
    }
    if e.upgrade.Some? {
      var u := e.upgrade.value;
      end := end + UintSize(u.fork) + UintSize(u.ancestors) + UintSize(u.length) + UintSize(|u.signature|) + |u.signature|;
    }
    if e.bitfield.Some? {
      end := end + 1 + UintSize(e.bitfield.value.start) + UintSize(e.bitfield.value.length);
    }
  }

  // ---------------------------------------------------------------- encode

  /** Everything but the flags. */
  function Parts(e: RawEntry): seq<Byte>
    requires Countable(e)
  {
    Lists(e) + Options(e)
  }

  function Lists(e: RawEntry): seq<Byte>
    requires Countable(e)
  {
    UserDataPart(e) + NodesPart(e)
  }

  function Options(e: RawEntry): seq<Byte> {
    UpgradePart(e) + BitfieldPart(e)
  }

  lemma {:induction false} EntryIs(e: RawEntry)
    requires Countable(e)
    ensures EncodeEntry(e) == [Flags(e)] + Parts(e)
  {
    Regroup(Flags(e), UserDataPart(e), NodesPart(e), UpgradePart(e), BitfieldPart(e));
  }

  lemma {:induction false} Regroup(f: Byte, a: seq<Byte>, b: seq<Byte>, c: seq<Byte>, d: seq<Byte>)
    ensures [f] + a + b + c + d == [f] + ((a + b) + (c + d))
  {
  }

  /** A cursor over a buffer. */
  class Encoder {
    const buffer: array<Byte>
    var start: nat

    constructor (buffer: array<Byte>, start: nat)
      ensures this.buffer == buffer && this.start == start
    {
      this.buffer, this.start := buffer, start;
    }

    method Put(bytes: seq<Byte>)
      requires start + |bytes| <= buffer.Length
      modifies this`start, buffer
      ensures start == old(start) + |bytes| && Written(old(buffer[..]), buffer[..], old(start), bytes)
    {
      var at := start;
      for k := 0 to |bytes|
        invariant start == at
        invariant forall i :: 0 <= i < buffer.Length ==>
                    buffer[i] == if at <= i < at + k then bytes[i - at] else old(buffer[i])
      {
        buffer[at + k] := bytes[k];
      }
      start := start + |bytes|;
    }

    method PutEach<T>(c: Codec<T>, xs: seq<T>)
      requires start + |EncodeEach(c, xs)| <= buffer.Length
      modifies this`start, buffer
      ensures start == old(start) + |EncodeEach(c, xs)|
      ensures Written(old(buffer[..]), buffer[..], old(start), EncodeEach(c, xs))
    {
      ghost var was, at := buffer[..], start;
      for k := 0 to |xs|
        invariant start == at + |EncodeEach(c, xs[..k])|
        invariant Written(was, buffer[..], at, EncodeEach(c, xs[..k]))
      {
        EncodeEachSnoc(c, xs, k);
        EncodeEachPrefix(c, xs, k + 1);
        ghost var mid := buffer[..];
        Put(c.encode(xs[k]));
        WrittenThen(was, mid, buffer[..], at, EncodeEach(c, xs[..k]), c.encode(xs[k]));
      }
      assert xs[..|xs|] == xs;
    }

    method PutSeq<T>(c: Codec<T>, xs: seq<T>)
      requires |xs| < 0x1_0000_0000_0000_0000 && start + |EncodeSeq(c, xs)| <= buffer.Length
      modifies this`start, buffer
      ensures start == old(start) + |EncodeSeq(c, xs)|
      ensures Written(old(buffer[..]), buffer[..], old(start), EncodeSeq(c, xs))
    {
      ghost var was := buffer[..];
      Put(EncodeUint(|xs|));
      ghost var mid := buffer[..];
      PutEach(c, xs);
      WrittenThen(was, mid, buffer[..], old(start), EncodeUint(|xs|), EncodeEach(c, xs));
    }

    /** `encode`: the parts that are there, then the flags in the byte kept free for them. */
    method PutEntry(e: RawEntry)
      requires Countable(e) && start + |EncodeEntry(e)| <= buffer.Length
      modifies this`start, buffer
      ensures start == old(start) + |EncodeEntry(e)|
      ensures Written(old(buffer[..]), buffer[..], old(start), EncodeEntry(e))
    {
      var at := start;
      ghost var was := buffer[..];
      EntryIs(e);
      start := start + 1;
      var flags := PutParts(e);
      ghost var mid := buffer[..];
      WrittenFlags(was, mid, at, flags, Parts(e));
      buffer[at] := flags;
      assert buffer[..] == mid[at := flags];
    }

    method PutParts(e: RawEntry) returns (flags: Byte)
      requires Countable(e) && start + |Parts(e)| <= buffer.Length
      modifies this`start, buffer
      ensures start == old(start) + |Parts(e)| && flags == Flags(e)
      ensures Written(old(buffer[..]), buffer[..], old(start), Parts(e))
    {
      ghost var was, at := buffer[..], start;
      var lists := PutLists(e);
      ghost var mid := buffer[..];
      var options := PutOptions(e);
      WrittenThen(was, mid, buffer[..], at, Lists(e), Options(e));
      flags := lists + options;
    }

    method PutLists(e: RawEntry) returns (flags: Byte)
      requires Countable(e) && start + |Lists(e)| <= buffer.Length
      modifies this`start, buffer
      ensures start == old(start) + |Lists(e)|
      ensures Written(old(buffer[..]), buffer[..], old(start), Lists(e))
      ensures flags == (if e.userData != [] then 1 else 0) + (if e.nodes != [] then 2 else 0)
    {
      var userDataFlag := PutUserData(e);
      ghost var mid := buffer[..];
      var nodesFlag := PutNodes(e);
      WrittenThen(old(buffer[..]), mid, buffer[..], old(start), UserDataPart(e), NodesPart(e));
      flags := userDataFlag + nodesFlag;
    }

    method PutUserData(e: RawEntry) returns (flag: Byte)
      requires Countable(e) && start + |UserDataPart(e)| <= buffer.Length
      modifies this`start, buffer
      ensures start == old(start) + |UserDataPart(e)|
              && Written(old(buffer[..]), buffer[..], old(start), UserDataPart(e))
      ensures flag == if e.userData != [] then 1 else 0
    {
      flag := 0;
      if e.userData != [] {
        flag := 1;
        PutSeq(BytesCodec(), e.userData);
      }
    }

    method PutNodes(e: RawEntry) returns (flag: Byte)
      requires Countable(e) && start + |NodesPart(e)| <= buffer.Length
      modifies this`start, buffer
      ensures start == old(start) + |NodesPart(e)| && Written(old(buffer[..]), buffer[..], old(start), NodesPart(e))
      ensures flag == if e.nodes != [] then 2 else 0
    {
      flag := 0;
      if e.nodes != [] {
        flag := 2;
        PutSeq(NodeCodec(), e.nodes);
      }
    }

    method PutOptions(e: RawEntry) returns (flags: Byte)
      requires start + |Options(e)| <= buffer.Length
      modifies this`start, buffer
      ensures start == old(start) + |Options(e)|
      ensures Written(old(buffer[..]), buffer[..], old(start), Options(e))
      ensures flags == (if e.upgrade.Some? then 4 else 0) + (if e.bitfield.Some? then 8 else 0)
    {
      var upgradeFlag := PutUpgrade(e);
      ghost var mid := buffer[..];
      var bitfieldFlag := PutBitfield(e);
      WrittenThen(old(buffer[..]), mid, buffer[..], old(start), UpgradePart(e), BitfieldPart(e));
      flags := upgradeFlag + bitfieldFlag;
    }

    method PutUpgrade(e: RawEntry) returns (flag: Byte)
      requires start + |UpgradePart(e)| <= buffer.Length
      modifies this`start, buffer
      ensures start == old(start) + |UpgradePart(e)| && Written(old(buffer[..]), buffer[..], old(start), UpgradePart(e))
      ensures flag == if e.upgrade.Some? then 4 else 0
    {
      flag := 0;
      if e.upgrade.Some? {
        flag := 4;
        Put(EncodeUpgrade(e.upgrade.value));
      }
    }

    method PutBitfield(e: RawEntry) returns (flag: Byte)
      requires start + |BitfieldPart(e)| <= buffer.Length
      modifies this`start, buffer
      ensures start == old(start) + |BitfieldPart(e)|
              && Written(old(buffer[..]), buffer[..], old(start), BitfieldPart(e))
      ensures flag == if e.bitfield.Some? then 8 else 0
    {
      flag := 0;
      if e.bitfield.Some? {
        flag := 8;
        Put(EncodeBitfield(e.bitfield.value));
      }
    }
  }

  lemma {:induction false} EncodeEachPrefix<T>(c: Codec<T>, xs: seq<T>, k: nat)
    requires k <= |xs|
    ensures |EncodeEach(c, xs[..k])| <= |EncodeEach(c, xs)|
  {
    if k > 0 {
      assert xs[..k][1..] == xs[1..][..k - 1];
      EncodeEachPrefix(c, xs[1..], k - 1);
    }
  }

  // ---------------------------------------------------------------- decode

  /** What is read in all when `front` has been read already. */
  function Ahead<T>(front: seq<T>, r: Result<Decoded<seq<T>>>): Result<Decoded<seq<T>>> {
    if r.Err? then r else Ok(Decoded(front + r.value.value, r.value.rest))
  }

  lemma {:induction false} AheadOfNothing<T>(r: Result<Decoded<seq<T>>>, front: seq<T>, rest: seq<Byte>)
    ensures Ahead([], r) == r && Ahead(front, Ok(Decoded([], rest))) == Ok(Decoded(front, rest))
  {
    if r.Ok? {
      assert [] + r.value.value == r.value.value;
    }
    assert front + [] == front;
  }

  lemma {:induction false} AheadOne<T>(c: Codec<T>, front: seq<T>, count: nat, s: seq<Byte>)
    requires count > 0 && c.decode(s).Ok?
    ensures var x := c.decode(s).value;
            Ahead(front, DecodeEach(c, count, s)) == Ahead(front + [x.value], DecodeEach(c, count - 1, x.rest))
  {
    var x := c.decode(s).value;
    var tail := DecodeEach(c, count - 1, x.rest);
    if tail.Ok? {
      assert front + ([x.value] + tail.value.value) == front + [x.value] + tail.value.value;
    }
  }

  /** The loop that reads a counted sequence. */
  method GetEach<T>(c: Codec<T>, count: nat, s: seq<Byte>) returns (r: Result<Decoded<seq<T>>>)
    ensures r == DecodeEach(c, count, s)
  {
    var values, rest := [], s;
    AheadOfNothing(DecodeEach(c, count, s), [], s);
    for k := 0 to count
      invariant DecodeEach(c, count, s) == Ahead(values, DecodeEach(c, count - k, rest))
    {
      var x := c.decode(rest);
      if x.Err? {
        return Err(x.error);
      }
      AheadOne(c, values, count - k, rest);
      values, rest := values + [x.value.value], x.value.rest;
    }
    AheadOfNothing(DecodeEach(c, count, s), values, rest);
    return Ok(Decoded(values, rest));
  }
}
