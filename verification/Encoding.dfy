/**
 Byte encodings of oplog entries (src/oplog/entry.rs, src/encoding.rs) over the
 compact-encoding primitives: variable-length integers and length-prefixed byte strings.
 Decoders take the bytes from the cursor on and hand back the bytes after it.
 */
module Encoding {
  import opened Common

  type U64 = n: nat | n < 0x1_0000_0000_0000_0000
  type Digest = s: seq<Byte> | |s| == 32 witness seq(32, _ => 0)

  datatype Decoded<+T> = Decoded(value: T, rest: seq<Byte>)

  // ---------------------------------------------------------------- integers

  function Pow256(k: nat): nat {
    if k == 0 then 1 else 256 * Pow256(k - 1)
  }

  function LittleEndian(n: nat, k: nat): (s: seq<Byte>)
    ensures |s| == k
  {
    if k == 0 then [] else [n % 256] + LittleEndian(n / 256, k - 1)
  }

  function FromLittleEndian(s: seq<Byte>): (n: nat)
    ensures n < Pow256(|s|)
  {
    if s == [] then 0 else s[0] + 256 * FromLittleEndian(s[1..])
  }

  lemma {:induction false} LittleEndianRoundTrip(n: nat, k: nat)
    requires n < Pow256(k)
    ensures FromLittleEndian(LittleEndian(n, k)) == n
  {
    if k > 0 {
      LittleEndianRoundTrip(n / 256, k - 1);
      assert LittleEndian(n, k)[1..] == LittleEndian(n / 256, k - 1);
    }
  }

  lemma {:induction false} Powers()
    ensures Pow256(2) == 0x1_0000 && Pow256(4) == 0x1_0000_0000 && Pow256(8) == 0x1_0000_0000_0000_0000
  {
    assert Pow256(4) == 256 * (256 * Pow256(2));
    assert Pow256(8) == 256 * (256 * (256 * (256 * Pow256(4))));
  }

  /** The bytes that an integer takes. */
  function UintSize(n: nat): (k: nat)
    ensures k > 0
  {
    if n < 0xfd then 1 else if n <= 0xffff then 3 else if n <= 0xffff_ffff then 5 else 9
  }

  function EncodeUint(n: U64): (s: seq<Byte>)
    ensures |s| == UintSize(n)
  {
    if n < 0xfd then [n]
    else if n <= 0xffff then [0xfd] + LittleEndian(n, 2)
    else if n <= 0xffff_ffff then [0xfe] + LittleEndian(n, 4)
    else [0xff] + LittleEndian(n, 8)
  }

  /** The number of bytes that a first byte of 0xfd, 0xfe or 0xff announces. */
  function UintWidth(b: Byte): nat {
    if b < 0xfd then 0 else if b == 0xfd then 2 else if b == 0xfe then 4 else 8
  }

  function DecodeUint(s: seq<Byte>): Result<Decoded<U64>> {
    if s == [] then Err(InvalidEncoding)
    else
      var k := UintWidth(s[0]);
      if |s| < 1 + k then Err(InvalidEncoding)
      else if k == 0 then Ok(Decoded(s[0], s[1..]))
      else Powers(); Ok(Decoded(FromLittleEndian(s[1..1 + k]), s[1 + k..]))
  }

  lemma {:induction false} UintRoundTrip(n: U64, rest: seq<Byte>)
    ensures DecodeUint(EncodeUint(n) + rest) == Ok(Decoded(n, rest))
  {
    var s := EncodeUint(n) + rest;
    var k := |EncodeUint(n)| - 1;
    assert s[1 + k..] == rest;
    if k > 0 {
      Powers();
      LittleEndianRoundTrip(n, k);
      assert s[1..1 + k] == LittleEndian(n, k);
    }
  }

  // ---------------------------------------------------------------- byte strings

  function TakeBytes(s: seq<Byte>, k: nat): Result<Decoded<seq<Byte>>> {
    if |s| < k then Err(InvalidEncoding) else Ok(Decoded(s[..k], s[k..]))
  }

  lemma {:induction false} TakeBytesBack(b: seq<Byte>, rest: seq<Byte>)
    ensures TakeBytes(b + rest, |b|) == Ok(Decoded(b, rest))
  {
    assert (b + rest)[..|b|] == b && (b + rest)[|b|..] == rest;
  }

  /** Byte strings short enough to have their length encoded. */
  type Bytes = s: seq<Byte> | |s| < 0x1_0000_0000_0000_0000

  function EncodeBytes(b: Bytes): seq<Byte> {
    EncodeUint(|b|) + b
  }

  function DecodeBytes(s: seq<Byte>): Result<Decoded<Bytes>> {
    var n := DecodeUint(s);
    if n.Err? then Err(n.error)
    else
      var b := TakeBytes(n.value.rest, n.value.value);
      if b.Err? then Err(b.error) else Ok(Decoded(b.value.value, b.value.rest))
  }

  lemma {:induction false} BytesRoundTrip(b: Bytes, rest: seq<Byte>)
    ensures DecodeBytes(EncodeBytes(b) + rest) == Ok(Decoded(b, rest))
  {
    assert EncodeBytes(b) + rest == EncodeUint(|b|) + (b + rest);
    UintRoundTrip(|b|, b + rest);
    TakeBytesBack(b, rest);
  }

  // ---------------------------------------------------------------- sequences

  /** A codec of one element: how it is written and how it is read back. */
  datatype Codec<!T> = Codec(encode: T -> seq<Byte>, decode: seq<Byte> -> Result<Decoded<T>>)

  ghost predicate Lawful<T(!new)>(c: Codec<T>) {
    forall x: T, rest: seq<Byte> :: c.decode(c.encode(x) + rest) == Ok(Decoded(x, rest))
  }

  function EncodeEach<T>(c: Codec<T>, xs: seq<T>): seq<Byte> {
    if xs == [] then [] else c.encode(xs[0]) + EncodeEach(c, xs[1..])
  }

  function DecodeEach<T>(c: Codec<T>, count: nat, s: seq<Byte>): (r: Result<Decoded<seq<T>>>)
    ensures r.Ok? ==> |r.value.value| == count
  {
    if count == 0 then Ok(Decoded([], s))
    else
      var x := c.decode(s);
      if x.Err? then Err(x.error)
      else
        var xs := DecodeEach(c, count - 1, x.value.rest);
        if xs.Err? then Err(xs.error) else Ok(Decoded([x.value.value] + xs.value.value, xs.value.rest))
  }

  lemma {:induction false} EachRoundTrip<T(!new)>(c: Codec<T>, xs: seq<T>, rest: seq<Byte>)
    requires Lawful(c)
    ensures DecodeEach(c, |xs|, EncodeEach(c, xs) + rest) == Ok(Decoded(xs, rest))
  {
    if xs != [] {
      var tail := EncodeEach(c, xs[1..]) + rest;
      assert EncodeEach(c, xs) + rest == c.encode(xs[0]) + tail;
      EachRoundTrip(c, xs[1..], rest);
      assert [xs[0]] + xs[1..] == xs;
    } else {
      assert EncodeEach(c, xs) + rest == rest;
    }
  }

  /** A count, then the elements. */
  function EncodeSeq<T>(c: Codec<T>, xs: seq<T>): seq<Byte>
    requires |xs| < 0x1_0000_0000_0000_0000
  {
    EncodeUint(|xs|) + EncodeEach(c, xs)
  }

  function DecodeSeq<T>(c: Codec<T>, s: seq<Byte>): (r: Result<Decoded<seq<T>>>)
    ensures r.Ok? ==> |r.value.value| < 0x1_0000_0000_0000_0000
  {
    var n := DecodeUint(s);
    if n.Err? then Err(n.error) else DecodeEach(c, n.value.value, n.value.rest)
  }

  lemma {:induction false} SeqRoundTrip<T(!new)>(c: Codec<T>, xs: seq<T>, rest: seq<Byte>)
    requires Lawful(c) && |xs| < 0x1_0000_0000_0000_0000
    ensures DecodeSeq(c, EncodeSeq(c, xs) + rest) == Ok(Decoded(xs, rest))
  {
    assert EncodeSeq(c, xs) + rest == EncodeUint(|xs|) + (EncodeEach(c, xs) + rest);
    UintRoundTrip(|xs|, EncodeEach(c, xs) + rest);
    EachRoundTrip(c, xs, rest);
  }

  // ---------------------------------------------------------------- nodes

  datatype RawNode = RawNode(index: U64, length: U64, hash: Digest)

  function EncodeNode(x: RawNode): seq<Byte> {
    EncodeUint(x.index) + EncodeUint(x.length) + x.hash
  }

  function DecodeNode(s: seq<Byte>): Result<Decoded<RawNode>> {
    var index := DecodeUint(s);
    if index.Err? then Err(index.error)
    else
      var length := DecodeUint(index.value.rest);
      if length.Err? then Err(length.error)
      else
        var hash := TakeBytes(length.value.rest, 32);
        if hash.Err? then Err(hash.error)
        else Ok(Decoded(RawNode(index.value.value, length.value.value, hash.value.value), hash.value.rest))
  }

  function NodeCodec(): Codec<RawNode> {
    Codec(EncodeNode, DecodeNode)
  }

  lemma {:induction false} NodeRoundTrip(x: RawNode, rest: seq<Byte>)
    ensures DecodeNode(EncodeNode(x) + rest) == Ok(Decoded(x, rest))
  {
    var tail := x.hash + rest;
    assert EncodeNode(x) + rest == EncodeUint(x.index) + (EncodeUint(x.length) + tail);
    UintRoundTrip(x.index, EncodeUint(x.length) + tail);
    UintRoundTrip(x.length, tail);
    TakeBytesBack(x.hash, rest);
  }

  lemma {:induction false} NodeCodecLawful()
    ensures Lawful(NodeCodec())
  {
    forall x: RawNode, rest: seq<Byte>
      ensures NodeCodec().decode(NodeCodec().encode(x) + rest) == Ok(Decoded(x, rest))
    {
      NodeRoundTrip(x, rest);
    }
  }

  function BytesCodec(): Codec<Bytes> {
    Codec(EncodeBytes, DecodeBytes)
  }

  lemma {:induction false} BytesCodecLawful()
    ensures Lawful(BytesCodec())
  {
    forall b: Bytes, rest: seq<Byte>
      ensures BytesCodec().decode(BytesCodec().encode(b) + rest) == Ok(Decoded(b, rest))
    {
      BytesRoundTrip(b, rest);
    }
  }

  // ---------------------------------------------------------------- entries

  datatype RawUpgrade = RawUpgrade(fork: U64, ancestors: U64, length: U64, signature: Bytes)

  datatype RawBitfield = RawBitfield(drop: bool, start: U64, length: U64)

  datatype RawEntry = RawEntry(userData: seq<Bytes>, nodes: seq<RawNode>, upgrade: Option<RawUpgrade>,
                               bitfield: Option<RawBitfield>)

  /** The counts can be encoded. */
  predicate Countable(e: RawEntry) {
    |e.userData| < 0x1_0000_0000_0000_0000 && |e.nodes| < 0x1_0000_0000_0000_0000
  }

  function EncodeUpgrade(u: RawUpgrade): seq<Byte> {
    EncodeUint(u.fork) + EncodeUint(u.ancestors) + EncodeUint(u.length) + EncodeBytes(u.signature)
  }

  function DecodeUpgrade(s: seq<Byte>): Result<Decoded<RawUpgrade>> {
    var fork := DecodeUint(s);
    if fork.Err? then Err(fork.error)
    else
      var ancestors := DecodeUint(fork.value.rest);
      if ancestors.Err? then Err(ancestors.error)
      else
        var length := DecodeUint(ancestors.value.rest);
        if length.Err? then Err(length.error)
        else
          var signature := DecodeBytes(length.value.rest);
          if signature.Err? then Err(signature.error)
          else Ok(Decoded(RawUpgrade(fork.value.value, ancestors.value.value, length.value.value,
                                     signature.value.value),
                          signature.value.rest))
  }

  lemma {:induction false} UpgradeRoundTrip(u: RawUpgrade, rest: seq<Byte>)
    ensures DecodeUpgrade(EncodeUpgrade(u) + rest) == Ok(Decoded(u, rest))
  {
    var t1 := EncodeBytes(u.signature) + rest;
    var t2 := EncodeUint(u.length) + t1;
    var t3 := EncodeUint(u.ancestors) + t2;
    assert EncodeUpgrade(u) + rest == EncodeUint(u.fork) + t3;
    UintRoundTrip(u.fork, t3);
    UintRoundTrip(u.ancestors, t2);
    UintRoundTrip(u.length, t1);
    BytesRoundTrip(u.signature, rest);
  }

  function EncodeBitfield(b: RawBitfield): seq<Byte> {
    [if b.drop then 1 else 0] + EncodeUint(b.start) + EncodeUint(b.length)
  }

  function DecodeBitfield(s: seq<Byte>): Result<Decoded<RawBitfield>> {
    if s == [] then Err(InvalidEncoding)
    else
      var start := DecodeUint(s[1..]);
      if start.Err? then Err(start.error)
      else
        var length := DecodeUint(start.value.rest);
        if length.Err? then Err(length.error)
        else Ok(Decoded(RawBitfield(s[0] == 1, start.value.value, length.value.value), length.value.rest))
  }

  lemma {:induction false} BitfieldRoundTrip(b: RawBitfield, rest: seq<Byte>)
    ensures DecodeBitfield(EncodeBitfield(b) + rest) == Ok(Decoded(b, rest))
  {
    var tail := EncodeUint(b.length) + rest;
    var s := EncodeBitfield(b) + rest;
    assert s[1..] == EncodeUint(b.start) + tail;
    UintRoundTrip(b.start, tail);
    UintRoundTrip(b.length, rest);
  }

  function Flags(e: RawEntry): Byte {
    (if e.userData != [] then 1 else 0) + (if e.nodes != [] then 2 else 0)
    + (if e.upgrade.Some? then 4 else 0) + (if e.bitfield.Some? then 8 else 0)
  }

  predicate Flag(flags: Byte, mask: nat)
    requires mask > 0
  {
    flags / mask % 2 == 1
  }

  lemma {:induction false} FlagsTell(e: RawEntry)
    ensures Flag(Flags(e), 1) <==> e.userData != []
    ensures Flag(Flags(e), 2) <==> e.nodes != []
    ensures Flag(Flags(e), 4) <==> e.upgrade.Some?
    ensures Flag(Flags(e), 8) <==> e.bitfield.Some?
  {
  }

  /** The four parts of an entry, each present only if its flag is set. */
  function UserDataPart(e: RawEntry): seq<Byte>
    requires Countable(e)
  {
    if e.userData != [] then EncodeSeq(BytesCodec(), e.userData) else []
  }

  function NodesPart(e: RawEntry): seq<Byte>
    requires Countable(e)
  {
    if e.nodes != [] then EncodeSeq(NodeCodec(), e.nodes) else []
  }

  function UpgradePart(e: RawEntry): seq<Byte> {
    if e.upgrade.Some? then EncodeUpgrade(e.upgrade.value) else []
  }

  function BitfieldPart(e: RawEntry): seq<Byte> {
    if e.bitfield.Some? then EncodeBitfield(e.bitfield.value) else []
  }

  function EncodeEntry(e: RawEntry): (s: seq<Byte>)
    requires Countable(e)
    ensures s != []
  {
    [Flags(e)] + UserDataPart(e) + NodesPart(e) + UpgradePart(e) + BitfieldPart(e)
  }

  /** Small integers are their own byte; longer ones have a marker and come low byte first. */
  lemma {:induction false} IntegersAreBytes()
    ensures EncodeUint(0xfc) == [0xfc] && EncodeUint(0x0102) == [0xfd, 0x02, 0x01]
    ensures EncodeUint(0x01020304) == [0xfe, 0x04, 0x03, 0x02, 0x01]
  {
    assert LittleEndian(0x0102, 2) == [0x02] + LittleEndian(0x01, 1);
    assert LittleEndian(0x01020304, 4) == [0x04, 0x03] + LittleEndian(0x0102, 2);
  }

  /** An entry with every part, byte by byte. */
  lemma {:induction false} EntryIsBytes(hash: Digest)
    ensures EncodeEntry(RawEntry([[0x61]], [RawNode(2, 3, hash)], Some(RawUpgrade(4, 5, 6, [0x62])),
                                 Some(RawBitfield(true, 7, 8))))
            == [0x0f] + [0x01, 0x01, 0x61] + ([0x01, 0x02, 0x03] + hash) + [0x04, 0x05, 0x06, 0x01, 0x62]
               + [0x01, 0x07, 0x08]
  {
    var node := RawNode(2, 3, hash);
    assert EncodeEach(BytesCodec(), [[0x61]]) == EncodeBytes([0x61]) + EncodeEach(BytesCodec(), []);
    assert EncodeEach(NodeCodec(), [node]) == EncodeNode(node) + EncodeEach(NodeCodec(), []);
    assert EncodeSeq(BytesCodec(), [[0x61]]) == [0x01, 0x01, 0x61];
    assert EncodeSeq(NodeCodec(), [node]) == [0x01, 0x02, 0x03] + hash;
  }

  function DecodeUserDataPart(flags: Byte, s: seq<Byte>): Result<Decoded<seq<Bytes>>> {
    if Flag(flags, 1) then DecodeSeq(BytesCodec(), s) else Ok(Decoded([], s))
  }

  function DecodeNodesPart(flags: Byte, s: seq<Byte>): Result<Decoded<seq<RawNode>>> {
    if Flag(flags, 2) then DecodeSeq(NodeCodec(), s) else Ok(Decoded([], s))
  }

  function Present<T>(r: Result<Decoded<T>>): Result<Decoded<Option<T>>> {
    if r.Err? then Err(r.error) else Ok(Decoded(Some(r.value.value), r.value.rest))
  }

  function DecodeUpgradePart(flags: Byte, s: seq<Byte>): Result<Decoded<Option<RawUpgrade>>> {
    if Flag(flags, 4) then Present(DecodeUpgrade(s)) else Ok(Decoded(None, s))
  }

  function DecodeBitfieldPart(flags: Byte, s: seq<Byte>): Result<Decoded<Option<RawBitfield>>> {
    if Flag(flags, 8) then Present(DecodeBitfield(s)) else Ok(Decoded(None, s))
  }

  function DecodeEntry(s: seq<Byte>): (r: Result<Decoded<RawEntry>>)
    ensures r.Ok? ==> Countable(r.value.value)
  {
    if s == [] then Err(InvalidEncoding)
    else
      var userData := DecodeUserDataPart(s[0], s[1..]);
      if userData.Err? then Err(userData.error)
      else
        var nodes := DecodeNodesPart(s[0], userData.value.rest);
        if nodes.Err? then Err(nodes.error)
        else
          var upgrade := DecodeUpgradePart(s[0], nodes.value.rest);
          if upgrade.Err? then Err(upgrade.error)
          else
            var bitfield := DecodeBitfieldPart(s[0], upgrade.value.rest);
            if bitfield.Err? then Err(bitfield.error)
            else
              Ok(Decoded(RawEntry(userData.value.value, nodes.value.value, upgrade.value.value, bitfield.value.value),
                         bitfield.value.rest))
  }

  lemma {:induction false} ListsRoundTrip(e: RawEntry, rest: seq<Byte>)
    requires Countable(e)
    ensures DecodeUserDataPart(Flags(e), UserDataPart(e) + rest) == Ok(Decoded(e.userData, rest))
    ensures DecodeNodesPart(Flags(e), NodesPart(e) + rest) == Ok(Decoded(e.nodes, rest))
  {
    FlagsTell(e);
    assert [] + rest == rest;
    if e.userData != [] {
      BytesCodecLawful();
      SeqRoundTrip(BytesCodec(), e.userData, rest);
    }
    if e.nodes != [] {
      NodeCodecLawful();
      SeqRoundTrip(NodeCodec(), e.nodes, rest);
    }
  }

  lemma {:induction false} OptionsRoundTrip(e: RawEntry, rest: seq<Byte>)
    ensures DecodeUpgradePart(Flags(e), UpgradePart(e) + rest) == Ok(Decoded(e.upgrade, rest))
    ensures DecodeBitfieldPart(Flags(e), BitfieldPart(e) + rest) == Ok(Decoded(e.bitfield, rest))
  {
    FlagsTell(e);
    assert [] + rest == rest;
    if e.upgrade.Some? {
      UpgradeRoundTrip(e.upgrade.value, rest);
    }
    if e.bitfield.Some? {
      BitfieldRoundTrip(e.bitfield.value, rest);
    }
  }

  lemma {:induction false} DecodeEntryInSteps(s: seq<Byte>, e: RawEntry, r1: seq<Byte>, r2: seq<Byte>, r3: seq<Byte>,
                                              r4: seq<Byte>)
    requires s != []
    requires DecodeUserDataPart(s[0], s[1..]) == Ok(Decoded(e.userData, r1))
    requires DecodeNodesPart(s[0], r1) == Ok(Decoded(e.nodes, r2))
    requires DecodeUpgradePart(s[0], r2) == Ok(Decoded(e.upgrade, r3))
    requires DecodeBitfieldPart(s[0], r3) == Ok(Decoded(e.bitfield, r4))
    ensures DecodeEntry(s) == Ok(Decoded(e, r4))
  {
  }

  lemma {:induction false} EntryParts(flags: Byte, a: seq<Byte>, b: seq<Byte>, c: seq<Byte>, d: seq<Byte>,
                                      rest: seq<Byte>)
    ensures var s := [flags] + a + b + c + d + rest; s[0] == flags && s[1..] == a + (b + (c + (d + rest)))
  {
  }

  /** Reading back an entry gives it exactly, and leaves what follows. */
  lemma {:induction false} EntryRoundTrip(e: RawEntry, rest: seq<Byte>)
    requires Countable(e)
    ensures DecodeEntry(EncodeEntry(e) + rest) == Ok(Decoded(e, rest))
  {
    var t4 := BitfieldPart(e) + rest;
    var t3 := UpgradePart(e) + t4;
    var t2 := NodesPart(e) + t3;
    EntryParts(Flags(e), UserDataPart(e), NodesPart(e), UpgradePart(e), BitfieldPart(e), rest);
    ListsRoundTrip(e, t2);
    ListsRoundTrip(e, t3);
    OptionsRoundTrip(e, t4);
    OptionsRoundTrip(e, rest);
    DecodeEntryInSteps(EncodeEntry(e) + rest, e, t2, t3, t4, rest);
  }
}
