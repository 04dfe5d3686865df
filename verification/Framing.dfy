/** Entries as they are logged: framed in one buffer, and read back by the oplog. */
module Framing {
  import opened Common
  import opened FlatTree
  import opened Hashes
  import opened Storage
  import Encoding
  import opened HeaderEncoding
  import opened Encoders
  import opened Oplogs

  type LoggedEntry = e: Encoding.RawEntry | Encoding.Countable(e) witness Encoding.RawEntry([], [], None, None)

  function DecodeLogged(s: seq<Byte>): Result<LoggedEntry> {
    var r := Encoding.DecodeEntry(s);
    if r.Err? then Err(r.error) else Ok(r.value.value)
  }

  /** The codec of src/oplog/entry.rs as the oplog uses it. */
  function EntryCodec(): RecordCodec<LoggedEntry> {
    RecordCodec((e: LoggedEntry) => Encoding.EncodeEntry(e), DecodeLogged)
  }

  lemma {:induction false} EntryCodecReadsBack()
    ensures ReadsBack(EntryCodec())
  {
    forall e: LoggedEntry
      ensures EntryCodec().encode(e) != [] && EntryCodec().decode(EntryCodec().encode(e)) == Ok(e)
    {
      var s := Encoding.EncodeEntry(e);
      Encoding.EntryRoundTrip(e, []);
      assert s + [] == s;
    }
  }

  // ---------------------------------------------------------------- building a frame

  lemma {:induction false} FrameFromParts<H, E>(f: Format<H, E>, a: seq<Byte>, b: seq<Byte>, c: seq<Byte>, at: nat,
                                                data: seq<Byte>,
                             headerBit: bool, partialBit: bool)
    requires at + 8 + |data| <= |a| && data == a[at + 8..at + 8 + |data|]
    requires Written(a, b, at + 4, Encoding.LittleEndian(Leading(|data|, headerBit, partialBit), 4))
    requires Written(b, c, at, Encoding.LittleEndian(f.crc(b[at + 4..at + 8 + |data|]), 4))
    ensures Written(a, c, at, Frame(f, data, headerBit, partialBit))
  {
    var leading := Encoding.LittleEndian(Leading(|data|, headerBit, partialBit), 4);
    var rest := a[at + 8 + |data|..];
    SplitAt(a, at + 8, |data|);
    AfterSlice(a[..at + 4], leading, data + rest, b);
    assert b[at + 4..at + 8 + |data|] == b[at + 4..][..4 + |data|] == leading + data;
    assert b[..at] == b[..at + 4][..at] == a[..at + 4][..at] == a[..at];
    FrameGroups(a[..at], Encoding.LittleEndian(f.crc(leading + data), 4), leading, data, rest);
  }

  lemma {:induction false} SplitAt(s: seq<Byte>, k: nat, n: nat)
    requires k + n <= |s|
    ensures s[k..] == s[k..k + n] + s[k + n..]
  {
  }

  lemma {:induction false} AfterSlice(x: seq<Byte>, y: seq<Byte>, z: seq<Byte>, s: seq<Byte>)
    requires s == x + y + z
    ensures s[..|x|] == x && s[|x|..] == y + z
  {
  }

  lemma {:induction false} FrameGroups(x: seq<Byte>, crc: seq<Byte>, leading: seq<Byte>, data: seq<Byte>,
                                       rest: seq<Byte>)
    ensures x + crc + (leading + (data + rest)) == x + (crc + (leading + data)) + rest
  {
  }

  /**
   `prepend_leader`: length and bits before the data, then the checksum before those; the cursor ends before the data.
   */
  method PrependLeader<H, E>(f: Format<H, E>, enc: Encoder, len: nat, headerBit: bool, partialBit: bool)
    requires 8 + len <= enc.start <= enc.buffer.Length
    modifies enc`start, enc.buffer
    ensures enc.start == old(enc.start) - len - 4
    ensures var at := old(enc.start) - len - 8;
            Written(old(enc.buffer[..]), enc.buffer[..], at,
                    Frame(f, old(enc.buffer[..])[at + 8..at + 8 + len], headerBit, partialBit))
  {
    ghost var was := enc.buffer[..];
    var at: nat := enc.start - len - 8;
    var leading := Encoding.LittleEndian(Leading(len, headerBit, partialBit), 4);
    ghost var data := was[at + 8..at + 8 + len];
    assert |data| == len;
    enc.start := at + 4;
    enc.Put(leading);
    ghost var mid := enc.buffer[..];
    enc.start := enc.start - 8;
    assert |mid| == |was|;
    var checked := enc.buffer[at + 4..at + 8 + len];
    assert checked == mid[at + 4..at + 8 + len];
    enc.Put(Encoding.LittleEndian(f.crc(checked), 4));
    FrameFromParts(f, was, mid, enc.buffer[..], at, data, headerBit, partialBit);
  }

  /** `append_entries` for one entry: sized, encoded behind eight free bytes, then the leader. */
  method FrameEntry<H, E>(f: Format<H, E>, e: LoggedEntry, headerBit: bool) returns (bytes: seq<Byte>)
    ensures bytes == Frame(f, Encoding.EncodeEntry(e), headerBit, false)
  {
    var size := Preencode(e);
    var buffer := new Byte[8 + size];
    var enc := new Encoder(buffer, 8);
    enc.PutEntry(e);
    ghost var data := Encoding.EncodeEntry(e);
    assert buffer[..][8..8 + size] == data;
    PrependLeader(f, enc, enc.start - 8, headerBit, false);
    bytes := buffer[..];
  }

  // ---------------------------------------------------------------- headers

  /** A header that fits its slot. */
  predicate Fits(h: RawHeader) {
    HeaderCountable(h) && |EncodeHeader(h)| <= HEADER_SIZE - 8
  }

  function NoDigest(): Encoding.Digest {
    seq(32, _ => 0)
  }

  function EmptyHeader(): (h: RawHeader)
    ensures Fits(h)
  {
    var h := RawHeader(NoDigest(), RawSigner(NoDigest(), NoDigest()), RawKeyPair(NoDigest(), None), [],
                       RawTree(0, 0, [], []), [], 0);
    PlainHeaderFits(h);
    h
  }

  type LoggedHeader = h: RawHeader | Fits(h) witness EmptyHeader()

  function DecodeLoggedHeader(s: seq<Byte>): Result<LoggedHeader> {
    var r := DecodeHeader(s);
    if r.Err? then Err(r.error) else if Fits(r.value) then Ok(r.value) else Err(InvalidEncoding)
  }

  /** The codec of src/oplog/header.rs as the oplog uses it; a header too long for its slot is never written. */
  function HeaderCodec(): RecordCodec<LoggedHeader> {
    RecordCodec((h: LoggedHeader) => EncodeHeader(h), DecodeLoggedHeader)
  }

  type Checksum = n: nat | n < 0x1_0000_0000

  /** The oplog's format, up to the checksum. */
  function OplogFormat(crc: seq<Byte> -> Checksum): Format<LoggedHeader, LoggedEntry> {
    Format((b: seq<Byte>) => crc(b), HeaderCodec(), EntryCodec())
  }

  /** It meets what the oplog asks for, whatever the checksum. */
  lemma {:induction false} OplogFormatIsSound(crc: seq<Byte> -> Checksum)
    ensures Sound(OplogFormat(crc))
  {
    EntryCodecReadsBack();
    forall b: seq<Byte>
      ensures OplogFormat(crc).crc(b) < 0x1_0000_0000
    {
      var n: Checksum := crc(b);
    }
    forall h: LoggedHeader
      ensures HeaderCodec().encode(h) != [] && HeaderCodec().decode(HeaderCodec().encode(h)) == Ok(h)
    {
      HeaderRoundTrip(h);
    }
  }

  // ---------------------------------------------------------------- what is logged

  type SignatureBytes = s: seq<Byte> | |s| == 64 witness seq(64, _ => 0)

  /** Hashes and signatures as bytes, and the keys that a core's headers carry. */
  datatype Rendering = Rendering(hash: Hash -> Encoding.Digest, signature: Signature -> SignatureBytes,
                                 manifest: RawSigner, keyPair: RawKeyPair)

  /** The numbers are 64 bits wide. */
  predicate Renderable(h: Header) {
    h.length < U64_END && h.fork < U64_END && h.contiguous < U64_END
  }

  const U64_END := 0x1_0000_0000_0000_0000

  function RenderedHeader(r: Rendering, h: Header): LoggedHeader
    requires Renderable(h)
  {
    var rootHash: Encoding.Bytes := if h.rootHash.Some? then r.hash(h.rootHash.value) else [];
    var signature: Encoding.Bytes := if h.signature.Some? then r.signature(h.signature.value) else [];
    var raw := RawHeader(r.keyPair.publicKey, r.manifest, r.keyPair, [], RawTree(h.fork, h.length, rootHash, signature),
                         [], h.contiguous);
    PlainHeaderFits(raw);
    raw
  }

  predicate NodeRenderable(x: Node) {
    Index(x.pos) < U64_END && x.length < U64_END
  }

  function RenderedNode(r: Rendering, x: Node): Encoding.RawNode
    requires NodeRenderable(x)
  {
    Encoding.RawNode(Index(x.pos), x.length, r.hash(x.hash))
  }

  /** The entry's numbers are 64 bits wide, its upgrade is signed, and it can be framed. */
  predicate EntryRenderable(e: Entry) {
    && |e.nodes| < U64_END && (forall i :: 0 <= i < |e.nodes| ==> NodeRenderable(e.nodes[i]))
    && (e.upgrade.Some? ==> e.upgrade.value.signature.Some?
                            && e.upgrade.value.fork < U64_END && e.upgrade.value.ancestors < U64_END
                            && e.upgrade.value.length < U64_END)
    && (e.bitfield.Some? ==> e.bitfield.value.start < U64_END && e.bitfield.value.length < U64_END)
    && EntrySize(e) < 0x4000_0000
  }

  function RenderedNodes(r: Rendering, xs: seq<Node>): (raws: seq<Encoding.RawNode>)
    requires forall i :: 0 <= i < |xs| ==> NodeRenderable(xs[i])
    ensures |raws| == |xs| && forall i :: 0 <= i < |xs| ==> raws[i] == RenderedNode(r, xs[i])
  {
    seq(|xs|, i requires 0 <= i < |xs| => RenderedNode(r, xs[i]))
  }

  /** The entry with its hashes and its signature as bytes. */
  function RenderedEntry(r: Rendering, e: Entry): LoggedEntry
    requires EntryRenderable(e)
  {
    Encoding.RawEntry([], RenderedNodes(r, e.nodes),
                      if e.upgrade.None? then None else Some(RenderedUpgrade(r, e.upgrade.value)),
                      if e.bitfield.None? then None
                      else Some(Encoding.RawBitfield(e.bitfield.value.drop, e.bitfield.value.start,
                                                     e.bitfield.value.length)))
  }

  function RenderedUpgrade(r: Rendering, u: TreeUpgrade): Encoding.RawUpgrade
    requires u.signature.Some? && u.fork < U64_END && u.ancestors < U64_END && u.length < U64_END
  {
    Encoding.RawUpgrade(u.fork, u.ancestors, u.length, r.signature(u.signature.value))
  }

  // ---------------------------------------------------------------- sizes

  lemma {:induction false} NodesSizeIs(r: Rendering, xs: seq<Node>, k: nat)
    requires k <= |xs| && forall i :: 0 <= i < |xs| ==> NodeRenderable(xs[i])
    ensures |Encoding.EncodeEach(Encoding.NodeCodec(), RenderedNodes(r, xs)[..k])| == NodesSize(xs[..k])
  {
    if k > 0 {
      NodesSizeIs(r, xs, k - 1);
      EncodeEachSnoc(Encoding.NodeCodec(), RenderedNodes(r, xs), k - 1);
      NodesSizeSnoc(xs, k - 1);
    }
  }

  lemma {:induction false} NodesSizeSnoc(xs: seq<Node>, k: nat)
    requires k < |xs|
    ensures NodesSize(xs[..k + 1])
            == NodesSize(xs[..k]) + Encoding.UintSize(Index(xs[k].pos)) + Encoding.UintSize(xs[k].length) + 32
  {
    assert xs[..k + 1][..k] == xs[..k];
  }

  lemma {:induction false} OptionsSize(r: Rendering, e: Entry)
    requires EntryRenderable(e)
    ensures |Encoding.UpgradePart(RenderedEntry(r, e))|
            == if e.upgrade.None? then 0
               else
                 Encoding.UintSize(e.upgrade.value.fork) + Encoding.UintSize(e.upgrade.value.ancestors)
                 + Encoding.UintSize(e.upgrade.value.length) + 65
    ensures |Encoding.BitfieldPart(RenderedEntry(r, e))|
            == if e.bitfield.None? then 0
               else 1 + Encoding.UintSize(e.bitfield.value.start) + Encoding.UintSize(e.bitfield.value.length)
  {
  }

  lemma {:induction false} ListsSize(r: Rendering, e: Entry)
    requires EntryRenderable(e)
    ensures |Encoding.UserDataPart(RenderedEntry(r, e))| == 0
    ensures |Encoding.NodesPart(RenderedEntry(r, e))|
            == if e.nodes == [] then 0 else Encoding.UintSize(|e.nodes|) + NodesSize(e.nodes)
  {
    var raws := RenderedNodes(r, e.nodes);
    NodesSizeIs(r, e.nodes, |e.nodes|);
    assert e.nodes[..|e.nodes|] == e.nodes && raws[..|e.nodes|] == raws;
  }

  /** The bytes that the core counts for a logged entry are the bytes of its frame. */
  lemma {:induction false} FrameSize(r: Rendering, e: Entry)
    requires EntryRenderable(e)
    ensures 8 + |Encoding.EncodeEntry(RenderedEntry(r, e))| == EntrySize(e)
  {
    ListsSize(r, e);
    OptionsSize(r, e);
    EncodedSize(RenderedEntry(r, e));
  }

  lemma {:induction false} EncodedSize(raw: LoggedEntry)
    ensures |Encoding.EncodeEntry(raw)|
            == 1 + |Encoding.UserDataPart(raw)| + |Encoding.NodesPart(raw)| + |Encoding.UpgradePart(raw)|
               + |Encoding.BitfieldPart(raw)|
  {
  }
}
