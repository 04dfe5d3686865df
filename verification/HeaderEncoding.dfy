/**
 The codec of oplog headers (src/oplog/header.rs, src/encoding.rs). Keys are any 32 bytes; the names of the hash
 and of the signature scheme are the only ones that are ever encoded.
 */
module HeaderEncoding {
  import opened Common
  import opened Encoding

  datatype RawSigner = RawSigner(namespace: Digest, publicKey: Digest)

  datatype RawKeyPair = RawKeyPair(publicKey: Digest, secretKey: Option<Digest>)

  datatype RawTree = RawTree(fork: U64, length: U64, rootHash: Bytes, signature: Bytes)

  datatype RawHeader = RawHeader(key: Digest, manifest: RawSigner, keyPair: RawKeyPair, userData: seq<Bytes>,
                                 tree: RawTree,
                                 reorgs: seq<Bytes>, contiguous: U64)

  // ---------------------------------------------------------------- manifest

  /** Version, hash and type of the manifest, then the signature scheme. */
  const MANIFEST_START: seq<Byte> := [0, 0, 1, 0]

  function EncodeManifest(m: RawSigner): (s: seq<Byte>)
    ensures |s| == 68
  {
    MANIFEST_START + m.namespace + m.publicKey
  }

  function DecodeManifest(s: seq<Byte>): Result<Decoded<RawSigner>> {
    if s == [] then Err(InvalidEncoding)
    else if s[0] != 0 then Err(Panic)
    else if |s| < 4 || s[..4] != MANIFEST_START then Err(InvalidEncoding)
    else
      var namespace := TakeBytes(s[4..], 32);
      if namespace.Err? then Err(namespace.error)
      else
        var publicKey := TakeBytes(namespace.value.rest, 32);
        if publicKey.Err? then Err(publicKey.error)
        else Ok(Decoded(RawSigner(namespace.value.value, publicKey.value.value), publicKey.value.rest))
  }

  lemma {:induction false} ManifestRoundTrip(m: RawSigner, rest: seq<Byte>)
    ensures DecodeManifest(EncodeManifest(m) + rest) == Ok(Decoded(m, rest))
  {
    var s := EncodeManifest(m) + rest;
    assert s[..4] == MANIFEST_START && s[0] == MANIFEST_START[0];
    assert s[4..] == m.namespace + (m.publicKey + rest);
    TakeBytesBack(m.namespace, m.publicKey + rest);
    TakeBytesBack(m.publicKey, rest);
  }

  // ---------------------------------------------------------------- key pair

  /** The public key, then the secret key with the public one behind it, or nothing. */
  function EncodeKeyPair(k: RawKeyPair): (s: seq<Byte>)
    ensures |s| <= 98
  {
    EncodeBytes(k.publicKey) + if k.secretKey.Some? then EncodeBytes(k.secretKey.value + k.publicKey) else [0]
  }

  /** A key that is too short is an index out of range. */
  function DecodeKeyPair(s: seq<Byte>): Result<Decoded<RawKeyPair>> {
    var publicKey := DecodeBytes(s);
    if publicKey.Err? then Err(publicKey.error)
    else if |publicKey.value.value| < 32 then Err(Panic)
    else
      var secret := DecodeBytes(publicKey.value.rest);
      if secret.Err? then Err(secret.error)
      else if secret.value.value == [] then Ok(Decoded(RawKeyPair(publicKey.value.value[..32], None),
                                                       secret.value.rest))
      else if |secret.value.value| < 32 then Err(Panic)
      else Ok(Decoded(RawKeyPair(publicKey.value.value[..32], Some(secret.value.value[..32])), secret.value.rest))
  }

  lemma {:induction false} KeyPairRoundTrip(k: RawKeyPair, rest: seq<Byte>)
    ensures DecodeKeyPair(EncodeKeyPair(k) + rest) == Ok(Decoded(k, rest))
  {
    var secret: Bytes := if k.secretKey.Some? then k.secretKey.value + k.publicKey else [];
    assert EncodeBytes([]) == [0];
    assert EncodeKeyPair(k) + rest == EncodeBytes(k.publicKey) + (EncodeBytes(secret) + rest);
    BytesRoundTrip(k.publicKey, EncodeBytes(secret) + rest);
    BytesRoundTrip(secret, rest);
    assert k.publicKey[..32] == k.publicKey;
    if k.secretKey.Some? {
      assert secret[..32] == k.secretKey.value;
    }
  }

  // ---------------------------------------------------------------- tree

  function EncodeTree(t: RawTree): (s: seq<Byte>)
    ensures |s| <= 36 + |t.rootHash| + |t.signature|
  {
    EncodeUint(t.fork) + EncodeUint(t.length) + EncodeBytes(t.rootHash) + EncodeBytes(t.signature)
  }

  function DecodeTree(s: seq<Byte>): Result<Decoded<RawTree>> {
    var fork := DecodeUint(s);
    if fork.Err? then Err(fork.error)
    else
      var length := DecodeUint(fork.value.rest);
      if length.Err? then Err(length.error)
      else
        var rootHash := DecodeBytes(length.value.rest);
        if rootHash.Err? then Err(rootHash.error)
        else
          var signature := DecodeBytes(rootHash.value.rest);
          if signature.Err? then Err(signature.error)
          else Ok(Decoded(RawTree(fork.value.value, length.value.value, rootHash.value.value, signature.value.value),
                          signature.value.rest))
  }

  lemma {:induction false} TreeRoundTrip(t: RawTree, rest: seq<Byte>)
    ensures DecodeTree(EncodeTree(t) + rest) == Ok(Decoded(t, rest))
  {
    var t1 := EncodeBytes(t.signature) + rest;
    var t2 := EncodeBytes(t.rootHash) + t1;
    var t3 := EncodeUint(t.length) + t2;
    FourParts(EncodeUint(t.fork), EncodeUint(t.length), EncodeBytes(t.rootHash), EncodeBytes(t.signature), rest);
    UintRoundTrip(t.fork, t3);
    UintRoundTrip(t.length, t2);
    BytesRoundTrip(t.rootHash, t1);
    BytesRoundTrip(t.signature, rest);
    DecodeTreeInSteps(EncodeTree(t) + rest, t, t3, t2, t1, rest);
  }

  lemma {:induction false} FourParts(a: seq<Byte>, b: seq<Byte>, c: seq<Byte>, d: seq<Byte>, rest: seq<Byte>)
    ensures a + b + c + d + rest == a + (b + (c + (d + rest)))
  {
  }

  lemma {:induction false} DecodeTreeInSteps(s: seq<Byte>, t: RawTree, r1: seq<Byte>, r2: seq<Byte>, r3: seq<Byte>,
                                             r4: seq<Byte>)
    requires DecodeUint(s) == Ok(Decoded(t.fork, r1)) && DecodeUint(r1) == Ok(Decoded(t.length, r2))
    requires DecodeBytes(r2) == Ok(Decoded(t.rootHash, r3)) && DecodeBytes(r3) == Ok(Decoded(t.signature, r4))
    ensures DecodeTree(s) == Ok(Decoded(t, r4))
  {
  }

  // ---------------------------------------------------------------- header

  predicate HeaderCountable(h: RawHeader) {
    |h.userData| < 0x1_0000_0000_0000_0000 && |h.reorgs| < 0x1_0000_0000_0000_0000
  }

  function EncodeHints(h: RawHeader): seq<Byte>
    requires HeaderCountable(h)
  {
    EncodeSeq(BytesCodec(), h.reorgs) + EncodeUint(h.contiguous)
  }

  /** Version 1, flags for manifest and key pair, then the fields. */
  function EncodeHeader(h: RawHeader): (s: seq<Byte>)
    requires HeaderCountable(h)
    ensures s != []
  {
    [1, 6] + h.key + EncodeManifest(h.manifest) + EncodeKeyPair(h.keyPair)
    + EncodeSeq(BytesCodec(), h.userData) + EncodeTree(h.tree)
    + EncodeHints(h)
  }

  datatype Keys = Keys(key: Digest, manifest: RawSigner, keyPair: RawKeyPair)

  /** The part that never changes. */
  function DecodeKeys(s: seq<Byte>): Result<Decoded<Keys>> {
    var key := TakeBytes(s, 32);
    if key.Err? then Err(key.error)
    else
      var manifest := DecodeManifest(key.value.rest);
      if manifest.Err? then Err(manifest.error)
      else
        var keyPair := DecodeKeyPair(manifest.value.rest);
        if keyPair.Err? then Err(keyPair.error)
        else Ok(Decoded(Keys(key.value.value, manifest.value.value, keyPair.value.value), keyPair.value.rest))
  }

  function DecodeHeader(s: seq<Byte>): (r: Result<RawHeader>)
    ensures r.Ok? ==> HeaderCountable(r.value)
    ensures s != [] && s[0] != 1 ==> r == Err(Panic)
  {
    if s == [] then Err(InvalidEncoding)
    else if s[0] != 1 then Err(Panic)
    else if |s| < 2 then Err(InvalidEncoding)
    else
      var keys := DecodeKeys(s[2..]);
      if keys.Err? then Err(keys.error)
      else
        var userData := DecodeSeq(BytesCodec(), keys.value.rest);
        if userData.Err? then Err(userData.error)
        else
          var tree := DecodeTree(userData.value.rest);
          if tree.Err? then Err(tree.error)
          else
            var reorgs := DecodeSeq(BytesCodec(), tree.value.rest);
            if reorgs.Err? then Err(reorgs.error)
            else
              var contiguous := DecodeUint(reorgs.value.rest);
              if contiguous.Err? then Err(contiguous.error)
              else Ok(RawHeader(keys.value.value.key, keys.value.value.manifest, keys.value.value.keyPair,
                                userData.value.value,
                                tree.value.value, reorgs.value.value, contiguous.value.value))
  }

  lemma {:induction false} KeysRoundTrip(k: Keys, rest: seq<Byte>)
    ensures DecodeKeys(k.key + (EncodeManifest(k.manifest) + (EncodeKeyPair(k.keyPair) + rest))) == Ok(Decoded(k, rest))
  {
    var t1 := EncodeKeyPair(k.keyPair) + rest;
    TakeBytesBack(k.key, EncodeManifest(k.manifest) + t1);
    ManifestRoundTrip(k.manifest, t1);
    KeyPairRoundTrip(k.keyPair, rest);
  }

  lemma {:induction false} HeaderParts(a: seq<Byte>, b: seq<Byte>, c: seq<Byte>, d: seq<Byte>, e: seq<Byte>,
                                       f: seq<Byte>, g: seq<Byte>)
    ensures var s := [1, 6] + a + b + c + d + e + (f + g);
            |s| >= 2 && s[0] == 1 && s[2..] == a + (b + (c + (d + (e + (f + g)))))
  {
  }

  /** A header is read back exactly. */
  lemma {:induction false} HeaderRoundTrip(h: RawHeader)
    requires HeaderCountable(h)
    ensures DecodeHeader(EncodeHeader(h)) == Ok(h)
  {
    var last := EncodeUint(h.contiguous);
    var hints := EncodeSeq(BytesCodec(), h.reorgs) + last;
    var t1 := EncodeTree(h.tree) + hints;
    var t2 := EncodeSeq(BytesCodec(), h.userData) + t1;
    HeaderParts(h.key, EncodeManifest(h.manifest), EncodeKeyPair(h.keyPair), EncodeSeq(BytesCodec(), h.userData),
                EncodeTree(h.tree), EncodeSeq(BytesCodec(), h.reorgs), last);
    KeysRoundTrip(Keys(h.key, h.manifest, h.keyPair), t2);
    BytesCodecLawful();
    SeqRoundTrip(BytesCodec(), h.userData, t1);
    TreeRoundTrip(h.tree, hints);
    SeqRoundTrip(BytesCodec(), h.reorgs, last);
    UintRoundTrip(h.contiguous, []);
    assert last + [] == last;
  }

  /**
   A header without user data and reorganisations, with a hash of 32 and a signature of 64 bytes at most, fits its slot.
   */
  lemma {:induction false} PlainHeaderFits(h: RawHeader)
    requires h.userData == [] && h.reorgs == [] && |h.tree.rootHash| <= 32 && |h.tree.signature| <= 64
    ensures |EncodeHeader(h)| <= 400
  {
    assert EncodeSeq(BytesCodec(), []) == [0];
  }
}
