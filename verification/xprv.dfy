/** Decoding of SLIP-32 style extended private keys ("xprv" bech32 strings) and
    the envelope split of their encrypted export. The secp256k1 key check,
    PBKDF2 and AES-256-CBC are oracles. */
module Xprv {
  import opened Results
  import opened Bytes
  import opened Bech32

  const DepthLength: nat := 1
  const KeyPathLength: nat := 4
  const ChainCodeLength: nat := 32
  const KeyLength: nat := 33

  /** The string-length limit handed to the bech32 decoder. It is computed as
      the payload byte length at depth 255, the largest depth one byte holds,
      although the decoder measures characters. */
  const Bech32Limit: nat := DepthLength + 255 * KeyPathLength + ChainCodeLength + KeyLength

  const Header: string := "xprv"

  /** Number of PBKDF2-SHA256 iterations and derived key length of the export. */
  const KdfIterations: nat := 10000
  const KdfKeyLength: nat := 32

  datatype XprvError =
    | DecodeFailed
    | BadWords
    | InvalidHeader(prefix: string)
    | UnsupportedDepth
    | BadLength(expected: nat, actual: nat)
    | NotAPrivateKey
    | DecryptionFailed

  /** What a successful parse returns. */
  datatype ExtendedKey = ExtendedKey(chainCode: seq<byte>, keyPath: seq<nat>, privateKey: seq<byte>)

  /** `getExpectedDataLength(depth)`: 66 bytes for a master key, 4 more per
      path level. */
  function ExpectedDataLength(depth: nat): (n: nat)
    ensures n == ExpectedDataLength(0) + 4 * depth && ExpectedDataLength(0) == 66
  {
    DepthLength + depth * KeyPathLength + ChainCodeLength + KeyLength
  }

  /** The bech32 string of a depth-`depth` payload ("xprv", the separator, its
      words and the 6-character checksum) fits the limit only up to depth 151,
      not 255: the limit is a byte count used as a character count. Master
      keys, the only ones parsed, fit with room to spare. */
  lemma LimitFitsDepths(bytes: seq<byte>, depth: nat)
    requires |bytes| == ExpectedDataLength(depth)
    ensures |Header| + 7 + |ToWords(bytes)| <= Bech32Limit <==> depth <= 151
    ensures depth == 0 ==> |Header| + 7 + |ToWords(bytes)| == 117
  {
    assert |ToWords(bytes)| == (532 + 32 * depth) / 5;
  }

  // ---------------------------------------------------------------------------
  // Payload layout: depth byte, key path, chain code, 33-byte key slot

  /** The fields of a payload of the expected length for its depth. */
  datatype Layout = Layout(depth: byte, keyPath: seq<nat>, chainCode: seq<byte>, keySlot: seq<byte>)

  /** The path index at position `i`: a big-endian u32 at offset 1 + 4i. */
  function PathIndex(bytes: seq<byte>, i: nat): (x: nat)
    requires 1 + 4 * i + 4 <= |bytes|
  {
    U32BE(bytes[1 + 4 * i .. 1 + 4 * i + 4])
  }

  /** Reads the fields, each from its fixed offset. */
  function ReadLayout(bytes: seq<byte>): (l: Layout)
    requires |bytes| > 0 && |bytes| == ExpectedDataLength(bytes[0])
    ensures l.depth == bytes[0] && |l.keyPath| == l.depth
    ensures forall i :: 0 <= i < |l.keyPath| ==> l.keyPath[i] == PathIndex(bytes, i) < TwoTo32
    ensures l.chainCode == bytes[1 + 4 * l.depth .. 33 + 4 * l.depth]
    ensures l.keySlot == bytes[33 + 4 * l.depth ..]
    ensures |l.chainCode| == ChainCodeLength && |l.keySlot| == KeyLength
  {
    var depth := bytes[0];
    var offset := DepthLength + depth * KeyPathLength;
    Layout(depth,
           seq(depth, i requires 0 <= i < depth => PathIndex(bytes, i)),
           bytes[offset .. offset + ChainCodeLength],
           bytes[offset + ChainCodeLength ..])
  }

  predicate WellFormed(l: Layout) {
    && |l.keyPath| == l.depth
    && (forall i :: 0 <= i < |l.keyPath| ==> l.keyPath[i] < TwoTo32)
    && |l.chainCode| == ChainCodeLength
    && |l.keySlot| == KeyLength
  }

  /** The big-endian bytes of a key path. */
  function PathBytes(path: seq<nat>): (b: seq<byte>)
    requires forall i :: 0 <= i < |path| ==> path[i] < TwoTo32
    ensures |b| == 4 * |path|
  {
    if path == [] then [] else U32Bytes(path[0]) + PathBytes(path[1..])
  }

  /** The payload a layout stands for, field after field. */
  function WriteLayout(l: Layout): (bytes: seq<byte>)
    requires WellFormed(l)
    ensures |bytes| == ExpectedDataLength(l.depth) && bytes[0] == l.depth
  {
    [l.depth] + PathBytes(l.keyPath) + l.chainCode + l.keySlot
  }

  lemma {:induction false} PathBytesAt(path: seq<nat>, i: nat)
    requires forall j :: 0 <= j < |path| ==> path[j] < TwoTo32
    requires i < |path|
    ensures PathBytes(path)[4 * i .. 4 * i + 4] == U32Bytes(path[i])
  {
    if i > 0 {
      PathBytesAt(path[1..], i - 1);
      assert PathBytes(path) == U32Bytes(path[0]) + PathBytes(path[1..]);
    }
  }

  /** Writing the fields and reading them back gives the same fields. */
  lemma {:induction false} LayoutRoundTrip(l: Layout)
    requires WellFormed(l)
    ensures ReadLayout(WriteLayout(l)) == l
  {
    var bytes := WriteLayout(l);
    var p := PathBytes(l.keyPath);
    var r := ReadLayout(bytes);
    assert bytes[1 .. 1 + 4 * l.depth] == p;
    forall i | 0 <= i < |l.keyPath|
      ensures r.keyPath[i] == l.keyPath[i]
    {
      PathBytesAt(l.keyPath, i);
      assert bytes[1 + 4 * i .. 1 + 4 * i + 4] == p[4 * i .. 4 * i + 4];
      U32RoundTrip(l.keyPath[i]);
    }
    assert r.chainCode == l.chainCode;
    assert r.keySlot == l.keySlot;
  }

  /** Reading the fields and writing them back gives the same payload. */
  lemma {:induction false} PayloadRoundTrip(bytes: seq<byte>)
    requires |bytes| > 0 && |bytes| == ExpectedDataLength(bytes[0])
    ensures WriteLayout(ReadLayout(bytes)) == bytes
  {
    var l := ReadLayout(bytes);
    var d: nat := l.depth;
    var w := WriteLayout(l);
    PathBytesFromPayload(bytes, d, d);
    assert w[1 .. 1 + 4 * d] == PathBytes(l.keyPath);
    assert bytes == [bytes[0]] + bytes[1 .. 1 + 4 * d] + bytes[1 + 4 * d .. 33 + 4 * d] + bytes[33 + 4 * d ..];
  }

  /** The path bytes of the first `k` indices read from a payload are the payload's bytes. */
  lemma {:induction false} PathBytesFromPayload(bytes: seq<byte>, d: nat, k: nat)
    requires k <= d && 1 + 4 * d <= |bytes|
    ensures var path := seq(k, i requires 0 <= i < k => PathIndex(bytes, i));
            PathBytes(path) == bytes[1 .. 1 + 4 * k]
  {
    var path := seq(k, i requires 0 <= i < k => PathIndex(bytes, i));
    if k > 0 {
      PathBytesFromPayload(bytes, d, k - 1);
      var init := seq(k - 1, i requires 0 <= i < k - 1 => PathIndex(bytes, i));
      PathBytesSnoc(path);
      assert path[..k - 1] == init;
      var a, e := 1 + 4 * (k - 1), 1 + 4 * k;
      assert e == a + 4;
      var last := bytes[a .. e];
      assert path[k - 1] == U32BE(last);
      U32BytesRoundTrip(last);
      assert bytes[1 .. e] == bytes[1 .. a] + last;
    }
  }

  lemma {:induction false} PathBytesSnoc(path: seq<nat>)
    requires |path| > 0 && forall i :: 0 <= i < |path| ==> path[i] < TwoTo32
    ensures PathBytes(path) == PathBytes(path[..|path| - 1]) + U32Bytes(path[|path| - 1])
  {
    if |path| > 1 {
      PathBytesSnoc(path[1..]);
      assert path[1..][..|path| - 2] == path[..|path| - 1][1..];
    } else {
      assert path[..0] == [];
    }
  }

  // ---------------------------------------------------------------------------
  // parseXprv

  /** `parseXprv` after bech32 decoding and regrouping: header, depth (only 0,
      a master key, is supported; an empty payload has no depth and is
      rejected the same way), length, fields, then the key slot's zero marker
      and the curve-order check of the 32-byte scalar. */
  function ParsePayload(prefix: string, bytes: seq<byte>, privateKeyVerify: seq<byte> -> bool): (r: Result<ExtendedKey, XprvError>)
    ensures prefix != Header ==> r == Err(InvalidHeader(prefix))
    ensures prefix == Header && (|bytes| == 0 || bytes[0] != 0) ==> r == Err(UnsupportedDepth)
    ensures prefix == Header && |bytes| > 0 && bytes[0] == 0 && |bytes| != 66 ==> r == Err(BadLength(66, |bytes|))
    ensures r.Ok? ==>
              && |bytes| == 66 && bytes[0] == 0 && bytes[33] == 0
              && r.value.keyPath == []
              && r.value.chainCode == bytes[1..33]
              && r.value.privateKey == bytes[34..66]
              && privateKeyVerify(r.value.privateKey)
    ensures prefix == Header && |bytes| == 66 && bytes[0] == 0 ==>
              (r.Ok? <==> bytes[33] == 0 && privateKeyVerify(bytes[34..]))
    ensures prefix == Header && |bytes| == 66 && bytes[0] == 0 && !(bytes[33] == 0 && privateKeyVerify(bytes[34..])) ==>
              r == Err(NotAPrivateKey)
  {
    if prefix != Header then Err(InvalidHeader(prefix))
    else if |bytes| == 0 || bytes[0] != 0 then Err(UnsupportedDepth)
    else if |bytes| != ExpectedDataLength(bytes[0]) then Err(BadLength(ExpectedDataLength(bytes[0]), |bytes|))
    else
      var l := ReadLayout(bytes);
      if l.keySlot[0] != 0 || !privateKeyVerify(l.keySlot[1..]) then Err(NotAPrivateKey)
      else Ok(ExtendedKey(l.chainCode, l.keyPath, l.keySlot[1..]))
  }

  /** `parseXprv`: bech32-decode with the length limit, regroup the words into
      bytes (both can throw), then check the payload. */
  function ParseXprv(codec: Codec, slip32: string, privateKeyVerify: seq<byte> -> bool): (r: Result<ExtendedKey, XprvError>)
    ensures codec.decode(slip32, Bech32Limit).None? ==> r == Err(DecodeFailed)
    ensures codec.decode(slip32, Bech32Limit).Some? ==>
              FromWords(codec.decode(slip32, Bech32Limit).value.words).None? ==> r == Err(BadWords)
    ensures codec.decode(slip32, Bech32Limit).Some? && FromWords(codec.decode(slip32, Bech32Limit).value.words).Some? ==>
              var d := codec.decode(slip32, Bech32Limit).value;
              var bytes := FromWords(d.words).value;
              (r.Ok? <==> d.prefix == Header && |bytes| == 66 && bytes[0] == 0 && bytes[33] == 0
                          && privateKeyVerify(bytes[34..]))
    ensures r.Ok? ==>
              && codec.decode(slip32, Bech32Limit).Some?
              && var d := codec.decode(slip32, Bech32Limit).value;
                 d.prefix == Header
                 && FromWords(d.words) == Some(MasterPayload(r.value.chainCode, r.value.privateKey))
    ensures codec.decode(slip32, Bech32Limit).Some? ==>
              var d := codec.decode(slip32, Bech32Limit).value;
              FromWords(d.words).Some? ==> r == ParsePayload(d.prefix, FromWords(d.words).value, privateKeyVerify)
    ensures codec.decode(slip32, Bech32Limit).Some? ==>
              var d := codec.decode(slip32, Bech32Limit).value;
              var bytes := FromWords(d.words);
              d.prefix == Header && bytes.Some? && (|bytes.value| == 0 || bytes.value[0] != 0) ==> r == Err(UnsupportedDepth)
    ensures r.Ok? ==>
              && r.value.keyPath == []
              && |r.value.chainCode| == ChainCodeLength
              && |r.value.privateKey| == 32
              && privateKeyVerify(r.value.privateKey)
  {
    match codec.decode(slip32, Bech32Limit)
    case None => Err(DecodeFailed)
    case Some(decoded) =>
      match FromWords(decoded.words)
      case None => Err(BadWords)
      case Some(bytes) =>
        var r := ParsePayload(decoded.prefix, bytes, privateKeyVerify);
        if r.Ok? then
          assert bytes == MasterPayload(bytes[1..33], bytes[34..66]);
          r
        else r
  }

  /** The payload of a master key: depth 0, the chain code, the zero marker and the scalar. */
  function MasterPayload(chainCode: seq<byte>, privateKey: seq<byte>): (bytes: seq<byte>)
    ensures |chainCode| == 32 && |privateKey| == 32 ==> |bytes| == ExpectedDataLength(0)
  {
    [0] + chainCode + [0] + privateKey
  }

  /** Every master key whose scalar passes the curve check parses back from its payload. */
  lemma MasterPayloadRoundTrip(chainCode: seq<byte>, privateKey: seq<byte>, privateKeyVerify: seq<byte> -> bool)
    requires |chainCode| == 32 && |privateKey| == 32 && privateKeyVerify(privateKey)
    ensures ParsePayload(Header, MasterPayload(chainCode, privateKey), privateKeyVerify)
            == Ok(ExtendedKey(chainCode, [], privateKey))
  {
    var bytes := MasterPayload(chainCode, privateKey);
    assert bytes[1..33] == chainCode;
    assert bytes[33..][1..] == privateKey;
  }

  /** ...and so does its bech32 string, under any lawful codec. */
  lemma MasterKeyRoundTrip(codec: Codec, chainCode: seq<byte>, privateKey: seq<byte>, privateKeyVerify: seq<byte> -> bool)
    requires Lawful(codec)
    requires |chainCode| == 32 && |privateKey| == 32 && privateKeyVerify(privateKey)
    ensures var words := ToWords(MasterPayload(chainCode, privateKey));
            codec.encode(Header, words, Bech32Limit).Some?
            && ParseXprv(codec, codec.encode(Header, words, Bech32Limit).value, privateKeyVerify)
               == Ok(ExtendedKey(chainCode, [], privateKey))
  {
    var bytes := MasterPayload(chainCode, privateKey);
    var words := ToWords(bytes);
    assert ValidPrefix(Header);
    ToLowerIdempotent(Header);
    WordsRoundTrip(bytes);
    MasterPayloadRoundTrip(chainCode, privateKey, privateKeyVerify);
  }

  // ---------------------------------------------------------------------------
  // decipherXprv

  /** The three parts of an encrypted export, cut with `ArrayBuffer.slice`,
      which clamps: a short payload gives short (possibly empty) parts. */
  datatype Sealed = Sealed(iv: seq<byte>, salt: seq<byte>, data: seq<byte>)

  function SplitSealed(payload: seq<byte>): (s: Sealed)
    ensures s.iv + s.salt + s.data == payload
    ensures |payload| >= 48 ==> |s.iv| == 16 && |s.salt| == 32 && s.data == payload[48..]
    ensures |s.iv| == Min(16, |payload|) && |s.salt| == Min(32, |payload| - |s.iv|)
  {
    Sealed(Slice(payload, 0, 16), Slice(payload, 16, 48), SliceFrom(payload, 48))
  }

  /** PBKDF2 and AES-256-CBC; `decrypt` yields `None` on a padding failure. */
  datatype Cipher = Cipher(
    pbkdf2: (string, seq<byte>, nat, nat) -> seq<byte>,
    decrypt: (seq<byte>, seq<byte>, seq<byte>) -> Option<string>)

  /** `decipherXprv`: decode, check the "xprv" header, regroup into bytes, split
      into iv, salt and ciphertext, derive the key from the password and the salt,
      and decrypt the ciphertext to the text of the inner key. */
  function DecipherXprv(codec: Codec, cipher: Cipher, slip32: string, password: string): (r: Result<string, XprvError>)
    ensures codec.decode(slip32, Bech32Limit).None? ==> r == Err(DecodeFailed)
    ensures codec.decode(slip32, Bech32Limit).Some? ==>
              var prefix := codec.decode(slip32, Bech32Limit).value.prefix;
              prefix != Header ==> r == Err(InvalidHeader(prefix))
    ensures codec.decode(slip32, Bech32Limit).Some? ==>
              var d := codec.decode(slip32, Bech32Limit).value;
              d.prefix == Header && FromWords(d.words).None? ==> r == Err(BadWords)
    ensures codec.decode(slip32, Bech32Limit).Some? ==>
              var d := codec.decode(slip32, Bech32Limit).value;
              d.prefix == Header && FromWords(d.words).Some? ==>
                var s := SplitSealed(FromWords(d.words).value);
                var text := cipher.decrypt(cipher.pbkdf2(password, s.salt, KdfIterations, KdfKeyLength), s.iv, s.data);
                (text.None? ==> r == Err(DecryptionFailed)) && (text.Some? ==> r == Ok(text.value))
    ensures r.Ok? ==>
              && codec.decode(slip32, Bech32Limit).Some?
              && var d := codec.decode(slip32, Bech32Limit).value;
                 && d.prefix == Header
                 && FromWords(d.words).Some?
                 && var s := SplitSealed(FromWords(d.words).value);
                    cipher.decrypt(cipher.pbkdf2(password, s.salt, KdfIterations, KdfKeyLength), s.iv, s.data) == Some(r.value)
  {
    match codec.decode(slip32, Bech32Limit)
    case None => Err(DecodeFailed)
    case Some(decoded) =>
      if decoded.prefix != Header then Err(InvalidHeader(decoded.prefix))
      else
        match FromWords(decoded.words)
        case None => Err(BadWords)
        case Some(payload) =>
          var s := SplitSealed(payload);
          var key := cipher.pbkdf2(password, s.salt, KdfIterations, KdfKeyLength);
          match cipher.decrypt(key, s.iv, s.data)
          case None => Err(DecryptionFailed)
          case Some(text) => Ok(text)
  }

  /** Cutting the concatenation of a 16-byte iv, a 32-byte salt and a
      ciphertext gives the three parts back. */
  lemma SplitSealedRoundTrip(iv: seq<byte>, salt: seq<byte>, data: seq<byte>)
    requires |iv| == 16 && |salt| == 32
    ensures SplitSealed(iv + salt + data) == Sealed(iv, salt, data)
  {
    var payload := iv + salt + data;
    var s := SplitSealed(payload);
    assert s.iv == payload[..16] == iv;
    assert s.salt == payload[16..48] == salt;
  }

  /** An export sealed as iv, salt and ciphertext and bech32-encoded with the
      "xprv" prefix deciphers to exactly what the cipher makes of those parts
      under the key derived from the password and that salt. */
  lemma SealedRoundTrip(codec: Codec, cipher: Cipher, iv: seq<byte>, salt: seq<byte>, data: seq<byte>, password: string)
    requires Lawful(codec) && |iv| == 16 && |salt| == 32
    requires |Header| + 7 + |ToWords(iv + salt + data)| <= Bech32Limit
    ensures var words := ToWords(iv + salt + data);
            var text := cipher.decrypt(cipher.pbkdf2(password, salt, KdfIterations, KdfKeyLength), iv, data);
            && codec.encode(Header, words, Bech32Limit).Some?
            && DecipherXprv(codec, cipher, codec.encode(Header, words, Bech32Limit).value, password)
               == (if text.Some? then Ok(text.value) else Err(DecryptionFailed))
  {
    var payload := iv + salt + data;
    assert ValidPrefix(Header);
    ToLowerIdempotent(Header);
    WordsRoundTrip(payload);
    SplitSealedRoundTrip(iv, salt, data);
  }
}
