/** The small `PublicKeyHash` holder of the address module: a byte field with
    copy, clear and presence checks, and conversion from and to a "wit" address.
    The mutable field becomes an immutable value; a setter returns the new holder. */
module Address {
  import opened Results
  import opened Bytes
  import opened Bech32

  datatype AddressError =
    | InvalidAddress
    | DecodeFailed
    | BadWords
    | EncodeFailed

  datatype PublicKeyHash = PublicKeyHash(hash: seq<byte>)

  const Prefix: string := "wit"

  /** The default string-length limit of the bech32 library this module uses. */
  const Limit: nat := 90

  /** `new PublicKeyHash()`: no hash given, so an empty one. */
  function Empty(): (p: PublicKeyHash)
    ensures !HasHash(p)
  {
    PublicKeyHash([])
  }

  /** `PublicKeyHash.fromBuffer` */
  function FromBuffer(buffer: seq<byte>): (p: PublicKeyHash)
    ensures Hash(p) == buffer
  {
    PublicKeyHash(buffer)
  }

  /** `clone()`: a fresh copy of the same bytes. */
  function Clone(p: PublicKeyHash): (q: PublicKeyHash)
    ensures Hash(q) == Hash(p) && HasHash(q) == HasHash(p)
  {
    PublicKeyHash(p.hash[..])
  }

  /** The `hash` getter. */
  function Hash(p: PublicKeyHash): seq<byte> {
    p.hash
  }

  /** The `hash` setter: the holder after `p.hash = value`. */
  function SetHash(p: PublicKeyHash, value: seq<byte>): (q: PublicKeyHash)
    ensures Hash(q) == value
    ensures HasHash(q) <==> |value| > 0
  {
    PublicKeyHash(value)
  }

  /** `hasHash()` */
  predicate HasHash(p: PublicKeyHash) {
    |p.hash| > 0
  }

  /** `clearHash()`: the holder afterwards. */
  function ClearHash(p: PublicKeyHash): (q: PublicKeyHash)
    ensures !HasHash(q) && Hash(q) == []
  {
    PublicKeyHash([])
  }

  /** `toBuffer()` */
  function ToBuffer(p: PublicKeyHash): (b: seq<byte>)
    ensures FromBuffer(b) == p
  {
    p.hash
  }

  /** The `pbBytes` getter: the serialised form, which is the buffer itself. */
  function PbBytes(p: PublicKeyHash): (b: seq<byte>)
    ensures b == Hash(p) && FromBuffer(b) == p
  {
    ToBuffer(p)
  }

  /** `hasHash()` holds exactly when the bytes are non-empty, whatever was set. */
  lemma HasHashIffNonEmpty(p: PublicKeyHash, value: seq<byte>)
    ensures HasHash(p) <==> |Hash(p)| > 0
    ensures !HasHash(ClearHash(p))
    ensures Hash(SetHash(p, value)) == value
    ensures HasHash(SetHash(ClearHash(p), value)) <==> value != []
  {
  }

  /** The `address` getter: the bytes regrouped into words with no leading
      version word and encoded with prefix "wit". */
  function AddressOf(codec: Codec, p: PublicKeyHash): (r: Result<string, AddressError>)
    ensures r.Ok? <==> codec.encode(Prefix, ToWords(p.hash), Limit).Some?
    ensures r.Ok? ==> Some(r.value) == codec.encode(Prefix, ToWords(p.hash), Limit)
  {
    match codec.encode(Prefix, ToWords(p.hash), Limit)
    case None => Err(EncodeFailed)
    case Some(s) => Ok(s)
  }

  /** `PublicKeyHash.fromAddress` as written: the string must start with "wit";
      the first decoded word is taken for a witness version and dropped before
      the remaining words are regrouped into bytes. */
  function FromAddress(codec: Codec, address: string): (r: Result<PublicKeyHash, AddressError>)
    ensures !StartsWith(address, Prefix) ==> r == Err(InvalidAddress)
    ensures r.Ok? ==>
              && StartsWith(address, Prefix)
              && codec.decode(address, Limit).Some?
              && FromWords(SliceFrom(codec.decode(address, Limit).value.words, 1)) == Some(r.value.hash)
    ensures StartsWith(address, Prefix) && codec.decode(address, Limit).None? ==> r == Err(DecodeFailed)
    ensures StartsWith(address, Prefix) && codec.decode(address, Limit).Some? ==>
              var program := FromWords(SliceFrom(codec.decode(address, Limit).value.words, 1));
              (program.None? ==> r == Err(BadWords))
              && (program.Some? ==> r == Ok(PublicKeyHash(program.value)))
  {
    if !StartsWith(address, Prefix) then Err(InvalidAddress)
    else
      match codec.decode(address, Limit)
      case None => Err(DecodeFailed)
      case Some(decoded) =>
        match FromWords(SliceFrom(decoded.words, 1))
        case None => Err(BadWords)
        case Some(program) => Ok(PublicKeyHash(program))
  }

  /** For every lawful codec, no 20-byte hash survives the trip through its own
      address: `fromAddress` drops a word the getter never wrote, so 31 words
      remain, which hold 19 bytes and 3 left-over bits. Those bits are the low
      bits of the hash's last byte: when they are zero a 19-byte hash comes
      back, otherwise the words are rejected. */
  lemma {:induction false} AddressRoundTripFails(codec: Codec, h: seq<byte>)
    requires Lawful(codec) && |h| == 20
    ensures AddressOf(codec, FromBuffer(h)).Ok?
    ensures var r := FromAddress(codec, AddressOf(codec, FromBuffer(h)).value);
            && r != Ok(FromBuffer(h))
            && (h[19] % 8 == 0 ==> r.Ok? && |r.value.hash| == 19)
            && (h[19] % 8 != 0 ==> r == Err(BadWords))
  {
    var words := ToWords(h);
    assert |words| == 32;
    assert ValidPrefix(Prefix);
    var s := codec.encode(Prefix, words, Limit).value;
    ToLowerIdempotent(Prefix);
    assert codec.decode(s, Limit) == Some(Decoded(Prefix, words));
    var tail := SliceFrom(words, 1);
    assert |tail| == 31 && tail[30] == words[31];
    assert PaddingOk(tail) <==> words[31] % Pow2(3) == 0;
    LastWordLowBits(h, 3);
    assert Pow2(3) == 8;
    var r := FromAddress(codec, s);
    assert r.Ok? <==> h[19] % 8 == 0;
  }

  /** `fromAddress` without the word drop: the decoded words are the hash's words. */
  function FromAddressIntended(codec: Codec, address: string): (r: Result<PublicKeyHash, AddressError>)
    ensures !StartsWith(address, Prefix) ==> r == Err(InvalidAddress)
    ensures r.Ok? ==>
              && codec.decode(address, Limit).Some?
              && ToWords(r.value.hash) == codec.decode(address, Limit).value.words
    ensures StartsWith(address, Prefix) && codec.decode(address, Limit).None? ==> r == Err(DecodeFailed)
    ensures StartsWith(address, Prefix) && codec.decode(address, Limit).Some? ==>
              (r.Ok? <==> PaddingOk(codec.decode(address, Limit).value.words))
  {
    if !StartsWith(address, Prefix) then Err(InvalidAddress)
    else
      match codec.decode(address, Limit)
      case None => Err(DecodeFailed)
      case Some(decoded) =>
        match FromWords(decoded.words)
        case None => Err(BadWords)
        case Some(program) =>
          WordsDecodeCanonical(decoded.words, program);
          Ok(PublicKeyHash(program))
  }

  /** With the word drop removed, every hash short enough for the limit (all
      20-byte hashes) round-trips through its address. */
  lemma {:induction false} AddressRoundTrip(codec: Codec, h: seq<byte>)
    requires Lawful(codec) && |h| <= 50
    ensures AddressOf(codec, FromBuffer(h)).Ok?
    ensures FromAddressIntended(codec, AddressOf(codec, FromBuffer(h)).value) == Ok(FromBuffer(h))
  {
    var words := ToWords(h);
    assert |words| <= 80;
    assert ValidPrefix(Prefix);
    var s := codec.encode(Prefix, words, Limit).value;
    ToLowerIdempotent(Prefix);
    assert StartsWith(s, Prefix);
    assert codec.decode(s, Limit) == Some(Decoded(Prefix, words));
    WordsRoundTrip(h);
  }
}
