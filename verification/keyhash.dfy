/** `PublicKeyHash` of the wallet's types: the 20-byte hash of a public key,
    stored as the 5-bit words of its bech32 form. SHA-256 is an oracle. */
module KeyHash {
  import opened Results
  import opened Bytes
  import opened Bech32
  import Keys

  datatype HashError =
    | InvalidBech32
    | EncodeFailed
    | BadWords

  datatype PublicKeyHash = PublicKeyHash(words: seq<word>)

  const MainnetPrefix: string := "wit"
  const TestnetPrefix: string := "twit"
  const MainnetLimit: nat := 66
  const TestnetLimit: nat := 67

  /** `PublicKeyHash.fromHash` */
  function FromHash(hash: seq<byte>): (h: PublicKeyHash)
    ensures FromWords(h.words) == Some(hash)
  {
    WordsRoundTrip(hash);
    PublicKeyHash(ToWords(hash))
  }

  /** `PublicKeyHash.fromPublicKey`: SHA-256 of the flag byte followed by the key
      bytes, cut to its first 20 bytes (fewer only if the digest were shorter). */
  function FromPublicKey(sha256: seq<byte> -> seq<byte>, pk: Keys.PublicKey): (h: PublicKeyHash)
    ensures FromWords(h.words) == Some(Slice(sha256(Keys.ToUint8Array(pk)), 0, 20))
    ensures |h.words| <= 32
  {
    FromHash(Slice(sha256(Keys.ToUint8Array(pk)), 0, 20))
  }

  /** `toBech32(network)`: prefix "wit" with limit 66 on "mainnet", and "twit"
      with limit 67 on every other network name. */
  function ToBech32(codec: Codec, h: PublicKeyHash, network: string): (r: Result<string, HashError>)
    ensures r.Ok? <==> codec.encode(NetworkPrefix(network), h.words, NetworkLimit(network)).Some?
    ensures r.Ok? ==> Some(r.value) == codec.encode(NetworkPrefix(network), h.words, NetworkLimit(network))
  {
    var encoded := codec.encode(NetworkPrefix(network), h.words, NetworkLimit(network));
    if encoded.None? then Err(EncodeFailed) else Ok(encoded.value)
  }

  function NetworkPrefix(network: string): (p: string)
    ensures p == MainnetPrefix <==> network == "mainnet"
    ensures p == MainnetPrefix || p == TestnetPrefix
  {
    if network == "mainnet" then MainnetPrefix else TestnetPrefix
  }

  function NetworkLimit(network: string): nat {
    if network == "mainnet" then MainnetLimit else TestnetLimit
  }

  /** `PublicKeyHash.fromBech32`: the string is lower-cased; one starting with
      "wit" is decoded with limit 66, one starting with "twit" with limit 67,
      anything else and every decoding failure is rejected. The decoded prefix
      itself is not compared. */
  function FromBech32(codec: Codec, s: string): (r: Result<PublicKeyHash, HashError>)
    ensures !StartsWith(ToLower(s), MainnetPrefix) && !StartsWith(ToLower(s), TestnetPrefix) ==> r == Err(InvalidBech32)
    ensures StartsWith(ToLower(s), MainnetPrefix) ==>
              match codec.decode(ToLower(s), MainnetLimit)
              case None => r == Err(InvalidBech32)
              case Some(d) => r == Ok(PublicKeyHash(d.words))
    ensures StartsWith(ToLower(s), TestnetPrefix) ==>
              match codec.decode(ToLower(s), TestnetLimit)
              case None => r == Err(InvalidBech32)
              case Some(d) => r == Ok(PublicKeyHash(d.words))
  {
    var lower := ToLower(s);
    PrefixesExclusive(lower, TestnetPrefix, MainnetPrefix);
    if StartsWith(lower, MainnetPrefix) then
      DecodeWith(codec, lower, MainnetLimit)
    else if StartsWith(lower, TestnetPrefix) then
      DecodeWith(codec, lower, TestnetLimit)
    else
      Err(InvalidBech32)
  }

  function DecodeWith(codec: Codec, s: string, limit: nat): Result<PublicKeyHash, HashError> {
    match codec.decode(s, limit)
    case None => Err(InvalidBech32)
    case Some(d) => Ok(PublicKeyHash(d.words))
  }

  /** `toBytes20`: the words regrouped into bytes, cut to 20; throws where
      `fromWords` does. */
  function ToBytes20(h: PublicKeyHash): (r: Result<seq<byte>, HashError>)
    ensures r.Err? <==> FromWords(h.words).None?
    ensures r.Ok? ==> |r.value| <= 20 && r.value == Slice(FromWords(h.words).value, 0, 20)
  {
    match FromWords(h.words)
    case None => Err(BadWords)
    case Some(bytes) => Ok(Slice(bytes, 0, 20))
  }

  /** `toBytes32`: the same 20 bytes followed by 12 zero bytes. */
  function ToBytes32(h: PublicKeyHash): (r: Result<seq<byte>, HashError>)
    ensures r.Err? <==> ToBytes20(h).Err?
    ensures r.Ok? ==> r.value == ToBytes20(h).value + Zeros(12)
  {
    match FromWords(h.words)
    case None => Err(BadWords)
    case Some(bytes) => Ok(Slice(bytes, 0, 20) + Zeros(12))
  }

  /** A 20-byte hash comes back out of `toBytes20`, and `toBytes32` pads it to 32. */
  lemma HashBytesRoundTrip(hash: seq<byte>)
    requires |hash| == 20
    ensures ToBytes20(FromHash(hash)) == Ok(hash)
    ensures ToBytes32(FromHash(hash)) == Ok(hash + Zeros(12))
    ensures |ToBytes32(FromHash(hash)).value| == 32
  {
    assert Slice(hash, 0, 20) == hash;
  }

  /** For every lawful codec, a hash with at most 56 words (every 20-byte hash)
      is encoded on either network and read back by `fromBech32` unchanged. */
  lemma {:induction false} Bech32RoundTrip(codec: Codec, h: PublicKeyHash, network: string)
    requires Lawful(codec)
    requires |h.words| <= 56
    ensures ToBech32(codec, h, network).Ok?
    ensures FromBech32(codec, ToBech32(codec, h, network).value) == Ok(h)
  {
    var p, limit := NetworkPrefix(network), NetworkLimit(network);
    assert ValidPrefix(p);
    assert codec.encode(p, h.words, limit).Some?;
    var s := codec.encode(p, h.words, limit).value;
    ToLowerIdempotent(p);
    ToLowerIdempotent(s);
    assert StartsWith(s, p);
    assert codec.decode(s, limit) == Some(Decoded(p, h.words));
    if network != "mainnet" {
      PrefixesExclusive(s, TestnetPrefix, MainnetPrefix);
    }
  }

  /** The address of a public key's hash parses back to the same hash. */
  lemma PublicKeyAddressRoundTrip(codec: Codec, sha256: seq<byte> -> seq<byte>, pk: Keys.PublicKey, network: string)
    requires Lawful(codec)
    ensures var h := FromPublicKey(sha256, pk);
            ToBech32(codec, h, network).Ok? && FromBech32(codec, ToBech32(codec, h, network).value) == Ok(h)
  {
    Bech32RoundTrip(codec, FromPublicKey(sha256, pk), network);
  }
}
