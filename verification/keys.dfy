/** Public keys and recoverable ECDSA signatures. The secp256k1 library is an
    oracle: `Curve` carries its public-key recovery and DER import as plain
    functions, `None` standing for the exceptions they throw. */
module Keys {
  import opened Results
  import opened Bytes

  datatype Curve = Curve(
    /** `secp256k1.ecdsaRecover(signature, recoveryId, message)` */
    recover: (seq<byte>, int, seq<byte>) -> Option<seq<byte>>,
    /** `secp256k1.signatureImport(der)` */
    signatureImport: seq<byte> -> Option<seq<byte>>)

  datatype KeyError =
    | BadRecoverableLength(length: nat)
    | RecoveryFailed
    | BadDer

  /** A public key: the compression flag and the key bytes. `fromUint8Array` on
      an empty array leaves the flag `undefined`, which is `None` here. */
  datatype PublicKey = PublicKey(compressed: Option<byte>, bytes: seq<byte>)

  /** The byte a flag becomes in `Uint8Array.from` / `Buffer.from`: `undefined` is 0. */
  function FlagByte(f: Option<byte>): byte {
    if f.Some? then f.value else 0
  }

  /** `PublicKey.fromProtobuf` */
  function FromProtobuf(compressed: byte, bytes: seq<byte>): (pk: PublicKey)
    ensures pk.compressed == Some(compressed) && pk.bytes == bytes
    ensures ToUint8Array(pk) == [compressed] + bytes
  {
    PublicKey(Some(compressed), bytes)
  }

  /** `PublicKey.fromUint8Array`: the first byte is the flag, the rest the key. */
  function FromUint8Array(b: seq<byte>): (pk: PublicKey)
    ensures |b| > 0 ==> pk.compressed == Some(b[0]) && pk.bytes == b[1..]
    ensures |b| == 0 ==> pk.compressed == None && pk.bytes == []
  {
    PublicKey(if |b| > 0 then Some(b[0]) else None, SliceFrom(b, 1))
  }

  /** `PublicKey.toUint8Array`: the flag byte followed by the key bytes. */
  function ToUint8Array(pk: PublicKey): (b: seq<byte>)
    ensures |b| == 1 + |pk.bytes| && b[1..] == pk.bytes
    ensures b[0] == FlagByte(pk.compressed)
    ensures pk.compressed.Some? ==> b[0] == pk.compressed.value
  {
    [FlagByte(pk.compressed)] + pk.bytes
  }

  /** Packing a non-empty array into a key and back gives the array again; the
      empty array comes back as the single byte 0. */
  lemma Uint8ArrayRoundTrip(b: seq<byte>)
    ensures |b| > 0 ==> ToUint8Array(FromUint8Array(b)) == b
    ensures |b| == 0 ==> ToUint8Array(FromUint8Array(b)) == [0]
  {
    if |b| > 0 {
      assert b == [b[0]] + b[1..];
    }
  }

  /** A key with a flag survives the trip through its byte packing. */
  lemma PublicKeyRoundTrip(pk: PublicKey)
    requires pk.compressed.Some?
    ensures FromUint8Array(ToUint8Array(pk)) == pk
  {
  }

  /** `PublicKey.equals` as written: the flags are compared, but the byte
      comparison looks at the argument's bytes against themselves. */
  predicate Equals(self: PublicKey, other: PublicKey) {
    other.compressed == self.compressed && Matching(other.bytes, other.bytes)
  }

  /** `equals` as written depends on the compression flags alone. */
  lemma EqualsComparesFlagsOnly(self: PublicKey, other: PublicKey)
    ensures Equals(self, other) <==> self.compressed == other.compressed
  {
    MatchingIsEquality(other.bytes, other.bytes);
  }

  /** Two different keys with the same flag that `equals` as written reports equal. */
  lemma EqualsIgnoresBytes()
    ensures var a := PublicKey(Some(2), [1]);
            var b := PublicKey(Some(2), [7]);
            a != b && Equals(a, b)
  {
    EqualsComparesFlagsOnly(PublicKey(Some(2), [1]), PublicKey(Some(2), [7]));
  }

  /** `equals` as evidently intended: both fields agree byte for byte. */
  predicate EqualsIntended(self: PublicKey, other: PublicKey) {
    other.compressed == self.compressed && Matching(self.bytes, other.bytes)
  }

  lemma EqualsIntendedIsEquality(self: PublicKey, other: PublicKey)
    ensures EqualsIntended(self, other) <==> self == other
  {
    MatchingIsEquality(self.bytes, other.bytes);
  }

  /** `PublicKey.recoverFrom` on raw bytes: exactly 65 bytes, the first the
      recovery id and the other 64 the compact signature. */
  function RecoverFrom(curve: Curve, recoverable: seq<byte>, msg: seq<byte>): (r: Result<PublicKey, KeyError>)
    ensures |recoverable| != 65 ==> r == Err(BadRecoverableLength(|recoverable|))
    ensures |recoverable| == 65 ==>
      match curve.recover(recoverable[1..], recoverable[0], msg)
      case None => r == Err(RecoveryFailed)
      case Some(raw) =>
        && r.Ok? && ToUint8Array(r.value) == (if |raw| > 0 then raw else [0])
        && (|raw| > 0 ==> r.value.compressed == Some(raw[0]) && r.value.bytes == raw[1..])
  {
    if |recoverable| != 65 then Err(BadRecoverableLength(|recoverable|))
    else
      var recovered := curve.recover(recoverable[1..], recoverable[0], msg);
      if recovered.None? then Err(RecoveryFailed)
      else
        Uint8ArrayRoundTrip(recovered.value);
        Ok(FromUint8Array(recovered.value))
  }

  // ---------------------------------------------------------------------------
  // RecoverableSignature

  /** A compact signature with the message it signs, the key it belongs to and
      the recovery id the constructor found (4 when it found none). */
  datatype RecoverableSignature = RecoverableSignature(
    bytes: seq<byte>, message: seq<byte>, pubKey: PublicKey, recoveryId: nat)

  /** Recovery with `id` succeeds and yields exactly the packed key `raw`. */
  predicate RecoversTo(curve: Curve, bytes: seq<byte>, id: nat, msg: seq<byte>, raw: seq<byte>) {
    var recovered := curve.recover(bytes, id, msg);
    recovered.Some? && Matching(recovered.value, raw)
  }

  /** The constructor's loop from `id` on: try each id below 4 in turn, a thrown
      recovery counts as no match, and stop at the first match. */
  function SearchRecoveryId(curve: Curve, bytes: seq<byte>, msg: seq<byte>, raw: seq<byte>, id: nat): (r: nat)
    requires id <= 4
    ensures id <= r <= 4
    ensures r < 4 ==> RecoversTo(curve, bytes, r, msg, raw)
    ensures forall j :: id <= j < r ==> !RecoversTo(curve, bytes, j, msg, raw)
    decreases 4 - id
  {
    if id == 4 then 4
    else if RecoversTo(curve, bytes, id, msg, raw) then id
    else SearchRecoveryId(curve, bytes, msg, raw, id + 1)
  }

  /** `new RecoverableSignature(pubKey, bytes, msg)`: it never throws; the
      recovery id is the least id in 0..3 that recovers `pubKey`, or 4. */
  function NewRecoverableSignature(curve: Curve, pubKey: PublicKey, bytes: seq<byte>, msg: seq<byte>): (s: RecoverableSignature)
    ensures s.bytes == bytes && s.message == msg && s.pubKey == pubKey
    ensures s.recoveryId <= 4
    ensures s.recoveryId < 4 ==> curve.recover(bytes, s.recoveryId, msg) == Some(ToUint8Array(pubKey))
    ensures forall j :: 0 <= j < s.recoveryId ==> curve.recover(bytes, j, msg) != Some(ToUint8Array(pubKey))
    ensures s.recoveryId == 4 <==> forall j :: 0 <= j < 4 ==> curve.recover(bytes, j, msg) != Some(ToUint8Array(pubKey))
  {
    var raw := ToUint8Array(pubKey);
    var id := SearchRecoveryId(curve, bytes, msg, raw, 0);
    RecoversToIsRecovery(curve, bytes, msg, raw);
    RecoverableSignature(bytes, msg, pubKey, id)
  }

  lemma RecoversToIsRecovery(curve: Curve, bytes: seq<byte>, msg: seq<byte>, raw: seq<byte>)
    ensures forall j: nat :: RecoversTo(curve, bytes, j, msg, raw) <==> curve.recover(bytes, j, msg) == Some(raw)
  {
    forall j: nat
      ensures RecoversTo(curve, bytes, j, msg, raw) <==> curve.recover(bytes, j, msg) == Some(raw)
    {
      var recovered := curve.recover(bytes, j, msg);
      if recovered.Some? {
        MatchingIsEquality(recovered.value, raw);
      }
    }
  }

  /** `RecoverableSignature.from` on raw bytes: the 64 bytes after the first are
      the signature, the key comes from `PublicKey.recoverFrom`, and the
      constructor then searches the recovery id afresh. */
  function From(curve: Curve, recoverable: seq<byte>, msg: seq<byte>): (r: Result<RecoverableSignature, KeyError>)
    ensures |recoverable| != 65 ==> r == Err(BadRecoverableLength(|SliceFrom(recoverable, 1)|))
    ensures r.Ok? ==> |recoverable| == 65 && r.value.bytes == recoverable[1..] && r.value.message == msg
    ensures r.Ok? ==> RecoverFrom(curve, recoverable, msg) == Ok(r.value.pubKey)
    ensures |recoverable| == 65 ==> (r.Ok? <==> RecoverFrom(curve, recoverable, msg).Ok?)
    ensures |recoverable| == 65 && RecoverFrom(curve, recoverable, msg).Err? ==>
              r == Err(RecoverFrom(curve, recoverable, msg).error)
    ensures r.Ok? ==> r.value == NewRecoverableSignature(curve, r.value.pubKey, recoverable[1..], msg)
  {
    var bytes := SliceFrom(recoverable, 1);
    if |bytes| != 64 then Err(BadRecoverableLength(|bytes|))
    else
      var pubKey :- RecoverFrom(curve, recoverable, msg);
      Ok(NewRecoverableSignature(curve, pubKey, bytes, msg))
  }

  /** `RecoverableSignature.fromKeyedSignature`: the key comes from its protobuf
      form, the signature from DER, and the recovery id is searched. */
  function FromKeyedSignature(curve: Curve, compressed: byte, keyBytes: seq<byte>, der: seq<byte>, msg: seq<byte>)
    : (r: Result<RecoverableSignature, KeyError>)
    ensures curve.signatureImport(der).None? <==> r.Err?
    ensures r.Ok? ==>
              && r.value.bytes == curve.signatureImport(der).value
              && r.value.pubKey == PublicKey(Some(compressed), keyBytes)
              && r.value == NewRecoverableSignature(curve, r.value.pubKey, r.value.bytes, msg)
  {
    match curve.signatureImport(der)
    case None => Err(BadDer)
    case Some(sig) => Ok(NewRecoverableSignature(curve, FromProtobuf(compressed, keyBytes), sig, msg))
  }

  /** The bytes `toHexString` renders in hex: the recovery id, then the signature. */
  function ToRecoverableBytes(s: RecoverableSignature): (b: seq<byte>)
    requires s.recoveryId < 256
    ensures |b| == 1 + |s.bytes| && b[0] == s.recoveryId && b[1..] == s.bytes
  {
    [s.recoveryId] + s.bytes
  }

  // ---------------------------------------------------------------------------
  // Byte inputs of `recoverFrom` and `from`

  /** The two byte forms both readers accept: a `Uint8Array`, or a Node
      `Buffer` over the same bytes. */
  datatype Recoverable = Array(bytes: seq<byte>) | NodeBuffer(bytes: seq<byte>)

  /** The bytes the readers take from an input as written. A `Buffer` is read
      as `Uint8Array.from(recoverable.buffer)`: its `ArrayBuffer` is neither
      iterable nor has a `length`, so nothing is copied. */
  function InputBytes(input: Recoverable): seq<byte> {
    match input
    case Array(bytes) => bytes
    case NodeBuffer(_) => []
  }

  /** `PublicKey.recoverFrom` on either byte form, as written. */
  function RecoverFromInput(curve: Curve, input: Recoverable, msg: seq<byte>): (r: Result<PublicKey, KeyError>)
    ensures input.Array? ==> r == RecoverFrom(curve, input.bytes, msg)
    ensures input.NodeBuffer? ==> r == Err(BadRecoverableLength(0))
  {
    RecoverFrom(curve, InputBytes(input), msg)
  }

  /** `RecoverableSignature.from` on either byte form, as written. */
  function FromInput(curve: Curve, input: Recoverable, msg: seq<byte>): (r: Result<RecoverableSignature, KeyError>)
    ensures input.Array? ==> r == From(curve, input.bytes, msg)
    ensures input.NodeBuffer? ==> r == Err(BadRecoverableLength(0))
  {
    From(curve, InputBytes(input), msg)
  }

  /** Both readers as evidently intended: a `Buffer` is read for its bytes. */
  function RecoverFromInputIntended(curve: Curve, input: Recoverable, msg: seq<byte>): (r: Result<PublicKey, KeyError>)
    ensures r == RecoverFromInput(curve, Array(input.bytes), msg)
  {
    RecoverFrom(curve, input.bytes, msg)
  }

  function FromInputIntended(curve: Curve, input: Recoverable, msg: seq<byte>): (r: Result<RecoverableSignature, KeyError>)
    ensures r == FromInput(curve, Array(input.bytes), msg)
  {
    From(curve, input.bytes, msg)
  }

  /** A signature whose recovery id was found, re-read through `from`, is the
      same signature: the serialised id recovers the same key and the search
      finds the same id again. */
  lemma {:induction false} RecoverableRoundTrip(curve: Curve, pubKey: PublicKey, bytes: seq<byte>, msg: seq<byte>)
    requires |bytes| == 64 && pubKey.compressed.Some?
    requires NewRecoverableSignature(curve, pubKey, bytes, msg).recoveryId < 4
    ensures var s := NewRecoverableSignature(curve, pubKey, bytes, msg);
            From(curve, ToRecoverableBytes(s), msg) == Ok(s)
  {
    var s := NewRecoverableSignature(curve, pubKey, bytes, msg);
    var b := ToRecoverableBytes(s);
    assert b[1..] == bytes && b[0] == s.recoveryId;
    assert curve.recover(b[1..], b[0], msg) == Some(ToUint8Array(pubKey));
    PublicKeyRoundTrip(pubKey);
    assert RecoverFrom(curve, b, msg) == Ok(pubKey);
  }

  /** When no id recovers the key, the constructor still succeeds and
      `toHexString` leads with 4, which is not a recovery id. */
  lemma UnrecoverableSerialisesFour(curve: Curve, pubKey: PublicKey, bytes: seq<byte>, msg: seq<byte>)
    requires forall j :: 0 <= j < 4 ==> curve.recover(bytes, j, msg) != Some(ToUint8Array(pubKey))
    ensures ToRecoverableBytes(NewRecoverableSignature(curve, pubKey, bytes, msg))[0] == 4
  {
  }

  /** The constructor as evidently intended: when no id in 0..3 recovers
      the key, construction fails instead of settling on id 4. */
  function NewRecoverableSignatureChecked(curve: Curve, pubKey: PublicKey, bytes: seq<byte>, msg: seq<byte>)
    : (r: Result<RecoverableSignature, KeyError>)
    ensures r.Err? <==> forall j :: 0 <= j < 4 ==> curve.recover(bytes, j, msg) != Some(ToUint8Array(pubKey))
    ensures r.Ok? ==>
              && r.value.recoveryId < 4
              && curve.recover(bytes, r.value.recoveryId, msg) == Some(ToUint8Array(r.value.pubKey))
  {
    var s := NewRecoverableSignature(curve, pubKey, bytes, msg);
    if s.recoveryId == 4 then Err(RecoveryFailed) else Ok(s)
  }

  /** As written, no `Buffer` is ever accepted: even the serialised form of a
      signature that `from` reads back from a `Uint8Array` is rejected as 0 bytes
      long when it comes in a `Buffer`. */
  lemma {:induction false} BufferAlwaysRejected(curve: Curve, pubKey: PublicKey, bytes: seq<byte>, msg: seq<byte>)
    requires |bytes| == 64 && pubKey.compressed.Some?
    requires NewRecoverableSignature(curve, pubKey, bytes, msg).recoveryId < 4
    ensures var b := ToRecoverableBytes(NewRecoverableSignature(curve, pubKey, bytes, msg));
            && FromInput(curve, Array(b), msg).Ok?
            && FromInput(curve, NodeBuffer(b), msg) == Err(BadRecoverableLength(0))
            && RecoverFromInput(curve, NodeBuffer(b), msg) == Err(BadRecoverableLength(0))
  {
    RecoverableRoundTrip(curve, pubKey, bytes, msg);
  }

  /** Read as intended, a `Buffer` carrying a serialised signature gives that
      signature back, as the `Uint8Array` does. */
  lemma {:induction false} BufferRoundTripIntended(curve: Curve, pubKey: PublicKey, bytes: seq<byte>, msg: seq<byte>)
    requires |bytes| == 64 && pubKey.compressed.Some?
    requires NewRecoverableSignature(curve, pubKey, bytes, msg).recoveryId < 4
    ensures var s := NewRecoverableSignature(curve, pubKey, bytes, msg);
            FromInputIntended(curve, NodeBuffer(ToRecoverableBytes(s)), msg) == Ok(s)
  {
    RecoverableRoundTrip(curve, pubKey, bytes, msg);
  }
}
