/** Byte sequences, the JavaScript slicing rules the wallet code relies on,
    ASCII string helpers and big-endian 32-bit words. */
module Bytes {

  /** One element of a `Uint8Array`. */
  type byte = x: int | 0 <= x < 256

  /** Largest value a `DataView.getUint32` read can produce, plus one. */
  const TwoTo32: nat := 0x1_0000_0000

  /** `n` zero bytes, as produced by `new Array(n).fill(0)`. */
  function Zeros(n: nat): (r: seq<byte>)
    ensures |r| == n
    ensures forall i :: 0 <= i < n ==> r[i] == 0
  {
    seq(n, _ => 0)
  }

  function Min(a: int, b: int): int {
    if a <= b then a else b
  }

  /** `s.slice(lo, hi)` / `s.subarray(lo, hi)` on a JavaScript array or buffer:
      both bounds are clamped to the length, and a reversed range is empty. */
  function Slice<T>(s: seq<T>, lo: nat, hi: nat): (r: seq<T>)
    ensures |r| <= |s|
  {
    var l := Min(lo, |s|);
    var h := Min(hi, |s|);
    if l <= h then s[l..h] else []
  }

  /** `s.slice(lo)`: everything from `lo` on, empty when `lo` is past the end. */
  function SliceFrom<T>(s: seq<T>, lo: nat): (r: seq<T>)
    ensures |r| <= |s|
  {
    if lo <= |s| then s[lo..] else []
  }

  /** `s.startsWith(p)` */
  predicate StartsWith(s: string, p: string) {
    |p| <= |s| && s[..|p|] == p
  }

  predicate IsUpper(c: char) {
    'A' <= c <= 'Z'
  }

  /** Lower-cases one ASCII letter; every other character is left as it is. */
  function LowerChar(c: char): (r: char)
    ensures !IsUpper(r)
    ensures !IsUpper(c) ==> r == c
  {
    if IsUpper(c) then (c as int - 'A' as int + 'a' as int) as char else c
  }

  /** `s.toLowerCase()` on ASCII letters only; non-ASCII case mapping is not modelled. */
  function ToLower(s: string): (r: string)
    ensures |r| == |s|
    ensures IsLower(r)
  {
    seq(|s|, i requires 0 <= i < |s| => LowerChar(s[i]))
  }

  predicate IsLower(s: string) {
    forall i :: 0 <= i < |s| ==> !IsUpper(s[i])
  }

  /** Lower-casing leaves an already lower-case string unchanged. */
  lemma ToLowerIdempotent(s: string)
    requires IsLower(s)
    ensures ToLower(s) == s
  {
  }

  /** Two strings that differ at their first character cannot both prefix `s`. */
  lemma PrefixesExclusive(s: string, p: string, q: string)
    requires |p| > 0 && |q| > 0 && p[0] != q[0]
    ensures StartsWith(s, p) ==> !StartsWith(s, q)
  {
    if StartsWith(s, p) {
      assert s[..|p|][0] == s[0];
    }
  }

  // ---------------------------------------------------------------------------
  // matchingUint8Arrays

  /** The walk of `a.every((value, index) => value === b[index])` from `index` on. */
  predicate AgreeFrom(a: seq<byte>, b: seq<byte>, index: nat)
    requires |a| == |b| && index <= |a|
    decreases |a| - index
  {
    index == |a| || (a[index] == b[index] && AgreeFrom(a, b, index + 1))
  }

  /** `matchingUint8Arrays(a, b)`: equal lengths, then a pointwise walk. */
  predicate Matching(a: seq<byte>, b: seq<byte>) {
    |a| == |b| && AgreeFrom(a, b, 0)
  }

  lemma {:induction false} AgreeFromIsSuffixEquality(a: seq<byte>, b: seq<byte>, index: nat)
    requires |a| == |b| && index <= |a|
    ensures AgreeFrom(a, b, index) <==> a[index..] == b[index..]
    decreases |a| - index
  {
    if index < |a| {
      AgreeFromIsSuffixEquality(a, b, index + 1);
      assert a[index..] == [a[index]] + a[index + 1..];
      assert b[index..] == [b[index]] + b[index + 1..];
    }
  }

  /** Two byte arrays match exactly when they are the same sequence. */
  lemma {:induction false} MatchingIsEquality(a: seq<byte>, b: seq<byte>)
    ensures Matching(a, b) <==> a == b
  {
    if |a| == |b| {
      AgreeFromIsSuffixEquality(a, b, 0);
      assert a[0..] == a && b[0..] == b;
    }
  }

  // ---------------------------------------------------------------------------
  // Big-endian 32-bit words, as read by `DataView.getUint32(offset, false)`

  /** The unsigned big-endian value of four bytes. */
  function U32BE(b: seq<byte>): (r: nat)
    requires |b| == 4
    ensures r < TwoTo32
  {
    var b0: int, b1: int, b2: int, b3: int := b[0], b[1], b[2], b[3];
    ((b0 * 256 + b1) * 256 + b2) * 256 + b3
  }

  /** The four big-endian bytes of a 32-bit value. */
  function U32Bytes(x: nat): (r: seq<byte>)
    requires x < TwoTo32
    ensures |r| == 4
  {
    var q1 := x / 256;
    var q2 := q1 / 256;
    [q2 / 256, q2 % 256, q1 % 256, x % 256]
  }

  /** Appending one base-256 digit and reading it back. */
  lemma ShiftByte(y: nat, d: byte)
    ensures (y * 256 + d) / 256 == y && (y * 256 + d) % 256 == d
  {
  }

  lemma U32RoundTrip(x: nat)
    requires x < TwoTo32
    ensures U32BE(U32Bytes(x)) == x
  {
  }

  lemma U32BytesRoundTrip(b: seq<byte>)
    requires |b| == 4
    ensures U32Bytes(U32BE(b)) == b
  {
    var y1: nat := b[0] as int * 256 + b[1];
    var y2: nat := y1 * 256 + b[2];
    ShiftByte(y2, b[3]);
    ShiftByte(y1, b[2]);
    ShiftByte(b[0], b[1]);
  }
}
