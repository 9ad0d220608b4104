/** The bech32 layer the wallet code leans on: the 8-bit <-> 5-bit regrouping
    behind `toWords` / `fromWords` (the "convertbits" procedure of BIP 173), and
    the checksummed string codec itself, kept abstract as an encode/decode pair. */
module Bech32 {
  import opened Results
  import opened Bytes

  /** One 5-bit bech32 data character. */
  type word = x: int | 0 <= x < 32

  function Pow2(n: nat): (r: nat)
    ensures r >= 1
  {
    if n == 0 then 1 else 2 * Pow2(n - 1)
  }

  // ---------------------------------------------------------------------------
  // Bit streams

  /** The low `n` bits of `x`, most significant first. */
  function ToBits(x: nat, n: nat): (r: seq<bool>)
    ensures |r| == n
  {
    if n == 0 then [] else ToBits(x / 2, n - 1) + [x % 2 == 1]
  }

  /** The unsigned value of a big-endian bit string. */
  function FromBits(s: seq<bool>): (r: nat)
    ensures r < Pow2(|s|)
  {
    if s == [] then 0 else 2 * FromBits(s[..|s| - 1]) + (if s[|s| - 1] then 1 else 0)
  }

  lemma {:induction false} FromToBits(x: nat, n: nat)
    requires x < Pow2(n)
    ensures FromBits(ToBits(x, n)) == x
  {
    if n > 0 {
      FromToBits(x / 2, n - 1);
      assert ToBits(x, n)[..n - 1] == ToBits(x / 2, n - 1);
    }
  }

  lemma {:induction false} ToFromBits(s: seq<bool>)
    ensures ToBits(FromBits(s), |s|) == s
  {
    if s != [] {
      var init := s[..|s| - 1];
      ToFromBits(init);
      var v := FromBits(s);
      assert v / 2 == FromBits(init);
      assert s == init + [s[|s| - 1]];
    }
  }

  function FalseBits(n: nat): (r: seq<bool>)
    ensures |r| == n
    ensures forall i :: 0 <= i < n ==> !r[i]
  {
    seq(n, _ => false)
  }

  /** Every value of `data` written as `n` bits, one after the other. */
  function Expand(data: seq<nat>, n: nat): (r: seq<bool>)
    ensures |r| == |data| * n
  {
    if data == [] then [] else ToBits(data[0], n) + Expand(data[1..], n)
  }

  /** Removing one group of `n` bits takes one off the quotient and keeps the remainder. */
  lemma DivModStep(a: nat, n: nat)
    requires 0 < n <= a
    ensures (a - n) / n == a / n - 1 && (a - n) % n == a % n
  {
    var q, r := (a - n) / n, (a - n) % n;
    assert a == (q + 1) * n + r;
    DivModUnique(a, n, q + 1, r);
  }

  lemma DivModUnique(a: nat, n: nat, q: nat, r: nat)
    requires 0 < n && r < n && a == q * n + r
    ensures a / n == q && a % n == r
  {
    var q', r' := a / n, a % n;
    assert q' * n + r' == q * n + r;
    if q' < q {
      MulGap(q', q, n);
    } else if q' > q {
      MulGap(q, q', n);
    }
  }

  /** Multiples of `n` with different factors are at least `n` apart. */
  lemma MulGap(x: nat, y: nat, n: nat)
    requires x < y
    ensures y * n >= x * n + n
  {
    var k := y - x;
    assert y * n == x * n + k * n;
    assert k * n >= n by {
      assert k * n == (k - 1) * n + n;
    }
  }

  /** The bit stream cut into consecutive `n`-bit groups; an incomplete last group is dropped. */
  function Group(s: seq<bool>, n: nat): (r: seq<nat>)
    requires n > 0
    ensures |r| == |s| / n
    ensures forall i :: 0 <= i < |r| ==> r[i] < Pow2(n)
    decreases |s|
  {
    if |s| < n then [] else
      DivModStep(|s|, n);
      [FromBits(s[..n])] + Group(s[n..], n)
  }

  predicate Fits(data: seq<nat>, n: nat) {
    forall i :: 0 <= i < |data| ==> data[i] < Pow2(n)
  }

  lemma {:induction false} GroupExpand(data: seq<nat>, n: nat)
    requires n > 0 && Fits(data, n)
    ensures Group(Expand(data, n), n) == data
  {
    if data != [] {
      var e := Expand(data, n);
      assert e == ToBits(data[0], n) + Expand(data[1..], n);
      assert e[..n] == ToBits(data[0], n);
      assert e[n..] == Expand(data[1..], n);
      FromToBits(data[0], n);
      GroupExpand(data[1..], n);
    }
  }

  lemma {:induction false} ExpandGroup(s: seq<bool>, n: nat)
    requires n > 0 && |s| % n == 0
    ensures Expand(Group(s, n), n) == s
    decreases |s|
  {
    if |s| >= n {
      DivModStep(|s|, n);
      var g := Group(s, n);
      assert g[0] == FromBits(s[..n]);
      assert g[1..] == Group(s[n..], n);
      ToFromBits(s[..n]);
      ExpandGroup(s[n..], n);
      assert s == s[..n] + s[n..];
    } else {
      assert |s| == 0;
    }
  }

  /** Bits after the last complete group do not change the grouping. */
  lemma {:induction false} GroupIgnoresShortTail(s: seq<bool>, t: seq<bool>, n: nat)
    requires n > 0 && |s| % n == 0 && |t| < n
    ensures Group(s + t, n) == Group(s, n)
    decreases |s|
  {
    if |s| >= n {
      DivModStep(|s|, n);
      assert (s + t)[..n] == s[..n];
      assert (s + t)[n..] == s[n..] + t;
      GroupIgnoresShortTail(s[n..], t, n);
    } else {
      assert |s| == 0;
      assert s + t == t;
    }
  }

  /** The low `k` bits of `x`, as a remainder: halving drops the lowest bit. */
  lemma ModPow2Step(x: nat, k: nat)
    requires k > 0
    ensures x % Pow2(k) == 2 * ((x / 2) % Pow2(k - 1)) + x % 2
  {
    var P := Pow2(k - 1);
    var a, c, b := (x / 2) / P, (x / 2) % P, x % 2;
    assert x / 2 == a * P + c;
    assert x == a * (2 * P) + (2 * c + b);
    DivModUnique(x, 2 * P, a, 2 * c + b);
  }

  /** The last `k` of the `n` bits of `x` are all zero exactly when `x` is a
      multiple of 2^k. */
  lemma {:induction false} LowBits(x: nat, n: nat, k: nat)
    requires k <= n
    ensures ToBits(x, n)[n - k..] == FalseBits(k) <==> x % Pow2(k) == 0
  {
    if k > 0 {
      LowBits(x / 2, n - 1, k - 1);
      var hi := ToBits(x / 2, n - 1)[(n - 1) - (k - 1)..];
      assert ToBits(x, n)[n - k..] == hi + [x % 2 == 1];
      assert FalseBits(k) == FalseBits(k - 1) + [false];
      assert hi + [x % 2 == 1] == FalseBits(k) <==> hi == FalseBits(k - 1) && x % 2 == 0 by {
        if hi + [x % 2 == 1] == FalseBits(k) {
          assert (hi + [x % 2 == 1])[..k - 1] == hi;
          assert (hi + [x % 2 == 1])[k - 1] == (x % 2 == 1);
        }
      }
      ModPow2Step(x, k);
    }
  }

  lemma {:induction false} ExpandSnoc(data: seq<nat>, n: nat)
    requires |data| > 0
    ensures Expand(data, n) == Expand(data[..|data| - 1], n) + ToBits(data[|data| - 1], n)
  {
    if |data| > 1 {
      ExpandSnoc(data[1..], n);
      assert data[1..][..|data| - 2] == data[..|data| - 1][1..];
      assert data[1..][|data| - 2] == data[|data| - 1];
    } else {
      assert data[..0] == [];
    }
  }

  /** The last `k <= n` bits of an expanded stream are the last bits of its last value. */
  lemma TailBits(data: seq<nat>, n: nat, k: nat)
    requires |data| > 0 && k <= n
    ensures |Expand(data, n)| >= k
    ensures var bits := Expand(data, n);
            bits[|bits| - k..] == ToBits(data[|data| - 1], n)[n - k..]
  {
    ExpandSnoc(data, n);
  }

  // ---------------------------------------------------------------------------
  // convertbits

  /** Number of bits left over after the last complete `to`-bit group. */
  function Leftover(bits: seq<bool>, to: nat): nat
    requires to > 0
  {
    |bits| % to
  }

  /** Number of zero bits that pad `n` bits up to whole `to`-bit groups. */
  function PadLength(n: nat, to: nat): nat
    requires to > 0
  {
    if n % to == 0 then 0 else to - n % to
  }

  /** Regroups a bit stream into `to`-bit values. With `pad`, an incomplete last
      group is filled up with zero bits; without it, the left-over bits must be
      fewer than `from` ("excess padding") and all zero ("non-zero padding"). */
  function Regroup(bits: seq<bool>, from: nat, to: nat, pad: bool): (r: Option<seq<nat>>)
    requires to > 0
    ensures pad ==> r.Some?
  {
    var rest := Leftover(bits, to);
    if pad then
      Some(Group(bits + FalseBits(PadLength(|bits|, to)), to))
    else if rest >= from then None
    else if bits[|bits| - rest..] != FalseBits(rest) then None
    else Some(Group(bits, to))
  }

  /** `bech32.toWords`: bytes to 5-bit words, zero-padding the last word. */
  function ToWords(bytes: seq<byte>): (r: seq<word>)
    ensures |r| == (|bytes| * 8 + 4) / 5
  {
    var g := Regroup(Expand(bytes, 8), 8, 5, true).value;
    assert Pow2(5) == 32;
    g
  }

  /** `bech32.fromWords`: 5-bit words back to bytes; `None` where the library throws. */
  function FromWords(words: seq<word>): (r: Option<seq<byte>>)
    ensures r.Some? ==> |r.value| == |words| * 5 / 8
    ensures r.Some? <==> PaddingOk(words)
  {
    var g := Regroup(Expand(words, 5), 5, 8, false);
    assert Pow2(8) == 256;
    RegroupWordsFails(words);
    if g.None? then None else Some(g.value)
  }

  /** The bits left over after the last whole byte are fewer than 5 and all
      zero; they are the low bits of the last word. */
  predicate PaddingOk(words: seq<word>) {
    var rest := (|words| * 5) % 8;
    rest < 5 && (rest == 0 || words[|words| - 1] % Pow2(rest) == 0)
  }

  /** Regrouping words into bytes fails on 5 or more left-over bits ("excess
      padding"), and on fewer when they are not all zero ("non-zero padding"). */
  lemma RegroupWordsFails(words: seq<word>)
    ensures Regroup(Expand(words, 5), 5, 8, false).Some? <==> PaddingOk(words)
  {
    var bits := Expand(words, 5);
    var rest := Leftover(bits, 8);
    assert rest == (|words| * 5) % 8;
    RegroupUnpadded(bits, 5, 8);
    if 0 < rest < 5 {
      LastWordBits(words, bits, rest);
    }
  }

  lemma LastWordBits(words: seq<word>, bits: seq<bool>, rest: nat)
    requires bits == Expand(words, 5) && 0 < rest < 5 && |words| > 0
    ensures |bits| >= rest
    ensures bits[|bits| - rest..] == FalseBits(rest) <==> words[|words| - 1] % Pow2(rest) == 0
  {
    var last: nat := words[|words| - 1];
    var tail := ToBits(last, 5)[5 - rest..];
    assert |bits| >= rest && bits[|bits| - rest..] == tail by {
      TailBits(words, 5, rest);
    }
    assert tail == FalseBits(rest) <==> last % Pow2(rest) == 0 by {
      LowBits(last, 5, rest);
    }
  }

  /** Without padding, regrouping fails exactly on too many or non-zero left-over bits. */
  lemma RegroupUnpadded(bits: seq<bool>, from: nat, to: nat)
    requires to > 0
    ensures var rest := Leftover(bits, to);
            Regroup(bits, from, to, false).None? <==> rest >= from || bits[|bits| - rest..] != FalseBits(rest)
  {
    if Leftover(bits, to) == 0 {
      assert bits[|bits|..] == [];
    }
  }

  lemma PaddedLength(k: nat, n: nat)
    requires n == k * 8
    ensures var p := PadLength(n, 5);
            (n + p) % 5 == 0 && (n + p) / 5 == (n + 4) / 5 && (n + p) % 8 == p
  {
    var p := PadLength(n, 5);
    var q, rest := n / 5, n % 5;
    var qp := if rest == 0 then q else q + 1;
    assert n + p == qp * 5;
    DivModUnique(n + p, 5, qp, 0);
    DivModUnique(n + 4, 5, qp, rest + 4 - 5 * (qp - q));
    DivModUnique(n + p, 8, k, p);
  }

  lemma {:induction false} FitsBytes(bytes: seq<byte>)
    ensures Fits(bytes, 8)
  {
    assert Pow2(8) == 256;
  }

  lemma {:induction false} FitsWords(words: seq<word>)
    ensures Fits(words, 5)
  {
    assert Pow2(5) == 32;
  }

  /** Decoding the words of a byte string gives the byte string back. */
  lemma {:induction false} WordsRoundTrip(bytes: seq<byte>)
    ensures FromWords(ToWords(bytes)) == Some(bytes)
  {
    var n := |bytes| * 8;
    var bits := Expand(bytes, 8);
    var p := PadLength(n, 5);
    var padded := bits + FalseBits(p);
    var w := ToWords(bytes);
    ExpandToWords(bytes);
    assert Expand(w, 5) == padded;
    PaddedLength(|bytes|, n);
    assert Leftover(padded, 8) == p;
    assert padded[|padded| - p..] == FalseBits(p);
    GroupIgnoresShortTail(bits, FalseBits(p), 8);
    FitsBytes(bytes);
    GroupExpand(bytes, 8);
  }

  /** The last word of `toWords` carries the zero bits that pad the bytes up to
      whole words. */
  lemma ToWordsZeroPadded(bytes: seq<byte>)
    ensures var rest := (|bytes| * 8) % 5;
            var w := ToWords(bytes);
            rest != 0 ==> |w| > 0 && w[|w| - 1] % Pow2(5 - rest) == 0
  {
    var w := ToWords(bytes);
    var n := |bytes| * 8;
    var rest := n % 5;
    if rest != 0 {
      WordsRoundTrip(bytes);
      PaddedLength(|bytes|, n);
      var padded := n + (5 - rest);
      assert |w| * 5 == padded;
      assert (|w| * 5) % 8 == 5 - rest;
      assert PaddingOk(w);
    }
  }

  /** Regrouping bytes into words and expanding the words again gives the
      bytes' bits followed by the zero padding. */
  lemma ExpandToWords(bytes: seq<byte>)
    ensures Expand(ToWords(bytes), 5) == Expand(bytes, 8) + FalseBits(PadLength(|bytes| * 8, 5))
  {
    var bits := Expand(bytes, 8);
    var padded := PaddedBits(bits, |bytes|);
    var w := ToWords(bytes);
    assert w == Group(padded, 5) by {
      assert Regroup(bits, 8, 5, true) == Some(Group(padded, 5));
    }
    ExpandGroup(padded, 5);
    assert Expand(w, 5) == padded;
  }

  /** `bits` of `k` bytes padded up to whole words, with the length facts `toWords` needs. */
  lemma PaddedBits(bits: seq<bool>, k: nat) returns (padded: seq<bool>)
    requires |bits| == k * 8
    ensures padded == bits + FalseBits(PadLength(k * 8, 5))
    ensures padded == bits + FalseBits(PadLength(|bits|, 5))
    ensures |padded| % 5 == 0
  {
    padded := bits + FalseBits(PadLength(k * 8, 5));
    PaddedLength(k, k * 8);
  }

  /** When the bytes fill whole words, the last word ends in the last byte's
      bits: their low `k` bits are zero together. */
  lemma LastWordLowBits(bytes: seq<byte>, k: nat)
    requires |bytes| > 0 && (|bytes| * 8) % 5 == 0 && k <= 5
    ensures var w := ToWords(bytes);
            |w| > 0 && (w[|w| - 1] % Pow2(k) == 0 <==> bytes[|bytes| - 1] % Pow2(k) == 0)
  {
    var w := ToWords(bytes);
    assert Expand(w, 5) == Expand(bytes, 8) by {
      ExpandToWords(bytes);
      assert Expand(bytes, 8) + FalseBits(0) == Expand(bytes, 8);
    }
    SameLowBits(w, 5, bytes, 8, k);
  }

  /** Two value streams with the same bits end in values whose low `k` bits
      are zero together. */
  lemma SameLowBits(a: seq<nat>, n: nat, b: seq<nat>, m: nat, k: nat)
    requires |a| > 0 && |b| > 0 && k <= n && k <= m
    requires Expand(a, n) == Expand(b, m)
    ensures a[|a| - 1] % Pow2(k) == 0 <==> b[|b| - 1] % Pow2(k) == 0
  {
    TailBits(a, n, k);
    TailBits(b, m, k);
    LowBits(a[|a| - 1], n, k);
    LowBits(b[|b| - 1], m, k);
  }

  /** Cutting the `r < 5` left-over bits off `5 * m` bits leaves whole bytes, and
      padding that body back up to whole words adds exactly `r` bits. */
  lemma BodyLength(m: nat, r: nat)
    requires r < 5 && r == (m * 5) % 8
    ensures (m * 5 - r) % 8 == 0
    ensures PadLength(m * 5 - r, 5) == r
  {
    var n := m * 5;
    DivModUnique(n - r, 8, n / 8, 0);
    if r == 0 {
      DivModUnique(n, 5, m, 0);
    } else {
      assert m >= 1;
      DivModUnique(n - r, 5, m - 1, 5 - r);
    }
  }

  /** Every word string that decodes is the encoding of what it decodes to. */
  lemma {:induction false} WordsDecodeCanonical(words: seq<word>, bytes: seq<byte>)
    requires FromWords(words) == Some(bytes)
    ensures ToWords(bytes) == words
  {
    var bits := Expand(words, 5);
    var r := Leftover(bits, 8);
    var body := bits[..|bits| - r];
    assert r < 5;
    assert bits[|bits| - r..] == FalseBits(r);
    assert bits == body + FalseBits(r);
    BodyLength(|words|, r);
    GroupIgnoresShortTail(body, FalseBits(r), 8);
    assert bytes == Group(body, 8);
    ExpandGroup(body, 8);
    assert Expand(bytes, 8) == body;
    assert PadLength(|body|, 5) == r;
    FitsWords(words);
    GroupExpand(words, 5);
  }

  /** `fromWords` inverts `toWords`, in both directions. */
  lemma WordsBijection(words: seq<word>, bytes: seq<byte>)
    ensures FromWords(words) == Some(bytes) <==> ToWords(bytes) == words
  {
    if FromWords(words) == Some(bytes) {
      WordsDecodeCanonical(words, bytes);
    }
    if ToWords(bytes) == words {
      WordsRoundTrip(bytes);
    }
  }

  // ---------------------------------------------------------------------------
  // The checksummed string codec, as an oracle

  /** What `bech32.decode` returns: the human-readable prefix and the data words. */
  datatype Decoded = Decoded(prefix: string, words: seq<word>)

  /** The bech32 checksum encoder and decoder; `limit` is the maximum string
      length argument. `None` stands for the exception the library throws. */
  datatype Codec = Codec(
    encode: (string, seq<word>, nat) -> Option<string>,
    decode: (string, nat) -> Option<Decoded>)

  /** A human-readable part the encoder accepts: 1 to 83 printable ASCII characters. */
  predicate ValidPrefix(hrp: string) {
    1 <= |hrp| <= 83 && forall i :: 0 <= i < |hrp| ==> 33 <= hrp[i] as int <= 126
  }

  /** What any bech32 implementation guarantees: encoding succeeds when the
      string fits the limit; the encoding is lower case, begins with the
      (lower-cased) prefix, and decodes back to that prefix and those words. */
  ghost predicate Lawful(c: Codec) {
    && (forall hrp, words, limit ::
          ValidPrefix(hrp) && |hrp| + 7 + |words| <= limit ==> c.encode(hrp, words, limit).Some?)
    && (forall hrp, words, limit ::
          c.encode(hrp, words, limit).Some? ==>
            var s := c.encode(hrp, words, limit).value;
            IsLower(s) && StartsWith(s, ToLower(hrp))
            && c.decode(s, limit) == Some(Decoded(ToLower(hrp), words)))
  }
}
