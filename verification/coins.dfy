/** Exact currency amounts: a `Coins` value wraps one arbitrary-precision integer
    counting pedros, the smallest unit; 10^9 pedros (also called nanowits) make one wit. */
module Coins {
  import opened Results

  const PedrosPerWit: nat := 1_000_000_000

  /** `Number.MAX_SAFE_INTEGER`, 2^53 - 1. */
  const MaxSafeInteger: nat := 0x1F_FFFF_FFFF_FFFF

  datatype Coins = Coins(coins: int)

  /** The three sub-balances an account reports, in pedros. */
  datatype Balance = Balance(locked: int, staked: int, unlocked: int)

  function FromPedros(pedros: int): (r: Coins)
    ensures Pedros(r) == pedros && Nanowits(r) == pedros
  {
    Coins(pedros)
  }

  function FromNanowits(nanowits: int): (r: Coins)
    ensures Nanowits(r) == nanowits && Pedros(r) == nanowits
  {
    Coins(nanowits)
  }

  /** `Coins.zero()` */
  function Zero(): (r: Coins)
    ensures Pedros(r) == 0 && Nanowits(r) == 0
  {
    Coins(0)
  }

  /** The `pedros` getter. */
  function Pedros(c: Coins): int {
    c.coins
  }

  /** The `nanowits` getter: the same integer under its other name. */
  function Nanowits(c: Coins): int {
    c.coins
  }

  /** `Coins.fromBalance`: the sum of the three sub-balances. */
  function FromBalance(b: Balance): (r: Coins)
    ensures Pedros(r) == b.locked + b.staked + b.unlocked
  {
    FromPedros(b.locked + b.staked + b.unlocked)
  }

  /** `pedros / 1000000000n` on a JavaScript `BigInt`: the quotient is rounded
      toward zero, not toward negative infinity as Dafny's `/` does. */
  function TruncQuotient(pedros: int): (q: int)
    ensures pedros >= 0 ==> 0 <= q * PedrosPerWit <= pedros < q * PedrosPerWit + PedrosPerWit
    ensures pedros < 0 ==> q * PedrosPerWit - PedrosPerWit < pedros <= q * PedrosPerWit <= 0
  {
    if pedros >= 0 then pedros / PedrosPerWit else -((-pedros) / PedrosPerWit)
  }

  datatype CoinsError = TooManyCoins(quotient: int)

  /** The exact parts the `wits` getter converts to a float: the whole wits and
      the pedros left over. */
  datatype WitsParts = WitsParts(whole: int, rest: int)

  /** The `wits` getter, up to its final floating-point division and sum: the
      quotient is truncated toward zero, and the getter throws when it exceeds
      `MAX_SAFE_INTEGER`. */
  function Wits(c: Coins): (r: Result<WitsParts, CoinsError>)
    ensures r.Err? <==> Pedros(c) >= (MaxSafeInteger + 1) * PedrosPerWit
    ensures r.Ok? ==>
      && r.value.whole * PedrosPerWit + r.value.rest == Pedros(c)
      && -(PedrosPerWit as int) < r.value.rest < PedrosPerWit
      && (Pedros(c) >= 0 ==> r.value.rest >= 0)
      && (Pedros(c) <= 0 ==> r.value.rest <= 0)
      && r.value.whole <= MaxSafeInteger
  {
    var quotient := TruncQuotient(c.coins);
    if quotient > MaxSafeInteger then
      Err(TooManyCoins(quotient))
    else
      Ok(WitsParts(quotient, c.coins - quotient * PedrosPerWit))
  }

  /** `totalCoins`: the helper in the crypto utilities that also adds up a balance. */
  function TotalCoins(b: Balance): (r: Coins)
    ensures r == FromBalance(b)
  {
    FromPedros(b.locked + b.staked + b.unlocked)
  }

  /** Both constructors store their argument untouched and both getters read it back. */
  lemma CoinsRoundTrip(x: int, c: Coins)
    ensures Pedros(FromPedros(x)) == x && Nanowits(FromNanowits(x)) == x
    ensures FromPedros(Pedros(c)) == c && FromNanowits(Nanowits(c)) == c
    ensures Pedros(c) == Nanowits(c)
  {
  }
}

/** `BigMath` from the crypto utilities. */
module BigMath {

  /** `BigMath.max(value, ...values)`: scans the values and keeps the first one
      strictly larger than everything before it. */
  method Max(value: int, values: seq<int>) returns (m: int)
    ensures m == value || m in values
    ensures m >= value && forall i :: 0 <= i < |values| ==> m >= values[i]
    ensures m > value ==> exists i :: 0 <= i < |values| && values[i] == m
  {
    m := value;
    var k := 0;
    while k < |values|
      invariant 0 <= k <= |values|
      invariant m == value || m in values[..k]
      invariant m >= value && forall i :: 0 <= i < k ==> m >= values[i]
    {
      if values[k] > m {
        m := values[k];
      }
      k := k + 1;
    }
  }
}
