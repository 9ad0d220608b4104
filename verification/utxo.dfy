/** `selectUtxos`: order the candidate outputs by strategy, drop the ones still
    time-locked, then keep either one "slim fit" output or the prefix that
    covers the target. The clock and the random draws are parameters. */
module UtxoSelection {
  import opened Results
  import Coins

  datatype Utxo = Utxo(transactionId: string, outputIndex: nat, value: int, timelock: int, signer: string)

  datatype Strategy = BigFirst | Random | SlimFit | SmallFirst

  /** `specs.strategy || SlimFit`: no strategy means slim-fit. */
  function StrategyOrDefault(strategy: Option<Strategy>): (s: Strategy)
    ensures strategy.None? ==> s == SlimFit
    ensures strategy.Some? ==> s == strategy.value
  {
    if strategy.Some? then strategy.value else SlimFit
  }

  // ---------------------------------------------------------------------------
  // Ordering

  /** `a` may come before `b`: by value, descending or ascending. */
  predicate InOrder(a: Utxo, b: Utxo, descending: bool) {
    if descending then a.value >= b.value else a.value <= b.value
  }

  predicate Sorted(us: seq<Utxo>, descending: bool) {
    forall i, j :: 0 <= i < j < |us| ==> InOrder(us[i], us[j], descending)
  }

  /** Places `u` in front of the first element it may precede, so it lands
      before the outputs of equal value: the sort is stable. */
  function Insert(u: Utxo, us: seq<Utxo>, descending: bool): (r: seq<Utxo>)
    ensures multiset(r) == multiset(us) + multiset{u}
  {
    if us == [] || InOrder(u, us[0], descending) then
      [u] + us
    else
      assert us == [us[0]] + us[1..];
      [us[0]] + Insert(u, us[1..], descending)
  }

  /** `Array.prototype.sort` with the strategy's comparator. */
  function Sort(us: seq<Utxo>, descending: bool): (r: seq<Utxo>)
    ensures multiset(r) == multiset(us)
  {
    if us == [] then []
    else
      assert us == [us[0]] + us[1..];
      Insert(us[0], Sort(us[1..], descending), descending)
  }

  /** `x` may precede every element of `s`. */
  predicate Precedes(x: Utxo, s: seq<Utxo>, descending: bool) {
    forall k :: 0 <= k < |s| ==> InOrder(x, s[k], descending)
  }

  lemma SortedCons(x: Utxo, s: seq<Utxo>, descending: bool)
    ensures Sorted([x] + s, descending) <==> Precedes(x, s, descending) && Sorted(s, descending)
  {
    var t := [x] + s;
    if Precedes(x, s, descending) && Sorted(s, descending) {
      forall i, j | 0 <= i < j < |t|
        ensures InOrder(t[i], t[j], descending)
      {
        if i > 0 {
          assert t[i] == s[i - 1] && t[j] == s[j - 1];
        } else {
          assert t[j] == s[j - 1];
        }
      }
    }
    if Sorted(t, descending) {
      forall k | 0 <= k < |s|
        ensures InOrder(x, s[k], descending)
      {
        assert t[0] == x && t[k + 1] == s[k];
      }
      forall i, j | 0 <= i < j < |s|
        ensures InOrder(s[i], s[j], descending)
      {
        assert t[i + 1] == s[i] && t[j + 1] == s[j];
      }
    }
  }

  /** What may precede all of `s` may precede anything drawn from `s`. */
  lemma PrecedesSub(x: Utxo, s: seq<Utxo>, t: seq<Utxo>, descending: bool)
    requires Precedes(x, s, descending) && multiset(t) <= multiset(s)
    ensures Precedes(x, t, descending)
  {
    forall k | 0 <= k < |t|
      ensures InOrder(x, t[k], descending)
    {
      assert t[k] in multiset(t);
      assert t[k] in multiset(s);
      var m :| 0 <= m < |s| && s[m] == t[k];
    }
  }

  lemma {:induction false} InsertSorted(u: Utxo, us: seq<Utxo>, descending: bool)
    requires Sorted(us, descending)
    ensures Sorted(Insert(u, us, descending), descending)
  {
    if us == [] || InOrder(u, us[0], descending) {
      if us != [] {
        SortedCons(us[0], us[1..], descending);
        assert us == [us[0]] + us[1..];
      }
      SortedCons(u, us, descending);
    } else {
      assert us == [us[0]] + us[1..];
      SortedCons(us[0], us[1..], descending);
      InsertSorted(u, us[1..], descending);
      var rest := Insert(u, us[1..], descending);
      assert Precedes(us[0], us[1..] + [u], descending);
      assert multiset(rest) <= multiset(us[1..] + [u]);
      PrecedesSub(us[0], us[1..] + [u], rest, descending);
      SortedCons(us[0], rest, descending);
    }
  }

  /** The sort orders by value and keeps every output, as often as it occurs. */
  lemma {:induction false} SortSorted(us: seq<Utxo>, descending: bool)
    ensures Sorted(Sort(us, descending), descending)
    ensures multiset(Sort(us, descending)) == multiset(us)
  {
    if us != [] {
      SortSorted(us[1..], descending);
      InsertSorted(us[0], Sort(us[1..], descending), descending);
    }
  }

  /** `Math.floor(Math.random() * (len - i))` for every step `i` of the shuffle. */
  predicate ValidDraws(draws: seq<nat>, len: nat) {
    |draws| >= len && forall i :: 0 <= i < len ==> draws[i] < len - i
  }

  function Swap<T>(s: seq<T>, i: nat, j: nat): (r: seq<T>)
    requires i < |s| && j < |s|
    ensures |r| == |s| && multiset(r) == multiset(s)
  {
    s[i := s[j]][j := s[i]]
  }

  /** The Fisher-Yates loop from step `i` on: step `i` swaps the drawn position
      with position `len - i - 1`. */
  function ShuffleFrom(us: seq<Utxo>, draws: seq<nat>, i: nat): (r: seq<Utxo>)
    requires i <= |us| && ValidDraws(draws, |us|)
    ensures multiset(r) == multiset(us)
    decreases |us| - i
  {
    if i == |us| then us
    else ShuffleFrom(Swap(us, draws[i], |us| - i - 1), draws, i + 1)
  }

  function Shuffle(us: seq<Utxo>, draws: seq<nat>): (r: seq<Utxo>)
    requires ValidDraws(draws, |us|)
    ensures multiset(r) == multiset(us)
  {
    ShuffleFrom(us, draws, 0)
  }

  /** The candidates in the strategy's order. */
  function Order(us: seq<Utxo>, strategy: Strategy, draws: seq<nat>): (r: seq<Utxo>)
    requires strategy == Random ==> ValidDraws(draws, |us|)
    ensures multiset(r) == multiset(us)
    ensures strategy == BigFirst || strategy == SlimFit ==> Sorted(r, true)
    ensures strategy == SmallFirst ==> Sorted(r, false)
  {
    SortSorted(us, true);
    SortSorted(us, false);
    match strategy
    case BigFirst => Sort(us, true)
    case SlimFit => Sort(us, true)
    case SmallFirst => Sort(us, false)
    case Random => Shuffle(us, draws)
  }

  // ---------------------------------------------------------------------------
  // Filtering and covering

  /** `utxos.filter(utxo => utxo.timelock <= now)` */
  function Unlocked(us: seq<Utxo>, now: int): (r: seq<Utxo>)
    ensures forall i :: 0 <= i < |r| ==> r[i].timelock <= now
    ensures multiset(r) <= multiset(us)
  {
    if us == [] then []
    else
      assert us == [us[0]] + us[1..];
      if us[0].timelock <= now then [us[0]] + Unlocked(us[1..], now) else Unlocked(us[1..], now)
  }

  /** The filter keeps every unlocked output as often as it occurs and drops every locked one. */
  lemma {:induction false} UnlockedCounts(us: seq<Utxo>, now: int, u: Utxo)
    ensures multiset(Unlocked(us, now))[u] == if u.timelock <= now then multiset(us)[u] else 0
  {
    if us != [] {
      assert us == [us[0]] + us[1..];
      UnlockedCounts(us[1..], now, u);
    }
  }

  /** Dropping the locked outputs keeps the order of the rest. */
  lemma {:induction false} UnlockedSorted(us: seq<Utxo>, now: int, descending: bool)
    requires Sorted(us, descending)
    ensures Sorted(Unlocked(us, now), descending)
  {
    if us != [] {
      assert us == [us[0]] + us[1..];
      SortedCons(us[0], us[1..], descending);
      UnlockedSorted(us[1..], now, descending);
      if us[0].timelock <= now {
        PrecedesSub(us[0], us[1..], Unlocked(us[1..], now), descending);
        SortedCons(us[0], Unlocked(us[1..], now), descending);
      }
    }
  }

  /** Sum of the values. */
  function Total(us: seq<Utxo>): int {
    if us == [] then 0 else Total(us[..|us| - 1]) + us[|us| - 1].value
  }

  /** The covering filter: an output is kept while the running total of every
      output before it, kept or not, is still at most the target. */
  function Cover(us: seq<Utxo>, covered: int, target: int): (r: seq<Utxo>)
    ensures |r| <= |us|
  {
    if us == [] then []
    else
      var rest := Cover(us[1..], covered + us[0].value, target);
      if covered <= target then [us[0]] + rest else rest
  }

  /** Covering only ever keeps outputs it was given. */
  lemma {:induction false} CoverDrawn(us: seq<Utxo>, covered: int, target: int)
    ensures multiset(Cover(us, covered, target)) <= multiset(us)
  {
    if us != [] {
      assert us == [us[0]] + us[1..];
      CoverDrawn(us[1..], covered + us[0].value, target);
    }
  }

  /** Covering keeps the order. */
  lemma {:induction false} CoverSorted(us: seq<Utxo>, covered: int, target: int, descending: bool)
    requires Sorted(us, descending)
    ensures Sorted(Cover(us, covered, target), descending)
  {
    if us != [] {
      assert us == [us[0]] + us[1..];
      SortedCons(us[0], us[1..], descending);
      var rest := Cover(us[1..], covered + us[0].value, target);
      CoverDrawn(us[1..], covered + us[0].value, target);
      CoverSorted(us[1..], covered + us[0].value, target, descending);
      if covered <= target {
        PrecedesSub(us[0], us[1..], rest, descending);
        SortedCons(us[0], rest, descending);
      }
    }
  }

  /** `findIndex(utxo => utxo.value <= target)`: the first index whose value does
      not exceed the target, or -1. */
  function FirstAtMost(us: seq<Utxo>, target: int): (i: int)
    ensures -1 <= i < |us|
    ensures i >= 0 ==> us[i].value <= target
    ensures forall j :: 0 <= j < |us| && (i == -1 || j < i) ==> us[j].value > target
  {
    if us == [] then -1
    else if us[0].value <= target then 0
    else
      var k := FirstAtMost(us[1..], target);
      if k == -1 then -1 else k + 1
  }

  // ---------------------------------------------------------------------------
  // selectUtxos

  /** The target in pedros; a missing target reads as 0, and `if (pedros)`
      treats both as "no target". */
  function TargetPedros(value: Option<Coins.Coins>): int {
    if value.Some? then Coins.Pedros(value.value) else 0
  }

  /** `selectUtxos`. */
  function SelectUtxos(utxos: seq<Utxo>, value: Option<Coins.Coins>, strategy: Option<Strategy>, now: int, draws: seq<nat>)
    : (r: seq<Utxo>)
    requires StrategyOrDefault(strategy) == Random ==> ValidDraws(draws, |utxos|)
    ensures forall i :: 0 <= i < |r| ==> r[i].timelock <= now
    ensures multiset(r) <= multiset(utxos)
  {
    var spendable := Spendable(utxos, strategy, now, draws);
    var r := Pick(spendable, StrategyOrDefault(strategy), TargetPedros(value));
    PickDrawn(spendable, StrategyOrDefault(strategy), TargetPedros(value));
    DrawnFrom(r, spendable);
    r
  }

  /** The last step of `selectUtxos`, on the ordered spendable outputs. */
  function Pick(spendable: seq<Utxo>, strategy: Strategy, pedros: int): seq<Utxo> {
    if pedros == 0 then spendable
    else
      var i := FirstAtMost(spendable, pedros);
      if strategy == SlimFit && i >= 1 then spendable[i - 1 .. i]
      else Cover(spendable, 0, pedros)
  }

  /** The last step only keeps candidates it was given. */
  lemma PickDrawn(spendable: seq<Utxo>, strategy: Strategy, pedros: int)
    ensures multiset(Pick(spendable, strategy, pedros)) <= multiset(spendable)
  {
    if pedros != 0 {
      var i := FirstAtMost(spendable, pedros);
      if strategy == SlimFit && i >= 1 {
        assert spendable == spendable[..i - 1] + spendable[i - 1 .. i] + spendable[i..];
      } else {
        CoverDrawn(spendable, 0, pedros);
      }
    }
  }

  /** Every element of a sub-multiset occurs in the sequence it was drawn from. */
  lemma DrawnFrom(r: seq<Utxo>, s: seq<Utxo>)
    requires multiset(r) <= multiset(s)
    ensures forall i :: 0 <= i < |r| ==> r[i] in s
  {
    forall i | 0 <= i < |r|
      ensures r[i] in s
    {
      assert r[i] in multiset(r);
    }
  }

  // ---------------------------------------------------------------------------
  // Properties of the covering rule

  predicate NonNegative(us: seq<Utxo>) {
    forall k :: 0 <= k < |us| ==> us[k].value >= 0
  }

  lemma {:induction false} TotalCons(x: Utxo, s: seq<Utxo>)
    ensures Total([x] + s) == x.value + Total(s)
    decreases |s|
  {
    if s != [] {
      var t := [x] + s;
      assert t[..|t| - 1] == [x] + s[..|s| - 1];
      TotalCons(x, s[..|s| - 1]);
    }
  }

  /** Once the running total is past the target, nothing more is kept. */
  lemma {:induction false} CoverPastTarget(us: seq<Utxo>, covered: int, target: int)
    requires NonNegative(us) && covered > target
    ensures Cover(us, covered, target) == []
  {
    if us != [] {
      CoverPastTarget(us[1..], covered + us[0].value, target);
    }
  }

  /** With non-negative values the covering rule keeps a prefix. */
  lemma {:induction false} CoverIsPrefix(us: seq<Utxo>, covered: int, target: int)
    requires NonNegative(us)
    ensures |Cover(us, covered, target)| <= |us|
    ensures Cover(us, covered, target) == us[..|Cover(us, covered, target)|]
  {
    if us != [] {
      if covered > target {
        CoverPastTarget(us, covered, target);
      } else {
        CoverIsPrefix(us[1..], covered + us[0].value, target);
        var rest := Cover(us[1..], covered + us[0].value, target);
        assert us[..1 + |rest|] == [us[0]] + us[1..][..|rest|];
      }
    }
  }

  /** Each kept output saw a running total of its predecessors at most the target. */
  lemma {:induction false} CoverKeptWithinTarget(us: seq<Utxo>, covered: int, target: int)
    requires NonNegative(us)
    ensures forall k :: 0 <= k < |Cover(us, covered, target)| ==> covered + Total(us[..k]) <= target
  {
    var r := Cover(us, covered, target);
    if us != [] {
      if covered > target {
        CoverPastTarget(us, covered, target);
      } else {
        var tail := us[1..];
        var c' := covered + us[0].value;
        CoverKeptWithinTarget(tail, c', target);
        forall k | 0 <= k < |r|
          ensures covered + Total(us[..k]) <= target
        {
          if k > 0 {
            assert us[..k] == [us[0]] + tail[..k - 1];
            TotalCons(us[0], tail[..k - 1]);
          } else {
            assert us[..0] == [];
          }
        }
      }
    }
  }

  /** A covering result that leaves something out already exceeds the target. */
  lemma {:induction false} CoverStopsPastTarget(us: seq<Utxo>, covered: int, target: int)
    requires NonNegative(us)
    ensures |Cover(us, covered, target)| < |us| ==> covered + Total(Cover(us, covered, target)) > target
  {
    if us != [] {
      if covered > target {
        CoverPastTarget(us, covered, target);
      } else {
        var rest := Cover(us[1..], covered + us[0].value, target);
        CoverStopsPastTarget(us[1..], covered + us[0].value, target);
        TotalCons(us[0], rest);
      }
    }
  }

  // ---------------------------------------------------------------------------
  // Properties of selectUtxos

  /** The ordered, unlocked candidates `selectUtxos` works on. */
  function Spendable(utxos: seq<Utxo>, strategy: Option<Strategy>, now: int, draws: seq<nat>): (r: seq<Utxo>)
    requires StrategyOrDefault(strategy) == Random ==> ValidDraws(draws, |utxos|)
    ensures forall i :: 0 <= i < |r| ==> r[i].timelock <= now
    ensures multiset(r) <= multiset(utxos)
    ensures StrategyOrDefault(strategy) in {BigFirst, SlimFit} ==> Sorted(r, true)
    ensures StrategyOrDefault(strategy) == SmallFirst ==> Sorted(r, false)
  {
    var s := StrategyOrDefault(strategy);
    var ordered := Order(utxos, s, draws);
    assert s in {BigFirst, SlimFit} ==> Sorted(Unlocked(ordered, now), true) by {
      if s in {BigFirst, SlimFit} {
        UnlockedSorted(ordered, now, true);
      }
    }
    assert s == SmallFirst ==> Sorted(Unlocked(ordered, now), false) by {
      if s == SmallFirst {
        UnlockedSorted(ordered, now, false);
      }
    }
    Unlocked(ordered, now)
  }

  /** Every unlocked output is a candidate as often as it was passed in; no locked one is. */
  lemma SpendableCounts(utxos: seq<Utxo>, strategy: Option<Strategy>, now: int, draws: seq<nat>, u: Utxo)
    requires StrategyOrDefault(strategy) == Random ==> ValidDraws(draws, |utxos|)
    ensures multiset(Spendable(utxos, strategy, now, draws))[u] == if u.timelock <= now then multiset(utxos)[u] else 0
  {
    UnlockedCounts(Order(utxos, StrategyOrDefault(strategy), draws), now, u);
  }

  /** Without a target, or with a target of 0 pedros, every unlocked output is
      returned, in the strategy's order. */
  lemma SelectWithoutTarget(utxos: seq<Utxo>, value: Option<Coins.Coins>, strategy: Option<Strategy>, now: int, draws: seq<nat>)
    requires StrategyOrDefault(strategy) == Random ==> ValidDraws(draws, |utxos|)
    requires value.None? || Coins.Pedros(value.value) == 0
    ensures SelectUtxos(utxos, value, strategy, now, draws) == Spendable(utxos, strategy, now, draws)
  {
  }

  lemma SelectIsPick(utxos: seq<Utxo>, value: Option<Coins.Coins>, strategy: Option<Strategy>, now: int, draws: seq<nat>)
    requires StrategyOrDefault(strategy) == Random ==> ValidDraws(draws, |utxos|)
    ensures SelectUtxos(utxos, value, strategy, now, draws)
            == Pick(Spendable(utxos, strategy, now, draws), StrategyOrDefault(strategy), TargetPedros(value))
  {
  }

  /** The last step keeps the order of sorted candidates. */
  lemma PickSorted(spendable: seq<Utxo>, strategy: Strategy, pedros: int, descending: bool)
    requires Sorted(spendable, descending)
    ensures Sorted(Pick(spendable, strategy, pedros), descending)
  {
    if pedros != 0 {
      var i := FirstAtMost(spendable, pedros);
      if !(strategy == SlimFit && i >= 1) {
        CoverSorted(spendable, 0, pedros, descending);
      }
    }
  }

  /** Big-first and slim-fit (also what no strategy means) return outputs in
      non-increasing value order, small-first in non-decreasing order. */
  lemma SelectOrdering(utxos: seq<Utxo>, value: Option<Coins.Coins>, strategy: Option<Strategy>, now: int, draws: seq<nat>)
    requires StrategyOrDefault(strategy) == Random ==> ValidDraws(draws, |utxos|)
    ensures strategy.None? || strategy == Some(BigFirst) || strategy == Some(SlimFit) ==>
              Sorted(SelectUtxos(utxos, value, strategy, now, draws), true)
    ensures strategy == Some(SmallFirst) ==> Sorted(SelectUtxos(utxos, value, strategy, now, draws), false)
  {
    var s := StrategyOrDefault(strategy);
    var spendable := Spendable(utxos, strategy, now, draws);
    SelectIsPick(utxos, value, strategy, now, draws);
    if s in {BigFirst, SlimFit} {
      PickSorted(spendable, s, TargetPedros(value), true);
    } else if s == SmallFirst {
      PickSorted(spendable, s, TargetPedros(value), false);
    }
  }

  /** `x` is above the target and no output of `us` above the target is smaller. */
  predicate SmallestAbove(x: Utxo, us: seq<Utxo>, target: int) {
    && x.value > target
    && forall k :: 0 <= k < |us| && us[k].value > target ==> us[k].value >= x.value
  }

  /** Among sorted candidates, the output just before the first one not above
      the target is the smallest output above the target. */
  lemma SlimFitChoice(spendable: seq<Utxo>, pedros: int, i: nat)
    requires Sorted(spendable, true)
    requires 1 <= i < |spendable| && spendable[i].value <= pedros
    requires forall j :: 0 <= j < i ==> spendable[j].value > pedros
    ensures SmallestAbove(spendable[i - 1], spendable, pedros)
  {
    forall k | 0 <= k < |spendable| && spendable[k].value > pedros
      ensures spendable[k].value >= spendable[i - 1].value
    {
      if k >= i {
        assert InOrder(spendable[i], spendable[k], true);
      } else {
        assert InOrder(spendable[k], spendable[i - 1], true);
      }
    }
  }

  /** `r` is what slim-fit returns from `spendable`: the single output just
      before the first one not above the target, which is the smallest output
      above the target. */
  predicate SlimFitResult(r: seq<Utxo>, spendable: seq<Utxo>, pedros: int) {
    var i := FirstAtMost(spendable, pedros);
    && 1 <= i
    && r == [spendable[i - 1]]
    && SmallestAbove(r[0], spendable, pedros)
  }

  /** The slim-fit rule on sorted candidates. */
  lemma PickSlimFit(spendable: seq<Utxo>, pedros: int)
    requires Sorted(spendable, true) && pedros != 0
    requires FirstAtMost(spendable, pedros) >= 1
    ensures SlimFitResult(Pick(spendable, SlimFit, pedros), spendable, pedros)
  {
    var i := FirstAtMost(spendable, pedros);
    assert 1 <= i < |spendable| && spendable[i].value <= pedros;
    assert forall j :: 0 <= j < i ==> spendable[j].value > pedros;
    SlimFitChoice(spendable, pedros, i);
    var r := Pick(spendable, SlimFit, pedros);
    assert r == [spendable[i - 1]] by {
      PickSlimFitShape(spendable, pedros);
    }
    assert SmallestAbove(r[0], spendable, pedros);
  }

  lemma PickSlimFitShape(spendable: seq<Utxo>, pedros: int)
    requires pedros != 0 && FirstAtMost(spendable, pedros) >= 1
    ensures Pick(spendable, SlimFit, pedros) == [spendable[FirstAtMost(spendable, pedros) - 1]]
  {
    var i := FirstAtMost(spendable, pedros);
    assert Pick(spendable, SlimFit, pedros) == spendable[i - 1 .. i];
  }

  /** The slim-fit rule of `selectUtxos`, which is also what no strategy means:
      when the first unlocked output not above the target is not the very first
      one, the result is the single output just before it, which is above the
      target and the smallest output that is. */
  lemma SelectSlimFit(utxos: seq<Utxo>, value: Coins.Coins, strategy: Option<Strategy>, now: int, draws: seq<nat>)
    requires StrategyOrDefault(strategy) == SlimFit && Coins.Pedros(value) != 0
    ensures var spendable := Spendable(utxos, strategy, now, draws);
            FirstAtMost(spendable, Coins.Pedros(value)) >= 1 ==>
              SlimFitResult(SelectUtxos(utxos, Some(value), strategy, now, draws), spendable, Coins.Pedros(value))
  {
    var spendable := Spendable(utxos, strategy, now, draws);
    if FirstAtMost(spendable, Coins.Pedros(value)) >= 1 {
      SelectIsPick(utxos, Some(value), strategy, now, draws);
      PickSlimFit(spendable, Coins.Pedros(value));
    }
  }

  lemma NonNegativeSub(r: seq<Utxo>, s: seq<Utxo>)
    requires NonNegative(s) && multiset(r) <= multiset(s)
    ensures NonNegative(r)
  {
    DrawnFrom(r, s);
  }

  /** The covering rule on candidates with non-negative values. */
  lemma PickCoverage(spendable: seq<Utxo>, strategy: Strategy, pedros: int)
    requires NonNegative(spendable) && pedros != 0
    requires !(strategy == SlimFit && FirstAtMost(spendable, pedros) >= 1)
    ensures var r := Pick(spendable, strategy, pedros);
            && |r| <= |spendable| && r == spendable[..|r|]
            && (forall k :: 0 <= k < |r| ==> Total(spendable[..k]) <= pedros)
            && (|r| < |spendable| ==> Total(r) > pedros)
  {
    assert Pick(spendable, strategy, pedros) == Cover(spendable, 0, pedros);
    CoverIsPrefix(spendable, 0, pedros);
    CoverKeptWithinTarget(spendable, 0, pedros);
    CoverStopsPastTarget(spendable, 0, pedros);
  }

  /** The covering rule of `selectUtxos`, whenever slim-fit does not apply: with
      non-negative values the result is a prefix of the ordered unlocked
      outputs, every kept output had predecessors totalling at most the target,
      and a result that stops early already exceeds the target. */
  lemma SelectCoverage(utxos: seq<Utxo>, value: Coins.Coins, strategy: Option<Strategy>, now: int, draws: seq<nat>)
    requires StrategyOrDefault(strategy) == Random ==> ValidDraws(draws, |utxos|)
    requires Coins.Pedros(value) != 0 && NonNegative(utxos)
    requires !(StrategyOrDefault(strategy) == SlimFit
               && FirstAtMost(Spendable(utxos, strategy, now, draws), Coins.Pedros(value)) >= 1)
    ensures var spendable := Spendable(utxos, strategy, now, draws);
            var pedros := Coins.Pedros(value);
            var r := SelectUtxos(utxos, Some(value), strategy, now, draws);
            && |r| <= |spendable| && r == spendable[..|r|]
            && (forall k :: 0 <= k < |r| ==> Total(spendable[..k]) <= pedros)
            && (|r| < |spendable| ==> Total(r) > pedros)
  {
    var spendable := Spendable(utxos, strategy, now, draws);
    var pedros := Coins.Pedros(value);
    SelectIsPick(utxos, Some(value), strategy, now, draws);
    NonNegativeSub(spendable, utxos);
    PickCoverage(spendable, StrategyOrDefault(strategy), pedros);
  }

  /** When every output is still locked, nothing is selected, whatever the strategy. */
  lemma SelectAllLocked(utxos: seq<Utxo>, value: Option<Coins.Coins>, strategy: Option<Strategy>, now: int, draws: seq<nat>)
    requires StrategyOrDefault(strategy) == Random ==> ValidDraws(draws, |utxos|)
    requires forall k :: 0 <= k < |utxos| ==> utxos[k].timelock > now
    ensures SelectUtxos(utxos, value, strategy, now, draws) == []
  {
    var r := SelectUtxos(utxos, value, strategy, now, draws);
    DrawnFrom(r, utxos);
  }

  /** A worked case of the overshoot-by-one boundary: small-first over values
      70, 10 and 30 with a target of 25 keeps 10 (total before it 0) and 30
      (total before it 10) and drops 70 (total before it 40). */
  lemma SmallFirstOvershoot()
    ensures SelectUtxos([Coin(70), Coin(10), Coin(30)], Some(Coins.FromPedros(25)), Some(SmallFirst), 0, [])
         == [Coin(10), Coin(30)]
  {
    SpendableExample();
    CoverExample();
    assert TargetPedros(Some(Coins.FromPedros(25))) == 25;
  }

  /** An unlocked output with no signer, identified by its value. */
  function Coin(value: int): Utxo {
    Utxo("", 0, value, 0, "")
  }

  lemma SortExample()
    ensures Sort([Coin(70), Coin(10), Coin(30)], false) == [Coin(10), Coin(30), Coin(70)]
  {
    var a, b, c := Coin(70), Coin(10), Coin(30);
    assert [a, b, c][1..] == [b, c];
    SortTailExample();
    InsertExample();
  }

  lemma SortTailExample()
    ensures Sort([Coin(10), Coin(30)], false) == [Coin(10), Coin(30)]
  {
    var b, c := Coin(10), Coin(30);
    assert [b, c][1..] == [c];
    assert [c][1..] == [];
    assert Sort([c], false) == [c];
  }

  lemma InsertExample()
    ensures Insert(Coin(70), [Coin(10), Coin(30)], false) == [Coin(10), Coin(30), Coin(70)]
  {
    var a, b, c := Coin(70), Coin(10), Coin(30);
    assert [b, c][1..] == [c];
    assert [c][1..] == [];
    assert Insert(a, [c], false) == [c, a];
  }

  lemma SpendableExample()
    ensures Spendable([Coin(70), Coin(10), Coin(30)], Some(SmallFirst), 0, []) == [Coin(10), Coin(30), Coin(70)]
  {
    SortExample();
    UnlockedExample();
  }

  lemma UnlockedExample()
    ensures Unlocked([Coin(10), Coin(30), Coin(70)], 0) == [Coin(10), Coin(30), Coin(70)]
  {
    var a, b, c := Coin(70), Coin(10), Coin(30);
    assert [a][1..] == [];
    assert Unlocked([a], 0) == [a];
    assert [c, a][1..] == [a];
    assert Unlocked([c, a], 0) == [c, a];
    assert [b, c, a][1..] == [c, a];
  }

  lemma CoverExample()
    ensures Cover([Coin(10), Coin(30), Coin(70)], 0, 25) == [Coin(10), Coin(30)]
  {
    var a, b, c := Coin(70), Coin(10), Coin(30);
    assert [a][1..] == [];
    assert Cover([a], 40, 25) == [];
    assert [c, a][1..] == [a];
    assert Cover([c, a], 10, 25) == [c];
    assert [b, c, a][1..] == [c, a];
  }
}
