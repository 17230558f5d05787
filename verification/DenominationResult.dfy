/**
What calculateChange returns, said of the coins themselves and not of how they are found: which
coins it starts from, which it compares them with, and when it takes the others.
*/
module DenominationResult {
  import opened Denominations
  import opened DenominationChange

  //////////////////////////////////////////////////////////////////////////////
  //
  // The coins, by what they are
  //
  //////////////////////////////////////////////////////////////////////////////

  /** Coins of `held` worth the most that can be had below the target, and no more coins than that takes. */
  ghost predicate BestBelow(u: Coins, target: int, held: Coins) {
    && Within(u, held) && (if target > 0 then Value(u) < target else Value(u) == 0)
    && forall c: Coins {:trigger Within(c, held)} | Within(c, held) && Value(c) < target ::
         Value(c) < Value(u) || (Value(c) == Value(u) && Count(u) <= Count(c))
  }

  /**
  Is there a coin of denomination `e` left by `u` that is worth more than what `u` leaves open?
  Towards a negative target only the smallest denomination is looked at.
  */
  predicate Exceeds(u: Coins, target: int, held: Coins, e: nat) {
    e < N && u[e] < held[e] && Value(u) + Amount(e) > target && (target >= 0 || e == 0)
  }

  /** `f` is `u` and one of the smallest coins left that exceed the target, or just `u` if none does. */
  ghost predicate FilledUp(f: Coins, u: Coins, target: int, held: Coins) {
    if exists e: nat :: Exceeds(u, target, held, e) then exists e: nat :: FilledWith(f, u, target, held, e) else f == u
  }

  ghost predicate FilledWith(f: Coins, u: Coins, target: int, held: Coins, e: nat) {
    Exceeds(u, target, held, e) && (forall i | 0 <= i < e :: !Exceeds(u, target, held, i)) && f == u[e := u[e] + 1]
  }

  /** `k` are the coins of `f` that would not come back in change. */
  ghost predicate NotReturned(k: Coins, f: Coins, target: int) {
    var change := Change(Value(f) - target);
    forall i | 0 <= i < N :: k[i] == if f[i] <= change[i] then 0 else f[i] - change[i]
  }

  /** `a` are coins of `held` worth `x`, and none that are fewer. */
  ghost predicate FewestWorth(a: Coins, x: int, held: Coins) {
    && Within(a, held) && Value(a) == x
    && forall c: Coins {:trigger Within(c, held)} | Within(c, held) && Value(c) == x :: Count(a) <= Count(c)
  }

  /** The coins with less change: below the target from `lower`, filled up, without what would come back. */
  ghost predicate Alternatively(a: Coins, target: int, lower: Coins, held: Coins) {
    exists u: Coins, f: Coins, k: Coins :: AlternativeBy(a, target, lower, held, u, f, k)
  }

  ghost predicate AlternativeBy(a: Coins, target: int, lower: Coins, held: Coins, u: Coins, f: Coins, k: Coins) {
    BestBelow(u, target, lower) && FilledUp(f, u, target, held) && NotReturned(k, f, target) && FewestWorth(a, Value(k), held)
  }

  /** Denomination `d` is the smallest held of which one coin exceeds the target. */
  ghost predicate LeastOver(d: int, target: int, held: Coins) {
    && 0 <= d < N && held[d] > 0 && Amount(d) > target
    && forall i | 0 <= i < d :: held[i] == 0 || Amount(i) <= target
  }

  ghost predicate NothingBelow(b: Coins, d: nat)
    requires d <= N
  {
    forall i | 0 <= i < d :: b[i] == 0
  }

  /**
  `b` are the coins taken from the highest denomination down until they cover the target: nothing
  is taken below a denomination not used up, and without the last coin the target is not covered.
  */
  ghost predicate TakenDown(b: Coins, target: int, held: Coins) {
    Within(b, held) && TakenDownTo(b, target, held, |b|)
  }

  /** The same of the `k` smallest denominations. */
  ghost predicate TakenDownTo(b: Coins, target: int, held: Coins, k: nat)
    requires k <= N
  {
    && (ValueTo(b, k) >= target || forall i | 0 <= i < k :: b[i] == held[i])
    && (forall i | 0 <= i < k && b[i] != held[i] :: NothingBelow(b, i))
    && forall i | 0 <= i < k && b[i] > 0 && NothingBelow(b, i) :: ValueTo(b, k) - Amount(i) < target
  }

  /** The coins of `held` of denominations below `d`. */
  ghost predicate LowerThan(lower: Coins, held: Coins, d: nat) {
    forall i | 0 <= i < N :: lower[i] == if i < d then held[i] else 0
  }

  /** Is there a single coin that exceeds the target? */
  ghost predicate OneWillDo(target: int, held: Coins) {
    exists d :: LeastOver(d, target, held)
  }

  /** What is compared: one coin over the target, if there is one, or else coins from the top. */
  ghost predicate BaseCoins(base: Coins, target: int, held: Coins) {
    if OneWillDo(target, held) then
      exists d: nat :: LeastOver(d, target, held) && forall i | 0 <= i < N :: base[i] == if i == d then 1 else 0
    else
      TakenDown(base, target, held)
  }

  /** The coins from which the alternative is built up: those smaller than that one coin, or else all. */
  ghost predicate LowerCoins(lower: Coins, target: int, held: Coins) {
    if OneWillDo(target, held) then exists d: nat :: LeastOver(d, target, held) && LowerThan(lower, held, d) else lower == held
  }

  /** Which of the two is returned, and the number of coins in the change it needs. */
  ghost predicate Chosen(n: int, used: Coins, nMax: int, fMinimize: bool, target: int, held: Coins) {
    exists lower: Coins, base: Coins, alt: Coins :: ChosenBy(n, used, nMax, fMinimize, target, held, lower, base, alt)
  }

  ghost predicate ChosenBy(n: int, used: Coins, nMax: int, fMinimize: bool, target: int, held: Coins,
                           lower: Coins, base: Coins, alt: Coins) {
    && BaseCoins(base, target, held) && LowerCoins(lower, target, held) && Alternatively(alt, target, lower, held)
    && Compared(n, used, base, alt, target, nMax, fMinimize || (!OneWillDo(target, held) && Count(alt) <= Count(base)))
  }

  /** The alternative is taken if it is wanted, needs fewer coins of change, and keeps to the limit. */
  ghost predicate Compared(n: int, used: Coins, base: Coins, alt: Coins, target: int, nMax: int, wanted: bool) {
    var nBase, nAlt := Count(Change(Value(base) - target)), Count(Change(Value(alt) - target));
    if wanted && nAlt < nBase && Count(alt) <= nMax then n == nAlt && used == alt else n == nBase && used == base
  }

  //////////////////////////////////////////////////////////////////////////////
  //
  // Staying below the target
  //
  //////////////////////////////////////////////////////////////////////////////

  /** Of the coins below the target, those taken greedily are worth the most, and the fewest that are. */
  lemma {:induction false} BelowBestTo(target: nat, held: Coins, c: Coins, k: nat)
    requires target > 0 && k <= N && WithinTo(c, held, k) && ValueTo(c, k) < target
    ensures var u := Choose(Below, target, held, k);
            ValueTo(c, k) < ValueTo(u, k) || (ValueTo(c, k) == ValueTo(u, k) && CountTo(u, k) <= CountTo(c, k))
    decreases k
  {
    if k > 0 {
      var d := k - 1;
      var taken, rest := Take(Below, target, held[d], d), Rest(Below, target, held, k);
      ChooseStep(Below, target, held, k);
      TakeFits(Below, target, held[d], d);
      TopAtMost(target, held[d], c, taken, k);
      if ValueTo(c, d) >= Worth(taken - c[d], d) {
        var left := Raise(c, taken, k);
        BelowBestTo(rest, held, left, d);
      } else {
        WorthOrder(c[d], taken, d);
      }
    }
  }

  lemma {:induction false} TopAtMost(target: nat, held: nat, c: Coins, taken: nat, k: nat)
    requires 0 < k <= N && c[k - 1] <= held && ValueTo(c, k) < target && Fits(Below, target, held, k - 1, taken)
    ensures c[k - 1] <= taken
  {
    WorthOrder(taken + 1, c[k - 1], k - 1);
  }

  /** Lower coins exchanged for coins of the highest denomination, until there are `taken` of that; what is left below. */
  lemma {:induction false} Raise(c: Coins, taken: nat, k: nat) returns (left: Coins)
    requires 0 < k <= N && c[k - 1] <= taken && ValueTo(c, k - 1) >= Worth(taken - c[k - 1], k - 1)
    ensures WithinTo(left, c, k - 1) && ValueTo(left, k - 1) + Worth(taken, k - 1) == ValueTo(c, k)
    ensures CountTo(left, k - 1) + taken <= CountTo(c, k)
  {
    var part := ExactPart(c, k - 1, taken - c[k - 1], k - 1);
    PartCount(part, taken - c[k - 1], k - 1);
    left := LeftOf(c, part, k - 1);
    WorthOrder(c[k - 1], taken, k - 1);
    assert CountTo(c, k) == CountTo(c, k - 1) + c[k - 1] && ValueTo(c, k) == ValueTo(c, k - 1) + Worth(c[k - 1], k - 1);
  }

  lemma {:induction false} BelowIsBest(target: int, held: Coins)
    ensures BestBelow(Choose(Below, target, held, |held|), target, held)
  {
    if target <= 0 {
      ChooseNothing(Below, target, held, |held|);
    } else {
      PositiveBest(target, held);
    }
  }

  lemma {:induction false} PositiveBest(target: nat, held: Coins)
    requires target > 0
    ensures BestBelow(Choose(Below, target, held, |held|), target, held)
  {
    BelowStaysBelow(target, held, |held|);
    forall c: Coins | Within(c, held) && Value(c) < target
      ensures var u := Choose(Below, target, held, |held|);
              Value(c) < Value(u) || (Value(c) == Value(u) && Count(u) <= Count(c))
    {
      BelowBestTo(target, held, c, |held|);
    }
  }

  //////////////////////////////////////////////////////////////////////////////
  //
  // The other coins
  //
  //////////////////////////////////////////////////////////////////////////////

  lemma {:induction false} FirstIsLeast(x: int, c: Coins, k: nat)
    requires k <= N
    ensures forall i | 0 <= i < k && (First(x, c, k) == ZQ_ERROR || i < First(x, c, k)) :: x >= Amount(i) || c[i] == 0
  {
    if k > 0 {
      FirstIsLeast(x, c, k - 1);
    }
  }

  lemma {:induction false} TopUpFills(u: Coins, target: int, held: Coins)
    requires Within(u, held) && if target > 0 then Value(u) < target else Value(u) == 0
    ensures FilledUp(TopUp(target - Value(u), u, held), u, target, held)
  {
    var left := Minus(held, u);
    var k := if target < 0 then 1 else |held|;
    var e := First(target - Value(u), left, k);
    FirstIsLeast(target - Value(u), left, k);
    assert forall i | 0 <= i < N :: left[i] > 0 <==> u[i] < held[i];
    if e != ZQ_ERROR {
      assert FilledWith(TopUp(target - Value(u), u, held), u, target, held, e);
    }
  }

  /** The coins held up to the greatest denomination held below `d`. */
  lemma {:induction false} UpToIsLower(held: Coins, d: nat)
    requires d <= N
    ensures LowerThan(UpTo(held, MaxHeld(held, d)), held, d)
  {
  }

  lemma {:induction false} AlternativeIs(top: int, target: int, lower: Coins, held: Coins)
    requires lower == UpTo(held, top)
    ensures Alternatively(Alternative(top, target, held), target, lower, held)
  {
    var u := Choose(Below, target, lower, |held|);
    var f, k := Filled(top, target, held), Kept(top, target, held);
    BelowIsBest(target, lower);
    TopUpFills(u, target, held);
    AlternativeIsExact(top, target, held);
    assert NotReturned(k, f, target);
    assert AlternativeBy(Alternative(top, target, held), target, lower, held, u, f, k);
  }

  lemma {:induction false} CoverTakesDown(target: int, held: Coins, k: nat)
    requires k <= N
    ensures TakenDownTo(Choose(Cover, target, held, k), target, held, k)
    decreases k
  {
    if k > 0 {
      var b, d := Choose(Cover, target, held, k), k - 1;
      var rest := Rest(Cover, target, held, k);
      ChooseStep(Cover, target, held, k);
      TakeFits(Cover, target, held[d], d);
      if rest <= 0 {
        NoneBelow(target, held, b, k);
        if b[d] > 0 {
          WorthOrder(b[d] - 1, b[d], d);
        }
      } else {
        CoverTakesDown(rest, held, d);
        AllAbove(target, held, b, Choose(Cover, rest, held, d), k);
      }
    }
  }

  /** When the highest denomination covers the target, no lower coin is taken. */
  lemma {:induction false} NoneBelow(target: int, held: Coins, b: Coins, k: nat)
    requires 0 < k <= N && b == Choose(Cover, target, held, k) && Rest(Cover, target, held, k) <= 0
    ensures (forall i | 0 <= i < k - 1 :: b[i] == 0) && ValueTo(b, k - 1) == 0
  {
    var lower := Choose(Cover, Rest(Cover, target, held, k), held, k - 1);
    ChooseStep(Cover, target, held, k);
    ChooseNothing(Cover, Rest(Cover, target, held, k), held, k - 1);
    forall i | 0 <= i < k - 1 ensures b[i] == 0 {
      EachAtMostValue(lower, i, k - 1);
    }
  }

  /** When it does not, all its coins are taken, and the lower ones go on. */
  lemma {:induction false} AllAbove(target: int, held: Coins, b: Coins, lower: Coins, k: nat)
    requires 0 < k <= N && b == Choose(Cover, target, held, k) && Rest(Cover, target, held, k) > 0
    requires lower == Choose(Cover, Rest(Cover, target, held, k), held, k - 1)
    requires TakenDownTo(lower, Rest(Cover, target, held, k), held, k - 1)
    ensures TakenDownTo(b, target, held, k)
  {
    ChooseStep(Cover, target, held, k);
    TakeFits(Cover, target, held[k - 1], k - 1);
    JoinedAbove(target, held, b, lower, k);
  }

  lemma {:induction false} JoinedAbove(target: int, held: Coins, b: Coins, lower: Coins, k: nat)
    requires 0 < k <= N && b[k - 1] == held[k - 1] && forall i | 0 <= i < k - 1 :: b[i] == lower[i]
    requires var rest := target - Worth(b[k - 1], k - 1);
             rest > 0 && ValueTo(b, k) == ValueTo(lower, k - 1) + target - rest && TakenDownTo(lower, rest, held, k - 1)
    ensures TakenDownTo(b, target, held, k)
  {
    forall i | 0 <= i < k - 1 ensures NothingBelow(b, i) <==> NothingBelow(lower, i) {
    }
    if b[k - 1] > 0 && NothingBelow(b, k - 1) {
      ZeroValue(lower, k - 1);
    }
  }

  lemma {:induction false} ZeroValue(c: Coins, k: nat)
    requires k <= N && forall i | 0 <= i < k :: c[i] == 0
    ensures ValueTo(c, k) == 0
  {
    if k > 0 {
      ZeroValue(c, k - 1);
    }
  }

  //////////////////////////////////////////////////////////////////////////////
  //
  // What calculateChange returns
  //
  //////////////////////////////////////////////////////////////////////////////

  lemma {:induction false} OverCompares(nMax: int, fMinimize: bool, target: int, held: Coins, d: Denom)
    ensures var (n, used) := CalculateOver(nMax, fMinimize, target, held, d);
            Compared(n, used, OneCoin(d), Alternative(MaxHeld(held, d), target, held), target, nMax, fMinimize)
  {
  }

  lemma {:induction false} OverChooses(nMax: int, fMinimize: bool, target: int, held: Coins, d: Denom)
    requires LeastOver(d, target, held)
    ensures var (n, used) := CalculateOver(nMax, fMinimize, target, held, d); Chosen(n, used, nMax, fMinimize, target, held)
  {
    var (n, used) := CalculateOver(nMax, fMinimize, target, held, d);
    var top := MaxHeld(held, d);
    var lower, alt := UpTo(held, top), Alternative(top, target, held);
    UpToIsLower(held, d);
    AlternativeIs(top, target, lower, held);
    OverCompares(nMax, fMinimize, target, held, d);
    assert ChosenBy(n, used, nMax, fMinimize, target, held, lower, OneCoin(d), alt);
  }

  lemma {:induction false} SimpleCompares(nMax: int, fMinimize: bool, target: int, held: Coins)
    ensures var (n, used) := CalculateSimple(nMax, fMinimize, target, held);
            var base, alt := Choose(Cover, target, held, |held|), Alternative(MaxHeld(held, |held|), target, held);
            Compared(n, used, base, alt, target, nMax, fMinimize || Count(alt) <= Count(base))
  {
  }

  lemma {:induction false} CoverIsTakenDown(target: int, held: Coins)
    ensures TakenDown(Choose(Cover, target, held, |held|), target, held)
  {
    CoverTakesDown(target, held, |held|);
  }

  lemma {:induction false} SimpleChooses(nMax: int, fMinimize: bool, target: int, held: Coins)
    requires !OneWillDo(target, held)
    ensures var (n, used) := CalculateSimple(nMax, fMinimize, target, held); Chosen(n, used, nMax, fMinimize, target, held)
  {
    var (n, used) := CalculateSimple(nMax, fMinimize, target, held);
    var top := MaxHeld(held, |held|);
    var base, alt := Choose(Cover, target, held, |held|), Alternative(top, target, held);
    UpToIsLower(held, |held|);
    assert UpTo(held, top) == held;
    AlternativeIs(top, target, held, held);
    CoverIsTakenDown(target, held);
    SimpleCompares(nMax, fMinimize, target, held);
    assert ChosenBy(n, used, nMax, fMinimize, target, held, held, base, alt);
  }

  /**
  What calculateChange returns: a single coin that exceeds it, or coins
  from the highest denomination down, unless the coins with less change keep to the limit, need
  fewer coins of change, and, where no single coin will do, less change is asked for or they
  are no more coins.
  */
  lemma {:induction false} CalculateChooses(nMax: int, fMinimize: bool, target: int, held: Coins)
    ensures var (n, used) := Calculate(nMax, fMinimize, target, held); Chosen(n, used, nMax, fMinimize, target, held)
  {
    var over := First(target, held, |held|);
    FirstIsLeast(target, held, |held|);
    if over != ZQ_ERROR {
      assert LeastOver(over, target, held);
      OverChooses(nMax, fMinimize, target, held, over);
    } else {
      forall d ensures !LeastOver(d, target, held) {
      }
      SimpleChooses(nMax, fMinimize, target, held);
    }
  }

  //////////////////////////////////////////////////////////////////////////////
  //
  // and nothing else is
  //
  //////////////////////////////////////////////////////////////////////////////

  /** Lower coins worth `m` coins of a denomination are at least twice as many. */
  lemma {:induction false} TwiceAsMany(part: Coins, m: nat, d: nat)
    requires d < N && ValueTo(part, d) == Worth(m, d)
    ensures CountTo(part, d) >= 2 * m
  {
    if d > 0 {
      ValueAtMost(part, d, d - 1);
      WorthBelow(m, d);
      WorthOrder(CountTo(part, d), Split(m, d), d - 1);
    }
  }

  /** Coins with the value that the greedy choice meets, and no more of them, are that choice. */
  lemma {:induction false} SpendUniqueTo(target: nat, held: Coins, c: Coins, k: nat)
    requires k <= N && WithinTo(c, held, k) && ValueTo(c, k) == target
    requires CountTo(c, k) <= CountTo(Choose(AtMost, target, held, k), k)
    ensures forall i | 0 <= i < k :: c[i] == Choose(AtMost, target, held, k)[i]
    decreases k
  {
    if k > 0 {
      var taken := Take(AtMost, target, held[k - 1], k - 1);
      ChooseStep(AtMost, target, held, k);
      TakeFits(AtMost, target, held[k - 1], k - 1);
      TopIsTaken(target, held, c, taken, k);
      SpendUniqueTo(Rest(AtMost, target, held, k), held, c, k - 1);
    }
  }

  /** An exchange for higher coins would leave fewer than there can be. */
  lemma {:induction false} TopIsTaken(target: nat, held: Coins, c: Coins, taken: nat, k: nat)
    requires 0 < k <= N && WithinTo(c, held, k) && ValueTo(c, k) == target
    requires taken == Take(AtMost, target, held[k - 1], k - 1) && Fits(AtMost, target, held[k - 1], k - 1, taken)
    requires CountTo(c, k) <= CountTo(Choose(AtMost, target, held, k), k)
    ensures c[k - 1] == taken
  {
    ExchangeRoom(target, held[k - 1], c, taken, k);
    var m := taken - c[k - 1];
    var part := ExactPart(c, k - 1, m, k - 1);
    TwiceAsMany(part, m, k - 1);
    var left := LeftOf(c, part, k - 1);
    FewerLeft(target, held, c, left, taken, k);
  }

  lemma {:induction false} FewerLeft(target: nat, held: Coins, c: Coins, left: Coins, taken: nat, k: nat)
    requires 0 < k <= N && WithinTo(left, held, k - 1) && c[k - 1] <= taken
    requires taken == Take(AtMost, target, held[k - 1], k - 1) && Worth(taken, k - 1) <= target
    requires ValueTo(left, k - 1) == target - Worth(taken, k - 1)
    ensures CountTo(Choose(AtMost, target, held, k), k) <= CountTo(left, k - 1) + taken
  {
    ChooseStep(AtMost, target, held, k);
    SpendCompleteTo(target - Worth(taken, k - 1), held, left, k - 1);
  }

  /** Of the coins held with a value, the fewest are just one choice. */
  lemma {:induction false} FewestUnique(a: Coins, x: int, held: Coins)
    requires FewestWorth(a, x, held)
    ensures a == Spend(x, held)
  {
    SpendComplete(x, held, a);
    SpendUniqueTo(x, held, a, |held|);
  }

  lemma {:induction false} BelowUnique(u: Coins, v: Coins, target: int, held: Coins)
    requires BestBelow(u, target, held) && BestBelow(v, target, held)
    ensures u == v
  {
    if target <= 0 {
      NoValueNoCoins(u);
      NoValueNoCoins(v);
    } else {
      FewestUnique(u, Value(u), held);
      FewestUnique(v, Value(u), held);
    }
  }

  lemma {:induction false} NoValueNoCoins(c: Coins)
    requires Value(c) == 0
    ensures c == NoCoins()
  {
    forall i | 0 <= i < N ensures c[i] == 0 {
      EachAtMostValue(c, i, |c|);
    }
  }

  lemma {:induction false} FilledUnique(f: Coins, g: Coins, u: Coins, target: int, held: Coins)
    requires FilledUp(f, u, target, held) && FilledUp(g, u, target, held)
    ensures f == g
  {
    if exists e: nat :: Exceeds(u, target, held, e) {
      var d: nat :| FilledWith(f, u, target, held, d);
      var e: nat :| FilledWith(g, u, target, held, e);
      assert d == e;
    }
  }

  lemma {:induction false} AlternativeUnique(a: Coins, b: Coins, target: int, lower: Coins, held: Coins)
    requires Alternatively(a, target, lower, held) && Alternatively(b, target, lower, held)
    ensures a == b
  {
    var u: Coins, f: Coins, k: Coins :| AlternativeBy(a, target, lower, held, u, f, k);
    var v: Coins, g: Coins, l: Coins :| AlternativeBy(b, target, lower, held, v, g, l);
    BelowUnique(u, v, target, lower);
    FilledUnique(f, g, u, target, held);
    KeptUnique(k, l, f, target);
    FewestUnique(a, Value(k), held);
    FewestUnique(b, Value(k), held);
  }

  lemma {:induction false} KeptUnique(k: Coins, l: Coins, f: Coins, target: int)
    requires NotReturned(k, f, target) && NotReturned(l, f, target)
    ensures k == l
  {
  }

  /** Coins taken from the top are those that taking them one by one gives. */
  lemma {:induction false} TakenDownUnique(b: Coins, target: int, held: Coins, k: nat)
    requires k <= N && WithinTo(b, held, k) && TakenDownTo(b, target, held, k)
    ensures forall i | 0 <= i < k :: b[i] == Choose(Cover, target, held, k)[i]
    decreases k
  {
    if k > 0 {
      var rest := TopTakenDown(b, target, held, k);
      TakenDownUnique(b, rest, held, k - 1);
      ChooseStep(Cover, target, held, k);
    }
  }

  lemma {:induction false} TopTakenDown(b: Coins, target: int, held: Coins, k: nat) returns (rest: int)
    requires 0 < k <= N && WithinTo(b, held, k) && TakenDownTo(b, target, held, k)
    ensures b[k - 1] == Take(Cover, target, held[k - 1], k - 1)
    ensures rest == Rest(Cover, target, held, k) && TakenDownTo(b, rest, held, k - 1)
  {
    var d, n := k - 1, Take(Cover, target, held[k - 1], k - 1);
    rest := Rest(Cover, target, held, k);
    TakeFits(Cover, target, held[d], d);
    TopFits(b, target, held, k);
    WorthOrder(n, b[d], d);
    WorthOrder(b[d], n, d);
  }

  lemma {:induction false} TopFits(b: Coins, target: int, held: Coins, k: nat)
    requires 0 < k <= N && WithinTo(b, held, k) && TakenDownTo(b, target, held, k)
    ensures Fits(Cover, target, held[k - 1], k - 1, b[k - 1])
  {
    var d := k - 1;
    if NothingBelow(b, d) {
      ZeroValue(b, d);
    } else {
      var l := Lowest(b, d);
      EachWorth(b, l, d);
    }
  }

  lemma {:induction false} Lowest(b: Coins, d: nat) returns (l: nat)
    requires d <= N && !NothingBelow(b, d)
    ensures l < d && b[l] > 0 && NothingBelow(b, l)
    decreases d
  {
    if NothingBelow(b, d - 1) {
      l := d - 1;
    } else {
      l := Lowest(b, d - 1);
    }
  }

  lemma {:induction false} EachWorth(b: Coins, l: nat, k: nat)
    requires l < k <= N && b[l] > 0
    ensures ValueTo(b, k) >= Amount(l)
  {
    if l < k - 1 {
      EachWorth(b, l, k - 1);
    }
  }

  lemma {:induction false} BaseUnique(b: Coins, c: Coins, target: int, held: Coins)
    requires BaseCoins(b, target, held) && BaseCoins(c, target, held)
    ensures b == c
  {
    if !OneWillDo(target, held) {
      TakenDownUnique(b, target, held, |held|);
      TakenDownUnique(c, target, held, |held|);
    }
  }

  lemma {:induction false} LowerUnique(b: Coins, c: Coins, target: int, held: Coins)
    requires LowerCoins(b, target, held) && LowerCoins(c, target, held)
    ensures b == c
  {
  }

  lemma {:induction false} ChosenUnique(n: int, used: Coins, n': int, used': Coins, nMax: int, fMinimize: bool, target: int, held: Coins)
    requires Chosen(n, used, nMax, fMinimize, target, held) && Chosen(n', used', nMax, fMinimize, target, held)
    ensures n == n' && used == used'
  {
    var lower: Coins, base: Coins, alt: Coins :| ChosenBy(n, used, nMax, fMinimize, target, held, lower, base, alt);
    var lower': Coins, base': Coins, alt': Coins :| ChosenBy(n', used', nMax, fMinimize, target, held, lower', base', alt');
    LowerUnique(lower, lower', target, held);
    BaseUnique(base, base', target, held);
    AlternativeUnique(alt, alt', target, lower, held);
    var wanted := fMinimize || (!OneWillDo(target, held) && Count(alt) <= Count(base));
    ComparedUnique(n, used, n', used', base, alt, base', alt', target, nMax, wanted);
  }

  lemma {:induction false} ComparedUnique(n: int, used: Coins, n': int, used': Coins, base: Coins, alt: Coins, base': Coins, alt': Coins,
                                          target: int, nMax: int, wanted: bool)
    requires base' == base && alt' == alt
    requires Compared(n, used, base, alt, target, nMax, wanted) && Compared(n', used', base', alt', target, nMax, wanted)
    ensures n == n' && used == used'
  {
  }

  /** Exactly that: the description leaves nothing open. */
  lemma {:induction false} CalculateExactly(n: int, used: Coins, nMax: int, fMinimize: bool, target: int, held: Coins)
    ensures Calculate(nMax, fMinimize, target, held) == (n, used) <==> Chosen(n, used, nMax, fMinimize, target, held)
  {
    CalculateChooses(nMax, fMinimize, target, held);
    if Chosen(n, used, nMax, fMinimize, target, held) {
      var (n', used') := Calculate(nMax, fMinimize, target, held);
      ChosenUnique(n, used, n', used', nMax, fMinimize, target, held);
    }
  }

  /**
  Asked to minimize the change, no coins of the value that the alternative has, few enough of
  them, need less of it.
  */
  lemma {:induction false} MinimizedLeast(nMax: int, target: int, held: Coins, lower: Coins, alt: Coins, c: Coins)
    requires LowerCoins(lower, target, held) && Alternatively(alt, target, lower, held)
    requires Within(c, held) && Count(c) <= nMax && Value(c) == Value(alt)
    ensures Calculate(nMax, true, target, held).0 <= Count(Change(Value(c) - target))
  {
    var (n, used) := Calculate(nMax, true, target, held);
    CalculateChooses(nMax, true, target, held);
    AlternativeFewest(alt, target, lower, held, c);
    var lower': Coins, base: Coins, alt': Coins :| ChosenBy(n, used, nMax, true, target, held, lower', base, alt');
    LowerUnique(lower, lower', target, held);
    AlternativeUnique(alt, alt', target, lower, held);
    ComparedLeast(n, used, base, alt, target, nMax, c);
  }

  lemma {:induction false} ComparedLeast(n: int, used: Coins, base: Coins, alt: Coins, target: int, nMax: int, c: Coins)
    requires Compared(n, used, base, alt, target, nMax, true) && Count(alt) <= nMax && Value(c) == Value(alt)
    ensures n <= Count(Change(Value(c) - target))
  {
  }

  lemma {:induction false} AlternativeFewest(alt: Coins, target: int, lower: Coins, held: Coins, c: Coins)
    requires Alternatively(alt, target, lower, held) && Within(c, held) && Value(c) == Value(alt)
    ensures Count(alt) <= Count(c)
  {
    var u: Coins, f: Coins, k: Coins :| AlternativeBy(alt, target, lower, held, u, f, k);
  }
}
