/**
Coin sets over the eight zerocoin denominations, and why choosing coins greedily is right: each
denomination divides the next.

A coin set is given by how many coins of each denomination it has, the smallest first.  Denominations are named by their rank.
*/
module Denominations {

  const N := 8

  type Denom = d: nat | d < N

  /** The amount of one coin, from 100000000 up; each denomination is five times or twice the one below. */
  function Amount(d: nat): (a: nat)
    requires d < N
    ensures a >= 100000000
  {
    if d == 0 then 100000000 else if d % 2 == 1 then 5 * Amount(d - 1) else 2 * Amount(d - 1)
  }

  /** The denominations are those of zerocoinDenomList, in units of 100000000. */
  lemma {:induction false} AmountTable()
    ensures [Amount(0), Amount(1), Amount(2), Amount(3)] == [100000000, 500000000, 1000000000, 5000000000]
    ensures [Amount(4), Amount(5), Amount(6), Amount(7)] == [10000000000, 50000000000, 100000000000, 500000000000]
  {
  }

  lemma {:induction false} Ordered(d: nat, e: nat)
    requires d <= e < N
    ensures Amount(d) <= Amount(e)
    decreases e
  {
    if d < e {
      Ordered(d, e - 1);
    }
  }

  /** The amount of `k` coins. */
  function Worth(k: nat, d: nat): (w: nat)
    requires d < N
    ensures k <= w && (k > 0 ==> w >= Amount(d))
  {
    if k == 0 then 0 else Worth(k - 1, d) + Amount(d)
  }

  lemma {:induction false} WorthIsProduct(k: nat, d: nat)
    requires d < N
    ensures Worth(k, d) == k * Amount(d)
  {
    if k > 0 {
      WorthIsProduct(k - 1, d);
      OneMoreTimes(k, Amount(d));
    }
  }

  lemma {:induction false} OneMoreTimes(k: nat, a: nat)
    requires k > 0
    ensures k * a == (k - 1) * a + a
  {
  }

  lemma {:induction false} WorthAdd(k: nat, l: nat, d: nat)
    requires d < N
    ensures Worth(k + l, d) == Worth(k, d) + Worth(l, d)
  {
    if l > 0 {
      WorthAdd(k, l - 1, d);
    }
  }

  /** More coins are worth at least one coin more. */
  lemma {:induction false} WorthOrder(k: nat, l: nat, d: nat)
    requires d < N
    ensures k <= l ==> Worth(k, d) + Worth(l - k, d) == Worth(l, d)
    ensures k < l ==> Worth(k, d) + Amount(d) <= Worth(l, d)
  {
    if k <= l {
      WorthAdd(k, l - k, d);
    }
  }

  /** How many coins of the next lower denomination make up `k`: it is a fifth or a half. */
  function Split(k: nat, d: nat): nat
    requires 0 < d < N
  {
    if d % 2 == 1 then 5 * k else 2 * k
  }

  lemma {:induction false} WorthBelow(k: nat, d: nat)
    requires 0 < d < N
    ensures Worth(k, d) == Worth(Split(k, d), d - 1)
  {
    if k > 0 {
      WorthBelow(k - 1, d);
      AmountBelow(d, Split(1, d));
      WorthAdd(Split(k - 1, d), Split(1, d), d - 1);
    }
  }

  lemma {:induction false} AmountBelow(d: nat, n: nat)
    requires 0 < d < N && n == Split(1, d)
    ensures Worth(n, d - 1) == Amount(d)
  {
    WorthIsProduct(n, d - 1);
  }

  /** An amount in coins of one denomination is one in coins of any lower denomination. */
  lemma {:induction false} WorthLower(k: nat, d: nat, e: nat) returns (l: nat)
    requires e <= d < N
    ensures Worth(k, d) == Worth(l, e)
    decreases d
  {
    if e == d {
      l := k;
    } else {
      WorthBelow(k, d);
      l := WorthLower(Split(k, d), d - 1, e);
    }
  }

  //////////////////////////////////////////////////////////////////////////////
  //
  // Coin sets
  //
  //////////////////////////////////////////////////////////////////////////////

  /** How many coins of each denomination. */
  type Coins = c: seq<nat> | |c| == N witness [0, 0, 0, 0, 0, 0, 0, 0]

  function NoCoins(): (c: Coins)
    ensures forall i | 0 <= i < N :: c[i] == 0
  {
    seq(N, _ => 0)
  }

  /** The value of the coins of the `k` smallest denominations. */
  function ValueTo(c: Coins, k: nat): nat
    requires k <= N
  {
    if k == 0 then 0 else ValueTo(c, k - 1) + Worth(c[k - 1], k - 1)
  }

  function CountTo(c: Coins, k: nat): nat
    requires k <= N
  {
    if k == 0 then 0 else CountTo(c, k - 1) + c[k - 1]
  }

  function Value(c: Coins): nat { ValueTo(c, |c|) }

  function Count(c: Coins): nat { CountTo(c, |c|) }

  /** Of the `k` smallest denominations, every coin of `c` is one of `held`. */
  predicate WithinTo(c: Coins, held: Coins, k: nat)
    requires k <= N
  {
    forall i | 0 <= i < k :: c[i] <= held[i]
  }

  predicate Within(c: Coins, held: Coins) {
    forall i | 0 <= i < N :: c[i] <= held[i]
  }

  function Minus(c: Coins, d: Coins): (r: Coins)
    requires Within(d, c)
    ensures forall i | 0 <= i < N :: r[i] == c[i] - d[i]
  {
    seq(N, i requires 0 <= i < N => c[i] - d[i])
  }

  lemma {:induction false} SameTo(c: Coins, d: Coins, k: nat)
    requires k <= N && forall i | 0 <= i < k :: c[i] == d[i]
    ensures ValueTo(c, k) == ValueTo(d, k) && CountTo(c, k) == CountTo(d, k)
  {
    if k > 0 {
      SameTo(c, d, k - 1);
    }
  }

  /** If `c` is `d` and `e` together, so are values and numbers. */
  lemma {:induction false} SumTo(c: Coins, d: Coins, e: Coins, k: nat)
    requires k <= N && forall i | 0 <= i < k :: c[i] == d[i] + e[i]
    ensures ValueTo(c, k) == ValueTo(d, k) + ValueTo(e, k)
    ensures CountTo(c, k) == CountTo(d, k) + CountTo(e, k)
  {
    if k > 0 {
      SumTo(c, d, e, k - 1);
      WorthAdd(d[k - 1], e[k - 1], k - 1);
    }
  }

  lemma {:induction false} MinusValue(c: Coins, d: Coins)
    requires Within(d, c)
    ensures Value(Minus(c, d)) == Value(c) - Value(d)
    ensures Count(Minus(c, d)) == Count(c) - Count(d)
  {
    SumTo(c, d, Minus(c, d), |c|);
  }

  lemma {:induction false} WithinValue(c: Coins, d: Coins)
    requires Within(c, d)
    ensures Value(c) <= Value(d) && Count(c) <= Count(d)
  {
    MinusValue(d, c);
  }

  /** No coin is worth more than one of denomination `d`. */
  lemma {:induction false} ValueAtMost(c: Coins, k: nat, d: nat)
    requires k <= d + 1 <= N
    ensures ValueTo(c, k) <= Worth(CountTo(c, k), d)
  {
    if k > 0 {
      ValueAtMost(c, k - 1, d);
      WorthAdd(CountTo(c, k - 1), c[k - 1], d);
      WorthMono(c[k - 1], k - 1, d);
    }
  }

  lemma {:induction false} WorthMono(k: nat, d: nat, e: nat)
    requires d <= e < N
    ensures Worth(k, d) <= Worth(k, e)
  {
    if k > 0 {
      WorthMono(k - 1, d, e);
      Ordered(d, e);
    }
  }

  //////////////////////////////////////////////////////////////////////////////
  //
  // Choosing coins greedily
  //
  //////////////////////////////////////////////////////////////////////////////

  /** When to stop taking coins: before exceeding the target, before reaching it, or once it is covered. */
  datatype Rule = AtMost | Below | Cover

  /** Does the rule take another coin of denomination `d` towards `r`? */
  predicate Wants(rule: Rule, r: int, d: nat)
    requires d < N
  {
    match rule
    case AtMost => r >= Amount(d)
    case Below => r > Amount(d)
    case Cover => r > 0
  }

  /** How many coins of denomination `d`, of `held`, the rule takes towards `r`, one after the other. */
  function Take(rule: Rule, r: int, held: nat, d: nat): (n: nat)
    requires d < N
    ensures n <= held
    decreases held
  {
    if held > 0 && Wants(rule, r, d) then 1 + Take(rule, r - Amount(d), held - 1, d) else 0
  }

  /** `n` is as many coins of denomination `d`, of `held`, as the rule takes towards `r`. */
  predicate Fits(rule: Rule, r: int, held: nat, d: nat, n: nat)
    requires d < N
  {
    && n <= held
    && match rule
       case AtMost => if r < 0 then n == 0 else Worth(n, d) <= r && (n < held ==> r < Worth(n, d) + Amount(d))
       case Below => if r <= 0 then n == 0 else Worth(n, d) < r && (n < held ==> r <= Worth(n, d) + Amount(d))
       case Cover => if r <= 0 then n == 0 else Worth(n, d) < r + Amount(d) && (n < held ==> r <= Worth(n, d))
  }

  lemma {:induction false} TakeFits(rule: Rule, r: int, held: nat, d: nat)
    requires d < N
    ensures Fits(rule, r, held, d, Take(rule, r, held, d))
    decreases held
  {
    if held > 0 && Wants(rule, r, d) {
      TakeFits(rule, r - Amount(d), held - 1, d);
    }
  }

  /**
  Coins of the `k` smallest denominations of `held` towards `target`, from the highest
  denomination down, as many of each as the rule takes.
  */
  function Choose(rule: Rule, target: int, held: Coins, k: nat): (c: Coins)
    requires k <= N
    ensures Within(c, held) && forall i | k <= i < N :: c[i] == 0
    decreases held, k
  {
    if k == 0 then NoCoins()
    else Choose(rule, Rest(rule, target, held, k), held, k - 1)[k - 1 := Take(rule, target, held[k - 1], k - 1)]
  }

  /** What is left for the denominations below the k-th. */
  function Rest(rule: Rule, target: int, held: Coins, k: nat): int
    requires 0 < k <= N
  {
    target - Worth(Take(rule, target, held[k - 1], k - 1), k - 1)
  }

  lemma {:induction false} ChooseStep(rule: Rule, target: int, held: Coins, k: nat)
    requires 0 < k <= N
    ensures var c, lower := Choose(rule, target, held, k), Choose(rule, Rest(rule, target, held, k), held, k - 1);
            && c[k - 1] == Take(rule, target, held[k - 1], k - 1)
            && (forall i | 0 <= i < k - 1 :: c[i] == lower[i])
            && ValueTo(c, k - 1) == ValueTo(lower, k - 1) && CountTo(c, k - 1) == CountTo(lower, k - 1)
            && ValueTo(c, k) == ValueTo(lower, k - 1) + (target - Rest(rule, target, held, k))
            && CountTo(c, k) == CountTo(lower, k - 1) + c[k - 1]
  {
    SameTo(Choose(rule, target, held, k), Choose(rule, Rest(rule, target, held, k), held, k - 1), k - 1);
  }

  /** Coins for `target` without exceeding it, as getSpendCoins chooses them. */
  function Spend(target: int, held: Coins): Coins {
    Choose(AtMost, target, held, |held|)
  }

  lemma {:induction false} SpendAtMost(target: nat, held: Coins, k: nat)
    requires k <= N
    ensures ValueTo(Choose(AtMost, target, held, k), k) <= target
    decreases k
  {
    if k > 0 {
      ChooseStep(AtMost, target, held, k);
      TakeFits(AtMost, target, held[k - 1], k - 1);
      SpendAtMost(Rest(AtMost, target, held, k), held, k - 1);
    }
  }

  /** Nothing is taken towards a target that is met. */
  lemma {:induction false} ChooseNothing(rule: Rule, target: int, held: Coins, k: nat)
    requires target <= 0 && k <= N
    ensures var c := Choose(rule, target, held, k);
            ValueTo(c, k) == CountTo(c, k) == 0
    decreases k
  {
    if k > 0 {
      ChooseStep(rule, target, held, k);
      assert Take(rule, target, held[k - 1], k - 1) == 0;
      ChooseNothing(rule, target, held, k - 1);
    }
  }

  /**
  Coins worth at least as much as `m` coins of denomination `d`, all of lower denominations,
  include some worth exactly that: taken from the highest down, they cannot skip over a multiple
  of themselves.
  */
  lemma {:induction false} ExactPart(c: Coins, k: nat, m: nat, d: nat) returns (part: Coins)
    requires k <= d < N && Worth(m, d) <= ValueTo(c, k)
    ensures WithinTo(part, c, k) && (forall i | k <= i < N :: part[i] == 0)
    ensures ValueTo(part, k) == Worth(m, d)
    decreases k
  {
    if k == 0 {
      part := NoCoins();
    } else {
      var taken, rest := TopPart(c, k, m, d);
      var lower := ExactPart(c, k - 1, rest, k - 1);
      part := lower[k - 1 := taken];
      TopPut(lower, k, taken);
    }
  }

  /** As many coins of the highest denomination as there are, and what is left for the others. */
  lemma {:induction false} TopPart(c: Coins, k: nat, m: nat, d: nat) returns (taken: nat, rest: nat)
    requires 0 < k <= d < N && Worth(m, d) <= ValueTo(c, k)
    ensures taken <= c[k - 1] && Worth(taken, k - 1) + Worth(rest, k - 1) == Worth(m, d)
    ensures Worth(rest, k - 1) <= ValueTo(c, k - 1)
  {
    var l := WorthLower(m, d, k - 1);
    assert ValueTo(c, k) == ValueTo(c, k - 1) + Worth(c[k - 1], k - 1);
    if l <= c[k - 1] {
      taken, rest := l, 0;
    } else {
      taken, rest := c[k - 1], l - c[k - 1];
      WorthOrder(taken, l, k - 1);
    }
  }

  lemma {:induction false} TopPut(lower: Coins, k: nat, taken: nat)
    requires 0 < k <= N
    ensures ValueTo(lower[k - 1 := taken], k) == ValueTo(lower, k - 1) + Worth(taken, k - 1)
  {
    SameTo(lower[k - 1 := taken], lower, k - 1);
  }

  /**
  If any coins of `held` are worth exactly the target, the greedily chosen ones are, too, and no
  choice that is takes fewer coins.
  */
  lemma {:induction false} SpendCompleteTo(target: nat, held: Coins, c: Coins, k: nat)
    requires k <= N && WithinTo(c, held, k) && ValueTo(c, k) == target
    ensures ValueTo(Choose(AtMost, target, held, k), k) == target
    ensures CountTo(Choose(AtMost, target, held, k), k) <= CountTo(c, k)
    decreases k
  {
    if k > 0 {
      ChooseStep(AtMost, target, held, k);
      TakeFits(AtMost, target, held[k - 1], k - 1);
      var rest := Exchange(target, held[k - 1], c, Take(AtMost, target, held[k - 1], k - 1), k);
      SpendCompleteTo(Rest(AtMost, target, held, k), held, rest, k - 1);
    }
  }

  /** Lower coins of `c` can be exchanged for coins of its k-th denomination until no more fit. */
  lemma {:induction false} Exchange(target: nat, held: nat, c: Coins, taken: nat, k: nat) returns (rest: Coins)
    requires 0 < k <= N && ValueTo(c, k) == target && c[k - 1] <= held && Fits(AtMost, target, held, k - 1, taken)
    ensures WithinTo(rest, c, k - 1)
    ensures ValueTo(rest, k - 1) == target - Worth(taken, k - 1)
    ensures CountTo(rest, k - 1) + taken <= CountTo(c, k)
  {
    ExchangeRoom(target, held, c, taken, k);
    var part := ExactPart(c, k - 1, taken - c[k - 1], k - 1);
    PartCount(part, taken - c[k - 1], k - 1);
    assert CountTo(c, k) == CountTo(c, k - 1) + c[k - 1];
    rest := LeftOf(c, part, k - 1);
  }

  /** The lower coins are worth what the k-th denomination is to gain. */
  lemma {:induction false} ExchangeRoom(target: nat, held: nat, c: Coins, taken: nat, k: nat)
    requires 0 < k <= N && ValueTo(c, k) == target && c[k - 1] <= held && Fits(AtMost, target, held, k - 1, taken)
    ensures c[k - 1] <= taken && ValueTo(c, k - 1) == target - Worth(taken, k - 1) + Worth(taken - c[k - 1], k - 1)
  {
    WorthOrder(taken, c[k - 1], k - 1);
    WorthOrder(c[k - 1], taken, k - 1);
  }

  lemma {:induction false} PartCount(part: Coins, m: nat, d: nat)
    requires d < N && ValueTo(part, d) == Worth(m, d)
    ensures CountTo(part, d) >= m
  {
    ValueAtMost(part, d, d);
    WorthOrder(CountTo(part, d), m, d);
  }

  /** The coins of the `k` smallest denominations of `c` without those of `part`. */
  lemma {:induction false} LeftOf(c: Coins, part: Coins, k: nat) returns (rest: Coins)
    requires k <= N && WithinTo(part, c, k)
    ensures WithinTo(rest, c, k) && ValueTo(rest, k) == ValueTo(c, k) - ValueTo(part, k)
    ensures CountTo(rest, k) == CountTo(c, k) - CountTo(part, k)
  {
    rest := seq(N, i requires 0 <= i < N => if i < k then c[i] - part[i] else 0);
    SumTo(c, part, rest, k);
  }

  lemma {:induction false} SpendComplete(target: nat, held: Coins, c: Coins)
    requires Within(c, held) && Value(c) == target
    ensures Value(Spend(target, held)) == target
    ensures Count(Spend(target, held)) <= Count(c)
  {
    SpendCompleteTo(target, held, c, |c|);
  }
}
