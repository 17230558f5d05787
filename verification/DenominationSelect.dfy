/**
The selection of mints to spend, as the loops of denomination_functions.cpp perform it.  Each
method is proved to compute what Denominations and DenominationChange say.
*/
module DenominationSelect {
  import opened Denominations
  import opened DenominationChange
  import opened DenominationResult

  /** What matters of a mint: which one it is, its denomination, and whether it has been spent. */
  datatype Mint = Mint(hashSerial: nat, denom: Denom, isUsed: bool)

  /** How many of the first `k` mints are unused and of denomination `d`. */
  function CountMints(mints: seq<Mint>, d: Denom, k: nat): (n: nat)
    requires k <= |mints|
  {
    if k == 0 then 0
    else CountMints(mints, d, k - 1) + if !mints[k - 1].isUsed && mints[k - 1].denom == d then 1 else 0
  }

  /** The coins the unused mints are. */
  function Available(mints: seq<Mint>): Coins {
    seq(N, d requires 0 <= d < N => CountMints(mints, d, |mints|))
  }

  //////////////////////////////////////////////////////////////////////////////
  //
  // getSpendCoins and getChange
  //
  //////////////////////////////////////////////////////////////////////////////

  /** `used` are the coins chosen so far, of denominations from `k` up, and `remaining` is left for the others. */
  ghost predicate ChosenDown(rule: Rule, target: int, held: Coins, used: Coins, remaining: int, k: nat)
    requires k <= N
  {
    && (forall i | 0 <= i < k :: used[i] == 0)
    && (forall i | 0 <= i < N ::
          Choose(rule, target, held, |held|)[i] == if i < k then Choose(rule, remaining, held, k)[i] else used[i])
    && ValueTo(used, |used|) == target - remaining
    && ValueTo(used, k) == 0
  }

  lemma {:induction false} ChosenStart(rule: Rule, target: int, held: Coins)
    ensures ChosenDown(rule, target, held, NoCoins(), target, N)
  {
    ZeroTo(NoCoins(), |held|);
  }

  lemma {:induction false} ZeroTo(c: Coins, k: nat)
    requires k <= N && forall i | 0 <= i < k :: c[i] == 0
    ensures ValueTo(c, k) == 0
  {
    if k > 0 {
      ZeroTo(c, k - 1);
    }
  }

  /** Having taken what the rule takes of denomination `k - 1`, the ones below are next. */
  lemma {:induction false} ChosenNext(rule: Rule, target: int, held: Coins, used: Coins, remaining: int, used': Coins, remaining': int, k: nat)
    requires 0 < k <= N && ChosenDown(rule, target, held, used, remaining, k)
    requires used' == used[k - 1 := Take(rule, remaining, held[k - 1], k - 1)]
    requires remaining' == remaining - Worth(used'[k - 1], k - 1)
    ensures ChosenDown(rule, target, held, used', remaining', k - 1)
  {
    PutCoins(used, k - 1, used'[k - 1]);
    ZeroTo(used', k - 1);
    ChooseStep(rule, remaining, held, k);
    assert Rest(rule, remaining, held, k) == remaining';
  }

  lemma {:induction false} PutCoins(c: Coins, d: nat, n: nat)
    requires d < N && c[d] == 0
    ensures ValueTo(c[d := n], |c|) == ValueTo(c, |c|) + Worth(n, d)
  {
    var added := seq(N, i requires 0 <= i < N => if i == d then n else 0);
    SumTo(c[d := n], c, added, |c|);
    SingleTo(added, d, |added|);
  }

  lemma {:induction false} SingleTo(c: Coins, d: nat, k: nat)
    requires d < N && k <= N && forall i | 0 <= i < N && i != d :: c[i] == 0
    ensures ValueTo(c, k) == if d < k then Worth(c[d], d) else 0
  {
    if k > 0 {
      SingleTo(c, d, k - 1);
    }
  }

  lemma {:induction false} ChosenDone(rule: Rule, target: int, held: Coins, used: Coins, remaining: int)
    requires ChosenDown(rule, target, held, used, remaining, 0)
    ensures used == Choose(rule, target, held, |held|) && remaining == target - Value(used)
  {
  }

  /** Take coins of denomination `d`, of `held`, one by one as long as the rule wants more. */
  method TakeLoop(rule: Rule, remaining: int, held: nat, d: Denom) returns (n: nat, remaining': int)
    ensures n == Take(rule, remaining, held, d) && remaining' == remaining - Worth(n, d)
  {
    n, remaining' := 0, remaining;
    var nValue := Amount(d);
    while n < held && Wants(rule, remaining', d)
      invariant n <= held && remaining' == remaining - Worth(n, d)
      invariant n + Take(rule, remaining', held - n, d) == Take(rule, remaining, held, d)
    {
      n := n + 1;
      remaining' := remaining' - nValue;
    }
  }

  method GetSpendCoins(nValueTarget: int, mapOfDenomsHeld: Coins) returns (mapUsed: Coins)
    ensures mapUsed == Spend(nValueTarget, mapOfDenomsHeld)
  {
    var nRemainingValue := nValueTarget;
    mapUsed := NoCoins();
    ChosenStart(AtMost, nValueTarget, mapOfDenomsHeld);
    for d := N downto 0
      invariant ChosenDown(AtMost, nValueTarget, mapOfDenomsHeld, mapUsed, nRemainingValue, d)
    {
      var n, remaining := TakeLoop(AtMost, nRemainingValue, mapOfDenomsHeld[d], d);
      ghost var used := mapUsed;
      mapUsed := mapUsed[d := n];
      ChosenNext(AtMost, nValueTarget, mapOfDenomsHeld, used, nRemainingValue, mapUsed, remaining, d + 1);
      nRemainingValue := remaining;
    }
    ChosenDone(AtMost, nValueTarget, mapOfDenomsHeld, mapUsed, nRemainingValue);
  }

  /** Take coins of denomination `d` one by one, with no limit but the amount. */
  method ChangeLoop(remaining: int, d: Denom, ghost plenty: nat) returns (n: nat, remaining': int)
    requires remaining <= plenty
    ensures n == Take(AtMost, remaining, plenty, d) && remaining' == remaining - Worth(n, d)
  {
    n, remaining' := 0, remaining;
    var nValue := Amount(d);
    while remaining' >= nValue
      invariant remaining' == remaining - Worth(n, d)
      invariant n <= plenty && (remaining' < 0 || n + remaining' <= plenty)
      invariant n + Take(AtMost, remaining', plenty - n, d) == Take(AtMost, remaining, plenty, d)
      decreases remaining'
    {
      n := n + 1;
      remaining' := remaining' - nValue;
    }
  }

  lemma {:induction false} WithoutLimit(x: int) returns (plenty: Coins)
    ensures Change(x) == Spend(x, plenty) && forall i | 0 <= i < N :: plenty[i] >= x
  {
    plenty := Plenty(x);
  }

  method GetChange(nValueTarget: int) returns (mapChange: Coins)
    ensures mapChange == Change(nValueTarget)
  {
    ghost var plenty := WithoutLimit(nValueTarget);
    var nRemainingValue := nValueTarget;
    mapChange := NoCoins();
    ChosenStart(AtMost, nValueTarget, plenty);
    for d := N downto 0
      invariant ChosenDown(AtMost, nValueTarget, plenty, mapChange, nRemainingValue, d)
      invariant nRemainingValue <= nValueTarget
    {
      var n, remaining := ChangeLoop(nRemainingValue, d, plenty[d]);
      ghost var used := mapChange;
      mapChange := mapChange[d := n];
      ChosenNext(AtMost, nValueTarget, plenty, used, nRemainingValue, mapChange, remaining, d + 1);
      nRemainingValue := remaining;
    }
    ChosenDone(AtMost, nValueTarget, plenty, mapChange, nRemainingValue);
  }

  //////////////////////////////////////////////////////////////////////////////
  //
  // getIdealSpends
  //
  //////////////////////////////////////////////////////////////////////////////

  /** One more coin at hand changes nothing unless all coins so far were taken and another one fits. */
  lemma {:induction false} TakeGrows(r: int, held: nat, d: Denom)
    ensures var n := Take(AtMost, r, held, d);
            Take(AtMost, r, held + 1, d) == if n == held && r - Worth(n, d) >= Amount(d) then held + 1 else n
    decreases held
  {
    if held > 0 && r >= Amount(d) {
      TakeGrows(r - Amount(d), held - 1, d);
    }
  }

  /** Once no coin fits any more, more coins at hand change nothing. */
  lemma {:induction false} TakeStops(r: int, held: nat, more: nat, d: Denom)
    requires r - Worth(Take(AtMost, r, held, d), d) < Amount(d) && held <= more
    ensures Take(AtMost, r, more, d) == Take(AtMost, r, held, d)
    decreases more
  {
    if held < more {
      TakeStops(r, held, more - 1, d);
      TakeGrows(r, more - 1, d);
    }
  }

  lemma {:induction false} CountGrows(mints: seq<Mint>, d: Denom, j: nat, k: nat)
    requires j <= k <= |mints|
    ensures CountMints(mints, d, j) <= CountMints(mints, d, k)
  {
    if j < k {
      CountGrows(mints, d, j, k - 1);
    }
  }

  /** Of the first `m` mints, `n` of denomination `d` have been taken towards `r`, which leaves `remaining`. */
  ghost predicate IdealTo(r: int, mints: seq<Mint>, d: Denom, m: nat, n: nat, remaining: int)
    requires m <= |mints|
  {
    && n == Take(AtMost, r, CountMints(mints, d, m), d) && remaining == r - Worth(n, d)
    && (remaining >= Amount(d) ==> n == CountMints(mints, d, m))
  }

  lemma {:induction false} IdealNext(r: int, mints: seq<Mint>, d: Denom, m: nat, n: nat, remaining: int, n': nat, remaining': int)
    requires m < |mints| && IdealTo(r, mints, d, m, n, remaining)
    requires if !mints[m].isUsed && mints[m].denom == d && remaining >= Amount(d)
             then n' == n + 1 && remaining' == remaining - Amount(d) else n' == n && remaining' == remaining
    ensures IdealTo(r, mints, d, m + 1, n', remaining')
  {
    TakeGrows(r, CountMints(mints, d, m), d);
  }

  lemma {:induction false} IdealDone(r: int, mints: seq<Mint>, d: Denom, m: nat, n: nat, remaining: int)
    requires m <= |mints| && IdealTo(r, mints, d, m, n, remaining) && remaining < Amount(d)
    ensures IdealTo(r, mints, d, |mints|, n, remaining)
  {
    CountGrows(mints, d, m, |mints|);
    TakeStops(r, CountMints(mints, d, m), CountMints(mints, d, |mints|), d);
  }

  /** Take unused mints of denomination `d`, in the order of the list, as long as they fit. */
  method IdealLoop(nRemaining: int, mints: seq<Mint>, d: Denom) returns (n: nat, remaining: int)
    ensures n == Take(AtMost, nRemaining, CountMints(mints, d, |mints|), d) && remaining == nRemaining - Worth(n, d)
  {
    n, remaining := 0, nRemaining;
    for m := 0 to |mints|
      invariant IdealTo(nRemaining, mints, d, m, n, remaining)
    {
      ghost var n0, remaining0 := n, remaining;
      if mints[m].isUsed {
        IdealNext(nRemaining, mints, d, m, n, remaining, n, remaining);
        continue;
      }
      if remaining >= Amount(d) && d == mints[m].denom {
        n := n + 1;
        remaining := remaining - Amount(mints[m].denom);
      }
      IdealNext(nRemaining, mints, d, m, n0, remaining0, n, remaining);
      if remaining < Amount(d) {
        IdealDone(nRemaining, mints, d, m + 1, n, remaining);
        return;
      }
    }
  }

  /** Unused mints whose amounts add up to `target`. */
  ghost predicate MeetsExactly(mints: seq<Mint>, pick: set<nat>, target: int) {
    && (forall i | i in pick :: i < |mints| && !mints[i].isUsed)
    && PickedValue(mints, pick, |mints|) == target
  }

  ghost function PickedValue(mints: seq<Mint>, pick: set<nat>, k: nat): nat
    requires k <= |mints|
  {
    if k == 0 then 0 else PickedValue(mints, pick, k - 1) + if k - 1 in pick then Amount(mints[k - 1].denom) else 0
  }

  /**
  Choose unused mints for the target from the highest denomination down.  The result says whether
  they meet it exactly, which is so exactly when any unused mints do; and no choice that does
  takes fewer.
  */
  method GetIdealSpends(nValueTarget: int, listMints: seq<Mint>) returns (ok: bool, mapOfDenomsUsed: Coins)
    ensures mapOfDenomsUsed == Spend(nValueTarget, Available(listMints))
    ensures ok <==> Value(mapOfDenomsUsed) == nValueTarget
    ensures ok <==> exists pick :: MeetsExactly(listMints, pick, nValueTarget)
    ensures forall pick | MeetsExactly(listMints, pick, nValueTarget) :: Count(mapOfDenomsUsed) <= |pick|
  {
    ghost var held := Available(listMints);
    var nRemainingValue := nValueTarget;
    mapOfDenomsUsed := NoCoins();
    ChosenStart(AtMost, nValueTarget, held);
    for d := N downto 0
      invariant ChosenDown(AtMost, nValueTarget, held, mapOfDenomsUsed, nRemainingValue, d)
    {
      var n, remaining := IdealLoop(nRemainingValue, listMints, d);
      ghost var used := mapOfDenomsUsed;
      mapOfDenomsUsed := mapOfDenomsUsed[d := n];
      ChosenNext(AtMost, nValueTarget, held, used, nRemainingValue, mapOfDenomsUsed, remaining, d + 1);
      nRemainingValue := remaining;
    }
    ChosenDone(AtMost, nValueTarget, held, mapOfDenomsUsed, nRemainingValue);
    SpendMeets(nValueTarget, listMints);
    return nRemainingValue == 0, mapOfDenomsUsed;
  }

  /** Greedy choice among the unused mints finds an exact match whenever there is one, and a smallest one. */
  lemma {:induction false} SpendMeets(target: int, mints: seq<Mint>)
    ensures var c := Spend(target, Available(mints));
            && (Value(c) == target <==> exists pick :: MeetsExactly(mints, pick, target))
            && forall pick | MeetsExactly(mints, pick, target) :: Count(c) <= |pick|
  {
    var c := Spend(target, Available(mints));
    forall pick | MeetsExactly(mints, pick, target) ensures Value(c) == target && Count(c) <= |pick| {
      var p := CoinsOf(mints, pick, |mints|);
      CoinsOfPick(mints, pick, |mints|);
      SpendComplete(target, Available(mints), p);
      PickSize(mints, pick);
    }
    if Value(c) == target {
      var pick := PickCoins(mints, c, |mints|);
      assert MeetsExactly(mints, pick, target);
    }
  }

  /** How many of the picked mints among the first `k` there are of each denomination. */
  ghost function CoinsOf(mints: seq<Mint>, pick: set<nat>, k: nat): Coins
    requires k <= |mints|
  {
    if k == 0 then NoCoins()
    else
      var c, d := CoinsOf(mints, pick, k - 1), mints[k - 1].denom;
      if k - 1 in pick then c[d := c[d] + 1] else c
  }

  lemma {:induction false} AddOne(c: Coins, d: Denom)
    ensures Value(c[d := c[d] + 1]) == Value(c) + Amount(d)
    ensures Count(c[d := c[d] + 1]) == Count(c) + 1
  {
    SumTo(c[d := c[d] + 1], c, OneCoin(d), |c|);
    OneCoinValue(d);
  }

  lemma {:induction false} CoinsOfPick(mints: seq<Mint>, pick: set<nat>, k: nat)
    requires k <= |mints| && forall i | i in pick :: i < |mints| && !mints[i].isUsed
    ensures var c := CoinsOf(mints, pick, k);
            && Value(c) == PickedValue(mints, pick, k) && Count(c) == |set i | i in pick && i < k|
            && forall d | 0 <= d < N :: c[d] <= CountMints(mints, d, k)
  {
    if k == 0 {
      assert (set i | i in pick && i < k) == {};
      ZeroTo(NoCoins(), |NoCoins()|);
      ZeroCount(NoCoins(), |NoCoins()|);
    } else {
      CoinsOfPick(mints, pick, k - 1);
      PickGrows(pick, k);
      if k - 1 in pick {
        AddOne(CoinsOf(mints, pick, k - 1), mints[k - 1].denom);
      }
    }
  }

  lemma {:induction false} PickGrows(pick: set<nat>, k: nat)
    requires k > 0
    ensures |set i | i in pick && i < k| == |set i | i in pick && i < k - 1| + if k - 1 in pick then 1 else 0
  {
    var before, after := set i | i in pick && i < k - 1, set i | i in pick && i < k;
    assert after == if k - 1 in pick then before + {k - 1} else before;
  }

  lemma {:induction false} ZeroCount(c: Coins, k: nat)
    requires k <= N && forall i | 0 <= i < k :: c[i] == 0
    ensures CountTo(c, k) == 0
  {
    if k > 0 {
      ZeroCount(c, k - 1);
    }
  }

  lemma {:induction false} PickSize(mints: seq<Mint>, pick: set<nat>)
    requires forall i | i in pick :: i < |mints| && !mints[i].isUsed
    ensures Count(CoinsOf(mints, pick, |mints|)) == |pick|
  {
    CoinsOfPick(mints, pick, |mints|);
    assert (set i | i in pick && i < |mints|) == pick;
  }

  /** Mints among the first `k` that make up the coins `c`. */
  lemma {:induction false} PickCoins(mints: seq<Mint>, c: Coins, k: nat) returns (pick: set<nat>)
    requires k <= |mints| && forall d | 0 <= d < N :: c[d] <= CountMints(mints, d, k)
    ensures forall i | i in pick :: i < k && !mints[i].isUsed
    ensures PickedValue(mints, pick, k) == Value(c)
    decreases k
  {
    if k == 0 {
      pick := {};
      ZeroTo(c, |c|);
    } else {
      var d := mints[k - 1].denom;
      if !mints[k - 1].isUsed && c[d] > 0 {
        var rest := c[d := c[d] - 1];
        pick := PickCoins(mints, rest, k - 1);
        AddOne(rest, d);
        assert rest[d := rest[d] + 1] == c;
        PickedSame(mints, pick, pick + {k - 1}, k - 1);
        pick := pick + {k - 1};
      } else {
        pick := PickCoins(mints, c, k - 1);
      }
    }
  }

  lemma {:induction false} PickedSame(mints: seq<Mint>, p: set<nat>, q: set<nat>, k: nat)
    requires k <= |mints| && forall i | 0 <= i < k :: i in p <==> i in q
    ensures PickedValue(mints, p, k) == PickedValue(mints, q, k)
  {
    if k > 0 {
      PickedSame(mints, p, q, k - 1);
    }
  }

  //////////////////////////////////////////////////////////////////////////////
  //
  // getSpends
  //
  //////////////////////////////////////////////////////////////////////////////

  /** `picks` are places of unused mints; `selected` are those mints. */
  ghost predicate Places(mints: seq<Mint>, selected: seq<Mint>, picks: seq<nat>) {
    && |picks| == |selected|
    && forall i | 0 <= i < |picks| :: picks[i] < |mints| && selected[i] == mints[picks[i]] && !mints[picks[i]].isUsed
  }

  /** No mint is picked twice. */
  ghost predicate Different(picks: seq<nat>) {
    forall i, j | 0 <= i < j < |picks| :: picks[i] != picks[j]
  }

  /** The amount of the first `k` selected mints. */
  function AmountOf(selected: seq<Mint>, k: nat): nat
    requires k <= |selected|
  {
    if k == 0 then 0 else AmountOf(selected, k - 1) + Amount(selected[k - 1].denom)
  }

  lemma {:induction false} AmountOfAppend(selected: seq<Mint>, m: Mint, k: nat)
    requires k <= |selected|
    ensures AmountOf(selected + [m], k) == AmountOf(selected, k)
  {
    if k > 0 {
      AmountOfAppend(selected, m, k - 1);
    }
  }

  predicate Fitting(m: Mint, d: Denom) {
    !m.isUsed && m.denom == d
  }

  /** The first fitting mint is in place `m`. */
  ghost predicate IsFirst(mints: seq<Mint>, d: Denom, m: nat) {
    m < |mints| && Fitting(mints[m], d) && forall i | 0 <= i < m :: !Fitting(mints[i], d)
  }

  /** The places of the first `n` fitting mints, as far as there are that many among the first `k` mints. */
  function FirstPlaces(mints: seq<Mint>, d: Denom, n: nat, k: nat): (q: seq<nat>)
    requires k <= |mints|
    ensures |q| <= n && forall i | 0 <= i < |q| :: q[i] < k
  {
    if k == 0 then []
    else
      var q := FirstPlaces(mints, d, n, k - 1);
      if Fitting(mints[k - 1], d) && |q| < n then q + [k - 1] else q
  }

  function MintsAt(mints: seq<Mint>, q: seq<nat>): seq<Mint>
    requires forall i | 0 <= i < |q| :: q[i] < |mints|
  {
    seq(|q|, i requires 0 <= i < |q| => mints[q[i]])
  }

  /** They are fitting mints in their order, as many as there are up to `n`, and none before the last is passed over. */
  lemma {:induction false} FirstPlacesAre(mints: seq<Mint>, d: Denom, n: nat, k: nat)
    requires k <= |mints|
    ensures var q := FirstPlaces(mints, d, n, k);
            && |q| == (if n <= CountMints(mints, d, k) then n else CountMints(mints, d, k))
            && (forall i | 0 <= i < |q| :: !mints[q[i]].isUsed && mints[q[i]].denom == d)
            && (forall i, j | 0 <= i < j < |q| :: q[i] < q[j])
            && (forall x | 0 <= x < k && !mints[x].isUsed && mints[x].denom == d ::
                  x in q || (|q| == n && forall i | 0 <= i < n :: q[i] < x))
  {
    if k > 0 {
      FirstPlacesAre(mints, d, n, k - 1);
    }
  }

  lemma {:induction false} MintsAtAppend(mints: seq<Mint>, q: seq<nat>, m: nat)
    requires m < |mints| && forall i | 0 <= i < |q| :: q[i] < |mints|
    ensures MintsAt(mints, q + [m]) == MintsAt(mints, q) + [mints[m]]
  {
  }

  lemma {:induction false} MintsAtAmount(mints: seq<Mint>, d: Denom, selected: seq<Mint>, q: seq<nat>)
    requires forall i | 0 <= i < |q| :: q[i] < |mints| && mints[q[i]].denom == d
    ensures var s := selected + MintsAt(mints, q); AmountOf(s, |s|) == AmountOf(selected, |selected|) + Worth(|q|, d)
  {
    if q == [] {
      assert selected + MintsAt(mints, q) == selected;
    } else {
      var front, last := q[..|q| - 1], q[|q| - 1];
      MintsAtAmount(mints, d, selected, front);
      MintsAtAppend(mints, front, last);
      assert front + [last] == q;
      var s := selected + MintsAt(mints, front);
      assert selected + MintsAt(mints, q) == s + [mints[last]];
      AmountOfAppend(s, mints[last], |s|);
    }
  }

  /** One pass over the list: add the first `wanted` unused mints of denomination `d`, or as many as there are. */
  method SpendLoop(mints: seq<Mint>, d: Denom, wanted: nat, selected: seq<Mint>, ghost picks: seq<nat>)
      returns (selected': seq<Mint>, taken: nat, ghost picks': seq<nat>)
    requires Places(mints, selected, picks)
    ensures var q := FirstPlaces(mints, d, wanted, |mints|);
            selected' == selected + MintsAt(mints, q) && taken == |q| && picks' == picks + q
  {
    selected', taken := selected, 0;
    ghost var q: seq<nat> := [];
    for m := 0 to |mints|
      invariant q == FirstPlaces(mints, d, wanted, m) && taken == |q| && selected' == selected + MintsAt(mints, q)
    {
      if mints[m].isUsed {
        continue;
      }
      if d == mints[m].denom && taken < wanted {
        MintsAtAppend(mints, q, m);
        selected' := selected' + [mints[m]];
        taken := taken + 1;
        q := q + [m];
      }
    }
    picks' := picks + q;
  }

  /** `selected` with mints of denomination `d` added, at `picks'`. */
  ghost predicate Added(mints: seq<Mint>, d: Denom, selected: seq<Mint>, picks: seq<nat>,
                        selected': seq<Mint>, picks': seq<nat>, taken: nat)
  {
    && Places(mints, selected', picks') && picks <= picks'
    && (forall i | |picks| <= i < |picks'| :: mints[picks'[i]].denom == d)
    && |selected'| == |selected| + taken
    && AmountOf(selected', |selected'|) == AmountOf(selected, |selected|) + Worth(taken, d)
  }

  /** What one pass adds. */
  lemma {:induction false} PassAdds(mints: seq<Mint>, d: Denom, wanted: nat, selected: seq<Mint>, picks: seq<nat>, q: seq<nat>)
    requires q == FirstPlaces(mints, d, wanted, |mints|) && Places(mints, selected, picks)
    ensures Added(mints, d, selected, picks, selected + MintsAt(mints, q), picks + q, |q|)
    ensures |q| == if wanted <= CountMints(mints, d, |mints|) then wanted else CountMints(mints, d, |mints|)
    ensures q != [] ==> IsFirst(mints, d, q[0])
  {
    FirstPlacesAre(mints, d, wanted, |mints|);
    MintsAdd(mints, d, selected, picks, q);
    if q != [] {
      StartsFirst(mints, d, wanted, q);
    }
  }

  lemma {:induction false} MintsAdd(mints: seq<Mint>, d: Denom, selected: seq<Mint>, picks: seq<nat>, q: seq<nat>)
    requires (forall i | 0 <= i < |q| :: q[i] < |mints| && Fitting(mints[q[i]], d)) && Places(mints, selected, picks)
    ensures Added(mints, d, selected, picks, selected + MintsAt(mints, q), picks + q, |q|)
  {
    MintsAtAmount(mints, d, selected, q);
  }

  lemma {:induction false} StartsFirst(mints: seq<Mint>, d: Denom, wanted: nat, q: seq<nat>)
    requires q == FirstPlaces(mints, d, wanted, |mints|) && q != []
    ensures IsFirst(mints, d, q[0])
  {
    FirstPlacesAre(mints, d, wanted, |mints|);
  }

  /** Mints of one denomination that have not been picked before are different from all that have. */
  lemma {:induction false} PassDiffers(mints: seq<Mint>, d: Denom, wanted: nat, picks: seq<nat>, q: seq<nat>)
    requires q == FirstPlaces(mints, d, wanted, |mints|)
    requires forall i | 0 <= i < |picks| :: picks[i] < |mints| && mints[picks[i]].denom != d
    ensures Different(picks + q) <==> Different(picks)
  {
    FirstPlacesAre(mints, d, wanted, |mints|);
    if Different(picks + q) {
      assert forall i | 0 <= i < |picks| :: picks[i] == (picks + q)[i];
    }
  }

  lemma {:induction false} AddedTwice(mints: seq<Mint>, d: Denom, s0: seq<Mint>, p0: seq<nat>, s1: seq<Mint>, p1: seq<nat>,
                                      s2: seq<Mint>, p2: seq<nat>, n1: nat, n2: nat)
    requires Added(mints, d, s0, p0, s1, p1, n1) && Added(mints, d, s1, p1, s2, p2, n2)
    ensures Added(mints, d, s0, p0, s2, p2, n1 + n2)
  {
    WorthAdd(n1, n2, d);
    assert forall i | |p0| <= i < |p1| :: p2[i] == p1[i];
  }

  /** A second pass starts with the mint with which the first one started. */
  lemma {:induction false} Repeats(mints: seq<Mint>, d: Denom, p1: seq<nat>, p2: seq<nat>, i: nat, j: nat)
    requires i < |p1| <= j < |p2| && p1 <= p2 && IsFirst(mints, d, p1[i]) && IsFirst(mints, d, p2[j])
    ensures !Different(p2)
  {
    assert p1[i] == p2[i] && p2[i] == p2[j];
  }

  /** Some of the mints added are of denomination `d`, and the first of them is the first of all. */
  ghost predicate Begun(mints: seq<Mint>, d: Denom, picks: seq<nat>, picks': seq<nat>) {
    |picks| < |picks'| && IsFirst(mints, d, picks'[|picks|])
  }

  /** One more pass, after one that has begun with the same mint. */
  method SpendAgain(mints: seq<Mint>, d: Denom, left: nat, selected1: seq<Mint>,
                    ghost selected: seq<Mint>, ghost picks: seq<nat>, ghost picks1: seq<nat>, ghost n: nat)
      returns (selected': seq<Mint>, taken: nat, ghost picks': seq<nat>)
    requires left > 0 && CountMints(mints, d, |mints|) > 0
    requires Added(mints, d, selected, picks, selected1, picks1, n) && Begun(mints, d, picks, picks1)
    ensures 0 < taken <= left && Added(mints, d, selected, picks, selected', picks', n + taken)
    ensures Begun(mints, d, picks, picks') && !Different(picks')
  {
    selected', taken, picks' := SpendLoop(mints, d, left, selected1, picks1);
    PassAdds(mints, d, left, selected1, picks1, FirstPlaces(mints, d, left, |mints|));
    AddedTwice(mints, d, selected, picks, selected1, picks1, selected', picks', n, taken);
    Repeats(mints, d, picks1, picks', |picks|, |picks1|);
  }

  /**
  Add `wanted` unused mints of denomination `d`, going over the list as often as it takes: if
  there are fewer, some are picked again, and if there are none, the loop would not end.
  */
  method SpendCoins(mints: seq<Mint>, d: Denom, wanted: nat, selected: seq<Mint>, ghost picks: seq<nat>)
      returns (selected': seq<Mint>, ghost picks': seq<nat>)
    requires Places(mints, selected, picks) && forall i | 0 <= i < |picks| :: mints[picks[i]].denom != d
    requires wanted > 0 ==> CountMints(mints, d, |mints|) > 0
    ensures Added(mints, d, selected, picks, selected', picks', wanted)
    ensures Different(picks') <==> Different(picks) && wanted <= CountMints(mints, d, |mints|)
    ensures wanted <= CountMints(mints, d, |mints|) ==> picks' == picks + FirstPlaces(mints, d, wanted, |mints|)
  {
    var taken;
    selected', taken, picks' := SpendLoop(mints, d, wanted, selected, picks);
    PassAdds(mints, d, wanted, selected, picks, FirstPlaces(mints, d, wanted, |mints|));
    PassDiffers(mints, d, wanted, picks, FirstPlaces(mints, d, wanted, |mints|));
    var left := wanted - taken;
    while left != 0
      invariant 0 <= left <= wanted && Added(mints, d, selected, picks, selected', picks', wanted - left)
      invariant wanted <= CountMints(mints, d, |mints|) ==> left == 0 && (Different(picks') <==> Different(picks))
      invariant wanted <= CountMints(mints, d, |mints|) ==> picks' == picks + FirstPlaces(mints, d, wanted, |mints|)
      invariant wanted > CountMints(mints, d, |mints|) ==> Begun(mints, d, picks, picks') && (left == 0 ==> !Different(picks'))
    {
      selected', taken, picks' := SpendAgain(mints, d, left, selected', selected, picks, picks', wanted - left);
      left := left - taken;
    }
  }

  /** Are there unused mints of every denomination asked for? */
  ghost predicate SomeOfEach(mints: seq<Mint>, c: Coins) {
    forall d | 0 <= d < N && c[d] > 0 :: CountMints(mints, d, |mints|) > 0
  }

  /** What has been selected for the coins of `c`, from the highest denomination down to `k`. */
  ghost predicate SelectedDown(mints: seq<Mint>, c: Coins, selected: seq<Mint>, value: nat, picks: seq<nat>, k: nat)
    requires k <= N
  {
    && Places(mints, selected, picks) && (forall i | 0 <= i < |picks| :: mints[picks[i]].denom >= k)
    && value == AmountOf(selected, |selected|) && value + ValueTo(c, k) == Value(c)
    && |selected| + CountTo(c, k) == Count(c)
    && (Different(picks) <==> forall d | k <= d < N :: c[d] <= CountMints(mints, d, |mints|))
  }

  lemma {:induction false} SelectedStart(mints: seq<Mint>, c: Coins, k: nat)
    requires k == |c|
    ensures SelectedDown(mints, c, [], 0, [], k)
  {
  }

  lemma {:induction false} SelectedDone(mints: seq<Mint>, c: Coins, selected: seq<Mint>, value: nat, picks: seq<nat>, k: nat)
    requires k == 0 && SelectedDown(mints, c, selected, value, picks, k)
    ensures |selected| == Count(c) && value == Value(c) && (Different(picks) <==> Within(c, Available(mints)))
  {
  }

  lemma {:induction false} SelectedNext(mints: seq<Mint>, c: Coins, selected: seq<Mint>, value: nat, picks: seq<nat>,
                                        selected': seq<Mint>, value': nat, picks': seq<nat>, k: nat)
    requires 0 < k <= N && SelectedDown(mints, c, selected, value, picks, k)
    requires Added(mints, k - 1, selected, picks, selected', picks', c[k - 1]) && value' == value + Worth(c[k - 1], k - 1)
    requires Different(picks') <==> Different(picks) && c[k - 1] <= CountMints(mints, k - 1, |mints|)
    ensures SelectedDown(mints, c, selected', value', picks', k - 1)
  {
    forall i | 0 <= i < |picks'| ensures mints[picks'[i]].denom >= k - 1 {
      assert i < |picks| ==> picks'[i] == picks[i];
    }
    if Different(picks') {
      forall d | k - 1 <= d < N ensures c[d] <= CountMints(mints, d, |mints|) {
      }
    }
  }

  /** The places of the mints for the coins of `c` of denominations from `k` up, the highest first. */
  function SpendPlaces(mints: seq<Mint>, c: Coins, k: nat): (q: seq<nat>)
    requires k <= N
    ensures forall i | 0 <= i < |q| :: q[i] < |mints|
    decreases N - k
  {
    if k == N then [] else SpendPlaces(mints, c, k + 1) + FirstPlaces(mints, k, c[k], |mints|)
  }

  /** How many of the mints at `q` are of denomination `d`. */
  function CountAt(mints: seq<Mint>, q: seq<nat>, d: Denom): nat
    requires forall i | 0 <= i < |q| :: q[i] < |mints|
  {
    if q == [] then 0 else CountAt(mints, q[..|q| - 1], d) + if mints[q[|q| - 1]].denom == d then 1 else 0
  }

  /** From higher denominations to lower ones, and each in the order of the list. */
  ghost predicate InOrder(mints: seq<Mint>, q: seq<nat>)
    requires forall i | 0 <= i < |q| :: q[i] < |mints|
  {
    forall i, j | 0 <= i < j < |q| :: mints[q[i]].denom > mints[q[j]].denom || (mints[q[i]].denom == mints[q[j]].denom && q[i] < q[j])
  }

  /** No unused mint before one that is picked is left out, if they are of one denomination. */
  ghost predicate NoneLeftOut(mints: seq<Mint>, q: seq<nat>)
    requires forall i | 0 <= i < |q| :: q[i] < |mints|
  {
    forall i, x | 0 <= i < |q| && 0 <= x < q[i] :: Fitting(mints[x], mints[q[i]].denom) ==> x in q
  }

  /** The mints that are to be spent for `c`: as many of each denomination, always the first ones, in order. */
  ghost predicate FirstOnes(mints: seq<Mint>, c: Coins, q: seq<nat>) {
    && (forall i | 0 <= i < |q| :: q[i] < |mints| && !mints[q[i]].isUsed)
    && InOrder(mints, q) && NoneLeftOut(mints, q) && forall d: Denom :: CountAt(mints, q, d) == c[d]
  }

  /** The same for denominations from `k` up. */
  ghost predicate FirstOnesFrom(mints: seq<Mint>, c: Coins, q: seq<nat>, k: nat) {
    && (forall i | 0 <= i < |q| :: q[i] < |mints| && !mints[q[i]].isUsed && mints[q[i]].denom >= k)
    && InOrder(mints, q) && NoneLeftOut(mints, q) && forall d: Denom :: CountAt(mints, q, d) == if d >= k then c[d] else 0
  }

  lemma {:induction false} CountAtSum(mints: seq<Mint>, p: seq<nat>, q: seq<nat>, d: Denom)
    requires forall i | 0 <= i < |p| :: p[i] < |mints|
    requires forall i | 0 <= i < |q| :: q[i] < |mints|
    ensures CountAt(mints, p + q, d) == CountAt(mints, p, d) + CountAt(mints, q, d)
    decreases |q|
  {
    if q == [] {
      assert p + q == p;
    } else {
      var front, last := q[..|q| - 1], q[|q| - 1];
      CountAtSum(mints, p, front, d);
      assert (p + q)[..|p + q| - 1] == p + front && (p + q)[|p + q| - 1] == last;
    }
  }

  lemma {:induction false} CountAtSame(mints: seq<Mint>, q: seq<nat>, d: Denom, e: Denom)
    requires forall i | 0 <= i < |q| :: q[i] < |mints| && mints[q[i]].denom == e
    ensures CountAt(mints, q, d) == if d == e then |q| else 0
  {
    if q != [] {
      CountAtSame(mints, q[..|q| - 1], d, e);
    }
  }

  lemma {:induction false} SpendPlacesAre(mints: seq<Mint>, c: Coins, k: nat)
    requires k <= N && Within(c, Available(mints))
    ensures FirstOnesFrom(mints, c, SpendPlaces(mints, c, k), k)
    decreases N - k
  {
    if k < N {
      SpendPlacesAre(mints, c, k + 1);
      FirstPlacesAre(mints, k, c[k], |mints|);
      PlacesJoin(mints, c, SpendPlaces(mints, c, k + 1), FirstPlaces(mints, k, c[k], |mints|), k);
    }
  }

  /** The mints of one more denomination behind those of the higher ones. */
  lemma {:induction false} PlacesJoin(mints: seq<Mint>, c: Coins, p: seq<nat>, q: seq<nat>, k: nat)
    requires k < N && FirstOnesFrom(mints, c, p, k + 1) && |q| == c[k]
    requires forall i | 0 <= i < |q| :: q[i] < |mints| && Fitting(mints[q[i]], k)
    requires forall i, j | 0 <= i < j < |q| :: q[i] < q[j]
    requires forall x | 0 <= x < |mints| && Fitting(mints[x], k) :: x in q || forall i | 0 <= i < |q| :: q[i] < x
    ensures FirstOnesFrom(mints, c, p + q, k)
  {
    forall d: Denom ensures CountAt(mints, p + q, d) == if d >= k then c[d] else 0 {
      CountAtSum(mints, p, q, d);
      CountAtSame(mints, q, d, k);
    }
  }

  /**
  The mints to spend for the coins asked for, of each of which there is one at hand: as many
  unused mints, worth the same.  They are different exactly if as many are at hand as are asked
  for, and are then the first ones of each denomination.
  */
  method GetSpends(listMints: seq<Mint>, mapOfDenomsUsed: Coins)
      returns (vSelectedMints: seq<Mint>, nCoinsSpentValue: nat, ghost picks: seq<nat>)
    requires SomeOfEach(listMints, mapOfDenomsUsed)
    ensures Places(listMints, vSelectedMints, picks)
    ensures |vSelectedMints| == Count(mapOfDenomsUsed)
    ensures nCoinsSpentValue == AmountOf(vSelectedMints, |vSelectedMints|) == Value(mapOfDenomsUsed)
    ensures Different(picks) <==> Within(mapOfDenomsUsed, Available(listMints))
    ensures Different(picks) ==> FirstOnes(listMints, mapOfDenomsUsed, picks)
  {
    vSelectedMints, picks, nCoinsSpentValue := [], [], 0;
    SelectedStart(listMints, mapOfDenomsUsed, N);
    for d := N downto 0
      invariant SelectedDown(listMints, mapOfDenomsUsed, vSelectedMints, nCoinsSpentValue, picks, d)
      invariant Within(mapOfDenomsUsed, Available(listMints)) ==> picks == SpendPlaces(listMints, mapOfDenomsUsed, d)
    {
      ghost var selected, value, picks0 := vSelectedMints, nCoinsSpentValue, picks;
      vSelectedMints, picks := SpendCoins(listMints, d, mapOfDenomsUsed[d], vSelectedMints, picks);
      nCoinsSpentValue := nCoinsSpentValue + Worth(mapOfDenomsUsed[d], d);
      SelectedNext(listMints, mapOfDenomsUsed, selected, value, picks0, vSelectedMints, nCoinsSpentValue, picks, d + 1);
    }
    SelectedDone(listMints, mapOfDenomsUsed, vSelectedMints, nCoinsSpentValue, picks, 0);
    if Within(mapOfDenomsUsed, Available(listMints)) {
      SpendPlacesAre(listMints, mapOfDenomsUsed, 0);
    }
  }

  //////////////////////////////////////////////////////////////////////////////
  //
  // minimizeChange
  //
  //////////////////////////////////////////////////////////////////////////////

  method NumberOfCoinsUsed(mapChange: Coins) returns (nChangeCount: nat)
    ensures nChangeCount == Count(mapChange)
  {
    nChangeCount := 0;
    for d := 0 to N
      invariant nChangeCount == CountTo(mapChange, d)
    {
      nChangeCount := nChangeCount + mapChange[d];
    }
  }

  /** First stage: coins from denomination `top` down that stay below the target. */
  method StayBelow(nValueTarget: int, held: Coins, top: int) returns (used: Coins, nRemainingValue: int)
    ensures used == Choose(Below, nValueTarget, UpTo(held, top), |held|) && nRemainingValue == nValueTarget - Value(used)
  {
    ghost var upTo := UpTo(held, top);
    nRemainingValue := nValueTarget;
    used := NoCoins();
    ChosenStart(Below, nValueTarget, upTo);
    for d := N downto 0
      invariant ChosenDown(Below, nValueTarget, upTo, used, nRemainingValue, d)
    {
      ghost var before := used;
      var n, remaining := 0, nRemainingValue;
      if d <= top {
        n, remaining := TakeLoop(Below, nRemainingValue, held[d], d);
      }
      used := used[d := n];
      ChosenNext(Below, nValueTarget, upTo, before, nRemainingValue, used, remaining, d + 1);
      nRemainingValue := remaining;
    }
    ChosenDone(Below, nValueTarget, upTo, used, nRemainingValue);
  }

  /** Second stage: one more coin, just bigger than what remains. */
  method FillUp(nRemainingValue: int, used: Coins, held: Coins) returns (used': Coins)
    requires Within(used, held)
    ensures used' == TopUp(nRemainingValue, used, held)
  {
    used' := used;
    ghost var left := Minus(held, used);
    var remaining := nRemainingValue;
    for d := 0 to N
      invariant used' == used && remaining == nRemainingValue
      invariant First(nRemainingValue, left, d) == ZQ_ERROR
      invariant nRemainingValue < 0 ==> d == 0
    {
      if Amount(d) > remaining && used'[d] < held[d] {
        used' := used'[d := used'[d] + 1];
        remaining := remaining - Amount(d);
        FirstFound(nRemainingValue, left, d, if nRemainingValue < 0 then 1 else |held|);
      }
      if remaining < 0 {
        return;
      }
    }
  }

  lemma {:induction false} FirstFound(x: int, c: Coins, d: nat, k: nat)
    requires d < k <= N && First(x, c, d) == ZQ_ERROR && x < Amount(d) && c[d] > 0
    ensures First(x, c, k) == d
  {
    if d + 1 < k {
      FirstFound(x, c, d, k - 1);
    }
  }

  /** Third stage: drop coins that would come back as change. */
  method DropOverlap(used: Coins, change: Coins) returns (kept: Coins)
    ensures kept == Minus(used, Overlap(used, change))
  {
    kept := used;
    var mapAltChange := change;
    for d := 0 to N
      invariant forall i | 0 <= i < N :: kept[i] == if i < d then used[i] - Overlap(used, change)[i] else used[i]
      invariant forall i | d <= i < N :: mapAltChange[i] == change[i]
    {
      while mapAltChange[d] > 0 && kept[d] > 0
        invariant used[d] + mapAltChange[d] == change[d] + kept[d] && kept[d] <= used[d]
        invariant forall i | 0 <= i < N && i != d :: kept[i] == if i < d then used[i] - Overlap(used, change)[i] else used[i]
        invariant forall i | d < i < N :: mapAltChange[i] == change[i]
        decreases kept[d]
      {
        kept := kept[d := kept[d] - 1];
        mapAltChange := mapAltChange[d := mapAltChange[d] - 1];
      }
    }
  }

  /** Coins below the target, and one more. */
  method FilledCoins(nextToMaxDenom: int, nValueTarget: int, mapOfDenomsHeld: Coins) returns (mapOfDenomsUsed: Coins)
    ensures mapOfDenomsUsed == Filled(nextToMaxDenom, nValueTarget, mapOfDenomsHeld)
  {
    var remaining;
    mapOfDenomsUsed, remaining := StayBelow(nValueTarget, mapOfDenomsHeld, nextToMaxDenom);
    mapOfDenomsUsed := FillUp(remaining, mapOfDenomsUsed, mapOfDenomsHeld);
  }

  /** Those of them that would not come back. */
  method KeptCoins(nextToMaxDenom: int, nValueTarget: int, mapOfDenomsHeld: Coins) returns (mapOfDenomsUsed: Coins)
    ensures mapOfDenomsUsed == Kept(nextToMaxDenom, nValueTarget, mapOfDenomsHeld)
  {
    mapOfDenomsUsed := FilledCoins(nextToMaxDenom, nValueTarget, mapOfDenomsHeld);
    var mapAltChange := GetChange(Value(mapOfDenomsUsed) - nValueTarget);
    mapOfDenomsUsed := DropOverlap(mapOfDenomsUsed, mapAltChange);
  }

  /** The fewest coins with the value of those. */
  method AlternativeCoins(nextToMaxDenom: int, nValueTarget: int, mapOfDenomsHeld: Coins)
      returns (mapOfDenomsUsed: Coins, AmountUsed: nat)
    ensures mapOfDenomsUsed == Alternative(nextToMaxDenom, nValueTarget, mapOfDenomsHeld)
    ensures AmountUsed == Value(mapOfDenomsUsed)
  {
    mapOfDenomsUsed := KeptCoins(nextToMaxDenom, nValueTarget, mapOfDenomsHeld);
    AmountUsed := Value(mapOfDenomsUsed);
    AlternativeIsExact(nextToMaxDenom, nValueTarget, mapOfDenomsHeld);
    mapOfDenomsUsed := GetSpendCoins(AmountUsed, mapOfDenomsHeld);
  }

  method MinimizeChange(nMaxNumberOfSpends: int, nChangeCount: int, nextToMaxDenom: int, nValueTarget: int,
                        mapOfDenomsHeld: Coins, savedMapOfDenomsUsed: Coins)
      returns (nCount: int, mapOfDenomsUsed: Coins)
    ensures (nCount, mapOfDenomsUsed) ==
            Minimize(nMaxNumberOfSpends, nChangeCount, nextToMaxDenom, nValueTarget, mapOfDenomsHeld, savedMapOfDenomsUsed)
  {
    var AmountUsed;
    mapOfDenomsUsed, AmountUsed := AlternativeCoins(nextToMaxDenom, nValueTarget, mapOfDenomsHeld);
    var nCoinCount := NumberOfCoinsUsed(mapOfDenomsUsed);
    var mapAltChange := GetChange(AmountUsed - nValueTarget);
    var AltChangeCount := NumberOfCoinsUsed(mapAltChange);
    if AltChangeCount < nChangeCount && nCoinCount <= nMaxNumberOfSpends {
      return AltChangeCount, mapOfDenomsUsed;
    }
    return nChangeCount, savedMapOfDenomsUsed;
  }

  //////////////////////////////////////////////////////////////////////////////
  //
  // calculateChange
  //
  //////////////////////////////////////////////////////////////////////////////

  /** The smallest denomination held that is worth more than the target. */
  method MinDenomOver(nValueTarget: int, held: Coins) returns (over: int)
    ensures over == First(nValueTarget, held, |held|)
  {
    for d := 0 to N
      invariant First(nValueTarget, held, d) == ZQ_ERROR
    {
      if nValueTarget < Amount(d) && held[d] != 0 {
        FirstFound(nValueTarget, held, d, |held|);
        return d;
      }
    }
    return ZQ_ERROR;
  }

  lemma {:induction false} MaxHeldFrom(c: Coins, d: nat, k: nat)
    requires d <= k <= N && forall i | d <= i < k :: c[i] == 0
    ensures MaxHeld(c, k) == MaxHeld(c, d)
  {
    if d < k {
      MaxHeldFrom(c, d, k - 1);
    }
  }

  /** The greatest denomination held below `k`. */
  method MaxDenomHeld(held: Coins, k: nat) returns (top: int)
    requires k <= N
    ensures top == MaxHeld(held, k)
  {
    for d := N downto 0
      invariant forall i | d <= i < k :: held[i] == 0
    {
      if d < k && held[d] != 0 {
        MaxHeldFrom(held, d + 1, k);
        return d;
      }
    }
    MaxHeldFrom(held, 0, k);
    return ZQ_ERROR;
  }

  /** Coins from the highest denomination down until the target is covered. */
  method CoverTarget(nValueTarget: int, held: Coins) returns (used: Coins, AmountUsed: nat)
    ensures used == Choose(Cover, nValueTarget, held, |held|) && AmountUsed == Value(used)
  {
    var nRemainingValue := nValueTarget;
    used := NoCoins();
    ChosenStart(Cover, nValueTarget, held);
    for d := N downto 0
      invariant ChosenDown(Cover, nValueTarget, held, used, nRemainingValue, d)
    {
      var n, remaining := TakeLoop(Cover, nRemainingValue, held[d], d);
      ghost var before := used;
      used := used[d := n];
      ChosenNext(Cover, nValueTarget, held, before, nRemainingValue, used, remaining, d + 1);
      nRemainingValue := remaining;
    }
    ChosenDone(Cover, nValueTarget, held, used, nRemainingValue);
    AmountUsed := nValueTarget - nRemainingValue;
  }

  /**
  The number of coins in the change for the target, and the coins that pay for it: coins held,
  covering the target whenever those held do, and the count is that of the change they need.
  */
  method CalculateChange(nMaxNumberOfSpends: int, fMinimizeChange: bool, nValueTarget: int, mapOfDenomsHeld: Coins)
      returns (nChangeCount: int, mapOfDenomsUsed: Coins)
    ensures (nChangeCount, mapOfDenomsUsed) == Calculate(nMaxNumberOfSpends, fMinimizeChange, nValueTarget, mapOfDenomsHeld)
    ensures Pays(nChangeCount, mapOfDenomsUsed, nValueTarget, mapOfDenomsHeld)
    ensures Value(mapOfDenomsUsed) >= nValueTarget <==> Value(mapOfDenomsHeld) >= nValueTarget
    ensures nChangeCount != 0 <==> Value(mapOfDenomsUsed) >= nValueTarget + Amount(0)
    ensures Chosen(nChangeCount, mapOfDenomsUsed, nMaxNumberOfSpends, fMinimizeChange, nValueTarget, mapOfDenomsHeld)
  {
    CalculateChooses(nMaxNumberOfSpends, fMinimizeChange, nValueTarget, mapOfDenomsHeld);
    CountMeansCovered(nMaxNumberOfSpends, fMinimizeChange, nValueTarget, mapOfDenomsHeld);
    CalculateSound(nMaxNumberOfSpends, fMinimizeChange, nValueTarget, mapOfDenomsHeld);
    CalculateCovers(nMaxNumberOfSpends, fMinimizeChange, nValueTarget, mapOfDenomsHeld);
    var minDenomOverTarget := MinDenomOver(nValueTarget, mapOfDenomsHeld);
    if minDenomOverTarget != ZQ_ERROR {
      nChangeCount, mapOfDenomsUsed :=
        ChangeForOneCoin(nMaxNumberOfSpends, fMinimizeChange, nValueTarget, mapOfDenomsHeld, minDenomOverTarget);
    } else {
      nChangeCount, mapOfDenomsUsed :=
        ChangeForCoins(nMaxNumberOfSpends, fMinimizeChange, nValueTarget, mapOfDenomsHeld);
    }
  }

  method ChangeForOneCoin(nMaxNumberOfSpends: int, fMinimizeChange: bool, nValueTarget: int, mapOfDenomsHeld: Coins, over: Denom)
      returns (nChangeCount: int, mapOfDenomsUsed: Coins)
    ensures (nChangeCount, mapOfDenomsUsed) == CalculateOver(nMaxNumberOfSpends, fMinimizeChange, nValueTarget, mapOfDenomsHeld, over)
  {
    mapOfDenomsUsed := OneCoin(over);
    OneCoinValue(over);
    var nChangeAmount := Amount(over) - nValueTarget;
    var mapChange := GetChange(nChangeAmount);
    nChangeCount := NumberOfCoinsUsed(mapChange);
    if fMinimizeChange {
      var nextToMaxDenom := MaxDenomHeld(mapOfDenomsHeld, over);
      var newChangeCount;
      newChangeCount, mapOfDenomsUsed :=
        MinimizeChange(nMaxNumberOfSpends, nChangeCount, nextToMaxDenom, nValueTarget, mapOfDenomsHeld, mapOfDenomsUsed);
      if newChangeCount < nChangeCount {
        return newChangeCount, mapOfDenomsUsed;
      }
      mapOfDenomsUsed := OneCoin(over);
    }
  }

  method ChangeForCoins(nMaxNumberOfSpends: int, fMinimizeChange: bool, nValueTarget: int, mapOfDenomsHeld: Coins)
      returns (nChangeCount: int, mapOfDenomsUsed: Coins)
    ensures (nChangeCount, mapOfDenomsUsed) == CalculateSimple(nMaxNumberOfSpends, fMinimizeChange, nValueTarget, mapOfDenomsHeld)
  {
    var AmountUsed;
    mapOfDenomsUsed, AmountUsed := CoverTarget(nValueTarget, mapOfDenomsHeld);
    var nCoinCount := NumberOfCoinsUsed(mapOfDenomsUsed);
    var mapChange := GetChange(AmountUsed - nValueTarget);
    var nMaxChangeCount := NumberOfCoinsUsed(mapChange);
    var maxDenomHeld := MaxDenomHeld(mapOfDenomsHeld, |mapOfDenomsHeld|);
    var mapOfMinDenomsUsed;
    nChangeCount, mapOfMinDenomsUsed :=
      MinimizeChange(nMaxNumberOfSpends, nMaxChangeCount, maxDenomHeld, nValueTarget, mapOfDenomsHeld, mapOfDenomsUsed);
    var nNumSpends := NumberOfCoinsUsed(mapOfMinDenomsUsed);
    if !fMinimizeChange && nCoinCount < nNumSpends {
      return nMaxChangeCount, mapOfDenomsUsed;
    }
    mapOfDenomsUsed := mapOfMinDenomsUsed;
  }

  //////////////////////////////////////////////////////////////////////////////
  //
  // SelectMintsFromList
  //
  //////////////////////////////////////////////////////////////////////////////

  /** The limit is compared as a size, so a negative one is none. */
  predicate FewEnough(n: nat, nMax: int) {
    nMax < 0 || n <= nMax
  }

  /** No unused mints that meet the target exactly are fewer than `n`. */
  ghost predicate FewestOf(mints: seq<Mint>, target: int, n: nat) {
    forall pick | MeetsExactly(mints, pick, target) :: n <= |pick|
  }

  /** Are there unused mints, few enough of them, that meet the target? */
  ghost predicate CanMeetWithin(mints: seq<Mint>, target: int, nMax: int) {
    exists pick :: MeetsExactly(mints, pick, target) && FewEnough(|pick|, nMax)
  }

  /** If there are, the fewest are few enough. */
  lemma {:induction false} FewestFewEnough(mints: seq<Mint>, target: int, n: nat, nMax: int)
    requires FewestOf(mints, target, n) && CanMeetWithin(mints, target, nMax)
    ensures FewEnough(n, nMax)
  {
  }

  /** The mints at `picks` are the first ones for the fewest coins that meet the target. */
  ghost predicate SelectedExactly(listMints: seq<Mint>, picks: seq<nat>, target: int) {
    exists used: Coins :: FewestWorth(used, target, Available(listMints)) && FirstOnes(listMints, used, picks)
  }

  lemma {:induction false} SpendIsFewest(target: int, held: Coins)
    requires Value(Spend(target, held)) == target
    ensures FewestWorth(Spend(target, held), target, held)
  {
    forall c: Coins | Within(c, held) && Value(c) == target ensures Count(Spend(target, held)) <= Count(c) {
      SpendComplete(target, held, c);
    }
  }

  /** Are there coins held, and no more of them than allowed, that cover the target? */
  ghost predicate CanKeepLimit(target: int, held: Coins, nMax: int) {
    exists c :: CoversWithin(c, target, held, nMax)
  }

  /** The exact choice, if there is one. */
  method SelectExactly(nValueTarget: int, nSelected: int, listMints: seq<Mint>)
      returns (ok: bool, vSelectedMints: seq<Mint>, nSelectedValue: int, ghost picks: seq<nat>)
    ensures ok <==> exists pick :: MeetsExactly(listMints, pick, nValueTarget)
    ensures Places(listMints, vSelectedMints, picks) && Different(picks)
    ensures if ok then nSelectedValue == nValueTarget == AmountOf(vSelectedMints, |vSelectedMints|) else nSelectedValue == nSelected
    ensures ok ==> FewestOf(listMints, nValueTarget, |vSelectedMints|) && SelectedExactly(listMints, picks, nValueTarget)
  {
    vSelectedMints, nSelectedValue, picks := [], nSelected, [];
    var mapOfDenomsUsed;
    ok, mapOfDenomsUsed := GetIdealSpends(nValueTarget, listMints);
    if ok {
      nSelectedValue := nValueTarget;
      vSelectedMints, nSelectedValue, picks := GetSpends(listMints, mapOfDenomsUsed);
      SpendIsFewest(nValueTarget, Available(listMints));
      assert FirstOnes(listMints, mapOfDenomsUsed, picks);
    }
  }

  /**
  What is selected when change is needed: mints worth `value`, `n` coins of change for what they
  exceed the target by, and at least one such coin.  The limit is kept exactly if any coins held
  that cover a positive target keep it.  If there are mints for all coins held, those selected
  are different, and the first ones for the coins that calculateChange returns.
  */
  ghost predicate ChangeSelected(listMints: seq<Mint>, selected: seq<Mint>, value: int, n: int, picks: seq<nat>,
                                 nMax: int, fMinimize: bool, target: int, held: Coins)
  {
    && value == AmountOf(selected, |selected|) >= target + Amount(0) && n == Count(Change(value - target))
    && (target > 0 ==> (|selected| <= nMax <==> CanKeepLimit(target, held, nMax)))
    && (Within(held, Available(listMints)) ==>
          Different(picks) && SelectedForChange(listMints, picks, n, nMax, fMinimize, target, held))
  }

  /** The mints at `picks` are the first ones for the coins that calculateChange returns. */
  ghost predicate SelectedForChange(listMints: seq<Mint>, picks: seq<nat>, n: int, nMax: int, fMinimize: bool, target: int, held: Coins) {
    exists used: Coins :: Chosen(n, used, nMax, fMinimize, target, held) && FirstOnes(listMints, used, picks)
  }

  /**
  The mints to spend for the target, unused ones.  If unused mints few enough meet it exactly,
  those selected do, and none that do are fewer; they are the first ones for those coins.  Else
  `nCoinsReturned` coins of change are needed, and if that is none there is nothing selected.
  `nSelected` is what the caller had stored in nSelectedValue.
  */
  method SelectMintsFromList(nValueTarget: int, nSelected: int, nMaxNumberOfSpends: int, fMinimizeChange: bool,
                             listMints: seq<Mint>, mapOfDenomsHeld: Coins)
      returns (vSelectedMints: seq<Mint>, nSelectedValue: int, nCoinsReturned: int, nNeededSpends: nat, ghost picks: seq<nat>)
    requires SomeOfEach(listMints, mapOfDenomsHeld)
    ensures Places(listMints, vSelectedMints, picks)
    ensures nCoinsReturned != 0 ==>
              ChangeSelected(listMints, vSelectedMints, nSelectedValue, nCoinsReturned, picks,
                             nMaxNumberOfSpends, fMinimizeChange, nValueTarget, mapOfDenomsHeld)
    ensures nCoinsReturned == 0 ==> Different(picks)
    ensures nCoinsReturned == 0 && vSelectedMints != [] ==>
              && nSelectedValue == nValueTarget == AmountOf(vSelectedMints, |vSelectedMints|)
              && FewEnough(|vSelectedMints|, nMaxNumberOfSpends) && SelectedExactly(listMints, picks, nValueTarget)
    ensures CanMeetWithin(listMints, nValueTarget, nMaxNumberOfSpends) ==>
              && nSelectedValue == nValueTarget && nCoinsReturned == 0 && nNeededSpends == 0
              && FewestOf(listMints, nValueTarget, |vSelectedMints|)
    ensures nNeededSpends == 0 || !FewEnough(nNeededSpends, nMaxNumberOfSpends)
    ensures nNeededSpends > 0 ==>
              (exists pick :: MeetsExactly(listMints, pick, nValueTarget)) && FewestOf(listMints, nValueTarget, nNeededSpends)
  {
    nNeededSpends, nSelectedValue := 0, nSelected;
    var fCanMeetExactly;
    fCanMeetExactly, vSelectedMints, nSelectedValue, picks := SelectExactly(nValueTarget, nSelectedValue, listMints);
    if CanMeetWithin(listMints, nValueTarget, nMaxNumberOfSpends) {
      FewestFewEnough(listMints, nValueTarget, |vSelectedMints|, nMaxNumberOfSpends);
    }
    if fCanMeetExactly {
      nCoinsReturned := 0;
      if FewEnough(|vSelectedMints|, nMaxNumberOfSpends) {
        return;
      } else {
        nNeededSpends := |vSelectedMints|;
      }
    }
    vSelectedMints, nSelectedValue, nCoinsReturned, picks :=
      SelectWithChange(nValueTarget, nSelectedValue, nMaxNumberOfSpends, fMinimizeChange, listMints, mapOfDenomsHeld);
  }

  /** From the coins chosen to the mints selected for them. */
  lemma {:induction false} ChangeIsSelected(listMints: seq<Mint>, used: Coins, selected: seq<Mint>, n: int, picks: seq<nat>,
                                            nMax: int, fMinimize: bool, target: int, held: Coins)
    requires (n, used) == Calculate(nMax, fMinimize, target, held) && n != 0
    requires Within(held, Available(listMints)) ==> Different(picks) && FirstOnes(listMints, used, picks)
    requires |selected| == Count(used) && AmountOf(selected, |selected|) == Value(used)
    ensures ChangeSelected(listMints, selected, Value(used), n, picks, nMax, fMinimize, target, held)
  {
    CalculateSound(nMax, fMinimize, target, held);
    CountMeansCovered(nMax, fMinimize, target, held);
    CalculateChooses(nMax, fMinimize, target, held);
    if target > 0 {
      WithinValue(used, held);
      LimitKept(nMax, fMinimize, target, held);
    }
  }

  /** The choice when change is needed, or none if there would be none. */
  method SelectWithChange(nValueTarget: int, nSelected: int, nMaxNumberOfSpends: int, fMinimizeChange: bool,
                          listMints: seq<Mint>, mapOfDenomsHeld: Coins)
      returns (vSelectedMints: seq<Mint>, nSelectedValue: int, nCoinsReturned: int, ghost picks: seq<nat>)
    requires SomeOfEach(listMints, mapOfDenomsHeld)
    ensures Places(listMints, vSelectedMints, picks)
    ensures if nCoinsReturned == 0 then vSelectedMints == [] && nSelectedValue == nSelected else
              ChangeSelected(listMints, vSelectedMints, nSelectedValue, nCoinsReturned, picks,
                             nMaxNumberOfSpends, fMinimizeChange, nValueTarget, mapOfDenomsHeld)
  {
    var mapOfDenomsUsed;
    nSelectedValue := nSelected;
    nCoinsReturned, mapOfDenomsUsed := CalculateChange(nMaxNumberOfSpends, fMinimizeChange, nValueTarget, mapOfDenomsHeld);
    if nCoinsReturned == 0 {
      vSelectedMints, picks := [], [];
    } else {
      vSelectedMints, nSelectedValue, picks := GetSpends(listMints, mapOfDenomsUsed);
      ChangeIsSelected(listMints, mapOfDenomsUsed, vSelectedMints, nCoinsReturned, picks,
                       nMaxNumberOfSpends, fMinimizeChange, nValueTarget, mapOfDenomsHeld);
    }
  }
}
