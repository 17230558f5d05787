/**
Which coins a spend uses when it cannot be met exactly, and what change it needs: the result of
calculateChange and minimizeChange, and what is always true of it.
*/
module DenominationChange {
  import opened Denominations

  const ZQ_ERROR := -1

  function Plenty(x: int): Coins {
    seq(N, _ => if x < 0 then 0 else x)
  }

  /** Coins for `x` with no limit on their number. */
  function Change(x: int): Coins {
    Spend(x, Plenty(x))
  }

  /** The coins that come back when `used` pay for the target. */
  function Returned(used: Coins, target: int): Coins {
    Change(Value(used) - target)
  }

  function ChangeCount(used: Coins, target: int): nat {
    Count(Returned(used, target))
  }

  /** The coins of `held` up to denomination `top`. */
  function UpTo(held: Coins, top: int): Coins {
    seq(N, i requires 0 <= i < N => if i <= top then held[i] else 0)
  }

  /** The smallest of the `k` smallest denominations worth more than `x` of which there is a coin in `c`. */
  function First(x: int, c: Coins, k: nat): (e: int)
    requires k <= N
    ensures e == ZQ_ERROR || (0 <= e < k && x < Amount(e) && c[e] > 0)
    ensures e == ZQ_ERROR ==> forall i | 0 <= i < k :: x >= Amount(i) || c[i] == 0
  {
    if k == 0 then ZQ_ERROR
    else
      var e := First(x, c, k - 1);
      if e != ZQ_ERROR then e else if x < Amount(k - 1) && c[k - 1] > 0 then k - 1 else ZQ_ERROR
  }

  /** The greatest of the `k` smallest denominations of which there is a coin in `c`. */
  function MaxHeld(c: Coins, k: nat): (e: int)
    requires k <= N
    ensures e == ZQ_ERROR || (0 <= e < k && c[e] > 0)
    ensures forall i | 0 <= i < k && i > e :: c[i] == 0
  {
    if k == 0 then ZQ_ERROR else if c[k - 1] > 0 then k - 1 else MaxHeld(c, k - 1)
  }

  /**
  One more coin on top of `used`: the smallest worth more than what remains.  If nothing remains
  to be paid, only the smallest denomination is looked at.
  */
  function TopUp(remaining: int, used: Coins, held: Coins): Coins
    requires Within(used, held)
  {
    var e := First(remaining, Minus(held, used), if remaining < 0 then 1 else |held|);
    if e == ZQ_ERROR then used else used[e := used[e] + 1]
  }

  /** The coins that are both used and given back. */
  function Overlap(used: Coins, change: Coins): (o: Coins)
    ensures Within(o, used) && Within(o, change)
    ensures forall i | 0 <= i < N :: o[i] == used[i] || o[i] == change[i]
  {
    seq(N, i requires 0 <= i < N => if used[i] <= change[i] then used[i] else change[i])
  }

  /** Coins below the target from denomination `top` down, and one more to exceed it. */
  function Filled(top: int, target: int, held: Coins): Coins {
    var under := Choose(Below, target, UpTo(held, top), |held|);
    TopUp(target - Value(under), under, held)
  }

  /** Those of the coins filled in that do not come back as change. */
  function Kept(top: int, target: int, held: Coins): Coins {
    var filled := Filled(top, target, held);
    Minus(filled, Overlap(filled, Returned(filled, target)))
  }

  /** The coins minimizeChange settles on before it compares. */
  function Alternative(top: int, target: int, held: Coins): Coins {
    Spend(Value(Kept(top, target, held)), held)
  }

  /** What minimizeChange returns: the number of coins in the change, and the coins used. */
  function Minimize(nMax: int, nChange: int, top: int, target: int, held: Coins, saved: Coins): (int, Coins) {
    var u := Alternative(top, target, held);
    var n := ChangeCount(u, target);
    if n < nChange && Count(u) <= nMax then (n, u) else (nChange, saved)
  }

  function OneCoin(d: nat): Coins
    requires d < N
  {
    seq(N, i => if i == d then 1 else 0)
  }

  /** With a single coin worth more than the target at hand. */
  function CalculateOver(nMax: int, fMinimize: bool, target: int, held: Coins, over: Denom): (int, Coins) {
    var nChange := ChangeCount(OneCoin(over), target);
    var (n, u) := Minimize(nMax, nChange, MaxHeld(held, over), target, held, OneCoin(over));
    if fMinimize && n < nChange then (n, u) else (nChange, OneCoin(over))
  }

  /** Without one. */
  function CalculateSimple(nMax: int, fMinimize: bool, target: int, held: Coins): (int, Coins) {
    var simple := Choose(Cover, target, held, |held|);
    var nSimple := ChangeCount(simple, target);
    var (n, u) := Minimize(nMax, nSimple, MaxHeld(held, |held|), target, held, simple);
    if !fMinimize && Count(simple) < Count(u) then (nSimple, simple) else (n, u)
  }

  /** What calculateChange returns: the number of coins in the change, and the coins used. */
  function Calculate(nMax: int, fMinimize: bool, target: int, held: Coins): (int, Coins) {
    var over := First(target, held, |held|);
    if over != ZQ_ERROR then CalculateOver(nMax, fMinimize, target, held, over)
    else CalculateSimple(nMax, fMinimize, target, held)
  }

  //////////////////////////////////////////////////////////////////////////////
  //
  // The coins used are held, and the count is that of the change
  //
  //////////////////////////////////////////////////////////////////////////////

  lemma {:induction false} FilledWithin(top: int, target: int, held: Coins)
    ensures Within(Filled(top, target, held), held)
  {
  }

  /**
  The alternative has exactly the value left after removing the overlap, although it was chosen
  anew from all coins held, and no coins of that value are fewer.
  */
  lemma {:induction false} AlternativeIsExact(top: int, target: int, held: Coins)
    ensures Value(Alternative(top, target, held)) == Value(Kept(top, target, held))
    ensures forall c: Coins | Within(c, held) && Value(c) == Value(Kept(top, target, held)) ::
              Count(Alternative(top, target, held)) <= Count(c)
  {
    var kept := Kept(top, target, held);
    FilledWithin(top, target, held);
    SpendComplete(Value(kept), held, kept);
    forall c: Coins | Within(c, held) && Value(c) == Value(kept) ensures Count(Alternative(top, target, held)) <= Count(c) {
      SpendComplete(Value(kept), held, c);
    }
  }

  /** Removing the overlap never uncovers a covered target. */
  lemma {:induction false} OverlapLeavesCovered(used: Coins, target: int)
    requires Value(used) >= target
    ensures Value(Minus(used, Overlap(used, Returned(used, target)))) >= target
  {
    var change := Returned(used, target);
    var o := Overlap(used, change);
    MinusValue(used, o);
    WithinValue(o, change);
    SpendAtMost(Value(used) - target, Plenty(Value(used) - target), |used|);
  }

  /** `n` coins of change are needed when `used`, coins of `held`, pay for the target. */
  ghost predicate Pays(n: int, used: Coins, target: int, held: Coins) {
    Within(used, held) && n == ChangeCount(used, target)
  }

  lemma {:induction false} MinimizeSound(nMax: int, nChange: int, top: int, target: int, held: Coins, saved: Coins)
    requires Pays(nChange, saved, target, held)
    ensures var (n, u) := Minimize(nMax, nChange, top, target, held, saved);
            Pays(n, u, target, held) && n <= nChange
  {
  }

  lemma {:induction false} CalculateOverSound(nMax: int, fMinimize: bool, target: int, held: Coins, over: Denom)
    requires held[over] > 0
    ensures var (n, used) := CalculateOver(nMax, fMinimize, target, held, over); Pays(n, used, target, held)
    ensures CalculateOver(nMax, true, target, held, over).0 <= CalculateOver(nMax, fMinimize, target, held, over).0
  {
    MinimizeSound(nMax, ChangeCount(OneCoin(over), target), MaxHeld(held, over), target, held, OneCoin(over));
  }

  lemma {:induction false} CalculateSimpleSound(nMax: int, fMinimize: bool, target: int, held: Coins)
    ensures var (n, used) := CalculateSimple(nMax, fMinimize, target, held); Pays(n, used, target, held)
    ensures CalculateSimple(nMax, true, target, held).0 <= CalculateSimple(nMax, fMinimize, target, held).0
  {
    var simple := Choose(Cover, target, held, |held|);
    MinimizeSound(nMax, ChangeCount(simple, target), MaxHeld(held, |held|), target, held, simple);
  }

  /**
  Whatever calculateChange returns, the coins are held and the count is that of the change they
  need; asked to minimize the change, it never needs more.
  */
  lemma {:induction false} CalculateSound(nMax: int, fMinimize: bool, target: int, held: Coins)
    ensures var (n, used) := Calculate(nMax, fMinimize, target, held); Pays(n, used, target, held)
    ensures Calculate(nMax, true, target, held).0 <= Calculate(nMax, fMinimize, target, held).0
  {
    var over := First(target, held, |held|);
    if over != ZQ_ERROR {
      CalculateOverSound(nMax, fMinimize, target, held, over);
    } else {
      CalculateSimpleSound(nMax, fMinimize, target, held);
    }
  }

  //////////////////////////////////////////////////////////////////////////////
  //
  // The target is covered whenever it can be
  //
  //////////////////////////////////////////////////////////////////////////////

  lemma {:induction false} OneCoinValue(d: nat)
    requires d < N
    ensures Value(OneCoin(d)) == Amount(d) && Count(OneCoin(d)) == 1
  {
    OneCoinPrefix(d, |OneCoin(d)|);
  }

  lemma {:induction false} OneCoinPrefix(d: nat, k: nat)
    requires d < N && k <= N
    ensures ValueTo(OneCoin(d), k) == if d < k then Amount(d) else 0
    ensures CountTo(OneCoin(d), k) == if d < k then 1 else 0
  {
    if k > 0 {
      OneCoinPrefix(d, k - 1);
      assert Worth(1, d) == Amount(d);
    }
  }

  lemma {:induction false} BelowStaysBelow(target: int, held: Coins, k: nat)
    requires target > 0 && k <= N
    ensures ValueTo(Choose(Below, target, held, k), k) < target
    decreases k
  {
    if k > 0 {
      ChooseStep(Below, target, held, k);
      TakeFits(Below, target, held[k - 1], k - 1);
      BelowStaysBelow(Rest(Below, target, held, k), held, k - 1);
    }
  }

  /** Topping up adds a coin worth more than what remains, unless there is none. */
  lemma {:induction false} TopUpAdds(remaining: nat, used: Coins, held: Coins)
    requires Within(used, held)
    ensures var u := TopUp(remaining, used, held);
            if u == used then forall i | 0 <= i < N && used[i] < held[i] :: Amount(i) <= remaining
            else Value(u) > Value(used) + remaining
  {
    var left := Minus(held, used);
    var e := First(remaining, left, |held|);
    if e != ZQ_ERROR {
      SumTo(used[e := used[e] + 1], used, OneCoin(e), |used|);
      OneCoinValue(e);
    }
  }

  /** No coin of the `k` smallest denominations that `c` leaves is worth more than what it leaves open. */
  ghost predicate Stuck(target: int, c: Coins, held: Coins, k: nat)
    requires k <= N
  {
    forall i | 0 <= i < k && c[i] < held[i] :: Amount(i) <= target - ValueTo(c, k)
  }

  ghost predicate TakesAll(rule: Rule, target: int, held: Coins, k: nat)
    requires k <= N
  {
    forall i | 0 <= i < k :: Choose(rule, target, held, k)[i] == held[i]
  }

  /**
  If staying below the target leaves so much that no further coin held exceeds it, then either
  the coins run out, or taking coins until the target is covered meets it exactly.
  */
  lemma {:induction false} StuckMeansExact(target: nat, held: Coins, k: nat)
    requires target > 0 && k <= N && Stuck(target, Choose(Below, target, held, k), held, k)
    ensures TakesAll(Below, target, held, k) || ValueTo(Choose(Cover, target, held, k), k) == target
    decreases k
  {
    if k > 0 {
      ChooseStep(Below, target, held, k);
      ChooseStep(Cover, target, held, k);
      if Choose(Below, target, held, k)[k - 1] < held[k - 1] {
        StuckHere(target, held, k);
      } else {
        TakenAll(target, held, k);
        StuckMeansExact(Rest(Below, target, held, k), held, k - 1);
      }
    }
  }

  /** One coin of the highest denomination is exactly what remains, so no lower coin was taken. */
  lemma {:induction false} StuckHere(target: nat, held: Coins, k: nat)
    requires target > 0 && 0 < k <= N && Stuck(target, Choose(Below, target, held, k), held, k)
    requires Choose(Below, target, held, k)[k - 1] < held[k - 1]
    ensures ValueTo(Choose(Cover, target, held, k), k) == target
  {
    var d := k - 1;
    var below, cover := Take(Below, target, held[d], d), Take(Cover, target, held[d], d);
    ChooseStep(Below, target, held, k);
    ChooseStep(Cover, target, held, k);
    TakeFits(Below, target, held[d], d);
    TakeFits(Cover, target, held[d], d);
    OneMoreIsExact(target, held[d], d, below, cover);
    ChooseNothing(Cover, Rest(Cover, target, held, k), held, d);
  }

  /** If one more coin than stay below the target does not exceed it, it meets it. */
  lemma {:induction false} OneMoreIsExact(target: nat, held: nat, d: nat, below: nat, cover: nat)
    requires target > 0 && d < N && Fits(Below, target, held, d, below) && Fits(Cover, target, held, d, cover)
    requires below < held && Worth(below, d) + Amount(d) <= target
    ensures Worth(cover, d) == target
  {
    WorthOrder(below + 1, cover, d);
    WorthOrder(cover, below + 1, d);
  }

  /** All coins of the highest denomination are taken, and the lower ones are stuck as well. */
  lemma {:induction false} TakenAll(target: nat, held: Coins, k: nat)
    requires target > 0 && 0 < k <= N && Stuck(target, Choose(Below, target, held, k), held, k)
    requires Choose(Below, target, held, k)[k - 1] == held[k - 1]
    ensures var rest := Rest(Below, target, held, k);
            && Rest(Cover, target, held, k) == rest > 0
            && Stuck(rest, Choose(Below, rest, held, k - 1), held, k - 1)
  {
    var d := k - 1;
    ChooseStep(Below, target, held, k);
    TakeFits(Below, target, held[d], d);
    TakeFits(Cover, target, held[d], d);
    WorthOrder(Take(Cover, target, held[d], d), held[d], d);
  }

  /** Filling up covers the target when a coin worth more is left over. */
  lemma {:induction false} FilledCovers(top: int, target: int, held: Coins, d: nat)
    requires d < N && target < Amount(d) && held[d] > 0 && top < d
    ensures Value(Filled(top, target, held)) >= target
  {
    var under := Choose(Below, target, UpTo(held, top), |held|);
    if target > 0 {
      BelowStaysBelow(target, UpTo(held, top), |held|);
      TopUpAdds(target - Value(under), under, held);
      assert under[d] == 0;
    } else if target == 0 {
      ChooseNothing(Below, target, UpTo(held, top), |held|);
      TopUpAdds(0, under, held);
    }
  }

  /** Without such a coin, filling up covers what can be covered, unless covering it simply needs no change. */
  lemma {:induction false} FilledCoversOrExact(target: int, held: Coins)
    requires Value(held) >= target
    ensures var top := MaxHeld(held, |held|);
            Value(Filled(top, target, held)) >= target || Value(Choose(Cover, target, held, |held|)) == target
  {
    var top := MaxHeld(held, |held|);
    assert UpTo(held, top) == held;
    var under := Choose(Below, target, held, |held|);
    if target > 0 {
      BelowStaysBelow(target, held, |held|);
      TopUpAdds(target - Value(under), under, held);
      if TopUp(target - Value(under), under, held) == under {
        StuckMeansExact(target, held, |held|);
        if TakesAll(Below, target, held, |held|) {
          SameTo(under, held, |held|);
        }
      }
    }
  }

  /** Taking coins until the target is covered covers whatever can be covered. */
  lemma {:induction false} CoverCovers(target: int, held: Coins, k: nat)
    requires k <= N && ValueTo(held, k) >= target
    ensures ValueTo(Choose(Cover, target, held, k), k) >= target
    decreases k
  {
    if k > 0 {
      ChooseStep(Cover, target, held, k);
      TakeFits(Cover, target, held[k - 1], k - 1);
      CoverCovers(Rest(Cover, target, held, k), held, k - 1);
    }
  }

  lemma {:induction false} AlternativeCovers(top: int, target: int, held: Coins)
    requires Value(Filled(top, target, held)) >= target
    ensures Value(Alternative(top, target, held)) >= target
  {
    AlternativeIsExact(top, target, held);
    OverlapLeavesCovered(Filled(top, target, held), target);
  }

  lemma {:induction false} CalculateOverCovers(nMax: int, fMinimize: bool, target: int, held: Coins, over: Denom)
    requires held[over] > 0 && target < Amount(over)
    ensures Value(CalculateOver(nMax, fMinimize, target, held, over).1) >= target
  {
    OneCoinValue(over);
    FilledCovers(MaxHeld(held, over), target, held, over);
    AlternativeCovers(MaxHeld(held, over), target, held);
  }

  lemma {:induction false} CalculateSimpleCovers(nMax: int, fMinimize: bool, target: int, held: Coins)
    requires Value(held) >= target
    ensures Value(CalculateSimple(nMax, fMinimize, target, held).1) >= target
  {
    CoverCovers(target, held, |held|);
    var simple, top := Choose(Cover, target, held, |held|), MaxHeld(held, |held|);
    if Value(simple) == target {
      NoChange(simple, target);
    } else {
      FilledCoversOrExact(target, held);
      AlternativeCovers(top, target, held);
    }
    MinimizeChooses(nMax, ChangeCount(simple, target), top, target, held, simple);
  }

  lemma {:induction false} NoChange(used: Coins, target: int)
    requires Value(used) == target
    ensures ChangeCount(used, target) == 0
  {
    ChooseNothing(AtMost, 0, Plenty(0), |used|);
  }

  lemma {:induction false} MinimizeChooses(nMax: int, nChange: int, top: int, target: int, held: Coins, saved: Coins)
    ensures var (n, u) := Minimize(nMax, nChange, top, target, held, saved);
            (n == nChange && u == saved) || (n < nChange && u == Alternative(top, target, held) && n >= 0)
  {
  }

  /**
  calculateChange uses coins that cover the target exactly when the coins held do, whichever way
  it takes and however many coins of change it reports.
  */
  lemma {:induction false} CalculateCovers(nMax: int, fMinimize: bool, target: int, held: Coins)
    ensures Value(Calculate(nMax, fMinimize, target, held).1) >= target <==> Value(held) >= target
  {
    CalculateSound(nMax, fMinimize, target, held);
    WithinValue(Calculate(nMax, fMinimize, target, held).1, held);
    var over := First(target, held, |held|);
    if over != ZQ_ERROR {
      CalculateOverCovers(nMax, fMinimize, target, held, over);
    } else if Value(held) >= target {
      CalculateSimpleCovers(nMax, fMinimize, target, held);
    }
  }

  //////////////////////////////////////////////////////////////////////////////
  //
  // Change
  //
  //////////////////////////////////////////////////////////////////////////////

  /** Change for `x` leaves less than the smallest coin open. */
  lemma {:induction false} ChangeLeaves(x: nat)
    ensures Value(Change(x)) <= x < Value(Change(x)) + Amount(0)
  {
    SpendAtMost(x, Plenty(x), |Plenty(x)|);
    PlentyLeaves(x, Plenty(x), |Plenty(x)|);
  }

  lemma {:induction false} PlentyLeaves(x: nat, held: Coins, k: nat)
    requires 0 < k <= N && forall i | 0 <= i < k :: held[i] >= x
    ensures x < ValueTo(Choose(AtMost, x, held, k), k) + Amount(0)
    decreases k
  {
    ChooseStep(AtMost, x, held, k);
    TakeFits(AtMost, x, held[k - 1], k - 1);
    if k > 1 {
      PlentyLeaves(Rest(AtMost, x, held, k), held, k - 1);
    }
  }

  /** No coins of any kind that are worth `x` are fewer than those of the change for it. */
  lemma {:induction false} ChangeFewest(x: nat, c: Coins)
    requires Value(c) == x
    ensures Value(Change(x)) == x && Count(Change(x)) <= Count(c)
  {
    forall i | 0 <= i < N ensures c[i] <= x {
      EachAtMostValue(c, i, |c|);
    }
    SpendComplete(x, Plenty(x), c);
  }

  lemma {:induction false} EachAtMostValue(c: Coins, i: nat, k: nat)
    requires i < k <= N
    ensures c[i] <= ValueTo(c, k)
  {
    if i < k - 1 {
      EachAtMostValue(c, i, k - 1);
    }
  }

  /**
  Keeping coins that would only come back takes exactly those coins out of the change: the rest
  of it stays as it was.
  */
  lemma {:induction false} OverlapShrinksChange(used: Coins, target: int)
    requires Value(used) >= target
    ensures var o := Overlap(used, Returned(used, target));
            ChangeCount(Minus(used, o), target) == ChangeCount(used, target) - Count(o)
  {
    var o := Overlap(used, Returned(used, target));
    var x: nat, y := Value(used) - target, Value(Minus(used, o)) - target;
    ReturnedIs(used, target, x);
    ReturnedIs(Minus(used, o), target, y);
    MinusValue(used, o);
    OverlapLeavesCovered(used, target);
    LessChangeCount(x, y, o);
  }

  lemma {:induction false} ReturnedIs(used: Coins, target: int, x: int)
    requires x == Value(used) - target
    ensures Returned(used, target) == Change(x) && ChangeCount(used, target) == Count(Change(x))
  {
  }

  /** Taking coins `o` out of the change for `x` gives the change for `x` less their value. */
  lemma {:induction false} LessChangeCount(x: nat, y: nat, o: Coins)
    requires Within(o, Change(x)) && x == y + Value(o)
    ensures forall i | 0 <= i < N :: Change(y)[i] == Change(x)[i] - o[i]
    ensures Count(Change(y)) == Count(Change(x)) - Count(o)
  {
    LessChange(x, y, Plenty(x), Plenty(y), o, |o|);
    SumTo(Change(x), o, Change(y), |o|);
  }

  lemma {:induction false} LessChange(x: nat, y: nat, held: Coins, held': Coins, o: Coins, k: nat)
    requires k <= N && WithinTo(o, Choose(AtMost, x, held, k), k) && x == y + ValueTo(o, k)
    requires forall i | 0 <= i < k :: held[i] >= x && held'[i] >= y
    ensures forall i | 0 <= i < k :: Choose(AtMost, y, held', k)[i] == Choose(AtMost, x, held, k)[i] - o[i]
    decreases k
  {
    if k > 0 {
      var restX, restY := LessChangeHere(x, y, held, held', o, k);
      LessChange(restX, restY, held, held', o, k - 1);
      ChooseStep(AtMost, x, held, k);
      ChooseStep(AtMost, y, held', k);
      LessChangeJoin(Choose(AtMost, x, held, k), Choose(AtMost, restX, held, k - 1),
                     Choose(AtMost, y, held', k), Choose(AtMost, restY, held', k - 1), o, k);
    }
  }

  lemma {:induction false} LessChangeJoin(c: Coins, lower: Coins, c': Coins, lower': Coins, o: Coins, k: nat)
    requires 0 < k <= N && forall i | 0 <= i < k - 1 :: c[i] == lower[i] && c'[i] == lower'[i] && lower'[i] + o[i] == lower[i]
    requires c'[k - 1] + o[k - 1] == c[k - 1]
    ensures forall i | 0 <= i < k :: c'[i] + o[i] == c[i]
  {
  }

  /** The highest denomination of LessChange. */
  lemma {:induction false} LessChangeHere(x: nat, y: nat, held: Coins, held': Coins, o: Coins, k: nat) returns (restX: nat, restY: nat)
    requires 0 < k <= N && WithinTo(o, Choose(AtMost, x, held, k), k) && x == y + ValueTo(o, k)
    requires held[k - 1] >= x && held'[k - 1] >= y
    ensures restX == Rest(AtMost, x, held, k) <= x && restY == Rest(AtMost, y, held', k) <= y
    ensures restX == restY + ValueTo(o, k - 1)
    ensures WithinTo(o, Choose(AtMost, restX, held, k - 1), k - 1)
    ensures Take(AtMost, y, held'[k - 1], k - 1) == Take(AtMost, x, held[k - 1], k - 1) - o[k - 1]
  {
    var d := k - 1;
    ChooseStep(AtMost, x, held, k);
    TakeFits(AtMost, x, held[d], d);
    TakeFits(AtMost, y, held'[d], d);
    restX := Rest(AtMost, x, held, k);
    WithinToValue(o, Choose(AtMost, restX, held, d), d);
    SpendAtMost(restX, held, d);
    var taken := Take(AtMost, x, held[d], d);
    TakesLess(x, y, held'[d], d, taken, o[d], ValueTo(o, d));
    restY := Rest(AtMost, y, held', k);
  }

  lemma {:induction false} WithinToValue(c: Coins, d: Coins, k: nat)
    requires k <= N && WithinTo(c, d, k)
    ensures ValueTo(c, k) <= ValueTo(d, k)
  {
    if k > 0 {
      WithinToValue(c, d, k - 1);
      WorthOrder(c[k - 1], d[k - 1], k - 1);
    }
  }

  lemma {:induction false} TakesLess(x: nat, y: nat, held: nat, d: nat, taken: nat, o: nat, lower: nat)
    requires d < N && o <= taken && Worth(taken, d) + lower <= x < Worth(taken, d) + Amount(d)
    requires y == x - lower - Worth(o, d) && held >= y
    ensures Take(AtMost, y, held, d) == taken - o
    ensures Worth(taken - o, d) == Worth(taken, d) - Worth(o, d)
  {
    TakeFits(AtMost, y, held, d);
    var n := Take(AtMost, y, held, d);
    WorthOrder(o, taken, d);
    WorthOrder(n, taken - o, d);
    WorthOrder(taken - o, n, d);
  }

  /** No coin is worth less than the smallest. */
  lemma {:induction false} ValueAtLeast(c: Coins, k: nat)
    requires k <= N
    ensures ValueTo(c, k) >= Worth(CountTo(c, k), 0)
  {
    if k > 0 {
      ValueAtLeast(c, k - 1);
      WorthAdd(CountTo(c, k - 1), c[k - 1], 0);
      WorthMono(c[k - 1], 0, k - 1);
    }
  }

  /** There are coins in the change exactly if it is for at least the smallest coin. */
  lemma {:induction false} ChangeCounted(x: int)
    ensures Count(Change(x)) > 0 <==> x >= Amount(0)
  {
    if x <= 0 {
      ChooseNothing(AtMost, x, Plenty(x), |Plenty(x)|);
    } else {
      ChangeLeaves(x);
      ValueAtLeast(Change(x), |Change(x)|);
      ValueAtMost(Change(x), |Change(x)|, N - 1);
    }
  }

  lemma {:induction false} PaysCounts(n: int, used: Coins, target: int, held: Coins)
    requires Pays(n, used, target, held)
    ensures n != 0 <==> Value(used) >= target + Amount(0)
  {
    ChangeCounted(Value(used) - target);
  }

  /** A count that is not zero means that the target is covered, by at least one coin more. */
  lemma {:induction false} CountMeansCovered(nMax: int, fMinimize: bool, target: int, held: Coins)
    ensures var (n, used) := Calculate(nMax, fMinimize, target, held); n != 0 <==> Value(used) >= target + Amount(0)
  {
    var (n, used) := Calculate(nMax, fMinimize, target, held);
    CalculateSound(nMax, fMinimize, target, held);
    PaysCounts(n, used, target, held);
  }

  //////////////////////////////////////////////////////////////////////////////
  //
  // The limit on the number of coins
  //
  //////////////////////////////////////////////////////////////////////////////

  /**
  Coins worth `m` coins of denomination `d` more than the target are at least `m` more than are
  taken from the highest down until the target is covered.
  */
  lemma {:induction false} CoverFewestTo(target: int, held: Coins, c: Coins, m: nat, d: nat, k: nat)
    requires k <= d + 1 <= N && WithinTo(c, held, k) && ValueTo(c, k) >= target + Worth(m, d)
    ensures target > 0 ==> CountTo(Choose(Cover, target, held, k), k) + m <= CountTo(c, k)
    decreases k
  {
    if target > 0 && k > 0 {
      ChooseStep(Cover, target, held, k);
      TakeFits(Cover, target, held[k - 1], k - 1);
      if Rest(Cover, target, held, k) <= 0 {
        ChooseNothing(Cover, Rest(Cover, target, held, k), held, k - 1);
        TopCovers(target, c, m, d, Take(Cover, target, held[k - 1], k - 1), k);
      } else {
        TopRunsOut(target, held[k - 1], c, m, d, k);
        CoverFewestTo(Rest(Cover, target, held, k), held, c, held[k - 1] - c[k - 1] + m, k - 1, k - 1);
      }
    }
  }

  /** Coins of the highest denomination alone cover the target. */
  lemma {:induction false} TopCovers(target: nat, c: Coins, m: nat, d: nat, taken: nat, k: nat)
    requires 0 < k <= d + 1 <= N && ValueTo(c, k) >= target + Worth(m, d)
    requires Worth(taken, k - 1) < target + Amount(k - 1)
    ensures taken + m <= CountTo(c, k)
  {
    var e := k - 1;
    ValueAtMost(c, k, e);
    WorthMono(m, e, d);
    WorthAdd(taken, m, e);
    WorthOrder(CountTo(c, k) + 1, taken + m, e);
  }

  /** All coins of the highest denomination are taken; those that `c` lacks it makes up for below. */
  lemma {:induction false} TopRunsOut(target: nat, held: nat, c: Coins, m: nat, d: nat, k: nat)
    requires 0 < k <= d + 1 <= N && ValueTo(c, k) >= target + Worth(m, d) && c[k - 1] <= held
    ensures ValueTo(c, k - 1) >= target - Worth(held, k - 1) + Worth(held - c[k - 1] + m, k - 1)
  {
    var e := k - 1;
    WorthMono(m, e, d);
    WorthAdd(held - c[e], m, e);
    WorthOrder(c[e], held, e);
  }

  /** No coins that cover the target are fewer than those taken from the highest denomination down. */
  lemma {:induction false} CoverFewest(target: int, held: Coins, c: Coins)
    requires target > 0 && Within(c, held) && Value(c) >= target
    ensures Count(Choose(Cover, target, held, |held|)) <= Count(c)
  {
    CoverFewestTo(target, held, c, 0, N - 1, |held|);
  }

  /** Coins of `held` that cover the target, and no more of them than allowed. */
  ghost predicate CoversWithin(c: Coins, target: int, held: Coins, nMax: int) {
    Within(c, held) && Value(c) >= target && Count(c) <= nMax
  }

  lemma {:induction false} MinimizeKeepsLimit(nMax: int, nChange: int, top: int, target: int, held: Coins, saved: Coins)
    ensures var u := Minimize(nMax, nChange, top, target, held, saved).1; u == saved || Count(u) <= nMax
  {
  }

  lemma {:induction false} OverKeepsLimit(nMax: int, fMinimize: bool, target: int, held: Coins, over: Denom)
    ensures nMax >= 1 ==> Count(CalculateOver(nMax, fMinimize, target, held, over).1) <= nMax
  {
    OneCoinValue(over);
    MinimizeKeepsLimit(nMax, ChangeCount(OneCoin(over), target), MaxHeld(held, over), target, held, OneCoin(over));
  }

  lemma {:induction false} SimpleKeepsLimit(nMax: int, fMinimize: bool, target: int, held: Coins)
    ensures var simple := Choose(Cover, target, held, |held|);
            Count(simple) <= nMax ==> Count(CalculateSimple(nMax, fMinimize, target, held).1) <= nMax
  {
    var simple := Choose(Cover, target, held, |held|);
    MinimizeKeepsLimit(nMax, ChangeCount(simple, target), MaxHeld(held, |held|), target, held, simple);
  }

  lemma {:induction false} CoversKeepLimit(nMax: int, fMinimize: bool, target: int, held: Coins, c: Coins)
    requires target > 0 && CoversWithin(c, target, held, nMax)
    ensures Count(Calculate(nMax, fMinimize, target, held).1) <= nMax
  {
    var over := First(target, held, |held|);
    if over != ZQ_ERROR {
      ValueAtMost(c, |c|, N - 1);
      OverKeepsLimit(nMax, fMinimize, target, held, over);
    } else {
      CoverFewest(target, held, c);
      SimpleKeepsLimit(nMax, fMinimize, target, held);
    }
  }

  /**
  For a positive target that the coins held cover, calculateChange keeps to the limit on the
  number of coins exactly if any coins held can.
  */
  lemma {:induction false} LimitKept(nMax: int, fMinimize: bool, target: int, held: Coins)
    requires 0 < target <= Value(held)
    ensures var used := Calculate(nMax, fMinimize, target, held).1;
            Count(used) <= nMax <==> exists c :: CoversWithin(c, target, held, nMax)
  {
    var used := Calculate(nMax, fMinimize, target, held).1;
    if Count(used) <= nMax {
      CalculateSound(nMax, fMinimize, target, held);
      CalculateCovers(nMax, fMinimize, target, held);
      assert CoversWithin(used, target, held, nMax);
    }
    if exists c :: CoversWithin(c, target, held, nMax) {
      var c :| CoversWithin(c, target, held, nMax);
      CoversKeepLimit(nMax, fMinimize, target, held, c);
    }
  }
}
