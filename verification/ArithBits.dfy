/**
Shifts and bitwise-or of natural numbers.
*/
module ArithBits {

  /** `x` times two to the power of `s`. */
  function Up(x: int, s: nat): int
    decreases s, x
  {
    if s == 0 then x else 2 * Up(x, s - 1)
  }

  function Pow2(s: nat): (p: nat)
    ensures p > 0
  {
    UpSign(1, s);
    Up(1, s)
  }

  /** `x` divided by two to the power of `s`, rounded down. */
  function Shr(x: nat, s: nat): nat
    decreases s, x
  {
    if s == 0 then x else Shr(x / 2, s - 1)
  }

  /** The lowest `s` bits of `x`. */
  function Low(x: nat, s: nat): nat
    decreases s, x
  {
    if s == 0 then 0 else x % 2 + 2 * Low(x / 2, s - 1)
  }

  function Or(x: nat, y: nat): nat
    decreases x + y
  {
    if x == 0 then y else if y == 0 then x
    else 2 * Or(x / 2, y / 2) + if x % 2 == 1 || y % 2 == 1 then 1 else 0
  }

  lemma {:induction false} UpSign(x: int, s: nat)
    ensures x > 0 ==> Up(x, s) > 0
    ensures x == 0 ==> Up(x, s) == 0
    ensures x < 0 ==> Up(x, s) < 0
    decreases s
  {
    if s > 0 {
      UpSign(x, s - 1);
    }
  }

  lemma {:induction false} UpAdd(x: int, y: int, s: nat)
    ensures Up(x + y, s) == Up(x, s) + Up(y, s)
    decreases s
  {
    if s > 0 {
      UpAdd(x, y, s - 1);
    }
  }

  lemma {:induction false} UpSub(x: int, y: int, s: nat)
    ensures Up(x - y, s) == Up(x, s) - Up(y, s)
  {
    UpAdd(x - y, y, s);
  }

  lemma {:induction false} UpTimes(x: int, y: int, s: nat)
    ensures Up(x * y, s) == x * Up(y, s)
    decreases s
  {
    if s > 0 {
      UpTimes(x, y, s - 1);
    }
  }

  lemma {:induction false} UpIsProduct(x: int, s: nat)
    ensures Up(x, s) == x * Pow2(s)
  {
    UpTimes(x, 1, s);
  }

  lemma {:induction false} UpUp(x: int, s: nat, t: nat)
    ensures Up(Up(x, s), t) == Up(x, s + t)
    decreases t
  {
    if t > 0 {
      UpUp(x, s, t - 1);
    }
  }

  lemma {:induction false} UpOrder(x: int, y: int, s: nat)
    ensures x < y <==> Up(x, s) < Up(y, s)
  {
    UpSub(y, x, s);
    UpSign(y - x, s);
  }

  /** A higher power is at least as much. */
  lemma {:induction false} UpMore(x: nat, s: nat, t: nat)
    requires s <= t
    ensures Up(x, s) <= Up(x, t)
    decreases t
  {
    UpSign(x, t);
    if s < t {
      UpMore(x, s, t - 1);
      UpSign(x, t - 1);
    }
  }

  lemma {:induction false} ShrShr(x: nat, s: nat, t: nat)
    ensures Shr(Shr(x, s), t) == Shr(x, s + t)
    decreases s
  {
    if s > 0 {
      ShrShr(x / 2, s - 1, t);
    }
  }

  /** Shifting down and the bits shifted out make up the number. */
  lemma {:induction false} Split(x: nat, s: nat)
    ensures x == Up(Shr(x, s), s) + Low(x, s)
    ensures Low(x, s) < Pow2(s)
    decreases s
  {
    if s > 0 {
      Split(x / 2, s - 1);
    }
  }

  /** The quotient and the remainder by a power of two are unique. */
  lemma {:induction false} SplitUnique(q: nat, r: nat, s: nat)
    requires r < Pow2(s)
    ensures var x := Up(q, s) + r; x >= 0 && Shr(x, s) == q && Low(x, s) == r
    decreases s
  {
    UpSign(q, s);
    if s > 0 {
      UpSign(q, s - 1);
      SplitUnique(q, r / 2, s - 1);
      assert (Up(q, s) + r) / 2 == Up(q, s - 1) + r / 2;
    }
  }

  /** Two numbers of which one has only bits below, the other only bits from `s` up. */
  lemma {:induction false} OrDisjoint(x: nat, y: nat, s: nat)
    requires Low(x, s) == 0 && y < Pow2(s)
    ensures Or(x, y) == Or(y, x) == x + y
    decreases s
  {
    if s > 0 && x > 0 && y > 0 {
      assert Pow2(s) == 2 * Pow2(s - 1);
      OrDisjoint(x / 2, y / 2, s - 1);
    }
  }

  lemma {:induction false} OrBound(x: nat, y: nat, s: nat)
    requires x < Pow2(s) && y < Pow2(s)
    ensures Or(x, y) < Pow2(s)
    decreases s
  {
    if s > 0 {
      assert Pow2(s) == 2 * Pow2(s - 1);
      OrBound(x / 2, y / 2, s - 1);
    }
  }

  lemma {:induction false} LowZero(x: nat, s: nat, t: nat)
    requires Low(x, t) == 0 && s <= t
    ensures Low(x, s) == 0
    decreases s
  {
    if s > 0 {
      LowZero(x / 2, s - 1, t - 1);
    }
  }

  lemma {:induction false} LowOfZero(s: nat)
    ensures Low(0, s) == 0
    decreases s
  {
    if s > 0 {
      LowOfZero(s - 1);
    }
  }

  /** Adding a bit does not change the bits below it. */
  lemma {:induction false} LowOfSum(x: nat, s: nat)
    ensures Low(x + Pow2(s), s) == Low(x, s)
    decreases s
  {
    if s > 0 {
      LowOfSum(x / 2, s - 1);
      assert Pow2(s) == 2 * Pow2(s - 1);
      assert (x + Pow2(s)) / 2 == x / 2 + Pow2(s - 1);
    }
  }

  lemma {:induction false} Up8(x: int)
    ensures Up(x, 8) == 0x100 * x
  {
    assert Up(x, 4) == 2 * Up(x, 3);
    assert Up(x, 2) == 2 * Up(x, 1);
    assert Up(x, 6) == 2 * Up(x, 5);
  }

  lemma {:induction false} Up16(x: int)
    ensures Up(x, 16) == 0x1_0000 * x
  {
    Up8(x);
    Up8(Up(x, 8));
    UpUp(x, 8, 8);
  }

  lemma {:induction false} Up32(x: int)
    ensures Up(x, 32) == 0x1_0000_0000 * x
  {
    Up16(x);
    Up16(Up(x, 16));
    UpUp(x, 16, 16);
  }
}
