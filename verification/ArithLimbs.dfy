/**
Numbers in limbs of 32 bits, the lowest limb first, and what the loops over the limbs do to their value.
*/
module ArithLimbs {
  import opened ArithBits

  const BASE := 0x1_0000_0000

  type Word = x: nat | x < BASE

  /** `x` shifted up by `i` limbs. */
  function Limb(x: int, i: nat): int
    decreases i, x
  {
    if i == 0 then x else BASE * Limb(x, i - 1)
  }

  lemma {:induction false} LimbIsUp(x: int, i: nat)
    ensures Limb(x, i) == Up(x, 32 * i)
    decreases i
  {
    if i > 0 {
      LimbIsUp(x, i - 1);
      UpUp(x, 32 * (i - 1), 32);
      Up32(Up(x, 32 * (i - 1)));
    }
  }

  lemma {:induction false} LimbSign(x: int, i: nat)
    ensures x > 0 ==> Limb(x, i) > 0
    ensures x == 0 ==> Limb(x, i) == 0
    ensures x < 0 ==> Limb(x, i) < 0
    decreases i
  {
    if i > 0 {
      LimbSign(x, i - 1);
    }
  }

  lemma {:induction false} LimbAdd(x: int, y: int, i: nat)
    ensures Limb(x + y, i) == Limb(x, i) + Limb(y, i)
    decreases i
  {
    if i > 0 {
      LimbAdd(x, y, i - 1);
    }
  }

  lemma {:induction false} LimbTimes(x: int, y: int, i: nat)
    ensures Limb(x * y, i) == x * Limb(y, i)
    decreases i
  {
    if i > 0 {
      LimbTimes(x, y, i - 1);
    }
  }

  lemma {:induction false} LimbOrder(x: int, y: int, i: nat)
    ensures x < y <==> Limb(x, i) < Limb(y, i)
  {
    LimbAdd(y - x, x, i);
    LimbSign(y - x, i);
  }

  /** A carry out of limb `i` goes into limb `i + 1`. */
  lemma {:induction false} LimbCarry(x: int, i: nat)
    ensures Limb(BASE * x, i) == Limb(x, i + 1)
    decreases i
  {
    if i > 0 {
      LimbCarry(x, i - 1);
    }
  }

  lemma {:induction false} LimbLimb(x: int, i: nat, j: nat)
    ensures Limb(Limb(x, i), j) == Limb(x, i + j)
    decreases j
  {
    if j > 0 {
      LimbLimb(x, i, j - 1);
    }
  }

  lemma {:induction false} LimbOfUp(x: int, s: nat, i: nat)
    ensures Limb(Up(x, s), i) == Up(Limb(x, i), s)
    decreases i
  {
    if i > 0 {
      LimbOfUp(x, s, i - 1);
      UpTimes(BASE, Limb(x, i - 1), s);
    }
  }

  lemma {:induction false} LimbMore(x: nat, i: nat, j: nat)
    requires i <= j
    ensures Limb(x, i) <= Limb(x, j)
    decreases j
  {
    LimbSign(x, j);
    if i < j {
      LimbMore(x, i, j - 1);
      LimbSign(x, j - 1);
    }
  }

  //////////////////////////////////////////////////////////////////////////////
  //
  // The value of limbs
  //
  //////////////////////////////////////////////////////////////////////////////

  /** The value of the `k` lowest limbs. */
  function ValTo(p: seq<Word>, k: nat): (v: nat)
    requires k <= |p|
    decreases p, k
  {
    if k == 0 then 0
    else
      LimbSign(p[k - 1], k - 1);
      ValTo(p, k - 1) + Limb(p[k - 1], k - 1)
  }

  function Val(p: seq<Word>): nat {
    ValTo(p, |p|)
  }

  /** One more than the greatest value of `w` limbs: two to the power of 32 w. */
  function Modulus(w: nat): (m: nat)
    ensures m > 0
  {
    LimbSign(1, w);
    Limb(1, w)
  }

  lemma {:induction false} ModulusIsPow2(w: nat)
    ensures Modulus(w) == Pow2(32 * w)
  {
    LimbIsUp(1, w);
  }

  lemma {:induction false} ValBound(p: seq<Word>, k: nat)
    requires k <= |p|
    ensures ValTo(p, k) < Modulus(k)
    decreases k
  {
    if k > 0 {
      ValBound(p, k - 1);
      LimbAdd(p[k - 1], 1, k - 1);
      LimbOrder(BASE, p[k - 1] as int + 1, k - 1);
      LimbCarry(1, k - 1);
    }
  }

  lemma {:induction false} ValSame(p: seq<Word>, q: seq<Word>, k: nat)
    requires k <= |p| && k <= |q| && forall j | 0 <= j < k :: p[j] == q[j]
    ensures ValTo(p, k) == ValTo(q, k)
    decreases k
  {
    if k > 0 {
      ValSame(p, q, k - 1);
    }
  }

  /** Only limb `j` is different. */
  lemma {:induction false} ValPut(p: seq<Word>, j: nat, x: Word, k: nat)
    requires j < |p| && k <= |p|
    ensures ValTo(p[j := x], k) == ValTo(p, k) + if j < k then Limb(x, j) - Limb(p[j], j) else 0
    decreases k
  {
    if k > 0 {
      ValPut(p, j, x, k - 1);
    }
  }

  lemma {:induction false} ValZero(p: seq<Word>, j: nat, k: nat)
    requires j <= k <= |p| && forall i | j <= i < k :: p[i] == 0
    ensures ValTo(p, k) == ValTo(p, j)
    decreases k
  {
    if j < k {
      ValZero(p, j, k - 1);
      LimbSign(0, k - 1);
    }
  }

  /** Numbers that agree above limb `j` compare like limb `j`. */
  lemma {:induction false} ValLess(p: seq<Word>, q: seq<Word>, j: nat, k: nat)
    requires j < k <= |p| == |q| && p[j] < q[j] && forall i | j < i < k :: p[i] == q[i]
    ensures ValTo(p, k) < ValTo(q, k)
    decreases k
  {
    if j < k - 1 {
      ValLess(p, q, j, k - 1);
    } else {
      ValBound(p, j);
      LimbAdd(p[j], 1, j);
      LimbOrder(q[j], p[j] as int + 1, j);
    }
  }

  /** The limbs are determined by their value. */
  lemma {:induction false} ValInjective(p: seq<Word>, q: seq<Word>, k: nat)
    requires k <= |p| == |q| && ValTo(p, k) == ValTo(q, k)
    ensures forall j | 0 <= j < k :: p[j] == q[j]
    decreases k
  {
    if k > 0 {
      if p[k - 1] < q[k - 1] {
        ValLess(p, q, k - 1, k);
      } else if q[k - 1] < p[k - 1] {
        ValLess(q, p, k - 1, k);
      }
      ValInjective(p, q, k - 1);
    }
  }

  lemma {:induction false} DivModUnique(x: int, q: int, r: int, m: int)
    requires 0 <= r < m && x == q * m + r
    ensures x / m == q && x % m == r
  {
    TimesSign(x / m - q, m);
  }

  lemma {:induction false} TimesSign(d: int, m: int)
    requires m > 0
    ensures d >= 1 ==> d * m >= m
    ensures d <= -1 ==> d * m <= -m
    decreases if d < 0 then -d else d
  {
    if d > 1 {
      TimesSign(d - 1, m);
    } else if d < -1 {
      TimesSign(d + 1, m);
    }
  }

  /** What fits into the limbs of `x` is `x` modulo their modulus. */
  lemma {:induction false} Wraps(x: int, over: int, p: seq<Word>)
    requires x == Val(p) + Limb(over, |p|)
    ensures Val(p) == x % Modulus(|p|)
  {
    ValBound(p, |p|);
    LimbTimes(over, 1, |p|);
    DivModUnique(x, over, Val(p), Modulus(|p|));
  }

  //////////////////////////////////////////////////////////////////////////////
  //
  // Addition
  //
  //////////////////////////////////////////////////////////////////////////////

  /** The sum of the `i` lowest limbs of `a` and `b` is in `p` and the carry. */
  ghost predicate Added(a: seq<Word>, b: seq<Word>, p: seq<Word>, carry: nat, i: nat) {
    && |p| == |a| == |b| && i <= |p| && carry <= 1
    && ValTo(p, i) + Limb(carry, i) == ValTo(a, i) + ValTo(b, i)
    && forall j | i <= j < |p| :: p[j] == a[j]
  }

  lemma {:induction false} AddStart(a: seq<Word>, b: seq<Word>)
    requires |a| == |b|
    ensures Added(a, b, a, 0, 0)
  {
  }

  lemma {:induction false} AddStep(a: seq<Word>, b: seq<Word>, p: seq<Word>, carry: nat, i: nat, n: nat, p': seq<Word>)
    requires i < |p| && Added(a, b, p, carry, i)
    requires n == carry + p[i] + b[i] && p' == p[i := n % BASE]
    ensures Added(a, b, p', n / BASE, i + 1)
  {
    ValPut(p, i, n % BASE, i);
    CarryOut(n, i);
    LimbAdd(carry + a[i], b[i], i);
    LimbAdd(carry, a[i], i);
  }

  /** A sum of limbs is what is stored and what is carried. */
  lemma {:induction false} CarryOut(n: nat, i: nat)
    ensures Limb(n, i) == Limb(n % BASE, i) + Limb(n / BASE, i + 1)
  {
    LimbAdd(n % BASE, BASE * (n / BASE), i);
    LimbCarry(n / BASE, i);
  }

  lemma {:induction false} AddDone(a: seq<Word>, b: seq<Word>, p: seq<Word>, carry: nat)
    requires Added(a, b, p, carry, |p|)
    ensures Val(p) == (Val(a) + Val(b)) % Modulus(|p|)
  {
    Wraps(Val(a) + Val(b), carry, p);
  }

  //////////////////////////////////////////////////////////////////////////////
  //
  // One more, one less, and the complement
  //
  //////////////////////////////////////////////////////////////////////////////

  /** `p` is `v`, except for a carry out of limb `i` if that limb has become zero. */
  ghost predicate Raised(v: nat, p: seq<Word>, i: nat) {
    i < |p| && v == Val(p) + if p[i] == 0 then Limb(1, i + 1) else 0
  }

  lemma {:induction false} Raise(p: seq<Word>, i: nat)
    requires i < |p|
    ensures Limb(1, i) >= 0 && Raised(Val(p) + Limb(1, i), p[i := (p[i] as int + 1) % BASE], i)
  {
    var n := p[i] as int + 1;
    ValPut(p, i, n % BASE, |p|);
    LimbAdd(p[i], 1, i);
    CarryOut(n, i);
    LimbSign(0, i + 1);
    LimbSign(1, i);
  }

  lemma {:induction false} RaiseDone(v: nat, p: seq<Word>, i: nat)
    requires Raised(v, p, i) && (p[i] != 0 || i == |p| - 1)
    ensures Val(p) == v % Modulus(|p|)
  {
    LimbSign(0, |p|);
    Wraps(v, if p[i] == 0 then 1 else 0, p);
  }

  /** `p` is `v`, except for a borrow by limb `i` if that limb has become all ones. */
  ghost predicate Lowered(v: int, p: seq<Word>, i: nat) {
    i < |p| && v == Val(p) - if p[i] == BASE - 1 then Limb(1, i + 1) else 0
  }

  lemma {:induction false} Lower(p: seq<Word>, i: nat)
    requires i < |p|
    ensures Lowered(Val(p) - Limb(1, i), p[i := (p[i] as int - 1) % BASE], i)
  {
    var n := p[i] as int - 1;
    ValPut(p, i, n % BASE, |p|);
    LimbAdd(n, 1, i);
    LimbAdd(BASE, -1, i);
    LimbAdd(1, -1, i);
    LimbCarry(1, i);
    LimbSign(0, i);
  }

  lemma {:induction false} LowerDone(v: int, p: seq<Word>, i: nat)
    requires Lowered(v, p, i) && (p[i] != BASE - 1 || i == |p| - 1)
    ensures Val(p) == v % Modulus(|p|)
  {
    LimbSign(0, |p|);
    LimbAdd(1, -1, |p|);
    Wraps(v, if p[i] == BASE - 1 then -1 else 0, p);
  }

  lemma {:induction false} Complement(a: seq<Word>, p: seq<Word>, k: nat)
    requires k <= |a| == |p| && forall j | 0 <= j < k :: p[j] == BASE - 1 - a[j]
    ensures ValTo(p, k) + ValTo(a, k) + 1 == Modulus(k)
    decreases k
  {
    if k > 0 {
      Complement(a, p, k - 1);
      LimbAdd(p[k - 1], a[k - 1], k - 1);
      LimbAdd(BASE - 1, 1, k - 1);
      LimbCarry(1, k - 1);
    }
  }

  lemma {:induction false} NegDone(a: seq<Word>, p: seq<Word>, r: seq<Word>)
    requires |a| == |p| == |r| && forall j | 0 <= j < |p| :: p[j] == BASE - 1 - a[j]
    requires Val(r) == (Val(p) + 1) % Modulus(|p|)
    ensures Val(r) == -(Val(a) as int) % Modulus(|a|)
  {
    Complement(a, p, |p|);
    ValBound(r, |r|);
    var m := Modulus(|p|);
    assert Val(p) + 1 == (Val(p) + 1) / m * m + Val(r);
    DivModUnique(-(Val(a) as int), (Val(p) + 1) / m - 1, Val(r), m);
  }

  /** Adding the complement subtracts. */
  lemma {:induction false} SubDone(a: nat, b: nat, n: nat, r: nat, m: nat)
    requires m > 0 && n == -(b as int) % m && r == (a + n) % m
    ensures r == (a - b) % m
  {
    var q, q' := -(b as int) / m, (a + n) / m;
    assert -(b as int) == q * m + n;
    assert a + n == q' * m + r;
    DivModUnique(a - b, q + q', r, m);
  }
}
