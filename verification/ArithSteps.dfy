/**
What the loops of the shifts, the products, the comparison and the bit count do, step by step.
*/
module ArithSteps {
  import opened ArithBits
  import opened ArithLimbs

  //////////////////////////////////////////////////////////////////////////////
  //
  // Shifting up
  //
  //////////////////////////////////////////////////////////////////////////////

  /** The bits of `x` that shifting up by `s` bits moves out of its limb. */
  lemma {:induction false} HighPart(x: Word, s: nat)
    requires s <= 32
    ensures Shr(x, 32 - s) < Pow2(s) <= BASE
  {
    Split(x, 32 - s);
    UpUp(1, s, 32 - s);
    Up32(1);
    UpOrder(Shr(x, 32 - s), Pow2(s), 32 - s);
    UpMore(1, s, 32);
  }

  /** Those that stay. */
  lemma {:induction false} LowPart(x: Word, s: nat)
    requires s <= 32
    ensures 0 <= Up(Low(x, 32 - s), s) < BASE && Low(Up(Low(x, 32 - s), s), s) == 0
  {
    var l := Low(x, 32 - s);
    Split(x, 32 - s);
    UpUp(1, 32 - s, s);
    Up32(1);
    UpOrder(l, Pow2(32 - s), s);
    UpSign(l, s);
    UpSign(1, s);
    SplitUnique(l, 0, s);
  }

  lemma {:induction false} OrFits(x: Word, y: Word)
    ensures Or(x, y) < BASE
  {
    Up32(1);
    OrBound(x, y, 32);
  }

  /** The two limbs that `x` covers when shifted up by fewer than 32 bits. */
  lemma {:induction false} WordParts(x: Word, s: nat) returns (lo: Word, hi: Word)
    requires s < 32
    ensures lo == Up(x, s) % BASE && hi == Shr(x, 32 - s)
    ensures Up(x, s) == lo + BASE * hi
    ensures Low(lo, s) == 0 && hi < Pow2(s)
    ensures lo == Up(Low(x, 32 - s), s)
  {
    HighPart(x, s);
    LowPart(x, s);
    lo, hi := Up(Low(x, 32 - s), s), Shr(x, 32 - s);
    Split(x, 32 - s);
    UpAdd(Up(hi, 32 - s), Low(x, 32 - s), s);
    UpUp(hi, 32 - s, s);
    Up32(hi);
    Residue(Up(x, s), hi, lo);
  }

  lemma {:induction false} Residue(x: int, q: int, r: Word)
    requires x == r + BASE * q
    ensures x % BASE == r
  {
  }

  /** The `i` lowest limbs of `a`, shifted up by `k` limbs and `s` bits, are in `p`, except for what is shifted out. */
  ghost predicate ShiftedUp(a: seq<Word>, p: seq<Word>, k: nat, s: nat, i: nat, over: nat) {
    && |p| == |a| && i <= |a| && s < 32
    && Limb(Up(ValTo(a, i), s), k) == Val(p) + Limb(over, |p|)
    && (forall j | i + k < j < |p| :: p[j] == 0)
    && (i + k < |p| ==> p[i + k] < Pow2(s) && over == 0)
  }

  lemma {:induction false} UpStart(a: seq<Word>, p: seq<Word>, k: nat, s: nat)
    requires |p| == |a| && s < 32 && forall j | 0 <= j < |p| :: p[j] == 0
    ensures ShiftedUp(a, p, k, s, 0, 0)
  {
    ValZero(p, 0, |p|);
    UpSign(0, s);
    LimbSign(0, k);
    LimbSign(0, |p|);
  }

  /** What shifting limb `i` of `a` does to the limbs `t`, its place, and `t + 1`. */
  lemma {:induction false} UpStep(a: seq<Word>, p: seq<Word>, k: nat, s: nat, i: nat, over: nat, t: nat, p': seq<Word>) returns (over': nat)
    requires i < |a| && ShiftedUp(a, p, k, s, i, over) && t == i + k
    requires var up := if t + 1 < |p| && s != 0 then Or(p[t + 1], Shr(a[i], 32 - s)) else 0;
             && up < BASE && |p'| == |p|
             && (t + 1 < |p| ==> p'[t + 1] == up)
             && (t < |p| ==> p'[t] == Or(p[t], Up(a[i], s) % BASE))
             && forall j | 0 <= j < |p| && j != t && j != t + 1 :: p'[j] == p[j]
    ensures ShiftedUp(a, p', k, s, i + 1, over')
  {
    var lo, hi := WordParts(a[i], s);
    UpMoreLimbs(a, k, s, i, t, lo, hi);
    if t < |p| {
      OrDisjoint(lo, p[t], s);
      LimbSign(0, |p|);
      over' := UpPlace(p, t, lo, hi, p');
    } else {
      over' := over + Carried(lo, hi, t - |p|);
      LimbLimb(lo + BASE * hi, t - |p|, |p|);
      LimbAdd(over, over' - over, |p|);
      assert t - |p| + |p| == t;
      assert p' == p;
    }
  }

  function Carried(lo: Word, hi: Word, i: nat): nat {
    LimbSign(lo + BASE * hi, i);
    Limb(lo + BASE * hi, i)
  }

  lemma {:induction false} UpMoreLimbs(a: seq<Word>, k: nat, s: nat, i: nat, t: nat, lo: Word, hi: Word)
    requires i < |a| && t == i + k && Up(a[i], s) == lo + BASE * hi
    ensures Limb(Up(ValTo(a, i + 1), s), k) == Limb(Up(ValTo(a, i), s), k) + Limb(lo + BASE * hi, t)
  {
    UpAdd(ValTo(a, i), Limb(a[i], i), s);
    LimbOfUp(a[i], s, i);
    LimbAdd(Up(ValTo(a, i), s), Limb(lo + BASE * hi, i), k);
    LimbLimb(lo + BASE * hi, i, k);
  }

  /** Put `lo` on top of limb `t`, and `hi` into the limb above unless that is the end. */
  lemma {:induction false} UpPlace(p: seq<Word>, t: nat, lo: Word, hi: Word, p': seq<Word>) returns (over: nat)
    requires t < |p| == |p'| && p'[t] == p[t] + lo && (t + 1 < |p| ==> p[t + 1] == 0 && p'[t + 1] == hi)
    requires forall j | 0 <= j < |p| && j != t && j != t + 1 :: p'[j] == p[j]
    ensures Val(p') + Limb(over, |p|) == Val(p) + Limb(lo + BASE * hi, t)
    ensures t + 1 < |p| ==> over == 0
  {
    ValPut(p, t, p'[t], |p|);
    LimbAdd(p[t], lo, t);
    LimbAdd(lo, BASE * hi, t);
    LimbCarry(hi, t);
    LimbSign(0, t + 1);
    if t + 1 < |p| {
      over := 0;
      LimbSign(0, |p|);
      var q := p[t := p'[t]];
      ValPut(q, t + 1, hi, |p|);
      assert p' == q[t + 1 := hi];
    } else {
      over := hi;
      assert p' == p[t := p'[t]];
    }
  }

  lemma {:induction false} UpDone(a: seq<Word>, p: seq<Word>, k: nat, s: nat, over: nat, shift: nat)
    requires ShiftedUp(a, p, k, s, |a|, over) && shift == 32 * k + s
    ensures Val(p) == Up(Val(a), shift) % Modulus(|a|)
  {
    LimbIsUp(Up(Val(a), s), k);
    UpUp(Val(a), s, 32 * k);
    Wraps(Up(Val(a), shift), over, p);
  }

  //////////////////////////////////////////////////////////////////////////////
  //
  // Shifting down
  //
  //////////////////////////////////////////////////////////////////////////////

  /** The `i` lowest limbs of `a` are those of `p`, shifted up by `k` limbs and `s` bits, and a smaller rest. */
  ghost predicate ShiftedDown(a: seq<Word>, p: seq<Word>, k: nat, s: nat, i: nat, rest: nat) {
    && |p| == |a| && i <= |a| && s < 32
    && ValTo(a, i) == Limb(Up(Val(p), s), k) + rest
    && rest < Limb(Pow2(s), k)
    && (forall j | 0 <= j < |p| && i <= j + k :: p[j] == 0)
    && (k < i ==> p[i - k - 1] < Pow2(32 - s))
  }

  lemma {:induction false} DownStart(a: seq<Word>, p: seq<Word>, k: nat, s: nat)
    requires |p| == |a| && s < 32 && forall j | 0 <= j < |p| :: p[j] == 0
    ensures ShiftedDown(a, p, k, s, 0, 0)
  {
    ValZero(p, 0, |p|);
    UpSign(0, s);
    LimbSign(0, k);
    LimbSign(Pow2(s), k);
  }

  /** A limb that is shifted out altogether. */
  lemma {:induction false} DownOut(a: seq<Word>, p: seq<Word>, k: nat, s: nat, i: nat, rest: nat) returns (rest': nat)
    requires i < |a| && ShiftedDown(a, p, k, s, i, rest) && i < k
    ensures ShiftedDown(a, p, k, s, i + 1, rest')
  {
    ValZero(p, 0, |p|);
    UpSign(0, s);
    LimbSign(0, k);
    rest' := ValTo(a, i + 1);
    ValBound(a, i + 1);
    LimbMore(1, i + 1, k);
    LimbOrder(Pow2(s), 1, k);
  }

  /** What is left of limb `i` of `a` and what goes into the limb below. */
  lemma {:induction false} DownParts(x: Word, s: nat) returns (q: Word, r: nat, lo: Word)
    requires s < 32
    ensures q == Shr(x, s) < Pow2(32 - s) && r == Low(x, s) < Pow2(s)
    ensures x == Up(q, s) + r && Up(lo, s) == BASE * r
    ensures s != 0 ==> lo == Up(x, 32 - s) % BASE
    ensures s == 0 ==> lo == 0
    ensures Low(lo, 32 - s) == 0
  {
    Split(x, s);
    UpUp(1, 32 - s, s);
    Up32(1);
    UpOrder(Shr(x, s), Pow2(32 - s), s);
    UpMore(1, 32 - s, 32);
    q, r := Shr(x, s), Low(x, s);
    if s == 0 {
      lo := 0;
      SplitUnique(0, 0, 32);
      UpSign(0, 32);
    } else {
      var l, h := WordParts(x, 32 - s);
      lo := l;
      UpUp(r, 32 - s, s);
      Up32(r);
    }
  }

  lemma {:induction false} DownStep(a: seq<Word>, p: seq<Word>, k: nat, s: nat, i: nat, rest: nat, t: nat, p': seq<Word>) returns (rest': nat)
    requires i < |a| && ShiftedDown(a, p, k, s, i, rest) && i == t + k
    requires |p'| == |p| && p'[t] == Or(p[t], Shr(a[i], s))
    requires t > 0 && s != 0 ==> p'[t - 1] == Or(p[t - 1], Up(a[i], 32 - s) % BASE)
    requires forall j | 0 <= j < |p| && j != t && (s != 0 ==> j != t - 1) :: p'[j] == p[j]
    ensures ShiftedDown(a, p', k, s, i + 1, rest')
  {
    var q, r, lo := DownParts(a[i], s);
    if t == 0 {
      rest' := DownFirst(a, p, k, s, rest, q, r, p');
    } else {
      OrDisjoint(lo, p[t - 1], 32 - s);
      assert p'[t - 1] == p[t - 1] + lo;
      rest' := rest;
      DownPlace(a, p, k, s, i, t, q, r, lo, p');
    }
  }

  /** The lowest limb that is not shifted out altogether. */
  lemma {:induction false} DownFirst(a: seq<Word>, p: seq<Word>, k: nat, s: nat, rest: nat, q: Word, r: nat, p': seq<Word>) returns (rest': nat)
    requires k < |a| && ShiftedDown(a, p, k, s, k, rest)
    requires a[k] == Up(q, s) + r && r < Pow2(s) && q < Pow2(32 - s)
    requires p' == p[0 := q]
    ensures ShiftedDown(a, p', k, s, k + 1, rest')
  {
    ValZero(p, 0, |p|);
    ValPut(p, 0, q, |p|);
    UpSign(0, s);
    LimbSign(0, k);
    LimbAdd(Up(q, s), r, k);
    LimbSign(r, k);
    rest' := ValTo(a, k) + Limb(r, k);
    ValBound(a, k);
    LimbAdd(1, r, k);
    LimbOrder(Pow2(s), r + 1, k);
  }

  lemma {:induction false} DownPlace(a: seq<Word>, p: seq<Word>, k: nat, s: nat, i: nat, t: nat, q: Word, r: nat, lo: Word, p': seq<Word>)
    requires i < |a| == |p| == |p'| && i == t + k && t > 0 && p[t] == 0
    requires a[i] == Up(q, s) + r && Up(lo, s) == BASE * r
    requires p'[t] == q && p'[t - 1] == p[t - 1] + lo && forall j | 0 <= j < |p| && j != t && j != t - 1 :: p'[j] == p[j]
    ensures Limb(Up(Val(p'), s), k) == Limb(Up(Val(p), s), k) + Limb(a[i], i)
  {
    DownPut(p, t, q, lo, p');
    DownLimb(s, t, q, r, lo);
    var added := Limb(lo, t - 1) + Limb(q, t);
    UpAdd(Val(p), added, s);
    LimbAdd(Up(Val(p), s), Limb(a[i], t), k);
    LimbLimb(a[i], t, k);
  }

  lemma {:induction false} DownPut(p: seq<Word>, t: nat, q: Word, lo: Word, p': seq<Word>)
    requires 0 < t < |p| == |p'| && p[t] == 0 && p'[t] == q && p'[t - 1] == p[t - 1] + lo
    requires forall j | 0 <= j < |p| && j != t && j != t - 1 :: p'[j] == p[j]
    ensures Val(p') == Val(p) + Limb(lo, t - 1) + Limb(q, t)
  {
    var p1 := p[t - 1 := p'[t - 1]];
    ValPut(p, t - 1, p'[t - 1], |p|);
    ValPut(p1, t, q, |p|);
    assert p' == p1[t := q];
    LimbAdd(p[t - 1], lo, t - 1);
    LimbSign(0, t);
  }

  lemma {:induction false} DownLimb(s: nat, t: nat, q: Word, r: nat, lo: Word)
    requires t > 0 && Up(lo, s) == BASE * r
    ensures Up(Limb(lo, t - 1) + Limb(q, t), s) == Limb(Up(q, s) + r, t)
  {
    UpAdd(Limb(lo, t - 1), Limb(q, t), s);
    LimbOfUp(lo, s, t - 1);
    LimbOfUp(q, s, t);
    LimbCarry(r, t - 1);
    LimbAdd(Up(q, s), r, t);
  }

  lemma {:induction false} DownDone(a: seq<Word>, p: seq<Word>, k: nat, s: nat, rest: nat, shift: nat)
    requires ShiftedDown(a, p, k, s, |a|, rest) && shift == 32 * k + s
    ensures Val(p) == Shr(Val(a), shift) == Val(a) / Pow2(shift)
  {
    LimbIsUp(Up(Val(p), s), k);
    UpUp(Val(p), s, 32 * k);
    LimbIsUp(Pow2(s), k);
    UpUp(1, s, 32 * k);
    SplitUnique(Val(p), rest, shift);
    UpIsProduct(Val(p), shift);
    DivModUnique(Val(a), Val(p), rest, Pow2(shift));
  }

  //////////////////////////////////////////////////////////////////////////////
  //
  // Products
  //
  //////////////////////////////////////////////////////////////////////////////

  /** The `i` lowest limbs of `a` times `b` are in `p` and the carry. */
  ghost predicate Scaled(a: seq<Word>, b: Word, p: seq<Word>, carry: Word, i: nat) {
    && |p| == |a| && i <= |p|
    && ValTo(p, i) + Limb(carry, i) == b * ValTo(a, i)
    && forall j | i <= j < |p| :: p[j] == a[j]
  }

  lemma {:induction false} ScaleStart(a: seq<Word>, b: Word)
    ensures Scaled(a, b, a, 0, 0)
  {
  }

  lemma {:induction false} ScaleStep(a: seq<Word>, b: Word, p: seq<Word>, carry: Word, i: nat, n: nat, p': seq<Word>)
    requires i < |p| && Scaled(a, b, p, carry, i)
    requires n == carry + b * a[i] && n < BASE * BASE && p' == p[i := n % BASE]
    ensures Scaled(a, b, p', n / BASE, i + 1)
  {
    ValPut(p, i, n % BASE, i);
    CarryOut(n, i);
    LimbAdd(carry, b * a[i], i);
    LimbTimes(b, a[i], i);
    Distribute(b, ValTo(a, i), Limb(a[i], i));
  }

  lemma {:induction false} Distribute(b: int, x: int, y: int)
    ensures b * (x + y) == b * x + b * y
  {
  }

  lemma {:induction false} ScaleDone(a: seq<Word>, b: Word, p: seq<Word>, carry: Word)
    requires Scaled(a, b, p, carry, |p|)
    ensures Val(p) == (Val(a) * b) % Modulus(|a|)
  {
    Wraps(Val(a) * b, carry, p);
  }

  /** A sum in a product fits into 64 bits. */
  lemma {:induction false} ProductFits(x: Word, y: Word, carry: Word, z: Word)
    ensures 0 <= carry + z + x * y < BASE * BASE
  {
    ProductBound(x, BASE - 1, y);
  }

  lemma {:induction false} ProductBound(x: nat, z: nat, y: nat)
    requires x <= z
    ensures x * y <= z * y
    decreases z - x
  {
    if x < z {
      ProductBound(x, z - 1, y);
    }
  }

  /** `p` is the product of the `j` lowest limbs of `a` and all of `b`, except for what is carried out. */
  ghost predicate Multiplied(a: seq<Word>, b: seq<Word>, p: seq<Word>, j: nat, over: int) {
    && |p| == |a| == |b| && j <= |a|
    && ValTo(a, j) * Val(b) == Val(p) + Limb(over, |p|)
  }

  lemma {:induction false} MultiplyStart(a: seq<Word>, b: seq<Word>, p: seq<Word>)
    requires |p| == |a| == |b| && forall i | 0 <= i < |p| :: p[i] == 0
    ensures Multiplied(a, b, p, 0, 0)
  {
    ValZero(p, 0, |p|);
    LimbSign(0, |p|);
  }

  /** To `p0`, the `i` lowest limbs of `b` times `x` have been added from limb `j` up, except for a carry into limb `i + j`. */
  ghost predicate RowAdded(x: Word, b: seq<Word>, p0: seq<Word>, p: seq<Word>, j: nat, i: nat, carry: Word) {
    && |p| == |p0| == |b| && i + j <= |p|
    && Val(p) + Limb(carry, i + j) == Val(p0) + Limb(x * ValTo(b, i), j)
    && forall k | i + j <= k < |p| :: p[k] == p0[k]
  }

  lemma {:induction false} RowStart(x: Word, b: seq<Word>, p: seq<Word>, j: nat)
    requires |p| == |b| && j <= |p|
    ensures RowAdded(x, b, p, p, j, 0, 0)
  {
    LimbSign(0, j);
  }

  lemma {:induction false} RowStep(x: Word, b: seq<Word>, p0: seq<Word>, p: seq<Word>, j: nat, i: nat, carry: Word, t: nat, n: nat, p': seq<Word>)
    requires RowAdded(x, b, p0, p, j, i, carry) && t == i + j < |p|
    requires n == carry + p[t] + x * b[i] && n < BASE * BASE && p' == p[t := n % BASE]
    ensures RowAdded(x, b, p0, p', j, i + 1, n / BASE)
  {
    ValPut(p, t, n % BASE, |p|);
    CarryOut(n, t);
    LimbAdd(carry + p[t], x * b[i], t);
    LimbAdd(carry, p[t], t);
    RowProduct(x, b, j, i, t);
  }

  lemma {:induction false} RowProduct(x: Word, b: seq<Word>, j: nat, i: nat, t: nat)
    requires i < |b| && t == i + j
    ensures Limb(x * ValTo(b, i + 1), j) == Limb(x * ValTo(b, i), j) + Limb(x * b[i], t)
  {
    Distribute(x, ValTo(b, i), Limb(b[i], i));
    LimbTimes(x, b[i], i);
    LimbAdd(x * ValTo(b, i), Limb(x * b[i], i), j);
    LimbLimb(x * b[i], i, j);
  }

  /** The limbs of `b` that a row leaves out only add to what is carried out of the top. */
  lemma {:induction false} RowRest(x: Word, b: seq<Word>, j: nat, i: nat, k: nat) returns (over: int)
    requires i <= k <= |b| && i + j == |b|
    ensures Limb(x * ValTo(b, k), j) == Limb(x * ValTo(b, i), j) + Limb(over, |b|)
    decreases k
  {
    if i == k {
      over := 0;
      LimbSign(0, |b|);
    } else {
      var lower := RowRest(x, b, j, i, k - 1);
      RowProduct(x, b, j, k - 1, k - 1 + j);
      LimbLimb(x * b[k - 1], k - 1 - i, |b|);
      over := lower + Limb(x * b[k - 1], k - 1 - i);
      LimbAdd(lower, over - lower, |b|);
    }
  }

  lemma {:induction false} RowDone(a: seq<Word>, b: seq<Word>, p0: seq<Word>, p: seq<Word>, j: nat, i: nat, carry: Word, over: int)
      returns (over': int)
    requires j < |a| && Multiplied(a, b, p0, j, over) && RowAdded(a[j], b, p0, p, j, i, carry) && i + j == |p|
    ensures Multiplied(a, b, p, j + 1, over')
  {
    var rest := RowRest(a[j], b, j, i, |b|);
    over' := over + rest + carry;
    LimbAdd(over + rest, carry, |p|);
    LimbAdd(over, rest, |p|);
    Distribute(Val(b), ValTo(a, j), Limb(a[j], j));
    LimbTimes(Val(b), a[j], j);
    assert Val(b) * a[j] == a[j] * Val(b);
  }

  lemma {:induction false} MultiplyDone(a: seq<Word>, b: seq<Word>, p: seq<Word>, over: int)
    requires Multiplied(a, b, p, |a|, over)
    ensures Val(p) == (Val(a) * Val(b)) % Modulus(|a|)
  {
    Wraps(Val(a) * Val(b), over, p);
  }

  //////////////////////////////////////////////////////////////////////////////
  //
  // The highest bit
  //
  //////////////////////////////////////////////////////////////////////////////

  predicate Bit(x: nat, t: nat) {
    Shr(x, t) % 2 == 1
  }

  /** Below two to the power of `t + 1`, bit `t` decides about reaching two to the power of `t`. */
  lemma {:induction false} TopBit(x: nat, t: nat)
    requires x < Pow2(t + 1)
    ensures Bit(x, t) <==> x >= Pow2(t)
  {
    Split(x, t);
    UpOrder(Shr(x, t), 2, t);
    UpUp(1, 1, t);
    assert Up(1, 1) == 2;
    if Shr(x, t) == 0 {
      UpSign(0, t);
    } else {
      assert Shr(x, t) == 1;
    }
  }

  /** `x` has `n` bits, leading zeros not counted. */
  ghost predicate HighBit(x: nat, n: nat) {
    if n == 0 then x == 0 else Pow2(n - 1) <= x < Pow2(n)
  }

  lemma {:induction false} HighBitUnique(x: nat, m: nat, n: nat)
    requires HighBit(x, m) && HighBit(x, n)
    ensures m == n
  {
    if m < n {
      UpMore(1, m, n - 1);
    } else if n < m {
      UpMore(1, n, m - 1);
    }
  }

  /** The highest bit of the highest limb that is not zero is the highest bit of the number. */
  lemma {:induction false} HighLimb(p: seq<Word>, pos: nat, t: nat)
    requires pos < |p| && (forall j | pos < j < |p| :: p[j] == 0) && Pow2(t) <= p[pos] < Pow2(t + 1)
    ensures HighBit(Val(p), 32 * pos + t + 1)
  {
    ValZero(p, pos + 1, |p|);
    ValBound(p, pos);
    LimbOrder(p[pos], Pow2(t), pos);
    LimbAdd(p[pos], 1, pos);
    LimbOrder(Pow2(t + 1), p[pos] as int + 1, pos);
    LimbIsUp(Pow2(t), pos);
    LimbIsUp(Pow2(t + 1), pos);
    UpUp(1, t, 32 * pos);
    UpUp(1, t + 1, 32 * pos);
  }

  /** No more than `32 * |p|` bits are needed. */
  lemma {:induction false} HighBitBound(p: seq<Word>, n: nat)
    requires HighBit(Val(p), n)
    ensures n <= 32 * |p|
  {
    ValBound(p, |p|);
    ModulusIsPow2(|p|);
    if n > 32 * |p| {
      UpMore(1, 32 * |p|, n - 1);
    }
  }

  //////////////////////////////////////////////////////////////////////////////
  //
  // Division
  //
  //////////////////////////////////////////////////////////////////////////////

  /** Bits of `p` below bit `t` are zero. */
  ghost predicate ZeroBelow(p: seq<Word>, t: nat) {
    forall j | 0 <= j < |p| && 32 * j < t :: Low(p[j], t - 32 * j) == 0
  }

  lemma {:induction false} ZerosBelow(p: seq<Word>, t: nat)
    requires forall j | 0 <= j < |p| :: p[j] == 0
    ensures ZeroBelow(p, t) && Val(p) == 0
  {
    forall j | 0 <= j < |p| && 32 * j < t ensures Low(p[j], t - 32 * j) == 0 {
      LowOfZero(t - 32 * j);
    }
    ValZero(p, 0, |p|);
  }

  lemma {:induction false} ZeroBelowLess(p: seq<Word>, t: nat)
    requires ZeroBelow(p, t + 1)
    ensures ZeroBelow(p, t)
  {
    forall j | 0 <= j < |p| && 32 * j < t ensures Low(p[j], t - 32 * j) == 0 {
      LowZero(p[j], t - 32 * j, t + 1 - 32 * j);
    }
  }

  /** Setting a bit below all others adds its value. */
  lemma {:induction false} SetBit(p: seq<Word>, k: nat, t: nat, shift: nat)
    requires k < |p| && t < 32 && shift == 32 * k + t && ZeroBelow(p, shift + 1)
    ensures var x := Or(p[k], Pow2(t));
            x < BASE && Val(p[k := x]) == Val(p) + Pow2(shift) && ZeroBelow(p[k := x], shift)
  {
    Up32(1);
    UpMore(1, t + 1, 32);
    OrBound(p[k], Pow2(t), 32);
    OrDisjoint(p[k], Pow2(t), t + 1);
    var x: Word := Or(p[k], Pow2(t));
    ValPut(p, k, x, |p|);
    LimbAdd(p[k], Pow2(t), k);
    LimbIsUp(Pow2(t), k);
    UpUp(1, t, 32 * k);
    ZeroBelowLess(p, shift);
    LowOfSum(p[k], t);
  }

  /**
  Long division by `b`, bit by bit from the top: `q` is the quotient and `num` what is left so far,
  with `bits` bits still to be decided.
  */
  ghost predicate Dividing(a: nat, b: nat, q: nat, num: nat, bits: nat) {
    a == q * b + num && num < Up(b, bits)
  }

  /** What aligns the highest bits of the divisor and the dividend. */
  lemma {:induction false} DivideStart(a: nat, b: nat, m: nat, n: nat)
    requires 0 < m <= n && HighBit(a, n) && HighBit(b, m)
    ensures 0 <= Up(b, n - m) < Pow2(n) && Dividing(a, b, 0, a, n - m + 1)
  {
    UpOrder(b, Pow2(m), n - m);
    UpUp(1, m, n - m);
    UpSign(b, n - m);
    UpUp(1, m - 1, n - m + 1);
    UpOrder(b, Pow2(m - 1), n - m + 1);
  }

  /** One bit of the quotient. */
  lemma {:induction false} DivideStep(a: nat, b: nat, q: nat, num: nat, shift: nat, q': nat, num': nat)
    requires Dividing(a, b, q, num, shift + 1)
    requires if num >= Up(b, shift) then q' == q + Pow2(shift) && num' == num - Up(b, shift) else q' == q && num' == num
    ensures Dividing(a, b, q', num', shift)
  {
    UpIsProduct(b, shift);
    Distribute(b, q, Pow2(shift));
    assert q * b == b * q && q' * b == b * q';
  }

  lemma {:induction false} DivideDone(a: nat, b: nat, q: nat, num: nat)
    requires Dividing(a, b, q, num, 0)
    ensures b > 0 && q == a / b && num == a % b
  {
    DivModUnique(a, q, num, b);
  }

  lemma {:induction false} Fits(x: nat, n: nat, w: nat)
    requires x < Pow2(n) && n <= 32 * w
    ensures x % Modulus(w) == x
  {
    ModulusIsPow2(w);
    UpMore(1, n, 32 * w);
    DivModUnique(x, 0, x, Modulus(w));
  }

  /** Subtracting no more than the value does not wrap. */
  lemma {:induction false} SmallMod(p: seq<Word>, x: nat)
    requires x <= Val(p)
    ensures (Val(p) - x) % Modulus(|p|) == Val(p) - x
  {
    ValBound(p, |p|);
    DivModUnique(Val(p) - x, 0, Val(p) - x, Modulus(|p|));
  }

  /** A divisor with more bits is greater. */
  lemma {:induction false} DivideByMore(a: nat, b: nat, m: nat, n: nat)
    requires n < m && HighBit(a, n) && HighBit(b, m)
    ensures b > 0 && a / b == 0
  {
    UpMore(1, n, m - 1);
    DivModUnique(a, 0, a, b);
  }

  /** The two lowest limbs are the value modulo two to the power of 64. */
  lemma {:induction false} LowLimbs(p: seq<Word>)
    requires |p| >= 2
    ensures Val(p) % (BASE * BASE) == p[0] + BASE * p[1]
  {
    var rest := AboveLimbs(p, |p|);
    TwoLimbs(p);
  }

  lemma {:induction false} TwoLimbs(p: seq<Word>)
    requires |p| >= 2
    ensures ValTo(p, 2) == p[0] + BASE * p[1]
  {
    assert Limb(p[1], 1) == BASE * Limb(p[1], 0);
    assert ValTo(p, 1) == p[0];
  }

  lemma {:induction false} AboveLimbs(p: seq<Word>, k: nat) returns (rest: int)
    requires 2 <= k <= |p|
    ensures ValTo(p, k) == ValTo(p, 2) + BASE * BASE * rest
    decreases k
  {
    if k == 2 {
      rest := 0;
    } else {
      var lower := AboveLimbs(p, k - 1);
      rest := lower + Limb(p[k - 1], k - 3);
      assert Limb(p[k - 1], k - 1) == BASE * Limb(p[k - 1], k - 2);
    }
  }
}
