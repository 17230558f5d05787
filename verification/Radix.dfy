/**
Numbers as digits, the highest first, in base 58 and base 256, and how many digits of the one base
the digits of the other need.
*/
module Radix {

  datatype Base = B58 | B256

  function Size(b: Base): nat {
    match b
    case B58 => 58
    case B256 => 256
  }

  function Other(b: Base): Base {
    match b
    case B58 => B256
    case B256 => B58
  }

  /** `x` times the size of the base. */
  function Times(b: Base, x: int): int {
    match b
    case B58 => 58 * x
    case B256 => 256 * x
  }

  predicate Digits(d: seq<nat>, b: Base) {
    forall i | 0 <= i < |d| :: d[i] < Size(b)
  }

  /** The number whose digits are the first `k` of `d`. */
  function NumberTo(d: seq<nat>, b: Base, k: nat): (n: nat)
    requires k <= |d|
    decreases d, k
  {
    if k == 0 then 0 else Times(b, NumberTo(d, b, k - 1)) + d[k - 1]
  }

  function Number(d: seq<nat>, b: Base): nat {
    NumberTo(d, b, |d|)
  }

  function Zeros(n: nat): (z: seq<nat>)
    ensures |z| == n && forall i | 0 <= i < n :: z[i] == 0
  {
    seq(n, _ => 0)
  }

  /** How many digits at the front of `d`, from place `k` on, are zero. */
  function ZerosFrom(d: seq<nat>, k: nat): (z: nat)
    requires k <= |d|
    ensures k + z <= |d| && (forall i | k <= i < k + z :: d[i] == 0) && (k + z < |d| ==> d[k + z] != 0)
    decreases |d| - k
  {
    if k < |d| && d[k] == 0 then 1 + ZerosFrom(d, k + 1) else 0
  }

  /** The digits of a number, without zeros at the front. */
  function ToDigits(n: nat, b: Base): (d: seq<nat>)
    decreases n
  {
    if n == 0 then [] else ToDigits(n / Size(b), b) + [n % Size(b)]
  }

  /** The same number in the other base, with as many zeros at the front. */
  function Convert(d: seq<nat>, from: Base): seq<nat> {
    Zeros(ZerosFrom(d, 0)) + ToDigits(Number(d, from), Other(from))
  }

  //////////////////////////////////////////////////////////////////////////////
  //
  // Digits are determined by their number
  //
  //////////////////////////////////////////////////////////////////////////////

  lemma {:induction false} NumberSame(d: seq<nat>, e: seq<nat>, b: Base, k: nat)
    requires k <= |d| && k <= |e| && forall i | 0 <= i < k :: d[i] == e[i]
    ensures NumberTo(d, b, k) == NumberTo(e, b, k)
    decreases k
  {
    if k > 0 {
      NumberSame(d, e, b, k - 1);
    }
  }

  /** Zeros at the front do not count. */
  lemma {:induction false} NumberFront(z: nat, e: seq<nat>, b: Base, k: nat, t: nat)
    requires k <= |e| && t == z + k
    ensures NumberTo(Zeros(z) + e, b, t) == NumberTo(e, b, k)
    decreases t
  {
    if k > 0 {
      NumberFront(z, e, b, k - 1, t - 1);
    } else if z > 0 {
      NumberSame(Zeros(z) + e, Zeros(z - 1) + e, b, t - 1);
      NumberFront(z - 1, e, b, 0, t - 1);
    }
  }

  lemma {:induction false} ToDigitsNumber(n: nat, b: Base)
    ensures Number(ToDigits(n, b), b) == n && Digits(ToDigits(n, b), b)
    ensures n > 0 ==> ToDigits(n, b)[0] != 0
    ensures |ToDigits(n, b)| > 0 <==> n > 0
    decreases n
  {
    if n > 0 {
      var q, x := n / Size(b), n % Size(b);
      ToDigitsNumber(q, b);
      QuotientAndRest(n, b);
      NumberAppend(ToDigits(q, b), x, b);
    }
  }

  lemma {:induction false} NumberAppend(d: seq<nat>, x: nat, b: Base)
    ensures Number(d + [x], b) == Times(b, Number(d, b)) + x
  {
    NumberSame(d + [x], d, b, |d|);
  }

  lemma {:induction false} QuotientAndRest(n: nat, b: Base)
    ensures Times(b, n / Size(b)) + n % Size(b) == n
  {
  }

  /** Digits without zeros at the front are those of their number. */
  lemma {:induction false} ToDigitsUnique(d: seq<nat>, b: Base)
    requires Digits(d, b) && (|d| > 0 ==> d[0] != 0)
    ensures d == ToDigits(Number(d, b), b)
    decreases |d|
  {
    if |d| > 0 {
      var e := d[..|d| - 1];
      ToDigitsUnique(e, b);
      NumberSame(d, e, b, |e|);
      Positive(d, b, |d|);
      assert Number(d, b) == Times(b, Number(e, b)) + d[|e|];
      assert Number(d, b) / Size(b) == Number(e, b);
    }
  }

  lemma {:induction false} Positive(d: seq<nat>, b: Base, k: nat)
    requires 0 < k <= |d| && d[0] != 0
    ensures NumberTo(d, b, k) > 0
    decreases k
  {
    if k > 1 {
      Positive(d, b, k - 1);
    }
  }

  /** Any digits are their zeros at the front followed by the digits of their number. */
  lemma {:induction false} FrontAndNumber(d: seq<nat>, b: Base)
    requires Digits(d, b)
    ensures d == Zeros(ZerosFrom(d, 0)) + ToDigits(Number(d, b), b)
  {
    var z := ZerosFrom(d, 0);
    var e := d[z..];
    assert d == Zeros(z) + e;
    NumberFront(z, e, b, |e|, |d|);
    ToDigitsUnique(e, b);
  }

  lemma {:induction false} ZerosCounted(d: seq<nat>, k: nat, z: nat)
    requires k <= z <= |d| && (forall i | k <= i < z :: d[i] == 0) && (z < |d| ==> d[z] != 0)
    ensures ZerosFrom(d, k) == z - k
    decreases z - k
  {
    if k < z {
      ZerosCounted(d, k + 1, z);
    }
  }

  /** What is made of `z` zeros and the digits of a number has that many zeros and that number. */
  lemma {:induction false} FrontOf(z: nat, n: nat, b: Base)
    ensures var d := Zeros(z) + ToDigits(n, b);
            ZerosFrom(d, 0) == z && Number(d, b) == n && Digits(d, b)
  {
    var e := ToDigits(n, b);
    var d := Zeros(z) + e;
    ToDigitsNumber(n, b);
    ZerosCounted(d, 0, z);
    NumberFront(z, e, b, |e|, |d|);
  }

  lemma {:induction false} ConvertBack(d: seq<nat>, from: Base)
    requires Digits(d, from)
    ensures Digits(Convert(d, from), Other(from))
    ensures Convert(Convert(d, from), Other(from)) == d
  {
    FrontOf(ZerosFrom(d, 0), Number(d, from), Other(from));
    FrontAndNumber(d, from);
  }

  //////////////////////////////////////////////////////////////////////////////
  //
  // How many digits are needed
  //
  //////////////////////////////////////////////////////////////////////////////

  function Pow(x: nat, n: nat): (p: nat)
    decreases n, x
  {
    if n == 0 then 1 else x * Pow(x, n - 1)
  }

  lemma {:induction false} PowPositive(x: nat, n: nat)
    requires x > 0
    ensures Pow(x, n) > 0
    decreases n
  {
    if n > 0 {
      PowPositive(x, n - 1);
    }
  }

  lemma {:induction false} PowAdd(x: nat, m: nat, n: nat, t: nat)
    requires t == m + n
    ensures Pow(x, t) == Pow(x, m) * Pow(x, n)
    decreases m
  {
    if m > 0 {
      PowAdd(x, m - 1, n, t - 1);
      Associate(x, Pow(x, m - 1), Pow(x, n));
    }
  }

  lemma {:induction false} Associate(x: int, y: int, z: int)
    ensures x * (y * z) == x * y * z
  {
  }

  lemma {:induction false} PowPow(x: nat, m: nat, n: nat, t: nat)
    requires t == m * n
    ensures Pow(Pow(x, m), n) == Pow(x, t)
    decreases n
  {
    if n > 0 {
      assert m * n == m + m * (n - 1);
      var s := m * (n - 1);
      PowPow(x, m, n - 1, s);
      PowAdd(x, m, s, t);
    }
  }

  lemma {:induction false} ProductOrder(x: nat, y: nat, u: nat, v: nat)
    requires x <= y && u <= v
    ensures x * u <= y * v
  {
    LeftOrder(x, y, u);
    LeftOrder(u, v, y);
    assert y * u == u * y && v * y == y * v;
  }

  lemma {:induction false} LeftOrder(x: nat, y: nat, z: nat)
    requires x <= y
    ensures x * z <= y * z
    decreases y - x
  {
    if x < y {
      LeftOrder(x, y - 1, z);
    }
  }

  lemma {:induction false} PowOrder(x: nat, y: nat, n: nat)
    requires x <= y
    ensures Pow(x, n) <= Pow(y, n)
    decreases n
  {
    if n > 0 {
      PowOrder(x, y, n - 1);
      ProductOrder(x, y, Pow(x, n - 1), Pow(y, n - 1));
    }
  }

  lemma {:induction false} PowStrict(x: nat, y: nat, n: nat)
    requires x < y && n > 0
    ensures Pow(x, n) < Pow(y, n)
    decreases n
  {
    PowOrder(x, y, n - 1);
    PowPositive(y, n - 1);
    ProductOrder(x, y - 1, Pow(x, n - 1), Pow(y, n - 1));
    assert y * Pow(y, n - 1) == (y - 1) * Pow(y, n - 1) + Pow(y, n - 1);
  }

  lemma {:induction false} PowMore(x: nat, m: nat, n: nat)
    requires x > 0 && m <= n
    ensures Pow(x, m) <= Pow(x, n)
  {
    PowAdd(x, m, n - m, n);
    PowPositive(x, n - m);
    LeftOrder(1, Pow(x, n - m), Pow(x, m));
  }

  lemma {:induction false} PowSwap(x: nat, m: nat, n: nat)
    ensures Pow(Pow(x, m), n) == Pow(Pow(x, n), m)
  {
    var t := m * n;
    PowPow(x, m, n, t);
    PowPow(x, n, m, t);
  }

  lemma {:induction false} RootOrder(x: nat, y: nat, n: nat)
    requires n > 0 && Pow(x, n) <= Pow(y, n)
    ensures x <= y
  {
    if y < x {
      PowStrict(y, x, n);
    }
  }

  lemma {:induction false} LeftPowers(x: nat, p: nat, y: nat, q: nat, k: nat, qk: nat)
    requires Pow(x, p) <= Pow(y, q) && qk == q * k
    ensures Pow(Pow(x, k), p) <= Pow(y, qk)
  {
    PowSwap(x, k, p);
    PowOrder(Pow(x, p), Pow(y, q), k);
    PowPow(y, q, k, qk);
  }

  lemma {:induction false} RightPowers(y: nat, m: nat, p: nat, qk: nat, mp: nat)
    requires y > 0 && qk <= mp && mp == m * p
    ensures Pow(y, qk) <= Pow(Pow(y, m), p)
  {
    PowMore(y, qk, mp);
    PowPow(y, m, p, mp);
  }

  /** If `p` digits in base `x` fit into `q` in base `y`, then `k` fit into any number in that proportion. */
  lemma {:induction false} Proportion(x: nat, p: nat, y: nat, q: nat, k: nat, m: nat)
    requires y > 0 && p > 0 && Pow(x, p) <= Pow(y, q) && q * k <= m * p
    ensures Pow(x, k) <= Pow(y, m)
  {
    LeftPowers(x, p, y, q, k, q * k);
    RightPowers(y, m, p, q * k, m * p);
    RootOrder(Pow(x, k), Pow(y, m), p);
  }

  lemma {:induction false} EightBytes()
    ensures Pow(256, 8) <= Pow(58, 11)
  {
  }

  lemma {:induction false} SeventyOneCharacters()
    ensures Pow(58, 71) <= Pow(256, 52)
  {
    assert Pow(58, 8) == 128063081718016 && Pow(58, 9) == 7427658739644928;
    PowAdd(58, 9, 8, 17);
    PowAdd(58, 9, 9, 18);
    PowAdd(58, 18, 17, 35);
    PowAdd(58, 18, 18, 36);
    PowAdd(58, 36, 35, 71);
    assert Pow(256, 13) == 20282409603651670423947251286016;
    PowAdd(256, 13, 13, 26);
    PowAdd(256, 26, 26, 52);
  }

  /** How many digits are set aside for `k` digits in base `from`. */
  function Room(from: Base, k: nat): nat {
    match from
    case B58 => k * 733 / 1000 + 1
    case B256 => k * 138 / 100 + 1
  }

  /** The estimates of the buffer sizes suffice. */
  lemma {:induction false} RoomSuffices(from: Base, k: nat)
    ensures Pow(Size(from), k) <= Pow(Size(Other(from)), Room(from, k))
  {
    match from
    case B256 =>
      EightBytes();
      Proportion(256, 8, 58, 11, k, Room(from, k));
    case B58 =>
      SeventyOneCharacters();
      Proportion(58, 71, 256, 52, k, Room(from, k));
  }

  lemma {:induction false} NumberBound(d: seq<nat>, b: Base, k: nat)
    requires k <= |d| && Digits(d, b)
    ensures NumberTo(d, b, k) < Pow(Size(b), k)
    decreases k
  {
    if k > 0 {
      NumberBound(d, b, k - 1);
    }
  }

  //////////////////////////////////////////////////////////////////////////////
  //
  // Multiplying digits by the other base and adding one more digit
  //
  //////////////////////////////////////////////////////////////////////////////

  /** The number `high`, followed by the digits of `d` from place `i` on. */
  function Followed(high: nat, d: seq<nat>, b: Base, i: nat): nat
    requires i <= |d|
    decreases |d| - i
  {
    if i == |d| then high else Followed(Times(b, high) + d[i], d, b, i + 1)
  }

  lemma {:induction false} FollowedNumber(d: seq<nat>, b: Base, i: nat)
    requires i <= |d|
    ensures Followed(NumberTo(d, b, i), d, b, i) == Number(d, b)
    decreases |d| - i
  {
    if i < |d| {
      FollowedNumber(d, b, i + 1);
    }
  }

  lemma {:induction false} FollowedSame(high: nat, d: seq<nat>, e: seq<nat>, b: Base, i: nat)
    requires i <= |d| == |e| && forall j | i <= j < |d| :: d[j] == e[j]
    ensures Followed(high, d, b, i) == Followed(high, e, b, i)
    decreases |d| - i
  {
    if i < |d| {
      FollowedSame(Times(b, high) + d[i], d, e, b, i + 1);
    }
  }

  lemma {:induction false} FollowedBound(high: nat, d: seq<nat>, b: Base, i: nat)
    requires i <= |d| && high > 0
    ensures Followed(high, d, b, i) >= high * Pow(Size(b), |d| - i)
    decreases |d| - i
  {
    if i < |d| {
      var next := Times(b, high) + d[i];
      FollowedBound(next, d, b, i + 1);
      var p := Pow(Size(b), |d| - i - 1);
      LeftOrder(Times(b, high), next, p);
      Associate(high, Size(b), p);
      assert Times(b, high) == high * Size(b);
    }
  }

  /** The places of `d` from `i` on hold what they should of the product of `old` and the other base, plus `ch`. */
  ghost predicate Multiplied(old': seq<nat>, ch: nat, d: seq<nat>, b: Base, carry: nat, i: nat) {
    && i <= |d| == |old'| && Digits(d, b) && carry < Size(Other(b))
    && (forall j | 0 <= j < i :: d[j] == old'[j])
    && Followed(carry + Times(Other(b), NumberTo(old', b, i)), d, b, i) == Times(Other(b), Number(old', b)) + ch
  }

  lemma {:induction false} MultiplyStart(d: seq<nat>, ch: nat, b: Base)
    requires Digits(d, b) && ch < Size(Other(b))
    ensures Multiplied(d, ch, d, b, ch, |d|)
  {
  }

  lemma {:induction false} MultiplyStep(old': seq<nat>, ch: nat, d: seq<nat>, b: Base, carry: nat, i: nat, n: nat, d': seq<nat>)
    requires i < |d| && Multiplied(old', ch, d, b, carry, i + 1)
    requires n == carry + Times(Other(b), d[i]) && d' == d[i := n % Size(b)]
    ensures Multiplied(old', ch, d', b, n / Size(b), i)
  {
    var high := n / Size(b) + Times(Other(b), NumberTo(old', b, i));
    assert Times(b, high) + d'[i] == carry + Times(Other(b), NumberTo(old', b, i + 1));
    FollowedSame(Times(b, high) + d'[i], d, d', b, i + 1);
  }

  /** Nothing is carried out of the front if there is room for the product. */
  lemma {:induction false} MultiplyDone(old': seq<nat>, ch: nat, d: seq<nat>, b: Base, carry: nat)
    requires Multiplied(old', ch, d, b, carry, 0) && Times(Other(b), Number(old', b)) + ch < Pow(Size(b), |d|)
    ensures carry == 0 && Number(d, b) == Times(Other(b), Number(old', b)) + ch
  {
    if carry > 0 {
      FollowedBound(carry, d, b, 0);
      LeftOrder(1, carry, Pow(Size(b), |d|));
    }
    FollowedNumber(d, b, 0);
  }
}
