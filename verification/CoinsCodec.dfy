/**
The form in which the unspent outputs of a transaction are stored: version, header code, a bit for
every output but the first two, the unspent outputs, and the height.
*/
module CoinsCodec {
  import opened ArithBits
  import opened ArithSteps
  import opened CoinsViews
  import opened Compressor
  import opened VarInt

  const NullOut := TxOut(NULL_VALUE, [])

  predicate Avail(vout: seq<TxOut>, i: nat) {
    i < |vout| && !vout[i].IsNull()
  }

  //////////////////////////////////////////////////////////////////////////////
  //
  // The mask
  //
  //////////////////////////////////////////////////////////////////////////////

  /** `n` bits, the lowest for output `from`. */
  function MaskBits(vout: seq<TxOut>, from: nat, n: nat): nat
    decreases n, vout
  {
    if n == 0 then 0 else (if Avail(vout, from) then 1 else 0) + 2 * MaskBits(vout, from + 1, n - 1)
  }

  lemma {:induction false} MaskBound(vout: seq<TxOut>, from: nat, n: nat)
    ensures MaskBits(vout, from, n) < Pow2(n)
    decreases n
  {
    if n > 0 {
      MaskBound(vout, from + 1, n - 1);
    }
  }

  lemma {:induction false} MaskBit(vout: seq<TxOut>, from: nat, n: nat, p: nat)
    requires p < n
    ensures Bit(MaskBits(vout, from, n), p) <==> Avail(vout, from + p)
    decreases n
  {
    if p > 0 {
      MaskBit(vout, from + 1, n - 1, p - 1);
    }
    Half(if Avail(vout, from) then 1 else 0, MaskBits(vout, from + 1, n - 1));
  }

  lemma {:induction false} Half(bit: nat, x: nat)
    requires bit <= 1
    ensures (bit + 2 * x) / 2 == x && (bit + 2 * x) % 2 == bit
  {
  }

  /** A mask is zero if no output has a bit in it. */
  lemma {:induction false} MaskZero(vout: seq<TxOut>, from: nat, n: nat)
    ensures MaskBits(vout, from, n) == 0 <==> forall i | from <= i < from + n :: !Avail(vout, i)
    decreases n
  {
    if n > 0 {
      MaskZero(vout, from + 1, n - 1);
    }
  }

  function MaskByte(vout: seq<TxOut>, b: nat): Byte {
    MaskBound(vout, 2 + b * 8, 8);
    Up8(1);
    MaskBits(vout, 2 + b * 8, 8)
  }

  /** How many bytes have bits for outputs at all. */
  function ByteCount(vout: seq<TxOut>): nat {
    if |vout| <= 2 then 0 else (|vout| - 2 + 7) / 8
  }

  /** One more than the last of the first `k` bytes that is not zero. */
  function MaskEnd(vout: seq<TxOut>, k: nat): (e: nat)
    ensures e <= k && (e > 0 ==> MaskByte(vout, e - 1) != 0)
    ensures forall b | e <= b < k :: MaskByte(vout, b) == 0
  {
    if k == 0 then 0 else if MaskByte(vout, k - 1) != 0 then k else MaskEnd(vout, k - 1)
  }

  /** The bytes of the mask, up to the last that is not zero. */
  function Mask(vout: seq<TxOut>): (m: seq<Byte>)
    ensures |m| == MaskEnd(vout, ByteCount(vout))
  {
    seq(MaskEnd(vout, ByteCount(vout)), b requires 0 <= b => MaskByte(vout, b))
  }

  /** How many of the first `k` bytes are not zero. */
  function NonzeroTo(m: seq<Byte>, k: nat): nat
    requires k <= |m|
    decreases m, k
  {
    if k == 0 then 0 else NonzeroTo(m, k - 1) + if m[k - 1] != 0 then 1 else 0
  }

  function Nonzero(m: seq<Byte>): nat {
    NonzeroTo(m, |m|)
  }

  /** Read bytes until so many are not zero. */
  function ReadMask(s: seq<Byte>, nMaskCode: nat): Read<seq<Byte>>
    decreases |s|
  {
    if nMaskCode == 0 then Got([], s)
    else if s == [] then Failed
    else
      match ReadMask(s[1..], if s[0] != 0 then nMaskCode - 1 else nMaskCode)
      case Failed => Failed
      case Got(m, rest) => Got([s[0]] + m, rest)
  }

  lemma {:induction false} NonzeroMore(m: seq<Byte>, j: nat, k: nat)
    requires j <= k <= |m|
    ensures NonzeroTo(m, j) <= NonzeroTo(m, k)
    ensures j < k && m[k - 1] != 0 ==> NonzeroTo(m, j) < NonzeroTo(m, k)
    decreases k
  {
    if j < k {
      NonzeroMore(m, j, k - 1);
    }
  }

  /** The number of bytes that are not zero alone determines where the mask ends. */
  lemma {:induction false} MaskFound(m: seq<Byte>, k: nat, rest: seq<Byte>, left: nat)
    requires k <= |m| && (|m| > 0 ==> m[|m| - 1] != 0) && left == Nonzero(m) - NonzeroTo(m, k)
    ensures ReadMask(m[k..] + rest, left) == Got(m[k..], rest)
    decreases |m| - k
  {
    NonzeroMore(m, k, |m|);
    var s := m[k..] + rest;
    if k == |m| {
      assert s == rest;
    } else {
      assert s[0] == m[k] && s[1..] == m[k + 1..] + rest;
      assert [m[k]] + m[k + 1..] == m[k..];
      MaskFound(m, k + 1, rest, if m[k] != 0 then left - 1 else left);
    }
  }

  lemma {:induction false} MaskRoundTrip(m: seq<Byte>, rest: seq<Byte>)
    requires |m| > 0 ==> m[|m| - 1] != 0
    ensures ReadMask(m + rest, Nonzero(m)) == Got(m, rest)
  {
    assert m[0..] == m;
    MaskFound(m, 0, rest, Nonzero(m));
  }

  /** Which outputs are unspent, according to the header code and the mask. */
  function Availability(first: bool, second: bool, m: seq<Byte>): (a: seq<bool>)
    ensures |a| == 2 + 8 * |m|
  {
    seq(2 + 8 * |m|, i requires 0 <= i < 2 + 8 * |m| =>
      if i == 0 then first else if i == 1 then second else Bit(m[(i - 2) / 8], (i - 2) % 8))
  }

  lemma {:induction false} AvailabilityAt(vout: seq<TxOut>, i: nat, b: nat, p: nat)
    requires b < |Mask(vout)| && p < 8 && i == 2 + 8 * b + p
    ensures Bit(Mask(vout)[b], p) <==> Avail(vout, i)
  {
    MaskBit(vout, 2 + b * 8, 8, p);
  }

  /** Bit `p` of byte `b` of the mask, counted from the lowest, is that of output 2 + 8 * b + p. */
  lemma {:induction false} MaskBitsAre(vout: seq<TxOut>, b: nat, p: nat)
    requires b < |Mask(vout)| && p < 8
    ensures Mask(vout)[b] / [1, 2, 4, 8, 16, 32, 64, 128][p] % 2 == 1 <==>
              2 + 8 * b + p < |vout| && vout[2 + 8 * b + p].nValue != -1
  {
    AvailabilityAt(vout, 2 + 8 * b + p, b, p);
    BitIs(Mask(vout)[b], p);
  }

  lemma {:induction false} BitIs(x: nat, p: nat)
    requires p < 8
    ensures Bit(x, p) <==> x / [1, 2, 4, 8, 16, 32, 64, 128][p] % 2 == 1
  {
    if p > 0 {
      BitIs(x / 2, p - 1);
    }
  }

  lemma {:induction false} NoneAvailable(vout: seq<TxOut>, i: nat)
    requires 2 + 8 * |Mask(vout)| <= i
    ensures !Avail(vout, i)
  {
    if i < |vout| {
      var b := (i - 2) / 8;
      assert MaskByte(vout, b) == 0;
      MaskZero(vout, 2 + b * 8, 8);
    }
  }

  lemma {:induction false} AvailabilityRight(vout: seq<TxOut>)
    ensures var a := Availability(Avail(vout, 0), Avail(vout, 1), Mask(vout));
            && (forall i | 0 <= i < |a| :: a[i] <==> Avail(vout, i))
            && (forall i | |a| <= i :: !Avail(vout, i))
    ensures forall i: nat :: Avail(vout, i) <==> i < |vout| && vout[i].nValue != -1
  {
    var a := Availability(Avail(vout, 0), Avail(vout, 1), Mask(vout));
    forall i | 2 <= i < |a| ensures a[i] <==> Avail(vout, i) {
      AvailabilityAt(vout, i, (i - 2) / 8, (i - 2) % 8);
    }
    forall i | |a| <= i ensures !Avail(vout, i) {
      NoneAvailable(vout, i);
    }
  }

  //////////////////////////////////////////////////////////////////////////////
  //
  // The outputs
  //
  //////////////////////////////////////////////////////////////////////////////

  ghost predicate AllStorable(vout: seq<TxOut>) {
    forall i | 0 <= i < |vout| && !vout[i].IsNull() :: Storable(vout[i])
  }

  /** The unspent outputs from place `i` on. */
  function OutBytes(vout: seq<TxOut>, i: nat, curve: Curve): seq<Byte>
    requires AllStorable(vout)
    decreases |vout| - i
  {
    if i >= |vout| then []
    else (if vout[i].IsNull() then [] else TxOutBytes(vout[i], curve)) + OutBytes(vout, i + 1, curve)
  }

  function ReadOuts(s: seq<Byte>, a: seq<bool>, i: nat, curve: Curve): Read<seq<TxOut>>
    requires i <= |a|
    decreases |a| - i
  {
    if i == |a| then Got([], s)
    else
      var r := if a[i] then ReadTxOut(s, curve) else Got(NullOut, s);
      match r
      case Failed => Failed
      case Got(o, rest) =>
        match ReadOuts(rest, a, i + 1, curve)
        case Failed => Failed
        case Got(os, rest') => Got([o] + os, rest')
  }

  /** `n` outputs from place `i` on, those spent as null outputs. */
  function Normal(vout: seq<TxOut>, i: nat, n: nat): (r: seq<TxOut>)
    ensures |r| == n && forall j | 0 <= j < n :: r[j] == if Avail(vout, i + j) then vout[i + j] else NullOut
  {
    seq(n, j requires 0 <= j => if Avail(vout, i + j) then vout[i + j] else NullOut)
  }

  lemma {:induction false} NoOuts(vout: seq<TxOut>, i: nat, curve: Curve)
    requires AllStorable(vout) && forall j | i <= j :: !Avail(vout, j)
    ensures OutBytes(vout, i, curve) == []
    decreases |vout| - i
  {
    if i < |vout| {
      assert !Avail(vout, i);
      NoOuts(vout, i + 1, curve);
    }
  }

  /** Outputs are marked exactly if they are unspent. */
  ghost predicate Marks(a: seq<bool>, vout: seq<TxOut>) {
    && (forall j | 0 <= j < |a| :: a[j] <==> Avail(vout, j))
    && forall j | |a| <= j :: !Avail(vout, j)
  }

  lemma {:induction false} OutsRoundTrip(vout: seq<TxOut>, a: seq<bool>, i: nat, rest: seq<Byte>, curve: Curve)
    requires Lawful(curve) && AllStorable(vout) && i <= |a| && Marks(a, vout)
    ensures ReadOuts(OutBytes(vout, i, curve) + rest, a, i, curve) == Got(Normal(vout, i, |a| - i), rest)
    decreases |a| - i
  {
    if i == |a| {
      OutsEnd(vout, a, i, rest, curve);
    } else {
      OutsRoundTrip(vout, a, i + 1, rest, curve);
      OutsStep(vout, a, i, rest, curve);
    }
  }

  lemma {:induction false} OutsEnd(vout: seq<TxOut>, a: seq<bool>, i: nat, rest: seq<Byte>, curve: Curve)
    requires AllStorable(vout) && i == |a| && Marks(a, vout)
    ensures ReadOuts(OutBytes(vout, i, curve) + rest, a, i, curve) == Got(Normal(vout, i, |a| - i), rest)
  {
    NoOuts(vout, i, curve);
    assert OutBytes(vout, i, curve) + rest == rest;
  }

  lemma {:induction false} OutsStep(vout: seq<TxOut>, a: seq<bool>, i: nat, rest: seq<Byte>, curve: Curve)
    requires Lawful(curve) && AllStorable(vout) && i < |a| && (a[i] <==> Avail(vout, i))
    requires ReadOuts(OutBytes(vout, i + 1, curve) + rest, a, i + 1, curve) == Got(Normal(vout, i + 1, |a| - (i + 1)), rest)
    ensures ReadOuts(OutBytes(vout, i, curve) + rest, a, i, curve) == Got(Normal(vout, i, |a| - i), rest)
  {
    var after := OutBytes(vout, i + 1, curve) + rest;
    var o := if Avail(vout, i) then vout[i] else NullOut;
    OutRead(vout, a, i, rest, after, curve);
    OutsRead(OutBytes(vout, i, curve) + rest, a, i, o, after, curve);
    NormalFirst(vout, i, o, |a| - (i + 1));
  }

  lemma {:induction false} OutsRead(s: seq<Byte>, a: seq<bool>, i: nat, o: TxOut, after: seq<Byte>, curve: Curve)
    requires i < |a|
    requires if a[i] then ReadTxOut(s, curve) == Got(o, after) else o == NullOut && s == after
    ensures ReadOuts(s, a, i, curve) ==
            match ReadOuts(after, a, i + 1, curve)
            case Failed => Failed
            case Got(os, rest) => Got([o] + os, rest)
  {
  }

  lemma {:induction false} NormalFirst(vout: seq<TxOut>, i: nat, o: TxOut, n: nat)
    requires o == if Avail(vout, i) then vout[i] else NullOut
    ensures Normal(vout, i, n + 1) == [o] + Normal(vout, i + 1, n)
  {
    var tail := Normal(vout, i + 1, n);
    forall j | 0 <= j <= n ensures Normal(vout, i, n + 1)[j] == ([o] + tail)[j] {
      if j > 0 {
        assert tail[j - 1] == if Avail(vout, i + j) then vout[i + j] else NullOut;
      }
    }
  }

  lemma {:induction false} OutRead(vout: seq<TxOut>, a: seq<bool>, i: nat, rest: seq<Byte>, os: seq<Byte>, curve: Curve)
    requires Lawful(curve) && AllStorable(vout) && i < |a| && (a[i] <==> Avail(vout, i))
    requires os == OutBytes(vout, i + 1, curve) + rest
    ensures var s := OutBytes(vout, i, curve) + rest;
            if a[i] then ReadTxOut(s, curve) == Got(vout[i], os) else s == os
  {
    if a[i] {
      Regroup(TxOutBytes(vout[i], curve), OutBytes(vout, i + 1, curve), rest);
      TxOutRoundTrip(vout[i], os, curve);
    } else if i < |vout| {
      NullSkipped(vout, i, curve);
    }
  }

  lemma {:induction false} NullSkipped(vout: seq<TxOut>, i: nat, curve: Curve)
    requires AllStorable(vout) && i < |vout| && vout[i].IsNull()
    ensures OutBytes(vout, i, curve) == OutBytes(vout, i + 1, curve)
  {
  }

  //////////////////////////////////////////////////////////////////////////////
  //
  // Coins
  //
  //////////////////////////////////////////////////////////////////////////////

  function Flag(b: bool, n: nat): nat {
    if b then n else 0
  }

  /** The header code. */
  function HeaderCode(c: Coins): nat
    requires !c.IsPruned()
  {
    SomeAvailable(c);
    var fFirst, fSecond := Avail(c.vout, 0), Avail(c.vout, 1);
    16 * (Nonzero(Mask(c.vout)) - if fFirst || fSecond then 0 else 1)
    + Flag(c.fCoinBase, 1) + Flag(c.fCoinStake, 2) + Flag(fFirst, 4) + Flag(fSecond, 8)
  }

  /** The assertion in Serialize: one of the first two outputs is unspent, or the mask has a byte that is not zero. */
  lemma {:induction false} SomeAvailable(c: Coins)
    requires !c.IsPruned()
    ensures Avail(c.vout, 0) || Avail(c.vout, 1) || Nonzero(Mask(c.vout)) > 0
  {
    var m := Mask(c.vout);
    if |m| == 0 {
      var i :| 0 <= i < |c.vout| && !c.vout[i].IsNull();
      if i >= 2 {
        NoneAvailable(c.vout, i);
      }
      assert Avail(c.vout, i);
    } else {
      NonzeroMore(m, 0, |m|);
    }
  }

  function CoinsBytes(c: Coins, curve: Curve): seq<Byte>
    requires !c.IsPruned() && AllStorable(c.vout)
  {
    SignedBytes(c.nVersion) + (Bytes(HeaderCode(c)) + (Mask(c.vout) + (OutBytes(c.vout, 0, curve) + SignedBytes(c.nHeight))))
  }

  function ReadCoins(s: seq<Byte>, curve: Curve): Read<Coins> {
    match ReadSigned(s)
    case Failed => Failed
    case Got(version, s1) =>
      match ReadVarInt(s1, U32)
      case Failed => Failed
      case Got(nCode, s2) => ReadBody(s2, version, nCode, curve)
  }

  /** What follows the version and the header code. */
  function ReadBody(s: seq<Byte>, version: int, nCode: nat, curve: Curve): Read<Coins> {
    var fFirst, fSecond := nCode / 4 % 2 == 1, nCode / 8 % 2 == 1;
    match ReadMask(s, nCode / 16 + if fFirst || fSecond then 0 else 1)
    case Failed => Failed
    case Got(m, s3) => ReadRest(s3, Coins(nCode % 2 == 1, nCode / 2 % 2 == 1, [], 0, version), Availability(fFirst, fSecond, m), curve)
  }

  /** The outputs and the height. */
  function ReadRest(s: seq<Byte>, header: Coins, a: seq<bool>, curve: Curve): Read<Coins> {
    match ReadOuts(s, a, 0, curve)
    case Failed => Failed
    case Got(vout, s4) =>
      match ReadSigned(s4)
      case Failed => Failed
      case Got(height, s5) => Got(header.(vout := vout, nHeight := height).Cleanup(), s5)
  }

  /** The coins without spent outputs at the end, and null outputs in place of the other spent ones. */
  function Restored(c: Coins): Coins {
    c.(vout := Normal(c.vout, 0, |c.vout|)).Cleanup()
  }

  /** If spent outputs are null outputs, nothing but those at the end is lost. */
  lemma {:induction false} RestoredIsCleanup(c: Coins)
    requires forall i | 0 <= i < |c.vout| && c.vout[i].IsNull() :: c.vout[i] == NullOut
    ensures Restored(c) == c.Cleanup()
  {
    assert Normal(c.vout, 0, |c.vout|) == c.vout;
  }

  lemma {:induction false} CleanupKeeps(c: Coins)
    ensures c.Cleanup() == c.(vout := c.Cleanup().vout)
    decreases |c.vout|
  {
    if c.vout != [] && c.vout[|c.vout| - 1].IsNull() {
      CleanupKeeps(c.(vout := c.vout[..|c.vout| - 1]));
    }
  }

  /** How many null outputs there are at the end makes no difference. */
  lemma {:induction false} CleanupSame(c: Coins, vout: seq<TxOut>, m: nat, n: nat)
    requires forall i | m <= i || n <= i :: !Avail(vout, i)
    ensures c.(vout := Normal(vout, 0, m)).Cleanup() == c.(vout := Normal(vout, 0, n)).Cleanup()
  {
    var k := CleanedTo(c, vout, m);
    var l := CleanedTo(c, vout, n);
    LengthsAgree(vout, k, l);
  }

  /** Only the last unspent output determines what is left. */
  lemma {:induction false} CleanedTo(c: Coins, vout: seq<TxOut>, n: nat) returns (k: nat)
    requires forall i | n <= i :: !Avail(vout, i)
    ensures c.(vout := Normal(vout, 0, n)).Cleanup() == c.(vout := Normal(vout, 0, k))
    ensures (k > 0 ==> Avail(vout, k - 1)) && forall i | k <= i :: !Avail(vout, i)
  {
    var a := c.(vout := Normal(vout, 0, n));
    CleanupKeeps(a);
    CleanLength(vout, n, a.Cleanup().vout);
    k := |a.Cleanup().vout|;
    assert a.Cleanup().vout == Normal(vout, 0, k);
  }

  lemma {:induction false} LengthsAgree(vout: seq<TxOut>, k: nat, l: nat)
    requires (k > 0 ==> Avail(vout, k - 1)) && (l > 0 ==> Avail(vout, l - 1))
    requires (forall i | k <= i :: !Avail(vout, i)) && forall i | l <= i :: !Avail(vout, i)
    ensures k == l
  {
  }

  lemma {:induction false} CleanLength(vout: seq<TxOut>, n: nat, p: seq<TxOut>)
    requires p <= Normal(vout, 0, n) && (p != [] ==> !p[|p| - 1].IsNull())
    requires forall i | |p| <= i < n :: Normal(vout, 0, n)[i].IsNull()
    requires forall i | n <= i :: !Avail(vout, i)
    ensures |p| > 0 ==> Avail(vout, |p| - 1)
    ensures forall i | |p| <= i :: !Avail(vout, i)
  {
    forall i | |p| <= i ensures !Avail(vout, i) {
      if i < n {
        assert Normal(vout, 0, n)[i].IsNull();
      }
    }
  }

  lemma {:induction false} Halves(x: nat)
    ensures x / 4 == x / 2 / 2 && x / 8 == x / 2 / 2 / 2 && x / 16 == x / 2 / 2 / 2 / 2
  {
  }

  lemma {:induction false} HeaderCodeFields(n: nat, coinbase: bool, stake: bool, first: bool, second: bool, code: nat)
    requires code == 16 * n + Flag(coinbase, 1) + Flag(stake, 2) + Flag(first, 4) + Flag(second, 8)
    ensures code / 16 == n && (code / 4 % 2 == 1) == first && (code / 8 % 2 == 1) == second
    ensures (code % 2 == 1) == coinbase && (code / 2 % 2 == 1) == stake
  {
    Halves(code);
    var x3 := Flag(second, 1) + 2 * n;
    var x2 := Flag(first, 1) + 2 * x3;
    var x1 := Flag(stake, 1) + 2 * x2;
    Half(Flag(second, 1), n);
    Half(Flag(first, 1), x3);
    Half(Flag(stake, 1), x2);
    Half(Flag(coinbase, 1), x1);
    assert code == Flag(coinbase, 1) + 2 * x1;
  }

  predicate Int32(n: int) {
    -0x8000_0000 <= n < 0x8000_0000
  }

  /** The coins as they are read back: a negative version or height is not. */
  function ReadBackCoins(c: Coins): Coins {
    Restored(c.(nVersion := ReadBack(c.nVersion), nHeight := ReadBack(c.nHeight)))
  }

  lemma {:induction false} RestRead(s: seq<Byte>, header: Coins, a: seq<bool>, vout: seq<TxOut>, after: seq<Byte>,
                                    height: int, rest: seq<Byte>, curve: Curve)
    requires ReadOuts(s, a, 0, curve) == Got(vout, after) && ReadSigned(after) == Got(height, rest)
    ensures ReadRest(s, header, a, curve) == Got(header.(vout := vout, nHeight := height).Cleanup(), rest)
  {
  }

  lemma {:induction false} RestRoundTrip(c: Coins, header: Coins, a: seq<bool>, rest: seq<Byte>, curve: Curve)
    requires Lawful(curve) && AllStorable(c.vout) && Int32(c.nHeight) && Marks(a, c.vout)
    requires header == c.(vout := [], nHeight := 0, nVersion := ReadBack(c.nVersion))
    ensures ReadRest(OutBytes(c.vout, 0, curve) + (SignedBytes(c.nHeight) + rest), header, a, curve) == Got(ReadBackCoins(c), rest)
  {
    var after := SignedBytes(c.nHeight) + rest;
    OutsRoundTrip(c.vout, a, 0, after, curve);
    SignedRoundTrip(c.nHeight, rest);
    RestRead(OutBytes(c.vout, 0, curve) + after, header, a, Normal(c.vout, 0, |a|), after, ReadBack(c.nHeight), rest, curve);
    CleanupSame(c.(nVersion := ReadBack(c.nVersion), nHeight := ReadBack(c.nHeight)), c.vout, |a|, |c.vout|);
  }

  lemma {:induction false} BodyRead(s: seq<Byte>, version: int, nCode: nat, m: seq<Byte>, outs: seq<Byte>, curve: Curve)
    requires ReadMask(s, nCode / 16 + if nCode / 4 % 2 == 1 || nCode / 8 % 2 == 1 then 0 else 1) == Got(m, outs)
    ensures ReadBody(s, version, nCode, curve)
         == ReadRest(outs, Coins(nCode % 2 == 1, nCode / 2 % 2 == 1, [], 0, version),
                     Availability(nCode / 4 % 2 == 1, nCode / 8 % 2 == 1, m), curve)
  {
  }

  /** The header code says of the coins what it should. */
  ghost predicate Codes(code: nat, c: Coins) {
    && code / 16 + (if code / 4 % 2 == 1 || code / 8 % 2 == 1 then 0 else 1) == Nonzero(Mask(c.vout))
    && (code / 4 % 2 == 1) == Avail(c.vout, 0) && (code / 8 % 2 == 1) == Avail(c.vout, 1)
    && (code % 2 == 1) == c.fCoinBase && (code / 2 % 2 == 1) == c.fCoinStake
  }

  /**
  The header code: bit 0 for a coinbase, bit 1 for a coinstake, bits 2 and 3 for the first two
  outputs, and above them the number of bytes of the mask that are not zero, less one if neither
  of the two is unspent.
  */
  lemma {:induction false} HeaderRead(c: Coins)
    requires !c.IsPruned()
    ensures Codes(HeaderCode(c), c)
    ensures var code := HeaderCode(c);
            var first, second := |c.vout| > 0 && c.vout[0].nValue != -1, |c.vout| > 1 && c.vout[1].nValue != -1;
            && (c.fCoinBase <==> code % 2 == 1) && (c.fCoinStake <==> code / 2 % 2 == 1)
            && (first <==> code / 4 % 2 == 1) && (second <==> code / 8 % 2 == 1)
            && code / 16 == Nonzero(Mask(c.vout)) - if first || second then 0 else 1
  {
    SomeAvailable(c);
    var fFirst, fSecond := Avail(c.vout, 0), Avail(c.vout, 1);
    var n := Nonzero(Mask(c.vout)) - if fFirst || fSecond then 0 else 1;
    HeaderCodeFields(n, c.fCoinBase, c.fCoinStake, fFirst, fSecond, HeaderCode(c));
  }

  lemma {:induction false} BodyRoundTrip(c: Coins, version: int, nCode: nat, m: seq<Byte>, outs: seq<Byte>, rest: seq<Byte>, curve: Curve)
    requires Lawful(curve) && AllStorable(c.vout) && Int32(c.nHeight) && version == ReadBack(c.nVersion) && Codes(nCode, c)
    requires m == Mask(c.vout) && outs == OutBytes(c.vout, 0, curve) + (SignedBytes(c.nHeight) + rest)
    ensures ReadBody(m + outs, version, nCode, curve) == Got(ReadBackCoins(c), rest)
  {
    MarksOf(c.vout, m);
    LastNotZero(c.vout, m);
    var header := Coins(c.fCoinBase, c.fCoinStake, [], 0, version);
    var a := Availability(Avail(c.vout, 0), Avail(c.vout, 1), m);
    BodyStart(c, header, nCode, m, outs, a, curve);
    RestRoundTrip(c, header, a, rest, curve);
  }

  lemma {:induction false} BodyStart(c: Coins, header: Coins, nCode: nat, m: seq<Byte>, outs: seq<Byte>, a: seq<bool>, curve: Curve)
    requires Codes(nCode, c) && m == Mask(c.vout) && (|m| > 0 ==> m[|m| - 1] != 0)
    requires header == Coins(c.fCoinBase, c.fCoinStake, [], 0, header.nVersion)
    requires a == Availability(Avail(c.vout, 0), Avail(c.vout, 1), m)
    ensures ReadBody(m + outs, header.nVersion, nCode, curve) == ReadRest(outs, header, a, curve)
  {
    MaskRoundTrip(m, outs);
    BodyRead(m + outs, header.nVersion, nCode, m, outs, curve);
  }

  lemma {:induction false} MarksOf(vout: seq<TxOut>, m: seq<Byte>)
    requires m == Mask(vout)
    ensures Marks(Availability(Avail(vout, 0), Avail(vout, 1), m), vout)
  {
    AvailabilityRight(vout);
  }

  lemma {:induction false} LastNotZero(vout: seq<TxOut>, m: seq<Byte>)
    requires m == Mask(vout)
    ensures |m| > 0 ==> m[|m| - 1] != 0
  {
  }

  /**
  Coins with an unspent output are read back, but for spent outputs at the end, and exactly the
  bytes that were written are consumed; so it is for all coins whose version and height are not
  negative, and for no others.
  */
  lemma {:induction false} CoinsRoundTrip(c: Coins, rest: seq<Byte>, curve: Curve)
    requires Lawful(curve) && !c.IsPruned() && AllStorable(c.vout) && HeaderCode(c) < Limit(U32)
    requires Int32(c.nVersion) && Int32(c.nHeight)
    ensures ReadCoins(CoinsBytes(c, curve) + rest, curve) == Got(ReadBackCoins(c), rest)
    ensures ReadBackCoins(c) == Restored(c) <==> c.nVersion >= 0 && c.nHeight >= 0
  {
    var outs := OutBytes(c.vout, 0, curve) + (SignedBytes(c.nHeight) + rest);
    var body := Mask(c.vout) + outs;
    var header := Bytes(HeaderCode(c)) + body;
    assert CoinsBytes(c, curve) + rest == SignedBytes(c.nVersion) + header;
    SignedRoundTrip(c.nVersion, header);
    SignedRoundTrip(c.nHeight, rest);
    RoundTrip(HeaderCode(c), body, U32);
    HeaderRead(c);
    BodyRoundTrip(c, ReadBack(c.nVersion), HeaderCode(c), Mask(c.vout), outs, rest, curve);
    CleanupKeeps(c.(vout := Normal(c.vout, 0, |c.vout|)));
    CleanupKeeps(c.(vout := Normal(c.vout, 0, |c.vout|), nVersion := ReadBack(c.nVersion), nHeight := ReadBack(c.nHeight)));
  }

  /** Coins with one output, whose version is negative. */
  function OddVersion(): Coins {
    Coins(false, false, [TxOut(1, [])], 7, -1)
  }

  /** They are read back with version 127. */
  lemma {:induction false} VersionLost(rest: seq<Byte>, curve: Curve)
    requires Lawful(curve)
    ensures var c := OddVersion();
            && !c.IsPruned() && AllStorable(c.vout)
            && ReadCoins(CoinsBytes(c, curve) + rest, curve) == Got(c.(nVersion := 127), rest)
  {
    var c := OddVersion();
    OddHeader(c);
    CoinsRoundTrip(c, rest, curve);
    OddReadBack(c);
  }

  lemma {:induction false} OddHeader(c: Coins)
    requires c == OddVersion()
    ensures !c.IsPruned() && AllStorable(c.vout) && HeaderCode(c) == 4
  {
    assert Avail(c.vout, 0) && !Avail(c.vout, 1);
    OneStorable();
    assert |Mask(c.vout)| == 0;
  }

  lemma {:induction false} OddReadBack(c: Coins)
    requires c == OddVersion()
    ensures ReadBackCoins(c) == c.(nVersion := 127)
  {
    assert ReadBack(-1) == 127;
    RestoredIsCleanup(c.(nVersion := 127));
  }

  lemma {:induction false} OneStorable()
    ensures Storable(TxOut(1, []))
  {
  }
}
