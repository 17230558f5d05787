/**
The compact format: a number as a size in bytes and a mantissa of 23 bits, the sign above it.
*/
module ArithCompact {
  import opened ArithBits
  import opened ArithLimbs
  import opened ArithSteps

  const MANTISSA := 0x80_0000
  const SIZE := 0x100_0000

  /** How many bits a number has. */
  function BitLength(v: nat): (n: nat)
  {
    if v == 0 then 0 else 1 + BitLength(v / 2)
  }

  lemma {:induction false} BitLengthIsHighBit(v: nat)
    ensures HighBit(v, BitLength(v))
  {
    if v > 0 {
      BitLengthIsHighBit(v / 2);
      var n := BitLength(v / 2);
      if n > 0 {
        assert Pow2(n + 1) == 2 * Pow2(n) && Pow2(n) == 2 * Pow2(n - 1);
      } else {
        assert Pow2(1) == 2 * Pow2(0);
      }
    }
  }

  //////////////////////////////////////////////////////////////////////////////
  //
  // Encoding and decoding
  //
  //////////////////////////////////////////////////////////////////////////////

  datatype Packed = Packed(size: nat, mantissa: nat)

  /** The highest three bytes of `v`, or just two if the mantissa would reach the bit of the sign. */
  function Pack(v: nat): Packed {
    var nSize := (BitLength(v) + 7) / 8;
    var nCompact := if nSize <= 3 then UpBytes(v, 3 - nSize) else Shr(v, 8 * (nSize - 3));
    if nCompact >= MANTISSA then Packed(nSize + 1, nCompact / 0x100) else Packed(nSize, nCompact)
  }

  function UpBytes(v: nat, bytes: nat): nat {
    UpSign(v, 8 * bytes);
    Up(v, 8 * bytes)
  }

  /** The number that a size and a mantissa stand for. */
  function Unpack(p: Packed): nat {
    if p.size <= 3 then Shr(p.mantissa, 8 * (3 - p.size)) else UpBytes(p.mantissa, p.size - 3)
  }

  /** A mantissa of at least 16 of 23 bits that holds the highest bits of `v`: only lower ones are left out. */
  ghost predicate Packs(v: nat, p: Packed) {
    if v == 0 then p == Packed(0, 0)
    else
      && 0x8000 <= p.mantissa < MANTISSA
      && p.mantissa == if p.size <= 3 then UpBytes(v, 3 - p.size) else Shr(v, 8 * (p.size - 3))
  }

  datatype Decoded = Decoded(value: nat, negative: bool, overflow: bool)

  function Fields(nCompact: Word): Packed {
    Packed(nCompact / SIZE, nCompact % MANTISSA)
  }

  predicate Sign(nCompact: Word) {
    nCompact / MANTISSA % 2 == 1
  }

  /** What SetCompact stores and reports. */
  function Decode(nCompact: Word): Decoded {
    var p := Fields(nCompact);
    var nWord := if p.size <= 3 then Unpack(p) else p.mantissa;
    Decoded(if p.size <= 3 then nWord else Unpack(p) % Modulus(8), nWord != 0 && Sign(nCompact), Overflows(p.size, nWord))
  }

  predicate Overflows(nSize: nat, nWord: nat) {
    nWord != 0 && (nSize > 34 || (nWord > 0xff && nSize > 33) || (nWord > 0xffff && nSize > 32))
  }

  /** What GetCompact returns. */
  function Encode(v: nat, fNegative: bool): nat {
    var p := Pack(v);
    p.size * SIZE + p.mantissa + if fNegative && p.mantissa != 0 then MANTISSA else 0
  }

  //////////////////////////////////////////////////////////////////////////////
  //
  // Packing
  //
  //////////////////////////////////////////////////////////////////////////////

  lemma {:induction false} HighBitUp(x: nat, n: nat, s: nat)
    requires n > 0 && HighBit(x, n)
    ensures Up(x, s) >= 0 && HighBit(Up(x, s), n + s)
  {
    UpOrder(x, Pow2(n - 1), s);
    UpOrder(x, Pow2(n), s);
    UpUp(1, n - 1, s);
    UpUp(1, n, s);
    UpSign(x, s);
  }

  lemma {:induction false} HighBitShr(x: nat, n: nat, s: nat)
    requires n > 0 && HighBit(Shr(x, s), n)
    ensures HighBit(x, n + s)
  {
    var y := Shr(x, s);
    Split(x, s);
    UpAdd(y, 1, s);
    UpOrder(Pow2(n), y + 1, s);
    UpOrder(y, Pow2(n - 1), s);
    UpUp(1, n - 1, s);
    UpUp(1, n, s);
  }

  /** A number has `s` bits more than what is left of it after shifting down by `s` bits. */
  lemma {:induction false} ShrLength(x: nat, n: nat, s: nat)
    requires HighBit(x, n) && s < n
    ensures HighBit(Shr(x, s), n - s)
  {
    Split(x, s);
    UpUp(1, n - 1 - s, s);
    UpUp(1, n - s, s);
    UpOrder(Shr(x, s), Pow2(n - s), s);
    UpAdd(Shr(x, s), 1, s);
    UpOrder(Pow2(n - 1 - s), Shr(x, s) + 1, s);
  }

  lemma {:induction false} PowerTable()
    ensures Pow2(15) == 0x8000 && Pow2(16) == 0x1_0000 && Pow2(23) == MANTISSA && Pow2(24) == SIZE
  {
    Up8(1);
    Up8(Up(1, 7));
    UpUp(1, 7, 8);
    assert Up(1, 4) == 16;
    Up16(1);
    Up16(Up(1, 7));
    UpUp(1, 7, 16);
  }

  /** The highest bit decides how a number is packed. */
  lemma {:induction false} PackedLength(v: nat, p: Packed, n: nat)
    requires v > 0 && Packs(v, p) && HighBit(v, n)
    ensures 8 * p.size <= n + 8 && n + 1 <= 8 * p.size
  {
    BitLengthIsHighBit(p.mantissa);
    var m := BitLength(p.mantissa);
    PowerTable();
    if m < 16 {
      UpMore(1, m, 15);
    } else if m > 23 {
      UpMore(1, 23, m - 1);
    }
    if p.size <= 3 {
      HighBitUp(v, n, 8 * (3 - p.size));
      HighBitUnique(p.mantissa, m, n + 8 * (3 - p.size));
    } else {
      HighBitShr(v, m, 8 * (p.size - 3));
      HighBitUnique(v, n, m + 8 * (p.size - 3));
    }
  }

  lemma {:induction false} PackUnique(v: nat, p: Packed, q: Packed)
    requires Packs(v, p) && Packs(v, q)
    ensures p == q
  {
    if v > 0 {
      BitLengthIsHighBit(v);
      PackedLength(v, p, BitLength(v));
      PackedLength(v, q, BitLength(v));
    }
  }

  /** What is stored first has at most 24 bits, and more than 16 unless the number is zero. */
  lemma {:induction false} PackFirst(v: nat) returns (nSize: nat, nCompact: nat)
    requires v > 0
    ensures nSize == (BitLength(v) + 7) / 8
    ensures nCompact == if nSize <= 3 then UpBytes(v, 3 - nSize) else Shr(v, 8 * (nSize - 3))
    ensures 0x1_0000 <= nCompact < SIZE
  {
    BitLengthIsHighBit(v);
    var n := BitLength(v);
    nSize := (n + 7) / 8;
    PowerTable();
    var m: nat := n + 24 - 8 * nSize;
    if nSize <= 3 {
      HighBitUp(v, n, 8 * (3 - nSize));
      nCompact := UpBytes(v, 3 - nSize);
    } else {
      ShrLength(v, n, 8 * (nSize - 3));
      nCompact := Shr(v, 8 * (nSize - 3));
    }
    assert HighBit(nCompact, m);
    UpMore(1, 16, m - 1);
    UpMore(1, m, 24);
  }

  /** The first mantissa fits into 24 bits. */
  lemma {:induction false} MantissaFits(v: nat)
    ensures var nSize := (BitLength(v) + 7) / 8;
            (if nSize <= 3 then UpBytes(v, 3 - nSize) else Shr(v, 8 * (nSize - 3))) < SIZE
  {
    if v > 0 {
      var nSize, nCompact := PackFirst(v);
    } else {
      UpSign(0, 8 * 3);
    }
  }

  lemma {:induction false} LowWord(v: nat, n: nat)
    requires HighBit(v, n) && (n + 7) / 8 <= 3
    ensures v % (BASE * BASE) == v
  {
    UpMore(1, n, 24);
    PowerTable();
  }

  lemma {:induction false} LowShifted(v: nat, n: nat)
    requires n == BitLength(v) && (n + 7) / 8 > 3
    ensures var x := Shr(v, 8 * ((n + 7) / 8 - 3)); x % (BASE * BASE) == x
  {
    MantissaFits(v);
  }

  lemma {:induction false} ShrIsDivision(v: nat, s: nat)
    ensures Shr(v, s) == v / Pow2(s)
  {
    Split(v, s);
    UpIsProduct(Shr(v, s), s);
    DivModUnique(v, Shr(v, s), Low(v, s), Pow2(s));
  }

  lemma {:induction false} ShrLess(v: nat, s: nat)
    ensures Shr(v, s) <= v
    decreases s
  {
    if s > 0 {
      ShrLess(v / 2, s - 1);
    }
  }

  lemma {:induction false} PackPacks(v: nat)
    ensures Packs(v, Pack(v))
  {
    if v == 0 {
      UpSign(0, 8 * 3);
    } else {
      var nSize, nCompact := PackFirst(v);
      PackedFrom(v, nSize, nCompact, Pack(v));
    }
  }

  lemma {:induction false} PackedFrom(v: nat, nSize: nat, nCompact: nat, p: Packed)
    requires v > 0 && 0x8000 <= nCompact < SIZE
    requires nCompact == if nSize <= 3 then UpBytes(v, 3 - nSize) else Shr(v, 8 * (nSize - 3))
    requires p == if nCompact >= MANTISSA then Packed(nSize + 1, nCompact / 0x100) else Packed(nSize, nCompact)
    ensures Packs(v, p)
  {
    if nCompact >= MANTISSA {
      DropByte(v, nSize, nCompact, p);
    }
  }

  /** The highest two bytes are the highest three without the last. */
  lemma {:induction false} DropByte(v: nat, nSize: nat, nCompact: nat, p: Packed)
    requires nCompact == if nSize <= 3 then UpBytes(v, 3 - nSize) else Shr(v, 8 * (nSize - 3))
    requires p == Packed(nSize + 1, nCompact / 0x100)
    ensures p.mantissa == if p.size <= 3 then UpBytes(v, 3 - p.size) else Shr(v, 8 * (p.size - 3))
  {
    if nSize >= 3 {
      Shr8(nCompact);
      ShrShr(v, 8 * (nSize - 3), 8);
    } else {
      UpUp(v, 8 * (2 - nSize), 8);
      Up8(UpBytes(v, 2 - nSize));
    }
  }

  lemma {:induction false} Shr8(x: nat)
    ensures Shr(x, 8) == x / 0x100
  {
    Split(x, 8);
    Up8(Shr(x, 8));
    Up8(1);
  }

  //////////////////////////////////////////////////////////////////////////////
  //
  // Precision
  //
  //////////////////////////////////////////////////////////////////////////////

  /** Unpacking loses less than one part in 2^15, and packing again loses nothing more. */
  lemma {:induction false} UnpackRounds(v: nat, p: Packed)
    requires v > 0 && Packs(v, p)
    ensures 0 < Unpack(p) <= v && (v - Unpack(p)) * 0x8000 <= v
    ensures Packs(Unpack(p), p)
  {
    if p.size <= 3 {
      SplitUnique(v, 0, 8 * (3 - p.size));
    } else {
      var e := 8 * (p.size - 3);
      Split(v, e);
      SplitUnique(p.mantissa, 0, e);
      UpSign(p.mantissa, e);
      UpTimes(0x8000, 1, e);
      UpOrder(p.mantissa, 0x8000, e);
    }
  }

  lemma {:induction false} FieldsOf(size: nat, mantissa: nat, sign: bool) returns (nCompact: Word)
    requires size < 0x100 && mantissa < MANTISSA
    ensures nCompact == size * SIZE + mantissa + if sign then MANTISSA else 0
    ensures Fields(nCompact) == Packed(size, mantissa) && Sign(nCompact) == sign
  {
    nCompact := size * SIZE + mantissa + if sign then MANTISSA else 0;
    assert nCompact / MANTISSA == 2 * size + if sign then 1 else 0;
  }

  /** A number of 256 bits is packed into at most 33 bytes, and into that many only with a small mantissa. */
  lemma {:induction false} PackedSmall(v: nat, p: Packed)
    requires v < Modulus(8) && Packs(v, p)
    ensures p.size <= 33 && p.mantissa < MANTISSA && (p.size == 33 ==> p.mantissa <= 0xffff)
    ensures !Overflows(p.size, p.mantissa)
  {
    if v > 0 {
      BitLengthIsHighBit(v);
      var n := BitLength(v);
      ModulusIsPow2(8);
      if n > 256 {
        UpMore(1, 256, n - 1);
      }
      PackedLength(v, p, n);
      if p.size == 33 {
        ShrLength(v, n, 240);
        PowerTable();
      }
    }
  }

  /** What has been packed is unpacked without an overflow, and packed again as it was. */
  lemma {:induction false} UnpackPacked(v: nat, p: Packed)
    requires 0 < v < Modulus(8) && Packs(v, p)
    ensures 0 < Unpack(p) <= v && (v - Unpack(p)) * 0x8000 <= v
    ensures Unpack(p) % Modulus(8) == Unpack(p) && Pack(Unpack(p)) == p
    ensures !Overflows(p.size, if p.size <= 3 then Unpack(p) else p.mantissa)
  {
    PackedSmall(v, p);
    UnpackRounds(v, p);
    DivModUnique(Unpack(p), 0, Unpack(p), Modulus(8));
    PackPacks(Unpack(p));
    PackUnique(Unpack(p), p, Pack(Unpack(p)));
  }

  /**
  Decoding what has been encoded gives back the sign and the number up to one part in 2^15, never
  more than it was, without an overflow; and encoding that again gives the same.
  */
  lemma {:induction false} RoundTrip(v: nat, fNegative: bool)
    requires v < Modulus(8)
    ensures Encode(v, fNegative) < BASE
    ensures var d := Decode(Encode(v, fNegative));
            && d.value <= v && (v - d.value) * 0x8000 <= v
            && d.negative == (fNegative && v != 0) && !d.overflow
            && Encode(d.value, fNegative) == Encode(v, fNegative)
  {
    var p := Pack(v);
    PackPacks(v);
    PackedSmall(v, p);
    var nCompact := FieldsOf(p.size, p.mantissa, fNegative && p.mantissa != 0);
    if v > 0 {
      UnpackPacked(v, p);
    } else {
      ShrOfZero(8 * (3 - p.size));
    }
  }

  lemma {:induction false} ShrOfZero(s: nat)
    ensures Shr(0, s) == 0
    decreases s
  {
    if s > 0 {
      ShrOfZero(s - 1);
    }
  }

  /** A full mantissa with nothing below the units is that of the number it stands for. */
  lemma {:induction false} UnpackPacks(p: Packed)
    requires 0x8000 <= p.mantissa < MANTISSA && (p.size < 3 ==> Low(p.mantissa, 8 * (3 - p.size)) == 0)
    ensures Packs(Unpack(p), p) && Unpack(p) > 0
  {
    if p.size <= 3 {
      Split(p.mantissa, 8 * (3 - p.size));
      UpSign(0, 8 * (3 - p.size));
    } else {
      SplitUnique(p.mantissa, 0, 8 * (p.size - 3));
      UpSign(p.mantissa, 8 * (p.size - 3));
    }
  }

  lemma {:induction false} FieldsMakeUp(nCompact: Word)
    ensures var p := Fields(nCompact);
            nCompact == p.size * SIZE + p.mantissa + if Sign(nCompact) then MANTISSA else 0
  {
    assert nCompact / MANTISSA / 2 == nCompact / SIZE;
  }

  /** An encoding with a full mantissa and nothing below the units is what its number is encoded as. */
  lemma {:induction false} DecodeEncode(nCompact: Word)
    requires var p := Fields(nCompact);
             0x8000 <= p.mantissa && !Decode(nCompact).overflow && (p.size < 3 ==> Low(p.mantissa, 8 * (3 - p.size)) == 0)
    ensures Encode(Decode(nCompact).value, Decode(nCompact).negative) == nCompact
  {
    var p := Fields(nCompact);
    OverflowExact(nCompact);
    UnpackPacks(p);
    PackPacks(Unpack(p));
    PackUnique(Unpack(p), p, Pack(Unpack(p)));
    FieldsMakeUp(nCompact);
  }

  //////////////////////////////////////////////////////////////////////////////
  //
  // Overflow
  //
  //////////////////////////////////////////////////////////////////////////////

  /** An overflow is reported exactly when the number does not fit into 256 bits; otherwise it is stored exactly. */
  lemma {:induction false} OverflowExact(nCompact: Word)
    ensures Decode(nCompact).overflow <==> Unpack(Fields(nCompact)) >= Modulus(8)
    ensures !Decode(nCompact).overflow ==> Decode(nCompact).value == Unpack(Fields(nCompact))
  {
    var p := Fields(nCompact);
    ModulusIsPow2(8);
    if p.size <= 3 {
      Split(p.mantissa, 8 * (3 - p.size));
      UpMore(Shr(p.mantissa, 8 * (3 - p.size)), 0, 8 * (3 - p.size));
      Up32(1);
      UpMore(1, 32, 256);
    } else {
      OverflowAbove(p.size, p.mantissa);
      if Unpack(p) < Modulus(8) {
        DivModUnique(Unpack(p), 0, Unpack(p), Modulus(8));
      }
    }
  }

  /**
  What a code stands for.  Its upper byte is the size in bytes, the 23 lowest bits are the highest
  three bytes of the number, and bit 23 is the sign.  Zero has none.
  */
  lemma {:induction false} DecodeSmall(nCompact: Word, size: nat, sign: bool, m: nat)
    requires m < 0x80_0000 && nCompact == size * 0x100_0000 + (if sign then 0x80_0000 else 0) + m && size <= 3
    ensures Decode(nCompact).value == m / Pow2(8 * (3 - size)) && !Decode(nCompact).overflow
    ensures Decode(nCompact).negative <==> sign && Decode(nCompact).value != 0
  {
    FieldsAre(nCompact, size, sign, m);
    ShrIsDivision(m, 8 * (3 - size));
    ShrLess(m, 8 * (3 - size));
  }

  lemma {:induction false} DecodeLarge(nCompact: Word, size: nat, sign: bool, m: nat, number: nat)
    requires m < 0x80_0000 && nCompact == size * 0x100_0000 + (if sign then 0x80_0000 else 0) + m && size > 3
    requires number == m * Pow2(8 * (size - 3))
    ensures Decode(nCompact).value == number % Modulus(8)
    ensures Decode(nCompact).overflow <==> number >= Modulus(8)
    ensures Decode(nCompact).negative <==> sign && m != 0
  {
    FieldsAre(nCompact, size, sign, m);
    OverflowExact(nCompact);
    UpIsProduct(m, 8 * (size - 3));
  }

  lemma {:induction false} FieldsAre(nCompact: Word, size: nat, sign: bool, m: nat)
    requires m < 0x80_0000 && nCompact == size * 0x100_0000 + (if sign then 0x80_0000 else 0) + m
    ensures Fields(nCompact) == Packed(size, m) && Sign(nCompact) == sign
  {
    assert nCompact / MANTISSA == 2 * size + if sign then 1 else 0;
  }

  lemma {:induction false} OverflowAbove(size: nat, mantissa: nat)
    requires 3 < size && mantissa < MANTISSA
    ensures Overflows(size, mantissa) <==> Up(mantissa, 8 * (size - 3)) >= Pow2(256)
  {
    var e := 8 * (size - 3);
    if mantissa == 0 {
      UpSign(0, e);
    } else if size > 34 {
      UpMore(1, 256, e);
      UpOrder(mantissa, 1, e);
    } else if size <= 32 {
      PowerTable();
      UpOrder(mantissa, Pow2(23), e);
      UpUp(1, 23, e);
      UpMore(1, 23 + e, 256);
    } else if size == 34 {
      Up8(1);
      UpUp(1, 8, 248);
      UpOrder(mantissa, Pow2(8), 248);
    } else {
      Up16(1);
      UpUp(1, 16, 240);
      UpOrder(mantissa, Pow2(16), 240);
    }
  }
}
