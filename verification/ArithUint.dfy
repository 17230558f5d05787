/**
Unsigned numbers of a fixed number of limbs, changed in place as base_uint changes them.
*/
module ArithUint {
  import opened ArithBits
  import opened ArithLimbs
  import opened ArithSteps
  import opened ArithCompact

  class BaseUint {
    const pn: array<Word>

    /** The number that is represented. */
    ghost function V(): (v: nat)
      reads pn
    {
      Val(pn[..])
    }

    /** The number of values that can be represented. */
    ghost function M(): nat {
      Modulus(pn.Length)
    }

    /** Two numbers are the same object or share nothing. */
    ghost predicate Apart(b: BaseUint) {
      b.pn.Length == pn.Length && (b == this || b.pn != pn)
    }

    constructor (width: nat)
      ensures fresh(pn) && pn.Length == width && V() == 0
    {
      pn := new Word[width](_ => 0);
      new;
      ZerosBelow(pn[..], 0);
    }

    constructor Copy(b: BaseUint)
      ensures fresh(pn) && pn.Length == b.pn.Length && pn[..] == b.pn[..]
    {
      var words := b.pn[..];
      pn := new Word[|words|](i requires 0 <= i < |words| => words[i]);
      new;
      assert pn[..] == words;
    }

    method SetZero()
      modifies pn
      ensures forall j | 0 <= j < pn.Length :: pn[j] == 0
      ensures V() == 0
    {
      for i := 0 to pn.Length
        invariant forall j | 0 <= j < i :: pn[j] == 0
      {
        pn[i] := 0;
      }
      ZerosBelow(pn[..], 0);
    }

    method ShiftLeft(shift: nat)
      modifies pn
      ensures V() == Up(old(V()), shift) % M()
    {
      var a := pn[..];
      SetZero();
      var k, s := shift / 32, shift % 32;
      UpStart(a, pn[..], k, s);
      ghost var over := 0;
      for i := 0 to pn.Length
        invariant ShiftedUp(a, pn[..], k, s, i, over)
      {
        ghost var p := pn[..];
        HighPart(a[i], s);
        if i + k + 1 < pn.Length && s != 0 {
          OrFits(pn[i + k + 1], Shr(a[i], 32 - s));
          pn[i + k + 1] := Or(pn[i + k + 1], Shr(a[i], 32 - s));
        }
        if i + k < pn.Length {
          OrFits(pn[i + k], Up(a[i], s) % BASE);
          pn[i + k] := Or(pn[i + k], Up(a[i], s) % BASE);
        }
        over := UpStep(a, p, k, s, i, over, i + k, pn[..]);
      }
      UpDone(a, pn[..], k, s, over, shift);
    }

    method ShiftRight(shift: nat)
      modifies pn
      ensures V() == old(V()) / Pow2(shift)
    {
      var a := pn[..];
      SetZero();
      var k, s := shift / 32, shift % 32;
      DownStart(a, pn[..], k, s);
      ghost var rest := 0;
      for i := 0 to pn.Length
        invariant ShiftedDown(a, pn[..], k, s, i, rest)
      {
        ghost var p := pn[..];
        HighPart(a[i], 32 - s);
        if i - k - 1 >= 0 && s != 0 {
          OrFits(pn[i - k - 1], Up(a[i], 32 - s) % BASE);
          pn[i - k - 1] := Or(pn[i - k - 1], Up(a[i], 32 - s) % BASE);
        }
        if i - k >= 0 {
          OrFits(pn[i - k], Shr(a[i], s));
          pn[i - k] := Or(pn[i - k], Shr(a[i], s));
        }
        if i < k {
          rest := DownOut(a, p, k, s, i, rest);
        } else {
          rest := DownStep(a, p, k, s, i, rest, i - k, pn[..]);
        }
      }
      DownDone(a, pn[..], k, s, rest, shift);
    }

    method Add(b: BaseUint)
      requires Apart(b)
      modifies pn
      ensures V() == (old(V()) + old(b.V())) % M()
    {
      ghost var a0, b0 := pn[..], b.pn[..];
      AddStart(a0, b0);
      var carry: nat := 0;
      for i := 0 to pn.Length
        invariant Added(a0, b0, pn[..], carry, i)
        invariant forall j | i <= j < pn.Length :: b.pn[j] == b0[j]
      {
        ghost var p := pn[..];
        var n: nat := carry + pn[i] + b.pn[i];
        pn[i] := n % BASE;
        AddStep(a0, b0, p, carry, i, n, pn[..]);
        carry := n / BASE;
      }
      AddDone(a0, b0, pn[..], carry);
    }

    method Increment()
      requires pn.Length > 0
      modifies pn
      ensures V() == (old(V()) + 1) % M()
    {
      ghost var v := V() + 1;
      var i := 0;
      Raise(pn[..], 0);
      pn[0] := (pn[0] as int + 1) % BASE;
      while pn[i] == 0 && i < pn.Length - 1
        invariant 0 <= i < pn.Length && Raised(v, pn[..], i)
      {
        i := i + 1;
        Raise(pn[..], i);
        pn[i] := (pn[i] as int + 1) % BASE;
      }
      RaiseDone(v, pn[..], i);
    }

    method Decrement()
      requires pn.Length > 0
      modifies pn
      ensures V() == (old(V()) - 1) % M()
    {
      ghost var v := V() - 1;
      var i := 0;
      Lower(pn[..], 0);
      pn[0] := (pn[0] as int - 1) % BASE;
      while pn[i] == BASE - 1 && i < pn.Length - 1
        invariant 0 <= i < pn.Length && Lowered(v, pn[..], i)
      {
        i := i + 1;
        Lower(pn[..], i);
        pn[i] := (pn[i] as int - 1) % BASE;
      }
      LowerDone(v, pn[..], i);
    }

    method Negate() returns (ret: BaseUint)
      requires pn.Length > 0
      ensures fresh(ret) && fresh(ret.pn) && ret.pn.Length == pn.Length
      ensures ret.V() == -(V() as int) % M()
    {
      ret := new BaseUint(pn.Length);
      for i := 0 to pn.Length
        invariant forall j | 0 <= j < i :: ret.pn[j] == BASE - 1 - pn[j]
      {
        ret.pn[i] := BASE - 1 - pn[i];
      }
      ghost var p := ret.pn[..];
      ret.Increment();
      NegDone(pn[..], p, ret.pn[..]);
    }

    method Subtract(b: BaseUint)
      requires pn.Length > 0 && Apart(b)
      modifies pn
      ensures V() == (old(V()) - old(b.V())) % M()
    {
      var negated := b.Negate();
      SubDone(V(), b.V(), negated.V(), (V() + negated.V()) % M(), M());
      Add(negated);
    }

    method MultiplyByWord(b32: Word)
      modifies pn
      ensures V() == (old(V()) * b32) % M()
    {
      ghost var a := pn[..];
      ScaleStart(a, b32);
      var carry: Word := 0;
      for i := 0 to pn.Length
        invariant Scaled(a, b32, pn[..], carry, i)
      {
        ghost var p := pn[..];
        ProductFits(b32, pn[i], carry, 0);
        var n: nat := carry + b32 * pn[i];
        pn[i] := n % BASE;
        ScaleStep(a, b32, p, carry, i, n, pn[..]);
        carry := n / BASE;
      }
      ScaleDone(a, b32, pn[..], carry);
    }

    /** The inner loop of the product: no sum exceeds 64 bits. */
    method MultiplyRow(x: Word, b: BaseUint, j: nat) returns (carry: Word)
      requires Apart(b) && j <= pn.Length
      requires b == this ==> forall i | 0 <= i < pn.Length :: pn[i] == 0
      modifies pn
      ensures RowAdded(x, old(b.pn[..]), old(pn[..]), pn[..], j, pn.Length - j, carry)
      ensures b.pn[..] == old(b.pn[..])
    {
      ghost var p0, b0 := pn[..], b.pn[..];
      RowStart(x, b0, p0, j);
      carry := 0;
      for i := 0 to pn.Length - j
        invariant RowAdded(x, b0, p0, pn[..], j, i, carry) && b.pn[..] == b0
        invariant b == this ==> carry == 0
      {
        ghost var p := pn[..];
        ProductFits(x, b.pn[i], carry, pn[i + j]);
        var n: nat := carry + pn[i + j] + x * b.pn[i];
        pn[i + j] := n % BASE;
        RowStep(x, b0, p0, p, j, i, carry, i + j, n, pn[..]);
        carry := n / BASE;
        assert b == this ==> n == 0;
      }
    }

    /** The product, unless a number is multiplied by itself in place: it is cleared before it is read as a factor. */
    method MultiplyBy(b: BaseUint)
      requires Apart(b)
      modifies pn
      ensures V() == if b == this then 0 else (old(V()) * old(b.V())) % M()
      ensures V() == (old(V()) * old(b.V())) % M() <==> b != this || (old(V()) * old(V())) % M() == 0
    {
      var a := pn[..];
      SetZero();
      ghost var b0 := b.pn[..];
      MultiplyStart(a, b0, pn[..]);
      ghost var over := 0;
      for j := 0 to pn.Length
        invariant Multiplied(a, b0, pn[..], j, over) && b.pn[..] == b0
        invariant b == this ==> forall i | 0 <= i < pn.Length :: pn[i] == 0
      {
        ghost var p0 := pn[..];
        var carry := MultiplyRow(a[j], b, j);
        over := RowDone(a, b0, p0, pn[..], j, pn.Length - j, carry, over);
        assert b == this ==> pn[..] == p0;
      }
      MultiplyDone(a, b0, pn[..], over);
      if b == this {
        ZerosBelow(pn[..], 0);
      }
    }

    method CompareTo(b: BaseUint) returns (r: int)
      requires b.pn.Length == pn.Length
      ensures r == if V() < b.V() then -1 else if V() > b.V() then 1 else 0
    {
      for i := pn.Length downto 0
        invariant forall j | i <= j < pn.Length :: pn[j] == b.pn[j]
      {
        if pn[i] < b.pn[i] {
          ValLess(pn[..], b.pn[..], i, pn.Length);
          return -1;
        }
        if pn[i] > b.pn[i] {
          ValLess(b.pn[..], pn[..], i, pn.Length);
          return 1;
        }
      }
      assert pn[..] == b.pn[..];
      return 0;
    }

    /** How many bits the number has, leading zeros not counted. */
    method Bits() returns (n: nat)
      ensures HighBit(V(), n) && n <= 32 * pn.Length
    {
      n := FindBit();
      HighBitBound(pn[..], n);
    }

    method FindBit() returns (n: nat)
      ensures HighBit(V(), n)
    {
      for pos := pn.Length downto 0
        invariant forall j | pos <= j < pn.Length :: pn[j] == 0
      {
        if pn[pos] != 0 {
          Up32(1);
          for bits := 32 downto 1
            invariant pn[pos] < Pow2(bits)
          {
            TopBit(pn[pos], bits);
            if Bit(pn[pos], bits) {
              HighLimb(pn[..], pos, bits);
              return 32 * pos + bits + 1;
            }
          }
          HighLimb(pn[..], pos, 0);
          return 32 * pos + 1;
        }
      }
      ZerosBelow(pn[..], 0);
      return 0;
    }

    /** The quotient, rounded down.  A division by zero is an error, but clears the number before it is found. */
    method DivideBy(b: BaseUint) returns (ok: bool)
      requires pn.Length > 0 && Apart(b)
      modifies pn
      ensures ok <==> old(b.V()) != 0
      ensures V() == if ok then old(V()) / old(b.V()) else 0
    {
      var div := new BaseUint.Copy(b);
      var num := new BaseUint.Copy(this);
      ghost var a0, b0 := V(), b.V();
      SetZero();
      var num_bits := num.Bits();
      var div_bits := div.Bits();
      if div_bits == 0 {
        return false;
      }
      UpSign(1, div_bits - 1);
      if div_bits > num_bits {
        DivideByMore(a0, b0, div_bits, num_bits);
        return true;
      }
      var shift := num_bits - div_bits;
      DivideStart(a0, b0, div_bits, num_bits);
      Fits(Up(b0, shift), num_bits, pn.Length);
      div.ShiftLeft(shift);
      ZerosBelow(pn[..], shift + 1);
      while shift >= 0
        invariant -1 <= shift < 32 * pn.Length
        invariant Dividing(a0, b0, V(), num.V(), shift + 1)
        invariant shift >= 0 ==> div.V() == Up(b0, shift)
        invariant ZeroBelow(pn[..], shift + 1)
      {
        DivideBit(num, div, shift, a0, b0);
        shift := shift - 1;
      }
      DivideDone(a0, b0, V(), num.V());
      return true;
    }

    /** Take the divisor off the rest if it fits, and set the bit. */
    method SubtractShifted(num: BaseUint, div: BaseUint, shift: nat)
      requires num.pn.Length == div.pn.Length == pn.Length && shift < 32 * pn.Length
      requires num.pn != div.pn && num.pn != pn && div.pn != pn && ZeroBelow(pn[..], shift + 1)
      modifies pn, num.pn
      ensures ZeroBelow(pn[..], shift)
      ensures if old(num.V()) >= div.V() then V() == old(V()) + Pow2(shift) && num.V() == old(num.V()) - div.V()
              else V() == old(V()) && num.V() == old(num.V())
    {
      ZeroBelowLess(pn[..], shift);
      var c := num.CompareTo(div);
      if c >= 0 {
        SmallMod(num.pn[..], div.V());
        num.Subtract(div);
        ghost var p := pn[..];
        SetBit(p, shift / 32, shift % 32, shift);
        pn[shift / 32] := Or(pn[shift / 32], Pow2(shift % 32));
        assert pn[..] == p[shift / 32 := Or(p[shift / 32], Pow2(shift % 32))];
      }
    }

    /** Decide one bit of the quotient, and move the divisor down. */
    method DivideBit(num: BaseUint, div: BaseUint, shift: nat, ghost a0: nat, ghost b0: nat)
      requires num.pn.Length == div.pn.Length == pn.Length && shift < 32 * pn.Length
      requires num.pn != div.pn && num.pn != pn && div.pn != pn
      requires Dividing(a0, b0, V(), num.V(), shift + 1) && div.V() == Up(b0, shift) && ZeroBelow(pn[..], shift + 1)
      modifies pn, num.pn, div.pn
      ensures Dividing(a0, b0, V(), num.V(), shift) && ZeroBelow(pn[..], shift)
      ensures shift > 0 ==> div.V() == Up(b0, shift - 1)
    {
      ghost var q, rest := V(), num.V();
      SubtractShifted(num, div, shift);
      DivideStep(a0, b0, q, rest, shift, V(), num.V());
      div.ShiftRight(1);
      assert Pow2(1) == 2 * Up(1, 0);
    }

    /** Store a number of up to 64 bits. */
    method SetLow64(b: nat)
      requires pn.Length >= 2 && b < BASE * BASE
      modifies pn
      ensures V() == b
    {
      pn[0] := b % BASE;
      pn[1] := b / BASE;
      for i := 2 to pn.Length
        invariant pn[0] == b % BASE && pn[1] == b / BASE && forall j | 2 <= j < i :: pn[j] == 0
      {
        pn[i] := 0;
      }
      ValZero(pn[..], 2, pn.Length);
      TwoLimbs(pn[..]);
    }

    method GetLow64() returns (b: nat)
      requires pn.Length >= 2
      ensures b == V() % (BASE * BASE)
    {
      LowLimbs(pn[..]);
      b := pn[0] + BASE * pn[1];
    }

    method SetCompact(nCompact: Word) returns (fNegative: bool, fOverflow: bool)
      requires pn.Length == 8
      modifies pn
      ensures Decode(nCompact) == Decoded(V(), fNegative, fOverflow)
    {
      var nSize := nCompact / SIZE;
      var nWord: nat := nCompact % MANTISSA;
      if nSize <= 3 {
        ShrLess(nWord, 8 * (3 - nSize));
        nWord := Shr(nWord, 8 * (3 - nSize));
        SetLow64(nWord);
      } else {
        SetLow64(nWord);
        ShiftLeft(8 * (nSize - 3));
      }
      fNegative := nWord != 0 && Sign(nCompact);
      fOverflow := nWord != 0 && (nSize > 34 || (nWord > 0xff && nSize > 33) || (nWord > 0xffff && nSize > 32));
    }

    /** The size in bytes, and the highest three of them. */
    method TopBytes() returns (nSize: nat, nWord: nat)
      requires pn.Length >= 2
      ensures nSize == (BitLength(V()) + 7) / 8
      ensures nWord == if nSize <= 3 then UpBytes(V(), 3 - nSize) else Shr(V(), 8 * (nSize - 3))
    {
      var nBits := Bits();
      BitLengthIsHighBit(V());
      HighBitUnique(V(), nBits, BitLength(V()));
      nSize := (nBits + 7) / 8;
      if nSize <= 3 {
        LowWord(V(), nBits);
        nWord := GetLow64();
        nWord := UpBytes(nWord, 3 - nSize);
      } else {
        var bn := new BaseUint.Copy(this);
        bn.ShiftRight(8 * (nSize - 3));
        ShrIsDivision(V(), 8 * (nSize - 3));
        LowShifted(V(), nBits);
        nWord := bn.GetLow64();
      }
    }

    /** The mantissa never reaches the bit of the sign: if it would, it is one byte shorter. */
    method PackedFields() returns (nSize: nat, nWord: nat)
      requires pn.Length >= 2
      ensures Pack(V()) == Packed(nSize, nWord)
    {
      nSize, nWord := TopBytes();
      MantissaFits(V());
      PowerTable();
      TopBit(nWord, 23);
      if Bit(nWord, 23) {
        nWord := nWord / 0x100;
        nSize := nSize + 1;
      }
    }

    /** The size fits into a byte. */
    method GetCompact(fNegative: bool) returns (nCompact: Word)
      requires pn.Length == 8
      ensures nCompact == Encode(V(), fNegative)
    {
      var nSize, nWord := PackedFields();
      ValBound(pn[..], pn.Length);
      PackPacks(V());
      PackedSmall(V(), Pack(V()));
      assert nWord < MANTISSA && nSize < 256;
      nCompact := nSize * SIZE + nWord + if fNegative && nWord != 0 then MANTISSA else 0;
    }
  }

  /** The number 1, squared in place, becomes 0. */
  method OneSquared() returns (x: BaseUint, ghost before: nat)
    ensures fresh(x) && before == 1 && (before * before) % x.M() == 1 && x.V() == 0
  {
    x := new BaseUint(8);
    x.Increment();
    ValBound(x.pn[..], x.pn.Length);
    before := x.V();
    x.MultiplyBy(x);
  }
}
