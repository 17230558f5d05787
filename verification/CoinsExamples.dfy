/**
The two examples of coins.h, byte by byte.  Where they say 4 and 9 the header codes are 8 and 17:
a bit for coinstakes has been put in since.
*/
module CoinsExamples {
  import opened ArithBits
  import opened CoinsViews
  import opened Compressor
  import opened VarInt
  import opened CoinsCodec

  /** An output that pays an amount to the hash `h` of a key. */
  function Pays(amount: nat, h: seq<Byte>): TxOut {
    TxOut(amount, [0x76, 0xa9, 20] + h + [0x88, 0xac])
  }

  lemma {:induction false} PaysStored(amount: nat, code: nat, h: seq<Byte>, curve: Curve)
    requires |h| == 20 && code == Compress(amount) < TWO63 && amount < TWO63
    ensures Storable(Pays(amount, h)) && TxOutBytes(Pays(amount, h), curve) == Bytes(code) + ([0] + h)
  {
    ShortForms(h, seq(32, _ => 0), seq(32, _ => 0), curve);
  }

  /** Places from `i` to `j` without an unspent output take no bytes. */
  lemma {:induction false} NullsSkipped(vout: seq<TxOut>, i: nat, j: nat, curve: Curve)
    requires AllStorable(vout) && i <= j <= |vout| && forall k | i <= k < j :: !Avail(vout, k)
    ensures OutBytes(vout, i, curve) == OutBytes(vout, j, curve)
    decreases j - i
  {
    if i < j {
      assert !Avail(vout, i);
      NullsSkipped(vout, i + 1, j, curve);
    }
  }

  lemma {:induction false} OutStored(vout: seq<TxOut>, i: nat, curve: Curve)
    requires AllStorable(vout) && i < |vout| && !vout[i].IsNull()
    ensures OutBytes(vout, i, curve) == TxOutBytes(vout[i], curve) + OutBytes(vout, i + 1, curve)
  {
  }

  lemma {:induction false} PutTogether(c: Coins, version: seq<Byte>, code: seq<Byte>, m: seq<Byte>, outs: seq<Byte>, height: seq<Byte>, curve: Curve)
    requires !c.IsPruned() && AllStorable(c.vout) && c.nVersion >= 0 && c.nHeight >= 0
    requires version == Bytes(c.nVersion) && code == Bytes(HeaderCode(c)) && m == Mask(c.vout)
    requires outs == OutBytes(c.vout, 0, curve) && height == Bytes(c.nHeight)
    ensures CoinsBytes(c, curve) == version + (code + (m + (outs + height)))
  {
  }

  //////////////////////////////////////////////////////////////////////////////
  //
  // 600 coins in the second of two outputs
  //
  //////////////////////////////////////////////////////////////////////////////

  lemma {:induction false} FirstExample(c: Coins, h: seq<Byte>, curve: Curve)
    requires |h| == 20 && c == Coins(false, false, [NullOut, Pays(60000000000, h)], 203998, 1)
    ensures !c.IsPruned() && AllStorable(c.vout)
    ensures CoinsBytes(c, curve) == [0x01, 0x08, 0x83, 0x58, 0x00] + h + [0x8b, 0xb8, 0x5e]
  {
    CodeOfNineZeros(60000000000, 60);
    PaysStored(60000000000, 600, h, curve);
    SecondOnly(c, c.vout[1], curve);
    FirstNumbers();
    PutTogether(c, [0x01], [0x08], [], [0x83, 0x58] + ([0] + h), [0x8b, 0xb8, 0x5e], curve);
    FirstJoined(h);
  }

  lemma {:induction false} SecondOnly(c: Coins, o: TxOut, curve: Curve)
    requires c.vout == [NullOut, o] && !o.IsNull() && Storable(o) && !c.fCoinBase && !c.fCoinStake
    ensures !c.IsPruned() && HeaderCode(c) == 8 && Mask(c.vout) == [] && OutBytes(c.vout, 0, curve) == TxOutBytes(o, curve)
  {
    assert !c.vout[1].IsNull();
    assert Avail(c.vout, 1) && !Avail(c.vout, 0) && Mask(c.vout) == [];
    OutStored(c.vout, 1, curve);
    NullSkipped(c.vout, 0, curve);
  }

  lemma {:induction false} FirstNumbers()
    ensures Bytes(1) == [1] && Bytes(8) == [8] && Bytes(600) == [0x83, 0x58] && Bytes(203998) == [0x8b, 0xb8, 0x5e]
  {
  }

  lemma {:induction false} FirstJoined(h: seq<Byte>)
    ensures [0x01] + ([0x08] + ([] + (([0x83, 0x58] + ([0] + h)) + [0x8b, 0xb8, 0x5e])))
         == [0x01, 0x08, 0x83, 0x58, 0x00] + h + [0x8b, 0xb8, 0x5e]
  {
  }

  //////////////////////////////////////////////////////////////////////////////
  //
  // A coinbase with the outputs in places 4 and 16 unspent
  //
  //////////////////////////////////////////////////////////////////////////////

  lemma {:induction false} SecondExample(c: Coins, g: seq<Byte>, h: seq<Byte>, curve: Curve)
    requires |g| == |h| == 20 && |c.vout| == 17 && c == Coins(true, false, c.vout, 120891, 1)
    requires forall i | 0 <= i < 17 ::
               c.vout[i] == if i == 4 then Pays(234925952, g) else if i == 16 then Pays(110397, h) else NullOut
    ensures !c.IsPruned() && AllStorable(c.vout)
    ensures CoinsBytes(c, curve)
         == [0x01, 0x11, 0x04, 0x40, 0x86, 0xef, 0x97, 0xd5, 0x79, 0x00] + g + [0xbb, 0xd1, 0x23, 0x00] + h + [0x86, 0xaf, 0x3b]
  {
    SecondParts(c, g, h, curve);
    SecondNumbers();
    var amount4: seq<Byte>, amount16: seq<Byte> := [0x86, 0xef, 0x97, 0xd5, 0x79], [0xbb, 0xd1, 0x23];
    PutTogether(c, [0x01], [0x11], [0x04, 0x40], (amount4 + ([0] + g)) + (amount16 + ([0] + h)), [0x86, 0xaf, 0x3b], curve);
    SecondJoined(g, h);
  }

  lemma {:induction false} SecondParts(c: Coins, g: seq<Byte>, h: seq<Byte>, curve: Curve)
    requires |g| == |h| == 20 && |c.vout| == 17 && c.fCoinBase && !c.fCoinStake
    requires forall i | 0 <= i < 17 ::
               c.vout[i] == if i == 4 then Pays(234925952, g) else if i == 16 then Pays(110397, h) else NullOut
    ensures !c.IsPruned() && AllStorable(c.vout) && Mask(c.vout) == [0x04, 0x40] && HeaderCode(c) == 0x11
    ensures OutBytes(c.vout, 0, curve) == (Bytes(2114333561) + ([0] + g)) + (Bytes(993571) + ([0] + h))
  {
    SecondOuts(g, h, curve);
    assert !c.vout[16].IsNull();
    SecondMask(c);
    SecondHeader(c);
    SecondOutBytes(c, c.vout[4], c.vout[16], curve);
  }

  lemma {:induction false} SecondOuts(g: seq<Byte>, h: seq<Byte>, curve: Curve)
    requires |g| == |h| == 20
    ensures Storable(Pays(234925952, g)) && TxOutBytes(Pays(234925952, g), curve) == Bytes(2114333561) + ([0] + g)
    ensures Storable(Pays(110397, h)) && TxOutBytes(Pays(110397, h), curve) == Bytes(993571) + ([0] + h)
  {
    CodeOf(234925952, 1, 23492595, 2, 0);
    CodeOf(110397, 1, 11039, 7, 0);
    PaysStored(234925952, 2114333561, g, curve);
    PaysStored(110397, 993571, h, curve);
  }

  /** A single bit. */
  lemma {:induction false} OneBit(vout: seq<TxOut>, from: nat, n: nat, p: nat)
    requires p < n && forall i | from <= i < from + n :: Avail(vout, i) <==> i == from + p
    ensures MaskBits(vout, from, n) == Pow2(p)
    decreases n
  {
    assert Avail(vout, from) <==> p == 0;
    if p == 0 {
      MaskZero(vout, from + 1, n - 1);
    } else {
      OneBit(vout, from + 1, n - 1, p - 1);
    }
  }

  lemma {:induction false} SecondMask(c: Coins)
    requires |c.vout| == 17 && forall i | 0 <= i < 17 :: c.vout[i].IsNull() <==> i != 4 && i != 16
    ensures Mask(c.vout) == [0x04, 0x40]
  {
    OneBit(c.vout, 2, 8, 2);
    OneBit(c.vout, 10, 8, 6);
    assert MaskByte(c.vout, 0) == 4 && MaskByte(c.vout, 1) == 0x40;
    assert ByteCount(c.vout) == 2 && MaskEnd(c.vout, 2) == 2;
  }

  lemma {:induction false} SecondHeader(c: Coins)
    requires !c.IsPruned() && c.fCoinBase && !c.fCoinStake && !Avail(c.vout, 0) && !Avail(c.vout, 1) && Mask(c.vout) == [0x04, 0x40]
    ensures HeaderCode(c) == 0x11
  {
    var m := Mask(c.vout);
    assert NonzeroTo(m, 0) == 0 && NonzeroTo(m, 1) == 1 && NonzeroTo(m, 2) == 2;
  }

  lemma {:induction false} SecondOutBytes(c: Coins, o: TxOut, p: TxOut, curve: Curve)
    requires |c.vout| == 17 && AllStorable(c.vout) && c.vout[4] == o && c.vout[16] == p
    requires forall i | 0 <= i < 17 :: c.vout[i].IsNull() <==> i != 4 && i != 16
    ensures Storable(o) && Storable(p) && OutBytes(c.vout, 0, curve) == TxOutBytes(o, curve) + TxOutBytes(p, curve)
  {
    NullsSkipped(c.vout, 0, 4, curve);
    OutStored(c.vout, 4, curve);
    NullsSkipped(c.vout, 5, 16, curve);
    OutStored(c.vout, 16, curve);
    assert OutBytes(c.vout, 17, curve) == [];
  }

  lemma {:induction false} SecondNumbers()
    ensures Bytes(1) == [1] && Bytes(0x11) == [0x11] && Bytes(120891) == [0x86, 0xaf, 0x3b]
    ensures Bytes(2114333561) == [0x86, 0xef, 0x97, 0xd5, 0x79] && Bytes(993571) == [0xbb, 0xd1, 0x23]
  {
  }

  lemma {:induction false} SecondJoined(g: seq<Byte>, h: seq<Byte>)
    ensures var amount4: seq<Byte>, amount16: seq<Byte> := [0x86, 0xef, 0x97, 0xd5, 0x79], [0xbb, 0xd1, 0x23];
            [0x01] + ([0x11] + ([0x04, 0x40] + (((amount4 + ([0] + g)) + (amount16 + ([0] + h))) + [0x86, 0xaf, 0x3b])))
            == [0x01, 0x11, 0x04, 0x40, 0x86, 0xef, 0x97, 0xd5, 0x79, 0x00] + g + [0xbb, 0xd1, 0x23, 0x00] + h + [0x86, 0xaf, 0x3b]
  {
  }
}
