/**
Reading does not look beyond what it consumes, so what has been cut short is never taken for
something whole.
*/
module CoinsPrefix {
  import opened CoinsViews
  import opened Compressor
  import opened VarInt
  import opened CoinsCodec

  /** With `t` behind it, the same is read and `t` remains as well. */
  function More<T>(r: Read<T>, t: seq<Byte>): Read<T> {
    match r
    case Failed => Failed
    case Got(value, rest) => Got(value, rest + t)
  }

  lemma {:induction false} VarIntMore(s: seq<Byte>, t: seq<Byte>, n: nat, w: Width)
    requires ReadOn(s, n, w).Got?
    ensures ReadOn(s + t, n, w) == More(ReadOn(s, n, w), t)
    decreases |s|
  {
    assert (s + t)[1..] == s[1..] + t;
    var x := Wrap(w, n * 0x80) + s[0] % 0x80;
    if s[0] >= 0x80 {
      VarIntMore(s[1..], t, Wrap(w, x + 1), w);
    }
  }

  lemma {:induction false} SignedMore(s: seq<Byte>, t: seq<Byte>)
    requires ReadSigned(s).Got?
    ensures ReadSigned(s + t) == More(ReadSigned(s), t)
  {
    VarIntMore(s, t, 0, U32);
  }

  lemma {:induction false} ScriptMore(s: seq<Byte>, before: seq<Byte>, t: seq<Byte>, curve: Curve)
    requires ReadScript(s, before, curve).Got?
    ensures ReadScript(s + t, before, curve) == More(ReadScript(s, before, curve), t)
  {
    VarIntMore(s, t, 0, U32);
    var r := ReadVarInt(s, U32);
    var n := if r.value < SPECIAL_SCRIPTS then SpecialSize(r.value) else r.value - SPECIAL_SCRIPTS;
    assert (r.rest + t)[..n] == r.rest[..n] && (r.rest + t)[n..] == r.rest[n..] + t;
  }

  lemma {:induction false} TxOutMore(s: seq<Byte>, t: seq<Byte>, curve: Curve)
    requires ReadTxOut(s, curve).Got?
    ensures ReadTxOut(s + t, curve) == More(ReadTxOut(s, curve), t)
  {
    VarIntMore(s, t, 0, U64);
    ScriptMore(ReadVarInt(s, U64).rest, [], t, curve);
  }

  lemma {:induction false} MaskMore(s: seq<Byte>, t: seq<Byte>, nMaskCode: nat)
    requires ReadMask(s, nMaskCode).Got?
    ensures ReadMask(s + t, nMaskCode) == More(ReadMask(s, nMaskCode), t)
    decreases |s|
  {
    if nMaskCode > 0 {
      assert (s + t)[1..] == s[1..] + t;
      MaskMore(s[1..], t, if s[0] != 0 then nMaskCode - 1 else nMaskCode);
    }
  }

  lemma {:induction false} OutsMore(s: seq<Byte>, t: seq<Byte>, a: seq<bool>, i: nat, curve: Curve)
    requires i <= |a| && ReadOuts(s, a, i, curve).Got?
    ensures ReadOuts(s + t, a, i, curve) == More(ReadOuts(s, a, i, curve), t)
    decreases |a| - i
  {
    if i < |a| {
      if a[i] {
        TxOutMore(s, t, curve);
      }
      var r := if a[i] then ReadTxOut(s, curve) else Got(NullOut, s);
      OutsMore(r.rest, t, a, i + 1, curve);
    }
  }

  lemma {:induction false} RestMore(s: seq<Byte>, t: seq<Byte>, header: Coins, a: seq<bool>, curve: Curve)
    requires ReadRest(s, header, a, curve).Got?
    ensures ReadRest(s + t, header, a, curve) == More(ReadRest(s, header, a, curve), t)
  {
    OutsMore(s, t, a, 0, curve);
    SignedMore(ReadOuts(s, a, 0, curve).rest, t);
  }

  lemma {:induction false} BodyMore(s: seq<Byte>, t: seq<Byte>, version: int, nCode: nat, curve: Curve)
    requires ReadBody(s, version, nCode, curve).Got?
    ensures ReadBody(s + t, version, nCode, curve) == More(ReadBody(s, version, nCode, curve), t)
  {
    var n := nCode / 16 + if nCode / 4 % 2 == 1 || nCode / 8 % 2 == 1 then 0 else 1;
    MaskMore(s, t, n);
    var m := ReadMask(s, n);
    BodyRead(s, version, nCode, m.value, m.rest, curve);
    BodyRead(s + t, version, nCode, m.value, m.rest + t, curve);
    var header := Coins(nCode % 2 == 1, nCode / 2 % 2 == 1, [], 0, version);
    RestMore(m.rest, t, header, Availability(nCode / 4 % 2 == 1, nCode / 8 % 2 == 1, m.value), curve);
  }

  lemma {:induction false} CoinsMore(s: seq<Byte>, t: seq<Byte>, curve: Curve)
    requires ReadCoins(s, curve).Got?
    ensures ReadCoins(s + t, curve) == More(ReadCoins(s, curve), t)
  {
    SignedMore(s, t);
    var version := ReadSigned(s);
    VarIntMore(version.rest, t, 0, U32);
    var nCode := ReadVarInt(version.rest, U32);
    BodyMore(nCode.rest, t, version.value, nCode.value, curve);
  }

  /** Of the bytes of a script, nothing less than all can be read. */
  lemma {:induction false} ScriptCutShort(s: seq<Byte>, before: seq<Byte>, n: nat, curve: Curve)
    requires Lawful(curve) && |s| + SPECIAL_SCRIPTS < Limit(U32) && n < |ScriptBytes(s, curve)|
    ensures ReadScript(ScriptBytes(s, curve)[..n], before, curve) == Failed
  {
    var all := ScriptBytes(s, curve);
    ScriptRoundTrip(s, [], before, curve);
    assert all[..n] + all[n..] == all == all + [];
    if ReadScript(all[..n], before, curve).Got? {
      ScriptMore(all[..n], before, all[n..], curve);
    }
  }

  /** What is read as coins to the last byte cannot be read without it. */
  lemma {:induction false} NeedsAll(all: seq<Byte>, c: Coins, n: nat, curve: Curve)
    requires ReadCoins(all, curve) == Got(c, []) && n < |all|
    ensures ReadCoins(all[..n], curve) == Failed
  {
    assert all[..n] + all[n..] == all;
    if ReadCoins(all[..n], curve).Got? {
      CoinsMore(all[..n], all[n..], curve);
    }
  }

  /** Nor of those of coins. */
  lemma {:induction false} CoinsCutShort(c: Coins, n: nat, curve: Curve)
    requires Lawful(curve) && !c.IsPruned() && AllStorable(c.vout) && HeaderCode(c) < Limit(U32)
    requires Int32(c.nVersion) && Int32(c.nHeight) && n < |CoinsBytes(c, curve)|
    ensures ReadCoins(CoinsBytes(c, curve)[..n], curve) == Failed
  {
    var all := CoinsBytes(c, curve);
    CoinsRoundTrip(c, [], curve);
    assert all + [] == all;
    NeedsAll(all, ReadBackCoins(c), n, curve);
  }
}
