/**
The loops that write coins to a stream and read them back, and those that keep them up to date.
*/
module CoinsStream {
  import opened ArithBits
  import opened ArithSteps
  import opened CoinsViews
  import opened Compressor
  import opened VarInt
  import opened CoinsCodec

  /** A stream: what has been written and not been read. */
  class CDataStream {
    var data: seq<Byte>

    constructor ()
      ensures data == []
    {
      data := [];
    }

    method Write(bytes: seq<Byte>)
      modifies this
      ensures data == old(data) + bytes
    {
      data := data + bytes;
    }

    /** Nothing is read beyond the end. */
    method ReadBytes(n: nat) returns (ok: bool, bytes: seq<Byte>)
      modifies this
      ensures ok <==> n <= |old(data)|
      ensures if ok then bytes == old(data)[..n] && data == old(data)[n..] else data == old(data)
    {
      if n > |data| {
        return false, [];
      }
      ok, bytes := true, data[..n];
      data := data[n..];
    }

    method ReadUnsigned(w: Width) returns (ok: bool, n: nat)
      modifies this
      ensures match ReadVarInt(old(data), w)
              case Failed => !ok
              case Got(value, rest) => ok && n == value && data == rest
    {
      match ReadVarInt(data, w)
      case Failed => ok, n := false, 0;
      case Got(value, rest) => ok, n, data := true, value, rest;
    }

    method ReadInt() returns (ok: bool, n: int)
      modifies this
      ensures match ReadSigned(old(data))
              case Failed => !ok
              case Got(value, rest) => ok && n == value && data == rest
    {
      match ReadSigned(data)
      case Failed => ok, n := false, 0;
      case Got(value, rest) => ok, n, data := true, value, rest;
    }
  }

  class CScriptCompressor {
    var script: seq<Byte>
    const curve: Curve

    constructor (scriptIn: seq<Byte>, curveIn: Curve)
      ensures script == scriptIn && curve == curveIn
    {
      script := scriptIn;
      curve := curveIn;
    }

    method Compress() returns (ok: bool, out: seq<Byte>)
      ensures if ok then CompressScript(script, curve) == Some(out) else CompressScript(script, curve) == None
    {
      if IsToKeyID(script) {
        return true, [0] + script[3..23];
      }
      if IsToScriptID(script) {
        return true, [1] + script[2..22];
      }
      if IsToShortKey(script) {
        return true, script[1..34];
      }
      if IsToLongKey(script, curve) {
        var pubkey := script[1..66];
        assert pubkey[1..33] == script[2..34];
        return true, [4 + pubkey[64] % 2] + pubkey[1..33];
      }
      return false, [];
    }

    method Decompress(nSize: nat, input: seq<Byte>) returns (ok: bool)
      requires |input| == SpecialSize(nSize)
      modifies this
      ensures match DecompressScript(nSize, input, curve)
              case None => !ok && script == old(script)
              case Some(s) => ok && script == s
    {
      if nSize == 0 {
        script := [OP_DUP, OP_HASH160, 20] + input + [OP_EQUALVERIFY, OP_CHECKSIG];
        return true;
      } else if nSize == 1 {
        script := [OP_HASH160, 20] + input + [OP_EQUAL];
        return true;
      } else if nSize <= 3 {
        script := [33, nSize] + input + [OP_CHECKSIG];
        return true;
      } else if nSize <= 5 {
        var pubkey := curve.decompress([nSize - 2] + input);
        if pubkey.None? {
          return false;
        }
        script := [65] + pubkey.value + [OP_CHECKSIG];
        return true;
      }
      return false;
    }

    method Serialize(s: CDataStream)
      modifies s
      ensures s.data == old(s.data) + ScriptBytes(script, curve)
    {
      var ok, compr := Compress();
      if ok {
        s.Write(compr);
        return;
      }
      var nSize := Bytes(|script| + SPECIAL_SCRIPTS);
      s.Write(nSize);
      s.Write(script);
      assert old(s.data) + nSize + script == old(s.data) + (nSize + script);
    }

    method Unserialize(s: CDataStream) returns (ok: bool)
      modifies this, s
      ensures match ReadScript(old(s.data), old(script), curve)
              case Failed => !ok
              case Got(value, rest) => ok && script == value && s.data == rest
    {
      var nSize;
      ok, nSize := s.ReadUnsigned(U32);
      if !ok {
        return;
      }
      var bytes;
      if nSize < SPECIAL_SCRIPTS {
        ok, bytes := s.ReadBytes(SpecialSize(nSize));
        if ok {
          var valid := Decompress(nSize, bytes);
        }
        return;
      }
      ok, bytes := s.ReadBytes(nSize - SPECIAL_SCRIPTS);
      if ok {
        script := bytes;
      }
    }
  }

  /** What is needed to undo a spend: the output and, if it was the last, what belonged to all of them. */
  datatype TxInUndo = TxInUndo(txout: TxOut, fCoinBase: bool, fCoinStake: bool, nHeight: int, nVersion: int)

  class CCoins {
    var fCoinBase: bool
    var fCoinStake: bool
    var vout: seq<TxOut>
    var nHeight: int
    var nVersion: int

    ghost function Value(): Coins
      reads this
    {
      Coins(fCoinBase, fCoinStake, vout, nHeight, nVersion)
    }

    constructor ()
      ensures Value() == NoCoins
    {
      fCoinBase, fCoinStake, vout, nHeight, nVersion := false, false, [], 0, 0;
    }

    method Cleanup()
      modifies this
      ensures Value() == old(Value()).Cleanup()
    {
      while |vout| > 0 && vout[|vout| - 1].IsNull()
        invariant Value().Cleanup() == old(Value()).Cleanup()
        decreases |vout|
      {
        vout := vout[..|vout| - 1];
      }
    }

    /**
    Spend an output.  Exactly that output is not available afterwards; what it was can be undone:
    the height and so on are kept with it exactly if no output remains.
    */
    method Spend(n: nat) returns (ok: bool, undo: TxInUndo)
      modifies this
      ensures ok <==> Avail(old(vout), n)
      ensures !ok ==> Value() == old(Value())
      ensures ok ==> Value() == old(Value().(vout := vout[n := NullOut])).Cleanup()
      ensures ok ==> forall i: nat :: Avail(vout, i) <==> i != n && Avail(old(vout), i)
      ensures ok ==> undo.txout == old(vout)[n]
      ensures ok ==> undo == if Value().IsPruned() then TxInUndo(old(vout)[n], fCoinBase, fCoinStake, nHeight, nVersion)
                             else TxInUndo(old(vout)[n], false, false, 0, 0)
    {
      undo := TxInUndo(NullOut, false, false, 0, 0);
      if n >= |vout| {
        return false, undo;
      }
      if vout[n].IsNull() {
        return false, undo;
      }
      undo := undo.(txout := vout[n]);
      vout := vout[n := NullOut];
      ghost var before := Value();
      Cleanup();
      CleanupKeeps(before);
      CleanupAvail(before);
      if |vout| == 0 {
        undo := TxInUndo(undo.txout, fCoinBase, fCoinStake, nHeight, nVersion);
      }
      ok := true;
    }

    /** Are all eight outputs of byte `b` of the mask spent? */
    method ByteIsZero(b: nat) returns (fZero: bool)
      ensures fZero <==> MaskByte(vout, b) == 0
    {
      fZero := true;
      MaskZero(vout, 2 + b * 8, 8);
      var i := 0;
      while i < 8 && 2 + b * 8 + i < |vout|
        invariant 0 <= i <= 8
        invariant fZero <==> forall j | 2 + b * 8 <= j < 2 + b * 8 + i :: !Avail(vout, j)
      {
        if !vout[2 + b * 8 + i].IsNull() {
          assert Avail(vout, 2 + b * 8 + i);
          fZero := false;
        }
        i := i + 1;
      }
    }

    method CalcMaskSize() returns (nBytes: nat, nNonzeroBytes: nat)
      ensures nBytes == |Mask(vout)| && nNonzeroBytes == Nonzero(Mask(vout))
    {
      nBytes, nNonzeroBytes := 0, 0;
      ghost var all := AllBytes(vout);
      var b := 0;
      while 2 + b * 8 < |vout|
        invariant 0 <= b <= ByteCount(vout)
        invariant nBytes == MaskEnd(vout, b) && nNonzeroBytes == NonzeroTo(all, b)
        decreases |vout| - b
      {
        var fZero := ByteIsZero(b);
        if !fZero {
          nBytes := b + 1;
          nNonzeroBytes := nNonzeroBytes + 1;
        }
        b := b + 1;
      }
      MaskOfAll(vout, all);
    }

    /** The bits of byte `b` of the mask. */
    method AvailByte(b: nat) returns (chAvail: Byte)
      ensures chAvail == MaskByte(vout, b)
    {
      var bits: nat := 0;
      var i := 0;
      while i < 8 && 2 + b * 8 + i < |vout|
        invariant 0 <= i <= 8 && bits == MaskBits(vout, 2 + b * 8, i)
      {
        MaskNext(vout, 2 + b * 8, i);
        if !vout[2 + b * 8 + i].IsNull() {
          bits := Or(bits, Pow2(i));
        }
        i := i + 1;
      }
      MaskRest(vout, 2 + b * 8, i, 8);
      chAvail := MaskByte(vout, b);
      assert bits == chAvail;
    }

    method Serialize(s: CDataStream, curve: Curve)
      requires !Value().IsPruned() && AllStorable(vout)
      modifies s
      ensures s.data == old(s.data) + CoinsBytes(Value(), curve)
    {
      ghost var before := s.data;
      var nMaskSize := WriteHeader(s);
      WriteMask(s, nMaskSize);
      WriteOuts(s, curve);
      s.Write(SignedBytes(nHeight));
      Concatenate(before, SignedBytes(nVersion), Bytes(HeaderCode(Value())), Mask(vout), OutBytes(vout, 0, curve), SignedBytes(nHeight));
    }

    method WriteHeader(s: CDataStream) returns (nMaskSize: nat)
      requires !Value().IsPruned()
      modifies s
      ensures nMaskSize == |Mask(vout)|
      ensures s.data == old(s.data) + SignedBytes(nVersion) + Bytes(HeaderCode(Value()))
    {
      var nMaskCode;
      nMaskSize, nMaskCode := CalcMaskSize();
      var fFirst := |vout| > 0 && !vout[0].IsNull();
      var fSecond := |vout| > 1 && !vout[1].IsNull();
      SomeAvailable(Value());
      assert fFirst || fSecond || nMaskCode > 0;
      var nCode := 16 * (nMaskCode - if fFirst || fSecond then 0 else 1)
        + Flag(fCoinBase, 1) + Flag(fCoinStake, 2) + Flag(fFirst, 4) + Flag(fSecond, 8);
      s.Write(SignedBytes(nVersion));
      s.Write(Bytes(nCode));
    }

    method WriteMask(s: CDataStream, nMaskSize: nat)
      requires nMaskSize == |Mask(vout)|
      modifies s
      ensures s.data == old(s.data) + Mask(vout)
    {
      ghost var m := Mask(vout);
      for b := 0 to nMaskSize
        invariant s.data == old(s.data) + m[..b]
      {
        var chAvail := AvailByte(b);
        s.Write([chAvail]);
        assert m[..b + 1] == m[..b] + [m[b]];
      }
      assert m[..nMaskSize] == m;
    }

    method WriteOuts(s: CDataStream, curve: Curve)
      requires AllStorable(vout)
      modifies s
      ensures s.data == old(s.data) + OutBytes(vout, 0, curve)
    {
      ghost var total := old(s.data) + OutBytes(vout, 0, curve);
      for i := 0 to |vout|
        invariant s.data + OutBytes(vout, i, curve) == total
      {
        ghost var before := s.data;
        var out := [];
        if !vout[i].IsNull() {
          out := TxOutBytes(vout[i], curve);
        }
        s.Write(out);
        Regroup(before, out, OutBytes(vout, i + 1, curve));
      }
      assert s.data + [] == s.data;
    }

    /** Read back what Serialize wrote; `ok` is false if the stream ends too early. */
    method Unserialize(s: CDataStream, curve: Curve) returns (ok: bool)
      modifies this, s
      ensures match ReadCoins(old(s.data), curve)
              case Failed => !ok
              case Got(c, rest) => ok && Value() == c && s.data == rest
    {
      var nCode;
      ok, nVersion := s.ReadInt();
      if !ok {
        return;
      }
      ok, nCode := s.ReadUnsigned(U32);
      if !ok {
        return;
      }
      ok := UnserializeBody(s, nCode, curve);
    }

    method UnserializeBody(s: CDataStream, nCode: nat, curve: Curve) returns (ok: bool)
      modifies this, s
      ensures match ReadBody(old(s.data), old(nVersion), nCode, curve)
              case Failed => !ok
              case Got(c, rest) => ok && Value() == c && s.data == rest
    {
      fCoinBase := nCode % 2 == 1;
      fCoinStake := nCode / 2 % 2 == 1;
      var fFirst, fSecond := nCode / 4 % 2 == 1, nCode / 8 % 2 == 1;
      ok := UnserializeMasked(s, nCode / 16 + if fFirst || fSecond then 0 else 1, fFirst, fSecond, curve);
    }

    method UnserializeMasked(s: CDataStream, nMaskCode: nat, fFirst: bool, fSecond: bool, curve: Curve) returns (ok: bool)
      modifies this, s
      ensures match ReadMask(old(s.data), nMaskCode)
              case Failed => !ok
              case Got(m, s3) =>
                match ReadRest(s3, Coins(old(fCoinBase), old(fCoinStake), [], 0, old(nVersion)), Availability(fFirst, fSecond, m), curve)
                case Failed => !ok
                case Got(c, rest) => ok && Value() == c && s.data == rest
    {
      var vAvail;
      ok, vAvail := ReadAvailability(s, nMaskCode, fFirst, fSecond);
      if !ok {
        return;
      }
      ok := UnserializeRest(s, vAvail, curve);
    }

    method UnserializeRest(s: CDataStream, vAvail: seq<bool>, curve: Curve) returns (ok: bool)
      modifies this, s
      ensures match ReadRest(old(s.data), Coins(old(fCoinBase), old(fCoinStake), [], 0, old(nVersion)), vAvail, curve)
              case Failed => !ok
              case Got(c, rest) => ok && Value() == c && s.data == rest
    {
      ok, vout := UnserializeOuts(s, vAvail, curve);
      if !ok {
        return;
      }
      ok, nHeight := s.ReadInt();
      if !ok {
        return;
      }
      Cleanup();
    }
  }

  /** What has been read, followed by what remains to be read. */
  function After<T>(read: seq<T>, r: Read<seq<T>>): Read<seq<T>> {
    match r
    case Failed => Failed
    case Got(more, rest) => Got(read + more, rest)
  }

  method ReadAvailability(s: CDataStream, nMaskBytes: nat, fFirst: bool, fSecond: bool) returns (ok: bool, vAvail: seq<bool>)
    modifies s
    ensures match ReadMask(old(s.data), nMaskBytes)
            case Failed => !ok
            case Got(m, rest) => ok && vAvail == Availability(fFirst, fSecond, m) && s.data == rest
  {
    ok, vAvail := true, [fFirst, fSecond];
    ghost var m: seq<Byte> := [];
    var nMaskCode := nMaskBytes;
    AfterNothing(ReadMask(s.data, nMaskBytes));
    while nMaskCode > 0
      invariant vAvail == Availability(fFirst, fSecond, m)
      invariant ReadMask(old(s.data), nMaskBytes) == After(m, ReadMask(s.data, nMaskCode))
      decreases |s.data|
    {
      ghost var before := s.data;
      var byte;
      ok, byte := s.ReadBytes(1);
      if !ok {
        return;
      }
      var chAvail := byte[0];
      vAvail := PushFlags(vAvail, chAvail);
      FlagsPushed(fFirst, fSecond, m, chAvail, vAvail);
      AfterOne(m, chAvail, ReadMask(s.data, if chAvail != 0 then nMaskCode - 1 else nMaskCode));
      m := m + [chAvail];
      if chAvail != 0 {
        nMaskCode := nMaskCode - 1;
      }
    }
    AfterAll(m, s.data);
  }

  method PushFlags(vAvail: seq<bool>, chAvail: Byte) returns (pushed: seq<bool>)
    ensures |pushed| == |vAvail| + 8 && vAvail <= pushed
    ensures forall p | 0 <= p < 8 :: pushed[|vAvail| + p] == Bit(chAvail, p)
  {
    pushed := vAvail;
    for p := 0 to 8
      invariant |pushed| == |vAvail| + p && vAvail <= pushed
      invariant forall q | 0 <= q < p :: pushed[|vAvail| + q] == Bit(chAvail, q)
    {
      pushed := pushed + [Bit(chAvail, p)];
    }
  }

  lemma {:induction false} FlagsPushed(fFirst: bool, fSecond: bool, m: seq<Byte>, chAvail: Byte, pushed: seq<bool>)
    requires var a := Availability(fFirst, fSecond, m);
             |pushed| == |a| + 8 && a <= pushed && forall p | 0 <= p < 8 :: pushed[|a| + p] == Bit(chAvail, p)
    ensures pushed == Availability(fFirst, fSecond, m + [chAvail])
  {
    var a, b := Availability(fFirst, fSecond, m), Availability(fFirst, fSecond, m + [chAvail]);
    forall i | 0 <= i < |pushed| ensures pushed[i] == b[i] {
      if i >= |a| {
        var p := i - |a|;
        assert pushed[|a| + p] == Bit(chAvail, p);
        assert (i - 2) / 8 == |m| && (i - 2) % 8 == p;
      }
    }
  }

  lemma {:induction false} AfterNothing<T>(r: Read<seq<T>>)
    ensures After([], r) == r
  {
    if r.Got? {
      assert [] + r.value == r.value;
    }
  }

  lemma {:induction false} AfterOne<T>(read: seq<T>, x: T, r: Read<seq<T>>)
    ensures After(read, After([x], r)) == After(read + [x], r)
  {
    if r.Got? {
      assert read + ([x] + r.value) == read + [x] + r.value;
    }
  }

  lemma {:induction false} AfterAll<T>(read: seq<T>, rest: seq<Byte>)
    ensures After(read, Got([], rest)) == Got(read, rest)
  {
    assert read + [] == read;
  }

  method UnserializeOuts(s: CDataStream, vAvail: seq<bool>, curve: Curve) returns (ok: bool, vout: seq<TxOut>)
    modifies s
    ensures match ReadOuts(old(s.data), vAvail, 0, curve)
            case Failed => !ok
            case Got(outs, rest) => ok && vout == outs && s.data == rest
  {
    ok, vout := true, [];
    AfterNothing(ReadOuts(s.data, vAvail, 0, curve));
    for i := 0 to |vAvail|
      invariant ReadOuts(old(s.data), vAvail, 0, curve) == After(vout, ReadOuts(s.data, vAvail, i, curve))
    {
      ghost var before := s.data;
      var o := NullOut;
      if vAvail[i] {
        match ReadTxOut(s.data, curve)
        case Failed =>
          return false, vout;
        case Got(value, rest) =>
          o, s.data := value, rest;
      }
      OutsRead(before, vAvail, i, o, s.data, curve);
      AfterOne(vout, o, ReadOuts(s.data, vAvail, i + 1, curve));
      vout := vout + [o];
    }
    AfterAll(vout, s.data);
  }

  lemma {:induction false} Concatenate(s: seq<Byte>, a: seq<Byte>, b: seq<Byte>, c: seq<Byte>, d: seq<Byte>, e: seq<Byte>)
    ensures s + a + b + c + d + e == s + (a + (b + (c + (d + e))))
  {
  }

  lemma {:induction false} CleanupAvail(c: Coins)
    ensures forall i: nat :: Avail(c.Cleanup().vout, i) <==> Avail(c.vout, i)
  {
  }

  /** The mask with all zero bytes at its end. */
  function AllBytes(vout: seq<TxOut>): (all: seq<Byte>)
    ensures |all| == ByteCount(vout) && forall b | 0 <= b < |all| :: all[b] == MaskByte(vout, b)
  {
    seq(ByteCount(vout), b requires 0 <= b => MaskByte(vout, b))
  }

  /** The mask has all the bytes that are not zero. */
  lemma {:induction false} MaskOfAll(vout: seq<TxOut>, all: seq<Byte>)
    requires |all| == ByteCount(vout) && forall b | 0 <= b < |all| :: all[b] == MaskByte(vout, b)
    ensures NonzeroTo(all, |all|) == Nonzero(Mask(vout))
  {
    var m := Mask(vout);
    NonzeroSame(all, m, |m|);
    NonzeroRest(all, |m|, |all|);
  }

  lemma {:induction false} NonzeroSame(m: seq<Byte>, n: seq<Byte>, k: nat)
    requires k <= |m| && k <= |n| && forall b | 0 <= b < k :: m[b] == n[b]
    ensures NonzeroTo(m, k) == NonzeroTo(n, k)
    decreases k
  {
    if k > 0 {
      NonzeroSame(m, n, k - 1);
    }
  }

  lemma {:induction false} NonzeroRest(m: seq<Byte>, j: nat, k: nat)
    requires j <= k <= |m| && forall b | j <= b < k :: m[b] == 0
    ensures NonzeroTo(m, k) == NonzeroTo(m, j)
    decreases k
  {
    if j < k {
      NonzeroRest(m, j, k - 1);
    }
  }

  /** One more bit on top. */
  lemma {:induction false} MaskMore(vout: seq<TxOut>, from: nat, n: nat)
    ensures MaskBits(vout, from, n + 1) == MaskBits(vout, from, n) + if Avail(vout, from + n) then Pow2(n) else 0
    decreases n
  {
    if n > 0 {
      MaskMore(vout, from + 1, n - 1);
      assert Pow2(n) == 2 * Pow2(n - 1);
    }
  }

  lemma {:induction false} MaskNext(vout: seq<TxOut>, from: nat, n: nat)
    ensures MaskBits(vout, from, n + 1) == if Avail(vout, from + n) then Or(MaskBits(vout, from, n), Pow2(n)) else MaskBits(vout, from, n)
  {
    MaskMore(vout, from, n);
    MaskBound(vout, from, n);
    UpIsProduct(1, n);
    SplitUnique(1, 0, n);
    OrDisjoint(Pow2(n), MaskBits(vout, from, n), n);
  }

  lemma {:induction false} MaskRest(vout: seq<TxOut>, from: nat, j: nat, n: nat)
    requires j <= n && (j == n || |vout| <= from + j)
    ensures MaskBits(vout, from, n) == MaskBits(vout, from, j)
    decreases n
  {
    if j < n {
      MaskRest(vout, from, j, n - 1);
      MaskMore(vout, from, n - 1);
    }
  }
}
