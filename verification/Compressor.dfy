/**
The compact form of amounts, of scripts and of transaction outputs.
*/
module Compressor {
  import opened VarInt
  import opened CoinsViews

  const TWO63 := 0x8000_0000_0000_0000
  const TWO64 := 0x1_0000_0000_0000_0000

  //////////////////////////////////////////////////////////////////////////////
  //
  // Amounts
  //
  //////////////////////////////////////////////////////////////////////////////

  function Up10(n: nat, e: nat): nat
    decreases e
  {
    if e == 0 then n else 10 * Up10(n, e - 1)
  }

  /** Divide by ten as long as that leaves no rest, up to nine times in all. */
  function Strip(n: nat, e: nat): (nat, nat)
    decreases n
  {
    if n > 0 && n % 10 == 0 && e < 9 then Strip(n / 10, e + 1) else (n, e)
  }

  /** The code for `m` followed by `e` zeros: if `e` is below nine, `m` has a last digit that is not zero. */
  function Code(m: nat, e: nat): nat
    requires m > 0 && (e < 9 ==> m % 10 > 0)
  {
    if e < 9 then CodeDigit(m / 10, m % 10, e) else 1 + (m - 1) * 10 + 9
  }

  function CodeDigit(n: nat, d: nat, e: nat): nat
    requires d > 0
  {
    1 + (n * 9 + (d - 1)) * 10 + e
  }

  function Compress(n: nat): nat {
    if n == 0 then 0
    else
      StripUp(n, 0);
      var (m, e) := Strip(n, 0);
      Code(m, e)
  }

  function Mantissa(y: nat, e: nat): nat {
    if e < 9 then y / 9 * 10 + (y % 9 + 1) else y + 1
  }

  function Decompress(x: nat): nat {
    if x == 0 then 0 else Up10(Mantissa((x - 1) / 10, (x - 1) % 10), (x - 1) % 10)
  }

  lemma {:induction false} StripUp(n: nat, e: nat)
    requires n > 0 && e <= 9
    ensures var (m, e') := Strip(n, e);
            e <= e' <= 9 && m > 0 && m <= n && n == Up10(m, e' - e) && (e' < 9 ==> m % 10 != 0)
    decreases n
  {
    if n % 10 == 0 && e < 9 {
      StripUp(n / 10, e + 1);
    }
  }

  lemma {:induction false} UpStrip(m: nat, k: nat, e: nat)
    requires m > 0 && e + k <= 9 && (e + k < 9 ==> m % 10 != 0)
    ensures Up10(m, k) > 0 && Strip(Up10(m, k), e) == (m, e + k)
    decreases k
  {
    if k > 0 {
      UpStrip(m, k - 1, e + 1);
      assert Up10(m, k) / 10 == Up10(m, k - 1);
    }
  }

  lemma {:induction false} CodeMantissa(m: nat, e: nat)
    requires m > 0 && e <= 9 && (e < 9 ==> m % 10 > 0)
    ensures var x := Code(m, e);
            x > 0 && (x - 1) % 10 == e && Mantissa((x - 1) / 10, e) == m
  {
    if e < 9 {
      var y := m / 10 * 9 + (m % 10 - 1);
      assert Code(m, e) - 1 == y * 10 + e;
      assert y / 9 == m / 10 && y % 9 == m % 10 - 1;
    }
  }

  lemma {:induction false} MantissaCode(y: nat, e: nat)
    requires e <= 9
    ensures var m := Mantissa(y, e); m > 0 && (e < 9 ==> m % 10 > 0) && Code(m, e) == 1 + y * 10 + e
  {
    if e < 9 {
      var m := Mantissa(y, e);
      assert m % 10 == y % 9 + 1 && m / 10 == y / 9;
      assert y == y / 9 * 9 + y % 9;
    }
  }

  lemma {:induction false} DecompressCompress(n: nat)
    ensures Decompress(Compress(n)) == n
  {
    if n > 0 {
      StripUp(n, 0);
      var (m, e) := Strip(n, 0);
      CodeMantissa(m, e);
    }
  }

  lemma {:induction false} CompressDecompress(x: nat)
    ensures Compress(Decompress(x)) == x
  {
    if x > 0 {
      var e, y := (x - 1) % 10, (x - 1) / 10;
      MantissaCode(y, e);
      UpStrip(Mantissa(y, e), e, 0);
    }
  }

  /**
  The codes in closed form: of an amount with `e` zeros at the end behind the digit `d`, and of
  one with nine or more.
  */
  lemma {:induction false} CodesAre(n: nat, d: nat, e: nat)
    requires 1 <= d <= 9 && e < 9
    ensures Compress(0) == 0
    ensures Compress((10 * n + d) * [1, 10, 100, 1000, 10000, 100000, 1000000, 10000000, 100000000][e]) == 1 + 10 * (9 * n + d - 1) + e
    ensures n > 0 ==> Compress(n * 1000000000) == 1 + 10 * (n - 1) + 9
  {
    var m := 10 * n + d;
    assert m % 10 == d && m / 10 == n;
    PowersOfTen(m, e);
    UpStrip(m, e, 0);
    if n > 0 {
      PowersOfTen(n, 9);
      UpStrip(n, 9, 0);
    }
  }

  /**
  The examples of compress_tests.cpp, the last of which, 128000000 coins, it gives with the code
  of 21000000.
  */
  lemma {:induction false} AmountExamples()
    ensures Compress(0) == 0 && Compress(1) == 1 && Compress(1000000) == 7 && Compress(100000000) == 9
    ensures Compress(50 * 100000000) == 0x32
    ensures Compress(128000000 * 100000000) == 0x7a12000 && Decompress(0x1406f40) == 21000000 * 100000000
  {
    CodeOf(1, 1, 0, 1, 0);
    CodeOf(1000000, 1000000, 0, 1, 6);
    CodeOf(100000000, 100000000, 0, 1, 8);
    CodeOfNineZeros(50 * 100000000, 5);
    CodeOfNineZeros(128000000 * 100000000, 12800000);
    CodeOfNineZeros(21000000 * 100000000, 2100000);
    DecompressCompress(21000000 * 100000000);
  }

  lemma {:induction false} CodeOf(amount: nat, p: nat, n: nat, d: nat, e: nat)
    requires 1 <= d <= 9 && e < 9 && amount == (10 * n + d) * p
    requires p == [1, 10, 100, 1000, 10000, 100000, 1000000, 10000000, 100000000][e]
    ensures Compress(amount) == 1 + 10 * (9 * n + d - 1) + e
  {
    CodesAre(n, d, e);
  }

  lemma {:induction false} CodeOfNineZeros(amount: nat, n: nat)
    requires amount == n * 1000000000 && n > 0
    ensures Compress(amount) == 1 + 10 * (n - 1) + 9
  {
    CodesAre(n, 1, 0);
  }

  lemma {:induction false} PowersOfTen(m: nat, e: nat)
    requires e <= 9
    ensures Up10(m, e) == m * [1, 10, 100, 1000, 10000, 100000, 1000000, 10000000, 100000000, 1000000000][e]
    decreases e
  {
    if e > 0 {
      PowersOfTen(m, e - 1);
    }
  }

  /** Amounts up to 2 * 10^18 are compressed to 64 bits. */
  lemma {:induction false} NoOverflow(n: nat)
    requires n <= 2_000_000_000_000_000_000
    ensures Compress(n) < TWO64
  {
    if n > 0 {
      StripUp(n, 0);
      var (m, e) := Strip(n, 0);
      if e == 9 {
        UpAtLeast(m, 9);
      }
    }
  }

  lemma {:induction false} UpAtLeast(m: nat, e: nat)
    requires e > 0
    ensures Up10(m, e) >= 10 * m
    decreases e
  {
    if e > 1 {
      UpAtLeast(m, e - 1);
    }
  }

  /** In 64 bits, as the source computes. */
  method CompressAmount(nAmount: nat) returns (x: nat)
    requires nAmount < TWO64
    ensures x == Compress(nAmount) % TWO64
  {
    if nAmount == 0 {
      return 0;
    }
    var n, e := nAmount, 0;
    while n % 10 == 0 && e < 9
      invariant 0 < n <= nAmount && e <= 9 && Strip(nAmount, 0) == Strip(n, e)
    {
      n := n / 10;
      e := e + 1;
    }
    if e < 9 {
      var d := n % 10;
      assert 1 <= d <= 9;
      n := n / 10;
      x := CodeIn64(n, d, e);
    } else {
      x := (1 + (n - 1) * 10 + 9) % TWO64;
    }
  }

  method CodeIn64(n: nat, d: nat, e: nat) returns (x: nat)
    requires d > 0
    ensures x == CodeDigit(n, d, e) % TWO64
  {
    var y := (n * 9 + (d - 1)) % TWO64;
    x := (1 + y * 10 + e) % TWO64;
    CodeWraps(n * 9 + (d - 1), y, (n * 9 + (d - 1)) / TWO64, e);
  }

  lemma {:induction false} CodeWraps(m: nat, y: nat, q: nat, e: nat)
    requires m == q * TWO64 + y && y < TWO64
    ensures (1 + y * 10 + e) % TWO64 == (1 + m * 10 + e) % TWO64
  {
    assert 1 + m * 10 + e == (1 + y * 10 + e) + (10 * q) * TWO64;
  }

  method DecompressAmount(nAmount: nat) returns (n: nat)
    requires nAmount < TWO64
    ensures n == Decompress(nAmount) % TWO64
  {
    if nAmount == 0 {
      return 0;
    }
    var x := nAmount - 1;
    var e := x % 10;
    x := x / 10;
    ghost var m, k, total := Mantissa(x, e), 0, e;
    if e < 9 {
      var d := x % 9 + 1;
      x := x / 9;
      n := (x * 10 + d) % TWO64;
    } else {
      n := x + 1;
    }
    while e > 0
      invariant 0 <= e && k + e == total && n == Up10(m, k) % TWO64
    {
      TenMore(Up10(m, k));
      n := n * 10 % TWO64;
      e := e - 1;
      k := k + 1;
    }
  }

  lemma {:induction false} TenMore(x: nat)
    ensures x % TWO64 * 10 % TWO64 == x * 10 % TWO64
  {
    var q := x / TWO64;
    assert x * 10 == x % TWO64 * 10 + TWO64 * (10 * q);
  }

  //////////////////////////////////////////////////////////////////////////////
  //
  // Scripts
  //
  //////////////////////////////////////////////////////////////////////////////

  const OP_DUP: Byte := 0x76
  const OP_EQUAL: Byte := 0x87
  const OP_EQUALVERIFY: Byte := 0x88
  const OP_HASH160: Byte := 0xa9
  const OP_CHECKSIG: Byte := 0xac

  const SPECIAL_SCRIPTS := 6

  /** Which keys of 65 bytes are points of the curve, and which of them a key of 33 bytes abbreviates. */
  datatype Curve = Curve(valid: seq<Byte> -> bool, decompress: seq<Byte> -> Option<seq<Byte>>)

  function Short(key: seq<Byte>): seq<Byte>
    requires |key| == 65
  {
    [2 + key[64] % 2] + key[1..33]
  }

  ghost predicate Lawful(curve: Curve) {
    forall key: seq<Byte> {:trigger curve.valid(key)} ::
      |key| == 65 && key[0] == 4 && curve.valid(key) ==> curve.decompress(Short(key)) == Some(key)
  }

  predicate IsToKeyID(s: seq<Byte>) {
    |s| == 25 && s[0] == OP_DUP && s[1] == OP_HASH160 && s[2] == 20 && s[23] == OP_EQUALVERIFY && s[24] == OP_CHECKSIG
  }

  predicate IsToScriptID(s: seq<Byte>) {
    |s| == 23 && s[0] == OP_HASH160 && s[1] == 20 && s[22] == OP_EQUAL
  }

  predicate IsToShortKey(s: seq<Byte>) {
    |s| == 35 && s[0] == 33 && s[34] == OP_CHECKSIG && (s[1] == 2 || s[1] == 3)
  }

  predicate IsToLongKey(s: seq<Byte>, curve: Curve) {
    |s| == 67 && s[0] == 65 && s[66] == OP_CHECKSIG && s[1] == 4 && curve.valid(s[1..66])
  }

  function CompressScript(s: seq<Byte>, curve: Curve): Option<seq<Byte>> {
    if IsToKeyID(s) then Some([0] + s[3..23])
    else if IsToScriptID(s) then Some([1] + s[2..22])
    else if IsToShortKey(s) then Some(s[1..34])
    else if IsToLongKey(s, curve) then Some([4 + s[65] % 2] + s[2..34])
    else None
  }

  function SpecialSize(nSize: nat): nat {
    if nSize <= 1 then 20 else if nSize <= 5 then 32 else 0
  }

  function DecompressScript(nSize: nat, input: seq<Byte>, curve: Curve): Option<seq<Byte>>
    requires |input| == SpecialSize(nSize)
  {
    if nSize == 0 then Some([OP_DUP, OP_HASH160, 20] + input + [OP_EQUALVERIFY, OP_CHECKSIG])
    else if nSize == 1 then Some([OP_HASH160, 20] + input + [OP_EQUAL])
    else if nSize <= 3 then Some([33, nSize] + input + [OP_CHECKSIG])
    else if nSize <= 5 then
      match curve.decompress([nSize - 2] + input)
      case None => None
      case Some(key) => Some([65] + key + [OP_CHECKSIG])
    else None
  }

  function ScriptBytes(s: seq<Byte>, curve: Curve): seq<Byte> {
    match CompressScript(s, curve)
    case Some(out) => out
    case None => Bytes(|s| + SPECIAL_SCRIPTS) + s
  }

  /** What Unserialize leaves in a script that was `before`. */
  function ReadScript(s: seq<Byte>, before: seq<Byte>, curve: Curve): Read<seq<Byte>> {
    match ReadVarInt(s, U32)
    case Failed => Failed
    case Got(nSize, rest) =>
      if nSize < SPECIAL_SCRIPTS then
        var n := SpecialSize(nSize);
        if |rest| < n then Failed
        else
          match DecompressScript(nSize, rest[..n], curve)
          case None => Got(before, rest[n..])
          case Some(script) => Got(script, rest[n..])
      else
        var n := nSize - SPECIAL_SCRIPTS;
        if |rest| < n then Failed else Got(rest[..n], rest[n..])
  }

  /** A special script is what its compressed form is decompressed to. */
  lemma {:induction false} SpecialScript(s: seq<Byte>, curve: Curve)
    requires Lawful(curve) && CompressScript(s, curve).Some?
    ensures var out := CompressScript(s, curve).value;
            && |out| > 0 && out[0] < SPECIAL_SCRIPTS && |out| == 1 + SpecialSize(out[0])
            && DecompressScript(out[0], out[1..], curve) == Some(s)
  {
    var input := CompressScript(s, curve).value[1..];
    if IsToKeyID(s) {
      assert input == s[3..23];
      assert s == [OP_DUP, OP_HASH160, 20] + input + [OP_EQUALVERIFY, OP_CHECKSIG];
    } else if IsToScriptID(s) {
      assert input == s[2..22];
      assert s == [OP_HASH160, 20] + input + [OP_EQUAL];
    } else if IsToShortKey(s) {
      assert input == s[2..34];
      assert s == [33, s[1]] + input + [OP_CHECKSIG];
    } else {
      var key := s[1..66];
      assert input == s[2..34] == key[1..33];
      assert s == [65] + key + [OP_CHECKSIG];
      assert key[64] == s[65];
      assert Short(key) == [4 + s[65] % 2 - 2] + input;
    }
  }

  /** The scripts that have a short form, by their bytes. */
  predicate HasShortForm(s: seq<Byte>, curve: Curve) {
    || (|s| == 25 && s[..3] == [0x76, 0xa9, 20] && s[23..] == [0x88, 0xac])
    || (|s| == 23 && s[..2] == [0xa9, 20] && s[22..] == [0x87])
    || (|s| == 35 && (s[..2] == [33, 2] || s[..2] == [33, 3]) && s[34..] == [0xac])
    || (|s| == 67 && s[..2] == [65, 4] && s[66..] == [0xac] && curve.valid(s[1..66]))
  }

  /** What is written for them: 0 for a key hash, 1 for a script hash, 2 to 5 for a key by its form and parity. */
  lemma {:induction false} ShortForms(h: seq<Byte>, x: seq<Byte>, y: seq<Byte>, curve: Curve)
    requires |h| == 20 && |x| == |y| == 32
    ensures ScriptBytes([0x76, 0xa9, 20] + h + [0x88, 0xac], curve) == [0] + h
    ensures ScriptBytes([0xa9, 20] + h + [0x87], curve) == [1] + h
    ensures ScriptBytes([33, 2] + x + [0xac], curve) == [2] + x
    ensures ScriptBytes([33, 3] + x + [0xac], curve) == [3] + x
    ensures curve.valid([4] + x + y) ==>
              ScriptBytes([65] + ([4] + x + y) + [0xac], curve) == (if y[31] % 2 == 0 then [4] else [5]) + x
  {
    assert ([0x76, 0xa9, 20] + h + [0x88, 0xac])[3..23] == h;
    assert ([0xa9, 20] + h + [0x87])[2..22] == h;
    assert ([33, 2] + x + [0xac])[1..34] == [2] + x;
    assert ([33, 3] + x + [0xac])[1..34] == [3] + x;
    var s := [65] + ([4] + x + y) + [0xac];
    assert s[1..66] == [4] + x + y && s[2..34] == x && s[65] == y[31];
  }

  /** Every other script is written as it is, behind its length plus six. */
  lemma {:induction false} LongForm(s: seq<Byte>, curve: Curve)
    ensures HasShortForm(s, curve) <==> CompressScript(s, curve).Some?
    ensures !HasShortForm(s, curve) ==> ScriptBytes(s, curve) == Bytes(|s| + 6) + s
  {
    assert |s| == 25 ==> s[..3] == [s[0], s[1], s[2]] && s[23..] == [s[23], s[24]];
    assert |s| == 23 ==> s[..2] == [s[0], s[1]] && s[22..] == [s[22]];
    assert |s| == 35 ==> s[..2] == [s[0], s[1]] && s[34..] == [s[34]];
    assert |s| == 67 ==> s[..2] == [s[0], s[1]] && s[66..] == [s[66]];
  }

  /** What is read for the six short forms.  For a key that is no point of the curve, the script stays as it was. */
  lemma {:induction false} ReadShortForms(h: seq<Byte>, x: seq<Byte>, rest: seq<Byte>, before: seq<Byte>, curve: Curve)
    requires |h| == 20 && |x| == 32
    ensures ReadScript([0] + h + rest, before, curve) == Got([0x76, 0xa9, 20] + h + [0x88, 0xac], rest)
    ensures ReadScript([1] + h + rest, before, curve) == Got([0xa9, 20] + h + [0x87], rest)
    ensures ReadScript([2] + x + rest, before, curve) == Got([33, 2] + x + [0xac], rest)
    ensures ReadScript([3] + x + rest, before, curve) == Got([33, 3] + x + [0xac], rest)
    ensures forall k: Byte | 4 <= k <= 5 ::
              var key := curve.decompress([k - 2] + x);
              ReadScript([k] + x + rest, before, curve) == Got(if key.None? then before else [65] + key.value + [0xac], rest)
  {
    ReadSpecial(0, h, rest, before, curve);
    ReadSpecial(1, h, rest, before, curve);
    ReadSpecial(2, x, rest, before, curve);
    ReadSpecial(3, x, rest, before, curve);
    forall k: Byte | 4 <= k <= 5
      ensures var key := curve.decompress([k - 2] + x);
              ReadScript([k] + x + rest, before, curve) == Got(if key.None? then before else [65] + key.value + [0xac], rest)
    {
      ReadSpecial(k, x, rest, before, curve);
    }
  }

  lemma {:induction false} ReadSpecial(code: Byte, input: seq<Byte>, rest: seq<Byte>, before: seq<Byte>, curve: Curve)
    requires code < SPECIAL_SCRIPTS && |input| == SpecialSize(code)
    ensures var script := DecompressScript(code, input, curve);
            ReadScript([code] + input + rest, before, curve) == Got(if script.None? then before else script.value, rest)
  {
    var s := input + rest;
    assert [code] + input + rest == [code] + s;
    ReadByte(code, s, 0, U32, code);
    assert s[..|input|] == input && s[|input|..] == rest;
  }

  /** Every script is read back as it was written, whether or not it is special. */
  lemma {:induction false} ScriptRoundTrip(s: seq<Byte>, rest: seq<Byte>, before: seq<Byte>, curve: Curve)
    requires Lawful(curve) && |s| + SPECIAL_SCRIPTS < Limit(U32)
    ensures ReadScript(ScriptBytes(s, curve) + rest, before, curve) == Got(s, rest)
  {
    match CompressScript(s, curve)
    case Some(out) =>
      SpecialScript(s, curve);
      assert out == [out[0]] + out[1..];
      ReadSpecial(out[0], out[1..], rest, before, curve);
    case None =>
      var n := |s| + SPECIAL_SCRIPTS;
      RoundTrip(n, s + rest, U32);
      assert ScriptBytes(s, curve) + rest == Bytes(n) + (s + rest);
      assert (s + rest)[..|s|] == s && (s + rest)[|s|..] == rest;
  }

  //////////////////////////////////////////////////////////////////////////////
  //
  // Transaction outputs
  //
  //////////////////////////////////////////////////////////////////////////////

  /** An output that can be written: its amount has a code of 64 bits and its script a size of 32 bits. */
  predicate Storable(o: TxOut) {
    && 0 <= o.nValue < TWO63 && Compress(o.nValue) < Limit(U64)
    && |o.scriptPubKey| + SPECIAL_SCRIPTS < Limit(U32) && forall i | 0 <= i < |o.scriptPubKey| :: o.scriptPubKey[i] < 0x100
  }

  function TxOutBytes(o: TxOut, curve: Curve): seq<Byte>
    requires Storable(o)
  {
    Bytes(Compress(o.nValue)) + ScriptBytes(o.scriptPubKey, curve)
  }

  /** An unsigned 64-bit integer as a signed one. */
  function ToSigned(x: nat): int
  {
    if x % TWO64 < TWO63 then x % TWO64 else x % TWO64 - TWO64
  }

  /** Read into a null output. */
  function ReadTxOut(s: seq<Byte>, curve: Curve): Read<TxOut> {
    match ReadVarInt(s, U64)
    case Failed => Failed
    case Got(nVal, rest) =>
      match ReadScript(rest, [], curve)
      case Failed => Failed
      case Got(script, rest') => Got(TxOut(ToSigned(Decompress(nVal)), script), rest')
  }

  lemma {:induction false} ReadBoth(s: seq<Byte>, nVal: nat, body: seq<Byte>, script: seq<Byte>, rest: seq<Byte>, curve: Curve)
    requires ReadVarInt(s, U64) == Got(nVal, body) && ReadScript(body, [], curve) == Got(script, rest)
    ensures ReadTxOut(s, curve) == Got(TxOut(ToSigned(Decompress(nVal)), script), rest)
  {
  }

  lemma {:induction false} TxOutRoundTrip(o: TxOut, rest: seq<Byte>, curve: Curve)
    requires Lawful(curve) && Storable(o)
    ensures ReadTxOut(TxOutBytes(o, curve) + rest, curve) == Got(o, rest)
  {
    var script: seq<Byte>, nVal := o.scriptPubKey, Compress(o.nValue);
    var body := ScriptBytes(script, curve) + rest;
    assert TxOutBytes(o, curve) + rest == Bytes(nVal) + body;
    RoundTrip(nVal, body, U64);
    ScriptRoundTrip(script, rest, [], curve);
    ReadBoth(Bytes(nVal) + body, nVal, body, script, rest, curve);
    DecompressCompress(o.nValue);
    SignedSame(o.nValue);
  }

  lemma {:induction false} SignedSame(x: nat)
    requires x < TWO63
    ensures ToSigned(x) == x
  {
  }
}
