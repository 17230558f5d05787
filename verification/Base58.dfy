/**
Base58 text for bytes, with and without a checksum.
*/
module Base58 {
  import opened Radix

  datatype Option<T> = None | Some(value: T)

  //////////////////////////////////////////////////////////////////////////////
  //
  // Characters
  //
  //////////////////////////////////////////////////////////////////////////////

  const pszBase58 := "123456789" + "ABCDEFGH" + "JKLMN" + "PQRSTUVWXYZ" + "abcdefghijk" + "mnopqrstuvwxyz"

  /** The character for a digit: without 0, I, O and l. */
  function CharOf(d: nat): char
    requires d < 58
  {
    var code :=
      if d < 9 then '1' as int + d
      else if d < 17 then 'A' as int + (d - 9)
      else if d < 22 then 'J' as int + (d - 17)
      else if d < 33 then 'P' as int + (d - 22)
      else if d < 44 then 'a' as int + (d - 33)
      else 'm' as int + (d - 44);
    code as char
  }

  lemma {:induction false} CharOfIsTable(d: nat)
    requires d < 58
    ensures pszBase58 == "123456789" + "ABCDEFGH" + "JKLMN" + "PQRSTUVWXYZ" + "abcdefghijk" + "mnopqrstuvwxyz"
    ensures |pszBase58| == 58 && CharOf(d) == pszBase58[d]
  {
    if d < 9 {
      assert CharOf(d) == "123456789"[d];
    } else if d < 17 {
      assert CharOf(d) == "ABCDEFGH"[d - 9];
    } else if d < 22 {
      assert CharOf(d) == "JKLMN"[d - 17];
    } else if d < 33 {
      assert CharOf(d) == "PQRSTUVWXYZ"[d - 22];
    } else if d < 44 {
      assert CharOf(d) == "abcdefghijk"[d - 33];
    } else {
      assert CharOf(d) == "mnopqrstuvwxyz"[d - 44];
    }
  }

  /** The digit that a character stands for, or -1 if it does not occur in the table. */
  function DigitOf(c: char): (d: int)
    ensures -1 <= d < 58
    ensures d >= 0 ==> CharOf(d) == c && !IsSpace(c)
  {
    if '1' <= c <= '9' then c as int - '1' as int
    else if 'A' <= c <= 'H' then c as int - 'A' as int + 9
    else if 'J' <= c <= 'N' then c as int - 'J' as int + 17
    else if 'P' <= c <= 'Z' then c as int - 'P' as int + 22
    else if 'a' <= c <= 'k' then c as int - 'a' as int + 33
    else if 'm' <= c <= 'z' then c as int - 'm' as int + 44
    else -1
  }

  /** Every character of the table stands for its place. */
  lemma {:induction false} DigitOfChar(d: nat)
    requires d < 58
    ensures DigitOf(CharOf(d)) == d
  {
  }

  predicate IsSpace(c: char) {
    c == ' ' || 9 <= c as int <= 13
  }

  predicate Alphabetic(s: string) {
    forall i | 0 <= i < |s| :: DigitOf(s[i]) >= 0
  }

  function DigitsIn(s: string): (d: seq<nat>)
    ensures |d| == |s| && Digits(d, B58)
  {
    seq(|s|, i requires 0 <= i < |s| => if DigitOf(s[i]) >= 0 then DigitOf(s[i]) else 0)
  }

  function Text(d: seq<nat>): (s: string)
    requires Digits(d, B58)
  {
    seq(|d|, i requires 0 <= i < |d| => CharOf(d[i]))
  }

  /** The first place from `k` on that is not a space. */
  function SpacesEnd(s: string, k: nat): (e: nat)
    requires k <= |s|
    ensures k <= e <= |s| && (forall i | k <= i < e :: IsSpace(s[i])) && (e < |s| ==> !IsSpace(s[e]))
    decreases |s| - k
  {
    if k < |s| && IsSpace(s[k]) then SpacesEnd(s, k + 1) else k
  }

  /** The place after the last that is not a space. */
  function LastEnd(s: string, k: nat): (e: nat)
    requires k <= |s|
    ensures e <= k && (forall i | e <= i < k :: IsSpace(s[i])) && (e > 0 ==> !IsSpace(s[e - 1]))
  {
    if k > 0 && IsSpace(s[k - 1]) then LastEnd(s, k - 1) else k
  }

  /** The string without spaces at either end. */
  function Trim(s: string): string {
    var a, b := SpacesEnd(s, 0), LastEnd(s, |s|);
    if a <= b then s[a..b] else []
  }

  /** Spaces are the characters 9 to 13 and 32; trimming removes all of them at both ends and nothing else. */
  lemma {:induction false} TrimIs(s: string) returns (a: nat, b: nat)
    ensures a <= b <= |s| && Trim(s) == s[a..b]
    ensures forall i | 0 <= i < a || b <= i < |s| :: s[i] as int in {9, 10, 11, 12, 13, 32}
    ensures a < b ==> s[a] as int !in {9, 10, 11, 12, 13, 32} && s[b - 1] as int !in {9, 10, 11, 12, 13, 32}
  {
    a, b := SpacesEnd(s, 0), LastEnd(s, |s|);
    if b < a {
      a := b;
    }
  }

  /** The characters before the first NUL: what a C function sees of a string. */
  function CString(s: string): (t: string)
    ensures |t| <= |s| && t == s[..|t|] && '\0' !in t && (|t| < |s| ==> s[|t|] == '\0')
  {
    if |s| == 0 || s[0] == '\0' then [] else [s[0]] + CString(s[1..])
  }

  //////////////////////////////////////////////////////////////////////////////
  //
  // What is encoded and decoded
  //
  //////////////////////////////////////////////////////////////////////////////

  function Encode(bytes: seq<nat>): string
    requires Digits(bytes, B256)
  {
    FrontOf(ZerosFrom(bytes, 0), Number(bytes, B256), B58);
    Text(Convert(bytes, B256))
  }

  function Decode(s: string): Option<seq<nat>> {
    if Alphabetic(Trim(s)) then Some(Convert(DigitsIn(Trim(s)), B58)) else None
  }

  /**
  The text has a one for each zero byte in front and then the digits, in base 58 and from the
  highest down, of the number that the bytes are in base 256.
  */
  lemma {:induction false} EncodeIs(bytes: seq<nat>, z: nat)
    requires Digits(bytes, B256) && z <= |bytes|
    requires (forall i | 0 <= i < z :: bytes[i] == 0) && (z < |bytes| ==> bytes[z] != 0)
    ensures var s := Encode(bytes);
            && z <= |s| && (forall i | 0 <= i < z :: s[i] == '1') && (z < |s| ==> s[z] != '1')
            && Alphabetic(s) && Number58(s) == Number256(bytes)
  {
    var n := Number(bytes, B256);
    ZerosCounted(bytes, 0, z);
    FrontOf(z, n, B58);
    ConvertBack(bytes, B256);
    var d := Convert(bytes, B256);
    TextDigits(d);
    OnesAre(d);
    NumbersAre(Encode(bytes), bytes);
  }

  lemma {:induction false} OnesAre(d: seq<nat>)
    requires Digits(d, B58)
    ensures forall i | 0 <= i < |d| :: Text(d)[i] == '1' <==> d[i] == 0
  {
    forall i | 0 <= i < |d| ensures Text(d)[i] == '1' <==> d[i] == 0 {
      DigitOfChar(d[i]);
    }
  }

  /** What a text of digits stands for, from the highest digit down. */
  function Number58(s: string): nat
    requires Alphabetic(s)
  {
    if s == [] then 0 else 58 * Number58(s[..|s| - 1]) + DigitOf(s[|s| - 1])
  }

  function Number256(bytes: seq<nat>): nat {
    if bytes == [] then 0 else 256 * Number256(bytes[..|bytes| - 1]) + bytes[|bytes| - 1]
  }

  lemma {:induction false} NumbersAre(s: string, bytes: seq<nat>)
    requires Alphabetic(s)
    ensures Number58(s) == Number(DigitsIn(s), B58) && Number256(bytes) == Number(bytes, B256)
  {
    Number58Is(s, DigitsIn(s));
    Number256Is(bytes);
  }

  lemma {:induction false} Number58Is(s: string, d: seq<nat>)
    requires Alphabetic(s) && d == DigitsIn(s)
    ensures Number58(s) == Number(d, B58)
  {
    if s != [] {
      var n := |s| - 1;
      Number58Is(s[..n], DigitsIn(s[..n]));
      NumberSame(DigitsIn(s[..n]), d, B58, n);
    }
  }

  lemma {:induction false} Number256Is(bytes: seq<nat>)
    ensures Number256(bytes) == Number(bytes, B256)
  {
    if bytes != [] {
      var n := |bytes| - 1;
      Number256Is(bytes[..n]);
      NumberSame(bytes[..n], bytes, B256, n);
    }
  }

  /** Three of the examples of base58_encode_decode.json. */
  lemma {:induction false} Examples()
    ensures Encode([0x61]) == "2g" && Encode([0x62, 0x62, 0x62]) == "a3gV"
    ensures Encode([0, 0, 0, 0, 0, 0, 0, 0, 0, 0]) == "1111111111"
  {
    TwoDigits();
    FourDigits();
    ZerosCounted([0x61], 0, 0);
    ZerosCounted([0x62, 0x62, 0x62], 0, 0);
    assert Zeros(10) == [0, 0, 0, 0, 0, 0, 0, 0, 0, 0];
    NumberOfZeros(Zeros(10), B256, |Zeros(10)|);
    ZerosCounted(Zeros(10), 0, 10);
    assert Zeros(0) == [];
  }

  lemma {:induction false} TwoDigits()
    ensures ToDigits(Number([0x61], B256), B58) == [1, 39]
  {
    assert ToDigits(1, B58) == [1];
  }

  lemma {:induction false} FourDigits()
    ensures ToDigits(Number([0x62, 0x62, 0x62], B256), B58) == [33, 2, 39, 28]
  {
    var d := [0x62, 0x62, 0x62];
    assert NumberTo(d, B256, 1) == 98 && NumberTo(d, B256, 2) == 25186 && NumberTo(d, B256, 3) == 6447714;
    assert ToDigits(33, B58) == [33];
    assert ToDigits(1916, B58) == [33, 2];
    assert ToDigits(111167, B58) == [33, 2, 39];
  }

  lemma {:induction false} TrimNothing(s: string)
    requires forall i | 0 <= i < |s| :: !IsSpace(s[i])
    ensures Trim(s) == s
  {
  }

  lemma {:induction false} TextDigits(d: seq<nat>)
    requires Digits(d, B58)
    ensures Alphabetic(Text(d)) && DigitsIn(Text(d)) == d && Trim(Text(d)) == Text(d)
  {
    forall i | 0 <= i < |d| ensures DigitOf(Text(d)[i]) == d[i] && !IsSpace(Text(d)[i]) {
      DigitOfChar(d[i]);
    }
    TrimNothing(Text(d));
  }

  lemma {:induction false} DigitsText(s: string)
    requires Alphabetic(s)
    ensures Text(DigitsIn(s)) == s
  {
  }

  lemma {:induction false} DecodeDigits(s: string)
    requires Decode(s).Some?
    ensures Digits(Decode(s).value, B256)
  {
    ConvertBack(DigitsIn(Trim(s)), B58);
  }

  /** Bytes are decoded from exactly the text they are encoded to, apart from spaces around it. */
  lemma {:induction false} DecodesExactly(s: string, bytes: seq<nat>)
    requires Digits(bytes, B256)
    ensures Decode(s) == Some(bytes) <==> Trim(s) == Encode(bytes)
  {
    ConvertBack(bytes, B256);
    TextDigits(Convert(bytes, B256));
    if Alphabetic(Trim(s)) {
      ConvertBack(DigitsIn(Trim(s)), B58);
      DigitsText(Trim(s));
    }
  }

  lemma {:induction false} EncodeDecode(bytes: seq<nat>)
    requires Digits(bytes, B256)
    ensures Decode(Encode(bytes)) == Some(bytes)
  {
    ConvertBack(bytes, B256);
    TextDigits(Convert(bytes, B256));
    DecodesExactly(Encode(bytes), bytes);
  }

  lemma {:induction false} DecodeEncode(s: string)
    requires forall i | 0 <= i < |s| :: !IsSpace(s[i])
    ensures Decode(s).Some? ==> Digits(Decode(s).value, B256) && Encode(Decode(s).value) == s
  {
    if Decode(s).Some? {
      DecodeDigits(s);
      DecodesExactly(s, Decode(s).value);
      TrimNothing(s);
    }
  }

  //////////////////////////////////////////////////////////////////////////////
  //
  // With a checksum
  //
  //////////////////////////////////////////////////////////////////////////////

  type Byte = x: nat | x < 256

  /** The first four bytes of a hash. */
  datatype Checksum = Checksum(b0: Byte, b1: Byte, b2: Byte, b3: Byte)

  function SumBytes(c: Checksum): (s: seq<nat>)
    ensures |s| == 4 && Digits(s, B256)
  {
    [c.b0, c.b1, c.b2, c.b3]
  }

  function EncodeCheck(hash: seq<nat> -> Checksum, bytes: seq<nat>): string
    requires Digits(bytes, B256)
  {
    Encode(bytes + SumBytes(hash(bytes)))
  }

  /** The bytes before the last four, if those are their checksum. */
  function Checked(hash: seq<nat> -> Checksum, bytes: seq<nat>): Option<seq<nat>> {
    if |bytes| < 4 then None
    else
      var data := bytes[..|bytes| - 4];
      if bytes[|bytes| - 4..] == SumBytes(hash(data)) then Some(data) else None
  }

  function DecodeCheck(hash: seq<nat> -> Checksum, s: string): Option<seq<nat>> {
    match Decode(s)
    case None => None
    case Some(bytes) => Checked(hash, bytes)
  }

  /** Whatever the hash, bytes are decoded from exactly the text they are encoded to, apart from spaces around it. */
  lemma {:induction false} ChecksExactly(hash: seq<nat> -> Checksum, s: string, bytes: seq<nat>)
    requires Digits(bytes, B256)
    ensures DecodeCheck(hash, s) == Some(bytes) <==> Trim(s) == EncodeCheck(hash, bytes)
    ensures var c := hash(bytes); EncodeCheck(hash, bytes) == Encode(bytes + [c.b0, c.b1, c.b2, c.b3])
  {
    var all := bytes + SumBytes(hash(bytes));
    DecodesExactly(s, all);
    assert all[..|all| - 4] == bytes && all[|all| - 4..] == SumBytes(hash(bytes));
    if DecodeCheck(hash, s) == Some(bytes) {
      var d := Decode(s).value;
      assert d == d[..|d| - 4] + d[|d| - 4..];
    }
  }

  lemma {:induction false} CheckRoundTrip(hash: seq<nat> -> Checksum, bytes: seq<nat>)
    requires Digits(bytes, B256)
    ensures DecodeCheck(hash, EncodeCheck(hash, bytes)) == Some(bytes)
  {
    var all := bytes + SumBytes(hash(bytes));
    ConvertBack(all, B256);
    TextDigits(Convert(all, B256));
    ChecksExactly(hash, EncodeCheck(hash, bytes), bytes);
  }

  //////////////////////////////////////////////////////////////////////////////
  //
  // The digit buffer
  //
  //////////////////////////////////////////////////////////////////////////////

  /** Multiply the number in the buffer by the other base and add `ch`.  There is room, so nothing is left to carry. */
  method MultiplyAdd(buf: array<nat>, b: Base, ch: nat)
    requires Digits(buf[..], b) && ch < Size(Other(b))
    requires Times(Other(b), Number(buf[..], b)) + ch < Pow(Size(b), buf.Length)
    modifies buf
    ensures Digits(buf[..], b)
    ensures Number(buf[..], b) == Times(Other(b), old(Number(buf[..], b))) + ch
  {
    ghost var d := buf[..];
    MultiplyStart(d, ch, b);
    var carry: nat := ch;
    for it := buf.Length downto 0
      invariant Multiplied(d, ch, buf[..], b, carry, it)
    {
      ghost var before := buf[..];
      assert before[it] == d[it];
      var n: nat := carry + Times(Other(b), buf[it]);
      buf[it] := n % Size(b);
      MultiplyStep(d, ch, before, b, carry, it, n, buf[..]);
      carry := n / Size(b);
    }
    MultiplyDone(d, ch, buf[..], b, carry);
    assert carry == 0;
  }

  /** The digits in the buffer from the first that is not zero. */
  method Significant(buf: array<nat>, b: Base) returns (d: seq<nat>)
    requires Digits(buf[..], b)
    ensures d == ToDigits(Number(buf[..], b), b)
  {
    var it := 0;
    while it != buf.Length && buf[it] == 0
      invariant it <= buf.Length && forall i | 0 <= i < it :: buf[i] == 0
    {
      it := it + 1;
    }
    d := buf[it..];
    assert buf[..] == Zeros(it) + d;
    NumberFront(it, d, b, |d|, buf.Length);
    ToDigitsUnique(d, b);
  }

  /** The number of digits that have been processed never needs more room than was set aside for all of them. */
  lemma {:induction false} HasRoom(d: seq<nat>, from: Base, k: nat, room: nat)
    requires Digits(d, from) && k < |d| && room == Room(from, |d|)
    ensures Times(from, NumberTo(d, from, k)) + d[k] < Pow(Size(Other(from)), room)
  {
    assert NumberTo(d, from, k + 1) == Times(from, NumberTo(d, from, k)) + d[k];
    NumberFits(d, from, k + 1, Size(from), Size(Other(from)));
  }

  lemma {:induction false} NumberFits(d: seq<nat>, from: Base, k: nat, x: nat, y: nat)
    requires Digits(d, from) && k <= |d| && x == Size(from) && y == Size(Other(from))
    ensures NumberTo(d, from, k) < Pow(y, Room(from, |d|))
  {
    NumberBound(d, from, k);
    PowMore(x, k, |d|);
    RoomSuffices(from, |d|);
  }

  /** A buffer with the number of `d` in the other base. */
  method Accumulate(d: seq<nat>, from: Base) returns (digits: seq<nat>)
    requires Digits(d, from)
    ensures digits == ToDigits(Number(d, from), Other(from))
  {
    var to := Other(from);
    var buf := new nat[Room(from, |d|)](_ => 0);
    NumberOfZeros(buf[..], to, buf.Length);
    for k := 0 to |d|
      invariant Digits(buf[..], to) && Number(buf[..], to) == NumberTo(d, from, k)
    {
      HasRoom(d, from, k, buf.Length);
      MultiplyAdd(buf, to, d[k]);
    }
    digits := Significant(buf, to);
  }

  lemma {:induction false} NumberOfZeros(d: seq<nat>, b: Base, k: nat)
    requires k <= |d| && forall i | 0 <= i < |d| :: d[i] == 0
    ensures NumberTo(d, b, k) == 0
    decreases k
  {
    if k > 0 {
      NumberOfZeros(d, b, k - 1);
    }
  }

  //////////////////////////////////////////////////////////////////////////////
  //
  // EncodeBase58 and DecodeBase58
  //
  //////////////////////////////////////////////////////////////////////////////

  method EncodeBase58(vch: seq<nat>) returns (str: string)
    requires Digits(vch, B256)
    ensures str == Encode(vch)
  {
    var pbegin := 0;
    while pbegin != |vch| && vch[pbegin] == 0
      invariant pbegin <= |vch| && forall i | 0 <= i < pbegin :: vch[i] == 0
    {
      pbegin := pbegin + 1;
    }
    var rest := vch[pbegin..];
    assert vch == Zeros(pbegin) + rest;
    NumberFront(pbegin, rest, B256, |rest|, |vch|);
    ZerosCounted(vch, 0, pbegin);
    var b58 := Accumulate(rest, B256);
    FrontOf(pbegin, Number(vch, B256), B58);
    assert Convert(vch, B256) == Zeros(pbegin) + b58;
    str := Translate(pbegin, b58);
  }

  method Translate(zeroes: nat, b58: seq<nat>) returns (str: string)
    requires Digits(Zeros(zeroes) + b58, B58)
    ensures str == Text(Zeros(zeroes) + b58)
  {
    ghost var d := Zeros(zeroes) + b58;
    str := seq(zeroes, _ => '1');
    for it := 0 to |b58|
      invariant |str| == zeroes + it
      invariant forall i | 0 <= i < zeroes + it :: str[i] == CharOf(d[i])
    {
      assert d[zeroes + it] == b58[it];
      str := str + [CharOf(b58[it])];
    }
  }

  /** Every one of the first `k` characters is a digit. */
  ghost predicate DigitsTo(s: string, k: nat) {
    k <= |s| && forall i | 0 <= i < k :: DigitOf(s[i]) >= 0
  }

  /** Digits up to a space or the end; `ok` is false if another character comes first. */
  method DecodeDigits58(psz: string) returns (ok: bool, p: nat, b256: seq<nat>)
    ensures DigitsTo(psz, p)
    ensures if ok then p < |psz| ==> IsSpace(psz[p]) else p < |psz| && !IsSpace(psz[p]) && DigitOf(psz[p]) < 0
    ensures ok ==> b256 == ToDigits(NumberTo(DigitsIn(psz), B58, p), B256)
  {
    p, b256, ok := 0, [], true;
    ghost var d := DigitsIn(psz);
    var buf := new nat[Room(B58, |psz|)](_ => 0);
    NumberOfZeros(buf[..], B256, buf.Length);
    while p < |psz| && !IsSpace(psz[p])
      invariant DigitsTo(psz, p) && ok
      invariant Digits(buf[..], B256) && Number(buf[..], B256) == NumberTo(d, B58, p)
    {
      var ch := DigitOf(psz[p]);
      if ch < 0 {
        return false, p, [];
      }
      HasRoom(d, B58, p, buf.Length);
      MultiplyAdd(buf, B256, ch);
      p := p + 1;
    }
    b256 := Significant(buf, B256);
  }

  method SkipSpaces(psz: string, from: nat) returns (p: nat)
    requires from <= |psz|
    ensures from <= p <= |psz| && (forall i | from <= i < p :: IsSpace(psz[i])) && (p < |psz| ==> !IsSpace(psz[p]))
  {
    p := from;
    while p < |psz| && IsSpace(psz[p])
      invariant from <= p <= |psz| && forall i | from <= i < p :: IsSpace(psz[i])
    {
      p := p + 1;
    }
  }

  /** Where the text starts after spaces, and where after ones. */
  method SkipFront(psz: string) returns (start: nat, first: nat)
    ensures start == SpacesEnd(psz, 0) <= first <= |psz|
    ensures (forall i | start <= i < first :: psz[i] == '1') && (first < |psz| ==> psz[first] != '1')
  {
    start := SkipSpaces(psz, 0);
    EndOfSpaces(psz, 0, start);
    first := start;
    while first < |psz| && psz[first] == '1'
      invariant start <= first <= |psz| && forall i | start <= i < first :: psz[i] == '1'
    {
      first := first + 1;
    }
  }

  lemma {:induction false} EndOfSpaces(s: string, k: nat, e: nat)
    requires k <= e <= |s| && (forall i | k <= i < e :: IsSpace(s[i])) && (e < |s| ==> !IsSpace(s[e]))
    ensures SpacesEnd(s, k) == e
    decreases e - k
  {
    if k < e {
      EndOfSpaces(s, k + 1, e);
    }
  }

  /** `psz` is a C string: the characters before its NUL. */
  method DecodeBase58(psz: string) returns (ok: bool, vch: seq<nat>)
    requires '\0' !in psz
    ensures ok <==> Decode(psz).Some?
    ensures ok ==> vch == Decode(psz).value
  {
    vch := [];
    var start, first := SkipFront(psz);
    ghost var all := psz[first..];
    var k, b256;
    ok, k, b256 := DecodeDigits58(psz[first..]);
    var end := first + k;
    assert k < |all| ==> all[k] == psz[end];
    if !ok {
      OtherInside(psz, start, end);
      return;
    }
    var p := SkipSpaces(psz, end);
    if p < |psz| {
      SpaceInside(psz, start, end, p);
      return false, vch;
    }
    Body(psz, start, first, k, end, all);
    vch := Zeros(first - start) + b256;
  }

  lemma {:induction false} OtherInside(s: string, start: nat, i: nat)
    requires start == SpacesEnd(s, 0) && start <= i < |s| && !IsSpace(s[i]) && DigitOf(s[i]) < 0
    ensures Decode(s).None?
  {
    Untrimmed(s, start, i, i);
  }

  /** A character that is not a space is not trimmed, nor is anything between it and the start. */
  lemma {:induction false} Untrimmed(s: string, start: nat, i: nat, p: nat)
    requires start == SpacesEnd(s, 0) && start <= i <= p < |s| && !IsSpace(s[p])
    ensures i - start < |Trim(s)| && Trim(s)[i - start] == s[i]
  {
    assert p < LastEnd(s, |s|);
  }

  lemma {:induction false} SpaceInside(s: string, start: nat, end: nat, p: nat)
    requires start == SpacesEnd(s, 0) && start <= end < p < |s| && IsSpace(s[end]) && !IsSpace(s[p])
    ensures Decode(s).None?
  {
    Untrimmed(s, start, end, p);
    assert DigitOf(s[end]) < 0;
  }

  /** Spaces, ones, `k` other digits from `first` on, and spaces. */
  lemma {:induction false} Body(psz: string, start: nat, first: nat, k: nat, end: nat, all: string)
    requires start == SpacesEnd(psz, 0) <= first <= end <= |psz| && end == first + k
    requires all == psz[first..] && DigitsTo(all, k)
    requires (forall i | start <= i < first :: psz[i] == '1') && (first < |psz| ==> psz[first] != '1')
    requires forall i | end <= i < |psz| :: IsSpace(psz[i])
    ensures Decode(psz) == Some(Zeros(first - start) + ToDigits(NumberTo(DigitsIn(all), B58, k), B256))
  {
    var s, rest := psz[start..end], psz[first..end];
    BodyDigits(psz, start, first, end, s, rest, all);
    BodyTrimmed(psz, start, end, s);
    BodyNumber(s, first - start, rest, all, k);
  }

  lemma {:induction false} BodyNumber(s: string, z: nat, rest: string, all: string, k: nat)
    requires s == seq(z, _ => '1') + rest && Alphabetic(s) && (|rest| > 0 ==> rest[0] != '1')
    requires k == |rest| <= |all| && forall i | 0 <= i < k :: rest[i] == all[i]
    ensures Convert(DigitsIn(s), B58) == Zeros(z) + ToDigits(NumberTo(DigitsIn(all), B58, k), B256)
  {
    BodyZeros(s, z, rest);
    SameDigits(rest, all, k);
  }

  lemma {:induction false} SameDigits(s: string, t: string, k: nat)
    requires k == |s| <= |t| && forall i | 0 <= i < k :: s[i] == t[i]
    ensures Number(DigitsIn(s), B58) == NumberTo(DigitsIn(t), B58, k)
  {
    NumberSame(DigitsIn(s), DigitsIn(t), B58, k);
  }

  lemma {:induction false} BodyDigits(psz: string, start: nat, first: nat, end: nat, s: string, rest: string, all: string)
    requires start <= first <= end <= |psz| && s == psz[start..end] && rest == psz[first..end] && all == psz[first..]
    requires DigitsTo(all, end - first) && (forall i | start <= i < first :: psz[i] == '1')
    ensures Alphabetic(s) && s == seq(first - start, _ => '1') + rest
    ensures forall i | 0 <= i < |rest| :: rest[i] == all[i]
  {
    assert DigitOf('1') == 0;
    forall i | 0 <= i < |s| ensures DigitOf(s[i]) >= 0 {
      if i >= first - start {
        assert s[i] == all[i - (first - start)];
      }
    }
  }

  lemma {:induction false} BodyTrimmed(psz: string, start: nat, end: nat, s: string)
    requires start == SpacesEnd(psz, 0) <= end <= |psz| && s == psz[start..end] && Alphabetic(s)
    requires forall i | end <= i < |psz| :: IsSpace(psz[i])
    ensures Trim(psz) == s
  {
    LastEndIs(psz, end, |psz|);
    if start < end {
      assert s[|s| - 1] == psz[end - 1];
    }
  }

  lemma {:induction false} LastEndIs(s: string, end: nat, k: nat)
    requires end <= k <= |s| && forall i | end <= i < k :: IsSpace(s[i])
    ensures LastEnd(s, k) == LastEnd(s, end)
    decreases k
  {
    if end < k {
      LastEndIs(s, end, k - 1);
    }
  }

  /** Ones at the front are zeros. */
  lemma {:induction false} BodyZeros(s: string, z: nat, rest: string)
    requires s == seq(z, _ => '1') + rest && Alphabetic(s) && (|rest| > 0 ==> rest[0] != '1')
    ensures Convert(DigitsIn(s), B58) == Zeros(z) + ToDigits(Number(DigitsIn(rest), B58), B256)
  {
    assert DigitOf('1') == 0;
    var d := DigitsIn(s);
    assert d == Zeros(z) + DigitsIn(rest);
    NumberFront(z, DigitsIn(rest), B58, |rest|, |d|);
    if |rest| > 0 {
      assert s[z] == rest[0];
      assert CharOf(0) == '1';
    }
    ZerosCounted(d, 0, z);
  }

  //////////////////////////////////////////////////////////////////////////////
  //
  // EncodeBase58Check and DecodeBase58Check
  //
  //////////////////////////////////////////////////////////////////////////////

  method EncodeBase58Check(hash: seq<nat> -> Checksum, vchIn: seq<nat>) returns (str: string)
    requires Digits(vchIn, B256)
    ensures str == EncodeCheck(hash, vchIn)
    ensures var c := hash(vchIn); str == Encode(vchIn + [c.b0, c.b1, c.b2, c.b3])
  {
    var vch := vchIn + SumBytes(hash(vchIn));
    str := EncodeBase58(vch);
  }

  method DecodeBase58Check(hash: seq<nat> -> Checksum, psz: string) returns (ok: bool, vchRet: seq<nat>)
    requires '\0' !in psz
    ensures ok <==> DecodeCheck(hash, psz).Some?
    ensures vchRet == if ok then DecodeCheck(hash, psz).value else []
    ensures ok ==> var c := hash(vchRet); Decode(psz) == Some(vchRet + [c.b0, c.b1, c.b2, c.b3])
    ensures ok <==> Decode(psz).Some? && |Decode(psz).value| >= 4
                    && var v := Decode(psz).value; var c := hash(v[..|v| - 4]); v[|v| - 4..] == [c.b0, c.b1, c.b2, c.b3]
  {
    ok, vchRet := DecodeBase58(psz);
    if !ok || |vchRet| < 4 {
      return false, [];
    }
    var data := vchRet[..|vchRet| - 4];
    assert vchRet == data + vchRet[|vchRet| - 4..];
    if vchRet[|vchRet| - 4..] != SumBytes(hash(data)) {
      return false, [];
    }
    vchRet := data;
  }

  /** A string of any characters is read up to its first NUL. */
  method DecodeBase58CheckString(hash: seq<nat> -> Checksum, str: string) returns (ok: bool, vchRet: seq<nat>)
    ensures ok <==> DecodeCheck(hash, CString(str)).Some?
    ensures vchRet == if ok then DecodeCheck(hash, CString(str)).value else []
  {
    ok, vchRet := DecodeBase58Check(hash, CString(str));
  }
}
