/**
Variable-length integers: groups of seven bits, high ones first.  All groups but the last are one
less than they stand for, and their bytes are marked by adding 128.
*/
module VarInt {

  type Byte = x: nat | x < 0x100

  /** What is read from a stream, and what remains there.  Nothing is read if the stream ends too early. */
  datatype Read<+T> = Failed | Got(value: T, rest: seq<Byte>)

  /** The types of the integers that are read. */
  datatype Width = U32 | U64

  function Limit(w: Width): nat {
    match w
    case U32 => 0x1_0000_0000
    case U64 => 0x1_0000_0000_0000_0000
  }

  function Wrap(w: Width, x: nat): (y: nat)
    ensures x < Limit(w) ==> y == x
  {
    match w
    case U32 => x % 0x1_0000_0000
    case U64 => x % 0x1_0000_0000_0000_0000
  }

  /** The bytes before the last. */
  function Leading(n: nat): seq<Byte> {
    if n <= 0x7f then [n + 0x80] else Leading(n / 0x80 - 1) + [n % 0x80 + 0x80]
  }

  function Bytes(n: nat): seq<Byte> {
    if n <= 0x7f then [n] else Leading(n / 0x80 - 1) + [n % 0x80]
  }

  /** A negative integer is written as if its lowest seven bits were all of it. */
  function SignedBytes(n: int): seq<Byte> {
    if n < 0 then [n % 0x80] else Bytes(n)
  }

  /** Read the rest of an integer of which `n` has been read. */
  function ReadOn(s: seq<Byte>, n: nat, w: Width): Read<nat>
    decreases |s|
  {
    if s == [] then Failed
    else
      var x := Wrap(w, n * 0x80) + s[0] % 0x80;
      if s[0] >= 0x80 then ReadOn(s[1..], Wrap(w, x + 1), w) else Got(x, s[1..])
  }

  function ReadVarInt(s: seq<Byte>, w: Width): Read<nat> {
    ReadOn(s, 0, w)
  }

  function ReadSigned(s: seq<Byte>): Read<int> {
    match ReadVarInt(s, U32)
    case Failed => Failed
    case Got(n, rest) => Got(if n < 0x8000_0000 then n else n - 0x1_0000_0000, rest)
  }

  lemma {:induction false} ReadByte(b: Byte, s: seq<Byte>, n: nat, w: Width, x: nat)
    requires x == Wrap(w, n * 0x80) + b % 0x80
    ensures ReadOn([b] + s, n, w) == if b >= 0x80 then ReadOn(s, Wrap(w, x + 1), w) else Got(x, s)
  {
    assert ([b] + s)[1..] == s;
  }

  /** One byte of an integer within its type: the `g` of it is read after `n`, and more follows or not. */
  lemma {:induction false} ReadGroup(g: Byte, more: bool, s: seq<Byte>, n: nat, w: Width, x: nat)
    requires g < 0x80 && x == n * 0x80 + g && (if more then x + 1 else x) < Limit(w)
    ensures var b := if more then g + 0x80 else g;
            ReadOn([b] + s, n, w) == if more then ReadOn(s, x + 1, w) else Got(x, s)
  {
    var b := if more then g + 0x80 else g;
    assert b % 0x80 == g;
    ReadByte(b, s, n, w, x);
  }

  /** The lowest seven bits, and what is written before them. */
  lemma {:induction false} Group(n: nat) returns (q: nat, g: Byte)
    requires n > 0x7f
    ensures g < 0x80 && n == (q + 1) * 0x80 + g && q < n
    ensures Leading(n) == Leading(q) + [g + 0x80] && Bytes(n) == Leading(q) + [g]
  {
    q, g := n / 0x80 - 1, n % 0x80;
  }

  lemma {:induction false} Regroup(x: seq<Byte>, y: seq<Byte>, z: seq<Byte>)
    ensures (x + y) + z == x + (y + z)
  {
  }

  lemma {:induction false} ReadLeading(n: nat, s: seq<Byte>, w: Width)
    requires n + 1 < Limit(w)
    ensures ReadOn(Leading(n) + s, 0, w) == ReadOn(s, n + 1, w)
    decreases n
  {
    if n <= 0x7f {
      ReadGroup(n, true, s, 0, w, n);
    } else {
      var q, g := Group(n);
      ReadLeading(q, [g + 0x80] + s, w);
      Regroup(Leading(q), [g + 0x80], s);
      ReadGroup(g, true, s, q + 1, w, n);
    }
  }

  /** What is written is read back, and exactly the bytes written are consumed. */
  lemma {:induction false} RoundTrip(n: nat, s: seq<Byte>, w: Width)
    requires n < Limit(w)
    ensures ReadVarInt(Bytes(n) + s, w) == Got(n, s)
  {
    if n <= 0x7f {
      ReadGroup(n, false, s, 0, w, n);
    } else {
      var q, g := Group(n);
      ReadLeading(q, [g] + s, w);
      Regroup(Leading(q), [g], s);
      ReadGroup(g, false, s, q + 1, w, n);
    }
  }

  function ReadBack(n: int): int {
    if n < 0 then n % 0x80 else n
  }

  /** A signed integer is read back as it was exactly if it is not negative. */
  lemma {:induction false} SignedRoundTrip(n: int, s: seq<Byte>)
    requires -0x8000_0000 <= n < 0x8000_0000
    ensures ReadSigned(SignedBytes(n) + s) == Got(ReadBack(n), s)
    ensures ReadBack(n) == n <==> n >= 0
    ensures n < 0 ==> SignedBytes(n) == [n % 128] && ReadBack(n) == n % 128
  {
    if n >= 0 {
      RoundTrip(n, s, U32);
    } else {
      ReadByte(n % 0x80, s, 0, U32, n % 0x80);
    }
  }

  /** What the digits before the last stand for: the one `i` places before the last is 128^i times one more than itself. */
  function Higher(p: seq<Byte>): nat {
    if p == [] then 0 else 128 * Higher(p[..|p| - 1]) + (p[|p| - 1] % 128 + 1)
  }

  /** The number that a sequence of digits encodes. */
  function Number(a: seq<Byte>): nat
    requires a != []
  {
    128 * Higher(a[..|a| - 1]) + a[|a| - 1] % 128
  }

  lemma {:induction false} LeadingEncodes(n: nat)
    ensures Higher(Leading(n)) == n + 1 && forall i | 0 <= i < |Leading(n)| :: Leading(n)[i] >= 128
    decreases n
  {
    if n > 0x7f {
      var q, g := Group(n);
      LeadingEncodes(q);
      assert Leading(n)[..|Leading(n)| - 1] == Leading(q);
    } else {
      assert Leading(n) == [n + 0x80] && Leading(n)[..0] == [];
    }
  }

  /**
  The bytes encode the number by the documented sum: base 128 from the highest digit down, each
  digit but the last less one and marked by bit 7.
  */
  lemma {:induction false} Encodes(n: nat)
    ensures Bytes(n) != [] && Number(Bytes(n)) == n
    ensures var a := Bytes(n); a[|a| - 1] < 128 && forall i | 0 <= i < |a| - 1 :: a[i] >= 128
  {
    if n > 0x7f {
      var q, g := Group(n);
      LeadingEncodes(q);
      assert Bytes(n)[..|Bytes(n)| - 1] == Leading(q);
    }
  }

  /** The documented sizes. */
  lemma {:induction false} Sizes(n: nat)
    ensures |Bytes(n)| == 1 <==> n <= 127
    ensures |Bytes(n)| == 2 <==> 128 <= n <= 16511
    ensures |Bytes(n)| == 3 <==> 16512 <= n <= 2113663
  {
    if n > 127 {
      LeadingTwo(n / 0x80 - 1);
    }
  }

  lemma {:induction false} LeadingOne(n: nat)
    ensures |Leading(n)| >= 1 && (|Leading(n)| == 1 <==> n <= 127)
  {
    if n > 127 {
      LeadingOne(n / 0x80 - 1);
    }
  }

  lemma {:induction false} LeadingTwo(n: nat)
    ensures |Leading(n)| >= 1 && (|Leading(n)| == 1 <==> n <= 127) && (|Leading(n)| == 2 <==> 128 <= n <= 16511)
  {
    LeadingOne(n);
    if n > 127 {
      LeadingOne(n / 0x80 - 1);
    }
  }

  /** The examples of serialize.h, two of which it gives otherwise: see 16511 and 65535. */
  lemma {:induction false} Examples()
    ensures Bytes(0) == [0] && Bytes(1) == [1] && Bytes(127) == [0x7f] && Bytes(128) == [0x80, 0x00] && Bytes(255) == [0x80, 0x7f]
    ensures Bytes(256) == [0x81, 0x00] && Bytes(16383) == [0xfe, 0x7f] && Bytes(16384) == [0xff, 0x00]
    ensures Bytes(16511) == [0xff, 0x7f] && Bytes(65535) == [0x82, 0xfe, 0x7f]
    ensures Bytes(0x1_0000_0000) == [0x8e, 0xfe, 0xfe, 0xff, 0x00]
  {
  }

  /** Is the integer read from `s` no greater than its type allows? */
  predicate NeverWraps(s: seq<Byte>, n: nat, w: Width)
    decreases |s|
  {
    s != [] ==>
      var x := n * 0x80 + s[0] % 0x80;
      if s[0] >= 0x80 then x + 1 < Limit(w) && NeverWraps(s[1..], x + 1, w) else x < Limit(w)
  }

  /** Every integer has only one encoding: what is read is what would be written. */
  lemma {:induction false} OneEncoding(s: seq<Byte>, w: Width)
    requires NeverWraps(s, 0, w) && ReadVarInt(s, w).Got?
    ensures var r := ReadVarInt(s, w); s == Bytes(r.value) + r.rest
  {
    if s[0] >= 0x80 {
      OneEncodingOn(s[1..], s[0] % 0x80, w);
      assert s == [s[0]] + s[1..];
    }
  }

  lemma {:induction false} OneEncodingOn(s: seq<Byte>, n: nat, w: Width)
    requires NeverWraps(s, n + 1, w) && ReadOn(s, n + 1, w).Got?
    ensures var r := ReadOn(s, n + 1, w); Leading(n) + s == Bytes(r.value) + r.rest
    decreases |s|
  {
    var b, rest := s[0], s[1..];
    var x := (n + 1) * 0x80 + b % 0x80;
    OneMore(x, n, b);
    assert Leading(n) + s == (Leading(n) + [b]) + rest;
    if b >= 0x80 {
      OneEncodingOn(rest, x, w);
    }
  }

  /** One more byte after those before. */
  lemma {:induction false} OneMore(x: nat, n: nat, b: Byte)
    requires x == (n + 1) * 0x80 + b % 0x80
    ensures Leading(n) + [b] == if b >= 0x80 then Leading(x) else Bytes(x)
  {
    assert x / 0x80 - 1 == n && x % 0x80 == b % 0x80;
  }
}
