/** UTF-8 between Rust strings (sequences of Unicode scalar values) and bytes. */
module Utf8 {
  import opened Basics

  function Tail(n: nat): byte { 0x80 + n % 0x40 }

  function EncodeChar(c: char): (b: seq<byte>)
    ensures 1 <= |b| <= 4
  {
    var n := c as int;
    if n < 0x80 then [n]
    else if n < 0x800 then [0xC0 + n / 0x40, Tail(n)]
    else if n < 0x10000 then [0xE0 + n / 0x1000, Tail(n / 0x40), Tail(n)]
    else [0xF0 + n / 0x40000, Tail(n / 0x1000), Tail(n / 0x40), Tail(n)]
  }

  function Encode(s: string): seq<byte> {
    if s == "" then [] else EncodeChar(s[0]) + Encode(s[1..])
  }

  predicate IsTail(b: seq<byte>, i: nat) {
    i < |b| && 0x80 <= b[i] < 0xC0
  }

  /** The number that a lead byte and its tail bytes spell, with the length of
      the sequence; -1 if they are not well formed. */
  function Spelled(b: seq<byte>): (r: (int, nat))
    requires b != []
    ensures 1 <= r.1 <= |b|
  {
    var b0: int := b[0];
    if b0 < 0x80 then (b0, 1)
    else if 0xC0 <= b0 < 0xE0 && IsTail(b, 1) then
      var b1: int := b[1];
      Above(0x80, (b0 - 0xC0) * 0x40 + b1 - 0x80, 2)
    else if 0xE0 <= b0 < 0xF0 && IsTail(b, 1) && IsTail(b, 2) then
      var b1: int, b2: int := b[1], b[2];
      Above(0x800, ((b0 - 0xE0) * 0x40 + b1 - 0x80) * 0x40 + b2 - 0x80, 3)
    else if 0xF0 <= b0 < 0xF8 && IsTail(b, 1) && IsTail(b, 2) && IsTail(b, 3) then
      var b1: int, b2: int, b3: int := b[1], b[2], b[3];
      Above(0x10000, (((b0 - 0xF0) * 0x40 + b1 - 0x80) * 0x40 + b2 - 0x80) * 0x40 + b3 - 0x80, 4)
    else (-1, 1)
  }

  /** Overlong forms do not count. */
  function Above(least: nat, n: int, length: nat): (int, nat) {
    (if n < least then -1 else n, length)
  }

  predicate IsScalar(n: int) {
    0 <= n < 0xD800 || 0xE000 <= n < 0x110000
  }

  function Decode(b: seq<byte>): Option<string> {
    if b == [] then Some("")
    else
      var (n, length) := Spelled(b);
      if !IsScalar(n) then None
      else
        match Decode(b[length..])
        case None => None
        case Some(s) => Some([n as char] + s)
  }

  lemma SpelledChar(c: char, rest: seq<byte>)
    ensures Spelled(EncodeChar(c) + rest) == (c as int, |EncodeChar(c)|) && IsScalar(c as int)
  {
    var n := c as int;
    var b := EncodeChar(c) + rest;
    assert |EncodeChar(c)| >= 2 ==> b[1] == EncodeChar(c)[1];
    assert |EncodeChar(c)| >= 3 ==> b[2] == EncodeChar(c)[2];
    assert |EncodeChar(c)| >= 4 ==> b[3] == EncodeChar(c)[3];
    assert n == n / 0x40 * 0x40 + n % 0x40;
    assert n / 0x1000 == n / 0x40 / 0x40 && n / 0x40000 == n / 0x1000 / 0x40;
  }

  lemma {:induction false} DecodeEncode(s: string)
    ensures Decode(Encode(s)) == Some(s)
  {
    if s != "" {
      var b := EncodeChar(s[0]);
      SpelledChar(s[0], Encode(s[1..]));
      assert Encode(s) == b + Encode(s[1..]);
      assert Encode(s)[|b|..] == Encode(s[1..]);
      DecodeEncode(s[1..]);
      assert s == [s[0]] + s[1..];
    }
  }

  predicate SpellsFront(b: seq<byte>)
    requires b != []
  {
    var (n, length) := Spelled(b);
    IsScalar(n) && EncodeChar(n as char) == b[..length]
  }

  lemma TwoSpelled(b: seq<byte>)
    requires b != [] && b[0] < 0xE0 && IsScalar(Spelled(b).0)
    ensures SpellsFront(b)
  {
    if b[0] >= 0x80 {
      TwoBytes(b[0] - 0xC0, b[1] - 0x80);
      assert b[..2] == [b[0], b[1]];
    }
  }

  lemma ThreeSpelled(b: seq<byte>)
    requires b != [] && 0xE0 <= b[0] < 0xF0 && IsScalar(Spelled(b).0)
    ensures SpellsFront(b)
  {
    ThreeBytes(b[0] - 0xE0, b[1] - 0x80, b[2] - 0x80);
    assert b[..3] == [b[0], b[1], b[2]];
  }

  lemma FourSpelled(b: seq<byte>)
    requires b != [] && 0xF0 <= b[0] && IsScalar(Spelled(b).0)
    ensures SpellsFront(b)
  {
    FourBytes(b[0] - 0xF0, b[1] - 0x80, b[2] - 0x80, b[3] - 0x80);
    assert b[..4] == [b[0], b[1], b[2], b[3]];
  }

  /** The spelling of a number is unique. */
  lemma SpelledIsEncoded(b: seq<byte>)
    requires b != [] && IsScalar(Spelled(b).0)
    ensures var (n, length) := Spelled(b); EncodeChar(n as char) == b[..length]
  {
    hide Spelled, EncodeChar;
    if b[0] >= 0xF0 { FourSpelled(b); } else if b[0] >= 0xE0 { ThreeSpelled(b); } else { TwoSpelled(b); }
  }

  lemma TwoBytes(a: int, b: int)
    requires 0 <= a && 0 <= b < 0x40
    ensures var n := a * 0x40 + b; n / 0x40 == a && n % 0x40 == b
  {
  }

  lemma ThreeBytes(a: int, b: int, c: int)
    requires 0 <= a && 0 <= b < 0x40 && 0 <= c < 0x40
    ensures var n := (a * 0x40 + b) * 0x40 + c; n / 0x1000 == a && n / 0x40 % 0x40 == b && n % 0x40 == c
  {
    var n := (a * 0x40 + b) * 0x40 + c;
    assert n / 0x40 == a * 0x40 + b;
    assert n == a * 0x1000 + (b * 0x40 + c);
  }

  lemma FourBytes(a: int, b: int, c: int, d: int)
    requires 0 <= a && 0 <= b < 0x40 && 0 <= c < 0x40 && 0 <= d < 0x40
    ensures var n := ((a * 0x40 + b) * 0x40 + c) * 0x40 + d;
            n / 0x40000 == a && n / 0x1000 % 0x40 == b && n / 0x40 % 0x40 == c && n % 0x40 == d
  {
    var m := (a * 0x40 + b) * 0x40 + c;
    var n := m * 0x40 + d;
    ThreeBytes(a, b, c);
    assert n / 0x40 == m && n / 0x1000 == m / 0x40 && n / 0x40000 == m / 0x1000;
  }

  /** Bytes decode to a text exactly when they are its encoding. */
  lemma {:induction false} DecodesExactlyEncodings(b: seq<byte>, s: string)
    ensures Decode(b) == Some(s) <==> b == Encode(s)
  {
    DecodeEncode(s);
    if b != [] && Decode(b) == Some(s) {
      var (n, length) := Spelled(b);
      SpelledIsEncoded(b);
      assert s[1..] == Decode(b[length..]).value;
      DecodesExactlyEncodings(b[length..], s[1..]);
      assert b == b[..length] + b[length..];
    }
  }

  predicate IsAsciiText(s: string) {
    forall i :: 0 <= i < |s| ==> s[i] as int < 128
  }

  lemma {:induction false} AsciiBytes(s: string)
    requires IsAsciiText(s)
    ensures |Encode(s)| == |s|
    ensures forall i :: 0 <= i < |s| ==> Encode(s)[i] == s[i] as int
  {
    if s != "" {
      AsciiBytes(s[1..]);
      assert Encode(s) == [s[0] as int] + Encode(s[1..]);
    }
  }
}
