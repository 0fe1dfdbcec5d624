/** Unpadded base64url (section 5 of RFC 4648) as the `URL_SAFE_NO_PAD` engine
    reads and writes it: no padding, no stray trailing bits. */
module Base64Url {
  import opened Basics

  type sextet = n: int | 0 <= n < 64

  function Digit(n: sextet): char {
    if n < 26 then ('A' as int + n) as char
    else if n < 52 then ('a' as int + n - 26) as char
    else if n < 62 then ('0' as int + n - 52) as char
    else if n == 62 then '-' else '_'
  }

  predicate IsDigit(c: char) {
    'A' <= c <= 'Z' || 'a' <= c <= 'z' || '0' <= c <= '9' || c == '-' || c == '_'
  }

  function Value(c: char): (n: sextet)
    requires IsDigit(c)
    ensures Digit(n) == c
  {
    if 'A' <= c <= 'Z' then c as int - 'A' as int
    else if 'a' <= c <= 'z' then c as int - 'a' as int + 26
    else if '0' <= c <= '9' then c as int - '0' as int + 52
    else if c == '-' then 62 else 63
  }

  lemma ValueOfDigit(n: sextet)
    ensures IsDigit(Digit(n)) && Value(Digit(n)) == n
  {
  }

  /** The four sextets of three bytes. */
  function Group(b0: byte, b1: byte, b2: byte): seq<sextet> {
    [b0 / 4, b0 % 4 * 16 + b1 / 16, b1 % 16 * 4 + b2 / 64, b2 % 64]
  }

  function Sextets(b: seq<byte>): seq<sextet> {
    if |b| == 0 then []
    else if |b| == 1 then Group(b[0], 0, 0)[..2]
    else if |b| == 2 then Group(b[0], b[1], 0)[..3]
    else Group(b[0], b[1], b[2]) + Sextets(b[3..])
  }

  // The three bytes of four sextets.
  function Byte0(v0: int, v1: int): byte
    requires 0 <= v0 < 64 && 0 <= v1 < 64
  {
    v0 * 4 + v1 / 16
  }

  function Byte1(v1: int, v2: int): byte
    requires 0 <= v1 < 64 && 0 <= v2 < 64
  {
    v1 % 16 * 16 + v2 / 4
  }

  function Byte2(v2: int, v3: int): byte
    requires 0 <= v2 < 64 && 0 <= v3 < 64
  {
    v2 % 4 * 64 + v3
  }

  function Bytes(v: seq<sextet>): Option<seq<byte>> {
    if |v| == 0 then Some([])
    else if |v| == 1 then None
    else if |v| == 2 then if v[1] % 16 == 0 then Some([Byte0(v[0], v[1])]) else None
    else if |v| == 3 then if v[2] % 4 == 0 then Some([Byte0(v[0], v[1]), Byte1(v[1], v[2])]) else None
    else
      match Bytes(v[4..])
      case None => None
      case Some(rest) => Some([Byte0(v[0], v[1]), Byte1(v[1], v[2]), Byte2(v[2], v[3])] + rest)
  }

  function Digits(v: seq<sextet>): (s: string)
    ensures |s| == |v| && forall i :: 0 <= i < |v| ==> s[i] == Digit(v[i])
  {
    seq(|v|, i requires 0 <= i < |v| => Digit(v[i]))
  }

  function Values(s: string): (v: seq<sextet>)
    requires forall i :: 0 <= i < |s| ==> IsDigit(s[i])
    ensures |v| == |s| && forall i :: 0 <= i < |s| ==> v[i] == Value(s[i])
  {
    seq(|s|, i requires 0 <= i < |s| => Value(s[i]))
  }

  function Encode(b: seq<byte>): string { Digits(Sextets(b)) }

  function Decode(s: string): Option<seq<byte>> {
    if forall i :: 0 <= i < |s| ==> IsDigit(s[i]) then Bytes(Values(s)) else None
  }

  lemma GroupRestored(b0: byte, b1: byte, b2: byte)
    ensures var g := Group(b0, b1, b2);
            Byte0(g[0], g[1]) == b0 && Byte1(g[1], g[2]) == b1 && Byte2(g[2], g[3]) == b2
  {
  }

  lemma {:induction false} BytesOfSextets(b: seq<byte>)
    ensures Bytes(Sextets(b)) == Some(b)
  {
    if |b| == 1 {
      GroupRestored(b[0], 0, 0);
      assert Sextets(b) == [b[0] / 4, b[0] % 4 * 16];
      assert b == [b[0]];
    } else if |b| == 2 {
      GroupRestored(b[0], b[1], 0);
      assert Sextets(b) == [b[0] / 4, b[0] % 4 * 16 + b[1] / 16, b[1] % 16 * 4];
      assert b == [b[0], b[1]];
    } else if |b| >= 3 {
      GroupRestored(b[0], b[1], b[2]);
      BytesOfSextets(b[3..]);
      assert Sextets(b)[4..] == Sextets(b[3..]);
      assert b == [b[0], b[1], b[2]] + b[3..];
    }
  }

  lemma Parts4(q: nat, r: nat)
    requires r < 4
    ensures (q * 4 + r) / 4 == q && (q * 4 + r) % 4 == r
  {
  }

  lemma Parts16(q: nat, r: nat)
    requires r < 16
    ensures (q * 16 + r) / 16 == q && (q * 16 + r) % 16 == r
  {
  }

  lemma Parts64(q: nat, r: nat)
    requires r < 64
    ensures (q * 64 + r) / 64 == q && (q * 64 + r) % 64 == r
  {
  }

  lemma GroupOfParts(v0: sextet, a: nat, b: nat, c: nat, d: nat, v3: sextet)
    requires a < 4 && b < 16 && c < 16 && d < 4
    ensures Group(v0 * 4 + a, b * 16 + c, d * 64 + v3) == [v0, a * 16 + b, c * 4 + d, v3]
  {
    Parts4(v0, a);
    Parts16(b, c);
    Parts64(d, v3);
  }

  lemma Whole16(n: sextet) returns (q: nat, r: nat)
    ensures q < 4 && r < 16 && q * 16 + r == n && q == n / 16 && r == n % 16
  {
    q, r := n / 16, n % 16;
  }

  lemma Whole4(n: sextet) returns (q: nat, r: nat)
    ensures q < 16 && r < 4 && q * 4 + r == n && q == n / 4 && r == n % 4
  {
    q, r := n / 4, n % 4;
  }

  lemma BytesOfParts(v0: sextet, v1: sextet, v2: sextet, v3: sextet, a: nat, b: nat, c: nat, d: nat)
    requires a == v1 / 16 && b == v1 % 16 && c == v2 / 4 && d == v2 % 4
    ensures Byte0(v0, v1) == v0 * 4 + a && Byte1(v1, v2) == b * 16 + c && Byte2(v2, v3) == d * 64 + v3
  {
  }

  lemma GroupRebuilt(v0: sextet, v1: sextet, v2: sextet, v3: sextet)
    ensures Group(Byte0(v0, v1), Byte1(v1, v2), Byte2(v2, v3)) == [v0, v1, v2, v3]
  {
    hide Group, Byte0, Byte1, Byte2;
    var a, b := Whole16(v1);
    var c, d := Whole4(v2);
    BytesOfParts(v0, v1, v2, v3, a, b, c, d);
    GroupOfParts(v0, a, b, c, d, v3);
  }

  lemma {:induction false} SextetsOfBytes(v: seq<sextet>)
    requires Bytes(v).Some?
    ensures Sextets(Bytes(v).value) == v
  {
    if |v| == 2 {
      GroupRebuilt(v[0], v[1], 0, 0);
      assert v == [v[0], v[1], 0, 0][..2];
    } else if |v| == 3 {
      GroupRebuilt(v[0], v[1], v[2], 0);
      assert v == [v[0], v[1], v[2], 0][..3];
    } else if |v| >= 4 {
      SextetsOfBytes(v[4..]);
      GroupRebuilt(v[0], v[1], v[2], v[3]);
      var b := Bytes(v).value;
      assert b[3..] == Bytes(v[4..]).value;
      assert v == [v[0], v[1], v[2], v[3]] + v[4..];
    }
  }

  /** A text decodes to `b` exactly when it is the encoding of `b`. */
  lemma DecodesExactlyEncodings(s: string, b: seq<byte>)
    ensures Decode(s) == Some(b) <==> s == Encode(b)
  {
    BytesOfSextets(b);
    forall i | 0 <= i < |Sextets(b)| ensures IsDigit(Encode(b)[i]) && Value(Encode(b)[i]) == Sextets(b)[i] {
      ValueOfDigit(Sextets(b)[i]);
    }
    assert Values(Encode(b)) == Sextets(b);
    if Decode(s).Some? {
      SextetsOfBytes(Values(s));
      assert Digits(Values(s)) == s;
    }
  }

  lemma {:induction false} EncodeLength(b: seq<byte>)
    ensures |Sextets(b)| == (|b| * 4 + 2) / 3
  {
    if |b| >= 3 { EncodeLength(b[3..]); }
  }

  /** No text of length 4k + 1 decodes. */
  lemma {:induction false} ShortLastGroup(v: seq<sextet>)
    requires |v| % 4 == 1
    ensures Bytes(v) == None
  {
    if |v| >= 4 { ShortLastGroup(v[4..]); }
  }

  predicate IsAscii(b: seq<byte>) {
    forall i :: 0 <= i < |b| ==> b[i] < 128
  }

  /** In an encoding of ASCII bytes a `-` only ever closes a group of four. */
  lemma {:induction false} DashClosesGroup(b: seq<byte>, i: nat)
    requires IsAscii(b) && i < |Encode(b)| && Encode(b)[i] == '-'
    ensures i % 4 == 3
  {
    ValueOfDigit(Sextets(b)[i]);
    ValueOfDigit(62);
    if |b| >= 3 && i >= 4 {
      DashClosesGroup(b[3..], i - 4);
    }
  }

  /** Three bytes that start a group are encoded on their own. */
  lemma {:induction false} GroupAt(b: seq<byte>, g: nat)
    requires 3 * g + 3 <= |b|
    ensures 4 * g + 4 <= |Sextets(b)|
    ensures Sextets(b)[4 * g..4 * g + 4] == Group(b[3 * g], b[3 * g + 1], b[3 * g + 2])
  {
    if g > 0 {
      GroupAt(b[3..], g - 1);
      var s := Sextets(b[3..]);
      assert Sextets(b)[4 * g..4 * g + 4] == s[4 * (g - 1)..4 * (g - 1) + 4];
    }
  }

  /** An encoding of bytes that end in `}` ends in one of three digits. */
  lemma {:induction false} LastDigitOfBrace(b: seq<byte>)
    requires b != [] && b[|b| - 1] == '}' as int
    ensures Encode(b) != "" && Encode(b)[|Encode(b)| - 1] in {'9', 'Q', '0'}
  {
    var n := |b|;
    if n > 3 {
      LastDigitOfBrace(b[3..]);
      assert Sextets(b)[|Sextets(b)| - 1] == Sextets(b[3..])[|Sextets(b[3..])| - 1];
    } else if n == 3 {
      assert Sextets(b[3..]) == [];
    }
  }
}
