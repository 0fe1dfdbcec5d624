/** What the digits of a base64url encoding spell when only a part of them is
    decoded: the same bits, from another place on. */
module Base64Parts {
  import opened Basics
  import opened Base64Url

  /** Encodings fill up with zeros. */
  function At(b: seq<byte>, i: nat): byte {
    if i < |b| then b[i] else 0
  }

  lemma {:induction false} SextetAt(b: seq<byte>, i: nat)
    requires i < |Sextets(b)|
    ensures var g := i / 4 * 3; Sextets(b)[i] == Group(At(b, g), At(b, g + 1), At(b, g + 2))[i % 4]
    decreases |b|
  {
    if |b| >= 3 && i >= 4 {
      SextetAt(b[3..], i - 4);
      var g := (i - 4) / 4 * 3;
      assert At(b[3..], g) == At(b, g + 3) && At(b[3..], g + 1) == At(b, g + 4) && At(b[3..], g + 2) == At(b, g + 5);
    }
  }

  /** The `k`-th byte that the digits from position `x` on spell. */
  function Shifted(b: seq<byte>, x: nat, k: nat): int {
    var i := x * 3 / 4 + k;
    Spliced(x % 4, At(b, i), At(b, i + 1))
  }

  ghost predicate IsPartAt(v: seq<sextet>, b: seq<byte>, x: nat) {
    x + |v| <= |Sextets(b)| && v == Sextets(b)[x..x + |v|]
  }

  lemma {:induction false} PartLength(v: seq<sextet>)
    requires Bytes(v).Some?
    ensures |Bytes(v).value| == |v| * 3 / 4
  {
    if |v| >= 4 { PartLength(v[4..]); }
  }

  /** The byte whose bits start at an offset of 0, 6, 4 or 2 in `c`. */
  function Spliced(offset: nat, c: byte, d: byte): int {
    match offset
    case 0 => c
    case 1 => c % 4 * 64 + d / 4
    case 2 => c % 16 * 16 + d / 16
    case _ => c % 64 * 4 + d / 64
  }

  function Pair(q: nat, v: sextet, w: sextet): byte
    requires q < 3
  {
    if q == 0 then Byte0(v, w) else if q == 1 then Byte1(v, w) else Byte2(v, w)
  }

  // The byte spelled by two neighbouring sextets, by the place of the first in
  // its group, worked out on pairs of bits; `a`, `b` and `c` are the bytes of the
  // group, `d` the next one.

  lemma FourPairs(n: byte) returns (p: nat, q: nat, r: nat, s: nat)
    ensures p < 4 && q < 4 && r < 4 && s < 4 && n == 64 * p + 16 * q + 4 * r + s
    ensures n / 4 == 16 * p + 4 * q + r && n / 16 == 4 * p + q && n / 64 == p
    ensures n % 4 == s && n % 16 == 4 * r + s && n % 64 == 16 * q + 4 * r + s
  {
    p, q, r, s := n / 64, n / 16 % 4, n / 4 % 4, n % 4;
  }

  lemma ThreePairs(n: nat, p: nat, q: nat, r: nat)
    requires p < 4 && q < 4 && r < 4 && n == 16 * p + 4 * q + r
    ensures n < 64 && n / 4 == 4 * p + q && n / 16 == p && n % 4 == r && n % 16 == 4 * q + r
  {
  }

  lemma Pairs0(a: byte, b: byte)
    ensures var v, w := a / 4, a % 4 * 16 + b / 16;
            Pair(0, v, w) == Spliced(0, a, b) && Pair(1, v, w) == Spliced(3, a, b) && Pair(2, v, w) == Spliced(2, a, b)
  {
    var a3, a2, a1, a0 := FourPairs(a);
    var b3, b2, b1, b0 := FourPairs(b);
    ThreePairs(a / 4, a3, a2, a1);
    ThreePairs(a % 4 * 16 + b / 16, a0, b3, b2);
  }

  lemma Pairs1(a: byte, b: byte, c: byte)
    ensures var v, w := a % 4 * 16 + b / 16, b % 16 * 4 + c / 64;
            Pair(0, v, w) == Spliced(1, a, b) && Pair(1, v, w) == Spliced(0, b, c) && Pair(2, v, w) == Spliced(3, b, c)
  {
    var a3, a2, a1, a0 := FourPairs(a);
    var b3, b2, b1, b0 := FourPairs(b);
    var c3, c2, c1, c0 := FourPairs(c);
    ThreePairs(a % 4 * 16 + b / 16, a0, b3, b2);
    ThreePairs(b % 16 * 4 + c / 64, b1, b0, c3);
  }

  lemma Pairs2(b: byte, c: byte, d: byte)
    ensures var v, w := b % 16 * 4 + c / 64, c % 64;
            Pair(0, v, w) == Spliced(2, b, c) && Pair(1, v, w) == Spliced(1, b, c) && Pair(2, v, w) == Spliced(0, c, d)
  {
    var b3, b2, b1, b0 := FourPairs(b);
    var c3, c2, c1, c0 := FourPairs(c);
    ThreePairs(b % 16 * 4 + c / 64, b1, b0, c3);
    ThreePairs(c % 64, c2, c1, c0);
  }

  lemma Pairs3(c: byte, d: byte)
    ensures var v, w := c % 64, d / 4;
            Pair(0, v, w) == Spliced(3, c, d) && Pair(1, v, w) == Spliced(2, c, d) && Pair(2, v, w) == Spliced(1, c, d)
  {
    var c3, c2, c1, c0 := FourPairs(c);
    var d3, d2, d1, d0 := FourPairs(d);
    ThreePairs(c % 64, c2, c1, c0);
    ThreePairs(d / 4, d3, d2, d1);
  }

  lemma {:induction false} PartByte(v: seq<sextet>, b: seq<byte>, x: nat, k: nat)
    requires IsPartAt(v, b, x) && Bytes(v).Some? && k < |Bytes(v).value|
    ensures Bytes(v).value[k] == Shifted(b, x, k)
    decreases k
  {
    hide Byte0, Byte1, Byte2, Shifted, Sextets;
    if k >= 3 {
      assert v[4..] == Sextets(b)[x + 4..x + |v|];
      PartByte(v[4..], b, x + 4, k - 3);
      NextGroup(b, x, k);
    } else {
      FirstBytes(v, b, x, k);
    }
  }

  lemma NextGroup(b: seq<byte>, x: nat, k: nat)
    requires k >= 3
    ensures Shifted(b, x + 4, k - 3) == Shifted(b, x, k)
  {
  }

  lemma SextetOf(v: seq<sextet>, b: seq<byte>, x: nat, i: nat, g: nat, r: nat)
    requires IsPartAt(v, b, x) && i < |v| && x + i == 4 * g + r && r < 4
    ensures v[i] == Group(At(b, 3 * g), At(b, 3 * g + 1), At(b, 3 * g + 2))[r]
  {
    hide Group, At, Sextets;
    QuotientIs(x + i, g, r);
    SextetAt(b, x + i);
  }

  lemma QuotientIs(n: nat, g: nat, r: nat)
    requires n == 4 * g + r && r < 4
    ensures n / 4 == g && n / 4 * 3 == 3 * g && n % 4 == r
  {
  }

  lemma PairOf(v: seq<sextet>, k: nat)
    requires Bytes(v).Some? && k < 3 && k < |Bytes(v).value|
    ensures k + 1 < |v| && Bytes(v).value[k] == Pair(k, v[k], v[k + 1])
  {
    hide Byte0, Byte1, Byte2;
  }

  lemma FirstBytes(v: seq<sextet>, b: seq<byte>, x: nat, k: nat)
    requires IsPartAt(v, b, x) && Bytes(v).Some? && k < 3 && k < |Bytes(v).value|
    ensures Bytes(v).value[k] == Shifted(b, x, k)
  {
    hide Bytes, Sextets, Group, Byte0, Byte1, Byte2, Shifted;
    PairOf(v, k);
    var g, r := (x + k) / 4, (x + k) % 4;
    SextetOf(v, b, x, k, g, r);
    if r < 3 { SextetOf(v, b, x, k + 1, g, r + 1); } else { SextetOf(v, b, x, k + 1, g + 1, 0); }
    PairShifted(b, x, k, g, r, v[k], v[k + 1]);
  }

  lemma PairShifted(b: seq<byte>, x: nat, k: nat, g: nat, r: nat, v: sextet, w: sextet)
    requires k < 3 && r < 4 && x + k == 4 * g + r
    requires v == Group(At(b, 3 * g), At(b, 3 * g + 1), At(b, 3 * g + 2))[r]
    requires w == if r < 3 then Group(At(b, 3 * g), At(b, 3 * g + 1), At(b, 3 * g + 2))[r + 1]
                  else Group(At(b, 3 * g + 3), At(b, 3 * g + 4), At(b, 3 * g + 5))[0]
    ensures Pair(k, v, w) == Shifted(b, x, k)
  {
    hide At, Byte0, Byte1, Byte2;
    Place(x, k, g, r);
    var n, i := 3 * g, x * 3 / 4 + k;
    PairAt(k, r, v, w, At(b, n), At(b, n + 1), At(b, n + 2), At(b, n + 3));
  }

  lemma PairAt(k: nat, r: nat, v: sextet, w: sextet, a: byte, b: byte, c: byte, d: byte)
    requires k < 3 && r < 4 && v == Group(a, b, c)[r]
    requires w == if r < 3 then Group(a, b, c)[r + 1] else d / 4
    ensures Pair(k, v, w) == Spliced((r + 4 - k) % 4, [a, b, c][Start(k, r)], [b, c, d][Start(k, r)])
  {
    hide Pair, Spliced;
    match r
    case 0 => Pairs0(a, b);
    case 1 => Pairs1(a, b, c);
    case 2 => Pairs2(b, c, d);
    case _ => Pairs3(c, d);
    assert k == 0 || k == 1 || k == 2;
  }

  /** In which byte of its group a byte of a part starts. */
  function Start(k: nat, r: nat): nat
    ensures Start(k, r) < 3
  {
    if r == 0 then 0 else if r == 1 then (if k == 0 then 0 else 1) else if r == 2 then (if k == 2 then 2 else 1) else 2
  }

  lemma Place(x: nat, k: nat, g: nat, r: nat)
    requires k < 3 && r < 4 && x + k == 4 * g + r
    ensures x % 4 == (r + 4 - k) % 4 && x * 3 / 4 + k == 3 * g + Start(k, r)
  {
    if r >= k {
      assert x == 4 * g + (r - k);
    } else {
      assert x == 4 * (g - 1) + (r - k + 4);
    }
  }

  // ----- the two facts about parts

  /** A part that decodes spells the bits from its place on, and no more bytes
      than there are. */
  lemma PartDecoded(s: string, b: seq<byte>, x: nat, d: seq<byte>)
    requires x + |s| <= |Encode(b)| && s == Encode(b)[x..x + |s|] && Decode(s) == Some(d)
    ensures x * 3 / 4 + |d| <= |b| && (|s| < |Encode(b)| ==> |d| < |b|)
    ensures forall k :: 0 <= k < |d| ==> d[k] == Shifted(b, x, k)
  {
    hide Bytes, Sextets, Shifted;
    var v := Values(s);
    forall i | 0 <= i < |s| ensures v[i] == Sextets(b)[x + i] { ValueOfDigit(Sextets(b)[x + i]); }
    assert v == Sextets(b)[x..x + |v|];
    PartLength(v);
    EncodeLength(b);
    forall k | 0 <= k < |d| ensures d[k] == Shifted(b, x, k) { PartByte(v, b, x, k); }
  }

  /** Which byte has the bits of the dash before a part. */
  lemma DashBefore(b: seq<byte>, x: nat)
    requires 0 < x <= |Encode(b)| && Encode(b)[x - 1] == '-'
    ensures var i := x * 3 / 4;
            && (x % 4 == 0 ==> 0 < i <= |b| && b[i - 1] % 64 == 62)
            && (x % 4 == 1 ==> i < |b| && b[i] >= 248)
            && (x % 4 >= 2 ==> i < |b| && b[i] >= 128)
  {
    hide Sextets, Group, At;
    var v := Sextets(b)[x - 1];
    ValueOfDigit(v);
    ValueOfDigit(62);
    var g, r := (x - 1) / 4, (x - 1) % 4;
    SextetAt(b, x - 1);
    QuotientIs(x - 1, g, r);
    SextetIs62(At(b, 3 * g), At(b, 3 * g + 1), At(b, 3 * g + 2), r);
    PlaceBehind(x, g, r);
    LoudIsThere(b, 3 * g + r);
    if r == 3 { LoudIsThere(b, 3 * g + 2); }
  }

  lemma PlaceBehind(x: nat, g: nat, r: nat)
    requires x == 4 * g + r + 1 && r < 4
    ensures x % 4 == (if r == 3 then 0 else r + 1) && x * 3 / 4 == (if r == 3 then 3 * g + 3 else 3 * g + r)
  {
    if r == 3 { assert x == 4 * (g + 1); }
  }

  lemma LoudIsThere(b: seq<byte>, i: nat)
    ensures if i < |b| then At(b, i) == b[i] else At(b, i) == 0
  {
  }

  lemma SextetIs62(a: byte, b: byte, c: byte, r: nat)
    requires r < 4 && Group(a, b, c)[r] == 62
    ensures (r == 0 ==> a >= 248) && (r == 1 ==> b >= 224) && (r == 2 ==> c >= 128) && (r == 3 ==> c % 64 == 62)
  {
  }
}
