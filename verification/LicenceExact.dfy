/** A licence is read back from its file name exactly when the name is safe: the
    parts of a name that is cut apart are never that licence. */
module LicenceExact {
  import opened Basics
  import opened Base64Url
  import opened Base64Parts
  import opened LicenceJson
  import opened LicenceReader
  import opened Text
  import opened LicenceFile
  import opened LicenceRoundTrip
  import Utf8

  // ----- where a printed licence has bytes that can spell a dash

  predicate IsLoud(c: byte) {
    c >= 128 || c % 64 == 62
  }

  /** A value as it is printed. */
  function Escaped(value: string): seq<byte> {
    EscapeAll(Utf8.Encode(value))
  }

  lemma EmptyValue()
    ensures Escaped("") == []
  {
    assert Utf8.Encode("") == [];
  }

  /** What is printed from the closing quote of the `f`-th value on. */
  function Rest(m: seq<(string, string)>, f: nat): seq<byte>
    requires f < |m|
  {
    [QUOTE] + (if f + 1 == |m| then [125] else [44] + (PrintMembers(m[f + 1..]) + [125]))
  }

  lemma {:induction false} Located(m: seq<(string, string)>, i: nat) returns (f: nat, s: nat)
    requires m != [] && (forall x :: x in m ==> IsLetters(x.0))
    requires i < |PrintMembers(m) + [125]| && IsLoud((PrintMembers(m) + [125])[i])
    ensures f < |m| && s <= i < s + |Escaped(m[f].1)|
    ensures s <= |PrintMembers(m) + [125]| && (PrintMembers(m) + [125])[s..] == Escaped(m[f].1) + Rest(m, f)
  {
    hide Rest;
    hide PrintMembers, Escaped, PrintText, IsQuiet;
    var front, e := PrintText(m[0].0) + [58, QUOTE], Escaped(m[0].1);
    assert m[0] in m;
    LettersPrinted(m[0].0);
    FirstValue(m);
    if |front| <= i < |front| + |e| {
      f, s := 0, |front|;
    } else {
      RestBehindFirst(m);
      PastValue(PrintText(m[0].0), e, Rest(m, 0), i);
      var after := |front| + |e| + 2;
      var f', s' := Located(m[1..], i - after);
      f, s := f' + 1, after + s';
      var t, u := PrintMembers(m) + [125], PrintMembers(m[1..]) + [125];
      assert t[after..] == u;
      SameRest(m, f');
      assert t[s..] == u[s'..] && m[1..][f' + 1..] == m[f + 1..];
    }
  }

  lemma RestBehindFirst(m: seq<(string, string)>)
    requires m != []
    ensures var r := Rest(m, 0); |r| >= 2 && r[0] == QUOTE && (r[1] == 44 || r == [QUOTE, 125])
    ensures |m| > 1 ==> Rest(m, 0)[1] == 44 && Rest(m, 0)[2..] == PrintMembers(m[1..]) + [125]
    ensures |m| == 1 ==> Rest(m, 0) == [QUOTE, 125]
  {
    if |m| > 1 { assert Rest(m, 0) == [QUOTE, 44] + (PrintMembers(m[1..]) + [125]); }
  }

  lemma SameRest(m: seq<(string, string)>, f: nat)
    requires f + 1 < |m|
    ensures Rest(m[1..], f) == Rest(m, f + 1)
  {
    assert m[1..][f + 1..] == m[f + 2..];
  }

  /** Neither the label nor the quote and comma behind a value are loud. */
  lemma PastValue(front: seq<byte>, e: seq<byte>, rest: seq<byte>, i: nat)
    requires IsQuiet(front) && |rest| >= 2 && rest[0] == QUOTE && (rest[1] == 44 || rest == [QUOTE, 125])
    requires var t := front + [58, QUOTE] + (e + rest); i < |t| && IsLoud(t[i])
    requires !(|front| + 2 <= i < |front| + 2 + |e|)
    ensures i >= |front| + 2 + |e| + 2 && rest[1] == 44
    ensures (front + [58, QUOTE] + (e + rest))[|front| + 2 + |e| + 2..] == rest[2..]
  {
    var t := front + [58, QUOTE] + (e + rest);
    assert forall j :: 0 <= j < |front| ==> t[j] == front[j];
    assert i >= |front| + 2 + |e| ==> t[i] == rest[i - (|front| + 2 + |e|)];
  }

  lemma QuotesAround(value: string)
    ensures PrintText(value) == [QUOTE] + Escaped(value) + [QUOTE]
  {
  }

  lemma FirstValue(m: seq<(string, string)>)
    requires m != []
    ensures PrintMembers(m) + [125] == PrintText(m[0].0) + [58, QUOTE] + (Escaped(m[0].1) + Rest(m, 0))
  {
    hide PrintText, EscapeAll;
    var (name, value) := m[0];
    QuotesAround(value);
    var t, e := PrintText(name), Escaped(value);
    var more := if |m| == 1 then [] else [44] + PrintMembers(m[1..]);
    assert PrintMembers(m) == t + [58] + ([QUOTE] + e + [QUOTE]) + more;
    Regrouped(t, e, more);
    assert |m| > 1 ==> more + [125] == [44] + (PrintMembers(m[1..]) + [125]);
  }

  lemma Regrouped(t: seq<byte>, e: seq<byte>, more: seq<byte>)
    ensures t + [58] + ([QUOTE] + e + [QUOTE]) + more + [125] == t + [58, QUOTE] + (e + ([QUOTE] + (more + [125])))
  {
  }

  lemma NamePrinted(n: string)
    requires IsLetters(n) && |n| >= 3
    ensures |PrintText(n)| == |n| + 2 && PrintText(n)[..4] == [QUOTE, n[0] as int, n[1] as int, n[2] as int]
  {
    Utf8.AsciiBytes(n);
    LettersQuoted(n, Utf8.Encode(n));
  }

  /** What follows a value but the last: its quote, a comma and the next name. */
  lemma NameBehind(m: seq<(string, string)>, f: nat)
    requires f + 1 < |m| && IsLetters(m[f + 1].0) && |m[f + 1].0| >= 3
    ensures var n := m[f + 1].0;
            Rest(m, f)[..6] == [QUOTE, 44, QUOTE, n[0] as int, n[1] as int, n[2] as int]
  {
    hide PrintText, IsLetters;
    var n := m[f + 1].0;
    NamePrinted(n);
    var t, more := PrintText(n), PrintMembers(m[f + 1..]);
    assert more == t + more[|t|..];
    assert Rest(m, f)[..6] == [QUOTE, 44] + t[..4];
  }

  predicate IsSeam(b: seq<byte>, t: nat) {
    t + 6 <= |b| && b[t] == QUOTE && b[t + 1] == 44 && b[t + 2] == QUOTE
    && ((b[t + 3] == 104 && b[t + 4] == 111 && b[t + 5] == 115)
        || (b[t + 3] == 97 && b[t + 4] == 112 && b[t + 5] == 105)
        || (b[t + 3] == 114 && b[t + 4] == 101 && b[t + 5] == 108))
  }

  lemma SeamBehind(lic: CustomServer, f: nat)
    requires f < 4
    ensures f < 3 ==> IsSeam(Rest(Members(lic), f), 0)
    ensures f == 3 ==> Rest(Members(lic), f) == [QUOTE, 125]
  {
    if f < 3 {
      NameBehind(Members(lic), f);
      var r := Rest(Members(lic), f);
      assert forall i :: 0 <= i < 6 ==> r[i] == r[..6][i];
    }
  }

  // ----- a part from within a group of four

  lemma TailIsNoStart(b: seq<byte>)
    requires b != [] && IsTailByte(b[0])
    ensures !IsUtf8(b)
  {
  }

  lemma FourTails(d: seq<byte>, q: nat)
    requires q + 4 <= |d| && IsTailByte(d[q]) && IsTailByte(d[q + 1]) && IsTailByte(d[q + 2]) && IsTailByte(d[q + 3])
    ensures !IsUtf8(d)
  {
    if IsUtf8(d) {
      var j := NextChar(d, q);
      TailIsNoStart(d[q + j..]);
      assert false;
    }
  }

  lemma TailTooMany(d: seq<byte>, q: nat)
    requires q + 6 <= |d| && IsTailByte(d[q]) && IsTailByte(d[q + 1]) && IsTailByte(d[q + 2])
    requires 0xC0 <= d[q + 3] < 0xE0 && IsTailByte(d[q + 4]) && IsTailByte(d[q + 5])
    ensures !IsUtf8(d)
  {
    TailIsNoStart(d[q + 5..]);
    assert d[q + 3..][2..] == d[q + 5..];
    if IsUtf8(d) {
      var j := NextChar(d, q);
      if j < 3 { TailIsNoStart(d[q + j..]); }
      assert false;
    }
  }

  lemma LeadAlone(d: seq<byte>, q: nat)
    requires q + 3 <= |d| && d[q] < 128 && 0xC0 <= d[q + 1] < 0xE0 && !IsTailByte(d[q + 2])
    ensures !IsUtf8(d)
  {
    assert d[q..][1..] == d[q + 1..];
    AsciiFirst(d[q..]);
    if IsUtf8(d) {
      var j := NextChar(d, q);
      assert false;
    }
  }

  /** Bits from within a group that run over the seam of two members are not UTF-8. */
  lemma SeamShifted(b: seq<byte>, x: nat, d: seq<byte>, t: nat)
    requires x % 4 >= 2 && IsSeam(b, t) && x * 3 / 4 <= t && t + 6 <= x * 3 / 4 + |d|
    requires forall k :: 0 <= k < |d| ==> d[k] == Shifted(b, x, k)
    ensures !IsUtf8(d)
  {
    var q := t - x * 3 / 4;
    assert d[q] == Spliced(x % 4, b[t], b[t + 1]) && d[q + 1] == Spliced(x % 4, b[t + 1], b[t + 2]);
    assert d[q + 2] == Spliced(x % 4, b[t + 2], b[t + 3]);
    assert d[q + 3] == Spliced(x % 4, b[t + 3], b[t + 4]);
    assert d[q + 4] == Spliced(x % 4, b[t + 4], b[t + 5]) && d[q + 5] == Spliced(x % 4, b[t + 5], At(b, t + 6));
    if x % 4 == 2 {
      SeamByFour(b[t + 3], d, q);
    } else {
      SeamByTwo(b[t + 3], b[t + 4], b[t + 5], At(b, t + 6), d, q);
    }
  }

  lemma SeamByFour(n: byte, d: seq<byte>, q: nat)
    requires q + 3 <= |d| && 96 <= n < 128 && d[q] == 0x22 && d[q + 1] == 0xC2 && d[q + 2] == Spliced(2, QUOTE, n)
    ensures !IsUtf8(d)
  {
    LeadAlone(d, q);
  }

  lemma SeamByTwo(n0: byte, n1: byte, n2: byte, n3: byte, d: seq<byte>, q: nat)
    requires (n0 == 104 && n1 == 111) || (n0 == 97 && n1 == 112) || (n0 == 114 && n1 == 101 && n2 == 108)
    requires q + 6 <= |d| && d[q] == 0x88 && d[q + 1] == 0xB0 && d[q + 2] == Spliced(3, QUOTE, n0)
    requires d[q + 3] == Spliced(3, n0, n1) && d[q + 4] == Spliced(3, n1, n2) && d[q + 5] == Spliced(3, n2, n3)
    ensures !IsUtf8(d)
  {
    if n0 == 114 { TailTooMany(d, q); } else { FourTails(d, q); }
  }

  // ----- a part from the start of a group on

  lemma EscapeIsQuiet(b: byte)
    ensures Escape(b) == [b] || forall i :: 0 <= i < |Escape(b)| ==> !IsLoud(Escape(b)[i])
  {
  }

  /** A loud byte stands for itself, so behind it the escapes start anew. */
  lemma {:induction false} BehindLoud(v: seq<byte>, p: nat) returns (w: seq<byte>)
    requires p < |EscapeAll(v)| && IsLoud(EscapeAll(v)[p])
    ensures EscapeAll(v)[p + 1..] == EscapeAll(w)
  {
    var e, more := Escape(v[0]), EscapeAll(v[1..]);
    EscapeIsQuiet(v[0]);
    if p < |e| {
      w := v[1..];
      assert EscapeAll(v)[p] == e[p];
    } else {
      w := BehindLoud(v[1..], p - |e|);
      assert EscapeAll(v)[p + 1..] == more[p - |e| + 1..];
    }
  }

  /** Whatever part of a value and of the next member follows, it is at most the empty licence. */
  lemma SeamAligned(b: seq<byte>, i: nat, d: seq<byte>, w: seq<byte>, rest: seq<byte>)
    requires i + |d| <= |b| && d == b[i..i + |d|] && b[i..] == EscapeAll(w) + rest
    requires IsSeam(rest, 0) && |EscapeAll(w)| + 6 <= |d|
    ensures Parse(d).Some? ==> Parse(d).value == CustomServer("", "", "", "")
  {
    var n := |EscapeAll(w)|;
    var more := rest[4..|d| - n];
    assert d == b[i..][..|d|] == EscapeAll(w) + rest[..|d| - n];
    assert rest[..|d| - n] == [QUOTE] + ([44, QUOTE, rest[3]] + more);
    InsideIsNoLicence(w, rest[3], more);
  }

  // ----- no part is the licence

  lemma {:induction false} Utf8Bytes(b: seq<byte>, i: nat)
    requires IsUtf8(b) && i < |b|
    ensures b[i] < 248
    decreases |b|
  {
    var n := Utf8.Spelled(b).1;
    if i >= n { Utf8Bytes(b[n..], i - n); }
  }

  lemma {:induction false} BraceStays(z: seq<byte>)
    requires z != [] && z[|z| - 1] == 125
    ensures SkipSpace(z) != []
  {
    if |z| > 1 { BraceStays(z[1..]); }
  }

  lemma FrontIsNoLicence(lic: CustomServer, d: seq<byte>)
    requires var b := Print(lic); |d| < |b| && forall k :: 0 <= k < |d| ==> d[k] == b[k]
    ensures Parse(d) == None
  {
    hide Parse, Print, SkipSpace;
    var b := Print(lic);
    var z := b[|d|..];
    PrintedEnds(lic);
    BraceStays(z);
    ParsePrint(lic);
    assert d + z == b;
    if Parse(d).Some? {
      NothingFollows(d, z);
      assert false;
    }
  }

  lemma LoudInValue(lic: CustomServer, i: nat) returns (f: nat, s: nat)
    requires i < |Print(lic)| && IsLoud(Print(lic)[i])
    ensures f < 4 && s <= i < s + |Escaped(ValueAt(lic, f))| && s <= |Print(lic)|
    ensures Print(lic)[s..] == Escaped(ValueAt(lic, f)) + Rest(Members(lic), f)
  {
    hide PrintMembers, Escaped, Rest, IsLetters;
    var m := Members(lic);
    var t := PrintMembers(m) + [125];
    assert Print(lic) == [123] + t;
    MemberNames(lic);
    var s': nat;
    f, s' := Located(m, i - 1);
    s := s' + 1;
    assert Print(lic)[s..] == t[s'..];
  }

  lemma MemberNames(lic: CustomServer)
    ensures var m := Members(lic);
            && IsLetters(m[0].0) && IsLetters(m[1].0) && IsLetters(m[2].0) && IsLetters(m[3].0)
            && |m[0].0| == 3 && |m[1].0| == 4 && |m[2].0| == 3 && |m[3].0| == 5
            && forall x :: x in m ==> IsLetters(x.0)
  {
  }

  /** Being the licence, a part would have to run over a seam. */
  lemma WouldRunOverSeam(lic: CustomServer, d: seq<byte>, i: nat, f: nat, s: nat)
    requires f < 4 && s <= |Print(lic)| && Print(lic)[s..] == Escaped(ValueAt(lic, f)) + Rest(Members(lic), f)
    requires Escaped(ValueAt(lic, f)) != [] && s <= i && i + |d| <= |Print(lic)| && Parse(d) == Some(lic)
    ensures var t := s + |Escaped(ValueAt(lic, f))|; f < 3 && t + 6 <= i + |d| && IsSeam(Print(lic), t)
  {
    hide Parse, EscapeAll, Rest, Print, IsSeam;
    var b, r := Print(lic), Rest(Members(lic), f);
    var t := s + |Escaped(ValueAt(lic, f))|;
    EmptyValue();
    LicenceIsLonger(d, f);
    SeamBehind(lic, f);
    assert |b| == t + |r|;
    forall k | 0 <= k < |r| ensures b[t + k] == r[k] { assert b[s..][t - s + k] == r[k]; }
    if f < 3 { SeamMoved(b, t, r); }
  }

  lemma SeamMoved(b: seq<byte>, t: nat, r: seq<byte>)
    requires IsSeam(r, 0) && |b| == t + |r| && forall k :: 0 <= k < |r| ==> b[t + k] == r[k]
    ensures IsSeam(b, t)
  {
    assert forall k :: t <= k < t + 6 ==> b[k] == r[k - t];
  }

  /** No part of an encoded licence that has a dash before it or that starts in
      front and is not the whole spells that licence. */
  lemma PartIsNoLicence(lic: CustomServer, s: string, x: nat, d: seq<byte>)
    requires var e := Encode(Print(lic)); x + |s| <= |e| && s == e[x..x + |s|] && Decode(s) == Some(d)
    requires if x == 0 then |s| < |Encode(Print(lic))| else Encode(Print(lic))[x - 1] == '-'
    ensures Parse(d) != Some(lic) && |d| < |Print(lic)|
  {
    hide Encode, Decode, Parse, Print, IsUtf8;
    var b := Print(lic);
    PartDecoded(s, b, x, d);
    if x == 0 {
      FrontIsNoLicence(lic, d);
    } else {
      DashBefore(b, x);
      ParsePrint(lic);
      LicenceIsUtf8(b);
      var i := x * 3 / 4;
      if x % 4 == 1 { Utf8Bytes(b, i); }
      var f, from := LoudInValue(lic, if x % 4 == 0 then i - 1 else i);
      if Parse(d) == Some(lic) {
        WouldRunOverSeam(lic, d, i, f, from);
        LaterPart(lic, x, d, f, from);
        assert false;
      }
    }
  }

  lemma LaterPart(lic: CustomServer, x: nat, d: seq<byte>, f: nat, s: nat)
    requires x % 4 != 1 && f < 3 && (forall k :: 0 <= k < |d| ==> d[k] == Shifted(Print(lic), x, k))
    requires var b, i := Print(lic), x * 3 / 4;
             var t := s + |Escaped(ValueAt(lic, f))|;
             && t <= |b| && i + |d| <= |b| && b[s..] == Escaped(ValueAt(lic, f)) + Rest(Members(lic), f)
             && IsSeam(b, t) && t + 6 <= i + |d|
             && (if x % 4 == 0 then i >= 1 && s <= i - 1 < t && IsLoud(b[i - 1]) else s <= i < t)
    ensures Parse(d) != Some(lic)
  {
    hide Parse, Print, IsUtf8, Members, Escaped;
    var b, i := Print(lic), x * 3 / 4;
    var e := Escaped(ValueAt(lic, f));
    if x % 4 == 0 {
      AlignedPart(lic, i, d, f, s);
    } else {
      SeamShifted(b, x, d, s + |e|);
      if Parse(d).Some? { LicenceIsUtf8(d); assert false; }
    }
  }

  lemma AlignedPart(lic: CustomServer, i: nat, d: seq<byte>, f: nat, s: nat)
    requires f < 3 && i >= 1 && i + |d| <= |Print(lic)| && d == Print(lic)[i..i + |d|]
    requires var b := Print(lic);
             var t := s + |Escaped(ValueAt(lic, f))|;
             && s <= i - 1 < t <= |b| && b[s..] == Escaped(ValueAt(lic, f)) + Rest(Members(lic), f)
             && IsLoud(b[i - 1]) && t + 6 <= i + |d|
    ensures Parse(d) != Some(lic)
  {
    hide Parse, Print, IsUtf8, EscapeAll, Rest, IsSeam;
    var b, v, r := Print(lic), Utf8.Encode(ValueAt(lic, f)), Rest(Members(lic), f);
    assert b[i - 1] == b[s..][i - 1 - s] == EscapeAll(v)[i - 1 - s];
    var w := BehindLoud(v, i - 1 - s);
    assert b[i..] == b[s..][i - s..] == EscapeAll(w) + r;
    SeamBehind(lic, f);
    SeamAligned(b, i, d, w, r);
    EmptyValue();
  }

  // ----- the pieces of a name are parts of it

  /** A start of a text that a dash ends, or the whole text. */
  predicate IsCutFrom(p: string, s: string) {
    p <= s && (|p| == |s| || (s[|p|] == '-' && (p == "" || p[|p| - 1] != '-')))
  }

  predicate IsCutOut(p: string, s: string) {
    exists i :: 0 <= i <= |s| && IsCutFrom(p, s[i..])
  }

  lemma CutOutLater(p: string, a: string, s: string)
    requires IsCutOut(p, s)
    ensures IsCutOut(p, a + s)
  {
    var i :| 0 <= i <= |s| && IsCutFrom(p, s[i..]);
    assert (a + s)[|a| + i..] == s[i..];
  }

  lemma CutOutFirst(p: string, s: string)
    requires IsCutFrom(p, s)
    ensures IsCutOut(p, s)
  {
    assert s[0..] == s;
  }

  lemma {:induction false} FirstPieceCut(s: string)
    ensures IsCutFrom(Split(s, "--")[0], s)
  {
    assert |s| >= 2 && s[0] == '-' && s[1] == '-' ==> "--" <= s;
    if s != "" && !("--" <= s) {
      FirstPieceCut(s[1..]);
      var p := Split(s[1..], "--")[0];
      assert Split(s, "--")[0] == [s[0]] + p;
    }
  }

  lemma {:induction false} PiecesCut(s: string)
    ensures forall p :: p in Split(s, "--") ==> IsCutOut(p, s)
  {
    hide IsCutOut, IsCutFrom;
    FirstPieceCut(s);
    forall p | p in Split(s, "--") ensures IsCutOut(p, s) {
      if p == Split(s, "--")[0] {
        CutOutFirst(p, s);
      } else if "--" <= s {
        PiecesCut(s[2..]);
        CutOutLater(p, "--", s[2..]);
        assert "--" + s[2..] == s;
      } else {
        PiecesCut(s[1..]);
        assert p in Split(s[1..], "--");
        CutOutLater(p, [s[0]], s[1..]);
        assert [s[0]] + s[1..] == s;
      }
    }
  }

  predicate IsDashed(pat: string) {
    |pat| >= 2 && pat[0] == '-' && pat[|pat| - 1] == '-'
  }

  lemma TwoDashes(p: string)
    requires |p| >= 2 && p[0] == '-' && p[1] == '-'
    ensures Contains(p, "--")
  {
    assert p[0..] == p && "--" <= p;
  }

  lemma RestIsFree(p: string)
    requires p != "" && !Contains(p, "--")
    ensures !Contains(p[1..], "--")
  {
    assert forall i :: 0 <= i <= |p[1..]| ==> p[1..][i..] == p[i + 1..];
  }

  lemma CutWithoutFirst(c: char, p: string, s: string)
    requires p != "" && IsCutFrom(p, [c] + s)
    ensures p[0] == c && IsCutFrom(p[1..], s)
  {
    assert ([c] + s)[1..] == s && ([c] + s)[..|p|] == p;
  }

  lemma CutWithFirst(c: char, p: string, s: string, t: string)
    requires p != "" && IsCutFrom(p, [c] + s) && IsCutFrom(p[1..], t) && (t != "" ==> s != "")
    ensures IsCutFrom(p, [c] + t)
  {
    CutWithoutFirst(c, p, s);
    assert p == [c] + p[1..] && ([c] + t)[..|p|] == [c] + t[..|p| - 1];
  }

  lemma {:induction false} CutFromReplaced(p: string, s: string, pat: string)
    requires IsDashed(pat) && !Contains(p, "--") && IsCutFrom(p, Replace(s, pat, "--"))
    ensures IsCutFrom(p, s)
  {
    var r := Replace(s, pat, "--");
    if s != "" {
      if pat <= s {
        assert r[0] == '-' && r[1] == '-' && s[0] == '-';
        if |p| >= 2 {
          TwoDashes(p);
          assert false;
        }
      } else if p != "" {
        var r1 := Replace(s[1..], pat, "--");
        assert r == [s[0]] + r1;
        RestIsFree(p);
        CutWithoutFirst(s[0], p, r1);
        CutFromReplaced(p[1..], s[1..], pat);
        CutWithFirst(s[0], p, r1, s[1..]);
        assert [s[0]] + s[1..] == s;
      }
    }
  }

  lemma {:induction false} CutOutReplaced(p: string, s: string, pat: string)
    requires IsDashed(pat) && !Contains(p, "--") && IsCutOut(p, Replace(s, pat, "--"))
    ensures IsCutOut(p, s)
  {
    hide IsCutFrom;
    var r := Replace(s, pat, "--");
    var i :| 0 <= i <= |r| && IsCutFrom(p, r[i..]);
    if i == 0 || s == "" {
      assert r[0..] == r;
      CutFromReplaced(p, s, pat);
      CutOutFirst(p, s);
    } else if pat <= s {
      var r' := Replace(s[|pat|..], pat, "--");
      assert r == "--" + r';
      if i >= 2 {
        assert r[i..] == r'[i - 2..];
        CutOutReplaced(p, s[|pat|..], pat);
        CutOutLater(p, pat, s[|pat|..]);
        assert pat + s[|pat|..] == s;
      } else {
        assert r[i..] == "-" + r';
        CutBehindDash(p, s, pat);
      }
    } else {
      var r' := Replace(s[1..], pat, "--");
      assert r == [s[0]] + r' && r[i..] == r'[i - 1..];
      CutOutReplaced(p, s[1..], pat);
      CutOutLater(p, [s[0]], s[1..]);
      assert [s[0]] + s[1..] == s;
    }
  }

  lemma NothingBeforeDash(s: string)
    requires s != "" && s[0] == '-'
    ensures IsCutFrom("", s)
  {
  }

  /** The second dash of what is inserted stands for the last one of the pattern. */
  lemma CutBehindDash(p: string, s: string, pat: string)
    requires IsDashed(pat) && !Contains(p, "--") && pat <= s && IsCutFrom(p, "-" + Replace(s[|pat|..], pat, "--"))
    ensures IsCutOut(p, s)
  {
    hide IsCutFrom, IsCutOut, Replace, Contains;
    var rest := s[|pat|..];
    var r := Replace(rest, pat, "--");
    if p == "" {
      assert s[0] == pat[0];
      NothingBeforeDash(s);
      CutOutFirst(p, s);
    } else {
      RestIsFree(p);
      CutWithoutFirst('-', p, r);
      CutFromReplaced(p[1..], rest, pat);
      SomethingLeft(rest, pat);
      CutWithFirst('-', p, r, rest);
      CutOutFirst(p, "-" + rest);
      CutOutLater(p, pat[..|pat| - 1], "-" + rest);
      assert pat[..|pat| - 1] + ("-" + rest) == s;
    }
  }

  lemma SomethingLeft(s: string, pat: string)
    requires pat != ""
    ensures s != "" ==> Replace(s, pat, "--") != ""
  {
  }

  lemma PiecesOfName(name: string, p: string)
    requires p in Split(Unlicensed(name), "--")
    ensures IsCutOut(p, name)
  {
    var p1, p2, p3 := LICENSED + "--", LICENSED + "-", LICENSED;
    var r1 := Replace(name, p1, "--");
    var r2 := Replace(r1, p2, "--");
    SplitPiecesFreeOf(Unlicensed(name), "--");
    PiecesCut(Unlicensed(name));
    assert IsDashed(p1) && IsDashed(p2) && IsDashed(p3);
    CutOutReplaced(p, r2, p3);
    CutOutReplaced(p, r1, p2);
    CutOutReplaced(p, name, p1);
  }

  // ----- an unsafe name is cut

  lemma {:induction false} ReplaceShortens(s: string, pat: string, sub: string)
    requires |sub| < |pat|
    ensures |Replace(s, pat, sub)| <= |s|
    ensures Contains(s, pat) ==> |Replace(s, pat, sub)| < |s|
  {
    if s != "" {
      if pat <= s {
        ReplaceShortens(s[|pat|..], pat, sub);
      } else {
        ReplaceShortens(s[1..], pat, sub);
        assert s[0..] == s;
        assert forall i :: 0 < i <= |s| ==> s[i..] == s[1..][i - 1..];
      }
    }
  }

  lemma UnlicensedShortens(s: string)
    ensures |Unlicensed(s)| <= |s| && (Contains(s, LICENSED) ==> |Unlicensed(s)| < |s|)
  {
    var p1, p2 := LICENSED + "--", LICENSED + "-";
    var r1 := Replace(s, p1, "--");
    var r2 := Replace(r1, p2, "--");
    ReplaceShortens(s, p1, "--");
    ReplaceShortens(r1, p2, "--");
    ReplaceShortens(r2, LICENSED, "--");
    if !Contains(s, p1) { ReplaceAbsent(s, p1, "--"); }
    if !Contains(r1, p2) { ReplaceAbsent(r1, p2, "--"); }
  }

  lemma {:induction false} PiecesNoLonger(s: string, sep: string)
    requires sep != ""
    ensures forall p :: p in Split(s, sep) ==> |p| <= |s|
  {
    if s != "" {
      if sep <= s { PiecesNoLonger(s[|sep|..], sep); } else { PiecesNoLonger(s[1..], sep); }
    }
  }

  // ----- main result

  lemma PlaceOfPiece(name: string, p: string) returns (i: nat)
    requires IsCutOut(p, name)
    ensures i + |p| <= |name| && p == name[i..i + |p|] && (i + |p| < |name| ==> name[i + |p|] == '-')
  {
    i :| 0 <= i <= |name| && IsCutFrom(p, name[i..]);
    assert p == name[i..][..|p|] == name[i..i + |p|];
    assert i + |p| < |name| ==> name[i..][|p|] == name[i + |p|];
  }

  ghost predicate IsReversal(name: string, e: string) {
    |e| == |name| && forall k :: 0 <= k < |e| ==> e[k] == name[|name| - 1 - k]
  }

  /** Where a piece of the reversed text was. */
  lemma PlaceOfPart(name: string, e: string, p: string) returns (x: nat)
    requires IsReversal(name, e) && IsCutOut(p, name) && p != name
    ensures x + |p| <= |e| && Reverse(p) == e[x..x + |p|]
    ensures if x == 0 then |p| < |e| else e[x - 1] == '-'
  {
    hide IsCutOut;
    var i := PlaceOfPiece(name, p);
    x := |name| - (i + |p|);
    forall k | 0 <= k < |p| ensures Reverse(p)[k] == e[x..x + |p|][k] {
      assert p[|p| - 1 - k] == name[i + (|p| - 1 - k)];
    }
    assert name[0..|name|] == name;
  }

  lemma NameIsReversal(e: string)
    ensures IsReversal(Reverse(e), e)
  {
    var r := Reverse(e);
    forall k | 0 <= k < |e| ensures e[k] == r[|r| - 1 - k] { assert r[|e| - 1 - k] == e[k]; }
  }

  lemma PartDecodes(lic: CustomServer, e: string, s: string, x: nat)
    requires e == Encode(Print(lic)) && x + |s| <= |e| && s == e[x..x + |s|] && if x == 0 then |s| < |e| else e[x - 1] == '-'
    ensures Decode(s).Some? ==> Parse(Decode(s).value) != Some(lic) && |Decode(s).value| < |Print(lic)|
  {
    hide Encode, Decode, Parse, Print;
    if Decode(s).Some? { PartIsNoLicence(lic, s, x, Decode(s).value); }
  }

  lemma PieceDecodes(lic: CustomServer, name: string, p: string)
    requires IsReversal(name, Encode(Print(lic))) && IsCutOut(p, name) && p != name
    ensures var d := Decode(Reverse(p)); d.Some? ==> Parse(d.value) != Some(lic) && |d.value| < |Print(lic)|
  {
    hide Encode, Decode, Parse, Print, IsCutOut, IsReversal;
    var e := Encode(Print(lic));
    var x := PlaceOfPart(name, e, p);
    PartDecodes(lic, e, Reverse(p), x);
  }

  /** A signed licence is longer than a printed one: the signature takes more
      than the forty bytes around the values. */
  lemma SignedIsLonger(lic: CustomServer, d: seq<byte>, verify: Verifier)
    requires IsSigning(verify) && verify(d).Some? && Parse(verify(d).value) == Some(lic)
    ensures |Print(lic)| + 24 <= |d|
  {
    hide Parse, Print;
    ValuesFit(verify(d).value);
    PrintLength(lic);
  }

  lemma PartNotRead(lic: CustomServer, p: string, verify: Verifier)
    requires IsCutOut(p, GenName(lic)) && p != GenName(lic) && IsSigning(verify)
    ensures FromConfigString(p, verify) != Some(lic)
  {
    hide Decode, Parse, Print, IsCutOut, IsReversal;
    NameIsReversal(Encode(Print(lic)));
    PieceDecodes(lic, GenName(lic), p);
    if FromConfigString(p, verify) == Some(lic) {
      SignedIsLonger(lic, Decode(Reverse(p)).value, verify);
      assert false;
    }
  }

  lemma DigitsKept(name: string, p: string)
    requires LooksPrinted(name) && IsCutOut(p, name)
    ensures Trim(p) == p && '(' !in p && forall k :: 0 <= k < |p| ==> IsDigit(p[k])
  {
    hide IsCutOut, Trim;
    var i := PlaceOfPiece(name, p);
    forall k | 0 <= k < |p| ensures IsDigit(p[k]) { assert p[k] == name[i + k]; }
    DigitsTrimmed(p);
  }

  lemma DigitsTrimmed(p: string)
    requires forall k :: 0 <= k < |p| ==> IsDigit(p[k])
    ensures Trim(p) == p
  {
    assert p + "" == p;
    if p != "" { TrimAfter(p, ""); }
  }

  lemma {:induction false} NoneRead(pieces: seq<string>, lic: CustomServer, verify: Verifier)
    requires forall p :: p in pieces ==> FromPieces([p], verify) != Some(lic)
    ensures FromPieces(pieces, verify) != Some(lic)
    decreases |pieces|
  {
    if pieces != [] {
      assert pieces[0] in pieces;
      assert [pieces[0]][1..] == [];
      NoneRead(pieces[1..], lic, verify);
    }
  }

  lemma PlainPieceNotRead(s: string, lic: CustomServer, verify: Verifier)
    requires '(' !in s && FromConfigString(Trim(s), verify) != Some(lic)
    ensures FromPieces([s], verify) != Some(lic)
  {
    assert [s][1..] == [];
  }

  // ----- a rename suffix stays with the last piece

  function WithLast(pieces: seq<string>, u: string): seq<string>
    requires pieces != []
  {
    var n := |pieces| - 1;
    pieces[..n] + [pieces[n] + u]
  }

  lemma NoNewSeparator(a: string, u: string)
    requires a != "" && !("--" <= a) && '-' !in u
    ensures !("--" <= a + u)
  {
    assert |a| >= 2 ==> (a + u)[0] == a[0] && (a + u)[1] == a[1];
    assert |a| == 1 && u != "" ==> (a + u)[1] == u[0] && u[0] in u;
    assert |a| >= 2 && a[0] == '-' && a[1] == '-' ==> "--" <= a;
  }

  lemma LastAfter(pieces: seq<string>, u: string)
    requires pieces != []
    ensures WithLast([""] + pieces, u) == [""] + WithLast(pieces, u)
  {
  }

  lemma LastAfterFirst(c: char, pieces: seq<string>, u: string)
    requires pieces != []
    ensures var t := WithLast(pieces, u); [[c] + t[0]] + t[1..] == WithLast([[c] + pieces[0]] + pieces[1..], u)
  {
    if |pieces| == 1 { assert [c] + (pieces[0] + u) == [c] + pieces[0] + u; }
  }

  lemma SplitWhole(u: string)
    requires '-' !in u
    ensures Split(u, "--") == WithLast([""], u)
  {
    NoDashNoStart(u, "", "--");
    SplitNone(u, "--");
    assert "" + u == u;
  }

  lemma {:induction false} SplitSuffix(a: string, u: string)
    requires '-' !in u
    ensures Split(a + u, "--") == WithLast(Split(a, "--"), u)
  {
    hide WithLast;
    if a == "" {
      assert a + u == u;
      SplitWhole(u);
    } else if "--" <= a {
      SplitSuffix(a[2..], u);
      assert (a + u)[2..] == a[2..] + u && "--" <= a + u;
      LastAfter(Split(a[2..], "--"), u);
    } else {
      SplitSuffix(a[1..], u);
      NoNewSeparator(a, u);
      SuffixStep(a[0], a[1..], u);
      assert a + u == [a[0]] + (a[1..] + u) && a == [a[0]] + a[1..];
    }
  }

  lemma SuffixStep(c: char, s: string, u: string)
    requires !("--" <= [c] + s) && !("--" <= [c] + (s + u)) && Split(s + u, "--") == WithLast(Split(s, "--"), u)
    ensures Split([c] + (s + u), "--") == WithLast(Split([c] + s, "--"), u)
  {
    hide WithLast;
    SplitStep(c, s + u);
    SplitStep(c, s);
    LastAfterFirst(c, Split(s, "--"), u);
  }

  lemma SplitStep(c: char, s: string)
    requires !("--" <= [c] + s)
    ensures Split([c] + s, "--") == [[c] + Split(s, "--")[0]] + Split(s, "--")[1..]
  {
    assert ([c] + s)[1..] == s;
  }

  lemma UnlicensedSuffix(name: string, u: string)
    requires '-' !in u && (u == "" || u[0] !in LICENSED)
    ensures Unlicensed(name + u) == Unlicensed(name) + u
  {
    var p1, p2, p3 := LICENSED + "--", LICENSED + "-", LICENSED;
    var r1 := Replace(name, p1, "--");
    assert '-' in LICENSED;
    SuffixKept(name, u, p1);
    SuffixKept(r1, u, p2);
    SuffixKept(Replace(r1, p2, "--"), u, p3);
  }

  lemma SuffixKept(s: string, u: string, pat: string)
    requires '-' !in u && pat != "" && pat[0] == '-' && (u == "" || u[0] !in pat)
    ensures Replace(s + u, pat, "--") == Replace(s, pat, "--") + u
  {
    if u == "" {
      assert s + u == s;
    } else {
      ReplaceAcross(s, u, pat, "--");
      NoDashNoStart(u, "", pat);
      ReplaceSkips(u, "", pat, "--");
      assert u + "" == u;
    }
  }

  /** What the suffix has behind its parentheses is not the licence itself. */
  predicate IsHarmless(u: string, lic: CustomServer, verify: Verifier) {
    forall q :: q in Split(u, "(")[1..] ==> FromConfigString(Trim(q), verify) != Some(lic)
  }

  lemma {:induction false} OnlySpaces(spaces: string)
    requires forall c :: c in spaces ==> IsSpace(c)
    ensures Trim(spaces) == ""
  {
    if spaces != "" { OnlySpaces(spaces[1..]); }
  }

  lemma PieceTrimmed(p: string, spaces: string)
    requires (forall k :: 0 <= k < |p| ==> IsDigit(p[k])) && (forall c :: c in spaces ==> IsSpace(c))
    ensures Trim(p + spaces) == p
  {
    if p == "" {
      assert p + spaces == spaces;
      OnlySpaces(spaces);
    } else {
      TrimAfter(p, spaces);
    }
  }

  lemma {:induction false} NoLicenceAmong(texts: seq<string>, lic: CustomServer, verify: Verifier)
    requires forall q :: q in texts ==> FromConfigString(Trim(q), verify) != Some(lic)
    ensures FirstLicence(texts, verify) != Some(lic)
    decreases |texts|
  {
    if texts != [] {
      assert texts[0] in texts;
      NoLicenceAmong(texts[1..], lic, verify);
    }
  }

  lemma SplitAtOpening(front: string, z: string)
    requires '(' !in front
    ensures Split(front + "(" + z, "(") == [front] + Split(z, "(")
  {
    assert "("[0] == '(';
    forall i | 0 <= i < |front| ensures !("(" <= (front + ("(" + z))[i..]) {
      assert (front + ("(" + z))[i..][0] == front[i] && front[i] in front;
    }
    SplitAt(front, z, "(");
  }

  lemma RenamedPieceNotRead(p: string, spaces: string, z: string, lic: CustomServer, verify: Verifier)
    requires (forall k :: 0 <= k < |p| ==> IsDigit(p[k])) && (forall c :: c in spaces ==> IsSpace(c))
    requires FromConfigString(p, verify) != Some(lic) && IsHarmless(spaces + "(" + z, lic, verify)
    ensures FromPieces([p + spaces + "(" + z], verify) != Some(lic)
  {
    var s := p + spaces + "(" + z;
    assert s[|p + spaces|] == '(' && '(' !in spaces && '(' !in p + spaces;
    TrimKeeps(s, |p + spaces|);
    NotADigit(Trim(s), verify);
    SplitAtOpening(p + spaces, z);
    SplitAtOpening(spaces, z);
    PieceTrimmed(p, spaces);
    NoLicenceAmong(Split(s, "("), lic, verify);
    assert [s][1..] == [];
  }

  lemma LastPieceNotRead(p: string, u: string, lic: CustomServer, verify: Verifier)
    requires (forall k :: 0 <= k < |p| ==> IsDigit(p[k])) && IsRenameSuffix(u)
    requires FromConfigString(p, verify) != Some(lic) && IsHarmless(u, lic, verify)
    ensures FromPieces([p + u], verify) != Some(lic)
  {
    hide FromConfigString, FromPieces, IsHarmless, Trim;
    var k :| 0 <= k <= |u| && IsSpacedUpTo(u, k);
    if k == |u| {
      PieceTrimmed(p, u);
      assert '(' !in p && '(' !in u && '(' !in p + u;
      PlainPieceNotRead(p + u, lic, verify);
    } else {
      OpensAt(p, u, k);
      assert u == u[..k] + "(" + u[k + 1..];
      RenamedPieceNotRead(p, u[..k], u[k + 1..], lic, verify);
    }
  }

  /** An unsafe name is not one of its own pieces. */
  lemma UnsafeIsCut(name: string, p: string)
    requires !IsSafe(name) && p in Split(Unlicensed(name), "--")
    ensures p != name
  {
    SplitPiecesFreeOf(Unlicensed(name), "--");
    if !Contains(name, "--") {
      UnlicensedShortens(name);
      PiecesNoLonger(Unlicensed(name), "--");
    }
  }

  lemma PieceNotRead(lic: CustomServer, p: string, verify: Verifier)
    requires !IsSafe(GenName(lic)) && IsSigning(verify) && p in Split(Unlicensed(GenName(lic)), "--")
    ensures FromConfigString(p, verify) != Some(lic) && FromPieces([p], verify) != Some(lic)
    ensures forall k :: 0 <= k < |p| ==> IsDigit(p[k])
  {
    hide GenName, Unlicensed, IsSafe, FromConfigString, FromPieces, IsCutOut;
    var name := GenName(lic);
    PrintedLooks(lic);
    PiecesOfName(name, p);
    UnsafeIsCut(name, p);
    DigitsKept(name, p);
    PartNotRead(lic, p, verify);
    PlainPieceNotRead(p, lic, verify);
  }

  lemma UnsafeNotRead(lic: CustomServer, u: string, verify: Verifier)
    requires !IsSafe(GenName(lic)) && IsSigning(verify) && IsRenameSuffix(u) && IsHarmless(u, lic, verify)
    ensures FromPieces(Split(Unlicensed(GenName(lic) + u), "--"), verify) != Some(lic)
  {
    hide GenName, Unlicensed, IsSafe, FromConfigString, FromPieces, IsHarmless;
    var name := GenName(lic);
    SuffixStarts(u);
    UnlicensedSuffix(name, u);
    SplitSuffix(Unlicensed(name), u);
    var pieces := Split(Unlicensed(name), "--");
    var n := |pieces| - 1;
    forall p | p in WithLast(pieces, u) ensures FromPieces([p], verify) != Some(lic) {
      if p in pieces[..n] {
        PieceNotRead(lic, p, verify);
      } else {
        PieceNotRead(lic, pieces[n], verify);
        LastPieceNotRead(pieces[n], u, lic, verify);
      }
    }
    NoneRead(WithLast(pieces, u), lic, verify);
  }

  lemma SuffixStarts(u: string)
    requires IsRenameSuffix(u)
    ensures u == "" || u[0] !in LICENSED
  {
    assert forall c :: c in LICENSED ==> !IsSpace(c) && c != '(';
  }

  /** For every licence, whatever its text: behind any stem and separator, before
      any rename suffix that does not hold the licence itself and with any
      extension it is read back exactly when its name is safe. */
  lemma RoundTripExact(lic: CustomServer, stem: string, sep: string, u: string, ext: string, verify: Verifier, lower: Lowering)
    requires IsLowering(lower) && IsSigning(verify) && IsStem(stem, verify, lower) && IsSeparator(sep) && IsExtension(ext, lower)
    requires IsTail(u, "", lower) && IsHarmless(u, lic, verify)
    ensures FromFileName(stem + (sep + (GenName(lic) + u)) + ext, verify, lower) == Some(lic) <==> IsSafe(GenName(lic))
  {
    hide GenName, Unlicensed, IsSafe, FromConfigString, Print, IsHarmless, StripExe;
    var name := GenName(lic);
    assert u + "" == u;
    if IsSafe(name) {
      SafeNameRoundTrip(lic, stem, sep, u, "", ext, verify, lower);
    } else {
      PrintedLooks(lic);
      BodyOfFile(stem, sep, name, u, "", ext, lower);
      FirstPiece(stem, Unlicensed(name + u));
      UnsafeNotRead(lic, u, verify);
      StemFirst(stem, Split(Unlicensed(name + u), "--"), verify);
    }
  }

  lemma StemFirst(stem: string, pieces: seq<string>, verify: Verifier)
    requires FromPieces([stem], verify) == None
    ensures FromPieces([stem] + pieces, verify) == FromPieces(pieces, verify)
  {
    assert ([stem] + pieces)[1..] == pieces;
  }
}
