/** What the reader of printed licences can make of bytes that were not printed
    as a whole: how long they must be, that they are UTF-8, and that nothing
    may follow them. */
module LicenceReader {
  import opened Basics
  import opened LicenceJson
  import Utf8

  // ----- nothing but white space may follow a licence

  lemma {:induction false} SpaceThenMore(b: seq<byte>, z: seq<byte>)
    ensures SkipSpace(b + z) == if SkipSpace(b) == [] then SkipSpace(z) else SkipSpace(b) + z
  {
    if b == [] {
      assert b + z == z;
    } else {
      assert (b + z)[1..] == b[1..] + z;
      SpaceThenMore(b[1..], z);
    }
  }

  lemma Hex4ThenMore(b: seq<byte>, z: seq<byte>)
    requires Hex4(b) >= 0
    ensures Hex4(b + z) == Hex4(b)
  {
  }

  lemma UnescapeThenMore(b: seq<byte>, z: seq<byte>)
    requires b != [] && b[0] == BACKSLASH && Unescape(b).Some?
    ensures var (text, rest) := Unescape(b).value; Unescape(b + z) == Some((text, rest + z))
  {
    var c := b + z;
    assert c[2..] == b[2..] + z;
    if b[1] == 117 {
      Hex4ThenMore(b[2..], z);
      assert |b| >= 6 && c[6..] == b[6..] + z;
      if |b| >= 8 { assert c[8..] == b[8..] + z; }
      if |b| >= 8 && Hex4(b[8..]) >= 0 {
        Hex4ThenMore(b[8..], z);
        assert |b| >= 12 && c[12..] == b[12..] + z;
      }
    }
  }

  lemma {:induction false} StringThenMore(b: seq<byte>, z: seq<byte>)
    requires ReadString(b).Some?
    ensures var (text, rest) := ReadString(b).value; ReadString(b + z) == Some((text, rest + z))
    decreases |b|
  {
    assert (b + z)[1..] == b[1..] + z;
    if b[0] == BACKSLASH {
      UnescapeThenMore(b, z);
      StringThenMore(Unescape(b).value.1, z);
    } else if b[0] != QUOTE {
      StringThenMore(b[1..], z);
    }
  }

  lemma TextThenMore(b: seq<byte>, z: seq<byte>)
    requires ReadText(b).Some?
    ensures var (text, rest) := ReadText(b).value; ReadText(b + z) == Some((text, rest + z))
  {
    assert (b + z)[1..] == b[1..] + z;
    StringThenMore(b[1..], z);
  }

  lemma MemberThenMore(b: seq<byte>, z: seq<byte>)
    requires ReadMember(b).Some? && ReadMember(b).value.1 != []
    ensures var (member, rest) := ReadMember(b).value; ReadMember(b + z) == Some((member, rest + z))
  {
    hide ReadText, SkipSpace;
    var (name, rest) := ReadText(b).value;
    TextThenMore(b, z);
    SpaceThenMore(rest, z);
    var colon := SkipSpace(rest);
    assert (colon + z)[1..] == colon[1..] + z;
    SpaceThenMore(colon[1..], z);
    var start := SkipSpace(colon[1..]);
    EmptyText();
    TextThenMore(start, z);
    SpaceThenMore(ReadText(start).value.1, z);
  }

  lemma EmptyText()
    ensures ReadText([]) == None
  {
  }

  lemma {:induction false} MembersThenMore(b: seq<byte>, slots: Slots, z: seq<byte>)
    requires ReadMembers(b, slots).Some?
    ensures var (slots', rest) := ReadMembers(b, slots).value; ReadMembers(b + z, slots) == Some((slots', rest + z))
    decreases |b|
  {
    hide ReadMember, SkipSpace, Store;
    var ((name, value), rest) := ReadMember(b).value;
    MemberThenMore(b, z);
    assert (rest + z)[1..] == rest[1..] + z;
    if rest[0] == 44 {
      SpaceThenMore(rest[1..], z);
      EmptyMembers(Store(slots, name, value).value);
      MembersThenMore(SkipSpace(rest[1..]), Store(slots, name, value).value, z);
    }
  }

  lemma EmptyMembers(slots: Slots)
    ensures ReadMembers([], slots) == None
  {
  }

  lemma NothingFollows(b: seq<byte>, z: seq<byte>)
    requires Parse(b).Some? && SkipSpace(z) != []
    ensures Parse(b + z) == None
  {
    hide ReadMembers, SkipSpace;
    var blank := Slots(None, None, None, None);
    SpaceThenMore(b, z);
    var start := SkipSpace(b);
    assert (start + z)[1..] == start[1..] + z;
    SpaceThenMore(start[1..], z);
    var inside := SkipSpace(start[1..]);
    EmptyMembers(blank);
    if inside != [] && inside[0] == 125 {
      assert (inside + z)[1..] == inside[1..] + z;
      SpaceThenMore(inside[1..], z);
    } else {
      MembersThenMore(inside, blank, z);
      SpaceThenMore(ReadMembers(inside, blank).value.1, z);
    }
  }

  predicate IsBlank(z: seq<byte>) {
    forall i :: 0 <= i < |z| ==> z[i] in {32, 9, 10, 13}
  }

  lemma {:induction false} BlankIsSkipped(z: seq<byte>, b: seq<byte>)
    requires IsBlank(z)
    ensures SkipSpace(z + b) == SkipSpace(b) && SkipSpace(z) == []
  {
    if z == [] {
      assert z + b == b;
    } else {
      assert (z + b)[1..] == z[1..] + b;
      BlankIsSkipped(z[1..], b);
    }
  }

  /** White space around a licence does not matter. */
  lemma BlankAround(before: seq<byte>, b: seq<byte>, after: seq<byte>)
    requires IsBlank(before) && IsBlank(after) && Parse(b).Some?
    ensures Parse(before + b + after) == Parse(b)
  {
    hide ReadMembers, SkipSpace;
    BlankIsSkipped(before, b + after);
    assert before + b + after == before + (b + after);
    var blank := Slots(None, None, None, None);
    EmptyMembers(blank);
    NothingSkipped();
    SpaceThenMore(b, after);
    var start := SkipSpace(b);
    assert (start + after)[1..] == start[1..] + after;
    SpaceThenMore(start[1..], after);
    var inside := SkipSpace(start[1..]);
    var tail := if inside != [] && inside[0] == 125 then inside[1..] else ReadMembers(inside, blank).value.1;
    if inside != [] && inside[0] == 125 {
      assert (inside + after)[1..] == inside[1..] + after;
    } else {
      MembersThenMore(inside, blank, after);
    }
    SpaceThenMore(tail, after);
    BlankIsSkipped(after, []);
    assert after + [] == after;
  }

  lemma NothingSkipped()
    ensures SkipSpace([]) == []
  {
  }

  // ----- a licence is at least as long as its values escaped

  lemma {:induction false} EscapeConcat(a: seq<byte>, b: seq<byte>)
    ensures EscapeAll(a + b) == EscapeAll(a) + EscapeAll(b)
  {
    if a == [] {
      assert a + b == b;
    } else {
      assert (a + b)[1..] == a[1..] + b;
      EscapeConcat(a[1..], b);
    }
  }

  lemma EscapedChar(c: char)
    ensures |EscapeAll(Utf8.EncodeChar(c))| <= 6
  {
    var b := Utf8.EncodeChar(c);
    if |b| == 1 {
      assert EscapeAll(b) == Escape(b[0]) + [];
    } else {
      RawBytes(b);
    }
  }

  lemma {:induction false} RawBytes(b: seq<byte>)
    requires forall i :: 0 <= i < |b| ==> b[i] >= 128
    ensures |EscapeAll(b)| == |b|
  {
    if b != [] { RawBytes(b[1..]); }
  }

  lemma UnescapedIsNoLonger(b: seq<byte>)
    requires b != [] && b[0] == BACKSLASH && Unescape(b).Some?
    ensures var (text, rest) := Unescape(b).value; |EscapeAll(text)| + |rest| <= |b|
  {
    var (text, rest) := Unescape(b).value;
    if b[1] == 117 {
      if |rest| == |b| - 6 {
        EscapedChar(Hex4(b[2..]) as char);
      } else {
        EscapedChar((0x10000 + (Hex4(b[2..]) - 0xD800) * 0x400 + (Hex4(b[8..]) - 0xDC00)) as char);
      }
    } else {
      assert EscapeAll(text) == Escape(text[0]) + [];
    }
  }

  lemma {:induction false} StringIsNoLonger(b: seq<byte>)
    requires ReadString(b).Some?
    ensures var (text, rest) := ReadString(b).value; |EscapeAll(text)| + 1 + |rest| <= |b|
    decreases |b|
  {
    if b[0] == BACKSLASH {
      var (text, rest) := Unescape(b).value;
      UnescapedIsNoLonger(b);
      StringIsNoLonger(rest);
      EscapeConcat(text, ReadString(rest).value.0);
    } else if b[0] != QUOTE {
      StringIsNoLonger(b[1..]);
      EscapeConcat([b[0]], ReadString(b[1..]).value.0);
      assert EscapeAll([b[0]]) == Escape(b[0]) + [];
    }
  }

  function Length(text: string): nat { |EscapeAll(Utf8.Encode(text))| }

  lemma TextIsNoLonger(b: seq<byte>)
    requires ReadText(b).Some?
    ensures var (text, rest) := ReadText(b).value; Length(text) + 2 + |rest| <= |b|
  {
    StringIsNoLonger(b[1..]);
    var bytes := ReadString(b[1..]).value.0;
    Utf8.DecodesExactlyEncodings(bytes, ReadText(b).value.0);
  }

  lemma MemberIsNoLonger(b: seq<byte>)
    requires ReadMember(b).Some?
    ensures var ((name, value), rest) := ReadMember(b).value; Length(name) + Length(value) + 5 + |rest| <= |b|
  {
    hide ReadText, Length;
    var (name, rest) := ReadText(b).value;
    TextIsNoLonger(b);
    var colon := SkipSpace(rest);
    TextIsNoLonger(SkipSpace(colon[1..]));
  }

  function Held(slots: Slots): (r: seq<Option<string>>)
    ensures |r| == 4
  {
    [slots.key, slots.host, slots.api, slots.relay]
  }

  lemma NameLength(name: string)
    requires name in {"key", "host", "api", "relay"}
    ensures Length(name) >= 3
  {
    Utf8.AsciiBytes(name);
    NeverShorter(Utf8.Encode(name));
  }

  lemma {:induction false} NeverShorter(b: seq<byte>)
    ensures |EscapeAll(b)| >= |b|
  {
    if b != [] { NeverShorter(b[1..]); }
  }

  /** A member changes one slot, if any, to its value. */
  lemma StoredIsHeld(slots: Slots, name: string, value: string, k: nat)
    requires k < 4 && Store(slots, name, value).Some?
    ensures var held := Held(Store(slots, name, value).value)[k];
            held == Held(slots)[k] || (held == Some(value) && name in {"key", "host", "api", "relay"})
  {
  }

  lemma {:induction false} MembersHold(b: seq<byte>, slots: Slots, k: nat)
    requires k < 4 && ReadMembers(b, slots).Some?
    ensures var (slots', rest) := ReadMembers(b, slots).value;
            Held(slots')[k] == Held(slots)[k] || (Held(slots')[k].Some? && Length(Held(slots')[k].value) + 9 <= |b|)
    decreases |b|
  {
    hide ReadMember, Length, Store;
    var ((name, value), rest) := ReadMember(b).value;
    var next := Store(slots, name, value).value;
    MemberIsNoLonger(b);
    StoredIsHeld(slots, name, value, k);
    if Held(next)[k] != Held(slots)[k] { NameLength(name); }
    if rest[0] == 44 { MembersHold(SkipSpace(rest[1..]), next, k); }
  }

  function ValueAt(lic: CustomServer, k: nat): string
    requires k < 4
  {
    Members(lic)[k].1
  }

  /** Around each value there are at least ten more bytes. */
  lemma LicenceIsLonger(b: seq<byte>, k: nat)
    requires k < 4 && Parse(b).Some? && ValueAt(Parse(b).value, k) != ""
    ensures Length(ValueAt(Parse(b).value, k)) + 10 <= |b|
  {
    hide ReadMembers, Length;
    var inside := SkipSpace(SkipSpace(b)[1..]);
    var blank := Slots(None, None, None, None);
    if !(inside != [] && inside[0] == 125) {
      MembersHold(inside, blank, k);
      assert Held(blank)[k] == None;
    }
  }

  function TotalLength(lic: CustomServer): nat {
    Length(lic.key) + Length(lic.host) + Length(lic.api) + Length(lic.relay)
  }

  lemma StoreAdds(slots: Slots, name: string, value: string)
    requires Store(slots, name, value).Some?
    ensures TotalLength(Fill(Store(slots, name, value).value)) <= TotalLength(Fill(slots)) + Length(value)
  {
    hide Length;
  }

  lemma {:induction false} MembersAddUp(b: seq<byte>, slots: Slots)
    requires ReadMembers(b, slots).Some?
    ensures TotalLength(Fill(ReadMembers(b, slots).value.0)) <= TotalLength(Fill(slots)) + |b|
    decreases |b|
  {
    hide ReadMember, Length, Store, TotalLength, Fill;
    var ((name, value), rest) := ReadMember(b).value;
    var next := Store(slots, name, value).value;
    MemberIsNoLonger(b);
    StoreAdds(slots, name, value);
    if rest[0] == 44 { MembersAddUp(SkipSpace(rest[1..]), next); }
  }

  /** All the values together fit into what parses. */
  lemma ValuesFit(b: seq<byte>)
    requires Parse(b).Some?
    ensures TotalLength(Parse(b).value) <= |b|
  {
    hide ReadMembers, Length;
    var inside := SkipSpace(SkipSpace(b)[1..]);
    var blank := Slots(None, None, None, None);
    EmptyLength();
    if !(inside != [] && inside[0] == 125) { MembersAddUp(inside, blank); }
  }

  lemma EmptyLength()
    ensures Length("") == 0
  {
    assert Utf8.Encode("") == [];
  }

  lemma MemberLength(name: string, value: string)
    requires IsLetters(name)
    ensures |PrintMember(name, value)| == |name| + Length(value) + 5
  {
    LettersPrinted(name);
  }

  /** A licence prints to forty bytes and its values. */
  lemma PrintLength(lic: CustomServer)
    ensures |Print(lic)| == 40 + TotalLength(lic)
  {
    hide PrintMember, Length;
    FourMembers(Members(lic));
    MemberLength("key", lic.key);
    MemberLength("host", lic.host);
    MemberLength("api", lic.api);
    MemberLength("relay", lic.relay);
  }

  // ----- a licence is UTF-8

  predicate IsUtf8(b: seq<byte>) {
    Utf8.Decode(b).Some?
  }

  lemma AsciiFirst(b: seq<byte>)
    requires b != [] && b[0] < 128
    ensures IsUtf8(b) <==> IsUtf8(b[1..])
  {
  }

  lemma {:induction false} AsciiFront(b: seq<byte>, n: nat)
    requires n <= |b| && (forall i :: 0 <= i < n ==> b[i] < 128) && IsUtf8(b[n..])
    ensures IsUtf8(b)
  {
    if n == 0 {
      assert b[0..] == b;
    } else {
      assert b[1..][n - 1..] == b[n..];
      AsciiFront(b[1..], n - 1);
      AsciiFirst(b);
    }
  }

  lemma CharThenRest(c: char, rest: seq<byte>)
    requires IsUtf8(Utf8.EncodeChar(c) + rest)
    ensures IsUtf8(rest)
  {
    Utf8.SpelledChar(c, rest);
    assert (Utf8.EncodeChar(c) + rest)[|Utf8.EncodeChar(c)|..] == rest;
  }

  predicate IsTailByte(b: byte) {
    0x80 <= b < 0xC0
  }

  /** An escape is ASCII and stands for a whole character. */
  lemma EscapeIsChar(b: seq<byte>) returns (c: char)
    requires b != [] && b[0] == BACKSLASH && Unescape(b).Some?
    ensures var (text, rest) := Unescape(b).value;
            && text == Utf8.EncodeChar(c) && !IsTailByte(text[0]) && |rest| < |b| && rest == b[|b| - |rest|..]
            && forall i :: 0 <= i < |b| - |rest| ==> b[i] < 128
  {
    var (text, rest) := Unescape(b).value;
    if b[1] != 117 {
      c := text[0] as char;
    } else if |rest| == |b| - 6 {
      c := Hex4(b[2..]) as char;
    } else {
      c := (0x10000 + (Hex4(b[2..]) - 0xD800) * 0x400 + (Hex4(b[8..]) - 0xDC00)) as char;
    }
  }

  /** Tail bytes are never written as escapes. */
  lemma TailIsRaw(b: seq<byte>)
    requires ReadString(b).Some? && ReadString(b).value.0 != [] && IsTailByte(ReadString(b).value.0[0])
    ensures var (text, rest) := ReadString(b).value;
            b != [] && b[0] == text[0] && ReadString(b[1..]) == Some((text[1..], rest))
  {
    if b[0] == BACKSLASH {
      var c := EscapeIsChar(b);
    }
  }

  lemma {:induction false} TailsAreRaw(b: seq<byte>, n: nat)
    requires ReadString(b).Some? && n <= |ReadString(b).value.0|
    requires forall i :: 0 <= i < n ==> IsTailByte(ReadString(b).value.0[i])
    ensures var (text, rest) := ReadString(b).value;
            n <= |b| && b[..n] == text[..n] && ReadString(b[n..]) == Some((text[n..], rest))
  {
    hide ReadString;
    var (text, rest) := ReadString(b).value;
    if n == 0 {
      assert b[0..] == b && text[0..] == text;
    } else {
      TailIsRaw(b);
      TailsAreRaw(b[1..], n - 1);
      assert b[1..][n - 1..] == b[n..] && text[1..][n - 1..] == text[n..];
      assert b[..n] == [b[0]] + b[1..][..n - 1] && text[..n] == [text[0]] + text[1..][..n - 1];
    }
  }

  lemma SameChar(b: seq<byte>, text: seq<byte>, n: nat)
    requires text != [] && Utf8.Spelled(text).1 == n <= |b| && b[..n] == text[..n] && IsUtf8(text)
    ensures IsUtf8(b[n..]) ==> IsUtf8(b)
  {
    assert forall i :: 0 <= i < n ==> b[i] == b[..n][i] == text[i];
    assert Utf8.Spelled(b) == Utf8.Spelled(text);
  }

  lemma RawChar(b: seq<byte>) returns (n: nat)
    requires ReadString(b).Some? && b[0] >= 128 && IsUtf8(ReadString(b).value.0)
    ensures var (text, rest) := ReadString(b).value;
            && 1 <= n <= |b| && n <= |text| && IsUtf8(text[n..]) && ReadString(b[n..]) == Some((text[n..], rest))
            && (IsUtf8(b[n..]) ==> IsUtf8(b))
  {
    hide IsUtf8, Utf8.Spelled;
    var (text, rest) := ReadString(b).value;
    var (more, _) := ReadString(b[1..]).value;
    assert text == [b[0]] + more && text[1..] == more;
    n := CharSpelled(text);
    TailsAreRaw(b[1..], n - 1);
    assert b[1..][n - 1..] == b[n..] && more[n - 1..] == text[n..];
    assert b[..n] == [b[0]] + b[1..][..n - 1] && text[..n] == [text[0]] + more[..n - 1];
    SameChar(b, text, n);
  }

  lemma CharSpelled(b: seq<byte>) returns (n: nat)
    requires IsUtf8(b) && b != []
    ensures n == Utf8.Spelled(b).1 <= |b| && IsUtf8(b[n..]) && forall i :: 1 <= i < n ==> IsTailByte(b[i])
  {
    n := Utf8.Spelled(b).1;
  }

  lemma {:induction false} StringIsUtf8(b: seq<byte>)
    requires ReadString(b).Some? && IsUtf8(ReadString(b).value.0) && IsUtf8(ReadString(b).value.1)
    ensures IsUtf8(b)
    decreases |b|
  {
    hide IsUtf8;
    if b[0] == QUOTE {
      AsciiFirst(b);
    } else if b[0] == BACKSLASH {
      var c := EscapeIsChar(b);
      var rest := Unescape(b).value.1;
      CharThenRest(c, ReadString(rest).value.0);
      StringIsUtf8(rest);
      AsciiFront(b, |b| - |rest|);
    } else if b[0] < 128 {
      var text := ReadString(b).value.0;
      AsciiFirst(text);
      assert text[1..] == ReadString(b[1..]).value.0;
      StringIsUtf8(b[1..]);
      AsciiFirst(b);
    } else {
      var n := RawChar(b);
      StringIsUtf8(b[n..]);
    }
  }

  lemma TextIsUtf8(b: seq<byte>)
    requires ReadText(b).Some? && IsUtf8(ReadText(b).value.1)
    ensures IsUtf8(b)
  {
    StringIsUtf8(b[1..]);
    AsciiFirst(b);
  }

  lemma {:induction false} SpaceIsUtf8(b: seq<byte>)
    requires IsUtf8(SkipSpace(b))
    ensures IsUtf8(b)
  {
    if SkipSpace(b) != b {
      SpaceIsUtf8(b[1..]);
      AsciiFirst(b);
    }
  }

  lemma MemberIsUtf8(b: seq<byte>)
    requires ReadMember(b).Some? && IsUtf8(ReadMember(b).value.1)
    ensures IsUtf8(b)
  {
    hide ReadText, IsUtf8;
    var (name, rest) := ReadText(b).value;
    var colon := SkipSpace(rest);
    var start := SkipSpace(colon[1..]);
    SpaceIsUtf8(ReadText(start).value.1);
    TextIsUtf8(start);
    SpaceIsUtf8(colon[1..]);
    AsciiFirst(colon);
    SpaceIsUtf8(rest);
    TextIsUtf8(b);
  }

  lemma {:induction false} MembersAreUtf8(b: seq<byte>, slots: Slots)
    requires ReadMembers(b, slots).Some? && IsUtf8(ReadMembers(b, slots).value.1)
    ensures IsUtf8(b)
    decreases |b|
  {
    hide ReadMember, IsUtf8, Store;
    var ((name, value), rest) := ReadMember(b).value;
    if rest[0] == 44 {
      MembersAreUtf8(SkipSpace(rest[1..]), Store(slots, name, value).value);
      SpaceIsUtf8(rest[1..]);
    }
    AsciiFirst(rest);
    MemberIsUtf8(b);
  }

  lemma LicenceIsUtf8(b: seq<byte>)
    requires Parse(b).Some?
    ensures IsUtf8(b)
  {
    hide ReadMembers;
    var start := SkipSpace(b);
    var inside := SkipSpace(start[1..]);
    var blank := Slots(None, None, None, None);
    assert IsUtf8([]);
    if inside != [] && inside[0] == 125 {
      SpaceIsUtf8(inside[1..]);
      AsciiFirst(inside);
    } else {
      SpaceIsUtf8(ReadMembers(inside, blank).value.1);
      MembersAreUtf8(inside, blank);
    }
    SpaceIsUtf8(start[1..]);
    AsciiFirst(start);
    SpaceIsUtf8(b);
  }

  lemma CharLength(b: seq<byte>) returns (n: nat)
    requires IsUtf8(b) && b != []
    ensures 1 <= n <= 4 && n <= |b| && IsUtf8(b[n..]) && forall i :: 1 <= i < n ==> IsTailByte(b[i])
  {
    n := Utf8.Spelled(b).1;
  }

  /** From any place in UTF-8 a character starts after at most three tail bytes. */
  lemma {:induction false} NextChar(b: seq<byte>, k: nat) returns (j: nat)
    requires IsUtf8(b) && k <= |b|
    ensures j <= 3 && k + j <= |b| && IsUtf8(b[k + j..]) && forall i :: k <= i < k + j ==> IsTailByte(b[i])
    decreases |b|
  {
    hide IsUtf8;
    if k == 0 {
      j := 0;
      assert b[0..] == b;
    } else {
      var n := CharLength(b);
      if k <= n {
        j := n - k;
      } else {
        j := NextChar(b[n..], k - n);
        assert b[n..][k - n + j..] == b[k + j..];
        assert forall i :: k <= i < k + j ==> b[i] == b[n..][i - n];
      }
    }
  }

  // ----- what a printed value holds is no licence but, at most, the empty one

  lemma {:induction false} SpaceInside(w: seq<byte>, tail: seq<byte>) returns (w': seq<byte>)
    ensures SkipSpace(EscapeAll(w) + ([QUOTE] + tail)) == EscapeAll(w') + ([QUOTE] + tail)
  {
    var b := EscapeAll(w) + ([QUOTE] + tail);
    if w != [] && w[0] == 32 {
      assert b[1..] == EscapeAll(w[1..]) + ([QUOTE] + tail);
      w' := SpaceInside(w[1..], tail);
    } else {
      w' := w;
      assert w == [] ==> b == [QUOTE] + tail;
      assert w != [] ==> b[0] == Escape(w[0])[0];
    }
  }

  lemma FirstInside(w: seq<byte>, tail: seq<byte>)
    ensures (EscapeAll(w) + ([QUOTE] + tail))[0] == if w == [] then QUOTE else Escape(w[0])[0]
  {
  }

  lemma BraceInside(w: seq<byte>, tail: seq<byte>)
    requires w != [] && w[0] == 123
    ensures (EscapeAll(w) + ([QUOTE] + tail))[1..] == EscapeAll(w[1..]) + ([QUOTE] + tail)
  {
    var e := EscapeAll(w[1..]);
    assert EscapeAll(w) == [w[0]] + e;
    assert [w[0]] + e + ([QUOTE] + tail) == [w[0]] + (e + ([QUOTE] + tail));
  }

  lemma CommaIsNoName(c: byte, rest: seq<byte>)
    requires 97 <= c < 123
    ensures ReadMember([QUOTE, 44, QUOTE, c] + rest) == None
  {
    var b := [QUOTE, 44, QUOTE, c] + rest;
    assert b[1..][1..][1..] == [c] + rest;
    assert ReadString(b[1..][1..]) == Some(([], [c] + rest));
    assert [44] + [] == [44];
    assert ReadString(b[1..]) == Some(([44], [c] + rest));
    Utf8.DecodesExactlyEncodings([44], ",");
    assert SkipSpace([c] + rest) == [c] + rest;
  }

  lemma EscapeStarts(b: byte)
    ensures Escape(b)[0] != QUOTE && (Escape(b)[0] == 123 <==> b == 123)
  {
  }

  /** Without a first member there is only the empty licence. */
  lemma NoFirstMember(b: seq<byte>, inside: seq<byte>)
    requires var start := SkipSpace(b); start != [] && (start[0] == 123 ==> SkipSpace(start[1..]) == inside)
    requires SkipSpace(b)[0] == 123 ==> ReadMember(inside) == None
    ensures Parse(b).Some? ==> Parse(b).value == CustomServer("", "", "", "")
  {
    hide ReadMember, SkipSpace;
  }

  lemma InsideIsNoLicence(w: seq<byte>, c: byte, rest: seq<byte>)
    requires 97 <= c < 123
    ensures var b := EscapeAll(w) + ([QUOTE] + ([44, QUOTE, c] + rest));
            Parse(b).Some? ==> Parse(b).value == CustomServer("", "", "", "")
  {
    hide ReadMember, SkipSpace, EscapeAll, Escape, Parse;
    var tail := [44, QUOTE, c] + rest;
    var b := EscapeAll(w) + ([QUOTE] + tail);
    var w1 := SpaceInside(w, tail);
    var start := EscapeAll(w1) + ([QUOTE] + tail);
    FirstInside(w1, tail);
    if start[0] == 123 {
      EscapeStarts(w1[0]);
      BraceInside(w1, tail);
      var w2 := SpaceInside(w1[1..], tail);
      NameInside(w2, c, rest);
      NoFirstMember(b, EscapeAll(w2) + ([QUOTE] + tail));
    } else {
      NoFirstMember(b, []);
    }
  }

  lemma NameInside(w: seq<byte>, c: byte, rest: seq<byte>)
    requires 97 <= c < 123
    ensures ReadMember(EscapeAll(w) + ([QUOTE] + ([44, QUOTE, c] + rest))) == None
  {
    hide ReadMember, Escape;
    var tail := [44, QUOTE, c] + rest;
    FirstInside(w, tail);
    if w == [] {
      assert EscapeAll(w) + ([QUOTE] + tail) == [QUOTE, 44, QUOTE, c] + rest;
      CommaIsNoName(c, rest);
    } else {
      EscapeStarts(w[0]);
      UnquotedIsNoName(EscapeAll(w) + ([QUOTE] + tail));
    }
  }

  lemma UnquotedIsNoName(b: seq<byte>)
    requires b != [] && b[0] != QUOTE
    ensures ReadMember(b) == None
  {
  }
}
