/** The JSON of a `CustomServer`: what serde_json prints for it and what it
    reads back, over bytes. String escapes follow section 7 of RFC 8259. */
module LicenceJson {
  import opened Basics
  import opened Base64Url
  import Utf8

  datatype CustomServer = CustomServer(key: string, host: string, api: string, relay: string)

  const QUOTE: byte := 34
  const BACKSLASH: byte := 92

  // ----- printing

  function HexDigit(n: nat): byte
    requires n < 16
  {
    if n < 10 then 48 + n else 87 + n
  }

  /** How serde_json writes one byte of a string. */
  function Escape(b: byte): (e: seq<byte>)
    ensures e != []
  {
    if b == QUOTE || b == BACKSLASH then [BACKSLASH, b]
    else if b == 8 then [BACKSLASH, 98]
    else if b == 9 then [BACKSLASH, 116]
    else if b == 10 then [BACKSLASH, 110]
    else if b == 12 then [BACKSLASH, 102]
    else if b == 13 then [BACKSLASH, 114]
    else if b < 32 then [BACKSLASH, 117, 48, 48, HexDigit(b / 16), HexDigit(b % 16)]
    else [b]
  }

  function EscapeAll(b: seq<byte>): seq<byte> {
    if b == [] then [] else Escape(b[0]) + EscapeAll(b[1..])
  }

  function PrintText(s: string): seq<byte> {
    [QUOTE] + EscapeAll(Utf8.Encode(s)) + [QUOTE]
  }

  function PrintMember(name: string, value: string): seq<byte> {
    PrintText(name) + [58] + PrintText(value)
  }

  function PrintMembers(members: seq<(string, string)>): seq<byte>
    requires members != []
  {
    PrintMember(members[0].0, members[0].1) + if |members| == 1 then [] else [44] + PrintMembers(members[1..])
  }

  /** The members in declaration order. */
  function Members(lic: CustomServer): (members: seq<(string, string)>)
    ensures |members| == 4
  {
    [("key", lic.key), ("host", lic.host), ("api", lic.api), ("relay", lic.relay)]
  }

  /** `serde_json::to_vec`: no white space. */
  function Print(lic: CustomServer): seq<byte> {
    [123] + PrintMembers(Members(lic)) + [125]
  }

  // ----- reading

  function SkipSpace(b: seq<byte>): (r: seq<byte>)
    ensures |r| <= |b|
  {
    if b != [] && (b[0] == 32 || b[0] == 9 || b[0] == 10 || b[0] == 13) then SkipSpace(b[1..]) else b
  }

  function HexValue(b: byte): int {
    if 48 <= b < 58 then b as int - 48
    else if 65 <= b < 71 then b as int - 55
    else if 97 <= b < 103 then b as int - 87
    else -1
  }

  /** Four hexadecimal digits, or -1. */
  function Hex4(b: seq<byte>): (n: int)
    ensures n < 0x10000
  {
    if |b| < 4 || HexValue(b[0]) < 0 || HexValue(b[1]) < 0 || HexValue(b[2]) < 0 || HexValue(b[3]) < 0 then -1
    else ((HexValue(b[0]) * 16 + HexValue(b[1])) * 16 + HexValue(b[2])) * 16 + HexValue(b[3])
  }

  /** The text of the escape that starts `b`, and the bytes after it. */
  function Unescape(b: seq<byte>): (r: Option<(seq<byte>, seq<byte>)>)
    requires b != [] && b[0] == BACKSLASH
    ensures r.Some? ==> |r.value.1| < |b|
  {
    if |b| < 2 then None
    else if b[1] == QUOTE || b[1] == BACKSLASH || b[1] == 47 then Some(([b[1]], b[2..]))
    else if b[1] == 98 then Some(([8], b[2..]))
    else if b[1] == 102 then Some(([12], b[2..]))
    else if b[1] == 110 then Some(([10], b[2..]))
    else if b[1] == 114 then Some(([13], b[2..]))
    else if b[1] == 116 then Some(([9], b[2..]))
    else if b[1] == 117 && Hex4(b[2..]) >= 0 then
      var n := Hex4(b[2..]);
      if 0xD800 <= n < 0xDC00 then
        if |b| >= 8 && b[6] == BACKSLASH && b[7] == 117 && 0xDC00 <= Hex4(b[8..]) < 0xE000 then
          Some((Utf8.EncodeChar((0x10000 + (n - 0xD800) * 0x400 + (Hex4(b[8..]) - 0xDC00)) as char), b[12..]))
        else None
      else if 0xDC00 <= n < 0xE000 then None
      else Some((Utf8.EncodeChar(n as char), b[6..]))
    else None
  }

  /** The bytes of a string up to its closing quote, and the bytes after it. */
  function ReadString(b: seq<byte>): (r: Option<(seq<byte>, seq<byte>)>)
    ensures r.Some? ==> |r.value.1| < |b|
  {
    if b == [] || b[0] < 32 then None
    else if b[0] == QUOTE then Some(([], b[1..]))
    else
      var head := if b[0] == BACKSLASH then Unescape(b) else Some(([b[0]], b[1..]));
      match head
      case None => None
      case Some((text, rest)) =>
        match ReadString(rest)
        case None => None
        case Some((more, rest')) => Some((text + more, rest'))
  }

  /** A quoted string as text. */
  function ReadText(b: seq<byte>): (r: Option<(string, seq<byte>)>)
    ensures r.Some? ==> |r.value.1| < |b|
  {
    if b == [] || b[0] != QUOTE then None
    else
      match ReadString(b[1..])
      case None => None
      case Some((bytes, rest)) =>
        match Utf8.Decode(bytes)
        case None => None
        case Some(s) => Some((s, rest))
  }

  /** The members seen so far; a repeated one is an error. */
  datatype Slots = Slots(key: Option<string>, host: Option<string>, api: Option<string>, relay: Option<string>)

  function Store(slots: Slots, name: string, value: string): Option<Slots> {
    if name == "key" then if slots.key.Some? then None else Some(slots.(key := Some(value)))
    else if name == "host" then if slots.host.Some? then None else Some(slots.(host := Some(value)))
    else if name == "api" then if slots.api.Some? then None else Some(slots.(api := Some(value)))
    else if name == "relay" then if slots.relay.Some? then None else Some(slots.(relay := Some(value)))
    else Some(slots)
  }

  function OrEmpty(o: Option<string>): string {
    if o.Some? then o.value else ""
  }

  function Fill(slots: Slots): CustomServer {
    CustomServer(OrEmpty(slots.key), OrEmpty(slots.host), OrEmpty(slots.api), OrEmpty(slots.relay))
  }

  /** One member `"name": "value"`, and the bytes after the space behind it. */
  function ReadMember(b: seq<byte>): (r: Option<((string, string), seq<byte>)>)
    ensures r.Some? ==> |r.value.1| < |b|
  {
    match ReadText(b)
    case None => None
    case Some((name, rest)) =>
      var colon := SkipSpace(rest);
      if colon == [] || colon[0] != 58 then None
      else
        match ReadText(SkipSpace(colon[1..]))
        case None => None
        case Some((value, rest')) => Some(((name, value), SkipSpace(rest')))
  }

  /** The members up to the closing brace, and the bytes after it. */
  function ReadMembers(b: seq<byte>, slots: Slots): (r: Option<(Slots, seq<byte>)>)
    decreases |b|
  {
    match ReadMember(b)
    case None => None
    case Some(((name, value), rest)) =>
      match Store(slots, name, value)
      case None => None
      case Some(slots') =>
        if rest == [] then None
        else if rest[0] == 125 then Some((slots', rest[1..]))
        else if rest[0] == 44 then ReadMembers(SkipSpace(rest[1..]), slots')
        else None
  }

  /** `serde_json::from_slice::<CustomServer>`: absent members are empty. */
  function Parse(b: seq<byte>): Option<CustomServer> {
    var start := SkipSpace(b);
    if start == [] || start[0] != 123 then None
    else
      var inside := SkipSpace(start[1..]);
      var blank := Slots(None, None, None, None);
      var read: Option<(Slots, seq<byte>)> :=
        if inside != [] && inside[0] == 125 then Some((blank, inside[1..])) else ReadMembers(inside, blank);
      match read
      case None => None
      case Some((slots, rest)) => if SkipSpace(rest) == [] then Some(Fill(slots)) else None
  }

  // ----- the round trip

  lemma UnescapeEscape(b: byte, rest: seq<byte>)
    requires Escape(b) != [b]
    ensures Escape(b)[0] == BACKSLASH && Unescape(Escape(b) + rest) == Some(([b], rest))
  {
    var e := Escape(b);
    if b < 32 && |e| == 6 {
      assert (e + rest)[2..] == [48, 48, HexDigit(b / 16), HexDigit(b % 16)] + rest;
      assert HexValue(HexDigit(b / 16)) == b / 16 && HexValue(HexDigit(b % 16)) == b % 16;
      assert (e + rest)[6..] == rest;
    } else {
      assert (e + rest)[2..] == rest;
    }
  }

  // ----- escapes that are read but never printed

  function HexOf(n: nat, upper: bool): byte
    requires n < 16
  {
    if n < 10 then 48 + n else if upper then 55 + n else 87 + n
  }

  /** Four hexadecimal digits, in either letter case. */
  function FourHex(n: nat, upper: bool): seq<byte>
    requires n < 0x10000
  {
    [HexOf(n / 0x1000, upper), HexOf(n / 0x100 % 16, upper), HexOf(n / 16 % 16, upper), HexOf(n % 16, upper)]
  }

  lemma HexRead(n: nat, upper: bool)
    requires n < 16
    ensures HexValue(HexOf(n, upper)) == n
  {
  }

  lemma FourDigits(n: nat)
    requires n < 0x10000
    ensures ((n / 0x1000 * 16 + n / 0x100 % 16) * 16 + n / 16 % 16) * 16 + n % 16 == n
  {
    assert n / 16 * 16 + n % 16 == n;
    assert n / 16 / 16 * 16 + n / 16 % 16 == n / 16 && n / 16 / 16 == n / 0x100;
    assert n / 0x100 / 16 * 16 + n / 0x100 % 16 == n / 0x100 && n / 0x100 / 16 == n / 0x1000;
  }

  lemma FourHexRead(n: nat, upper: bool, rest: seq<byte>)
    requires n < 0x10000
    ensures Hex4(FourHex(n, upper) + rest) == n
  {
    hide HexOf, HexValue;
    HexRead(n / 0x1000, upper);
    HexRead(n / 0x100 % 16, upper);
    HexRead(n / 16 % 16, upper);
    HexRead(n % 16, upper);
    FourDigits(n);
  }

  /** Any character may be written with its number, beyond U+FFFF as a pair. */
  lemma NumberedEscapes(c: char, upper: bool, rest: seq<byte>)
    ensures var n := c as int;
            n < 0x10000 ==> Unescape([BACKSLASH, 117] + FourHex(n, upper) + rest) == Some((Utf8.EncodeChar(c), rest))
    ensures var n := c as int;
            n >= 0x10000 ==>
              var m := n - 0x10000;
              Unescape([BACKSLASH, 117] + FourHex(0xD800 + m / 0x400, upper) + [BACKSLASH, 117] + FourHex(0xDC00 + m % 0x400, upper) + rest)
              == Some((Utf8.EncodeChar(c), rest))
  {
    var n := c as int;
    if n < 0x10000 { OneNumber(c, upper, rest); } else { TwoNumbers(c, upper, rest); }
  }

  lemma OneNumber(c: char, upper: bool, rest: seq<byte>)
    requires c as int < 0x10000
    ensures Unescape([BACKSLASH, 117] + FourHex(c as int, upper) + rest) == Some((Utf8.EncodeChar(c), rest))
  {
    hide Hex4;
    var h := FourHex(c as int, upper);
    var b := [BACKSLASH, 117] + h + rest;
    FourHexRead(c as int, upper, rest);
    assert b[2..] == h + rest && b[6..] == rest;
  }

  lemma TwoNumbers(c: char, upper: bool, rest: seq<byte>)
    requires c as int >= 0x10000
    ensures var m := c as int - 0x10000;
            Unescape([BACKSLASH, 117] + FourHex(0xD800 + m / 0x400, upper) + [BACKSLASH, 117] + FourHex(0xDC00 + m % 0x400, upper) + rest)
            == Some((Utf8.EncodeChar(c), rest))
  {
    hide Hex4;
    var m := c as int - 0x10000;
    var g, h := FourHex(0xD800 + m / 0x400, upper), FourHex(0xDC00 + m % 0x400, upper);
    var b := [BACKSLASH, 117] + g + [BACKSLASH, 117] + h + rest;
    var tail := [BACKSLASH, 117] + h + rest;
    FourHexRead(0xD800 + m / 0x400, upper, tail);
    FourHexRead(0xDC00 + m % 0x400, upper, rest);
    assert b[2..] == g + tail && b[8..] == h + rest && b[12..] == rest;
    assert m / 0x400 * 0x400 + m % 0x400 == m;
  }

  /** The escapes with a letter or sign of their own. */
  lemma ShortEscapes(rest: seq<byte>)
    ensures forall e: (byte, byte) :: e in {(34, 34), (92, 92), (47, 47), (98, 8), (102, 12), (110, 10), (114, 13), (116, 9)} ==>
              Unescape([BACKSLASH, e.0] + rest) == Some(([e.1], rest))
  {
    forall e: (byte, byte) | e in {(34, 34), (92, 92), (47, 47), (98, 8), (102, 12), (110, 10), (114, 13), (116, 9)}
      ensures Unescape([BACKSLASH, e.0] + rest) == Some(([e.1], rest))
    {
      assert ([BACKSLASH, e.0] + rest)[2..] == rest;
    }
  }

  lemma {:induction false} ReadEscaped(b: seq<byte>, rest: seq<byte>)
    ensures ReadString(EscapeAll(b) + [QUOTE] + rest) == Some((b, rest))
  {
    if b == [] {
      assert EscapeAll(b) + [QUOTE] + rest == [QUOTE] + rest;
    } else {
      var more := EscapeAll(b[1..]) + [QUOTE] + rest;
      ReadEscaped(b[1..], rest);
      assert EscapeAll(b) + [QUOTE] + rest == Escape(b[0]) + more;
      if Escape(b[0]) == [b[0]] {
        assert ([b[0]] + more)[1..] == more;
      } else {
        UnescapeEscape(b[0], more);
      }
      assert [b[0]] + b[1..] == b;
    }
  }

  lemma ReadPrintedText(s: string, rest: seq<byte>)
    ensures ReadText(PrintText(s) + rest) == Some((s, rest))
  {
    var e := EscapeAll(Utf8.Encode(s));
    assert PrintText(s) + rest == [QUOTE] + (e + [QUOTE] + rest);
    ReadEscaped(Utf8.Encode(s), rest);
    Utf8.DecodeEncode(s);
  }

  lemma ReadPrintedMember(name: string, value: string, rest: seq<byte>)
    requires SkipSpace(rest) == rest
    ensures ReadMember(PrintMember(name, value) + rest) == Some(((name, value), rest))
  {
    var colon := [58] + (PrintText(value) + rest);
    ReadPrintedText(name, colon);
    ReadPrintedText(value, rest);
    ColonBetween(PrintText(name), name, PrintText(value), value, rest);
  }

  lemma ColonBetween(t: seq<byte>, name: string, v: seq<byte>, value: string, rest: seq<byte>)
    requires v != [] && v[0] == QUOTE && SkipSpace(rest) == rest
    requires ReadText(t + ([58] + (v + rest))) == Some((name, [58] + (v + rest)))
    requires ReadText(v + rest) == Some((value, rest))
    ensures ReadMember(t + [58] + v + rest) == Some(((name, value), rest))
  {
    hide ReadText;
    var colon := [58] + (v + rest);
    assert t + [58] + v + rest == t + colon;
    assert SkipSpace(colon) == colon && colon[1..] == v + rest;
    assert (v + rest)[0] == QUOTE;
  }

  /** Stores one member after the other. */
  function StoreAll(slots: Slots, members: seq<(string, string)>): Option<Slots>
    decreases |members|
  {
    if members == [] then Some(slots)
    else
      match Store(slots, members[0].0, members[0].1)
      case None => None
      case Some(slots') => StoreAll(slots', members[1..])
  }

  lemma ReadStep(b: seq<byte>, name: string, value: string, rest: seq<byte>, slots: Slots)
    requires ReadMember(b) == Some(((name, value), rest)) && Store(slots, name, value).Some? && rest != []
    ensures rest[0] == 125 ==> ReadMembers(b, slots) == Some((Store(slots, name, value).value, rest[1..]))
    ensures rest[0] == 44 ==> ReadMembers(b, slots) == ReadMembers(SkipSpace(rest[1..]), Store(slots, name, value).value)
  {
  }

  lemma MembersStart(members: seq<(string, string)>, rest: seq<byte>)
    requires members != []
    ensures var b := PrintMembers(members) + rest; b != [] && b[0] == QUOTE && SkipSpace(b) == b
  {
    assert PrintText(members[0].0)[0] == QUOTE;
    assert PrintMember(members[0].0, members[0].1)[0] == QUOTE;
  }

  lemma {:induction false} ReadPrintedMembers(members: seq<(string, string)>, slots: Slots)
    requires members != [] && StoreAll(slots, members).Some?
    ensures ReadMembers(PrintMembers(members) + [125], slots) == Some((StoreAll(slots, members).value, []))
  {
    var (name, value) := members[0];
    var b := PrintMembers(members) + [125];
    var slots' := Store(slots, name, value).value;
    if |members| == 1 {
      assert b == PrintMember(name, value) + [125];
      ReadPrintedMember(name, value, [125]);
      var end: seq<byte> := [125];
      ReadStep(b, name, value, end, slots);
      assert end[1..] == [] && members[1..] == [];
      assert StoreAll(slots, members) == StoreAll(slots', members[1..]) == Some(slots');
    } else {
      var more := PrintMembers(members[1..]) + [125];
      assert b == PrintMember(name, value) + ([44] + more);
      ReadPrintedMember(name, value, [44] + more);
      ReadStep(b, name, value, [44] + more, slots);
      assert ([44] + more)[1..] == more;
      MembersStart(members[1..], [125]);
      ReadPrintedMembers(members[1..], slots');
    }
  }

  lemma ParseObject(inside: seq<byte>, slots: Slots)
    requires inside != [] && inside[0] == QUOTE
    requires ReadMembers(inside, Slots(None, None, None, None)) == Some((slots, []))
    ensures Parse([123] + inside) == Some(Fill(slots))
  {
    hide ReadMembers;
    assert ([123] + inside)[1..] == inside;
  }

  lemma StoreMembers(lic: CustomServer)
    ensures StoreAll(Slots(None, None, None, None), Members(lic))
         == Some(Slots(Some(lic.key), Some(lic.host), Some(lic.api), Some(lic.relay)))
  {
    var members := Members(lic);
    var s := Slots(None, None, None, None);
    var s1 := s.(key := Some(lic.key));
    var s2 := s1.(host := Some(lic.host));
    var s3 := s2.(api := Some(lic.api));
    var s4 := s3.(relay := Some(lic.relay));
    assert StoreAll(s3, members[3..]) == StoreAll(s4, members[3..][1..]) == Some(s4);
    assert members[2..][1..] == members[3..] && members[1..][1..] == members[2..];
    assert StoreAll(s, members) == StoreAll(s1, members[1..]) == StoreAll(s2, members[2..]) == StoreAll(s3, members[3..]);
  }

  /** Members in any order and number are read, absent ones are empty and unknown
      ones are skipped. */
  lemma ParseMembers(members: seq<(string, string)>)
    requires members != [] && StoreAll(Slots(None, None, None, None), members).Some?
    ensures Parse([123] + PrintMembers(members) + [125])
         == Some(Fill(StoreAll(Slots(None, None, None, None), members).value))
  {
    hide Parse, ReadMembers, PrintMembers;
    var inside := PrintMembers(members) + [125];
    ReadPrintedMembers(members, Slots(None, None, None, None));
    MembersStart(members, [125]);
    ParseObject(inside, StoreAll(Slots(None, None, None, None), members).value);
    assert [123] + PrintMembers(members) + [125] == [123] + inside;
  }

  /** A host alone is enough. */
  lemma HostAlone(host: string)
    ensures Parse([123] + PrintMember("host", host) + [125]) == Some(CustomServer("", host, "", ""))
  {
    hide Parse, PrintMember;
    var members := [("host", host)];
    var blank := Slots(None, None, None, None);
    var filled := blank.(host := Some(host));
    assert members[1..] == [] && PrintMembers(members) == PrintMember("host", host) + [];
    assert PrintMember("host", host) + [] == PrintMember("host", host);
    assert Store(blank, "host", host) == Some(filled) && StoreAll(filled, []) == Some(filled);
    assert StoreAll(blank, members) == StoreAll(filled, members[1..]);
    assert Fill(filled) == CustomServer("", host, "", "");
    ParseMembers(members);
  }

  /** Members with other names are read over, so they change nothing. */
  lemma UnknownIsSkipped(members: seq<(string, string)>, name: string, value: string, slots: Slots)
    requires name !in {"key", "host", "api", "relay"}
    ensures StoreAll(slots, [(name, value)] + members) == StoreAll(slots, members)
  {
    assert ([(name, value)] + members)[1..] == members;
  }

  /** No member may be repeated. */
  lemma RepeatedIsRejected(slots: Slots, name: string, value: string, again: string)
    requires name in {"key", "host", "api", "relay"} && Store(slots, name, value).Some?
    ensures Store(Store(slots, name, value).value, name, again) == None
  {
  }

  /** What was printed is read back, for every licence. */
  lemma ParsePrint(lic: CustomServer)
    ensures Parse(Print(lic)) == Some(lic)
  {
    hide Parse, PrintMembers;
    StoreMembers(lic);
    ParseMembers(Members(lic));
  }

  // ----- the shape of what is printed

  lemma {:induction false} EscapesAreAscii(b: seq<byte>)
    requires IsAscii(b)
    ensures IsAscii(EscapeAll(b))
  {
    if b != [] {
      EscapesAreAscii(b[1..]);
    }
  }

  lemma PrintedTextIsAscii(s: string)
    requires Utf8.IsAsciiText(s)
    ensures IsAscii(PrintText(s))
  {
    Utf8.AsciiBytes(s);
    EscapesAreAscii(Utf8.Encode(s));
  }

  lemma {:induction false} PrintedMembersAreAscii(members: seq<(string, string)>)
    requires members != []
    requires forall m :: m in members ==> Utf8.IsAsciiText(m.0) && Utf8.IsAsciiText(m.1)
    ensures IsAscii(PrintMembers(members))
  {
    var (name, value) := members[0];
    assert members[0] in members;
    PrintedTextIsAscii(name);
    PrintedTextIsAscii(value);
    if |members| > 1 {
      PrintedMembersAreAscii(members[1..]);
    }
  }

  /** Plain text whose bytes never encode to a `-`. */
  predicate IsQuiet(b: seq<byte>) {
    forall i :: 0 <= i < |b| ==> 32 <= b[i] < 128 && b[i] % 64 != 62
  }

  predicate NeedsNoEscape(b: seq<byte>) {
    forall i :: 0 <= i < |b| ==> b[i] >= 32 && b[i] != QUOTE && b[i] != BACKSLASH
  }

  lemma {:induction false} PlainEscape(b: seq<byte>)
    requires NeedsNoEscape(b)
    ensures EscapeAll(b) == b
  {
    if b != [] {
      PlainEscape(b[1..]);
      assert [b[0]] + b[1..] == b;
    }
  }

  predicate IsLetters(s: string) {
    forall i :: 0 <= i < |s| ==> 'a' <= s[i] <= 'z'
  }

  lemma LettersPrinted(s: string)
    requires IsLetters(s)
    ensures IsQuiet(PrintText(s)) && |PrintText(s)| == |s| + 2
  {
    Utf8.AsciiBytes(s);
    LettersQuoted(s, Utf8.Encode(s));
  }

  lemma LettersQuoted(s: string, b: seq<byte>)
    requires IsLetters(s) && |b| == |s| && forall i :: 0 <= i < |s| ==> b[i] == s[i] as int
    ensures EscapeAll(b) == b && IsQuiet([QUOTE] + b + [QUOTE])
  {
    PlainEscape(b);
  }

  lemma FourMembers(m: seq<(string, string)>)
    requires |m| == 4
    ensures PrintMembers(m) == PrintMember(m[0].0, m[0].1) + ([44] + (PrintMember(m[1].0, m[1].1)
                               + ([44] + (PrintMember(m[2].0, m[2].1) + ([44] + PrintMember(m[3].0, m[3].1))))))
  {
    assert m[1..][1..] == m[2..] && m[2..][1..] == m[3..];
    assert PrintMembers(m[3..]) == PrintMember(m[3].0, m[3].1) + [];
    assert PrintMembers(m[2..]) == PrintMember(m[2].0, m[2].1) + ([44] + PrintMembers(m[3..]));
    assert PrintMembers(m[1..]) == PrintMember(m[1].0, m[1].1) + ([44] + PrintMembers(m[2..]));
  }

  predicate IsAsciiLicence(lic: CustomServer) {
    Utf8.IsAsciiText(lic.key) && Utf8.IsAsciiText(lic.host) && Utf8.IsAsciiText(lic.api) && Utf8.IsAsciiText(lic.relay)
  }

  lemma PrintedIsAscii(lic: CustomServer)
    requires IsAsciiLicence(lic)
    ensures IsAscii(Print(lic))
  {
    PrintedMembersAreAscii(Members(lic));
  }

  lemma PrintedEnds(lic: CustomServer)
    ensures |Print(lic)| >= 3 && Print(lic)[0] == 123 && Print(lic)[1] == QUOTE && Print(lic)[|Print(lic)| - 1] == 125
  {
    MembersStart(Members(lic), [125]);
  }
}
