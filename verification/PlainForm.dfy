/** The plain form of a licence in a file name: `host=...,key=...,` and so on. */
module PlainForm {
  import opened Basics
  import opened LicenceJson
  import opened Text
  import opened LicenceFile
  import opened LicenceRoundTrip
  import Utf8

  datatype Field = Host | Key | Api | Relay

  function Label(f: Field): (s: string)
    ensures |s| >= 4 && s[|s| - 1] == '='
  {
    match f
    case Host => "host="
    case Key => "key="
    case Api => "api="
    case Relay => "relay="
  }

  function Get(lic: CustomServer, f: Field): string {
    match f
    case Host => lic.host
    case Key => lic.key
    case Api => lic.api
    case Relay => lic.relay
  }

  /** One printed part: a label, in whatever letter case, and its value. */
  datatype Part = Part(field: Field, spelling: string, value: string)

  predicate IsPart(p: Part, lower: Lowering) {
    LowerText(p.spelling, lower) == Label(p.field) && ',' !in p.value
  }

  function PartText(p: Part): string { p.spelling + p.value }

  /** The parts, each closed by a comma. */
  function PrintParts(parts: seq<Part>): string {
    if parts == [] then "" else PartText(parts[0]) + ("," + PrintParts(parts[1..]))
  }

  function Texts(parts: seq<Part>): (r: seq<string>)
    ensures |r| == |parts| && forall i :: 0 <= i < |r| ==> r[i] == PartText(parts[i])
  {
    seq(|parts|, i requires 0 <= i < |parts| => PartText(parts[i]))
  }

  /** Text after the last comma that no label starts, such as ` (1)`. */
  predicate IsRemainder(z: string, lower: Lowering) {
    ',' !in z && forall f: Field :: !HasLabel(z, Label(f), lower)
  }

  // ----- one part sets one field

  lemma LabelsDiffer(t: string, f: Field, g: Field)
    requires Label(f) <= t && Label(g) <= t
    ensures f == g
  {
    assert Label(f)[0] == t[0] == Label(g)[0];
  }

  lemma SpellingLength(p: Part, lower: Lowering)
    requires IsLowering(lower) && IsPart(p, lower)
    ensures |p.spelling| == |Label(p.field)| && ',' !in p.spelling
  {
    LoweredOneByOne(p.spelling, lower);
    if ',' in p.spelling { StaysInLowered(p.spelling, ',', lower); }
  }

  lemma PartSetsField(lic: CustomServer, p: Part, lower: Lowering)
    requires IsLowering(lower) && IsPart(p, lower)
    ensures forall g: Field :: Get(WithPart(lic, PartText(p), lower), g) == if g == p.field then p.value else Get(lic, g)
  {
    var t := PartText(p);
    LowerConcat(p.spelling, p.value, lower);
    SpellingLength(p, lower);
    assert t[|p.spelling|..] == p.value;
    forall g: Field ensures HasLabel(t, Label(g), lower) <==> g == p.field {
      if HasLabel(t, Label(g), lower) { LabelsDiffer(LowerText(t, lower), p.field, g); }
    }
    assert HasLabel(t, "host=", lower) <==> HasLabel(t, Label(Host), lower);
    assert HasLabel(t, "key=", lower) <==> HasLabel(t, Label(Key), lower);
    assert HasLabel(t, "api=", lower) <==> HasLabel(t, Label(Api), lower);
    assert HasLabel(t, "relay=", lower) <==> HasLabel(t, Label(Relay), lower);
  }

  lemma RemainderSetsNothing(lic: CustomServer, z: string, lower: Lowering)
    requires forall f: Field :: !HasLabel(z, Label(f), lower)
    ensures WithPart(lic, z, lower) == lic
  {
    assert !HasLabel(z, Label(Host), lower) && !HasLabel(z, Label(Key), lower);
    assert !HasLabel(z, Label(Api), lower) && !HasLabel(z, Label(Relay), lower);
  }

  /** A field ends up with the value of the last part that sets it. */
  function LastValue(parts: seq<Part>, f: Field, start: string): string
    decreases |parts|
  {
    if parts == [] then start
    else LastValue(parts[1..], f, if parts[0].field == f then parts[0].value else start)
  }

  predicate IsRest(rest: seq<string>, lower: Lowering) {
    rest == [] || (|rest| == 1 && IsRemainder(rest[0], lower))
  }

  lemma {:induction false} PartsSetFields(lic: CustomServer, parts: seq<Part>, rest: seq<string>, f: Field, lower: Lowering)
    requires IsLowering(lower) && (forall p :: p in parts ==> IsPart(p, lower)) && IsRest(rest, lower)
    ensures Get(WithParts(lic, Texts(parts) + rest, lower), f) == LastValue(parts, f, Get(lic, f))
    decreases |parts|
  {
    var all := Texts(parts) + rest;
    if parts == [] {
      assert all == rest;
      if rest != [] {
        RemainderSetsNothing(lic, rest[0], lower);
        assert rest[1..] == [];
      }
    } else {
      assert parts[0] in parts;
      PartSetsField(lic, parts[0], lower);
      assert all[1..] == Texts(parts[1..]) + rest;
      PartsSetFields(WithPart(lic, PartText(parts[0]), lower), parts[1..], rest, f, lower);
    }
  }

  // ----- finding and splitting the parts

  lemma TextHasNoComma(p: Part, lower: Lowering)
    requires IsLowering(lower) && IsPart(p, lower)
    ensures ',' !in PartText(p)
  {
    SpellingLength(p, lower);
  }

  lemma CommaFree(a: string, b: string)
    requires ',' !in a
    ensures NoneStartsIn(a, b, ",")
  {
    assert ","[0] == ',';
    forall i | 0 <= i < |a| ensures !("," <= (a + b)[i..]) {
      assert (a + b)[i..][0] == a[i] && a[i] in a;
    }
  }

  lemma {:induction false} PartsSplit(parts: seq<Part>, z: string, lower: Lowering)
    requires IsLowering(lower) && (forall p :: p in parts ==> IsPart(p, lower)) && ',' !in z
    ensures Split(PrintParts(parts) + z, ",") == Texts(parts) + [z]
    decreases |parts|
  {
    hide IsPart, Split, LowerText;
    if parts == [] {
      CommaFree(z, "");
      SplitNone(z, ",");
      assert PrintParts(parts) + z == z;
      assert Texts(parts) == [];
    } else {
      var t, rest := PartText(parts[0]), PrintParts(parts[1..]) + z;
      assert parts[0] in parts;
      TextHasNoComma(parts[0], lower);
      CommaFree(t, "," + rest);
      SplitAt(t, rest, ",");
      assert PrintParts(parts) + z == t + "," + rest;
      PartsSplit(parts[1..], z, lower);
      assert Texts(parts) == [t] + Texts(parts[1..]);
    }
  }

  /** The plain form starts where it does: `host=` has no end that it starts with. */
  lemma FoundAfter(stem: string, s: string, pat: string)
    requires pat == "host=" && !Contains(stem, pat) && pat <= s
    ensures Contains(stem + s, pat) && Find(stem + s, pat) == |stem|
  {
    var t := stem + s;
    assert t[|stem|..] == s;
    forall i | 0 <= i < |stem| ensures !(pat <= t[i..]) {
      var k := |stem| - i;
      assert t[i..][..k] == stem[i..] && t[i..][k] == s[0] == pat[0];
      assert !(pat <= stem[i..]);
    }
    var i := Find(t, pat);
  }

  lemma LastCharOfParts(parts: seq<Part>)
    requires parts != []
    ensures var s := PrintParts(parts); s != "" && s[|s| - 1] == ','
    decreases |parts|
  {
    if |parts| > 1 { LastCharOfParts(parts[1..]); }
  }

  // ----- what is found where

  lemma ExeStripped(s: string, lower: Lowering)
    requires IsLowering(lower) && !EndsWith(LowerText(s, lower), ".exe")
    ensures StripExe(s + ".exe", lower) == Some(s)
  {
    AsciiLowered(".exe", lower);
    assert LowerText(".exe", lower) == ".exe";
    ExtensionStripped(s, ".exe", lower);
  }

  /** The lower case of the stem takes as many bytes as the stem. */
  predicate KeepsBytes(stem: string, lower: Lowering) {
    |Utf8.Encode(LowerText(stem, lower))| == |Utf8.Encode(stem)|
  }

  lemma {:induction false} SkipFront(a: string, b: string)
    ensures SkipBytes(a + b, |Utf8.Encode(a)|) == Some(b)
  {
    if a == "" {
      assert a + b == b;
    } else {
      assert (a + b)[1..] == a[1..] + b;
      SkipFront(a[1..], b);
    }
  }

  lemma {:induction false} SkipLeavesEnd(s: string, n: nat) returns (i: nat)
    requires SkipBytes(s, n).Some?
    ensures i <= |s| && SkipBytes(s, n).value == s[i..] && |Utf8.Encode(s[..i])| == n
  {
    i := 0;
    if n > 0 {
      var j := SkipLeavesEnd(s[1..], n - |Utf8.EncodeChar(s[0])|);
      i := j + 1;
      assert s[1..][j..] == s[i..] && s[..i][1..] == s[1..][..j];
    }
  }

  /** In the plain form the text is cut where the lower-cased stem would end. */
  lemma ReadsFrom(stem: string, body: string, verify: Verifier, lower: Lowering)
    requires IsLowering(lower) && !Contains(LowerText(stem, lower), "host=") && "host=" <= LowerText(body, lower)
    requires !EndsWith(LowerText(stem + body, lower), ".exe")
    ensures FromFileName(stem + body + ".exe", verify, lower)
         == match SkipBytes(stem + body, |Utf8.Encode(LowerText(stem, lower))|)
            case None => None
            case Some(r) => Some(WithParts(BLANK, Split(r, ","), lower))
  {
    var s := stem + body;
    var l, m := LowerText(stem, lower), LowerText(body, lower);
    ExeStripped(s, lower);
    LowerConcat(stem, body, lower);
    FoundAfter(l, m, "host=");
    assert (l + m)[..|l|] == l;
  }

  lemma ReadBody(stem: string, body: string, verify: Verifier, lower: Lowering)
    requires IsLowering(lower) && !Contains(LowerText(stem, lower), "host=") && "host=" <= LowerText(body, lower)
    requires !EndsWith(LowerText(stem + body, lower), ".exe") && KeepsBytes(stem, lower)
    ensures FromFileName(stem + body + ".exe", verify, lower) == Some(WithParts(BLANK, Split(body, ","), lower))
  {
    ReadsFrom(stem, body, verify, lower);
    SkipFront(stem, body);
  }

  // ----- cut anywhere else, no part sets the host

  lemma {:induction false} NoHostPart(lic: CustomServer, parts: seq<string>, lower: Lowering)
    requires forall p :: p in parts ==> !HasLabel(p, "host=", lower)
    ensures WithParts(lic, parts, lower).host == lic.host
    decreases |parts|
  {
    if parts != [] {
      assert parts[0] in parts;
      NoHostPart(WithPart(lic, parts[0], lower), parts[1..], lower);
    }
  }

  /** The label of a part is found in the text at the place of the part. */
  lemma LabelInText(r: string, k: nat, lower: Lowering) returns (i: nat)
    requires k < |Split(r, ",")| && HasLabel(Split(r, ",")[k], "host=", lower)
    ensures i <= |r| && (i == 0 || r[i - 1] == ',') && "host=" <= LowerText(r[i..], lower)
    ensures LowerText(r, lower) == LowerText(r[..i], lower) + LowerText(r[i..], lower)
  {
    var p := Split(r, ",")[k];
    i := PieceIsInfix(r, ",", k);
    assert k > 0 ==> r[i - 1..i] == ",";
    assert r[i..] == p + r[i..][|p|..];
    LowerConcat(p, r[i..][|p|..], lower);
    assert r == r[..i] + r[i..];
    LowerConcat(r[..i], r[i..], lower);
  }

  /** `host=` is what the body starts with, and nowhere else in it. */
  predicate SaysHostOnce(body: string, lower: Lowering) {
    "host=" <= LowerText(body, lower) && !Contains(LowerText(body, lower)[1..], "host=")
  }

  lemma OccursLater(a: string, b: string, pat: string)
    requires pat <= b && a != ""
    ensures Contains((a + b)[1..], pat)
  {
    assert (a + b)[1..][|a| - 1..] == b;
  }

  lemma OccursIn(a: string, b: string, pat: string)
    requires pat <= b
    ensures Contains(a + b, pat)
  {
    assert (a + b)[|a|..] == b;
  }

  /** Cut behind its start, the body says no host. */
  lemma NoHostBehind(body: string, j: nat, lower: Lowering)
    requires IsLowering(lower) && SaysHostOnce(body, lower) && 0 < j <= |body|
    ensures forall p :: p in Split(body[j..], ",") ==> !HasLabel(p, "host=", lower)
  {
    var r := body[j..];
    forall p | p in Split(r, ",") ensures !HasLabel(p, "host=", lower) {
      var k :| 0 <= k < |Split(r, ",")| && Split(r, ",")[k] == p;
      if HasLabel(p, "host=", lower) {
        var i := LabelInText(r, k, lower);
        assert body == body[..j] + r;
        LowerConcat(body[..j], r, lower);
        LowerIsNoShorter(body[..j], lower);
        var front := LowerText(body[..j], lower) + LowerText(r[..i], lower);
        assert LowerText(body, lower) == front + LowerText(r[i..], lower);
        OccursLater(front, LowerText(r[i..], lower), "host=");
        assert false;
      }
    }
  }

  /** In front of the body nothing starts like it. */
  lemma OnlyAtSeam(q: string, body: string, i: nat, lower: Lowering)
    requires IsLowering(lower) && SaysHostOnce(body, lower) && !Contains(LowerText(q, lower), "host=")
    requires i <= |q + body| && "host=" <= LowerText((q + body)[i..], lower)
    ensures i == |q|
  {
    hide LowerText;
    var r := q + body;
    if i < |q| {
      assert r[i..] == q[i..] + body && q == q[..i] + q[i..];
      StartsInFront(q[i..], body, lower);
      LowerConcat(q[..i], q[i..], lower);
      OccursIn(LowerText(q[..i], lower), LowerText(q[i..], lower), "host=");
      assert false;
    } else if i > |q| {
      var j := i - |q|;
      assert r[i..] == body[j..] && body == body[..j] + body[j..];
      LowerConcat(body[..j], body[j..], lower);
      LowerIsNoShorter(body[..j], lower);
      OccursLater(LowerText(body[..j], lower), LowerText(body[j..], lower), "host=");
      assert false;
    }
  }

  /** Cut before its start, behind something other than a comma, it says none either. */
  lemma NoHostBefore(q: string, body: string, lower: Lowering)
    requires IsLowering(lower) && SaysHostOnce(body, lower) && q != "" && q[|q| - 1] != ','
    requires !Contains(LowerText(q, lower), "host=")
    ensures forall p :: p in Split(q + body, ",") ==> !HasLabel(p, "host=", lower)
  {
    hide HasLabel, SaysHostOnce, Contains;
    var r := q + body;
    forall p | p in Split(r, ",") ensures !HasLabel(p, "host=", lower) {
      var k :| 0 <= k < |Split(r, ",")| && Split(r, ",")[k] == p;
      if HasLabel(p, "host=", lower) {
        var i := LabelInText(r, k, lower);
        OnlyAtSeam(q, body, i, lower);
        assert false;
      }
    }
  }

  /** No match crosses into another one. */
  lemma StartsInFront(q: string, body: string, lower: Lowering)
    requires IsLowering(lower) && q != "" && "host=" <= LowerText(body, lower) && "host=" <= LowerText(q + body, lower)
    ensures "host=" <= LowerText(q, lower)
  {
    var a, b := LowerText(q, lower), LowerText(body, lower);
    LowerConcat(q, body, lower);
    LowerIsNoShorter(q, lower);
    assert (a + b)[|a|] == b[0] == 'h';
    assert a == (a + b)[..|a|];
  }

  /** A plain form is read as what it says exactly when the stem keeps its bytes. */
  lemma ReadBodyExact(lic: CustomServer, stem: string, body: string, verify: Verifier, lower: Lowering)
    requires IsLowering(lower) && !Contains(LowerText(stem, lower), "host=") && SaysHostOnce(body, lower)
    requires !EndsWith(LowerText(stem + body, lower), ".exe") && (stem == "" || stem[|stem| - 1] != ',')
    requires WithParts(BLANK, Split(body, ","), lower) == lic && lic.host != ""
    ensures FromFileName(stem + body + ".exe", verify, lower) == Some(lic) <==> KeepsBytes(stem, lower)
  {
    var n := |Utf8.Encode(LowerText(stem, lower))|;
    ReadsFrom(stem, body, verify, lower);
    SkipFront(stem, body);
    if SkipBytes(stem + body, n).Some? && !KeepsBytes(stem, lower) {
      var i := SkipLeavesEnd(stem + body, n);
      assert (stem + body)[..|stem|] == stem;
      CutElsewhere(stem, body, i, lower);
      NoHostPart(BLANK, Split((stem + body)[i..], ","), lower);
    }
  }

  lemma CutElsewhere(stem: string, body: string, i: nat, lower: Lowering)
    requires IsLowering(lower) && !Contains(LowerText(stem, lower), "host=") && SaysHostOnce(body, lower)
    requires i <= |stem + body| && i != |stem|
    requires stem == "" || stem[|stem| - 1] != ','
    ensures forall p :: p in Split((stem + body)[i..], ",") ==> !HasLabel(p, "host=", lower)
  {
    hide LowerText, HasLabel, SaysHostOnce;
    if i < |stem| {
      var q := stem[i..];
      assert (stem + body)[i..] == q + body && stem == stem[..i] + q;
      LowerConcat(stem[..i], q, lower);
      NotInEnd(LowerText(stem[..i], lower), LowerText(q, lower), "host=");
      NoHostBefore(q, body, lower);
    } else {
      assert (stem + body)[i..] == body[i - |stem|..];
      NoHostBehind(body, i - |stem|, lower);
    }
  }

  lemma NotInEnd(a: string, b: string, pat: string)
    requires !Contains(a + b, pat)
    ensures !Contains(b, pat)
  {
    assert forall i :: 0 <= i <= |b| ==> (a + b)[|a| + i..] == b[i..];
  }

  // ----- main results

  ghost predicate Spells(parts: seq<Part>, lic: CustomServer, lower: Lowering) {
    && parts != [] && parts[0].field == Host
    && (forall p :: p in parts ==> IsPart(p, lower) && p.value == Get(lic, p.field))
    && forall f: Field :: Get(lic, f) == "" || exists p :: p in parts && p.field == f
  }

  /** A stem before the plain form. */
  predicate IsPlainStem(stem: string, lower: Lowering) {
    !Contains(LowerText(stem, lower), "host=")
  }

  /** In any order, any letter case and with any repetition that agrees, parts
      that spell a licence, host first, are read back as that licence, whatever
      follows the last comma, behind every stem that keeps its bytes. */
  lemma PlainRoundTrip(lic: CustomServer, stem: string, parts: seq<Part>, z: string, verify: Verifier, lower: Lowering)
    requires IsLowering(lower) && IsPlainStem(stem, lower) && KeepsBytes(stem, lower)
    requires Spells(parts, lic, lower) && IsRemainder(z, lower) && !EndsWith(LowerText(z, lower), ".exe")
    ensures FromFileName(stem + (PrintParts(parts) + z) + ".exe", verify, lower) == Some(lic)
  {
    ClosedForm(lic, stem, parts, z, lower);
    ReadBody(stem, PrintParts(parts) + z, verify, lower);
  }

  /** The last part may be left open if it does not itself end like the extension. */
  lemma OpenRoundTrip(lic: CustomServer, stem: string, parts: seq<Part>, last: Part, verify: Verifier, lower: Lowering)
    requires IsLowering(lower) && IsPlainStem(stem, lower) && KeepsBytes(stem, lower)
    requires Spells(parts + [last], lic, lower) && !EndsWith(LowerText(PartText(last), lower), ".exe")
    ensures FromFileName(stem + (PrintParts(parts) + PartText(last)) + ".exe", verify, lower) == Some(lic)
  {
    OpenForm(lic, stem, parts, last, lower);
    ReadBody(stem, PrintParts(parts) + PartText(last), verify, lower);
  }

  /** That the stem keeps its bytes is necessary: for a host that is said once,
      behind something other than a comma, no other stem is read back. */
  lemma PlainRoundTripExact(lic: CustomServer, stem: string, parts: seq<Part>, z: string, verify: Verifier, lower: Lowering)
    requires IsLowering(lower) && IsPlainStem(stem, lower) && (stem == "" || stem[|stem| - 1] != ',')
    requires Spells(parts, lic, lower) && IsRemainder(z, lower) && !EndsWith(LowerText(z, lower), ".exe")
    requires lic.host != "" && SaysHostOnce(PrintParts(parts) + z, lower)
    ensures FromFileName(stem + (PrintParts(parts) + z) + ".exe", verify, lower) == Some(lic) <==> KeepsBytes(stem, lower)
  {
    ClosedForm(lic, stem, parts, z, lower);
    ReadBodyExact(lic, stem, PrintParts(parts) + z, verify, lower);
  }

  lemma OpenRoundTripExact(lic: CustomServer, stem: string, parts: seq<Part>, last: Part, verify: Verifier, lower: Lowering)
    requires IsLowering(lower) && IsPlainStem(stem, lower) && (stem == "" || stem[|stem| - 1] != ',')
    requires Spells(parts + [last], lic, lower) && !EndsWith(LowerText(PartText(last), lower), ".exe")
    requires lic.host != "" && SaysHostOnce(PrintParts(parts) + PartText(last), lower)
    ensures FromFileName(stem + (PrintParts(parts) + PartText(last)) + ".exe", verify, lower) == Some(lic) <==> KeepsBytes(stem, lower)
  {
    OpenForm(lic, stem, parts, last, lower);
    ReadBodyExact(lic, stem, PrintParts(parts) + PartText(last), verify, lower);
  }

  lemma ClosedForm(lic: CustomServer, stem: string, parts: seq<Part>, z: string, lower: Lowering)
    requires IsLowering(lower) && Spells(parts, lic, lower) && IsRemainder(z, lower) && !EndsWith(LowerText(z, lower), ".exe")
    ensures var body := PrintParts(parts) + z;
            && "host=" <= LowerText(body, lower) && !EndsWith(LowerText(stem + body, lower), ".exe")
            && WithParts(BLANK, Split(body, ","), lower) == lic
  {
    BodyNeverEndsInExe(stem, parts, z, lower);
    ClosedLeads(parts, z, lower);
    PartsSplit(parts, z, lower);
    PartsSpellLicence(lic, parts, [z], lower);
  }

  lemma OpenForm(lic: CustomServer, stem: string, parts: seq<Part>, last: Part, lower: Lowering)
    requires IsLowering(lower) && Spells(parts + [last], lic, lower) && !EndsWith(LowerText(PartText(last), lower), ".exe")
    ensures var body := PrintParts(parts) + PartText(last);
            && "host=" <= LowerText(body, lower) && !EndsWith(LowerText(stem + body, lower), ".exe")
            && WithParts(BLANK, Split(body, ","), lower) == lic
  {
    var all := parts + [last];
    assert last in all;
    LastPartKeepsExe(stem, PrintParts(parts), last, lower);
    OpenLeads(parts, last, lower);
    OpenSplit(parts, last, lower);
    PartsSpellLicence(lic, all, [], lower);
    assert Texts(all) + [] == Texts(all);
  }

  lemma OpenSplit(parts: seq<Part>, last: Part, lower: Lowering)
    requires IsLowering(lower) && forall p :: p in parts + [last] ==> IsPart(p, lower)
    ensures Split(PrintParts(parts) + PartText(last), ",") == Texts(parts + [last])
  {
    assert last in parts + [last];
    assert forall p :: p in parts ==> p in parts + [last];
    TextHasNoComma(last, lower);
    PartsSplit(parts, PartText(last), lower);
    assert Texts(parts + [last]) == Texts(parts) + [PartText(last)];
  }

  lemma OpenLeads(parts: seq<Part>, last: Part, lower: Lowering)
    requires IsPart((parts + [last])[0], lower) && (parts + [last])[0].field == Host
    ensures "host=" <= LowerText(PrintParts(parts) + PartText(last), lower)
  {
    if parts == [] {
      PartLeads(last, "", lower);
      assert PrintParts(parts) + PartText(last) == PartText(last) + "";
    } else {
      ClosedLeads(parts, PartText(last), lower);
    }
  }

  lemma ClosedLeads(parts: seq<Part>, z: string, lower: Lowering)
    requires parts != [] && IsPart(parts[0], lower) && parts[0].field == Host
    ensures "host=" <= LowerText(PrintParts(parts) + z, lower)
  {
    var rest := PrintParts(parts[1..]);
    PartLeads(parts[0], "," + rest + z, lower);
    assert PartText(parts[0]) + ("," + rest) + z == PartText(parts[0]) + ("," + rest + z);
  }

  lemma PartLeads(p: Part, rest: string, lower: Lowering)
    requires IsPart(p, lower) && p.field == Host
    ensures "host=" <= LowerText(PartText(p) + rest, lower)
  {
    LowerConcat(PartText(p), rest, lower);
    LowerConcat(p.spelling, p.value, lower);
  }

  /** A part is longer than the extension, so only the part itself can end like it. */
  lemma LastPartKeepsExe(stem: string, before: string, last: Part, lower: Lowering)
    requires IsLowering(lower) && IsPart(last, lower) && !EndsWith(LowerText(PartText(last), lower), ".exe")
    ensures !EndsWith(LowerText(stem + (before + PartText(last)), lower), ".exe")
  {
    var front, t := stem + before, PartText(last);
    assert stem + (before + t) == front + t;
    LowerConcat(front, t, lower);
    LowerConcat(last.spelling, last.value, lower);
    EndsOfConcat(LowerText(front, lower), LowerText(t, lower), ".exe");
  }

  lemma BodyNeverEndsInExe(stem: string, parts: seq<Part>, z: string, lower: Lowering)
    requires IsLowering(lower) && parts != [] && !EndsWith(LowerText(z, lower), ".exe")
    ensures !EndsWith(LowerText(stem + (PrintParts(parts) + z), lower), ".exe")
  {
    LastCharOfParts(parts);
    var n := |stem + PrintParts(parts)| - 1;
    var front := (stem + PrintParts(parts))[..n];
    assert stem + (PrintParts(parts) + z) == front + ("," + z);
    LowerConcat(front, "," + z, lower);
    LowerConcat(",", z, lower);
    assert LowerText(",", lower) == ",";
    CommaBeforeEnd(LowerText(front, lower), LowerText(z, lower));
  }

  lemma CommaBeforeEnd(a: string, b: string)
    requires !EndsWith(b, ".exe")
    ensures !EndsWith(a + ("," + b), ".exe")
  {
    var s := a + ("," + b);
    if |b| >= 4 {
      assert s[|s| - 4..] == b[|b| - 4..];
    } else if |s| >= 4 {
      assert s[|s| - 4..][3 - |b|] == s[|a|] == ',';
    }
  }

  lemma PartsSpellLicence(lic: CustomServer, parts: seq<Part>, rest: seq<string>, lower: Lowering)
    requires IsLowering(lower) && Spells(parts, lic, lower) && IsRest(rest, lower)
    ensures WithParts(BLANK, Texts(parts) + rest, lower) == lic
  {
    var r := WithParts(BLANK, Texts(parts) + rest, lower);
    forall f: Field ensures Get(r, f) == Get(lic, f) {
      PartsSetFields(BLANK, parts, rest, f, lower);
      AgreedValue(lic, parts, f, Get(BLANK, f));
    }
    assert Get(r, Host) == Get(lic, Host) && Get(r, Key) == Get(lic, Key) && Get(r, Api) == Get(lic, Api) && Get(r, Relay) == Get(lic, Relay);
  }

  lemma {:induction false} AgreedValue(lic: CustomServer, parts: seq<Part>, f: Field, start: string)
    requires forall p :: p in parts ==> p.value == Get(lic, p.field)
    requires start == Get(lic, f) || exists p :: p in parts && p.field == f
    ensures LastValue(parts, f, start) == Get(lic, f)
    decreases |parts|
  {
    if parts != [] {
      assert parts[0] in parts;
      var start' := if parts[0].field == f then parts[0].value else start;
      if start' != Get(lic, f) {
        var p :| p in parts && p.field == f;
        assert p in parts[1..];
      }
      AgreedValue(lic, parts[1..], f, start');
    }
  }

  // ----- stems that keep their bytes, and stems that do not

  lemma AsciiKeepsBytes(stem: string, lower: Lowering)
    requires IsLowering(lower) && forall c :: c in stem ==> IsAsciiChar(c)
    ensures KeepsBytes(stem, lower)
  {
    AsciiLowered(stem, lower);
    Utf8.AsciiBytes(stem);
    Utf8.AsciiBytes(LowerText(stem, lower));
  }

  lemma {:induction false} NoLabels(parts: seq<string>, lic: CustomServer, lower: Lowering)
    requires forall p, f: Field :: p in parts ==> !HasLabel(p, Label(f), lower)
    ensures WithParts(lic, parts, lower) == lic
    decreases |parts|
  {
    if parts != [] {
      assert parts[0] in parts;
      RemainderSetsNothing(lic, parts[0], lower);
      assert forall p :: p in parts[1..] ==> p in parts;
      NoLabels(parts[1..], lic, lower);
    }
  }

  /** Behind U+0130, whose lower case is a byte longer, the `h` of `host=` is
      cut off and the host is silently lost. */
  lemma DottedStemLosesHost(stem: string, body: string, verify: Verifier, lower: Lowering)
    requires IsLowering(lower) && lower('\U{0130}') == "i\U{0307}" && stem == "\U{0130}-" && body == "host=a,"
    ensures FromFileName(stem + body + ".exe", verify, lower) == Some(BLANK)
  {
    DottedStem(stem, lower);
    PlainBody(stem, body, lower);
    ReadsFrom(stem, body, verify, lower);
    DottedSkip(stem, body);
    NothingSaid(body[1..], lower);
  }

  lemma DottedSkip(stem: string, body: string)
    requires stem == "\U{0130}-" && body == "host=a,"
    ensures SkipBytes(stem + body, 4) == Some(body[1..])
  {
    var dash := "-" + body;
    assert (stem + body)[1..] == dash && dash[1..] == body;
    assert SkipBytes(body, 1) == SkipBytes(body[1..], 0);
    assert SkipBytes(dash, 2) == SkipBytes(body, 1);
    assert (stem + body)[0] == '\U{0130}';
  }

  lemma NothingSaid(text: string, lower: Lowering)
    requires IsLowering(lower) && text == "ost=a,"
    ensures WithParts(BLANK, Split(text, ","), lower) == BLANK
  {
    var part := "ost=a";
    assert text == part + "," + "";
    CommaFree(part, "," + "");
    SplitAt(part, "", ",");
    assert Split("", ",") == [""];
    NoLabelsOf(part, lower);
    NoLabels([part, ""], BLANK, lower);
  }

  lemma NoLabelsOf(part: string, lower: Lowering)
    requires IsLowering(lower) && part == "ost=a"
    ensures forall f: Field :: !HasLabel(part, Label(f), lower) && !HasLabel("", Label(f), lower)
  {
    assert LowerText(part, lower)[0] == 'o';
    assert LowerText("", lower) == "";
  }

  lemma DottedStem(stem: string, lower: Lowering)
    requires IsLowering(lower) && lower('\U{0130}') == "i\U{0307}" && stem == "\U{0130}-"
    ensures LowerText(stem, lower) == "i\U{0307}-" && |Utf8.Encode(LowerText(stem, lower))| == 4
  {
    assert stem[1..] == "-" && "-"[1..] == "";
    assert LowerText("-", lower) == "-" + "";
    var l := "i\U{0307}-";
    assert l[1..][1..] == "-";
    assert |Utf8.Encode("-")| == 1 && |Utf8.Encode(l[1..])| == 3;
  }

  lemma PlainBody(stem: string, body: string, lower: Lowering)
    requires IsLowering(lower) && '=' !in stem && body == "host=a,"
    ensures "host=" <= LowerText(body, lower) && !EndsWith(LowerText(stem + body, lower), ".exe")
    ensures !Contains(LowerText(stem, lower), "host=")
  {
    NoEquals(stem, lower);
    AsciiLowered(body, lower);
    assert LowerText(body, lower) == body;
    LowerConcat(stem, body, lower);
    EndsOfConcat(LowerText(stem, lower), body, ".exe");
    assert body[|body| - 4..][3] == ',';
  }

  /** Behind U+1E9E, whose lower case is a byte shorter, the cut falls inside the
      character. */
  lemma SharpStemFails(stem: string, body: string, verify: Verifier, lower: Lowering)
    requires IsLowering(lower) && lower('\U{1E9E}') == "\U{00DF}" && stem == "\U{1E9E}" && body == "host=a,"
    ensures FromFileName(stem + body + ".exe", verify, lower) == None
  {
    assert stem[1..] == "" && LowerText("", lower) == "";
    assert LowerText(stem, lower) == "\U{00DF}";
    var l := "\U{00DF}";
    assert l[1..] == "" && |Utf8.Encode(l)| == 2;
    PlainBody(stem, body, lower);
    ReadsFrom(stem, body, verify, lower);
    assert (stem + body)[0] == '\U{1E9E}';
  }
}
