/** Outside ASCII the separator can occur inside a printed licence, and then
    the file name is not read back. */
module LicenceLimits {
  import opened Basics
  import opened Base64Url
  import opened LicenceJson
  import opened Text
  import opened LicenceFile
  import opened LicenceRoundTrip
  import opened LicenceExact
  import Utf8

  // ----- the bytes printed for a host with the full-width U+FF01 after an `s`

  lemma LettersMember(name: string, value: string)
    requires IsLetters(name) && IsLetters(value)
    ensures IsQuiet(PrintMember(name, value)) && |PrintMember(name, value)| == |name| + |value| + 5
  {
    LettersPrinted(name);
    LettersPrinted(value);
  }

  predicate IsQuietByte(b: byte) { 32 <= b < 128 && b % 64 != 62 }

  /** Quiet but for the four bytes at `p`. */
  predicate IsLoudAt(b: seq<byte>, p: nat) {
    p + 4 <= |b| && b[p] == 0x73 && b[p + 1] == 0xEF && b[p + 2] == 0xBC && b[p + 3] == 0x81
    && forall i :: 0 <= i < |b| && !(p <= i < p + 4) ==> IsQuietByte(b[i])
  }

  lemma Around(front: seq<byte>, b: seq<byte>, p: nat, back: seq<byte>)
    requires IsLoudAt(b, p) && IsQuiet(front) && IsQuiet(back)
    ensures IsLoudAt(front + (b + back), |front| + p)
  {
  }

  lemma LoudMember(name: string, value: string, v: seq<byte>)
    requires IsLetters(name) && Utf8.Encode(value) == v && IsLoudAt(v, 0) && NeedsNoEscape(v)
    ensures IsLoudAt(PrintMember(name, value), |name| + 4) && |PrintMember(name, value)| == |name| + |v| + 5
  {
    LettersPrinted(name);
    PlainEscape(v);
    MemberAround(PrintText(name), v);
  }

  lemma MemberAround(t: seq<byte>, v: seq<byte>)
    requires IsQuiet(t) && IsLoudAt(v, 0)
    ensures IsLoudAt(t + [58] + ([QUOTE] + v + [QUOTE]), |t| + 2)
  {
    Around(t + [58, QUOTE], v, 0, [QUOTE]);
    assert t + [58] + ([QUOTE] + v + [QUOTE]) == t + [58, QUOTE] + (v + [QUOTE]);
  }

  lemma LoudPrint(m: seq<(string, string)>, v: seq<byte>)
    requires |m| == 4 && IsLetters(m[0].0) && IsLetters(m[1].0) && IsLetters(m[2].0) && IsLetters(m[3].0)
    requires |m[0].0| == 3 && |m[1].0| == 4 && |m[2].0| == 3 && |m[3].0| == 5
    requires m[0].1 == m[2].1 == m[3].1 == "" && Utf8.Encode(m[1].1) == v && IsLoudAt(v, 0) && |v| == 5 && NeedsNoEscape(v)
    ensures var b := [123] + PrintMembers(m) + [125]; |b| == 45 && IsLoudAt(b, 18)
  {
    FourMembers(m);
    LettersMember(m[0].0, "");
    LettersMember(m[2].0, "");
    LettersMember(m[3].0, "");
    LoudMember(m[1].0, m[1].1, v);
    var m0, m1, m2, m3 := PrintMember(m[0].0, ""), PrintMember(m[1].0, m[1].1), PrintMember(m[2].0, ""), PrintMember(m[3].0, "");
    Quieter(m0, m2, m3);
    Around([123] + m0 + [44], m1, 8, [44] + m2 + [44] + m3 + [125]);
    Nest(m0, m1, m2, m3);
  }

  lemma Quieter(m0: seq<byte>, m2: seq<byte>, m3: seq<byte>)
    requires IsQuiet(m0) && IsQuiet(m2) && IsQuiet(m3)
    ensures IsQuiet([123] + m0 + [44]) && IsQuiet([44] + m2 + [44] + m3 + [125])
  {
  }

  lemma Nest(m0: seq<byte>, m1: seq<byte>, m2: seq<byte>, m3: seq<byte>)
    ensures [123] + (m0 + ([44] + (m1 + ([44] + (m2 + ([44] + m3)))))) + [125]
         == [123] + m0 + [44] + (m1 + ([44] + m2 + [44] + m3 + [125]))
  {
  }

  // ----- its encoding, cut at the separator

  lemma LoudEncoding(b: seq<byte>)
    requires |b| == 45 && IsLoudAt(b, 18)
    ensures |Encode(b)| == 60
    ensures forall i :: 0 <= i < 60 ==> IsDigit(Encode(b)[i]) && (Encode(b)[i] == '-' <==> i == 25 || i == 26)
  {
    EncodeLength(b);
    var v := Sextets(b);
    forall i | 0 <= i < 60 ensures IsDigit(Encode(b)[i]) && (Encode(b)[i] == '-' <==> i == 25 || i == 26) {
      var g := i / 4;
      GroupAt(b, g);
      assert v[i] == v[4 * g..4 * g + 4][i - 4 * g];
      ValueOfDigit(v[i]);
      ValueOfDigit(62);
    }
  }

  /** With one separator and the extension, the pieces come from the bare name. */
  lemma OnlyThePieces(stem: string, name: string, verify: Verifier, lower: Lowering)
    requires IsLowering(lower) && IsStem(stem, verify, lower) && LooksPrinted(name) && !Contains(name, LICENSED)
    ensures FromFileName(stem + (LICENSED + (name + "")) + ".exe", verify, lower) == FromPieces(Split(stem + ("--" + name), "--"), verify)
  {
    assert "" + "" == "";
    AsciiLowered(".exe", lower);
    assert LowerText(".exe", lower) == ".exe";
    NoTail("", lower);
    BodyOfFile(stem, LICENSED, name, "", "", ".exe", lower);
    NameKept(name, "");
    assert Unlicensed("") == "" && name + "" == name;
  }

  lemma FarDashes(name: string)
    requires |name| == 60 && forall i :: 0 <= i < 60 ==> (name[i] == '-' <==> i == 33 || i == 34)
    ensures !Contains(name, LICENSED)
  {
    forall i | 0 <= i <= 60 ensures !(LICENSED <= name[i..]) {
      assert i + 9 < 60 ==> name[i..][0] == name[i] && name[i..][9] == name[i + 9];
      assert LICENSED[0] == '-' && LICENSED[9] == '-';
    }
  }

  lemma CutApart(stem: string, e: string, verify: Verifier, lower: Lowering)
    requires IsLowering(lower) && IsStem(stem, verify, lower) && |e| == 60
    requires forall i :: 0 <= i < 60 ==> IsDigit(e[i]) && (e[i] == '-' <==> i == 25 || i == 26)
    requires LooksPrinted(Reverse(e))
    ensures FromFileName(stem + (LICENSED + (Reverse(e) + "")) + ".exe", verify, lower) == None
  {
    var name := Reverse(e);
    FarDashes(name);
    OnlyThePieces(stem, name, verify, lower);
    TwoHalves(stem, name);
    HalvesFail(stem, name[..33], name[35..], verify);
  }

  lemma HalvesFail(stem: string, y: string, z: string, verify: Verifier)
    requires FromPieces([stem], verify) == None && |y| % 4 == 1 && |z| % 4 == 1
    requires (forall i :: 0 <= i < |y| ==> IsDigit(y[i])) && (forall i :: 0 <= i < |z| ==> IsDigit(z[i]))
    ensures FromPieces([stem, y, z], verify) == None
  {
    HalfFails(y, verify);
    HalfFails(z, verify);
    var pieces := [stem, y, z];
    assert [stem][1..] == [] && pieces[1..] == [y, z] && [y, z][1..] == [z] && [z][1..] == [];
    assert FromPieces([z], verify) == None;
    assert FromPieces([y, z], verify) == None;
  }

  lemma TwoHalves(stem: string, name: string)
    requires ClearStem(stem) && |name| == 60 && forall i :: 0 <= i < 60 ==> (name[i] == '-' <==> i == 33 || i == 34)
    ensures Split(stem + ("--" + name), "--") == [stem, name[..33], name[35..]]
  {
    FirstPiece(stem, name);
    var y, z := name[..33], name[35..];
    assert name == y + "--" + z;
    DashFree(y, "--" + z);
    SplitAt(y, z, "--");
    DashFree(z, "");
    SplitNone(z, "--");
  }

  lemma DashFree(a: string, b: string)
    requires forall i :: 0 <= i < |a| ==> a[i] != '-'
    ensures NoneStartsIn(a, b, "--")
  {
    forall i | 0 <= i < |a| ensures !("--" <= (a + b)[i..]) {
      assert (a + b)[i..][0] == a[i] && "--"[0] == '-';
    }
  }

  /** A text one digit longer than whole groups is no licence. */
  lemma HalfFails(y: string, verify: Verifier)
    requires |y| % 4 == 1 && forall i :: 0 <= i < |y| ==> IsDigit(y[i])
    ensures FromConfigString(Trim(y), verify) == None && '(' !in y
  {
    assert y + "" == y;
    TrimAfter(y, "");
    var r := Reverse(y);
    assert forall i :: 0 <= i < |r| ==> IsDigit(r[i]);
    ShortLastGroup(Values(r));
  }

  // ----- main result

  /** The round trip does not extend to every licence, whatever the stem. */
  lemma FullwidthHostIsLost(stem: string, verify: Verifier, lower: Lowering)
    requires IsLowering(lower) && IsStem(stem, verify, lower)
    ensures var lic := CustomServer("", "s\U{FF01}t", "", "");
            !IsSafe(GenName(lic)) && FromFileName(stem + (LICENSED + GenName(lic)) + ".exe", verify, lower) == None
  {
    var lic := CustomServer("", "s\U{FF01}t", "", "");
    LostLicence(stem, lic, verify, lower);
    assert GenName(lic) + "" == GenName(lic);
  }

  lemma LostLicence(stem: string, lic: CustomServer, verify: Verifier, lower: Lowering)
    requires IsLowering(lower) && IsStem(stem, verify, lower)
    requires lic.key == lic.api == lic.relay == "" && lic.host == "s\U{FF01}t"
    ensures !IsSafe(GenName(lic))
    ensures FromFileName(stem + (LICENSED + (GenName(lic) + "")) + ".exe", verify, lower) == None
  {
    LoudLicence(lic, lic.host, Utf8.Encode(lic.host));
    PrintedLooks(lic);
    LostBytes(stem, Print(lic), verify, lower);
  }

  lemma LoudLicence(lic: CustomServer, host: string, v: seq<byte>)
    requires lic == CustomServer("", host, "", "") && host == "s\U{FF01}t" && v == Utf8.Encode(host)
    ensures |Print(lic)| == 45 && IsLoudAt(Print(lic), 18)
  {
    HostBytes(host);
    MemberNames(lic);
    LoudPrint(Members(lic), v);
  }

  lemma LostBytes(stem: string, b: seq<byte>, verify: Verifier, lower: Lowering)
    requires IsLowering(lower) && IsStem(stem, verify, lower) && |b| == 45 && IsLoudAt(b, 18) && LooksPrinted(Reverse(Encode(b)))
    ensures !IsSafe(Reverse(Encode(b)))
    ensures FromFileName(stem + (LICENSED + (Reverse(Encode(b)) + "")) + ".exe", verify, lower) == None
  {
    LoudEncoding(b);
    CutApart(stem, Encode(b), verify, lower);
    HasDashes(Encode(b));
  }

  lemma HasDashes(e: string)
    requires |e| == 60 && e[25] == '-' && e[26] == '-'
    ensures !IsSafe(Reverse(e))
  {
    var name := Reverse(e);
    assert name[33] == e[26] && name[34] == e[25];
    assert name[33..] == "--" + name[35..];
  }

  lemma HostBytes(s: string)
    requires s == "s\U{FF01}t"
    ensures Utf8.Encode(s) == [0x73, 0xEF, 0xBC, 0x81, 0x74]
  {
    assert s[1..][1..] == "t" && s[1..][1..][1..] == "";
    assert Utf8.EncodeChar(s[1]) == [0xEF, 0xBC, 0x81];
    assert Utf8.Encode("t") == [0x74] + [];
  }
}
