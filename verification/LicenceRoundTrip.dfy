/** A licence printed into a file name is read back from it. */
module LicenceRoundTrip {
  import opened Basics
  import opened Base64Url
  import opened LicenceJson
  import opened Text
  import opened LicenceFile

  // ----- what a printed licence looks like

  /** Neither of the texts the parser cuts at occurs in the name. */
  predicate IsSafe(name: string) {
    !Contains(name, "--") && !Contains(name, LICENSED)
  }

  ghost predicate LooksPrinted(name: string) {
    |name| >= 4 && name[0] in {'9', 'Q', '0'} && name[|name| - 2] == 'y' && name[|name| - 1] == 'e'
    && forall i :: 0 <= i < |name| ==> IsDigit(name[i])
  }

  lemma BracedLooks(b: seq<byte>)
    requires |b| >= 3 && b[0] == 123 && b[1] == 34 && b[|b| - 1] == 125
    ensures LooksPrinted(Reverse(Encode(b)))
  {
    LastDigitOfBrace(b);
    var v := Sextets(b);
    assert |v| >= 4 && v[0] == 30 && v[1] == 50;
    forall i | 0 <= i < |v| ensures IsDigit(Encode(b)[i]) { ValueOfDigit(v[i]); }
  }

  lemma PrintedLooks(lic: CustomServer)
    ensures LooksPrinted(GenName(lic))
  {
    PrintedEnds(lic);
    BracedLooks(Print(lic));
  }

  /** `-` occurs in the name only at distances that are multiples of four. */
  lemma DashesAreSpaced(b: seq<byte>, i: nat)
    requires IsAscii(b) && i < |Encode(b)| && Reverse(Encode(b))[i] == '-'
    ensures (|Encode(b)| - 1 - i) % 4 == 3
  {
    DashClosesGroup(b, |Encode(b)| - 1 - i);
  }

  lemma SpacedIsSafe(name: string)
    requires forall i :: 0 <= i < |name| && name[i] == '-' ==> (|name| - 1 - i) % 4 == 3
    ensures IsSafe(name)
  {
    forall i | 0 <= i <= |name| ensures !("--" <= name[i..]) {
      assert i + 1 < |name| ==> name[i..][0] == name[i] && name[i..][1] == name[i + 1];
    }
    forall i | 0 <= i <= |name| ensures !(LICENSED <= name[i..]) {
      assert i + 9 < |name| ==> name[i..][0] == name[i] && name[i..][9] == name[i + 9];
      assert LICENSED[0] == '-' && LICENSED[9] == '-';
    }
  }

  lemma AsciiBytesAreSafe(b: seq<byte>)
    requires IsAscii(b)
    ensures IsSafe(Reverse(Encode(b)))
  {
    var name := Reverse(Encode(b));
    forall i | 0 <= i < |name| && name[i] == '-' ensures (|name| - 1 - i) % 4 == 3 {
      DashesAreSpaced(b, i);
    }
    SpacedIsSafe(name);
  }

  lemma AsciiIsSafe(lic: CustomServer)
    requires IsAsciiLicence(lic)
    ensures IsSafe(GenName(lic))
  {
    PrintedIsAscii(lic);
    AsciiBytesAreSafe(Print(lic));
  }

  lemma NameDecodes(lic: CustomServer, verify: Verifier)
    ensures FromConfigString(GenName(lic), verify) == Some(lic)
  {
    ReverseTwice(Encode(Print(lic)));
    DecodesExactlyEncodings(Encode(Print(lic)), Print(lic));
    ParsePrint(lic);
  }

  // ----- rewriting to `--`

  /** Neither separator can start in the stem if a dash follows it. */
  predicate ClearStem(stem: string) {
    IsSafe(stem + "-")
  }

  lemma StemStartsNone(stem: string, rest: string, pat: string)
    requires ClearStem(stem) && rest != "" && rest[0] == '-' && (LICENSED <= pat || pat == "--")
    ensures NoneStartsIn(stem, rest, pat)
  {
    var t := stem + "-";
    forall i | 0 <= i < |stem| ensures !(pat <= (stem + rest)[i..]) {
      var s, k := (stem + rest)[i..], |stem| - i;
      assert !("--" <= t[i..]) && !(LICENSED <= t[i..]);
      assert s[k] == '-' && t[i..] == s[..k + 1];
      assert forall m :: 0 < m < 9 ==> LICENSED[m] != '-';
    }
  }

  lemma NoDashNoStart(a: string, b: string, pat: string)
    requires '-' !in a && pat != "" && pat[0] == '-'
    ensures NoneStartsIn(a, b, pat)
  {
    assert forall i :: 0 <= i < |a| ==> (a + b)[i..][0] == a[i];
  }

  /** No `-licensed-` starts in the name, whatever follows it. */
  lemma NotLicensedInside(name: string, tail: string, pat: string)
    requires LooksPrinted(name) && !Contains(name, LICENSED) && LICENSED <= pat
    ensures NoneStartsIn(name, tail, pat)
  {
    var n := |name|;
    forall i | 0 <= i < n ensures !(pat <= (name + tail)[i..]) {
      var s, k := (name + tail)[i..], n - 1 - i;
      assert name[i..] <= s && !(LICENSED <= name[i..]);
      assert s[k] == name[n - 1] == 'e' && (k >= 1 ==> s[k - 1] == name[n - 2] == 'y');
      assert forall j :: 0 <= j < 10 && LICENSED[j] == 'e' ==> j >= 1 && LICENSED[j - 1] != 'y';
    }
  }

  /** What stands behind a separator starts with a digit, and still does after a pass. */
  predicate StartsPrinted(rest: string) {
    rest != "" && rest[0] in {'9', 'Q', '0'}
  }

  /** The next longer pattern does not match a separator. */
  lemma LongerDoesNotMatch(sep: string, rest: string, pat: string)
    requires StartsPrinted(rest) && LICENSED <= pat
    requires sep == "--" || (LICENSED <= sep && sep < pat && pat[|sep|] == '-' && (forall i :: 10 <= i < |sep| ==> sep[i] == '-'))
    ensures NoneStartsIn(sep, rest, pat)
  {
    assert LICENSED[0] == '-' && LICENSED[1] == 'l';
    forall i | 0 <= i < |sep| ensures !(pat <= (sep + rest)[i..]) {
      var s := (sep + rest)[i..];
      if i == 0 {
        assert s[|sep|] == rest[0];
      } else {
        assert s[0] == sep[i] && s[1] == (sep + rest)[i + 1];
        assert i + 1 == |sep| ==> s[1] == rest[0];
        assert LICENSED <= sep ==> forall j :: 0 <= j < 10 ==> sep[j] == LICENSED[j];
      }
    }
  }

  /** One of the three passes over a file name whose separator it does not match. */
  lemma PassOver(stem: string, sep: string, rest: string, pat: string)
    requires ClearStem(stem) && StartsPrinted(rest) && LICENSED <= pat
    requires sep == "--" || (LICENSED <= sep && sep < pat && pat[|sep|] == '-' && (forall i :: 10 <= i < |sep| ==> sep[i] == '-'))
    ensures Replace(stem + (sep + rest), pat, "--") == stem + (sep + Replace(rest, pat, "--")) && StartsPrinted(Replace(rest, pat, "--"))
  {
    hide ClearStem, NoneStartsIn;
    assert LICENSED[0] == '-' && pat[0] == '-';
    StemStartsNone(stem, sep + rest, pat);
    ReplaceSkips(stem, sep + rest, pat, "--");
    LongerDoesNotMatch(sep, rest, pat);
    ReplaceSkips(sep, rest, pat, "--");
  }

  /** The pass that matches the separator. */
  lemma PassHit(stem: string, rest: string, pat: string)
    requires ClearStem(stem) && StartsPrinted(rest) && LICENSED <= pat
    ensures Replace(stem + (pat + rest), pat, "--") == stem + ("--" + Replace(rest, pat, "--")) && StartsPrinted(Replace(rest, pat, "--"))
  {
    assert LICENSED[0] == '-' && pat[0] == '-';
    StemStartsNone(stem, pat + rest, pat);
    ReplaceSkips(stem, pat + rest, pat, "--");
    ReplaceHit(rest, pat, "--");
  }

  predicate IsSeparator(sep: string) {
    sep in {"--", LICENSED, LICENSED + "-", LICENSED + "--"}
  }

  /** Every form of the separator becomes `--`, and the stem is left alone. */
  lemma SeparatorsUnified(stem: string, sep: string, rest: string)
    requires ClearStem(stem) && StartsPrinted(rest) && IsSeparator(sep)
    ensures Unlicensed(stem + (sep + rest)) == stem + ("--" + Unlicensed(rest))
  {
    var p1, p2, p3 := LICENSED + "--", LICENSED + "-", LICENSED;
    var r1 := Replace(rest, p1, "--");
    var r2 := Replace(r1, p2, "--");
    if sep == p1 { PassHit(stem, rest, p1); } else { PassOver(stem, sep, rest, p1); }
    var sep1 := if sep == p1 then "--" else sep;
    if sep1 == p2 { PassHit(stem, r1, p2); } else { PassOver(stem, sep1, r1, p2); }
    var sep2 := if sep1 == p2 then "--" else sep1;
    if sep2 == p3 { PassHit(stem, r2, p3); } else { PassOver(stem, sep2, r2, p3); }
  }

  /** The passes leave the name of a licence alone if it contains no `-licensed-`. */
  lemma NameKept(name: string, tail: string)
    requires LooksPrinted(name) && !Contains(name, LICENSED)
    ensures Unlicensed(name + tail) == name + Unlicensed(tail)
  {
    var p1, p2, p3 := LICENSED + "--", LICENSED + "-", LICENSED;
    var t1 := Replace(tail, p1, "--");
    var t2 := Replace(t1, p2, "--");
    NotLicensedInside(name, tail, p1);
    ReplaceSkips(name, tail, p1, "--");
    NotLicensedInside(name, t1, p2);
    ReplaceSkips(name, t1, p2, "--");
    NotLicensedInside(name, t2, p3);
    ReplaceSkips(name, t2, p3, "--");
  }

  // ----- what may follow the name

  /** What Windows adds to a copy: nothing, or spaces and something in parentheses. */
  predicate IsRenameSuffix(u: string) {
    '-' !in u && exists k :: 0 <= k <= |u| && IsSpacedUpTo(u, k)
  }

  predicate IsSpacedUpTo(u: string, k: nat)
    requires k <= |u|
  {
    (forall i :: 0 <= i < k ==> IsSpace(u[i])) && (k < |u| ==> u[k] == '(')
  }

  predicate IsMore(more: string) {
    more == "" || "--" <= more
  }

  lemma DashesStay(more: string, pat: string)
    requires IsMore(more) && LICENSED <= pat
    ensures IsMore(Replace(more, pat, "--"))
  {
    assert pat[0] == LICENSED[0] == '-' && pat[1] == LICENSED[1] == 'l';
    if more != "" {
      assert more[1..][0] == '-';
    }
  }

  lemma TailKept(u: string, more: string)
    requires '-' !in u && IsMore(more)
    ensures exists more' :: IsMore(more') && Unlicensed(u + more) == u + more'
  {
    var p1, p2, p3 := LICENSED + "--", LICENSED + "-", LICENSED;
    var m1 := Replace(more, p1, "--");
    var m2 := Replace(m1, p2, "--");
    NoDashNoStart(u, more, p1);
    ReplaceSkips(u, more, p1, "--");
    DashesStay(more, p1);
    NoDashNoStart(u, m1, p2);
    ReplaceSkips(u, m1, p2, "--");
    DashesStay(m1, p2);
    NoDashNoStart(u, m2, p3);
    ReplaceSkips(u, m2, p3, "--");
    DashesStay(m2, p3);
  }

  // ----- splitting and trying the pieces

  lemma NoDashesInside(name: string, u: string, rest: string)
    requires LooksPrinted(name) && !Contains(name, "--") && '-' !in u
    ensures NoneStartsIn(name + u, rest, "--")
  {
    var s := name + u + rest;
    forall i | 0 <= i < |name + u| ensures !("--" <= s[i..]) {
      assert s[i..][0] == s[i];
      assert i + 1 < |s| ==> s[i..][1] == s[i + 1];
      assert i < |name| ==> !("--" <= name[i..]);
      assert i + 1 < |name| ==> name[i..] == [name[i], name[i + 1]] + name[i + 2..];
    }
  }

  lemma FirstPiece(stem: string, rest: string)
    requires ClearStem(stem)
    ensures Split(stem + ("--" + rest), "--") == [stem] + Split(rest, "--")
  {
    StemStartsNone(stem, "--" + rest, "--");
    assert stem + ("--" + rest) == stem + "--" + rest;
    SplitAt(stem, rest, "--");
  }

  lemma SecondPiece(name: string, u: string, more: string)
    requires LooksPrinted(name) && !Contains(name, "--") && '-' !in u && IsMore(more)
    ensures Split(name + (u + more), "--")[0] == name + u
  {
    if more == "" {
      NoDashesInside(name, u, "");
      SplitNone(name + u, "--");
      assert name + (u + more) == name + u;
    } else {
      NoDashesInside(name, u, "--" + more[2..]);
      SplitAt(name + u, more[2..], "--");
      assert name + (u + more) == name + u + "--" + more[2..];
    }
  }

  lemma PiecesOf(stem: string, name: string, u: string, more: string)
    requires ClearStem(stem) && LooksPrinted(name) && !Contains(name, "--") && '-' !in u && IsMore(more)
    ensures var pieces := Split(stem + ("--" + (name + (u + more))), "--");
            |pieces| >= 2 && pieces[0] == stem && pieces[1] == name + u
  {
    FirstPiece(stem, name + (u + more));
    SecondPiece(name, u, more);
  }

  lemma NotADigit(s: string, verify: Verifier)
    requires '(' in s
    ensures FromConfigString(s, verify) == None
  {
    var i :| 0 <= i < |s| && s[i] == '(';
    assert !IsDigit(Reverse(s)[|s| - 1 - i]);
  }

  lemma {:induction false} TrimEndKeeps(s: string, i: nat)
    requires i < |s| && !IsSpace(s[i])
    ensures s[i] in TrimEnd(s)
  {
    if IsSpace(s[|s| - 1]) { TrimEndKeeps(s[..|s| - 1], i); }
  }

  lemma {:induction false} TrimKeeps(s: string, i: nat)
    requires i < |s| && !IsSpace(s[i])
    ensures s[i] in Trim(s)
  {
    if IsSpace(s[0]) { TrimKeeps(s[1..], i - 1); } else { TrimEndKeeps(s, i); }
  }

  lemma RenamedPieceFound(name: string, lic: CustomServer, spaces: string, z: string, pieces: seq<string>, verify: Verifier)
    requires LooksPrinted(name) && FromConfigString(name, verify) == Some(lic)
    requires (forall c :: c in spaces ==> IsSpace(c)) && pieces != [] && pieces[0] == name + spaces + "(" + z
    ensures FromPieces(pieces, verify) == Some(lic)
  {
    var front := name + spaces;
    TrimAfter(name, spaces);
    TrimKeeps(pieces[0], |front|);
    NotADigit(Trim(pieces[0]), verify);
    assert '(' !in front;
    assert "("[0] == '(';
    forall i | 0 <= i < |front| ensures !("(" <= (front + ("(" + z))[i..]) {
      assert (front + ("(" + z))[i..][0] == front[i] && front[i] in front;
    }
    SplitAt(front, z, "(");
  }

  /** The piece that holds the name yields the licence, renamed or not. */
  lemma NamePieceFound(name: string, lic: CustomServer, u: string, pieces: seq<string>, verify: Verifier)
    requires LooksPrinted(name) && FromConfigString(name, verify) == Some(lic)
    requires pieces != [] && pieces[0] == name + u && IsRenameSuffix(u)
    ensures FromPieces(pieces, verify) == Some(lic)
  {
    var k :| 0 <= k <= |u| && IsSpacedUpTo(u, k);
    if k == |u| {
      PlainPieceFound(name, lic, u, pieces, verify);
    } else {
      OpensAt(name, u, k);
      RenamedPieceFound(name, lic, u[..k], u[k + 1..], pieces, verify);
    }
  }

  lemma PlainPieceFound(name: string, lic: CustomServer, spaces: string, pieces: seq<string>, verify: Verifier)
    requires LooksPrinted(name) && FromConfigString(name, verify) == Some(lic)
    requires (forall i :: 0 <= i < |spaces| ==> IsSpace(spaces[i])) && pieces != [] && pieces[0] == name + spaces
    ensures FromPieces(pieces, verify) == Some(lic)
  {
    TrimAfter(name, spaces);
  }

  lemma OpensAt(name: string, u: string, k: nat)
    requires k < |u| && u[k] == '('
    ensures name + u == name + u[..k] + "(" + u[k + 1..]
  {
  }

  /** Six bytes that are neither JSON nor long enough to be signed. */
  lemma ProductIsNoLicence(stem: string, verify: Verifier)
    requires stem == "rustdesk" && IsSigning(verify)
    ensures FromConfigString(Trim(stem), verify) == None && '(' !in stem
  {
    assert stem + "" == stem;
    TrimAfter(stem, "");
    var e := Reverse(stem);
    assert e[0] == 'k' && e[1] == 's' && |e| == 8;
    assert forall i :: 0 <= i < |e| ==> IsDigit(e[i]);
    var v := Values(e);
    assert v[0] == 36 && v[1] == 44;
    if Bytes(v).Some? {
      ShortBytes(v);
      assert Bytes(v).value[0] == 146;
    }
  }

  /** A signed message is the message behind 64 bytes of signature. */
  ghost predicate IsSigning(verify: Verifier) {
    forall d :: verify(d).Some? ==> |d| == |verify(d).value| + 64
  }

  lemma {:induction false} ShortBytes(v: seq<sextet>)
    requires Bytes(v).Some?
    ensures |Bytes(v).value| <= |v|
  {
    if |v| >= 4 { ShortBytes(v[4..]); }
  }

  // ----- the extension and the form of the name

  predicate IsExtension(ext: string, lower: Lowering) {
    LowerText(ext, lower) in {"", ".exe", ".exe.exe"}
  }

  lemma {:induction false} BytesDropped(s: string, t: string)
    requires forall c :: c in t ==> IsAsciiChar(c)
    ensures DropBytes(s + t, |t|) == Some(s)
  {
    if t == "" {
      assert s + t == s;
    } else {
      var n := |t| - 1;
      assert (s + t)[..|s + t| - 1] == s + t[..n] && (s + t)[|s + t| - 1] == t[n];
      assert t[n] in t && |t| - 1 == |t[..n]|;
      BytesDropped(s, t[..n]);
    }
  }

  /** An extension is as many bytes as its lower case. */
  lemma ExtensionDropped(s: string, ext: string, lower: Lowering)
    requires IsLowering(lower) && LowerText(ext, lower) in {".exe", ".exe.exe"}
    ensures DropBytes(s + ext, |LowerText(ext, lower)|) == Some(s)
  {
    LoweredFromAscii(ext, lower);
    AsciiLowered(ext, lower);
    BytesDropped(s, ext);
  }

  lemma EndsOfConcat(a: string, b: string, ext: string)
    requires |b| >= |ext|
    ensures EndsWith(a + b, ext) <==> EndsWith(b, ext)
  {
    assert (a + b)[|a + b| - |ext|..] == b[|b| - |ext|..];
  }

  lemma EndsTwice(t: string, ext: string)
    ensures EndsWith(t, ext + ext) ==> EndsWith(t, ext)
  {
    if EndsWith(t, ext + ext) {
      assert t[|t| - |ext|..] == t[|t| - |ext + ext|..][|ext|..] == (ext + ext)[|ext|..];
    }
  }

  /** Without an extension before it, one extension is not two. */
  lemma EndsOnce(t: string, ext: string)
    requires !EndsWith(t, ext)
    ensures !EndsWith(t + ext, ext + ext)
  {
    var s := t + ext;
    assert |s| >= |ext + ext| ==> s[|s| - |ext + ext|..][..|ext|] == t[|t| - |ext|..];
    assert (ext + ext)[..|ext|] == ext;
  }

  lemma ExtensionStripped(s: string, ext: string, lower: Lowering)
    requires IsLowering(lower) && !EndsWith(LowerText(s, lower), ".exe") && IsExtension(ext, lower)
    ensures StripExe(s + ext, lower) == Some(s)
  {
    hide LowerText, DropBytes, EndsWith;
    var t, e := LowerText(s, lower), LowerText(ext, lower);
    LowerConcat(s, ext, lower);
    TwoExtensions();
    if e == "" {
      LowerIsNoShorter(ext, lower);
      assert s + ext == s;
      EndsTwice(t, ".exe");
    } else {
      ExtensionDropped(s, ext, lower);
      EndsOfConcat(t, e, e);
      EndsItself(e);
      EndsOnce(t, ".exe");
    }
  }

  lemma TwoExtensions()
    ensures ".exe" + ".exe" == ".exe.exe" && |".exe"| == 4 && |".exe.exe"| == 8
  {
  }

  lemma EndsItself(e: string)
    ensures EndsWith(e, e)
  {
    assert e[0..] == e;
  }

  /** The characters of a name before a short tail are no extension. */
  lemma EndsInTail(front: string, name: string, tail: string, lower: Lowering)
    requires IsLowering(lower) && LooksPrinted(name) && !EndsWith(LowerText(tail, lower), ".exe")
    ensures !EndsWith(LowerText(front + name + tail, lower), ".exe")
  {
    var f, n, t := LowerText(front, lower), LowerText(name, lower), LowerText(tail, lower);
    LowerConcat(front + name, tail, lower);
    LowerConcat(front, name, lower);
    AsciiLowered(name, lower);
    var s := f + n + t;
    if |t| >= 4 {
      EndsOfConcat(f + n, t, ".exe");
    } else {
      assert s[|s| - 4..][0] == s[|s| - 4] == n[|n| + |t| - 4] == LowerChar(name[|n| + |t| - 4]);
    }
  }

  /** No match crosses from `a` to `b` if it cannot contain the first character of `b`. */
  lemma NothingCrosses(a: string, b: string, pat: string)
    requires !Contains(a, pat) && !Contains(b, pat) && (b == "" || b[0] !in pat)
    ensures !Contains(a + b, pat)
  {
    forall i | 0 <= i <= |a + b| ensures !(pat <= (a + b)[i..]) {
      var s := (a + b)[i..];
      if i >= |a| {
        assert s == b[i - |a|..];
      } else {
        var k := |a| - i;
        assert s[..k] == a[i..] && !(pat <= a[i..]);
        assert b != "" ==> s[k] == b[0];
      }
    }
  }

  lemma NoEquals(s: string, lower: Lowering)
    requires IsLowering(lower) && '=' !in s
    ensures !Contains(LowerText(s, lower), "host=")
  {
    var t := LowerText(s, lower);
    NotInLowered(s, '=', lower);
    forall i | 0 <= i <= |t| ensures !("host=" <= t[i..]) {
      assert i + 4 < |t| ==> t[i..][4] == t[i + 4];
    }
  }

  /** A tail starts with nothing that `host=` contains, also in lower case. */
  lemma LoweredTail(tail: string, lower: Lowering)
    requires IsLowering(lower) && tail != "" && (IsSpace(tail[0]) || tail[0] in {'(', '-'})
    ensures LowerText(tail, lower) != "" && LowerText(tail, lower)[0] !in "host="
  {
    var first := lower(tail[0]);
    assert first[0] in first && LowerText(tail, lower)[0] == first[0];
    assert forall c :: c in "host=" ==> IsAsciiChar(c) && c != 'i' && c != 'k' && !IsSpace(c) && c !in {'(', '-'};
    assert IsAsciiChar(tail[0]) ==> first[0] == LowerChar(tail[0]) == tail[0];
  }

  lemma NothingLowered(lower: Lowering)
    ensures LowerText("", lower) == ""
  {
  }

  lemma FirstStays(a: string, b: string)
    requires a != ""
    ensures (a + b)[0] == a[0]
  {
  }

  /** A file name whose stem and tail do not look like the plain form does not either. */
  lemma NotHostForm(stem: string, sep: string, name: string, tail: string, lower: Lowering)
    requires IsLowering(lower) && IsSeparator(sep) && LooksPrinted(name) && (tail == "" || IsSpace(tail[0]) || tail[0] in {'(', '-'})
    requires !Contains(LowerText(stem, lower), "host=") && !Contains(LowerText(tail, lower), "host=")
    ensures !Contains(LowerText(stem + (sep + (name + tail)), lower), "host=")
  {
    hide LowerText, Contains;
    var middle := sep + name;
    var l, m, t := LowerText(stem, lower), LowerText(middle, lower), LowerText(tail, lower);
    assert '=' !in middle && middle[0] == '-';
    NoEquals(middle, lower);
    LoweredTail(middle, lower);
    if tail == "" { NothingLowered(lower); } else { LoweredTail(tail, lower); }
    NothingCrosses(m, t, "host=");
    LowerConcat(middle, tail, lower);
    FirstStays(m, t);
    NothingCrosses(l, m + t, "host=");
    LowerConcat(stem, middle + tail, lower);
    assert sep + (name + tail) == middle + tail;
  }

  // ----- main results

  /** What may stand before the separator: nothing that the parser would cut,
      take for the plain form or read as a licence. */
  predicate IsStem(stem: string, verify: Verifier, lower: Lowering) {
    ClearStem(stem) && !Contains(LowerText(stem, lower), "host=") && FromPieces([stem], verify) == None
  }

  /** What may follow the name. */
  predicate IsTail(u: string, more: string, lower: Lowering) {
    IsRenameSuffix(u) && IsMore(more) && !Contains(LowerText(u + more, lower), "host=") && !EndsWith(LowerText(u + more, lower), ".exe")
  }

  lemma NoTail(u: string, lower: Lowering)
    requires u == "" && IsLowering(lower)
    ensures IsTail(u, u, lower)
  {
    assert IsSpacedUpTo(u, 0);
    assert u + u == u && |LowerText(u, lower)| == 0 && |".exe"| == 4;
    NoEquals(u, lower);
  }

  lemma TailStarts(u: string, more: string)
    requires IsRenameSuffix(u) && IsMore(more)
    ensures var tail := u + more; tail == "" || IsSpace(tail[0]) || tail[0] in {'(', '-'}
  {
    assert more != "" ==> more[0] == "--"[0] == '-';
  }

  lemma PiecesOfFile(stem: string, sep: string, name: string, u: string, more: string, ext: string, lower: Lowering)
    requires IsLowering(lower) && ClearStem(stem) && !Contains(LowerText(stem, lower), "host=") && LooksPrinted(name) && IsSafe(name)
    requires IsSeparator(sep) && IsTail(u, more, lower) && IsExtension(ext, lower)
    ensures StripExe(stem + (sep + (name + (u + more))) + ext, lower).Some?
    ensures var s := StripExe(stem + (sep + (name + (u + more))) + ext, lower).value;
            && !Contains(LowerText(s, lower), "host=")
            && var pieces := Split(Unlicensed(s), "--");
               |pieces| >= 2 && pieces[0] == stem && pieces[1] == name + u
  {
    BodyOfFile(stem, sep, name, u, more, ext, lower);
    NameKept(name, u + more);
    TailKept(u, more);
    var more' :| IsMore(more') && Unlicensed(u + more) == u + more';
    PiecesOf(stem, name, u, more');
  }

  /** Whatever the name, the extension goes and the separator becomes `--`. */
  lemma BodyOfFile(stem: string, sep: string, name: string, u: string, more: string, ext: string, lower: Lowering)
    requires IsLowering(lower) && ClearStem(stem) && !Contains(LowerText(stem, lower), "host=") && LooksPrinted(name)
    requires IsSeparator(sep) && IsTail(u, more, lower) && IsExtension(ext, lower)
    ensures StripExe(stem + (sep + (name + (u + more))) + ext, lower).Some?
    ensures var s := StripExe(stem + (sep + (name + (u + more))) + ext, lower).value;
            && !Contains(LowerText(s, lower), "host=") && Unlicensed(s) == stem + ("--" + Unlicensed(name + (u + more)))
  {
    var s := stem + (sep + (name + (u + more)));
    assert s == stem + sep + name + (u + more);
    EndsInTail(stem + sep, name, u + more, lower);
    ExtensionStripped(s, ext, lower);
    TailStarts(u, more);
    NotHostForm(stem, sep, name, u + more, lower);
    SeparatorsUnified(stem, sep, name + (u + more));
  }

  lemma TryPieces(stem: string, name: string, lic: CustomServer, u: string, pieces: seq<string>, verify: Verifier)
    requires LooksPrinted(name) && FromConfigString(name, verify) == Some(lic) && FromPieces([stem], verify) == None
    requires |pieces| >= 2 && pieces[0] == stem && pieces[1] == name + u && IsRenameSuffix(u)
    ensures FromPieces(pieces, verify) == Some(lic)
  {
    NamePieceFound(name, lic, u, pieces[1..], verify);
  }

  /** `rustdesk` is such a stem. */
  lemma ProductIsStem(stem: string, verify: Verifier, lower: Lowering)
    requires stem == "rustdesk" && IsSigning(verify) && IsLowering(lower)
    ensures IsStem(stem, verify, lower)
  {
    ProductIsNoLicence(stem, verify);
    DashesEnd(stem);
    NoEquals(stem, lower);
  }

  lemma DashesEnd(stem: string)
    requires '-' !in stem
    ensures ClearStem(stem)
  {
    var t := stem + "-";
    forall i | 0 <= i <= |t| ensures !("--" <= t[i..]) && !(LICENSED <= t[i..]) {
      assert i < |t| ==> t[i..][0] == t[i];
      assert LICENSED[0] == '-' && |LICENSED| == 10 && "--"[0] == '-';
    }
  }

  /** Behind any of the separators, before any rename suffix and further `--`
      parts, and with or without the extension, a safe name is read back. */
  lemma SafeNameRoundTrip(lic: CustomServer, stem: string, sep: string, u: string, more: string, ext: string, verify: Verifier, lower: Lowering)
    requires IsLowering(lower) && IsSafe(GenName(lic)) && IsStem(stem, verify, lower)
    requires IsSeparator(sep) && IsTail(u, more, lower) && IsExtension(ext, lower)
    ensures FromFileName(stem + (sep + (GenName(lic) + (u + more))) + ext, verify, lower) == Some(lic)
  {
    var name := GenName(lic);
    PrintedLooks(lic);
    NameDecodes(lic, verify);
    PiecesOfFile(stem, sep, name, u, more, ext, lower);
    var pieces := Split(Unlicensed(StripExe(stem + (sep + (name + (u + more))) + ext, lower).value), "--");
    TryPieces(stem, name, lic, u, pieces, verify);
  }

  /** For every licence of ASCII text. */
  lemma AsciiLicenceRoundTrip(lic: CustomServer, stem: string, sep: string, u: string, more: string, ext: string, verify: Verifier, lower: Lowering)
    requires IsLowering(lower) && IsAsciiLicence(lic) && IsStem(stem, verify, lower)
    requires IsSeparator(sep) && IsTail(u, more, lower) && IsExtension(ext, lower)
    ensures FromFileName(stem + (sep + (GenName(lic) + (u + more))) + ext, verify, lower) == Some(lic)
  {
    AsciiIsSafe(lic);
    SafeNameRoundTrip(lic, stem, sep, u, more, ext, verify, lower);
  }
}
