/** Licences carried by the file name of the executable: the printer in
    client/src/naming.rs and the parser in client/src/custom_server.rs. */
module LicenceFile {
  import opened Basics
  import opened Base64Url
  import opened LicenceJson
  import opened Text
  import Utf8

  /** `sign::verify` with the built-in key: the signed message, if there is one. */
  type Verifier = seq<byte> -> Option<seq<byte>>

  const LICENSED := "-licensed-"

  function GenName(lic: CustomServer): string {
    Reverse(Encode(Print(lic)))
  }

  function FromConfigString(s: string, verify: Verifier): Option<CustomServer> {
    match Decode(Reverse(s))
    case None => None
    case Some(data) =>
      match Parse(data)
      case Some(lic) => Some(lic)
      case None =>
        match verify(data)
        case None => None
        case Some(message) => Parse(message)
  }

  /** A text is read as a licence exactly when it is the reversed encoding of
      bytes that are one, or that are none but carry a valid signature of one. */
  lemma ConfigStringExactly(s: string, lic: CustomServer, verify: Verifier)
    ensures FromConfigString(s, verify) == Some(lic)
       <==> exists data :: Reverse(s) == Encode(data)
              && (Parse(data) == Some(lic)
                  || (Parse(data) == None && verify(data).Some? && Parse(verify(data).value) == Some(lic)))
  {
    hide Parse, Encode, Decode;
    forall data ensures Decode(Reverse(s)) == Some(data) <==> Reverse(s) == Encode(data) {
      DecodesExactlyEncodings(Reverse(s), data);
    }
    if Decode(Reverse(s)).Some? { assert Reverse(s) == Encode(Decode(Reverse(s)).value); }
  }

  /** A signed licence is read. */
  lemma SignedIsRead(data: seq<byte>, lic: CustomServer, verify: Verifier)
    requires Parse(data) == None && verify(data).Some? && Parse(verify(data).value) == Some(lic)
    ensures FromConfigString(Reverse(Encode(data)), verify) == Some(lic)
  {
    ReverseTwice(Encode(data));
    ConfigStringExactly(Reverse(Encode(data)), lic, verify);
  }

  /** The text without its last `n` bytes; the code panics inside a character. */
  function DropBytes(s: string, n: nat): Option<string> {
    if n == 0 then Some(s)
    else if s == "" then None
    else
      var width := |Utf8.EncodeChar(s[|s| - 1])|;
      if n < width then None else DropBytes(s[..|s| - 1], n - width)
  }

  /** The text without its first `n` bytes; the code panics inside a character. */
  function SkipBytes(s: string, n: nat): Option<string> {
    if n == 0 then Some(s)
    else if s == "" then None
    else
      var width := |Utf8.EncodeChar(s[0])|;
      if n < width then None else SkipBytes(s[1..], n - width)
  }

  function StripExe(s: string, lower: Lowering): Option<string> {
    var t := LowerText(s, lower);
    if EndsWith(t, ".exe.exe") then DropBytes(s, 8)
    else if EndsWith(t, ".exe") then DropBytes(s, 4)
    else Some(s)
  }

  /** The first of the texts that is a licence. */
  function FirstLicence(texts: seq<string>, verify: Verifier): Option<CustomServer> {
    if texts == [] then None
    else
      match FromConfigString(Trim(texts[0]), verify)
      case Some(lic) => Some(lic)
      case None => FirstLicence(texts[1..], verify)
  }

  /** The first licence among the pieces, each also tried up to its parentheses. */
  function FromPieces(pieces: seq<string>, verify: Verifier): Option<CustomServer> {
    if pieces == [] then None
    else
      match FromConfigString(Trim(pieces[0]), verify)
      case Some(lic) => Some(lic)
      case None =>
        match if '(' in pieces[0] then FirstLicence(Split(pieces[0], "("), verify) else None
        case Some(lic) => Some(lic)
        case None => FromPieces(pieces[1..], verify)
  }

  /** The texts are tried in order, trimmed, and the first licence counts. */
  lemma {:induction false} FirstTextWins(texts: seq<string>, verify: Verifier, k: nat)
    requires k <= |texts| && forall i :: 0 <= i < k ==> FromConfigString(Trim(texts[i]), verify) == None
    requires k < |texts| ==> FromConfigString(Trim(texts[k]), verify).Some?
    ensures FirstLicence(texts, verify) == if k < |texts| then FromConfigString(Trim(texts[k]), verify) else None
    decreases k
  {
    hide FromConfigString, Trim;
    if k > 0 { FirstTextWins(texts[1..], verify, k - 1); }
  }

  /** So are the pieces, each as a whole and then, if there are parentheses, by
      what stands before and behind them. */
  lemma {:induction false} FirstPieceWins(pieces: seq<string>, verify: Verifier, k: nat)
    requires k <= |pieces| && forall i :: 0 <= i < k ==> FromPieces([pieces[i]], verify) == None
    requires k < |pieces| ==> FromPieces([pieces[k]], verify).Some?
    ensures FromPieces(pieces, verify) == if k < |pieces| then FromPieces([pieces[k]], verify) else None
    decreases k
  {
    hide FromPieces;
    if k < |pieces| {
      PieceByPiece(pieces, verify);
      if k > 0 { FirstPieceWins(pieces[1..], verify, k - 1); }
    } else if k > 0 {
      PieceByPiece(pieces, verify);
      FirstPieceWins(pieces[1..], verify, k - 1);
    } else {
      NoPieces(verify);
    }
  }

  lemma NoPieces(verify: Verifier)
    ensures FromPieces([], verify) == None
  {
  }

  lemma PieceByPiece(pieces: seq<string>, verify: Verifier)
    requires pieces != []
    ensures FromPieces(pieces, verify)
         == var first := FromPieces([pieces[0]], verify); if first.Some? then first else FromPieces(pieces[1..], verify)
  {
    assert [pieces[0]][1..] == [];
  }

  lemma OnePiece(p: string, verify: Verifier)
    ensures FromPieces([p], verify) == FirstLicence([p] + (if '(' in p then Split(p, "(") else []), verify)
  {
    assert [p][1..] == [];
    assert ([p] + Split(p, "("))[1..] == Split(p, "(") && ([p] + [])[1..] == [];
  }

  function Unlicensed(s: string): string {
    Replace(Replace(Replace(s, LICENSED + "--", "--"), LICENSED + "-", "--"), LICENSED, "--")
  }

  /** Index of the first occurrence. */
  function Find(s: string, pat: string): (i: nat)
    requires Contains(s, pat)
    ensures i <= |s| && pat <= s[i..]
    ensures forall j :: 0 <= j < i ==> !(pat <= s[j..])
  {
    if pat <= s then assert s[0..] == s; 0
    else
      var k :| 0 <= k <= |s| && pat <= s[k..];
      assert s[1..][k - 1..] == s[k..];
      var i := 1 + Find(s[1..], pat);
      assert forall j :: 0 < j <= i ==> s[j..] == s[1..][j - 1..];
      assert s[0..] == s;
      i
  }

  predicate HasLabel(text: string, tag: string, lower: Lowering) {
    tag <= LowerText(text, lower)
  }

  /** `chars().skip(n)` */
  function SkipChars(s: string, n: nat): string {
    if n <= |s| then s[n..] else ""
  }

  /** One comma-separated part of the plain form, overriding what came before. */
  function WithPart(lic: CustomServer, part: string, lower: Lowering): CustomServer {
    var l1 := if HasLabel(part, "host=", lower) then lic.(host := SkipChars(part, 5)) else lic;
    var l2 := if HasLabel(part, "key=", lower) then l1.(key := SkipChars(part, 4)) else l1;
    var l3 := if HasLabel(part, "api=", lower) then l2.(api := SkipChars(part, 4)) else l2;
    if HasLabel(part, "relay=", lower) then l3.(relay := SkipChars(part, 6)) else l3
  }

  function WithParts(lic: CustomServer, parts: seq<string>, lower: Lowering): CustomServer
    decreases |parts|
  {
    if parts == [] then lic else WithParts(WithPart(lic, parts[0], lower), parts[1..], lower)
  }

  const BLANK := CustomServer("", "", "", "")

  /** From `host=` on, which is looked for in the lower-cased text: the place
      found there, in bytes, is where the text itself is cut. */
  function FromHostForm(s: string, lower: Lowering): Option<CustomServer>
    requires Contains(LowerText(s, lower), "host=")
  {
    var t := LowerText(s, lower);
    match SkipBytes(s, |Utf8.Encode(t[..Find(t, "host=")])|)
    case None => None
    case Some(stripped) => Some(WithParts(BLANK, Split(stripped, ","), lower))
  }

  /** What a file name says; nothing also if the code panics. */
  function FromFileName(name: string, verify: Verifier, lower: Lowering): Option<CustomServer> {
    match StripExe(name, lower)
    case None => None
    case Some(s) =>
      if Contains(LowerText(s, lower), "host=") then FromHostForm(s, lower)
      else FromPieces(Split(Unlicensed(s), "--"), verify)
  }

  // ----- the parser as it is written, with its loops and early returns

  method HostParts(parts: seq<string>, lower: Lowering) returns (lic: CustomServer)
    ensures lic == WithParts(BLANK, parts, lower)
  {
    var host, key, api, relay := "", "", "", "";
    for i := 0 to |parts|
      invariant WithParts(CustomServer(key, host, api, relay), parts[i..], lower) == WithParts(BLANK, parts, lower)
    {
      var part := parts[i];
      ghost var before := CustomServer(key, host, api, relay);
      if HasLabel(part, "host=", lower) { host := SkipChars(part, 5); }
      if HasLabel(part, "key=", lower) { key := SkipChars(part, 4); }
      if HasLabel(part, "api=", lower) { api := SkipChars(part, 4); }
      if HasLabel(part, "relay=", lower) { relay := SkipChars(part, 6); }
      assert WithPart(before, part, lower) == CustomServer(key, host, api, relay);
    }
    return CustomServer(key, host, api, relay);
  }

  method FirstOf(texts: seq<string>, verify: Verifier) returns (lic: Option<CustomServer>)
    ensures lic == FirstLicence(texts, verify)
  {
    for i := 0 to |texts|
      invariant FirstLicence(texts, verify) == FirstLicence(texts[i..], verify)
    {
      lic := FromConfigString(Trim(texts[i]), verify);
      if lic.Some? { return; }
    }
    return None;
  }

  method ParseFileName(name: string, verify: Verifier, lower: Lowering) returns (lic: Option<CustomServer>)
    ensures lic == FromFileName(name, verify, lower)
  {
    var stripped := StripExe(name, lower);
    if stripped == None {
      return None;
    }
    var s := stripped.value;
    var t := LowerText(s, lower);
    if Contains(t, "host=") {
      var rest := SkipBytes(s, |Utf8.Encode(t[..Find(t, "host=")])|);
      if rest == None {
        return None;
      }
      var fields := HostParts(Split(rest.value, ","), lower);
      return Some(fields);
    }
    s := Replace(s, LICENSED + "--", "--");
    s := Replace(s, LICENSED + "-", "--");
    s := Replace(s, LICENSED, "--");
    var pieces := Split(s, "--");
    for i := 0 to |pieces|
      invariant FromPieces(pieces, verify) == FromPieces(pieces[i..], verify)
    {
      lic := FromConfigString(Trim(pieces[i]), verify);
      if lic.Some? { return; }
      if '(' in pieces[i] {
        lic := FirstOf(Split(pieces[i], "("), verify);
        if lic.Some? { return; }
      }
    }
    return None;
  }
}
