/** The string operations of the Rust standard library that the modelled code
    calls: `replace`, `split`, `trim`, `to_lowercase` and reversal, together
    with the facts about them that hold wherever the match can only start in a
    known part of the text. */
module Text {

  /** Whether `pat` occurs anywhere in `s`. */
  predicate Contains(s: string, pat: string) {
    exists i :: 0 <= i <= |s| && pat <= s[i..]
  }

  /** No occurrence of `pat` in `a + b` starts inside `a`. */
  ghost predicate NoneStartsIn(a: string, b: string, pat: string) {
    forall i :: 0 <= i < |a| ==> !(pat <= (a + b)[i..])
  }

  /** `str::replace`: leftmost, non-overlapping. */
  function Replace(s: string, pat: string, sub: string): string
    requires pat != ""
  {
    if s == "" then ""
    else if pat <= s then sub + Replace(s[|pat|..], pat, sub)
    else [s[0]] + Replace(s[1..], pat, sub)
  }

  /** `str::split`: leftmost, non-overlapping, empty pieces kept. */
  function Split(s: string, sep: string): (pieces: seq<string>)
    requires sep != ""
    ensures pieces != []
  {
    if s == "" then [""]
    else if sep <= s then [""] + Split(s[|sep|..], sep)
    else var rest := Split(s[1..], sep); [[s[0]] + rest[0]] + rest[1..]
  }

  function Join(pieces: seq<string>, sub: string): string
    requires pieces != []
  {
    if |pieces| == 1 then pieces[0] else pieces[0] + (sub + Join(pieces[1..], sub))
  }

  function Reverse(s: string): (r: string)
    ensures |r| == |s| && forall i :: 0 <= i < |s| ==> r[i] == s[|s| - 1 - i]
  {
    seq(|s|, i requires 0 <= i < |s| => s[|s| - 1 - i])
  }

  lemma ReverseTwice(s: string)
    ensures Reverse(Reverse(s)) == s
  {
    var r := Reverse(Reverse(s));
    assert forall i :: 0 <= i < |s| ==> r[i] == s[i];
  }

  /** Lower case of ASCII letters. */
  function LowerChar(c: char): char {
    if 'A' <= c <= 'Z' then (c as int + 32) as char else c
  }

  /** The lower case of each character, which may be several. */
  type Lowering = char -> string

  predicate IsAsciiChar(c: char) { c as int < 128 }

  /** What is known of the Unicode table: outside ASCII only the Kelvin sign and
      the dotted capital I have ASCII letters in their lower case. */
  ghost predicate IsLowering(lower: Lowering) {
    forall c :: if IsAsciiChar(c) then lower(c) == [LowerChar(c)]
                else lower(c) in {"k", "i\U{0307}"} || (lower(c) != "" && forall x :: x in lower(c) ==> !IsAsciiChar(x))
  }

  /** `str::to_lowercase`, but for the final form of sigma, which is as long as the other. */
  function LowerText(s: string, lower: Lowering): string {
    if s == "" then "" else lower(s[0]) + LowerText(s[1..], lower)
  }

  lemma {:induction false} LowerConcat(a: string, b: string, lower: Lowering)
    ensures LowerText(a + b, lower) == LowerText(a, lower) + LowerText(b, lower)
  {
    if a == "" {
      assert a + b == b;
    } else {
      assert (a + b)[1..] == a[1..] + b;
      LowerConcat(a[1..], b, lower);
    }
  }

  lemma {:induction false} LowerIsNoShorter(s: string, lower: Lowering)
    requires IsLowering(lower)
    ensures |LowerText(s, lower)| >= |s|
  {
    if s != "" { LowerIsNoShorter(s[1..], lower); }
  }

  /** ASCII characters are lowered one by one. */
  lemma {:induction false} AsciiLowered(s: string, lower: Lowering)
    requires IsLowering(lower) && forall c :: c in s ==> IsAsciiChar(c)
    ensures |LowerText(s, lower)| == |s| && forall i :: 0 <= i < |s| ==> LowerText(s, lower)[i] == LowerChar(s[i])
  {
    if s != "" { AsciiLowered(s[1..], lower); }
  }

  lemma HeadAndTail(s: string, lower: Lowering)
    requires s != ""
    ensures forall c :: c in LowerText(s, lower) <==> c in lower(s[0]) || c in LowerText(s[1..], lower)
  {
  }

  lemma AsciiLowerIsOne(c: char, lower: Lowering)
    requires IsLowering(lower) && forall x :: x in lower(c) ==> IsAsciiChar(x)
    ensures |lower(c)| == 1
  {
    assert "i\U{0307}"[1] in "i\U{0307}";
    assert lower(c) != "" && lower(c)[0] in lower(c);
  }

  /** An ASCII text without `i` and `k` is the lower case of ASCII texts only. */
  lemma {:induction false} LoweredFromAscii(s: string, lower: Lowering)
    requires IsLowering(lower) && forall c :: c in LowerText(s, lower) ==> IsAsciiChar(c) && c != 'i' && c != 'k'
    ensures forall c :: c in s ==> IsAsciiChar(c)
  {
    if s != "" {
      assert lower(s[0]) != "" && lower(s[0])[0] in lower(s[0]);
      HeadAndTail(s, lower);
      LoweredFromAscii(s[1..], lower);
    }
  }

  /** Characters other than letters only come from themselves. */
  lemma {:induction false} NotInLowered(s: string, c: char, lower: Lowering)
    requires IsLowering(lower) && IsAsciiChar(c) && !('a' <= c <= 'z') && c !in s
    ensures c !in LowerText(s, lower)
  {
    if s != "" { NotInLowered(s[1..], c, lower); }
  }

  /** A text whose lower case is ASCII is lowered one by one. */
  lemma {:induction false} LoweredOneByOne(s: string, lower: Lowering)
    requires IsLowering(lower) && forall c :: c in LowerText(s, lower) ==> IsAsciiChar(c)
    ensures |LowerText(s, lower)| == |s|
  {
    if s != "" {
      HeadAndTail(s, lower);
      AsciiLowerIsOne(s[0], lower);
      LoweredOneByOne(s[1..], lower);
    }
  }

  /** Characters other than letters stay. */
  lemma {:induction false} StaysInLowered(s: string, c: char, lower: Lowering)
    requires IsLowering(lower) && IsAsciiChar(c) && !('A' <= c <= 'Z') && c in s
    ensures c in LowerText(s, lower)
  {
    if s[0] != c { StaysInLowered(s[1..], c, lower); }
  }

  predicate EndsWith(s: string, suffix: string) {
    |suffix| <= |s| && s[|s| - |suffix|..] == suffix
  }

  /** The Unicode property White_Space, on which `str::trim` is defined. */
  predicate IsSpace(c: char) {
    var n := c as int;
    9 <= n <= 13 || n == 0x20 || n == 0x85 || n == 0xA0 || n == 0x1680 || 0x2000 <= n <= 0x200A
    || n == 0x2028 || n == 0x2029 || n == 0x202F || n == 0x205F || n == 0x3000
  }

  function TrimEnd(s: string): string {
    if s != "" && IsSpace(s[|s| - 1]) then TrimEnd(s[..|s| - 1]) else s
  }

  function TrimStart(s: string): string {
    if s != "" && IsSpace(s[0]) then TrimStart(s[1..]) else s
  }

  function Trim(s: string): string {
    TrimEnd(TrimStart(s))
  }

  /** Spaces after a text that neither starts nor ends with one are trimmed. */
  lemma {:induction false} TrimAfter(s: string, spaces: string)
    requires s != "" && !IsSpace(s[0]) && !IsSpace(s[|s| - 1])
    requires forall c :: c in spaces ==> IsSpace(c)
    ensures Trim(s + spaces) == s
  {
    if spaces == "" {
      assert s + spaces == s;
    } else {
      var t := s + spaces;
      assert t[..|t| - 1] == s + spaces[..|spaces| - 1];
      assert t[|t| - 1] == spaces[|spaces| - 1];
      TrimAfter(s, spaces[..|spaces| - 1]);
    }
  }

  /** Nothing is replaced before the first place where the pattern can start. */
  lemma {:induction false} ReplaceSkips(a: string, b: string, pat: string, sub: string)
    requires pat != "" && NoneStartsIn(a, b, pat)
    ensures Replace(a + b, pat, sub) == a + Replace(b, pat, sub)
  {
    if a == "" {
      assert a + b == b;
    } else {
      assert (a + b)[0..] == a + b;
      assert (a + b)[1..] == a[1..] + b;
      forall i | 0 <= i < |a[1..]| ensures !(pat <= (a[1..] + b)[i..]) {
        assert (a[1..] + b)[i..] == (a + b)[i + 1..];
      }
      ReplaceSkips(a[1..], b, pat, sub);
    }
  }

  lemma ReplaceHit(b: string, pat: string, sub: string)
    requires pat != ""
    ensures Replace(pat + b, pat, sub) == sub + Replace(b, pat, sub)
  {
    assert (pat + b)[|pat|..] == b;
  }

  lemma {:induction false} SplitSkips(a: string, b: string, sep: string)
    requires sep != "" && NoneStartsIn(a, b, sep)
    ensures Split(a + b, sep) == [a + Split(b, sep)[0]] + Split(b, sep)[1..]
  {
    if a == "" {
      assert a + b == b;
      assert a + Split(b, sep)[0] == Split(b, sep)[0];
    } else {
      assert (a + b)[0..] == a + b;
      assert (a + b)[1..] == a[1..] + b;
      forall i | 0 <= i < |a[1..]| ensures !(sep <= (a[1..] + b)[i..]) {
        assert (a[1..] + b)[i..] == (a + b)[i + 1..];
      }
      SplitSkips(a[1..], b, sep);
      assert [a[0]] + (a[1..] + Split(b, sep)[0]) == a + Split(b, sep)[0];
    }
  }

  /** The first piece ends at the first separator. */
  lemma SplitAt(a: string, b: string, sep: string)
    requires sep != "" && NoneStartsIn(a, sep + b, sep)
    ensures Split(a + sep + b, sep) == [a] + Split(b, sep)
  {
    assert a + sep + b == a + (sep + b);
    SplitSkips(a, sep + b, sep);
    assert (sep + b)[|sep|..] == b;
    assert Split(sep + b, sep) == [""] + Split(b, sep);
    assert a + "" == a;
  }

  lemma SplitNone(a: string, sep: string)
    requires sep != "" && NoneStartsIn(a, "", sep)
    ensures Split(a, sep) == [a]
  {
    SplitSkips(a, "", sep);
    assert a + "" == a;
  }

  lemma JoinExtended(c: char, pieces: seq<string>, sub: string)
    requires pieces != []
    ensures Join([[c] + pieces[0]] + pieces[1..], sub) == [c] + Join(pieces, sub)
  {
    var longer := [[c] + pieces[0]] + pieces[1..];
    assert longer[1..] == pieces[1..];
    if |pieces| > 1 {
      var rest := Join(pieces[1..], sub);
      assert [c] + pieces[0] + (sub + rest) == [c] + (pieces[0] + (sub + rest));
    }
  }

  /** Replacing is splitting and rejoining with the replacement. */
  lemma {:induction false} ReplaceIsSplitJoin(s: string, pat: string, sub: string)
    requires pat != ""
    ensures Replace(s, pat, sub) == Join(Split(s, pat), sub)
  {
    if s == "" {
    } else if pat <= s {
      ReplaceIsSplitJoin(s[|pat|..], pat, sub);
      assert Split(s, pat)[1..] == Split(s[|pat|..], pat);
      assert "" + (sub + Replace(s[|pat|..], pat, sub)) == Replace(s, pat, sub);
    } else {
      ReplaceIsSplitJoin(s[1..], pat, sub);
      JoinExtended(s[0], Split(s[1..], pat), sub);
    }
  }

  lemma NoMatchAcross(a: string, w: string, pat: string)
    requires w != "" && w[0] !in pat
    ensures pat <= a + w <==> pat <= a
  {
    assert (a + w)[|a|] == w[0] && (a + w)[..|a|] == a;
    assert |pat| > |a| ==> pat[|a|] in pat;
  }

  /** No match crosses a character that is not in the pattern. */
  lemma {:induction false} ReplaceAcross(a: string, w: string, pat: string, sub: string)
    requires pat != "" && w != "" && w[0] !in pat
    ensures Replace(a + w, pat, sub) == Replace(a, pat, sub) + Replace(w, pat, sub)
  {
    if a == "" {
      assert a + w == w;
    } else {
      var s := a + w;
      NoMatchAcross(a, w, pat);
      if pat <= s {
        assert s[|pat|..] == a[|pat|..] + w;
        ReplaceAcross(a[|pat|..], w, pat, sub);
      } else {
        assert s[1..] == a[1..] + w;
        ReplaceAcross(a[1..], w, pat, sub);
      }
    }
  }

  lemma ReplaceKeepsHead(w: string, pat: string, sub: string)
    requires pat != "" && w != "" && w[0] !in pat
    ensures Replace(w, pat, sub) == [w[0]] + Replace(w[1..], pat, sub)
  {
  }

  lemma {:induction false} ReplaceAbsent(s: string, pat: string, sub: string)
    requires pat != "" && !Contains(s, pat)
    ensures Replace(s, pat, sub) == s
  {
    assert s[0..] == s;
    forall i | 0 <= i < |s| ensures !(pat <= (s + "")[i..]) { assert s + "" == s; }
    ReplaceSkips(s, "", pat, sub);
    assert s + "" == s;
  }

  lemma {:induction false} SplitPiecesFreeOf(s: string, sep: string)
    requires sep != ""
    ensures forall p :: p in Split(s, sep) ==> !Contains(p, sep)
  {
    if s == "" {
    } else if sep <= s {
      SplitPiecesFreeOf(s[|sep|..], sep);
    } else {
      SplitPiecesFreeOf(s[1..], sep);
      var rest := Split(s[1..], sep);
      var p := [s[0]] + rest[0];
      assert rest[0] in rest;
      SplitFirstIsPrefix(s[1..], sep);
      assert p <= s && p[0..] == p;
      assert forall i :: 0 < i <= |p| ==> p[i..] == rest[0][i - 1..];
    }
  }

  /** `p` stands at `i`, behind a separator. */
  predicate IsBehind(s: string, sep: string, p: string, i: nat) {
    |sep| <= i <= |s| && p <= s[i..] && s[i - |sep|..i] == sep
  }

  lemma BehindLater(s: string, sep: string, p: string, m: nat, j: nat)
    requires m <= |s| && IsBehind(s[m..], sep, p, j)
    ensures IsBehind(s, sep, p, m + j)
  {
    assert s[m..][j..] == s[m + j..] && s[m..][j - |sep|..j] == s[m + j - |sep|..m + j];
  }

  lemma BehindFirst(s: string, sep: string, p: string)
    requires sep <= s && p <= s[|sep|..]
    ensures IsBehind(s, sep, p, |sep|)
  {
    assert s[0..|sep|] == sep;
  }

  /** Where a piece was: at the start, or behind a separator. */
  lemma PieceIsInfix(s: string, sep: string, k: nat) returns (i: nat)
    requires sep != "" && k < |Split(s, sep)|
    ensures i <= |s| && Split(s, sep)[k] <= s[i..]
    ensures if k == 0 then i == 0 else IsBehind(s, sep, Split(s, sep)[k], i)
  {
    if k == 0 {
      SplitFirstIsPrefix(s, sep);
      i := 0;
      assert s[0..] == s;
    } else {
      i := LaterPiece(s, sep, k);
    }
  }

  lemma {:induction false} LaterPiece(s: string, sep: string, k: nat) returns (i: nat)
    requires sep != "" && 0 < k < |Split(s, sep)|
    ensures IsBehind(s, sep, Split(s, sep)[k], i)
  {
    hide IsBehind;
    var p := Split(s, sep)[k];
    if !(sep <= s) {
      var j := LaterPiece(s[1..], sep, k);
      i := j + 1;
      BehindLater(s, sep, p, 1, j);
    } else if k == 1 {
      i := |sep|;
      SplitFirstIsPrefix(s[i..], sep);
      BehindFirst(s, sep, p);
    } else {
      var j := LaterPiece(s[|sep|..], sep, k - 1);
      i := j + |sep|;
      BehindLater(s, sep, p, |sep|, j);
    }
  }

  lemma {:induction false} SplitFirstIsPrefix(s: string, sep: string)
    requires sep != ""
    ensures Split(s, sep)[0] <= s
  {
    if s != "" && !(sep <= s) {
      SplitFirstIsPrefix(s[1..], sep);
    }
  }
}
