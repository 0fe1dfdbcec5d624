/** The product-name substitution applied to every translated text
    (`translate_locale` in client/src/lang.rs). */
module Rebrand {
  import opened Basics
  import opened Text

  const PRODUCT := "RustDesk"
  const MIDDLE := "A-P-P-N-A-M-E"
  const PLACEHOLDER := "#A-P-P-N-A-M-E#"
  // A text ending like this completes a second placeholder with the first
  // character of the one that is inserted after it.
  const TRAP := "#A-P-P-N-A-M-E"

  /** What the closure returns for a translation `text` of the key `name`. */
  function Rebranded(text: string, name: string, placeholder: Option<string>, app: string): string {
    var s := if placeholder.Some? then Replace(text, "{}", placeholder.value) else text;
    if app == PRODUCT || !Contains(s, PRODUCT) || "upgrade_rustdesk_server_pro" <= name || name == "powered_by_me" then s
    else if app != "" && Contains(app, PRODUCT) then if Contains(s, PLACEHOLDER) then s else ThreePasses(s, app)
    else Replace(s, PRODUCT, app)
  }

  function ThreePasses(s: string, app: string): string
    requires app != ""
  {
    Replace(Replace(Replace(s, app, PLACEHOLDER), PRODUCT, app), PLACEHOLDER, app)
  }

  /** The closure itself, which reassigns its text pass after pass. */
  method Rebranding(text: string, name: string, placeholder: Option<string>, app: string) returns (s: string)
    ensures s == Rebranded(text, name, placeholder, app)
  {
    s := text;
    if placeholder.Some? {
      s := Replace(s, "{}", placeholder.value);
    }
    if app != PRODUCT {
      if Contains(s, PRODUCT) && !("upgrade_rustdesk_server_pro" <= name) && name != "powered_by_me" {
        if !Contains(app, PRODUCT) {
          s := Replace(s, PRODUCT, app);
        } else {
          assert app != "";
          if !Contains(s, PLACEHOLDER) {
            s := Replace(s, app, PLACEHOLDER);
            s := Replace(s, PRODUCT, app);
            s := Replace(s, PLACEHOLDER, app);
          }
        }
      }
    }
  }

  /** The intended meaning: whatever already reads as the app name stays, and
      the product name is renamed only in the text between. */
  function Meaning(s: string, app: string): string
    requires app != ""
  {
    Join(RenameAll(Split(s, app), app), app)
  }

  function RenameAll(pieces: seq<string>, app: string): (r: seq<string>)
    ensures |r| == |pieces| && forall i :: 0 <= i < |r| ==> r[i] == Replace(pieces[i], PRODUCT, app)
  {
    seq(|pieces|, i requires 0 <= i < |pieces| => Replace(pieces[i], PRODUCT, app))
  }

  /** No text that the app name follows ends like an unfinished placeholder. */
  predicate TrapFree(pieces: seq<string>) {
    forall i :: 0 <= i < |pieces| - 1 ==> !EndsWith(pieces[i], TRAP)
  }

  // The proof is about any product name `pat` and any middle `mid` of a
  // placeholder that avoid `#`, and any character `mark` of the app name that
  // the middle avoids.

  ghost function Trap(mid: string): string { ['#'] + mid }
  ghost function Walled(mid: string): string { ['#'] + mid + ['#'] }

  // ----- the second pass leaves the placeholders alone

  ghost predicate Apart(pat: string, mid: string, app: string) {
    pat != "" && '#' !in pat && '#' !in mid && '#' !in app && app != "" && Replace(mid, pat, app) == mid
  }

  ghost function RenameEach(pieces: seq<string>, pat: string, app: string): (r: seq<string>)
    requires pat != ""
    ensures |r| == |pieces| && forall i :: 0 <= i < |r| ==> r[i] == Replace(pieces[i], pat, app)
  {
    seq(|pieces|, i requires 0 <= i < |pieces| => Replace(pieces[i], pat, app))
  }

  lemma {:induction false} SecondPass(pieces: seq<string>, pat: string, mid: string, app: string)
    requires pieces != [] && Apart(pat, mid, app)
    ensures Replace(Join(pieces, Walled(mid)), pat, app) == Join(RenameEach(pieces, pat, app), Walled(mid))
  {
    if |pieces| > 1 {
      var rest := pieces[1..];
      SecondPass(rest, pat, mid, app);
      RenamedAround(pieces[0], Join(rest, Walled(mid)), pat, mid, app);
      assert RenameEach(pieces, pat, app)[1..] == RenameEach(rest, pat, app);
    }
  }

  lemma RenamedAround(p: string, rest: string, pat: string, mid: string, app: string)
    requires Apart(pat, mid, app)
    ensures Replace(p + (Walled(mid) + rest), pat, app)
         == Replace(p, pat, app) + (Walled(mid) + Replace(rest, pat, app))
  {
    hide Replace;
    var wall := ['#'] + rest;
    ReplaceAcross(p, Walled(mid) + rest, pat, app);
    assert (Walled(mid) + rest)[1..] == mid + wall;
    ReplaceKeepsHead(Walled(mid) + rest, pat, app);
    ReplaceAcross(mid, wall, pat, app);
    ReplaceKeepsHead(wall, pat, app);
    assert wall[1..] == rest;
    var rest' := Replace(rest, pat, app);
    assert ['#'] + (mid + (['#'] + rest')) == Walled(mid) + rest';
  }

  // ----- the third pass finds exactly the inserted placeholders, unless trapped

  ghost predicate Untrapped(pieces: seq<string>, mid: string) {
    forall i :: 0 <= i < |pieces| - 1 ==> !EndsWith(pieces[i], Trap(mid))
  }

  lemma StartsInside(q: string, mid: string, rest: string, i: nat)
    requires '#' !in mid && i < |q| && Walled(mid) <= (q + (Walled(mid) + rest))[i..]
    requires !Contains(q, Walled(mid))
    ensures i == |q| - |Trap(mid)| && EndsWith(q, Trap(mid))
  {
    var w := Walled(mid);
    var s := q + (w + rest);
    assert w == s[i..][..|w|] == s[i..i + |w|];
    assert q[i..] <= s[i..];
    assert |q| - i < |w|;
    assert s[|q|] == w[0] == '#';
    assert s[i..i + |w|][|q| - i] == s[|q|];
    assert forall k :: 0 < k < |mid| + 1 ==> w[k] == mid[k - 1];
    assert |q| - i == |mid| + 1;
    assert q[i..] == s[i..i + |w|][..|mid| + 1] == Trap(mid);
  }

  lemma {:induction false} ThirdPass(pieces: seq<string>, mid: string, app: string)
    requires pieces != [] && app != "" && app[0] != '#' && '#' !in mid
    requires forall p :: p in pieces ==> !Contains(p, Walled(mid))
    ensures Replace(Join(pieces, Walled(mid)), Walled(mid), app) == Join(pieces, app) <==> Untrapped(pieces, mid)
  {
    var q := pieces[0];
    assert q in pieces;
    if |pieces| == 1 {
      ReplaceAbsent(q, Walled(mid), app);
    } else {
      var rest := Join(pieces[1..], Walled(mid));
      assert Join(pieces, Walled(mid)) == q + (Walled(mid) + rest);
      assert Untrapped(pieces, mid) <==> !EndsWith(q, Trap(mid)) && Untrapped(pieces[1..], mid) by {
        assert forall i :: 0 <= i < |pieces| - 2 ==> pieces[1..][i] == pieces[i + 1];
      }
      if EndsWith(q, Trap(mid)) {
        Trapped(q, mid, rest, app);
        assert Join(pieces, app)[|q| - |Trap(mid)|] == q[|q| - |Trap(mid)|..][0] == '#';
      } else {
        Sprung(q, mid, rest, app);
        ThirdPass(pieces[1..], mid, app);
        CancelFront(q, app, Replace(rest, Walled(mid), app), Join(pieces[1..], app));
      }
    }
  }

  lemma CancelFront(t: string, u: string, v: string, w: string)
    ensures t + (u + v) == t + (u + w) <==> v == w
  {
    assert (t + (u + v))[|t| + |u|..] == v && (t + (u + w))[|t| + |u|..] == w;
  }

  /** Without a trap the inserted placeholder is the one that is found. */
  lemma Sprung(q: string, mid: string, rest: string, app: string)
    requires '#' !in mid && !Contains(q, Walled(mid)) && !EndsWith(q, Trap(mid))
    ensures Replace(q + (Walled(mid) + rest), Walled(mid), app) == q + (app + Replace(rest, Walled(mid), app))
  {
    var w := Walled(mid);
    forall i | 0 <= i < |q| ensures !(w <= (q + (w + rest))[i..]) {
      if w <= (q + (w + rest))[i..] { StartsInside(q, mid, rest, i); }
    }
    ReplaceSkips(q, w + rest, w, app);
    ReplaceHit(rest, w, app);
  }

  /** In a trapped text the app name appears where the text's own `#` stood. */
  lemma Trapped(q: string, mid: string, rest: string, app: string)
    requires '#' !in mid && app != "" && !Contains(q, Walled(mid)) && EndsWith(q, Trap(mid))
    ensures var r := Replace(q + (Walled(mid) + rest), Walled(mid), app);
            |q| - |Trap(mid)| < |r| && r[|q| - |Trap(mid)|] == app[0]
  {
    var w := Walled(mid);
    var x := q[..|q| - |Trap(mid)|];
    var y := mid + ['#'] + rest;
    var s := q + (w + rest);
    assert s == x + (w + y) by {
      assert q == x + Trap(mid);
    }
    forall i | 0 <= i < |x| ensures !(w <= (x + (w + y))[i..]) {
      if w <= s[i..] { StartsInside(q, mid, rest, i); }
    }
    ReplaceSkips(x, w + y, w, app);
    ReplaceHit(y, w, app);
  }

  // ----- the second pass neither makes nor unmakes placeholders and traps

  /** A `#` in the renamed text was already there. */
  lemma {:induction false} WallAt(p: string, i: nat, pat: string, app: string) returns (k: nat)
    requires pat != "" && '#' !in app && i < |Replace(p, pat, app)| && Replace(p, pat, app)[i] == '#'
    ensures k < |p| && p[k] == '#' && |Replace(p[..k], pat, app)| == i
  {
    if pat <= p {
      var p' := p[|pat|..];
      assert forall j :: 0 <= j < |app| ==> app[j] in app;
      k := WallAt(p', i - |app|, pat, app);
      ReplaceHit(p'[..k], pat, app);
      assert p[..|pat| + k] == pat + p'[..k];
      k := |pat| + k;
    } else if i == 0 {
      k := 0;
    } else {
      k := WallAt(p[1..], i - 1, pat, app);
      assert p[..k + 1][1..] == p[1..][..k];
      assert p[..k + 1] <= p;
      k := k + 1;
    }
  }

  /** It lies between what became its two sides. */
  lemma WallPreimage(p: string, i: nat, pat: string, app: string) returns (k: nat)
    requires pat != "" && '#' !in pat && '#' !in app && i < |Replace(p, pat, app)| && Replace(p, pat, app)[i] == '#'
    ensures k < |p| && p[k] == '#'
    ensures Replace(p[..k], pat, app) == Replace(p, pat, app)[..i]
    ensures Replace(p[k + 1..], pat, app) == Replace(p, pat, app)[i + 1..]
  {
    k := WallAt(p, i, pat, app);
    assert p == p[..k] + p[k..];
    ReplaceAcross(p[..k], p[k..], pat, app);
    ReplaceKeepsHead(p[k..], pat, app);
    assert p[k..][1..] == p[k + 1..];
  }

  lemma {:induction false} KeptOrMarked(t: string, pat: string, app: string, mark: char)
    requires pat != "" && mark in app
    ensures Replace(t, pat, app) == t || mark in Replace(t, pat, app)
  {
    if t != "" && !(pat <= t) {
      KeptOrMarked(t[1..], pat, app, mark);
    }
  }

  lemma WalledPreimage(p: string, pat: string, mid: string, app: string, mark: char)
    requires pat != "" && '#' !in pat && '#' !in app && mark in app && mark !in mid && !Contains(p, Walled(mid))
    ensures !Contains(Replace(p, pat, app), Walled(mid))
  {
    var r := Replace(p, pat, app);
    var w := Walled(mid);
    if i :| 0 <= i <= |r| && w <= r[i..] {
      WalledBefore(p, pat, mid, app, mark, i);
    }
  }

  lemma WalledBefore(p: string, pat: string, mid: string, app: string, mark: char, i: nat)
    requires pat != "" && '#' !in pat && '#' !in app && mark in app && mark !in mid
    requires i <= |Replace(p, pat, app)| && Walled(mid) <= Replace(p, pat, app)[i..]
    ensures Contains(p, Walled(mid))
  {
    var r, m := Replace(p, pat, app), |mid|;
    WallsApart(r, mid, i);
    var k := WallPreimage(p, i, pat, app);
    var b := p[k + 1..];
    var k' := WallPreimage(b, m, pat, app);
    KeptOrMarked(b[..k'], pat, app, mark);
    WalledFrom(p, mid, k, k');
  }

  lemma WallsApart(r: string, mid: string, i: nat)
    requires i <= |r| && Walled(mid) <= r[i..]
    ensures i + |mid| + 1 < |r| && r[i] == '#' && r[i + 1..][|mid|] == '#' && r[i + 1..][..|mid|] == mid
  {
    var w := Walled(mid);
    assert forall j :: 0 <= j < |w| ==> r[i + j] == r[i..][j] == w[j];
    assert forall j :: 0 <= j < |mid| ==> r[i + 1..][j] == r[i + (j + 1)] == w[j + 1] == mid[j];
  }

  lemma WalledFrom(p: string, mid: string, k: nat, k': nat)
    requires k < |p| && p[k] == '#' && k' < |p[k + 1..]| && p[k + 1..][k'] == '#' && p[k + 1..][..k'] == mid
    ensures Contains(p, Walled(mid))
  {
    assert p[k..] == ['#'] + (p[k + 1..][..k'] + (['#'] + p[k + 1..][k' + 1..]));
  }

  lemma TrapPreimage(p: string, pat: string, mid: string, app: string, mark: char)
    requires Apart(pat, mid, app) && mark in app && mark !in mid && EndsWith(Replace(p, pat, app), Trap(mid))
    ensures EndsWith(p, Trap(mid))
  {
    var r := Replace(p, pat, app);
    var i := |r| - |Trap(mid)|;
    TrapSplits(r, mid);
    var k := WallPreimage(p, i, pat, app);
    KeptOrMarked(p[k + 1..], pat, app, mark);
    assert p[k..] == ['#'] + p[k + 1..];
  }

  lemma TrapSplits(r: string, mid: string)
    requires EndsWith(r, Trap(mid))
    ensures var i := |r| - |Trap(mid)|; r[i] == '#' && r[i + 1..] == mid
  {
    var i := |r| - |Trap(mid)|;
    assert r[i..][0] == r[i] && r[i..][1..] == r[i + 1..] && Trap(mid)[1..] == mid;
  }

  lemma TrapImage(p: string, pat: string, mid: string, app: string)
    requires Apart(pat, mid, app) && EndsWith(p, Trap(mid))
    ensures EndsWith(Replace(p, pat, app), Trap(mid))
  {
    var t := Trap(mid);
    assert t[1..] == mid;
    ReplaceKeepsHead(t, pat, app);
    assert p == p[..|p| - |t|] + t;
    ReplaceAcross(p[..|p| - |t|], t, pat, app);
  }

  lemma PiecesStayClean(s: string, pat: string, mid: string, app: string, mark: char)
    requires pat != "" && '#' !in pat && app != "" && '#' !in app && mark in app && mark !in mid && !Contains(s, Walled(mid))
    ensures forall q :: q in RenameEach(Split(s, app), pat, app) ==> !Contains(q, Walled(mid))
  {
    var ps := Split(s, app);
    forall k | 0 <= k < |ps| ensures !Contains(RenameEach(ps, pat, app)[k], Walled(mid)) {
      var i := PieceIsInfix(s, app, k);
      forall j | 0 <= j <= |ps[k]| ensures !(Walled(mid) <= ps[k][j..]) {
        assert ps[k][j..] <= s[i + j..];
      }
      WalledPreimage(ps[k], pat, mid, app, mark);
    }
  }

  lemma PassesExact(s: string, pat: string, mid: string, app: string, mark: char)
    requires Apart(pat, mid, app) && mark in app && mark !in mid && !Contains(s, Walled(mid))
    ensures var w := Walled(mid);
            Replace(Replace(Replace(s, app, w), pat, app), w, app) == Join(RenameEach(Split(s, app), pat, app), app)
            <==> Untrapped(Split(s, app), mid)
  {
    var ps := Split(s, app);
    ReplaceIsSplitJoin(s, app, Walled(mid));
    SecondPass(ps, pat, mid, app);
    PiecesStayClean(s, pat, mid, app, mark);
    assert app[0] in app;
    ThirdPass(RenameEach(ps, pat, app), mid, app);
    forall i | 0 <= i < |ps| - 1
      ensures EndsWith(RenameEach(ps, pat, app)[i], Trap(mid)) <==> EndsWith(ps[i], Trap(mid))
    {
      if EndsWith(RenameEach(ps, pat, app)[i], Trap(mid)) { TrapPreimage(ps[i], pat, mid, app, mark); }
      if EndsWith(ps[i], Trap(mid)) { TrapImage(ps[i], pat, mid, app); }
    }
  }

  // ----- main results

  /** For an app name that contains the product name, the three passes mean
      what they are meant to exactly when the text sets no trap. */
  lemma ThreePassesExact(s: string, app: string)
    requires Contains(app, PRODUCT) && '#' !in app && !Contains(s, PLACEHOLDER)
    ensures app != "" && (ThreePasses(s, app) == Meaning(s, app) <==> TrapFree(Split(s, app)))
  {
    var i :| 0 <= i <= |app| && PRODUCT <= app[i..];
    assert app[i] == app[i..][0] == 'R';
    NamesApart(app);
    PassesExact(s, PRODUCT, MIDDLE, app, 'R');
    assert RenameEach(Split(s, app), PRODUCT, app) == RenameAll(Split(s, app), app);
  }

  lemma NamesApart(app: string)
    requires app != "" && '#' !in app
    ensures Apart(PRODUCT, MIDDLE, app) && 'R' !in MIDDLE && PLACEHOLDER == Walled(MIDDLE) && TRAP == Trap(MIDDLE)
  {
    MarkedApart(PRODUCT, MIDDLE, app, 'R');
  }

  lemma MarkedApart(pat: string, mid: string, app: string, mark: char)
    requires pat != "" && pat[0] == mark && mark !in mid && '#' !in pat && '#' !in mid && '#' !in app && app != ""
    ensures Apart(pat, mid, app)
  {
    assert forall i :: 0 <= i <= |mid| && pat <= mid[i..] ==> mid[i..][0] == mark;
    ReplaceAbsent(mid, pat, app);
  }

  /** A text that sets a trap: the first character of the inserted placeholder
      completes another one, and the app name comes out in the wrong place. */
  lemma TrapBreaksRebranding(s: string, app: string)
    requires app == "RustDesk-X" && s == TRAP + app
    ensures !Contains(s, PLACEHOLDER) && ThreePasses(s, app) != Meaning(s, app)
  {
    HashOnce(s);
    TrapSplit(TRAP, app);
    assert PRODUCT <= app[0..];
    ThreePassesExact(s, app);
    assert EndsWith(TRAP, TRAP);
  }

  lemma HashOnce(s: string)
    requires s == TRAP + "RustDesk-X"
    ensures !Contains(s, PLACEHOLDER)
  {
    assert PLACEHOLDER[14] == '#' && |PLACEHOLDER| == 15 && PLACEHOLDER[0] == '#';
    forall i | 0 <= i <= |s| ensures !(PLACEHOLDER <= s[i..]) {
      assert i + 14 < |s| ==> s[i..][14] == s[i + 14];
    }
  }

  lemma TrapSplit(trap: string, app: string)
    requires app != "" && app[0] !in trap
    ensures Split(trap + app, app) == [trap, ""]
  {
    forall i | 0 <= i < |trap| ensures !(app <= (trap + (app + ""))[i..]) {
      assert (trap + (app + ""))[i..][0] == trap[i] && trap[i] in trap;
    }
    SplitAt(trap, "", app);
    assert trap + app + "" == trap + app;
  }

  /** In particular for every text without a `#`, and then no existing app
      name is expanded a second time. */
  lemma HashFreeTextsAreRebranded(text: string, name: string, app: string)
    requires Contains(app, PRODUCT) && app != PRODUCT && '#' !in app && '#' !in text
    requires !("upgrade_rustdesk_server_pro" <= name) && name != "powered_by_me" && Contains(text, PRODUCT)
    ensures app != "" && Rebranded(text, name, None, app) == Meaning(text, app)
  {
    forall i | 0 <= i <= |text| ensures !(PLACEHOLDER <= text[i..]) {
      assert forall k :: 0 <= k < |text[i..]| ==> text[i..][k] in text;
      assert PLACEHOLDER[0] == '#';
    }
    ThreePassesExact(text, app);
    var ps := Split(text, app);
    forall k | 0 <= k < |ps| ensures !EndsWith(ps[k], TRAP) {
      var i := PieceIsInfix(text, app, k);
      assert forall j :: 0 <= j < |ps[k]| ==> ps[k][j] == text[i..][j] == text[i + j];
      assert TRAP[0] == '#';
      assert |TRAP| <= |ps[k]| ==> ps[k][|ps[k]| - |TRAP|..][0] == ps[k][|ps[k]| - |TRAP|];
    }
  }

  // ----- the other names, and what is left alone

  /** An app name without the product name simply takes its place: the text is
      split at the product name and rejoined with the app name. */
  lemma PlainNamesReplaceProduct(text: string, name: string, app: string)
    requires !Contains(app, "RustDesk") && !("upgrade_rustdesk_server_pro" <= name) && name != "powered_by_me"
    ensures Rebranded(text, name, None, app) == Join(Split(text, "RustDesk"), app)
  {
    assert PRODUCT == "RustDesk";
    assert PRODUCT <= PRODUCT[0..];
    ReplaceIsSplitJoin(text, PRODUCT, app);
    if !Contains(text, PRODUCT) { ReplaceAbsent(text, PRODUCT, app); }
  }

  /** The product itself renames nothing, two kinds of keys are left alone, and so
      is a text that holds the placeholder, if the app name contains the product's. */
  lemma LeftAlone(text: string, name: string, app: string)
    requires app == "RustDesk" || "upgrade_rustdesk_server_pro" <= name || name == "powered_by_me"
          || (Contains(app, "RustDesk") && Contains(text, "#A-P-P-N-A-M-E#"))
    ensures Rebranded(text, name, None, app) == text
  {
    assert PRODUCT == "RustDesk" && PLACEHOLDER == "#A-P-P-N-A-M-E#";
    if app == "" { NotInNothing(PRODUCT); }
  }

  lemma NotInNothing(pat: string)
    requires pat != ""
    ensures !Contains("", pat)
  {
  }

  /** A value for `{}` is put in first, whatever the key and the app name. */
  lemma ValueGoesFirst(text: string, name: string, value: string, app: string)
    ensures Rebranded(text, name, Some(value), app) == Rebranded(Join(Split(text, "{}"), value), name, None, app)
  {
    ReplaceIsSplitJoin(text, "{}", value);
  }
}
