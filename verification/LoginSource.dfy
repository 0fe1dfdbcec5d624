/** Where the password that is sent comes from, and which passwords are
    remembered (client/src/client.rs). */
module LoginSource {
  import opened Basics

  type Bytes = seq<byte>

  /** SHA-256 of a text, left uninterpreted: its output is never empty. */
  type Sha = string -> Bytes

  ghost predicate IsDigest(sha: Sha) {
    forall x :: sha(x) != []
  }

  datatype Source = PersonalAb(hashed: Bytes) | SharedAb(plain: string) | Undefined

  /** The path on which the present password was obtained, with the plain text
      and the salt where it was hashed on this side. */
  datatype Origin =
    | Nowhere
    | FromPreset
    | FromSharedCard(plain: string, salt: string)
    | FromConfig
    | FromPersonalBook
    | FromBuiltIn(plain: string, salt: string)
    | FromUi

  datatype Token = Token(password: Bytes, source: Source, origin: Origin)

  /** `saved` is the password in the stored peer config, `cached` the one in the
      copy of that config that the handler holds; `written` are the origins of
      the passwords that were newly written to it. */
  datatype Login = Login(
    password: Bytes, source: Source, shared: Option<string>, remember: bool, cached: Bytes, saved: Bytes, salt: string,
    origin: Origin, written: seq<Origin>)

  function Fresh(saved: Bytes): Login {
    Login([], Undefined, None, false, [], saved, "", Nowhere, [])
  }

  predicate IsPersonal(source: Source, password: Bytes) {
    password != [] && source.PersonalAb? && source.hashed == password
  }

  predicate IsShared(source: Source, password: Bytes, salt: string, sha: Sha) {
    password != [] && source.SharedAb? && sha(source.plain + salt) == password
  }

  // ----- the events

  function AfterInitialize(s: Login, shared: Option<string>, token: Option<Token>): Login {
    var t := s.(cached := s.saved, remember := s.saved != [], shared := shared);
    match token
    case None => t
    case Some(k) => t.(password := k.password, source := k.source, origin := k.origin)
  }

  /** `get_conn_token`: nothing to hand over without a password. */
  function ConnToken(s: Login): Option<Token> {
    if s.password == [] then None else Some(Token(s.password, s.source, s.origin))
  }

  function Adopt(s: Login, password: Bytes, source: Source, origin: Origin): Login {
    s.(password := password, source := source, origin := origin)
  }

  /** The order of precedence when the peer asks for a password: the last one,
      the preset, the shared card (which beats both), the peer config, the
      personal address book, the built-in default. */
  function AfterHash(s: Login, salt: string, preset: string, book: Bytes, builtIn: string, sha: Sha): Login {
    var s0 := s.(salt := salt);
    var s1 := if s0.password == [] && preset != "" then Adopt(s0, sha(preset + salt), Undefined, FromPreset) else s0;
    var s2 :=
      if s1.shared.Some? && s1.shared.value != ""
      then Adopt(s1, sha(s1.shared.value + salt), SharedAb(s1.shared.value), FromSharedCard(s1.shared.value, salt))
      else s1;
    var s3 := s2.(shared := None);
    var s4 := if s3.password == [] && s3.cached != [] then Adopt(s3, s3.cached, Undefined, FromConfig) else s3;
    var s5 := if s4.password == [] && book != [] then Adopt(s4, book, PersonalAb(book), FromPersonalBook) else s4;
    if s5.password == [] && builtIn != ""
    then Adopt(s5, sha(builtIn + salt), SharedAb(builtIn), FromBuiltIn(builtIn, salt))
    else s5
  }

  /** A missing or wrong password is forgotten; its source tag is not. */
  function AfterLoginError(s: Login, passwordRejected: bool): Login {
    if passwordRejected then s.(password := [], origin := Nowhere) else s
  }

  function AfterUiLogin(s: Login, text: string, remember: bool, sha: Sha): Login {
    if text != "" then Adopt(s, sha(text + s.salt), Undefined, FromUi).(remember := remember)
    else if s.password == [] && s.cached != [] then Adopt(s, s.cached, Undefined, FromConfig)
    else s
  }

  /** What `handle_peer_info` does to the stored password. */
  function AfterPeerInfo(s: Login, sha: Sha): Login {
    var saved :=
      if s.remember then
        if s.password != [] && s.password != s.saved && !IsShared(s.source, s.password, s.salt, sha) then s.password else s.saved
      else if IsPersonal(s.source, s.password) then s.password
      else [];
    s.(saved := saved, cached := saved,
       written := if saved != [] && saved != s.saved then s.written + [s.origin] else s.written)
  }

  // ----- the handler, with its fields updated in place

  class LoginConfigHandler {
    var password: Bytes
    var passwordSource: Source
    var sharedPassword: Option<string>
    var remember: bool
    var configPassword: Bytes
    var storedPassword: Bytes
    var salt: string
    ghost var origin: Origin
    ghost var written: seq<Origin>

    ghost function State(): Login
      reads this
    {
      Login(password, passwordSource, sharedPassword, remember, configPassword, storedPassword, salt, origin, written)
    }

    constructor (stored: Bytes)
      ensures State() == Fresh(stored)
    {
      password, passwordSource, sharedPassword, remember := [], Undefined, None, false;
      configPassword, storedPassword, salt := [], stored, "";
      origin, written := Nowhere, [];
    }

    method Initialize(shared: Option<string>, token: Option<Token>)
      modifies this
      ensures State() == AfterInitialize(old(State()), shared, token)
    {
      var config := storedPassword;
      remember := config != [];
      configPassword := config;
      if token.Some? {
        password := token.value.password;
        passwordSource := token.value.source;
        origin := token.value.origin;
      }
      sharedPassword := shared;
    }

    method HandleHash(newSalt: string, preset: string, book: Bytes, builtIn: string, sha: Sha)
      requires IsDigest(sha)
      modifies this
      ensures State() == AfterHash(old(State()), newSalt, preset, book, builtIn, sha)
    {
      salt := newSalt;
      var p := password;
      ghost var from := origin;
      if p == [] && preset != "" {
        p := sha(preset + salt);
        passwordSource := Undefined;
        from := FromPreset;
      }
      var shared := sharedPassword;
      sharedPassword := None;
      if shared.Some? && shared.value != "" {
        p := sha(shared.value + salt);
        passwordSource := SharedAb(shared.value);
        from := FromSharedCard(shared.value, salt);
      }
      if p == [] {
        p := configPassword;
        if p != [] {
          passwordSource := Undefined;
          from := FromConfig;
        }
      }
      if p == [] && book != [] {
        p := book;
        passwordSource := PersonalAb(book);
        from := FromPersonalBook;
      }
      if p == [] && builtIn != "" {
        p := sha(builtIn + salt);
        passwordSource := SharedAb(builtIn);
        from := FromBuiltIn(builtIn, salt);
      }
      password := p;
      origin := from;
    }

    method HandleLoginError(passwordRejected: bool)
      modifies this
      ensures State() == AfterLoginError(old(State()), passwordRejected)
    {
      if passwordRejected {
        password := [];
        origin := Nowhere;
      }
    }

    method HandleLoginFromUi(text: string, rememberIt: bool, sha: Sha)
      modifies this
      ensures State() == AfterUiLogin(old(State()), text, rememberIt, sha)
    {
      var p := password;
      if text == "" {
        if p == [] {
          p := configPassword;
          if p != [] {
            passwordSource := Undefined;
            origin := FromConfig;
          }
        }
      } else {
        passwordSource := Undefined;
        p := sha(text + salt);
        remember := rememberIt;
        origin := FromUi;
      }
      password := p;
    }

    method HandlePeerInfo(sha: Sha)
      modifies this
      ensures State() == AfterPeerInfo(old(State()), sha)
    {
      var config := storedPassword;
      if remember {
        if password != [] && password != config && !IsShared(passwordSource, password, salt, sha) {
          config := password;
        }
      } else {
        if IsPersonal(passwordSource, password) {
          config := password;
        } else if config != [] {
          config := [];
        }
      }
      if config != [] && config != storedPassword {
        written := written + [origin];
      }
      storedPassword := config;
      configPassword := config;
    }
  }

  // ----- the tag agrees with the origin

  /** What the tag says of a password that is there, by where it came from. */
  ghost predicate Agrees(password: Bytes, source: Source, origin: Origin, sha: Sha) {
    password != [] ==>
      match origin
      case Nowhere => false
      case FromPreset => source == Undefined
      case FromConfig => source == Undefined
      case FromUi => source == Undefined
      case FromPersonalBook => source == PersonalAb(password)
      case FromSharedCard(plain, salt) => source == SharedAb(plain) && password == sha(plain + salt)
      case FromBuiltIn(plain, salt) => source == SharedAb(plain) && password == sha(plain + salt)
  }

  predicate IsOthers(origin: Origin) {
    origin.FromSharedCard? || origin.FromBuiltIn?
  }

  datatype Event =
    | OnInitialize(shared: Option<string>, token: Option<Token>)
    | OnHash(salt: string, preset: string, book: Bytes, builtIn: string)
    | OnLoginError(passwordRejected: bool)
    | OnLoginFromUi(text: string, remember: bool)
    | OnPeerInfo

  function Next(s: Login, e: Event, sha: Sha): Login {
    match e
    case OnInitialize(shared, token) => AfterInitialize(s, shared, token)
    case OnHash(salt, preset, book, builtIn) => AfterHash(s, salt, preset, book, builtIn, sha)
    case OnLoginError(rejected) => AfterLoginError(s, rejected)
    case OnLoginFromUi(text, remember) => AfterUiLogin(s, text, remember, sha)
    case OnPeerInfo => AfterPeerInfo(s, sha)
  }

  function Run(s: Login, events: seq<Event>, sha: Sha): Login
    decreases |events|
  {
    if events == [] then s else Run(Next(s, events[0], sha), events[1..], sha)
  }

  lemma NextAgrees(s: Login, e: Event, sha: Sha)
    requires IsDigest(sha) && Agrees(s.password, s.source, s.origin, sha)
    requires e.OnInitialize? ==> e.token == None
    ensures var t := Next(s, e, sha); Agrees(t.password, t.source, t.origin, sha)
  {
    hide AfterHash;
    if e.OnHash? { HashAgrees(s, e.salt, e.preset, e.book, e.builtIn, sha); }
  }

  lemma HashAgrees(s: Login, salt: string, preset: string, book: Bytes, builtIn: string, sha: Sha)
    requires IsDigest(sha) && Agrees(s.password, s.source, s.origin, sha)
    ensures var t := AfterHash(s, salt, preset, book, builtIn, sha); Agrees(t.password, t.source, t.origin, sha)
  {
  }

  // ----- several sessions with one peer

  /** All sessions read and write the same stored config; `asked` are those that
      the peer has asked for a password. */
  datatype World = World(stored: Bytes, sessions: seq<Login>, asked: set<nat>)

  /** A session is opened, perhaps with a token that another one hands out, or
      something happens in it. */
  datatype Step = Open(shared: Option<string>, from: Option<nat>) | On(session: nat, event: Event)

  predicate Possible(w: World, step: Step) {
    match step
    case Open(_, from) => from.Some? ==> from.value < |w.sessions|
    case On(i, e) => i < |w.sessions| && (e.OnInitialize? ==> e.token == None)
  }

  function Take(w: World, step: Step, sha: Sha): World
    requires Possible(w, step)
  {
    match step
    case Open(shared, from) =>
      var token := if from.Some? then ConnToken(w.sessions[from.value]) else None;
      w.(sessions := w.sessions + [AfterInitialize(Fresh(w.stored), shared, token)])
    case On(i, e) =>
      var t := Next(w.sessions[i].(saved := w.stored), e, sha);
      World(t.saved, w.sessions[i := t], if e.OnHash? then w.asked + {i} else w.asked)
  }

  ghost predicate IsHistory(history: seq<World>, steps: seq<Step>, stored: Bytes, sha: Sha) {
    && |history| == |steps| + 1 && history[0] == World(stored, [], {})
    && forall k :: 0 <= k < |steps| ==> Possible(history[k], steps[k]) && history[k + 1] == Take(history[k], steps[k], sha)
  }

  ghost predicate AllAgree(w: World, sha: Sha) {
    forall s :: s in w.sessions ==> Agrees(s.password, s.source, s.origin, sha)
  }

  lemma TakeAgrees(w: World, step: Step, sha: Sha)
    requires IsDigest(sha) && AllAgree(w, sha) && Possible(w, step)
    ensures AllAgree(Take(w, step, sha), sha)
  {
    match step
    case Open(shared, from) => if from.Some? { assert w.sessions[from.value] in w.sessions; }
    case On(i, e) =>
      assert w.sessions[i] in w.sessions;
      NextAgrees(w.sessions[i].(saved := w.stored), e, sha);
  }

  /** Over every history of sessions, with any salts and with tokens handed from
      session to session: the tag of a password that is there agrees with where
      it came from. */
  lemma {:induction false} SourceAgrees(history: seq<World>, steps: seq<Step>, stored: Bytes, sha: Sha, k: nat)
    requires IsDigest(sha) && IsHistory(history, steps, stored, sha) && k < |history|
    ensures AllAgree(history[k], sha)
  {
    if k > 0 {
      SourceAgrees(history, steps, stored, sha, k - 1);
      TakeAgrees(history[k - 1], steps[k - 1], sha);
    }
  }

  // ----- which password is sent, and which is stored

  function Hashed(plain: string, salt: string, sha: Sha): Bytes {
    if plain == "" then [] else sha(plain + salt)
  }

  /** All the passwords there may be, the preferred ones first. */
  function Candidates(s: Login, salt: string, preset: string, book: Bytes, builtIn: string, sha: Sha): seq<Token> {
    var card := if s.shared.Some? then s.shared.value else "";
    [Token(Hashed(card, salt, sha), SharedAb(card), FromSharedCard(card, salt)),
     Token(s.password, s.source, s.origin),
     Token(Hashed(preset, salt, sha), Undefined, FromPreset),
     Token(s.cached, Undefined, FromConfig),
     Token(book, PersonalAb(book), FromPersonalBook),
     Token(Hashed(builtIn, salt, sha), SharedAb(builtIn), FromBuiltIn(builtIn, salt))]
  }

  /** When the peer asks, the first candidate that is a password is sent, with
      its own tag; without any the old tag stays. A shared card is used once. */
  lemma FirstCandidateIsSent(s: Login, salt: string, preset: string, book: Bytes, builtIn: string, sha: Sha, k: nat)
    requires IsDigest(sha)
    requires var c := Candidates(s, salt, preset, book, builtIn, sha);
             k <= |c| && (forall i :: 0 <= i < k ==> c[i].password == []) && (k < |c| ==> c[k].password != [])
    ensures var c := Candidates(s, salt, preset, book, builtIn, sha);
            var t := AfterHash(s, salt, preset, book, builtIn, sha);
            && Token(t.password, t.source, t.origin) == (if k < |c| then c[k] else Token([], s.source, s.origin))
            && t.shared == None && t.salt == salt
            && t.remember == s.remember && t.cached == s.cached && t.saved == s.saved && t.written == s.written
  {
    var c := Candidates(s, salt, preset, book, builtIn, sha);
    if k == 0 && c[0].password != [] {
      CardIsSent(s, salt, preset, book, builtIn, sha);
    } else {
      assert c[0].password == [];
      OthersInOrder(s, salt, preset, book, builtIn, sha, k);
    }
  }

  lemma CardIsSent(s: Login, salt: string, preset: string, book: Bytes, builtIn: string, sha: Sha)
    requires IsDigest(sha) && s.shared.Some? && s.shared.value != ""
    ensures var t := AfterHash(s, salt, preset, book, builtIn, sha);
            && Token(t.password, t.source, t.origin) == Candidates(s, salt, preset, book, builtIn, sha)[0]
            && t == s.(password := t.password, source := t.source, origin := t.origin, shared := None, salt := salt)
  {
  }

  /** The chain of choices that is left without a card. */
  lemma OthersInOrder(s: Login, salt: string, preset: string, book: Bytes, builtIn: string, sha: Sha, k: nat)
    requires IsDigest(sha) && (s.shared == None || s.shared.value == "") && 1 <= k <= 6
    requires var c := Candidates(s, salt, preset, book, builtIn, sha);
             (forall i :: 0 <= i < k ==> c[i].password == []) && (k < |c| ==> c[k].password != [])
    ensures var c := Candidates(s, salt, preset, book, builtIn, sha);
            var t := AfterHash(s, salt, preset, book, builtIn, sha);
            && Token(t.password, t.source, t.origin) == (if k < |c| then c[k] else Token([], s.source, s.origin))
            && t == s.(password := t.password, source := t.source, origin := t.origin, shared := None, salt := salt)
  {
    var c := Candidates(s, salt, preset, book, builtIn, sha);
    assert k > 1 ==> c[1].password == [];
    assert k > 2 ==> c[2].password == [];
    assert k > 3 ==> c[3].password == [];
    assert k > 4 ==> c[4].password == [];
    assert k > 5 ==> c[5].password == [];
  }

  /** What is stored after peer info, by where the password came from. */
  lemma StoredByOrigin(s: Login, sha: Sha)
    requires Agrees(s.password, s.source, s.origin, sha)
    ensures AfterPeerInfo(s, sha).saved ==
            if s.password != [] && s.origin == FromPersonalBook then s.password
            else if !s.remember then []
            else if s.password == [] || (IsOthers(s.origin) && sha(s.origin.plain + s.salt) == s.password) then s.saved
            else s.password
    ensures var t := AfterPeerInfo(s, sha); t.cached == t.saved && t == s.(saved := t.saved, cached := t.cached, written := t.written)
  {
  }

  /** A password typed into one session is sent in the next, which has no other
      source, exactly when it was to be remembered. */
  lemma TypedPasswordReturns(s: Login, text: string, remember: bool, salt: string, sha: Sha)
    requires IsDigest(sha) && text != ""
    ensures var first := AfterPeerInfo(AfterUiLogin(s, text, remember, sha), sha);
            var second := AfterHash(AfterInitialize(Fresh(first.saved), None, None), salt, "", [], "", sha);
            && (second.password == sha(text + s.salt) <==> remember)
            && second.password == (if remember then sha(text + s.salt) else []) && second.source == Undefined
            && second.remember == remember
  {
  }

  /** A rejected password is gone: when the peer asks next, the first of the
      other candidates is sent, and nothing if there is none. */
  lemma RejectedIsNotSentAgain(s: Login, salt: string, preset: string, book: Bytes, builtIn: string, sha: Sha, k: nat)
    requires IsDigest(sha)
    requires var c := Candidates(s, salt, preset, book, builtIn, sha);
             var others := [c[0]] + c[2..];
             k <= 5 && (forall i :: 0 <= i < k ==> others[i].password == []) && (k < 5 ==> others[k].password != [])
    ensures var c := Candidates(s, salt, preset, book, builtIn, sha);
            var others := [c[0]] + c[2..];
            var t := AfterHash(AfterLoginError(s, true), salt, preset, book, builtIn, sha);
            if k < 5 then Token(t.password, t.source, t.origin) == others[k] else t.password == []
  {
    var r := AfterLoginError(s, true);
    var c, d := Candidates(s, salt, preset, book, builtIn, sha), Candidates(r, salt, preset, book, builtIn, sha);
    var others := [c[0]] + c[2..];
    assert r.password == [] && d == c[1 := d[1]];
    var j := if k == 0 then 0 else k + 1;
    forall i | 0 <= i < j ensures d[i].password == [] {
      if i == 0 { assert d[0] == others[0]; } else if i > 1 { assert d[i] == others[i - 1]; }
    }
    assert k < 5 ==> d[j] == others[k];
    FirstCandidateIsSent(r, salt, preset, book, builtIn, sha, j);
  }

  /** Nothing but the password is forgotten; any other login error changes nothing. */
  lemma LoginErrorExactly(s: Login)
    ensures AfterLoginError(s, false) == s
    ensures var t := AfterLoginError(s, true);
            t.password == [] && t.origin == Nowhere && t == s.(password := t.password, origin := t.origin)
  {
  }

  /** An empty entry after a rejection falls back to the stored password, with a
      password present it changes nothing. */
  lemma EmptyEntry(s: Login, remember: bool, sha: Sha)
    ensures s.password != [] ==> AfterUiLogin(s, "", remember, sha) == s
    ensures var t := AfterUiLogin(AfterLoginError(s, true), "", remember, sha);
            && t.password == s.cached && (s.cached != [] ==> t.source == Undefined && t.origin == FromConfig)
            && t.remember == s.remember && t.saved == s.saved && t.cached == s.cached && t.written == s.written
  {
  }

  /** A token that was handed out is what the next session sends, unless it has a
      card, which it sends instead. */
  lemma TokenIsSent(s: Login, saved: Bytes, shared: Option<string>, salt: string, preset: string, book: Bytes, builtIn: string, sha: Sha)
    requires IsDigest(sha)
    ensures ConnToken(s).Some? <==> s.password != []
    ensures var next := AfterHash(AfterInitialize(Fresh(saved), shared, ConnToken(s)), salt, preset, book, builtIn, sha);
            if shared.Some? && shared.value != "" then
              next.password == sha(shared.value + salt) && next.source == SharedAb(shared.value)
            else
              s.password != [] ==> next.password == s.password && next.source == s.source && next.origin == s.origin
  {
  }

  /** Without token and card, the stored password is sent, and remembered. */
  lemma StoredIsSent(saved: Bytes, salt: string, book: Bytes, builtIn: string, sha: Sha)
    requires IsDigest(sha) && saved != []
    ensures var next := AfterHash(AfterInitialize(Fresh(saved), None, None), salt, "", book, builtIn, sha);
            next.password == saved && next.source == Undefined && next.remember
  {
  }

  // ----- other people's passwords are not remembered

  /** The peer always asks with the same salt, and peer info comes once it has asked. */
  predicate UsesSalt(w: World, step: Step, salt: string) {
    step.On? ==>
      && (step.event.OnHash? ==> step.event.salt == salt)
      && (step.event.OnPeerInfo? ==> step.session in w.asked)
  }

  /** Exactly when peer info stores a shared or built-in password: it is
      remembered, differs from what is stored, and was hashed with a salt that
      no longer gives the same hash. */
  lemma OthersWrittenExactlyWhen(s: Login, sha: Sha)
    requires Agrees(s.password, s.source, s.origin, sha) && s.password != [] && IsOthers(s.origin)
    ensures AfterPeerInfo(s, sha).written != s.written
       <==> s.remember && s.password != s.saved && sha(s.origin.plain + s.salt) != sha(s.origin.plain + s.origin.salt)
  {
    assert AfterPeerInfo(s, sha).written != s.written ==> |AfterPeerInfo(s, sha).written| == |s.written| + 1;
  }

  ghost predicate NoOthersWritten(written: seq<Origin>) {
    forall o :: o in written ==> !IsOthers(o) && o != Nowhere
  }

  ghost predicate Settled(s: Login, salt: string, sha: Sha) {
    && Agrees(s.password, s.source, s.origin, sha) && (IsOthers(s.origin) ==> s.origin.salt == salt)
    && NoOthersWritten(s.written)
  }

  lemma NextSettled(s: Login, e: Event, salt: string, sha: Sha)
    requires IsDigest(sha) && Settled(s, salt, sha) && (e.OnInitialize? ==> e.token == None)
    requires (e.OnHash? ==> e.salt == salt) && (e.OnPeerInfo? ==> s.salt == salt)
    ensures Settled(Next(s, e, sha), salt, sha) && (s.salt == salt || e.OnHash? ==> Next(s, e, sha).salt == salt)
  {
    NextAgrees(s, e, sha);
    match e
    case OnInitialize(shared, token) =>
    case OnHash(x, preset, book, builtIn) => HashSettled(s, salt, preset, book, builtIn, sha);
    case OnLoginError(rejected) =>
    case OnLoginFromUi(text, remember) =>
    case OnPeerInfo => PeerInfoSettled(s, salt, sha);
  }

  lemma HashSettled(s: Login, salt: string, preset: string, book: Bytes, builtIn: string, sha: Sha)
    requires IsOthers(s.origin) ==> s.origin.salt == salt
    ensures var t := AfterHash(s, salt, preset, book, builtIn, sha);
            t.salt == salt && t.written == s.written && (IsOthers(t.origin) ==> t.origin.salt == salt)
  {
  }

  lemma PeerInfoSettled(s: Login, salt: string, sha: Sha)
    requires Settled(s, salt, sha) && s.salt == salt
    ensures NoOthersWritten(AfterPeerInfo(s, sha).written)
  {
    if AfterPeerInfo(s, sha).written != s.written {
      assert AfterPeerInfo(s, sha).written == s.written + [s.origin];
      assert s.password != [];
      if IsOthers(s.origin) { OthersWrittenExactlyWhen(s, sha); }
    }
  }

  ghost predicate AllSettled(w: World, salt: string, sha: Sha) {
    forall i :: 0 <= i < |w.sessions| ==> Settled(w.sessions[i], salt, sha) && (i in w.asked ==> w.sessions[i].salt == salt)
  }

  lemma TakeSettled(w: World, step: Step, salt: string, sha: Sha)
    requires IsDigest(sha) && AllSettled(w, salt, sha) && Possible(w, step) && UsesSalt(w, step, salt)
    requires forall i :: i in w.asked ==> i < |w.sessions|
    ensures AllSettled(Take(w, step, sha), salt, sha)
    ensures var v := Take(w, step, sha); forall i :: i in v.asked ==> i < |v.sessions|
  {
    if step.On? { NextSettled(w.sessions[step.session].(saved := w.stored), step.event, salt, sha); }
  }

  lemma {:induction false} HistorySettled(history: seq<World>, steps: seq<Step>, stored: Bytes, salt: string, sha: Sha, k: nat)
    requires IsDigest(sha) && IsHistory(history, steps, stored, sha) && k < |history|
    requires forall j :: 0 <= j < |steps| ==> UsesSalt(history[j], steps[j], salt)
    ensures AllSettled(history[k], salt, sha) && forall i :: i in history[k].asked ==> i < |history[k].sessions|
  {
    if k > 0 {
      HistorySettled(history, steps, stored, salt, sha, k - 1);
      TakeSettled(history[k - 1], steps[k - 1], salt, sha);
    }
  }

  /** Over every history of sessions with one salt: no shared or built-in
      password is ever newly written to the stored peer config. */
  lemma OthersNeverWritten(history: seq<World>, steps: seq<Step>, stored: Bytes, salt: string, sha: Sha, k: nat)
    requires IsDigest(sha) && IsHistory(history, steps, stored, sha) && k < |history|
    requires forall j :: 0 <= j < |steps| ==> UsesSalt(history[j], steps[j], salt)
    ensures forall s :: s in history[k].sessions ==> NoOthersWritten(s.written)
  {
    HistorySettled(history, steps, stored, salt, sha, k);
  }

  /** With a second salt it can happen, if the hash tells the salts apart. */
  lemma SecondSaltWritesShared(stored: Bytes, plain: string, salt1: string, salt2: string, sha: Sha)
    requires IsDigest(sha) && stored != [] && plain != "" && sha(plain + salt1) != sha(plain + salt2)
    requires sha(plain + salt1) != stored
    ensures var events := [OnInitialize(Some(plain), None), OnHash(salt1, "", [], ""), OnHash(salt2, "", [], ""), OnPeerInfo];
            Run(Fresh(stored), events, sha).written == [FromSharedCard(plain, salt1)]
  {
    var s1 := AfterInitialize(Fresh(stored), Some(plain), None);
    var s2 := AfterHash(s1, salt1, "", [], "", sha);
    var s3 := AfterHash(s2, salt2, "", [], "", sha);
    var events := [OnInitialize(Some(plain), None), OnHash(salt1, "", [], ""), OnHash(salt2, "", [], ""), OnPeerInfo];
    assert events[1..][1..][1..] == [OnPeerInfo];
    assert Run(AfterPeerInfo(s3, sha), [OnPeerInfo][1..], sha) == AfterPeerInfo(s3, sha);
    assert Run(s3, [OnPeerInfo], sha) == AfterPeerInfo(s3, sha);
    assert Run(s2, events[2..], sha) == Run(s3, events[2..][1..], sha);
    assert Run(s1, events[1..], sha) == Run(s2, events[1..][1..], sha);
    assert Run(Fresh(stored), events, sha) == Run(s1, events[1..], sha);
    assert events[1..][1..] == events[2..];
  }
}
