/** Which TLS configurations a request tries, and which one is remembered
    (client/src/common.rs, client/libs/hbb_common/src/tls.rs). */
module TlsRetry {
  import opened Basics

  datatype TlsType = Plain | NativeTls | Rustls

  datatype Config = Config(tls: TlsType, acceptInvalid: bool)

  /** The outcome of one attempt; only failures of the request itself are retried. */
  datatype Reply = Answered | RequestFailed | OtherFailure

  /** How the `n`-th attempt ends with a configuration. */
  type Network = (nat, Config) -> Reply

  datatype Url = Url(isPlain: bool, domain: string)

  datatype Cache = Cache(types: map<string, TlsType>, certs: map<string, bool>)

  function OrElse<T>(o: Option<T>, default: T): T {
    if o.Some? then o.value else default
  }

  function CachedType(c: Cache, url: Url): Option<TlsType> {
    if url.isPlain then Some(Plain)
    else if url.domain in c.types then Some(c.types[url.domain]) else None
  }

  function CachedCert(c: Cache, url: Url, allowInsecure: bool): Option<bool> {
    if !allowInsecure || url.isPlain then Some(false)
    else if url.domain in c.certs then Some(c.certs[url.domain]) else None
  }

  function Upsert(c: Cache, url: Url, used: Config): Cache {
    if url.isPlain then c
    else Cache(c.types[url.domain := used.tls], c.certs[url.domain := used.acceptInvalid])
  }

  /** How much is still to be found out; every retry settles something. */
  function Unknowns(tls: Option<TlsType>, cert: Option<bool>): nat {
    (if tls.None? then 2 else 0) + (if cert.None? then 1 else 0)
  }

  datatype Result = Result(tried: seq<Config>, answered: bool)

  /** The retry recursion, from the `n`-th attempt on. */
  function Attempts(tls: Option<TlsType>, cert: Option<bool>, original: Option<bool>, n: nat, net: Network): (r: Result)
    ensures r.tried != []
    decreases Unknowns(tls, cert)
  {
    var c := Config(OrElse(tls, Rustls), OrElse(cert, false));
    if net(n, c) == Answered then Result([c], true)
    else if net(n, c) == OtherFailure || (tls.Some? && cert.Some?) then Result([c], false)
    else
      var r := if cert.None? then Attempts(tls, Some(true), original, n + 1, net)
               else Attempts(Some(NativeTls), original, original, n + 1, net);
      Result([c] + r.tried, r.answered)
  }

  function Last(s: seq<Config>): Config
    requires s != []
  {
    s[|s| - 1]
  }

  function Remember(c: Cache, url: Url, r: Result): Cache {
    if r.answered && r.tried != [] then Upsert(c, url, Last(r.tried)) else c
  }

  /** What a whole request tries, starting from what is cached. */
  function Request(c: Cache, url: Url, allowInsecure: bool, net: Network): Result {
    var cert := CachedCert(c, url, allowInsecure);
    Attempts(CachedType(c, url), cert, cert, 0, net)
  }

  // ----- the two request functions, whose only state is the cache

  class HttpClient {
    var types: map<string, TlsType>
    var certs: map<string, bool>

    function State(): Cache
      reads this
    {
      Cache(types, certs)
    }

    method UpsertTlsCache(url: Url, used: Config)
      modifies this
      ensures State() == Upsert(old(State()), url, used)
    {
      if url.isPlain {
        return;
      }
      types := types[url.domain := used.tls];
      certs := certs[url.domain := used.acceptInvalid];
    }

    /** `post_request_` */
    method PostRequest(url: Url, tls: Option<TlsType>, cert: Option<bool>, original: Option<bool>, n: nat, net: Network)
      returns (r: Result)
      modifies this
      ensures r == Attempts(tls, cert, original, n, net) && State() == Remember(old(State()), url, r)
      decreases Unknowns(tls, cert)
    {
      var c := Config(OrElse(tls, Rustls), OrElse(cert, false));
      var reply := net(n, c);
      if tls.Some? && cert.Some? {
        if reply == Answered {
          UpsertTlsCache(url, c);
          return Result([c], true);
        }
        return Result([c], false);
      }
      if reply == Answered {
        UpsertTlsCache(url, c);
        return Result([c], true);
      }
      if reply == RequestFailed {
        var more;
        if cert.None? {
          more := PostRequest(url, tls, Some(true), original, n + 1, net);
        } else {
          more := PostRequest(url, Some(NativeTls), original, original, n + 1, net);
        }
        return Result([c] + more.tried, more.answered);
      }
      return Result([c], false);
    }

    /** `get_http_response_async`; an unknown method or bad header fails before anything is sent. */
    method GetHttpResponse(url: Url, isMethod: bool, isHeader: bool, tls: Option<TlsType>, cert: Option<bool>,
                           original: Option<bool>, n: nat, net: Network)
      returns (r: Result)
      modifies this
      ensures r == if isMethod && isHeader then Attempts(tls, cert, original, n, net) else Result([], false)
      ensures State() == Remember(old(State()), url, r)
      decreases Unknowns(tls, cert)
    {
      if !isMethod {
        return Result([], false);
      }
      if !isHeader {
        return Result([], false);
      }
      var c := Config(OrElse(tls, Rustls), OrElse(cert, false));
      var reply := net(n, c);
      if tls.Some? && cert.Some? {
        if reply == Answered {
          UpsertTlsCache(url, c);
          return Result([c], true);
        }
        return Result([c], false);
      }
      if reply == Answered {
        UpsertTlsCache(url, c);
        return Result([c], true);
      }
      if reply == RequestFailed {
        var more;
        if cert.None? {
          more := GetHttpResponse(url, isMethod, isHeader, tls, Some(true), original, n + 1, net);
        } else {
          more := GetHttpResponse(url, isMethod, isHeader, Some(NativeTls), original, original, n + 1, net);
        }
        return Result([c] + more.tried, more.answered);
      }
      return Result([c], false);
    }
  }

  // ----- the order of the attempts, independently of the recursion

  /** Every configuration compatible with what is known, safest first: each TLS
      type with certificates checked and then unchecked. */
  function Ladder(tls: Option<TlsType>, cert: Option<bool>): (r: seq<Config>)
    ensures r != []
  {
    var types := if tls.Some? then [tls.value] else [Rustls, NativeTls];
    var flags := if cert.Some? then [cert.value] else [false, true];
    seq(|types| * |flags|, i requires 0 <= i < |types| * |flags| =>
      Config(types[i / |flags|], flags[i % |flags|]))
  }

  /** How many rungs are climbed: up to the first that does not fail in the request. */
  function Climbed(ladder: seq<Config>, n: nat, net: Network): (k: nat)
    requires ladder != []
    ensures 1 <= k <= |ladder|
    ensures forall i :: 0 <= i < k - 1 ==> net(n + i, ladder[i]) == RequestFailed
    ensures k == |ladder| || net(n + k - 1, ladder[k - 1]) != RequestFailed
  {
    if |ladder| == 1 || net(n, ladder[0]) != RequestFailed then 1 else 1 + Climbed(ladder[1..], n + 1, net)
  }

  lemma LadderOf(tls: Option<TlsType>, cert: Option<bool>)
    ensures tls.Some? && cert.Some? ==> Ladder(tls, cert) == [Config(tls.value, cert.value)]
    ensures tls.Some? && cert.None? ==> Ladder(tls, cert) == [Config(tls.value, false), Config(tls.value, true)]
    ensures tls.None? && cert.Some? ==> Ladder(tls, cert) == [Config(Rustls, cert.value), Config(NativeTls, cert.value)]
    ensures tls.None? && cert.None? ==>
              Ladder(tls, cert) == [Config(Rustls, false), Config(Rustls, true), Config(NativeTls, false), Config(NativeTls, true)]
  {
  }

  ghost predicate Climbs(r: Result, ladder: seq<Config>, n: nat, net: Network)
    requires ladder != []
  {
    var k := Climbed(ladder, n, net);
    r == Result(ladder[..k], net(n + k - 1, ladder[k - 1]) == Answered)
  }

  lemma OneRung(c: Config, n: nat, net: Network)
    ensures Climbs(Result([c], net(n, c) == Answered), [c], n, net)
  {
  }

  lemma AnotherRung(c: Config, rest: seq<Config>, r: Result, n: nat, net: Network)
    requires rest != [] && (net(n, c) == RequestFailed ==> Climbs(r, rest, n + 1, net))
    ensures Climbs(if net(n, c) == RequestFailed then Result([c] + r.tried, r.answered) else Result([c], net(n, c) == Answered),
                   [c] + rest, n, net)
  {
    var ladder := [c] + rest;
    assert ladder[1..] == rest;
    if net(n, c) == RequestFailed {
      var k := Climbed(rest, n + 1, net);
      assert ladder[..k + 1] == [c] + rest[..k];
    }
  }

  lemma KnownTypeClimbs(t: TlsType, cert: Option<bool>, original: Option<bool>, n: nat, net: Network)
    ensures Climbs(Attempts(Some(t), cert, original, n, net), Ladder(Some(t), cert), n, net)
  {
    hide Climbs, Climbed;
    LadderOf(Some(t), cert);
    if cert.Some? {
      OneRung(Config(t, cert.value), n, net);
    } else {
      var c, d := Config(t, false), Config(t, true);
      OneRung(d, n + 1, net);
      AnotherRung(c, [d], Attempts(Some(t), Some(true), original, n + 1, net), n, net);
      assert [c] + [d] == [c, d];
    }
  }

  lemma KnownCertClimbs(cert: bool, n: nat, net: Network)
    ensures Climbs(Attempts(None, Some(cert), Some(cert), n, net), Ladder(None, Some(cert)), n, net)
  {
    hide Climbs, Climbed;
    var c, d := Config(Rustls, cert), Config(NativeTls, cert);
    LadderOf(None, Some(cert));
    OneRung(d, n + 1, net);
    AnotherRung(c, [d], Attempts(Some(NativeTls), Some(cert), Some(cert), n + 1, net), n, net);
    assert [c] + [d] == [c, d];
  }

  lemma UncheckedRustlsClimbs(n: nat, net: Network)
    ensures Climbs(Attempts(None, Some(true), None, n, net), [Config(Rustls, true)] + Ladder(Some(NativeTls), None), n, net)
  {
    hide Climbs, Climbed;
    LadderOf(Some(NativeTls), None);
    KnownTypeClimbs(NativeTls, None, None, n + 1, net);
    AnotherRung(Config(Rustls, true), Ladder(Some(NativeTls), None), Attempts(Some(NativeTls), None, None, n + 1, net), n, net);
  }

  lemma NothingKnownClimbs(n: nat, net: Network)
    ensures Climbs(Attempts(None, None, None, n, net), Ladder(None, None), n, net)
  {
    hide Climbs, Climbed;
    var rest := [Config(Rustls, true)] + Ladder(Some(NativeTls), None);
    UncheckedRustlsClimbs(n + 1, net);
    AnotherRung(Config(Rustls, false), rest, Attempts(None, Some(true), None, n + 1, net), n, net);
    LadderOf(Some(NativeTls), None);
    LadderOf(None, None);
    assert [Config(Rustls, false)] + rest == Ladder(None, None);
  }

  /** The attempts are the rungs of the ladder, up to the first one that does
      not fail in the request. */
  lemma AttemptsClimbLadder(tls: Option<TlsType>, cert: Option<bool>, n: nat, net: Network)
    ensures Ladder(tls, cert) != [] && Climbs(Attempts(tls, cert, cert, n, net), Ladder(tls, cert), n, net)
  {
    LadderOf(tls, cert);
    if tls.Some? {
      KnownTypeClimbs(tls.value, cert, cert, n, net);
    } else if cert.Some? {
      KnownCertClimbs(cert.value, n, net);
    } else {
      NothingKnownClimbs(n, net);
    }
  }

  /** At most four attempts with nothing cached, two with one value, one with
      both, and never the same configuration twice. */
  lemma AttemptsBounded(tls: Option<TlsType>, cert: Option<bool>, n: nat, net: Network)
    ensures var tried := Attempts(tls, cert, cert, n, net).tried;
            && |tried| <= (if tls.None? then 2 else 1) * (if cert.None? then 2 else 1)
            && forall i, j :: 0 <= i < j < |tried| ==> tried[i] != tried[j]
  {
    LadderOf(tls, cert);
    AttemptsClimbLadder(tls, cert, n, net);
  }

  lemma AnswerIsOnLadder(tls: Option<TlsType>, cert: Option<bool>, net: Network)
    ensures Last(Attempts(tls, cert, cert, 0, net).tried) in Ladder(tls, cert)
  {
    AttemptsClimbLadder(tls, cert, 0, net);
  }

  lemma RememberedIsKnown(c: Cache, url: Url, allowInsecure: bool, used: Config)
    requires used in Ladder(CachedType(c, url), CachedCert(c, url, allowInsecure))
    ensures CachedType(Upsert(c, url, used), url) == Some(used.tls)
    ensures CachedCert(Upsert(c, url, used), url, allowInsecure) == Some(used.acceptInvalid)
  {
    LadderOf(CachedType(c, url), CachedCert(c, url, allowInsecure));
  }

  /** After an answer the next request, whatever the network does, makes one
      attempt, with the configuration that was answered. */
  lemma NextRequestTriesOnce(c: Cache, url: Url, allowInsecure: bool, net: Network, net': Network)
    requires Request(c, url, allowInsecure, net).answered
    ensures var r := Request(c, url, allowInsecure, net);
            Request(Remember(c, url, r), url, allowInsecure, net').tried == [Last(r.tried)]
  {
    AnswerIsOnLadder(CachedType(c, url), CachedCert(c, url, allowInsecure), net);
    RememberedIsKnown(c, url, allowInsecure, Last(Request(c, url, allowInsecure, net).tried));
  }

  /** Without insecure fallback no attempt accepts an invalid certificate. */
  lemma NeverInsecure(c: Cache, url: Url, net: Network)
    ensures forall used :: used in Request(c, url, false, net).tried ==> !used.acceptInvalid
  {
    LadderOf(CachedType(c, url), Some(false));
    AttemptsClimbLadder(CachedType(c, url), Some(false), 0, net);
  }

  /** A plain url is requested once, without TLS, and nothing is remembered of it. */
  lemma PlainUrls(c: Cache, url: Url, allowInsecure: bool, net: Network)
    requires url.isPlain
    ensures Request(c, url, allowInsecure, net).tried == [Config(Plain, false)]
    ensures Remember(c, url, Request(c, url, allowInsecure, net)) == c
  {
  }

  /** What is remembered of one domain changes nothing for another, and a request
      without an answer changes nothing at all. */
  lemma OtherDomainsKept(c: Cache, url: Url, r: Result, other: Url, allowInsecure: bool)
    requires other.domain != url.domain || !r.answered
    ensures CachedType(Remember(c, url, r), other) == CachedType(c, other)
    ensures CachedCert(Remember(c, url, r), other, allowInsecure) == CachedCert(c, other, allowInsecure)
  {
  }
}
