/** The list of peers found on the local network (`handle_received_peers` in
    client/src/lan.rs). */
module LanPeers {
  type Addresses = map<string, string>

  datatype Peer = Peer(id: string, user: string, online: bool, addresses: Addresses)

  datatype Key = Key(id: string, user: string)

  /** What `is_same_peer` compares. */
  function KeyOf(p: Peer): Key { Key(p.id, p.user) }

  function Without(peers: seq<Peer>, k: Key): seq<Peer> {
    if peers == [] then []
    else if KeyOf(peers[0]) == k then peers[1..]
    else [peers[0]] + Without(peers[1..], k)
  }

  /** Position of the first peer with the key, or the length. */
  function Position(peers: seq<Peer>, k: Key): (i: nat)
    ensures i <= |peers| && (i < |peers| ==> KeyOf(peers[i]) == k)
    ensures forall j :: 0 <= j < i ==> KeyOf(peers[j]) != k
  {
    if peers == [] || KeyOf(peers[0]) == k then 0 else 1 + Position(peers[1..], k)
  }

  lemma {:induction false} WithoutIsRemoved(peers: seq<Peer>, k: Key)
    ensures Without(peers, k) == var i := Position(peers, k); if i < |peers| then peers[..i] + peers[i + 1..] else peers
  {
    if peers != [] && KeyOf(peers[0]) != k {
      WithoutIsRemoved(peers[1..], k);
      var j := Position(peers[1..], k);
      assert peers[..j + 1] == [peers[0]] + peers[1..][..j];
      assert j < |peers[1..]| ==> peers[1..][j + 1..] == peers[j + 2..];
    }
  }

  /** A response as it is listed: addresses the peer had are kept if its id has
      responded before, the older entry winning. */
  function Updated(peers: seq<Peer>, seen: set<string>, p: Peer): (q: Peer)
    ensures KeyOf(q) == KeyOf(p)
  {
    var i := Position(peers, KeyOf(p));
    if i < |peers| && p.id in seen then p.(addresses := p.addresses + peers[i].addresses, online := true) else p
  }

  /** One response: the peer moves to the front. */
  function Receive(peers: seq<Peer>, seen: set<string>, p: Peer): seq<Peer> {
    [Updated(peers, seen, p)] + Without(peers, KeyOf(p))
  }

  function Ids(rs: seq<Peer>): set<string> {
    set p | p in rs :: p.id
  }

  /** The list after the responses `rs`, most recent last. */
  function After(peers: seq<Peer>, rs: seq<Peer>): seq<Peer> {
    if rs == [] then peers
    else
      var n := |rs| - 1;
      Receive(After(peers, rs[..n]), Ids(rs[..n]), rs[n])
  }

  function Offline(peers: seq<Peer>): (r: seq<Peer>)
    ensures |r| == |peers| && forall i :: 0 <= i < |r| ==> r[i] == peers[i].(online := false)
  {
    seq(|peers|, i requires 0 <= i < |peers| => peers[i].(online := false))
  }

  datatype Arrival = Arrival(peer: Peer, at: int)

  function Peers(arrivals: seq<Arrival>): (rs: seq<Peer>)
    ensures |rs| == |arrivals| && forall i :: 0 <= i < |rs| ==> rs[i] == arrivals[i].peer
  {
    seq(|arrivals|, i requires 0 <= i < |arrivals| => arrivals[i].peer)
  }

  lemma AfterOneMore(peers: seq<Peer>, rs: seq<Peer>, i: nat)
    requires i < |rs|
    ensures After(peers, rs[..i + 1]) == Receive(After(peers, rs[..i]), Ids(rs[..i]), rs[i])
    ensures Ids(rs[..i + 1]) == Ids(rs[..i]) + {rs[i].id}
  {
    assert rs[..i + 1][..i] == rs[..i] && rs[..i + 1] == rs[..i] + [rs[i]];
  }

  ghost predicate Throttled(times: seq<int>) {
    forall i :: 0 < i < |times| ==> times[i] - times[i - 1] > 300
  }

  ghost predicate InOrder(arrivals: seq<Arrival>) {
    forall i, j :: 0 <= i < j < |arrivals| ==> arrivals[i].at <= arrivals[j].at
  }

  /** A list was stored at that time or at most 300 ms before. */
  ghost predicate StoredBy(times: seq<int>, at: int) {
    exists k :: 0 <= k < |times| && at - 300 <= times[k] <= at
  }

  /** The times of the stores caused by the first `n` responses. */
  ghost predicate StoredSoFar(times: seq<int>, arrivals: seq<Arrival>, n: nat)
    requires n <= |arrivals|
  {
    && Throttled(times) && (n > 0 ==> times != [] && times[0] == arrivals[0].at)
    && (times != [] ==> exists j :: 0 <= j < n && times[|times| - 1] == arrivals[j].at)
    && (InOrder(arrivals) ==> forall j :: 0 <= j < n ==> StoredBy(times, arrivals[j].at))
  }

  lemma StoresNow(times: seq<int>, arrivals: seq<Arrival>, n: nat)
    requires n < |arrivals| && StoredSoFar(times, arrivals, n)
    requires times == [] || arrivals[n].at - times[|times| - 1] > 300
    ensures StoredSoFar(times + [arrivals[n].at], arrivals, n + 1)
  {
    var more := times + [arrivals[n].at];
    assert more[|times|] == arrivals[n].at;
    if InOrder(arrivals) {
      forall j | 0 <= j < n ensures StoredBy(more, arrivals[j].at) {
        var k :| 0 <= k < |times| && arrivals[j].at - 300 <= times[k] <= arrivals[j].at;
        assert more[k] == times[k];
      }
    }
  }

  lemma StoresNothing(times: seq<int>, arrivals: seq<Arrival>, n: nat)
    requires n < |arrivals| && StoredSoFar(times, arrivals, n)
    requires times != [] && arrivals[n].at - times[|times| - 1] <= 300
    ensures StoredSoFar(times, arrivals, n + 1)
  {
  }

  /** One turn of the loop. */
  method HandleOne(before: seq<Peer>, seen: set<string>, p: Peer) returns (peers: seq<Peer>, responseSet: set<string>)
    ensures peers == Receive(before, seen, p) && responseSet == seen + {p.id}
  {
    var peer := p;
    peers := before;
    var inResponseSet := peer.id in seen;
    responseSet := seen + {peer.id};
    var pos := Position(peers, KeyOf(peer));
    WithoutIsRemoved(before, KeyOf(p));
    if pos < |peers| {
      var peer1 := peers[pos];
      peers := peers[..pos] + peers[pos + 1..];
      if inResponseSet {
        peer := peer.(addresses := peer.addresses + peer1.addresses, online := true);
      }
    }
    peers := [peer] + peers;
  }

  /** The loop over the channel; `writes` are the lists stored, `times` when. */
  method HandleReceivedPeers(stored: seq<Peer>, arrivals: seq<Arrival>) returns (peers: seq<Peer>, writes: seq<seq<Peer>>, times: seq<int>)
    ensures peers == After(Offline(stored), Peers(arrivals))
    ensures |writes| == |times| + 1 && writes[|times|] == peers && Throttled(times)
    ensures arrivals != [] ==> times != [] && times[0] == arrivals[0].at && writes[0] == After(Offline(stored), Peers(arrivals)[..1])
    ensures InOrder(arrivals) ==> forall a :: a in arrivals ==> StoredBy(times, a.at)
  {
    peers := Offline(stored);
    writes, times := [], [];
    var responseSet: set<string> := {};
    ghost var rs := Peers(arrivals);
    assert rs[..0] == [];
    for i := 0 to |arrivals|
      invariant responseSet == Ids(rs[..i]) && peers == After(Offline(stored), rs[..i])
      invariant |writes| == |times| && StoredSoFar(times, arrivals, i)
      invariant i > 0 ==> writes[0] == After(Offline(stored), rs[..1])
    {
      AfterOneMore(Offline(stored), rs, i);
      peers, responseSet := HandleOne(peers, responseSet, arrivals[i].peer);
      if times == [] || arrivals[i].at - times[|times| - 1] > 300 {
        writes := writes + [peers];
        StoresNow(times, arrivals, i);
        times := times + [arrivals[i].at];
      } else {
        StoresNothing(times, arrivals, i);
      }
    }
    assert rs[..|arrivals|] == rs;
    writes := writes + [peers];
  }

  // ----- what the list looks like

  /** No key twice. */
  ghost predicate Distinct(peers: seq<Peer>)
    decreases |peers|
  {
    peers != [] ==> (forall p :: p in peers[1..] ==> KeyOf(p) != KeyOf(peers[0])) && Distinct(peers[1..])
  }

  predicate Responds(rs: seq<Peer>, k: Key) {
    exists p :: p in rs && KeyOf(p) == k
  }

  /** Index of the last response with the key, or -1. */
  function LastResponse(rs: seq<Peer>, k: Key): (i: int)
    ensures -1 <= i < |rs| && (i >= 0 ==> KeyOf(rs[i]) == k)
    ensures forall j :: i < j < |rs| ==> KeyOf(rs[j]) != k
  {
    if rs == [] then -1
    else if KeyOf(rs[|rs| - 1]) == k then |rs| - 1
    else LastResponse(rs[..|rs| - 1], k)
  }

  /** The most recent responders first. */
  ghost predicate ByRecency(peers: seq<Peer>, rs: seq<Peer>)
    decreases |peers|
  {
    peers != [] ==>
      && (forall p :: p in peers[1..] ==> LastResponse(rs, KeyOf(peers[0])) > LastResponse(rs, KeyOf(p)))
      && ByRecency(peers[1..], rs)
  }

  /** The stored peers that never responded, in their original order. */
  function Silent(peers: seq<Peer>, rs: seq<Peer>): seq<Peer> {
    if peers == [] then []
    else if Responds(rs, KeyOf(peers[0])) then Silent(peers[1..], rs)
    else [peers[0]] + Silent(peers[1..], rs)
  }

  function Others(peers: seq<Peer>, k: Key): (r: seq<Peer>)
    ensures forall p :: p in r <==> p in peers && KeyOf(p) != k
  {
    if peers == [] then []
    else if KeyOf(peers[0]) == k then Others(peers[1..], k)
    else [peers[0]] + Others(peers[1..], k)
  }

  // ----- move to front

  lemma {:induction false} OthersAppend(a: seq<Peer>, b: seq<Peer>, k: Key)
    ensures Others(a + b, k) == Others(a, k) + Others(b, k)
  {
    if a == [] {
      assert a + b == b;
    } else {
      assert (a + b)[1..] == a[1..] + b;
      OthersAppend(a[1..], b, k);
    }
  }

  lemma {:induction false} OthersOfNone(peers: seq<Peer>, k: Key)
    requires forall p :: p in peers ==> KeyOf(p) != k
    ensures Others(peers, k) == peers
  {
    if peers != [] {
      assert peers[0] in peers;
      OthersOfNone(peers[1..], k);
    }
  }

  /** Without duplicates, removing the first is removing all. */
  lemma {:induction false} WithoutIsOthers(peers: seq<Peer>, k: Key)
    requires Distinct(peers)
    ensures Without(peers, k) == Others(peers, k)
    decreases |peers|
  {
    if peers != [] {
      if KeyOf(peers[0]) == k {
        OthersOfNone(peers[1..], k);
      } else {
        WithoutIsOthers(peers[1..], k);
      }
    }
  }

  lemma {:induction false} OthersDistinct(peers: seq<Peer>, k: Key)
    requires Distinct(peers)
    ensures Distinct(Others(peers, k))
    decreases |peers|
  {
    if peers != [] {
      OthersDistinct(peers[1..], k);
      var rest := Others(peers[1..], k);
      assert KeyOf(peers[0]) != k ==> Others(peers, k)[1..] == rest;
    }
  }

  lemma PutInFront(q: Peer, rest: seq<Peer>)
    requires Distinct(rest) && forall p :: p in rest ==> KeyOf(p) != KeyOf(q)
    ensures Distinct([q] + rest)
  {
    assert ([q] + rest)[1..] == rest;
  }

  lemma {:induction false} SilentShrinks(peers: seq<Peer>, rs: seq<Peer>, p: Peer)
    ensures Silent(peers, rs + [p]) == Others(Silent(peers, rs), KeyOf(p))
  {
    if peers != [] {
      var k := KeyOf(peers[0]);
      SilentShrinks(peers[1..], rs, p);
      OneMoreResponds(rs, p, k);
      if !Responds(rs, k) { assert Silent(peers, rs)[1..] == Silent(peers[1..], rs); }
    }
  }

  lemma OneMoreResponds(rs: seq<Peer>, p: Peer, k: Key)
    ensures Responds(rs + [p], k) <==> Responds(rs, k) || KeyOf(p) == k
  {
    assert forall x :: x in rs + [p] <==> x in rs || x == p;
    if Responds(rs, k) {
      var x :| x in rs && KeyOf(x) == k;
      assert x in rs + [p];
    }
    if KeyOf(p) == k { assert p in rs + [p]; }
  }

  lemma {:induction false} AllSilent(peers: seq<Peer>)
    ensures Silent(peers, []) == peers
  {
    if peers != [] {
      assert !Responds([], KeyOf(peers[0]));
      AllSilent(peers[1..]);
    }
  }

  /** The responders: each response puts its peer in front of the others. */
  function Front(peers: seq<Peer>, rs: seq<Peer>): seq<Peer> {
    if rs == [] then []
    else
      var n := |rs| - 1;
      [Updated(After(peers, rs[..n]), Ids(rs[..n]), rs[n])] + Others(Front(peers, rs[..n]), KeyOf(rs[n]))
  }

  lemma ReceiveSplits(peers: seq<Peer>, seen: set<string>, p: Peer, front: seq<Peer>, silent: seq<Peer>)
    requires Distinct(peers) && peers == front + silent
    ensures Receive(peers, seen, p) == [Updated(peers, seen, p)] + Others(front, KeyOf(p)) + Others(silent, KeyOf(p))
    ensures Distinct(Receive(peers, seen, p))
  {
    var q, k := Updated(peers, seen, p), KeyOf(p);
    WithoutIsOthers(peers, k);
    OthersAppend(front, silent, k);
    OthersDistinct(peers, k);
    PutInFront(q, Others(peers, k));
    Regroup(q, Others(front, k), Others(silent, k));
  }

  lemma Regroup(q: Peer, a: seq<Peer>, b: seq<Peer>)
    ensures [q] + (a + b) == [q] + a + b
  {
  }

  /** The list is the responders, then the silent ones as they were, and no peer is in it twice. */
  lemma {:induction false} FrontThenSilent(peers: seq<Peer>, rs: seq<Peer>)
    requires Distinct(peers)
    ensures After(peers, rs) == Front(peers, rs) + Silent(peers, rs) && Distinct(After(peers, rs))
    decreases |rs|
  {
    if rs == [] {
      AllSilent(peers);
    } else {
      var rs', p := rs[..|rs| - 1], rs[|rs| - 1];
      FrontThenSilent(peers, rs');
      FrontOneMore(peers, rs', p);
      assert rs == rs' + [p];
    }
  }

  lemma FrontOneMore(peers: seq<Peer>, rs: seq<Peer>, p: Peer)
    requires Distinct(After(peers, rs)) && After(peers, rs) == Front(peers, rs) + Silent(peers, rs)
    ensures After(peers, rs + [p]) == Front(peers, rs + [p]) + Silent(peers, rs + [p]) && Distinct(After(peers, rs + [p]))
  {
    assert (rs + [p])[..|rs|] == rs;
    ReceiveSplits(After(peers, rs), Ids(rs), p, Front(peers, rs), Silent(peers, rs));
    SilentShrinks(peers, rs, p);
  }

  lemma LastOfLonger(rs: seq<Peer>, p: Peer, k: Key)
    ensures LastResponse(rs + [p], k) == if KeyOf(p) == k then |rs| else LastResponse(rs, k)
  {
    assert (rs + [p])[..|rs|] == rs;
  }

  lemma {:induction false} OthersByRecency(front: seq<Peer>, rs: seq<Peer>, p: Peer)
    requires ByRecency(front, rs)
    ensures ByRecency(Others(front, KeyOf(p)), rs + [p])
    decreases |front|
  {
    if front != [] {
      OthersByRecency(front[1..], rs, p);
      if KeyOf(front[0]) != KeyOf(p) {
        var rest := Others(front[1..], KeyOf(p));
        assert Others(front, KeyOf(p))[1..] == rest;
        LastOfLonger(rs, p, KeyOf(front[0]));
        forall x | x in rest ensures LastResponse(rs + [p], KeyOf(front[0])) > LastResponse(rs + [p], KeyOf(x)) {
          LastOfLonger(rs, p, KeyOf(x));
        }
      }
    }
  }

  lemma NewestInFront(q: Peer, front: seq<Peer>, rs: seq<Peer>, p: Peer)
    requires ByRecency(front, rs) && KeyOf(q) == KeyOf(p)
    ensures ByRecency([q] + Others(front, KeyOf(p)), rs + [p])
  {
    var rest := Others(front, KeyOf(p));
    OthersByRecency(front, rs, p);
    assert ([q] + rest)[1..] == rest;
    LastOfLonger(rs, p, KeyOf(q));
    forall x | x in rest ensures |rs| > LastResponse(rs + [p], KeyOf(x)) { LastOfLonger(rs, p, KeyOf(x)); }
  }

  lemma {:induction false} FrontByRecency(peers: seq<Peer>, rs: seq<Peer>)
    requires Distinct(peers)
    ensures ByRecency(Front(peers, rs), rs)
    ensures forall k :: Responds(rs, k) <==> exists q :: q in Front(peers, rs) && KeyOf(q) == k
    decreases |rs|
  {
    if rs != [] {
      var n := |rs| - 1;
      var rs', p, front := rs[..n], rs[n], Front(peers, rs[..n]);
      var q := Updated(After(peers, rs'), Ids(rs'), p);
      assert rs == rs' + [p];
      FrontByRecency(peers, rs');
      NewestInFront(q, front, rs', p);
      forall k ensures Responds(rs, k) <==> exists x :: x in Front(peers, rs) && KeyOf(x) == k {
        OneMoreResponds(rs', p, k);
        KeysOfFront(q, front, p, k);
      }
    }
  }

  lemma KeysOfFront(q: Peer, front: seq<Peer>, p: Peer, k: Key)
    requires KeyOf(q) == KeyOf(p)
    ensures (exists x :: x in [q] + Others(front, KeyOf(p)) && KeyOf(x) == k)
       <==> KeyOf(p) == k || exists x :: x in front && KeyOf(x) == k
  {
    var all := [q] + Others(front, KeyOf(p));
    assert forall x :: x in all <==> x == q || x in Others(front, KeyOf(p));
    if KeyOf(p) == k {
      assert q in all;
    } else if x :| x in front && KeyOf(x) == k {
      assert x in all;
    }
  }

  /** After any responses: first the distinct responders by most recent
      response, then the peers that did not respond, as they were. */
  lemma ListIsByRecency(stored: seq<Peer>, rs: seq<Peer>)
    requires Distinct(Offline(stored))
    ensures var peers := Offline(stored);
            && Distinct(After(peers, rs)) && After(peers, rs) == Front(peers, rs) + Silent(peers, rs)
            && ByRecency(Front(peers, rs), rs)
            && forall k :: Responds(rs, k) <==> exists q :: q in Front(peers, rs) && KeyOf(q) == k
  {
    FrontThenSilent(Offline(stored), rs);
    FrontByRecency(Offline(stored), rs);
  }

  // ----- who is online

  lemma {:induction false} FrontIsOnline(peers: seq<Peer>, rs: seq<Peer>)
    requires forall p :: p in rs ==> p.online
    ensures forall q :: q in Front(peers, rs) ==> q.online
    decreases |rs|
  {
    if rs != [] {
      assert rs[|rs| - 1] in rs;
      FrontIsOnline(peers, rs[..|rs| - 1]);
    }
  }

  lemma {:induction false} SilentMembers(peers: seq<Peer>, rs: seq<Peer>)
    ensures forall p :: p in Silent(peers, rs) ==> p in peers && !Responds(rs, KeyOf(p))
  {
    if peers != [] { SilentMembers(peers[1..], rs); }
  }

  /** Exactly the responders are online. */
  lemma OnlineExactlyResponders(stored: seq<Peer>, rs: seq<Peer>)
    requires Distinct(Offline(stored)) && forall p :: p in rs ==> p.online
    ensures forall p :: p in After(Offline(stored), rs) ==> (p.online <==> Responds(rs, KeyOf(p)))
  {
    var peers := Offline(stored);
    ListIsByRecency(stored, rs);
    FrontIsOnline(peers, rs);
    SilentMembers(peers, rs);
    assert forall p :: p in peers ==> !p.online;
    assert forall p :: p in Front(peers, rs) ==> Responds(rs, KeyOf(p));
  }

  // ----- which addresses a responder is listed with

  /** The addresses of a peer's own responses, the earliest entry winning. */
  function Merged(rs: seq<Peer>, k: Key): Addresses {
    if rs == [] then map[]
    else
      var n := |rs| - 1;
      if KeyOf(rs[n]) == k then rs[n].addresses + Merged(rs[..n], k) else Merged(rs[..n], k)
  }

  /** Whether the first response with the key came after one of the same id
      under another user name. */
  predicate IsShadowed(rs: seq<Peer>, k: Key) {
    if rs == [] then false
    else
      var n := |rs| - 1;
      if KeyOf(rs[n]) == k && !Responds(rs[..n], k) then k.id in Ids(rs[..n]) else IsShadowed(rs[..n], k)
  }

  /** The addresses a peer is listed with, none if it is not listed. */
  function AddressesOf(peers: seq<Peer>, k: Key): Addresses {
    if peers == [] then map[]
    else if KeyOf(peers[0]) == k then peers[0].addresses
    else AddressesOf(peers[1..], k)
  }

  lemma {:induction false} AddressesAtPosition(peers: seq<Peer>, k: Key)
    ensures AddressesOf(peers, k) == var i := Position(peers, k); if i < |peers| then peers[i].addresses else map[]
  {
    if peers != [] && KeyOf(peers[0]) != k { AddressesAtPosition(peers[1..], k); }
  }

  lemma {:induction false} AddressesOfOthers(peers: seq<Peer>, k: Key, other: Key)
    requires k != other
    ensures AddressesOf(Without(peers, other), k) == AddressesOf(peers, k)
  {
    if peers != [] && KeyOf(peers[0]) != other {
      AddressesOfOthers(peers[1..], k, other);
      assert Without(peers, other)[1..] == Without(peers[1..], other);
    }
  }

  lemma AddressesAfterReceive(peers: seq<Peer>, seen: set<string>, p: Peer, k: Key)
    ensures AddressesOf(Receive(peers, seen, p), k)
         == if KeyOf(p) != k then AddressesOf(peers, k)
            else if p.id in seen then p.addresses + AddressesOf(peers, k)
            else p.addresses
  {
    assert Receive(peers, seen, p)[1..] == Without(peers, KeyOf(p));
    if KeyOf(p) != k {
      AddressesOfOthers(peers, k, KeyOf(p));
    } else {
      AddressesAtPosition(peers, k);
      assert p.addresses + map[] == p.addresses;
    }
  }

  /** A responder is listed with the addresses of its own responses, and with
      its stored ones exactly when it was shadowed; others keep what was stored. */
  lemma {:induction false} ListedAddresses(peers: seq<Peer>, rs: seq<Peer>, k: Key)
    ensures AddressesOf(After(peers, rs), k)
         == if !Responds(rs, k) then AddressesOf(peers, k)
            else if IsShadowed(rs, k) then Merged(rs, k) + AddressesOf(peers, k)
            else Merged(rs, k)
    decreases |rs|
  {
    if rs != [] {
      var n := |rs| - 1;
      var rs', p := rs[..n], rs[n];
      ListedAddresses(peers, rs', k);
      AddressesAfterReceive(After(peers, rs'), Ids(rs'), p, k);
      assert rs == rs' + [p];
      OneMoreResponds(rs', p, k);
      if KeyOf(p) == k {
        if Responds(rs', k) {
          var x :| x in rs' && KeyOf(x) == k;
          assert x.id in Ids(rs');
          MapsAssociate(p.addresses, Merged(rs', k), AddressesOf(peers, k));
        } else {
          NothingMerged(rs', k);
          assert p.addresses + map[] == p.addresses;
        }
      }
    }
  }

  lemma {:induction false} NothingMerged(rs: seq<Peer>, k: Key)
    requires !Responds(rs, k)
    ensures Merged(rs, k) == map[]
    decreases |rs|
  {
    if rs != [] {
      var n := |rs| - 1;
      assert rs[n] in rs;
      assert forall p :: p in rs[..n] ==> p in rs;
      NothingMerged(rs[..n], k);
    }
  }

  lemma MapsAssociate(a: Addresses, b: Addresses, c: Addresses)
    ensures a + (b + c) == (a + b) + c
  {
  }
}
