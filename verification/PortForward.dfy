/** The byte relay behind a forwarded port: what is read from the local socket
    is held back during login and passed on afterwards
    (client/src/port_forward.rs). */
module PortForward {
  import opened Basics

  type Bytes = seq<byte>

  /** What the peer says during login. */
  datatype Login = Hash | Retryable | Fatal | PeerInfo | OtherMessage

  /** `ok` is whether the send that the event causes succeeds. */
  datatype Event =
    | PeerMessage(login: Login)
    | PeerBytes(data: Bytes, ok: bool)
    | PeerGone
    | LocalBytes(data: Bytes, ok: bool)
    | LocalGone
    | UiEvent

  datatype Phase = LoggingIn | Forwarding | Closed

  /** Bytes handed to a send, and whether it succeeded. */
  datatype Chunk = Chunk(data: Bytes, ok: bool)

  /** `buffer` is held back; `read`, `sent` are the bytes read from the local
      socket and delivered raw to the peer, `got`, `put` those read raw from the
      peer and written to the local socket; `toPeer`, `toLocal` are the sends. */
  datatype Conn = Conn(
    phase: Phase, buffer: Bytes, read: Bytes, sent: Bytes, got: Bytes, put: Bytes, toPeer: seq<Chunk>, toLocal: seq<Chunk>)

  function Start(): Conn { Conn(LoggingIn, [], [], [], [], [], [], []) }

  /** Sends raw bytes to the peer; a failure is only logged. */
  function Send(c: Conn, data: Bytes, ok: bool): Conn {
    c.(toPeer := c.toPeer + [Chunk(data, ok)], sent := if ok then c.sent + data else c.sent)
  }

  function Write(c: Conn, data: Bytes, ok: bool): Conn {
    c.(toLocal := c.toLocal + [Chunk(data, ok)], put := if ok then c.put + data else c.put)
  }

  /** One turn of the login loop; `flushed` is whether the buffered bytes go out. */
  function LoginStep(c: Conn, e: Event, flushed: bool): Conn {
    match e
    case PeerMessage(Fatal) => c.(phase := Closed)
    case PeerMessage(PeerInfo) =>
      var d := c.(phase := Forwarding, buffer := []);
      if c.buffer == [] then d else Send(d, c.buffer, flushed)
    case PeerMessage(_) => c
    case PeerBytes(_, _) => c
    case PeerGone => c.(phase := Closed)
    case LocalBytes(data, _) => c.(buffer := c.buffer + data, read := c.read + data)
    case LocalGone => c.(phase := Closed)
    case UiEvent => c
  }

  /** One turn of the relay loop. */
  function ForwardStep(c: Conn, e: Event): Conn {
    match e
    case LocalBytes(data, ok) => Send(c.(read := c.read + data), data, ok)
    case PeerBytes(data, ok) => Write(c.(got := c.got + data), data, ok)
    case PeerGone => c.(phase := Closed)
    case LocalGone => c.(phase := Closed)
    case PeerMessage(_) => c
    case UiEvent => c
  }

  function Step(c: Conn, e: Event, flushed: bool): Conn {
    match c.phase
    case LoggingIn => LoginStep(c, e, flushed)
    case Forwarding => ForwardStep(c, e)
    case Closed => c
  }

  function Run(c: Conn, events: seq<Event>, flushed: bool): Conn
    decreases |events|
  {
    if events == [] then c else Run(Step(c, events[0], flushed), events[1..], flushed)
  }

  lemma {:induction false} ClosedStays(c: Conn, events: seq<Event>, flushed: bool)
    requires c.phase == Closed
    ensures Run(c, events, flushed) == c
    decreases |events|
  {
    if events != [] { ClosedStays(c, events[1..], flushed); }
  }

  // ----- the two loops

  /** `connect_and_login` from its loop on; returns how many events it used up. */
  method ConnectAndLogin(events: seq<Event>, flushed: bool) returns (c: Conn, used: nat)
    ensures used <= |events| && c == Run(Start(), events[..used], flushed)
    ensures used < |events| ==> c.phase != LoggingIn
    ensures Run(c, events[used..], flushed) == Run(Start(), events, flushed)
  {
    var buffer, phase := [], LoggingIn;
    used := 0;
    c := Start();
    assert events[..0] == [];
    while used < |events|
      invariant used <= |events| && phase == LoggingIn
      invariant c == Start().(buffer := buffer, read := buffer)
      invariant c == Run(Start(), events[..used], flushed)
      invariant Run(c, events[used..], flushed) == Run(Start(), events, flushed)
    {
      var e := events[used];
      RunOneMore(Start(), events, used, flushed);
      used := used + 1;
      match e {
        case PeerMessage(Fatal) => phase := Closed;
        case PeerMessage(PeerInfo) => phase := Forwarding;
        case PeerGone => phase := Closed;
        case LocalGone => phase := Closed;
        case LocalBytes(data, _) => buffer := buffer + data;
        case _ =>
      }
      c := c.(phase := phase, buffer := buffer, read := buffer);
      if phase != LoggingIn {
        break;
      }
    }
    if phase == Forwarding {
      c := c.(buffer := []);
      if buffer != [] {
        c := Send(c, buffer, flushed);
      }
    }
  }

  lemma {:induction false} RunOneMore(c: Conn, events: seq<Event>, k: nat, flushed: bool)
    requires k < |events|
    ensures Run(c, events[..k + 1], flushed) == Step(Run(c, events[..k], flushed), events[k], flushed)
    decreases k
  {
    if k > 0 {
      RunOneMore(Step(c, events[0], flushed), events[1..], k - 1, flushed);
      assert events[..k + 1][1..] == events[1..][..k] && events[..k][1..] == events[1..][..k - 1];
    } else {
      assert events[..1] == [events[0]] && events[..0] == [];
    }
  }

  /** `run_forward`. */
  method RunForward(start: Conn, events: seq<Event>, flushed: bool) returns (c: Conn)
    requires start.phase == Forwarding
    ensures c == Run(start, events, flushed)
  {
    c := start;
    for i := 0 to |events|
      invariant c.phase == Forwarding && Run(c, events[i..], flushed) == Run(start, events, flushed)
    {
      match events[i]
      case LocalBytes(data, ok) =>
        c := c.(read := c.read + data);
        c := Send(c, data, ok);
      case PeerBytes(data, ok) =>
        c := c.(got := c.got + data);
        c := Write(c, data, ok);
      case PeerGone =>
        ClosedStays(c.(phase := Closed), events[i + 1..], flushed);
        return c.(phase := Closed);
      case LocalGone =>
        ClosedStays(c.(phase := Closed), events[i + 1..], flushed);
        return c.(phase := Closed);
      case _ =>
    }
  }

  // ----- what is relayed

  function All(chunks: seq<Chunk>): Bytes {
    if chunks == [] then [] else All(chunks[..|chunks| - 1]) + chunks[|chunks| - 1].data
  }

  function Successful(chunks: seq<Chunk>): Bytes {
    if chunks == [] then []
    else
      var n := |chunks| - 1;
      Successful(chunks[..n]) + if chunks[n].ok then chunks[n].data else []
  }

  /** No bytes were in a failed send. */
  predicate NothingFailed(chunks: seq<Chunk>) {
    forall k :: k in chunks ==> k.ok || k.data == []
  }

  lemma {:induction false} SuccessfulIsShorter(chunks: seq<Chunk>)
    ensures |Successful(chunks)| <= |All(chunks)|
  {
    if chunks != [] { SuccessfulIsShorter(chunks[..|chunks| - 1]); }
  }

  lemma {:induction false} LosslessExactly(chunks: seq<Chunk>)
    ensures Successful(chunks) == All(chunks) <==> NothingFailed(chunks)
  {
    if chunks != [] {
      var n := |chunks| - 1;
      var last := chunks[n];
      assert chunks == chunks[..n] + [last];
      SuccessfulIsShorter(chunks[..n]);
      LosslessExactly(chunks[..n]);
      assert NothingFailed(chunks) <==> NothingFailed(chunks[..n]) && (last.ok || last.data == []);
      LastIsSent(Successful(chunks[..n]), All(chunks[..n]), last);
    }
  }

  lemma LastIsSent(s: Bytes, a: Bytes, last: Chunk)
    requires |s| <= |a|
    ensures s + (if last.ok then last.data else []) == a + last.data <==> s == a && (last.ok || last.data == [])
  {
    var t := s + if last.ok then last.data else [];
    if t == a + last.data {
      assert |s| == |a| && t[..|s|] == s && (a + last.data)[..|a|] == a;
    }
  }

  ghost predicate Relays(c: Conn) {
    && (c.phase == LoggingIn ==> c.toPeer == [] && c.toLocal == []) && (c.phase == Forwarding ==> c.buffer == [])
    && c.read == All(c.toPeer) + c.buffer && c.sent == Successful(c.toPeer)
    && c.got == All(c.toLocal) && c.put == Successful(c.toLocal)
  }

  lemma OneMoreChunk(chunks: seq<Chunk>, k: Chunk)
    ensures All(chunks + [k]) == All(chunks) + k.data
    ensures Successful(chunks + [k]) == Successful(chunks) + if k.ok then k.data else []
  {
    assert (chunks + [k])[..|chunks|] == chunks;
  }

  lemma StepRelays(c: Conn, e: Event, flushed: bool)
    requires Relays(c)
    ensures Relays(Step(c, e, flushed))
  {
    hide All, Successful;
    match e
    case LocalBytes(data, ok) => OneMoreChunk(c.toPeer, Chunk(data, ok));
    case PeerBytes(data, ok) => OneMoreChunk(c.toLocal, Chunk(data, ok));
    case _ => OneMoreChunk(c.toPeer, Chunk(c.buffer, flushed));
  }

  lemma {:induction false} RunRelays(c: Conn, events: seq<Event>, flushed: bool)
    requires Relays(c)
    ensures Relays(Run(c, events, flushed))
    decreases |events|
  {
    if events != [] {
      StepRelays(c, events[0], flushed);
      RunRelays(Step(c, events[0], flushed), events[1..], flushed);
    }
  }

  /** After every sequence of events, also once the connection is closed: what
      was read from the local socket is what was handed to sends, in order, and
      what is still held back; the peer has exactly the chunks whose send
      succeeded, in order, and everything that was read, but for what is held
      back, exactly when no bytes were in a failed send; nothing goes out during
      login. The same holds the other way. */
  lemma RelayedInOrder(events: seq<Event>, flushed: bool)
    ensures var c := Run(Start(), events, flushed);
            && (c.phase == LoggingIn ==> c.sent == [] && c.put == []) && (c.phase == Forwarding ==> c.buffer == [])
            && c.read == All(c.toPeer) + c.buffer && c.sent == Successful(c.toPeer)
            && c.got == All(c.toLocal) && c.put == Successful(c.toLocal)
            && (c.sent + c.buffer == c.read <==> NothingFailed(c.toPeer))
            && (c.put == c.got <==> NothingFailed(c.toLocal))
  {
    var c := Run(Start(), events, flushed);
    RunRelays(Start(), events, flushed);
    LosslessExactly(c.toPeer);
    LosslessExactly(c.toLocal);
    assert c.sent + c.buffer == c.read ==> c.sent == c.read[..|c.read| - |c.buffer|] == All(c.toPeer);
  }

  predicate IsReliable(e: Event) {
    (e.LocalBytes? ==> e.ok) && (e.PeerBytes? ==> e.ok)
  }

  lemma {:induction false} NothingLost(c: Conn, events: seq<Event>)
    requires NothingFailed(c.toPeer) && NothingFailed(c.toLocal) && forall e :: e in events ==> IsReliable(e)
    ensures NothingFailed(Run(c, events, true).toPeer) && NothingFailed(Run(c, events, true).toLocal)
    decreases |events|
  {
    if events != [] {
      assert events[0] in events;
      NothingLost(Step(c, events[0], true), events[1..]);
    }
  }

  /** With reliable sends the relay is lossless and in order at every step. */
  lemma ReliableRelay(events: seq<Event>)
    requires forall e :: e in events ==> IsReliable(e)
    ensures var c := Run(Start(), events, true);
            c.put == c.got && c.sent + c.buffer == c.read && (c.phase == Forwarding ==> c.sent == c.read)
  {
    NothingLost(Start(), events);
    RelayedInOrder(events, true);
  }

  // ----- what is read, and until when

  function FromLocal(events: seq<Event>): Bytes {
    if events == [] then [] else (if events[0].LocalBytes? then events[0].data else []) + FromLocal(events[1..])
  }

  function FromPeer(events: seq<Event>): Bytes {
    if events == [] then [] else (if events[0].PeerBytes? then events[0].data else []) + FromPeer(events[1..])
  }

  /** Either side is gone. */
  predicate Ends(e: Event) {
    e == PeerGone || e == LocalGone
  }

  predicate EndsLogin(e: Event) {
    Ends(e) || e == PeerMessage(PeerInfo) || e == PeerMessage(Fatal)
  }

  lemma {:induction false} RunOn(c: Conn, a: seq<Event>, b: seq<Event>, flushed: bool)
    ensures Run(c, a + b, flushed) == Run(Run(c, a, flushed), b, flushed)
    decreases |a|
  {
    if a == [] {
      assert a + b == b;
    } else {
      assert (a + b)[1..] == a[1..] + b;
      RunOn(Step(c, a[0], flushed), a[1..], b, flushed);
    }
  }

  lemma {:induction false} ReadsInLogin(c: Conn, events: seq<Event>, flushed: bool)
    requires c.phase == LoggingIn && forall e :: e in events ==> !EndsLogin(e)
    ensures Run(c, events, flushed) == c.(buffer := c.buffer + FromLocal(events), read := c.read + FromLocal(events))
    decreases |events|
  {
    if events == [] {
      assert c.buffer + [] == c.buffer && c.read + [] == c.read;
    } else {
      assert events[0] in events;
      ReadsInLogin(Step(c, events[0], flushed), events[1..], flushed);
    }
  }

  lemma ForwardReads(c: Conn, e: Event, flushed: bool)
    requires c.phase == Forwarding && !Ends(e)
    ensures var d := Step(c, e, flushed);
            && d.phase == Forwarding && d.read == c.read + (if e.LocalBytes? then e.data else [])
            && d.got == c.got + if e.PeerBytes? then e.data else []
  {
  }

  lemma FirstData(events: seq<Event>)
    requires events != []
    ensures FromLocal(events) == (if events[0].LocalBytes? then events[0].data else []) + FromLocal(events[1..])
    ensures FromPeer(events) == (if events[0].PeerBytes? then events[0].data else []) + FromPeer(events[1..])
  {
  }

  lemma {:induction false} ReadsForwarding(c: Conn, events: seq<Event>, flushed: bool)
    requires c.phase == Forwarding && forall e :: e in events ==> !Ends(e)
    ensures var d := Run(c, events, flushed);
            d.phase == Forwarding && d.read == c.read + FromLocal(events) && d.got == c.got + FromPeer(events)
    decreases |events|
  {
    if events != [] {
      hide Step, FromLocal, FromPeer;
      var e, rest := events[0], events[1..];
      assert e in events;
      ForwardReads(c, e, flushed);
      FirstData(events);
      ReadsForwarding(Step(c, e, flushed), rest, flushed);
      var l, p := if e.LocalBytes? then e.data else [], if e.PeerBytes? then e.data else [];
      assert c.read + l + FromLocal(rest) == c.read + (l + FromLocal(rest));
      assert c.got + p + FromPeer(rest) == c.got + (p + FromPeer(rest));
    }
  }

  lemma {:induction false} LocalConcat(a: seq<Event>, b: seq<Event>)
    ensures FromLocal(a + b) == FromLocal(a) + FromLocal(b)
  {
    if a == [] {
      assert a + b == b;
    } else {
      assert (a + b)[1..] == a[1..] + b;
      LocalConcat(a[1..], b);
    }
  }

  /** Login lasts until peer info, a fatal answer or the loss of a side; all that
      time everything from the local socket is read and held back. */
  lemma LoginExactly(events: seq<Event>, flushed: bool, i: nat)
    requires i <= |events| && (forall k :: 0 <= k < i ==> !EndsLogin(events[k])) && (i < |events| ==> EndsLogin(events[i]))
    ensures Run(Start(), events[..i], flushed) == Start().(buffer := FromLocal(events[..i]), read := FromLocal(events[..i]))
    ensures i < |events| && events[i] != PeerMessage(PeerInfo) ==>
              Run(Start(), events, flushed) == Run(Start(), events[..i], flushed).(phase := Closed)
  {
    ReadsInLogin(Start(), events[..i], flushed);
    RunOn(Start(), events[..i], events[i..], flushed);
    assert events[..i] + events[i..] == events;
    var c := Run(Start(), events[..i], flushed);
    if i < |events| && events[i] != PeerMessage(PeerInfo) { ClosedStays(Step(c, events[i], flushed), events[i + 1..], flushed); }
  }

  /** After peer info everything from both sides is read until one is gone. */
  lemma ForwardingExactly(events: seq<Event>, flushed: bool, i: nat, j: nat)
    requires i < j <= |events| && (forall k :: 0 <= k < i ==> !EndsLogin(events[k])) && events[i] == PeerMessage(PeerInfo)
    requires (forall k :: i < k < j ==> !Ends(events[k])) && (j < |events| ==> Ends(events[j]))
    ensures var c := Run(Start(), events, flushed);
            && c.phase == (if j < |events| then Closed else Forwarding)
            && c.read == FromLocal(events[..j]) && c.got == FromPeer(events[i + 1..j])
  {
    hide Step, Run, FromLocal, FromPeer;
    var during := events[i + 1..j];
    var start := Run(Start(), events[..i + 1], flushed);
    PeerInfoOpens(events, flushed, i);
    UpToPeerInfo(events, i, j);
    ReadsForwarding(start, during, flushed);
    RunOn(Start(), events[..i + 1], during, flushed);
    assert events[..j] == events[..i + 1] + during && events == events[..j] + events[j..];
    var c := Run(Start(), events[..j], flushed);
    RunOn(Start(), events[..j], events[j..], flushed);
    if j < |events| { EndsThere(c, events[j..], flushed); } else { NoMore(c, events[j..], flushed); }
  }

  lemma NoMore(c: Conn, events: seq<Event>, flushed: bool)
    requires events == []
    ensures Run(c, events, flushed) == c
  {
  }

  lemma EndsThere(c: Conn, events: seq<Event>, flushed: bool)
    requires c.phase == Forwarding && events != [] && Ends(events[0])
    ensures Run(c, events, flushed) == c.(phase := Closed)
  {
    ClosedStays(Step(c, events[0], flushed), events[1..], flushed);
  }

  /** With peer info forwarding starts, and nothing is read. */
  lemma PeerInfoOpens(events: seq<Event>, flushed: bool, i: nat)
    requires i < |events| && (forall k :: 0 <= k < i ==> !EndsLogin(events[k])) && events[i] == PeerMessage(PeerInfo)
    ensures var c := Run(Start(), events[..i + 1], flushed);
            c.phase == Forwarding && c.read == FromLocal(events[..i]) && c.got == []
  {
    LoginExactly(events, flushed, i);
    RunOneMore(Start(), events, i, flushed);
  }

  lemma UpToPeerInfo(events: seq<Event>, i: nat, j: nat)
    requires i < j <= |events| && !events[i].LocalBytes?
    ensures FromLocal(events[..j]) == FromLocal(events[..i]) + FromLocal(events[i + 1..j])
  {
    assert events[..j] == events[..i] + events[i..j] && events[i..j][1..] == events[i + 1..j];
    LocalConcat(events[..i], events[i..j]);
  }
}
