/** Two machines that keep their clipboards in step (client/src/clipboard.rs). */
module ClipboardSync {
  import opened Basics
  import opened ClipboardCodec

  const OWNER := "dyn.com.rustdesk.owner"

  datatype Side = Host | Client

  type Content = seq<Data>
  type Message = seq<Clipboard>

  function OwnerData(side: Side): Bytes {
    match side
    case Host => [1]
    case Client => [2]
  }

  /** Either side's mark counts, for either side. */
  predicate IsOwner(data: Bytes) {
    data != [] && data[0] % 4 != 0
  }

  predicate IsMark(d: Data) {
    d.Special? && d.name == OWNER
  }

  predicate IsMarked(content: Content) {
    exists d :: d in content && IsMark(d) && IsOwner(d.data)
  }

  predicate IsKept(d: Data) {
    !IsMark(d) && !(d.Text? && d.text == "")
  }

  function Kept(content: Content): (r: Content)
    ensures forall d :: d in r <==> d in content && IsKept(d)
  {
    if content == [] then []
    else (if IsKept(content[0]) then [content[0]] else []) + Kept(content[1..])
  }

  function Filtered(content: Content, force: bool): Content {
    if !force && IsMarked(content) then [] else Kept(content)
  }

  /** `ClipboardContext::get`: file urls have a service of their own. */
  function Get(content: Content, force: bool): Content {
    var data := Filtered(content, force);
    if exists d :: d in data && d.FileUrl? then [] else data
  }

  function Protos(content: Content, packer: Packer): Message {
    if content == [] then []
    else
      match ToProto(content[0], packer)
      case None => Protos(content[1..], packer)
      case Some(c) => [c] + Protos(content[1..], packer)
  }

  function FromProtos(message: Message, packer: Packer): Content {
    if message == [] then []
    else
      match FromProto(message[0], packer)
      case None => FromProtos(message[1..], packer)
      case Some(d) => [d] + FromProtos(message[1..], packer)
  }

  function Mark(side: Side): Data { Special(OWNER, OwnerData(side)) }

  /** What is put on the clipboard for a message, if anything. */
  function Delivered(message: Message, side: Side, packer: Packer): Option<Content> {
    var data := FromProtos(message, packer);
    if data == [] then None else Some(data + [Mark(side)])
  }

  /** A message keeps its content exactly when each of its data survives. */
  lemma {:induction false} MessageRoundTrip(content: Content, packer: Packer)
    ensures |FromProtos(Protos(content, packer), packer)| <= |content|
    ensures FromProtos(Protos(content, packer), packer) == content <==> forall d :: d in content ==> Survives(d, packer)
  {
    if content != [] {
      var rest := content[1..];
      RoundTripExact(content[0], packer);
      MessageRoundTrip(rest, packer);
      assert content == [content[0]] + rest;
      HeadRoundTrip(content[0], rest, packer);
    }
  }

  lemma HeadRoundTrip(d: Data, rest: Content, packer: Packer)
    ensures var there := ToProto(d, packer);
            var back := if there.Some? then FromProto(there.value, packer) else None;
            FromProtos(Protos([d] + rest, packer), packer)
            == (if back.Some? then [back.value] else []) + FromProtos(Protos(rest, packer), packer)
  {
    assert ([d] + rest)[1..] == rest;
    var there := ToProto(d, packer);
    if there.Some? {
      assert ([there.value] + Protos(rest, packer))[1..] == Protos(rest, packer);
    }
  }

  // ----- one machine's clipboard, updated in place

  class ClipboardContext {
    var board: Content
    // The last message, kept for peers that connect later.
    var last: Message

    constructor ()
      ensures board == [] && last == []
    {
      board, last := [], [];
    }

    method GetFormatsFilter(force: bool) returns (data: Content)
      ensures data == Filtered(board, force)
    {
      if board == [] {
        return board;
      }
      if !force {
        for i := 0 to |board|
          invariant forall j :: 0 <= j < i ==> !(IsMark(board[j]) && IsOwner(board[j].data))
        {
          var c := board[i];
          if IsMark(c) && IsOwner(c.data) {
            return [];
          }
        }
      }
      return Kept(board);
    }

    method CheckClipboard(force: bool, packer: Packer) returns (message: Option<Message>)
      modifies this`last
      ensures message == if Get(board, force) == [] then None else Some(Protos(Get(board, force), packer))
      ensures last == if message.Some? then message.value else old(last)
    {
      var data := GetFormatsFilter(force);
      if exists d :: d in data && d.FileUrl? {
        data := [];
      }
      if data == [] {
        return None;
      }
      last := Protos(data, packer);
      return Some(last);
    }

    method UpdateClipboard(message: Message, side: Side, packer: Packer)
      modifies this`board
      ensures var put := Delivered(message, side, packer); board == if put.Some? then put.value else old(board)
    {
      var data := FromProtos(message, packer);
      if data == [] {
        return;
      }
      board := data + [Mark(side)];
    }
  }

  // ----- the two machines

  /** What a pending change notification was raised for. */
  datatype Cause = Copied | Arrived

  /** `copies` and `sent` are everything the user copied here and everything
      sent from here. */
  datatype Machine = Machine(
    board: Content, notices: seq<Cause>, inbox: seq<Message>, copies: seq<Content>, sent: seq<Message>)

  datatype World = World(host: Machine, client: Machine)

  function At(w: World, side: Side): Machine {
    if side == Host then w.host else w.client
  }

  function Other(side: Side): Side {
    if side == Host then Client else Host
  }

  function With(w: World, side: Side, m: Machine): World {
    if side == Host then w.(host := m) else w.(client := m)
  }

  datatype Event = Copy(side: Side, content: Content) | Check(side: Side) | Deliver(side: Side, index: nat)

  /** Users do not copy the owner mark; deliveries may overtake each other. */
  predicate Enabled(w: World, e: Event) {
    match e
    case Copy(_, content) => forall d :: d in content ==> !IsMark(d)
    case Check(side) => At(w, side).notices != []
    case Deliver(side, i) => i < |At(w, side).inbox|
  }

  function Next(w: World, e: Event, packer: Packer): World
    requires Enabled(w, e)
  {
    match e
    case Copy(side, content) =>
      var m := At(w, side);
      With(w, side, m.(board := content, notices := m.notices + [Copied], copies := m.copies + [content]))
    case Check(side) =>
      var m := At(w, side);
      var data := Get(m.board, false);
      var n := m.(notices := m.notices[1..]);
      if data == [] then With(w, side, n)
      else
        var message := Protos(data, packer);
        var p := At(w, Other(side));
        With(With(w, side, n.(sent := n.sent + [message])),
             Other(side), p.(inbox := p.inbox + [message]))
    case Deliver(side, i) =>
      var m := At(w, side);
      var n := m.(inbox := m.inbox[..i] + m.inbox[i + 1..]);
      match Delivered(m.inbox[i], side, packer)
      case None => With(w, side, n)
      case Some(content) => With(w, side, n.(board := content, notices := n.notices + [Arrived]))
  }

  function Blank(): Machine { Machine([], [], [], [], []) }

  function Start(): World { World(Blank(), Blank()) }

  ghost predicate IsRun(run: seq<World>, events: seq<Event>, packer: Packer) {
    && |run| == |events| + 1 && run[0] == Start()
    && forall k :: 0 <= k < |events| ==> Enabled(run[k], events[k]) && run[k + 1] == Next(run[k], events[k], packer)
  }

  // ----- the invariant

  /** Nothing in the message has the format of the owner mark. */
  predicate IsClean(message: Message) {
    forall c :: c in message ==> !(c.format.SpecialFormat? && c.specialName == OWNER)
  }

  ghost predicate IsOwnCopy(m: Machine, message: Message, packer: Packer) {
    exists c :: c in m.copies && message == Protos(Get(c, false), packer)
  }

  ghost predicate MachineOk(m: Machine, packer: Packer) {
    && (IsMarked(m.board) || m.board == [] || m.board in m.copies)
    && (forall x :: x in m.inbox || x in m.sent ==> IsClean(x))
    && (forall x :: x in m.sent ==> IsOwnCopy(m, x, packer))
  }

  lemma {:induction false} ProtosClean(content: Content, packer: Packer)
    requires forall d :: d in content ==> !IsMark(d)
    ensures IsClean(Protos(content, packer))
  {
    if content != [] {
      assert content[0] in content;
      ProtosClean(content[1..], packer);
    }
  }

  /** A step that sends nothing from here keeps the invariant. */
  lemma NothingSent(m: Machine, n: Machine, packer: Packer)
    requires MachineOk(m, packer) && n.sent == m.sent && m.copies <= n.copies
    requires IsMarked(n.board) || n.board == [] || n.board in n.copies
    requires forall x :: x in n.inbox ==> x in m.inbox || IsClean(x)
    ensures MachineOk(n, packer)
  {
    forall x | x in n.sent ensures IsOwnCopy(n, x, packer) {
      assert IsOwnCopy(m, x, packer);
      var c :| c in m.copies && x == Protos(Get(c, false), packer);
      assert c in n.copies;
    }
  }

  lemma CopyOk(m: Machine, content: Content, packer: Packer)
    requires MachineOk(m, packer)
    ensures MachineOk(m.(board := content, notices := m.notices + [Copied], copies := m.copies + [content]), packer)
  {
    NothingSent(m, m.(board := content, notices := m.notices + [Copied], copies := m.copies + [content]), packer);
  }

  lemma DeliveredIsMarked(message: Message, side: Side, packer: Packer)
    requires Delivered(message, side, packer).Some?
    ensures IsMarked(Delivered(message, side, packer).value)
  {
    var content := Delivered(message, side, packer).value;
    assert content[|content| - 1] == Mark(side) && Mark(side) in content;
  }

  lemma ArriveOk(m: Machine, i: nat, side: Side, packer: Packer)
    requires MachineOk(m, packer) && i < |m.inbox|
    ensures var n := m.(inbox := m.inbox[..i] + m.inbox[i + 1..]);
            && MachineOk(n, packer)
            && (Delivered(m.inbox[i], side, packer).Some? ==>
                  MachineOk(n.(board := Delivered(m.inbox[i], side, packer).value, notices := n.notices + [Arrived]), packer))
  {
    var n := m.(inbox := m.inbox[..i] + m.inbox[i + 1..]);
    NothingSent(m, n, packer);
    if Delivered(m.inbox[i], side, packer).Some? {
      DeliveredIsMarked(m.inbox[i], side, packer);
      NothingSent(n, n.(board := Delivered(m.inbox[i], side, packer).value, notices := n.notices + [Arrived]), packer);
    }
  }

  lemma CheckOk(w: World, side: Side, packer: Packer)
    requires MachineOk(w.host, packer) && MachineOk(w.client, packer) && At(w, side).notices != []
    ensures var v := Next(w, Check(side), packer); MachineOk(v.host, packer) && MachineOk(v.client, packer)
  {
    var m := At(w, side);
    if Get(m.board, false) != [] {
      SendOk(m, packer);
      var p := At(w, Other(side));
      NothingSent(p, p.(inbox := p.inbox + [Protos(Get(m.board, false), packer)]), packer);
    } else {
      NothingSent(m, m.(notices := m.notices[1..]), packer);
    }
  }

  lemma SendOk(m: Machine, packer: Packer)
    requires MachineOk(m, packer) && m.notices != [] && Get(m.board, false) != []
    ensures var message := Protos(Get(m.board, false), packer);
            && IsClean(message)
            && MachineOk(m.(notices := m.notices[1..], sent := m.sent + [message]), packer)
  {
    var message := Protos(Get(m.board, false), packer);
    ProtosClean(Get(m.board, false), packer);
    var n := m.(notices := m.notices[1..], sent := m.sent + [message]);
    assert m.board in m.copies;
    forall x | x in n.sent ensures IsOwnCopy(n, x, packer) {
      if x in m.sent {
        var c :| c in m.copies && x == Protos(Get(c, false), packer);
        assert c in n.copies;
      }
    }
  }

  lemma NextOk(w: World, e: Event, packer: Packer)
    requires Enabled(w, e) && MachineOk(w.host, packer) && MachineOk(w.client, packer)
    ensures var v := Next(w, e, packer); MachineOk(v.host, packer) && MachineOk(v.client, packer)
  {
    match e
    case Copy(side, content) => CopyOk(At(w, side), content, packer);
    case Deliver(side, i) => ArriveOk(At(w, side), i, side, packer);
    case Check(side) => CheckOk(w, side, packer);
  }

  lemma {:induction false} RunOk(run: seq<World>, events: seq<Event>, packer: Packer, k: nat)
    requires IsRun(run, events, packer) && k < |run|
    ensures MachineOk(run[k].host, packer) && MachineOk(run[k].client, packer)
  {
    if k > 0 {
      RunOk(run, events, packer, k - 1);
      NextOk(run[k - 1], events[k - 1], packer);
    }
  }

  // ----- main results

  /** In every run, whatever the interleaving: what a machine sends is a copy
      its own user made, never something the peer sent, and nothing under way
      carries the owner mark. */
  lemma NothingIsEchoed(run: seq<World>, events: seq<Event>, packer: Packer, k: nat, side: Side)
    requires IsRun(run, events, packer) && k < |run|
    ensures var m := At(run[k], side);
            && (forall x :: x in m.sent ==> IsClean(x) && exists c :: c in m.copies && x == Protos(Get(c, false), packer))
            && (forall x :: x in m.inbox ==> IsClean(x))
  {
    RunOk(run, events, packer, k);
    var m := At(run[k], side);
    forall x | x in m.sent ensures exists c :: c in m.copies && x == Protos(Get(c, false), packer) {
      assert IsOwnCopy(m, x, packer);
    }
  }

  // ----- what is on a clipboard

  /** What reached `m` was sent by `p`, and a marked clipboard holds such a message. */
  ghost predicate FedBy(m: Machine, p: Machine, side: Side, packer: Packer) {
    && (forall x :: x in m.inbox ==> x in p.sent)
    && (IsMarked(m.board) ==> exists x :: x in p.sent && Delivered(x, side, packer) == Some(m.board))
  }

  ghost predicate BothFed(w: World, packer: Packer) {
    FedBy(w.host, w.client, Host, packer) && FedBy(w.client, w.host, Client, packer)
  }

  lemma StillFed(m: Machine, n: Machine, p: Machine, q: Machine, side: Side, packer: Packer)
    requires FedBy(m, p, side, packer) && p.sent <= q.sent
    requires forall x :: x in n.inbox ==> x in m.inbox || x in q.sent
    requires IsMarked(n.board) ==> n.board == m.board || exists x :: x in m.inbox && Delivered(x, side, packer) == Some(n.board)
    ensures FedBy(n, q, side, packer)
  {
    forall x | x in p.sent ensures x in q.sent {
      var i :| 0 <= i < |p.sent| && p.sent[i] == x;
      assert q.sent[i] == x;
    }
  }

  lemma NextFed(w: World, e: Event, packer: Packer)
    requires Enabled(w, e) && BothFed(w, packer)
    ensures BothFed(Next(w, e, packer), packer)
  {
    var v := Next(w, e, packer);
    var m, n := At(w, e.side), At(v, e.side);
    var p, q := At(w, Other(e.side)), At(v, Other(e.side));
    match e
    case Copy(side, content) =>
      StillFed(m, n, p, q, side, packer);
      StillFed(p, q, m, n, Other(side), packer);
    case Check(side) =>
      StillFed(m, n, p, q, side, packer);
      StillFed(p, q, m, n, Other(side), packer);
    case Deliver(side, i) =>
      assert m.inbox[i] in m.inbox;
      StillFed(m, n, p, q, side, packer);
      StillFed(p, q, m, n, Other(side), packer);
  }

  lemma {:induction false} RunFed(run: seq<World>, events: seq<Event>, packer: Packer, k: nat)
    requires IsRun(run, events, packer) && k < |run|
    ensures BothFed(run[k], packer)
  {
    if k > 0 {
      RunFed(run, events, packer, k - 1);
      NextFed(run[k - 1], events[k - 1], packer);
    }
  }

  /** In every run: a clipboard that has something on it holds a copy its own
      user made, unchanged, or one that the other user made, as it came through
      the wire, with the owner mark behind it. If the data of that copy survive
      the wire they are all there. */
  lemma ClipboardHoldsACopy(run: seq<World>, events: seq<Event>, packer: Packer, k: nat, side: Side)
    requires IsRun(run, events, packer) && k < |run| && At(run[k], side).board != []
    ensures var m, p := At(run[k], side), At(run[k], Other(side));
            m.board in m.copies
            || exists c :: c in p.copies && m.board == FromProtos(Protos(Get(c, false), packer), packer) + [Mark(side)]
                        && ((forall d :: d in Get(c, false) ==> Survives(d, packer)) ==> m.board == Get(c, false) + [Mark(side)])
  {
    RunOk(run, events, packer, k);
    RunFed(run, events, packer, k);
    var m, p := At(run[k], side), At(run[k], Other(side));
    if IsMarked(m.board) {
      var x :| x in p.sent && Delivered(x, side, packer) == Some(m.board);
      assert IsOwnCopy(p, x, packer);
      var c :| c in p.copies && x == Protos(Get(c, false), packer);
      MessageRoundTrip(Get(c, false), packer);
    }
  }

  // ----- the whole of a copy arrives

  /** Worth sending: not the owner mark, of whatever data, and no empty text. */
  predicate IsWorthSending(d: Data) {
    !(d.Special? && d.name == "dyn.com.rustdesk.owner") && d != Text("")
  }

  /** `list` is the content without what is not worth sending, in order. */
  ghost predicate LeavesOut(positions: seq<nat>, list: Content, content: Content) {
    && |positions| == |list| && (forall j, k :: 0 <= j < k < |positions| ==> positions[j] < positions[k])
    && (forall j :: 0 <= j < |list| ==> positions[j] < |content| && list[j] == content[positions[j]])
    && (forall i: nat :: i in positions <==> i < |content| && IsWorthSending(content[i]))
  }

  lemma {:induction false} KeptConcat(a: Content, d: Data)
    ensures Kept(a + [d]) == Kept(a) + if IsKept(d) then [d] else []
    decreases |a|
  {
    hide IsKept;
    if a == [] {
      assert a + [d] == [d] && [d][1..] == [];
    } else {
      assert (a + [d])[1..] == a[1..] + [d];
      KeptConcat(a[1..], d);
    }
  }

  lemma LeavesOutMore(positions: seq<nat>, list: Content, content: Content, d: Data)
    requires LeavesOut(positions, list, content)
    ensures IsWorthSending(d) ==> LeavesOut(positions + [|content|], list + [d], content + [d])
    ensures !IsWorthSending(d) ==> LeavesOut(positions, list, content + [d])
  {
    var n := |content|;
    assert forall j :: 0 <= j < |positions| ==> positions[j] in positions;
    assert forall i: nat :: i in positions + [n] <==> i in positions || i == n;
  }

  lemma {:induction false} KeptExactly(content: Content) returns (positions: seq<nat>)
    ensures LeavesOut(positions, Kept(content), content)
  {
    positions := [];
    if content != [] {
      hide LeavesOut;
      var n := |content| - 1;
      var d := content[n];
      positions := KeptExactly(content[..n]);
      assert content == content[..n] + [d];
      KeptConcat(content[..n], d);
      LeavesOutMore(positions, Kept(content[..n]), content[..n], d);
      assert IsKept(d) == IsWorthSending(d);
      if IsKept(d) { positions := positions + [n]; }
    }
  }

  /** What is read off a clipboard: nothing if either side's mark is on it and the
      read is not forced, nothing if there is a file url, and otherwise everything
      but marks and empty texts, in order. */
  lemma ReadExactly(content: Content, force: bool) returns (positions: seq<nat>)
    ensures !force && (exists d :: d in content && d.Special? && d.name == "dyn.com.rustdesk.owner" && IsOwner(d.data))
            ==> Get(content, force) == []
    ensures (exists d :: d in content && d.FileUrl?) ==> Get(content, force) == []
    ensures (force || forall d :: d in content && d.Special? && d.name == "dyn.com.rustdesk.owner" ==> !IsOwner(d.data))
            && (forall d :: d in content ==> !d.FileUrl?)
            ==> LeavesOut(positions, Get(content, force), content)
  {
    positions := KeptExactly(content);
    assert forall d :: d in content && d.FileUrl? ==> d in Kept(content);
    assert forall d :: IsMark(d) <==> d.Special? && d.name == "dyn.com.rustdesk.owner";
  }

  lemma {:induction false} AllKept(content: Content)
    requires forall d :: d in content ==> IsWorthSending(d)
    ensures Kept(content) == content
  {
    if content != [] {
      assert content[0] in content && IsKept(content[0]);
      AllKept(content[1..]);
    }
  }

  /** Whatever the state: a copy that is looked at and delivered puts all its
      data, in order and unchanged, on the clipboard of the other side, with the
      owner mark behind them, if all of it is worth sending and survives the wire. */
  lemma CopyArrivesWhole(w: World, side: Side, content: Content, packer: Packer)
    requires content != [] && forall d :: d in content ==> IsWorthSending(d) && !d.FileUrl? && Survives(d, packer)
    ensures Enabled(w, Copy(side, content))
    ensures var w1 := Next(w, Copy(side, content), packer);
            && Enabled(w1, Check(side))
            && var w2 := Next(w1, Check(side), packer);
               var arrival := Deliver(Other(side), |At(w, Other(side)).inbox|);
            && Enabled(w2, arrival)
            && At(Next(w2, arrival, packer), Other(side)).board
               == content + [Special("dyn.com.rustdesk.owner", if side == Host then [2] else [1])]
  {
    AllKept(content);
    assert forall d :: d in content ==> !IsMark(d);
    assert Get(content, false) == content;
    MessageRoundTrip(content, packer);
  }

  // ----- how many messages there can be

  function Sent(w: World): nat { |w.host.sent| + |w.client.sent| }

  function Copies(w: World): nat { |w.host.copies| + |w.client.copies| }

  /** What a machine has now would go out at the next check. */
  predicate IsSendable(content: Content) {
    Get(content, false) != []
  }

  /** The messages that checks of all pending notifications would send now. */
  function Due(m: Machine): nat {
    if IsSendable(m.board) then |m.notices| else 0
  }

  function Worst(w: World): nat { Sent(w) + Due(w.host) + Due(w.client) }

  ghost predicate AreEnabled(w: World, events: seq<Event>, packer: Packer)
    decreases |events|
  {
    events != [] ==> Enabled(w, events[0]) && AreEnabled(Next(w, events[0], packer), events[1..], packer)
  }

  ghost function After(w: World, events: seq<Event>, packer: Packer): World
    requires AreEnabled(w, events, packer)
    decreases |events|
  {
    if events == [] then w else After(Next(w, events[0], packer), events[1..], packer)
  }

  predicate IsCopyFree(events: seq<Event>) {
    forall e :: e in events ==> !e.Copy?
  }

  /** If the users stop copying now, more messages than copies may still be sent. */
  ghost predicate MayExceed(w: World, packer: Packer) {
    exists events :: AreEnabled(w, events, packer) && IsCopyFree(events) && Sent(After(w, events, packer)) > Copies(w)
  }

  lemma WorstNeverGrows(w: World, e: Event, packer: Packer)
    requires Enabled(w, e) && !e.Copy?
    ensures Worst(Next(w, e, packer)) <= Worst(w)
  {
    if e.Deliver? {
      var m := At(w, e.side);
      var put := Delivered(m.inbox[e.index], e.side, packer);
      if put.Some? {
        DeliveredIsMarked(m.inbox[e.index], e.side, packer);
        assert Get(put.value, false) == [];
      }
    }
  }

  /** A copy of something to send takes along every notification that had nothing to send. */
  lemma CopyRaises(w: World, side: Side, content: Content, packer: Packer)
    requires Enabled(w, Copy(side, content))
    ensures var m, v := At(w, side), Next(w, Copy(side, content), packer);
            Worst(v) == Worst(w) - Due(m) + (if IsSendable(content) then |m.notices| + 1 else 0) && Copies(v) == Copies(w) + 1
  {
  }

  lemma {:induction false} SentAtMostWorst(w: World, events: seq<Event>, packer: Packer)
    requires AreEnabled(w, events, packer) && IsCopyFree(events)
    ensures Sent(After(w, events, packer)) <= Worst(w)
    decreases |events|
  {
    if events != [] {
      assert events[0] in events;
      WorstNeverGrows(w, events[0], packer);
      SentAtMostWorst(Next(w, events[0], packer), events[1..], packer);
    }
  }

  /** All pending notifications on one side are looked at, with nothing in between. */
  function Drain(w: World, side: Side, packer: Packer): World
    decreases |At(w, side).notices|
  {
    if At(w, side).notices == [] then w else Drain(Next(w, Check(side), packer), side, packer)
  }

  /** Draining is a run of checks. */
  lemma {:induction false} DrainIsRun(w: World, side: Side, packer: Packer) returns (events: seq<Event>)
    ensures AreEnabled(w, events, packer) && IsCopyFree(events) && After(w, events, packer) == Drain(w, side, packer)
    decreases |At(w, side).notices|
  {
    events := [];
    if At(w, side).notices != [] {
      var rest := DrainIsRun(Next(w, Check(side), packer), side, packer);
      events := [Check(side)] + rest;
      assert events[1..] == rest;
    }
  }

  lemma {:induction false} RunOn(w: World, a: seq<Event>, b: seq<Event>, packer: Packer)
    requires AreEnabled(w, a, packer) && AreEnabled(After(w, a, packer), b, packer)
    ensures AreEnabled(w, a + b, packer) && After(w, a + b, packer) == After(After(w, a, packer), b, packer)
    decreases |a|
  {
    hide Next, Enabled;
    if a == [] {
      assert a + b == b;
    } else {
      assert (a + b)[1..] == a[1..] + b;
      RunOn(Next(w, a[0], packer), a[1..], b, packer);
    }
  }

  lemma {:induction false} DrainSends(w: World, side: Side, packer: Packer)
    ensures var v := Drain(w, side, packer);
            && |At(v, side).sent| == |At(w, side).sent| + Due(At(w, side))
            && At(v, Other(side)).sent == At(w, Other(side)).sent && Due(At(v, Other(side))) == Due(At(w, Other(side)))
            && At(v, side).copies == At(w, side).copies && At(v, Other(side)).copies == At(w, Other(side)).copies
    decreases |At(w, side).notices|
  {
    if At(w, side).notices != [] { DrainSends(Next(w, Check(side), packer), side, packer); }
  }

  /** Exactly when more messages than copies may be sent, by the clipboards and
      the notifications pending now. */
  lemma MayExceedExactly(w: World, packer: Packer)
    ensures MayExceed(w, packer) <==> Worst(w) > Copies(w)
  {
    forall events | AreEnabled(w, events, packer) && IsCopyFree(events) ensures Sent(After(w, events, packer)) <= Worst(w) {
      SentAtMostWorst(w, events, packer);
    }
    var v := Drain(w, Host, packer);
    var a := DrainIsRun(w, Host, packer);
    var b := DrainIsRun(v, Client, packer);
    DrainSends(w, Host, packer);
    DrainSends(v, Client, packer);
    RunOn(w, a, b, packer);
    assert IsCopyFree(a + b);
    assert Sent(After(w, a + b, packer)) == Worst(w);
  }

  /** Hence exactly which copies break the bound: those of something to send
      while notifications are pending on a clipboard that had nothing to send. */
  lemma CopyBreaksBoundExactly(w: World, side: Side, content: Content, packer: Packer)
    requires Enabled(w, Copy(side, content)) && IsSendable(content)
    ensures var m := At(w, side);
            MayExceed(Next(w, Copy(side, content), packer), packer)
            <==> Worst(w) + (if IsSendable(m.board) then 0 else |m.notices|) > Copies(w)
    ensures Worst(w) == Copies(w) ==>
              (MayExceed(Next(w, Copy(side, content), packer), packer)
               <==> !IsSendable(At(w, side).board) && At(w, side).notices != [])
  {
    MayExceedExactly(Next(w, Copy(side, content), packer), packer);
    CopyRaises(w, side, content, packer);
  }

  /** Users who copy something to send only when nothing is pending on a
      clipboard that had nothing to send. */
  predicate IsCareful(w: World, e: Event) {
    e.Copy? && IsSendable(e.content) ==> IsSendable(At(w, e.side).board) || At(w, e.side).notices == []
  }

  /** Then there are never more messages than copies. */
  lemma {:induction false} CarefulUsersSendOnce(run: seq<World>, events: seq<Event>, packer: Packer, k: nat)
    requires IsRun(run, events, packer) && k < |run|
    requires forall j :: 0 <= j < |events| ==> IsCareful(run[j], events[j])
    ensures Worst(run[k]) <= Copies(run[k]) && Sent(run[k]) <= Copies(run[k])
  {
    if k > 0 {
      CarefulUsersSendOnce(run, events, packer, k - 1);
      var w, e := run[k - 1], events[k - 1];
      if e.Copy? { CopyRaises(w, e.side, e.content, packer); } else { WorstNeverGrows(w, e, packer); }
    }
  }

  // ----- users who wait for arrivals to be looked at

  function CountCopied(notices: seq<Cause>): nat {
    if notices == [] then 0 else (if notices[0] == Copied then 1 else 0) + CountCopied(notices[1..])
  }

  lemma {:induction false} CountAppended(notices: seq<Cause>, c: Cause)
    ensures CountCopied(notices + [c]) == CountCopied(notices) + if c == Copied then 1 else 0
  {
    if notices != [] {
      assert (notices + [c])[1..] == notices[1..] + [c];
      CountAppended(notices[1..], c);
    }
  }

  predicate IsPatient(w: World, e: Event) {
    e.Copy? ==> Arrived !in At(w, e.side).notices
  }

  ghost predicate NoneOvertaken(m: Machine) {
    |m.sent| + CountCopied(m.notices) <= |m.copies| && (Arrived in m.notices ==> IsMarked(m.board))
  }

  lemma NextNoneOvertaken(w: World, e: Event, packer: Packer)
    requires Enabled(w, e) && IsPatient(w, e) && NoneOvertaken(w.host) && NoneOvertaken(w.client)
    ensures var v := Next(w, e, packer); NoneOvertaken(v.host) && NoneOvertaken(v.client)
  {
    var m := At(w, e.side);
    match e
    case Copy(side, content) => CountAppended(m.notices, Copied);
    case Check(side) => assert forall c :: c in m.notices[1..] ==> c in m.notices;
    case Deliver(side, i) =>
      CountAppended(m.notices, Arrived);
      if Delivered(m.inbox[i], side, packer).Some? { DeliveredIsMarked(m.inbox[i], side, packer); }
  }

  /** With them, too, no more messages are sent than copies were made. */
  lemma {:induction false} PatientUsersSendOnce(run: seq<World>, events: seq<Event>, packer: Packer, k: nat)
    requires IsRun(run, events, packer) && k < |run|
    requires forall j :: 0 <= j < |events| ==> IsPatient(run[j], events[j])
    ensures NoneOvertaken(run[k].host) && NoneOvertaken(run[k].client) && Sent(run[k]) <= Copies(run[k])
  {
    if k > 0 {
      PatientUsersSendOnce(run, events, packer, k - 1);
      NextNoneOvertaken(run[k - 1], events[k - 1], packer);
    }
  }

  // ----- an arrival overtaken by a copy makes the copy go out again

  /** A copy made while notifications are pending goes out once for each of
      them and once more for itself. */
  lemma CopyGoesOutForEach(w: World, side: Side, content: Content, packer: Packer)
    requires Enabled(w, Copy(side, content)) && IsSendable(content)
    ensures var v := Drain(Next(w, Copy(side, content), packer), side, packer);
            && |At(v, side).sent| == |At(w, side).sent| + |At(w, side).notices| + 1
            && |At(v, side).copies| == |At(w, side).copies| + 1
            && |At(v, Other(side)).sent| == |At(w, Other(side)).sent| && At(v, Other(side)).copies == At(w, Other(side)).copies
  {
    DrainSends(Next(w, Copy(side, content), packer), side, packer);
  }

  /** The host's user copies, it is sent and delivered, and before the client
      has looked at the delivery its own user copies: three messages for two copies. */
  lemma OvertakenArrivalSendsTwice(x: Content, y: Content, packer: Packer)
    requires (forall d :: d in x ==> !IsMark(d)) && (forall d :: d in y ==> !IsMark(d)) && Get(x, false) != [] && Get(y, false) != []
    requires FromProtos(Protos(Get(x, false), packer), packer) != []
    ensures var w := Arrival(x, packer);
            var v := Drain(Next(w, Copy(Client, y), packer), Client, packer);
            |v.host.sent| + |v.client.sent| == 3 && |v.host.copies| + |v.client.copies| == 2
  {
    var w := Arrival(x, packer);
    CopyGoesOutForEach(w, Client, y, packer);
    assert At(w, Client).sent == [] && |At(w, Host).sent| == 1 && |At(w, Client).notices| == 1;
  }

  /** A copy at the host, its check, and its delivery. */
  function Arrival(x: Content, packer: Packer): (w: World)
    requires (forall d :: d in x ==> !IsMark(d)) && Get(x, false) != []
    requires FromProtos(Protos(Get(x, false), packer), packer) != []
    ensures w.host.copies == [x] && |w.host.sent| == 1 && w.client.notices == [Arrived] && w.client.sent == [] && w.client.copies == []
  {
    var w1 := Next(Start(), Copy(Host, x), packer);
    var w2 := Next(w1, Check(Host), packer);
    Next(w2, Deliver(Client, 0), packer)
  }
}
