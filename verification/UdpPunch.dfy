/** The resend schedule of `punch_udp` (client/src/common.rs): empty datagrams
    at growing intervals until something is heard or the time is up. */
module UdpPunch {
  // Nanoseconds.
  const MS := 1_000_000
  const MAX_TIME := 20_000 * MS

  /** The next interval in milliseconds: half as long again, at most 200. */
  function Backoff(retry: nat): nat {
    if retry * 3 / 2 < 200 then retry * 3 / 2 else 200
  }

  /** The interval after `n` resends. */
  function Interval(n: nat): nat {
    if n == 0 then 20 else Backoff(Interval(n - 1))
  }

  /** The earliest time of the `n`-th resend, in milliseconds after the first datagram. */
  function Earliest(n: nat): nat {
    if n == 0 then 0 else Earliest(n - 1) + Interval(n - 1)
  }

  /** What wakes the loop: the sleep, with the clock as it is read for the time
      limit, for the interval and after the send; or the socket. */
  datatype Wake = Slept(checked: int, compared: int, after: int) | Received(at: int, length: nat) | Failed

  datatype Outcome = Running | TimedOut | Punched | Broken

  datatype Punch = Punch(retry: nat, last: int, now: int, packets: nat, outcome: Outcome)

  /** Clocks do not go back, and a sleep lasts at least its interval. */
  predicate IsTimely(p: Punch, w: Wake) {
    match w
    case Slept(checked, compared, after) => p.now + p.retry * MS <= checked <= compared <= after
    case Received(at, _) => p.now <= at
    case Failed => true
  }

  function Step(p: Punch, w: Wake, listen: bool, started: int): Punch {
    match w
    case Slept(checked, compared, after) =>
      if checked - started > MAX_TIME then p.(outcome := TimedOut)
      else if compared - p.last >= p.retry * MS then Punch(Backoff(p.retry), after, after, p.packets + 1, Running)
      else p.(now := compared)
    case Received(at, length) => if listen && length == 0 then p.(now := at) else p.(outcome := Punched)
    case Failed => p.(outcome := Broken)
  }

  function Run(p: Punch, wakes: seq<Wake>, listen: bool, started: int): Punch
    decreases |wakes|
  {
    if wakes == [] || p.outcome != Running then p else Run(Step(p, wakes[0], listen, started), wakes[1..], listen, started)
  }

  ghost predicate AreTimely(p: Punch, wakes: seq<Wake>, listen: bool, started: int)
    decreases |wakes|
  {
    wakes == [] || p.outcome != Running
    || (IsTimely(p, wakes[0]) && AreTimely(Step(p, wakes[0], listen, started), wakes[1..], listen, started))
  }

  /** After the first datagram, sent at `first`. */
  function Sent(first: int): Punch { Punch(20, first, first, 1, Running) }

  /** The loop itself. */
  method PunchUdp(listen: bool, first: int, started: int, wakes: seq<Wake>) returns (p: Punch)
    ensures p == Run(Sent(first), wakes, listen, started)
  {
    var retry: nat, packets: nat, last, now := 20, 1, first, first;
    for i := 0 to |wakes|
      invariant Run(Punch(retry, last, now, packets, Running), wakes[i..], listen, started) == Run(Sent(first), wakes, listen, started)
    {
      ghost var before := Punch(retry, last, now, packets, Running);
      match wakes[i] {
        case Slept(checked, compared, after) =>
          if checked - started > MAX_TIME {
            return Punch(retry, last, now, packets, TimedOut);
          }
          now := compared;
          if compared - last >= retry * MS {
            packets := packets + 1;
            retry := if retry * 3 / 2 < 200 then retry * 3 / 2 else 200;
            last, now := after, after;
          }
        case Received(at, length) =>
          if !(listen && length == 0) {
            return Punch(retry, last, now, packets, Punched);
          }
          now := at;
        case Failed =>
          return Punch(retry, last, now, packets, Broken);
      }
      assert Punch(retry, last, now, packets, Running) == Step(before, wakes[i], listen, started);
    }
    return Punch(retry, last, now, packets, Running);
  }

  // ----- the schedule

  /** The interval never shrinks, stays between 20 and 200, and is 200 from the sixth resend on. */
  lemma {:induction false} IntervalGrows(n: nat)
    ensures 20 <= Interval(n) <= 200 && Interval(n) <= Interval(n + 1)
    ensures n >= 6 <==> Interval(n) == 200
  {
    if n > 0 { IntervalGrows(n - 1); }
    assert Interval(1) == 30 && Interval(2) == 45 && Interval(3) == 67;
    assert Interval(4) == 100 && Interval(5) == 150 && Interval(6) == 200;
  }

  lemma {:induction false} EarliestIs(n: nat)
    requires n >= 6
    ensures Earliest(n) == 412 + 200 * (n - 6)
  {
    if n == 6 {
      IntervalGrows(6);
      assert Interval(1) == 30 && Interval(2) == 45 && Interval(3) == 67 && Interval(4) == 100 && Interval(5) == 150;
      assert Earliest(3) == 95 && Earliest(4) == 162 && Earliest(5) == 262;
    } else {
      EarliestIs(n - 1);
      IntervalGrows(n - 1);
    }
  }

  // ----- the number of datagrams

  ghost predicate OnSchedule(p: Punch, first: int, started: int) {
    && p.packets >= 1 && p.retry == Interval(p.packets - 1) && p.now >= p.last
    && p.last >= first + Earliest(p.packets - 1) * MS
    && (p.packets > 1 ==> first + Earliest(p.packets - 1) * MS <= started + MAX_TIME)
  }

  lemma StepOnSchedule(p: Punch, w: Wake, listen: bool, first: int, started: int)
    requires OnSchedule(p, first, started) && IsTimely(p, w)
    ensures OnSchedule(Step(p, w, listen, started), first, started)
  {
    assert Earliest(p.packets) == Earliest(p.packets - 1) + Interval(p.packets - 1);
  }

  lemma {:induction false} RunOnSchedule(p: Punch, wakes: seq<Wake>, listen: bool, first: int, started: int)
    requires OnSchedule(p, first, started) && AreTimely(p, wakes, listen, started)
    ensures OnSchedule(Run(p, wakes, listen, started), first, started)
    decreases |wakes|
  {
    if wakes != [] && p.outcome == Running {
      StepOnSchedule(p, wakes[0], listen, first, started);
      RunOnSchedule(Step(p, wakes[0], listen, started), wakes[1..], listen, first, started);
    }
  }

  /** Whatever wakes the loop and whenever: a resend happens only if its
      earliest time is within the limit, so there are at most 104 datagrams when
      the clock is started less than 12 ms after the first of them. */
  lemma AtMost104Datagrams(wakes: seq<Wake>, listen: bool, first: int, started: int)
    requires first <= started && AreTimely(Sent(first), wakes, listen, started)
    ensures var n := Run(Sent(first), wakes, listen, started).packets;
            && (n > 1 ==> first + Earliest(n - 1) * MS <= started + MAX_TIME)
            && (started - first < 12 * MS ==> n <= 104)
  {
    RunOnSchedule(Sent(first), wakes, listen, first, started);
    var n := Run(Sent(first), wakes, listen, started).packets;
    if n > 7 { EarliestIs(n - 1); }
  }

  /** Wake-ups that are never late. */
  function Prompt(p: Punch, n: nat): seq<Wake>
    decreases n
  {
    if n == 0 then []
    else
      var t := p.last + p.retry * MS;
      [Slept(t, t, t)] + Prompt(Punch(Backoff(p.retry), t, t, p.packets + 1, Running), n - 1)
  }

  lemma {:induction false} PromptSends(p: Punch, n: nat, listen: bool, first: int, started: int)
    requires p.outcome == Running && p.packets >= 1 && p.now == p.last && p.retry == Interval(p.packets - 1)
    requires p.last == first + Earliest(p.packets - 1) * MS
    requires first + Earliest(p.packets - 1 + n) * MS <= started + MAX_TIME
    ensures AreTimely(p, Prompt(p, n), listen, started)
    ensures Run(p, Prompt(p, n), listen, started).packets == p.packets + n
    decreases n
  {
    hide Step, Earliest, Interval, Backoff, IsTimely;
    if n > 0 {
      var t := p.last + p.retry * MS;
      var q := Punch(Backoff(p.retry), t, t, p.packets + 1, Running);
      var w := Slept(t, t, t);
      EarliestGrows(p.packets, p.packets - 1 + n);
      PromptStep(p, t, listen, first, started);
      PromptSends(q, n - 1, listen, first, started);
      RunStep(p, w, Prompt(q, n - 1), listen, started);
    }
  }

  /** A prompt wake-up within the limit makes a resend at its earliest time. */
  lemma PromptStep(p: Punch, t: int, listen: bool, first: int, started: int)
    requires p.outcome == Running && p.packets >= 1 && p.now == p.last && p.retry == Interval(p.packets - 1)
    requires p.last == first + Earliest(p.packets - 1) * MS && t == p.last + p.retry * MS
    requires first + Earliest(p.packets) * MS <= started + MAX_TIME
    ensures t == first + Earliest(p.packets) * MS && IsTimely(p, Slept(t, t, t)) && Backoff(p.retry) == Interval(p.packets)
    ensures Step(p, Slept(t, t, t), listen, started) == Punch(Backoff(p.retry), t, t, p.packets + 1, Running)
  {
    assert Earliest(p.packets) == Earliest(p.packets - 1) + Interval(p.packets - 1);
  }

  lemma RunStep(p: Punch, w: Wake, rest: seq<Wake>, listen: bool, started: int)
    requires p.outcome == Running
    ensures Run(p, [w] + rest, listen, started) == Run(Step(p, w, listen, started), rest, listen, started)
    ensures AreTimely(p, [w] + rest, listen, started)
       <==> IsTimely(p, w) && AreTimely(Step(p, w, listen, started), rest, listen, started)
  {
    assert ([w] + rest)[1..] == rest;
  }

  lemma {:induction false} EarliestGrows(m: nat, n: nat)
    requires m <= n
    ensures Earliest(m) <= Earliest(n)
  {
    if m < n { EarliestGrows(m, n - 1); }
  }

  /** The bound is met: with prompt wake-ups every resend that may happen does. */
  lemma BoundIsMet(n: nat, listen: bool, first: int, started: int)
    requires first + Earliest(n) * MS <= started + MAX_TIME
    ensures Run(Sent(first), Prompt(Sent(first), n), listen, started).packets == n + 1
    ensures AreTimely(Sent(first), Prompt(Sent(first), n), listen, started)
  {
    PromptSends(Sent(first), n, listen, first, started);
  }

  /** Exactly how many datagrams a run can send, for any clock started after the
      first one. */
  lemma ReachableExactly(n: nat, listen: bool, first: int, started: int)
    requires first <= started
    ensures (exists wakes :: AreTimely(Sent(first), wakes, listen, started) && Run(Sent(first), wakes, listen, started).packets > n)
       <==> first + Earliest(n) * MS <= started + MAX_TIME
  {
    if first + Earliest(n) * MS <= started + MAX_TIME {
      BoundIsMet(n, listen, first, started);
    }
    forall wakes | AreTimely(Sent(first), wakes, listen, started) && Run(Sent(first), wakes, listen, started).packets > n
      ensures first + Earliest(n) * MS <= started + MAX_TIME
    {
      RunOnSchedule(Sent(first), wakes, listen, first, started);
      EarliestGrows(n, Run(Sent(first), wakes, listen, started).packets - 1);
    }
  }

  /** Some run sends 104 datagrams, and one sends more exactly when the clock is
      started at least 12 ms after the first of them. */
  lemma LimitIsExact(listen: bool, first: int, started: int)
    requires first <= started
    ensures exists wakes :: AreTimely(Sent(first), wakes, listen, started) && Run(Sent(first), wakes, listen, started).packets > 103
    ensures (exists wakes :: AreTimely(Sent(first), wakes, listen, started) && Run(Sent(first), wakes, listen, started).packets > 104)
       <==> started - first >= 12 * MS
  {
    EarliestIs(103);
    EarliestIs(104);
    ReachableExactly(103, listen, first, started);
    ReachableExactly(104, listen, first, started);
  }

  /** A sleep within the limit makes a resend exactly if the interval has passed
      since the last one was sent; the next interval counts from after the send. */
  lemma ResendExactly(p: Punch, checked: int, compared: int, after: int, listen: bool, started: int)
    requires p.outcome == Running && checked - started <= 20_000_000_000
    ensures var q := Step(p, Slept(checked, compared, after), listen, started);
            && q.outcome == Running
            && if compared >= p.last + p.retry * 1_000_000
               then q.packets == p.packets + 1 && q.last == q.now == after && q.retry == Backoff(p.retry)
               else q == p.(now := compared)
  {
  }

  // ----- how the loop ends

  /** What ends the loop, whatever happened before: the clock beyond twenty
      seconds after a sleep, an answer or, when listening, one that is not empty,
      and a failing socket. */
  function Verdict(w: Wake, listen: bool, started: int): Outcome {
    match w
    case Slept(checked, _, _) => if checked > started + 20_000_000_000 then TimedOut else Running
    case Received(_, length) => if listen && length == 0 then Running else Punched
    case Failed => Broken
  }

  /** The first wake-up with a verdict decides, and nothing is sent from it on. */
  lemma {:induction false} FirstVerdictDecides(p: Punch, wakes: seq<Wake>, listen: bool, started: int, k: nat)
    requires p.outcome == Running && k <= |wakes|
    requires (forall i :: 0 <= i < k ==> Verdict(wakes[i], listen, started) == Running)
    requires k < |wakes| ==> Verdict(wakes[k], listen, started) != Running
    ensures Run(p, wakes, listen, started).outcome == if k < |wakes| then Verdict(wakes[k], listen, started) else Running
    ensures Run(p, wakes, listen, started).packets == Run(p, wakes[..k], listen, started).packets
    decreases k
  {
    if k > 0 {
      var q := Step(p, wakes[0], listen, started);
      FirstVerdictDecides(q, wakes[1..], listen, started, k - 1);
      assert wakes[..k][1..] == wakes[1..][..k - 1];
    } else if wakes != [] {
      assert Run(p, wakes, listen, started) == Step(p, wakes[0], listen, started);
    }
  }
}
