/** `ThrottledInterval` (client/src/common.rs): a tick is let through only when
    enough time has passed since the last one. */
module Throttle {
  import opened Basics

  /** One poll: whether the underlying interval is ready, and the clock reading. */
  datatype Poll = Poll(ready: bool, now: int)

  class ThrottledInterval {
    var nextTick: int
    const minInterval: nat

    constructor (now: int, minInterval: nat)
      ensures nextTick == now && this.minInterval == minInterval
    {
      nextTick := now;
      this.minInterval := minInterval;
    }

    method PollTick(p: Poll) returns (ticked: bool)
      modifies this
      ensures ticked <==> p.ready && old(nextTick) <= p.now
      ensures nextTick == if ticked then p.now + minInterval else old(nextTick)
    {
      if p.ready {
        if nextTick <= p.now {
          nextTick := p.now + minInterval;
          return true;
        }
      }
      return false;
    }

    /** Polling again and again lets through exactly the ticks of `Ticks`. */
    method PollAll(polls: seq<Poll>) returns (ticks: seq<int>)
      modifies this
      ensures ticks == Ticks(old(nextTick), minInterval, polls)
    {
      ticks := [];
      for i := 0 to |polls|
        invariant ticks + Ticks(nextTick, minInterval, polls[i..]) == Ticks(old(nextTick), minInterval, polls)
      {
        var ticked := PollTick(polls[i]);
        if ticked {
          ticks := ticks + [polls[i].now];
        }
      }
    }
  }

  /** The times at which ticks are let through. */
  function Ticks(next: int, minInterval: nat, polls: seq<Poll>): seq<int>
    decreases |polls|
  {
    if polls == [] then []
    else if polls[0].ready && next <= polls[0].now then
      [polls[0].now] + Ticks(polls[0].now + minInterval, minInterval, polls[1..])
    else Ticks(next, minInterval, polls[1..])
  }

  function CountWithin(ticks: seq<int>, from: int, until: int): nat {
    if ticks == [] then 0
    else (if from <= ticks[0] <= until then 1 else 0) + CountWithin(ticks[1..], from, until)
  }

  lemma {:induction false} NoneBefore(next: int, minInterval: nat, polls: seq<Poll>, from: int, until: int)
    requires until < next
    ensures CountWithin(Ticks(next, minInterval, polls), from, until) == 0
    decreases |polls|
  {
    if polls != [] {
      if polls[0].ready && next <= polls[0].now {
        NoneBefore(polls[0].now + minInterval, minInterval, polls[1..], from, until);
        assert Ticks(next, minInterval, polls)[1..] == Ticks(polls[0].now + minInterval, minInterval, polls[1..]);
      } else {
        NoneBefore(next, minInterval, polls[1..], from, until);
      }
    }
  }

  /** Between two ticks within the window lies at least one interval of it. */
  lemma {:induction false} TicksSpread(next: int, minInterval: nat, polls: seq<Poll>, from: int, until: int)
    requires from <= until
    ensures var n := CountWithin(Ticks(next, minInterval, polls), from, until); n > 0 ==> (n - 1) * minInterval <= until - from
    decreases |polls|
  {
    if polls != [] {
      var t := polls[0].now;
      if polls[0].ready && next <= t {
        var later := Ticks(t + minInterval, minInterval, polls[1..]);
        assert Ticks(next, minInterval, polls)[1..] == later;
        if from <= t <= until {
          if t + minInterval <= until {
            TicksSpread(t + minInterval, minInterval, polls[1..], t + minInterval, until);
            SameFromFirst(t + minInterval, minInterval, polls[1..], from, t + minInterval, until);
            var n := CountWithin(later, from, until);
            if n > 0 { assert n * minInterval == (n - 1) * minInterval + minInterval; }
          } else {
            NoneBefore(t + minInterval, minInterval, polls[1..], from, until);
          }
        } else {
          TicksSpread(t + minInterval, minInterval, polls[1..], from, until);
        }
      } else {
        TicksSpread(next, minInterval, polls[1..], from, until);
      }
    }
  }

  lemma {:induction false} SameFromFirst(next: int, minInterval: nat, polls: seq<Poll>, from: int, from': int, until: int)
    requires from <= from' <= next
    ensures CountWithin(Ticks(next, minInterval, polls), from, until) == CountWithin(Ticks(next, minInterval, polls), from', until)
    decreases |polls|
  {
    if polls != [] {
      if polls[0].ready && next <= polls[0].now {
        SameFromFirst(polls[0].now + minInterval, minInterval, polls[1..], from, from', until);
        assert Ticks(next, minInterval, polls)[1..] == Ticks(polls[0].now + minInterval, minInterval, polls[1..]);
      } else {
        SameFromFirst(next, minInterval, polls[1..], from, from', until);
      }
    }
  }

  /** For every sequence of polls and clock readings, bursts included, any time
      window of length `length` holds at most length / minInterval + 1 ticks. */
  lemma TicksBounded(next: int, minInterval: nat, polls: seq<Poll>, from: int, length: nat)
    requires minInterval > 0
    ensures CountWithin(Ticks(next, minInterval, polls), from, from + length) <= length / minInterval + 1
  {
    var n := CountWithin(Ticks(next, minInterval, polls), from, from + length);
    TicksSpread(next, minInterval, polls, from, from + length);
    if n > 0 { AtMostQuotient(n - 1, minInterval, length); }
  }

  lemma AtMostQuotient(n: nat, d: nat, length: nat)
    requires d > 0 && n * d <= length
    ensures n <= length / d
  {
    var q := length / d;
    assert length < (q + 1) * d;
    if n > q {
      MulMonotone(q + 1, n, d);
      assert false;
    }
  }

  // ----- no tick is withheld

  ghost predicate InOrder(polls: seq<Poll>) {
    forall i, j :: 0 <= i < j < |polls| ==> polls[i].now <= polls[j].now
  }

  lemma {:induction false} CountsTick(ticks: seq<int>, t: int, from: int, until: int)
    requires t in ticks && from <= t <= until
    ensures CountWithin(ticks, from, until) > 0
  {
    if ticks[0] != t { CountsTick(ticks[1..], t, from, until); }
  }

  /** Less than an interval before a ready poll, or at it, lies a tick, unless the
      first tick is not due yet. */
  lemma {:induction false} SomeTick(next: int, minInterval: nat, polls: seq<Poll>, k: nat) returns (t: int)
    requires InOrder(polls) && k < |polls| && polls[k].ready && next <= polls[k].now && minInterval > 0
    ensures t in Ticks(next, minInterval, polls) && polls[k].now - minInterval < t <= polls[k].now
    decreases |polls|
  {
    var first := polls[0];
    assert InOrder(polls[1..]);
    if first.ready && next <= first.now {
      var later := first.now + minInterval;
      t := first.now;
      if later <= polls[k].now {
        t := SomeTick(later, minInterval, polls[1..], k - 1);
      }
    } else {
      t := SomeTick(next, minInterval, polls[1..], k - 1);
    }
  }

  /** Once the first tick is due, any window as long as the interval that ends at
      a ready poll holds a tick. */
  lemma NoTickWithheld(next: int, minInterval: nat, polls: seq<Poll>, k: nat)
    requires InOrder(polls) && k < |polls| && polls[k].ready && next <= polls[k].now && minInterval > 0
    ensures CountWithin(Ticks(next, minInterval, polls), polls[k].now - minInterval + 1, polls[k].now) > 0
  {
    var t := SomeTick(next, minInterval, polls, k);
    CountsTick(Ticks(next, minInterval, polls), t, polls[k].now - minInterval + 1, polls[k].now);
  }
}
