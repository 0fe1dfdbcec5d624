/** The audio jitter buffer as values: what each step of `AudioBuffer` does to
    the buffered samples, the occupancy histogram and the history of every
    sample (client/src/client.rs). */
module AudioModel {
  // Samples are only moved, never computed with.
  type Sample = real

  datatype Fate = Played | Dropped

  /** `window` lists the occupancies recorded since the last completed window,
      each with the per-second rate it was recorded at. */
  datatype Audio = Audio(
    capacity: nat, rate: nat, content: seq<Sample>, hist: seq<nat>, shrunkAt: int,
    pushed: seq<Sample>, fates: seq<Fate>, heard: seq<Sample>, window: seq<(nat, nat)>)

  const BUCKETS := 30
  const PERIOD := 12000

  function Min(a: int, b: int): int { if a < b then a else b }

  function Times(n: nat, f: Fate): (r: seq<Fate>)
    ensures |r| == n && forall i :: 0 <= i < n ==> r[i] == f
  {
    seq(n, _ => f)
  }

  function KeepLast(s: seq<Sample>, n: nat): seq<Sample> {
    if |s| <= n then s else s[|s| - n..]
  }

  function Append(a: Audio, samples: seq<Sample>): Audio {
    var all := a.content + samples;
    var kept := KeepLast(all, a.capacity);
    a.(content := kept, pushed := a.pushed + samples, fates := a.fates + Times(|all| - |kept|, Dropped))
  }

  function Skip(a: Audio, n: nat): Audio
    requires n <= |a.content|
  {
    a.(content := a.content[n..], fates := a.fates + Times(n, Dropped))
  }

  /** The playback callback: it plays what there is, up to what it needs. */
  function Play(a: Audio, need: nat): Audio {
    var n := Min(need, |a.content|);
    a.(content := a.content[n..], fates := a.fates + Times(n, Played), heard := a.heard + a.content[..n])
  }

  function Resize(a: Audio, sampleRate: nat, channels: nat): Audio {
    var capacity := sampleRate * channels * 3000 / 1000;
    if capacity == a.capacity then a
    else
      a.(capacity := capacity, rate := sampleRate * channels, content := [],
         fates := a.fates + Times(|a.content|, Dropped))
  }

  // ----- the histogram

  function Bucket(having: nat, rate: nat): (i: nat)
    requires rate > 0
    ensures i < BUCKETS
  {
    Min(having * 10 / rate, 29)
  }

  /** Length of the run of empty buckets at the start. */
  function LeadingZeros(h: seq<nat>): (n: nat)
    ensures n <= |h| && (forall i :: 0 <= i < n ==> h[i] == 0) && (n < |h| ==> h[n] != 0)
  {
    if h == [] || h[0] != 0 then 0 else 1 + LeadingZeros(h[1..])
  }

  /** The tallest of the buckets 1 to |h| - 1, the first if several are, or 0 if all are empty. */
  function Peak(h: seq<nat>): (m: nat)
    ensures m == 0 || m < |h|
    ensures forall j :: 1 <= j < |h| ==> h[j] <= if m == 0 then 0 else h[m]
    ensures m != 0 ==> forall j :: 1 <= j < m ==> h[j] < h[m]
    ensures m != 0 ==> h[m] > 0
  {
    if |h| <= 1 then 0
    else
      var n := |h| - 1;
      var m := Peak(h[..n]);
      if h[n] > (if m == 0 then 0 else h[m]) then n else m
  }

  /** The water mark of the drop, in quarters of a bucket; 0 asks for none. */
  function Mark(h: seq<nat>): nat {
    var safe := LeadingZeros(h) * 2 / 3;
    var most := Peak(h);
    if most < 6 then 0 else if most > safe * 4 then safe * 4 else most
  }

  function Blank(): (h: seq<nat>)
    ensures |h| == BUCKETS && forall i :: 0 <= i < BUCKETS ==> h[i] == 0
  {
    seq(BUCKETS, _ => 0)
  }

  /** Records an occupancy; every twelve seconds the window is closed and the mark is read off. */
  function Measure(a: Audio, having: nat, now: int): (r: (Audio, nat))
    requires a.rate > 0 && |a.hist| == BUCKETS
  {
    var i := Bucket(having, a.rate);
    var b := a.(hist := a.hist[i := a.hist[i] + 1], window := a.window + [(having, a.rate)]);
    if a.shrunkAt == 0 then (b.(shrunkAt := now), 0)
    else if now < a.shrunkAt + PERIOD then (b, 0)
    else (b.(shrunkAt := now, hist := Blank(), window := []), Mark(b.hist))
  }

  /** Whether the measurement closes the window. */
  predicate Closes(a: Audio, now: int) {
    a.shrunkAt != 0 && now >= a.shrunkAt + PERIOD
  }

  function Even(n: nat): nat { n - n % 2 }

  function DropSize(capacity: nat, mark: nat): nat {
    Even(capacity * mark / 120 + 1)
  }

  /** The second half of `try_shrink`: nothing is dropped unless three times as much is there. */
  function Shrink(a: Audio, mark: nat): Audio {
    var skip := DropSize(a.capacity, mark);
    if |a.content| > skip * 3 && skip > 0 then Skip(a, skip) else a
  }

  // ----- the invariant

  function CountBucket(w: seq<(nat, nat)>, i: nat): nat
    requires forall e :: e in w ==> e.1 > 0
  {
    if w == [] then 0
    else CountBucket(w[..|w| - 1], i) + if Bucket(w[|w| - 1].0, w[|w| - 1].1) == i then 1 else 0
  }

  /** The samples with fate `Played`, in the order they were pushed. */
  function Selected(pushed: seq<Sample>, fates: seq<Fate>): seq<Sample>
    requires |fates| <= |pushed|
  {
    if fates == [] then []
    else
      var n := |fates| - 1;
      Selected(pushed[..n], fates[..n]) + if fates[n] == Played then [pushed[n]] else []
  }

  ghost predicate Ok(a: Audio) {
    && a.rate > 0 && a.capacity == 3 * a.rate && |a.content| <= a.capacity
    && |a.fates| + |a.content| == |a.pushed| && a.content == a.pushed[|a.fates|..]
    && a.heard == Selected(a.pushed, a.fates)
    && |a.hist| == BUCKETS && (forall e :: e in a.window ==> e.1 > 0)
    && forall i :: 0 <= i < BUCKETS ==> a.hist[i] == CountBucket(a.window, i)
  }
}
