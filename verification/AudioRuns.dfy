/** What holds of the audio buffer in every run, whatever the interleaving of
    the decoding thread and the playback callback. */
module AudioRuns {
  import opened AudioModel
  import opened Basics

  // ----- the history grows in order

  lemma {:induction false} SelectedOfLonger(pushed: seq<Sample>, more: seq<Sample>, fates: seq<Fate>)
    requires |fates| <= |pushed|
    ensures Selected(pushed + more, fates) == Selected(pushed, fates)
  {
    if fates != [] {
      var n := |fates| - 1;
      assert (pushed + more)[..n] == pushed[..n];
    }
  }

  lemma {:induction false} SelectedGrows(pushed: seq<Sample>, fates: seq<Fate>, n: nat, f: Fate)
    requires |fates| + n <= |pushed|
    ensures Selected(pushed, fates + Times(n, f))
         == Selected(pushed, fates) + if f == Played then pushed[|fates|..|fates| + n] else []
  {
    var all := fates + Times(n, f);
    if n == 0 {
      assert all == fates;
    } else {
      var m := |all| - 1;
      assert all[..m] == fates + Times(n - 1, f);
      SelectedGrows(pushed, fates, n - 1, f);
      SelectedOfLonger(pushed[..m], pushed[m..], all[..m]);
      assert pushed[..m] + pushed[m..] == pushed;
    }
  }

  function CountFate(fates: seq<Fate>, f: Fate): nat {
    if fates == [] then 0 else CountFate(fates[..|fates| - 1], f) + if fates[|fates| - 1] == f then 1 else 0
  }

  lemma {:induction false} FatesCounted(fates: seq<Fate>)
    ensures CountFate(fates, Played) + CountFate(fates, Dropped) == |fates|
  {
    if fates != [] { FatesCounted(fates[..|fates| - 1]); }
  }

  lemma {:induction false} SelectedLength(pushed: seq<Sample>, fates: seq<Fate>)
    requires |fates| <= |pushed|
    ensures |Selected(pushed, fates)| == CountFate(fates, Played)
  {
    if fates != [] { SelectedLength(pushed[..|fates| - 1], fates[..|fates| - 1]); }
  }

  /** Nothing is lost or made up: pushed = played + dropped + still buffered. */
  lemma SamplesConserved(a: Audio)
    requires Ok(a)
    ensures |a.pushed| == |a.heard| + CountFate(a.fates, Dropped) + |a.content|
  {
    FatesCounted(a.fates);
    SelectedLength(a.pushed, a.fates);
  }

  // ----- every step keeps the invariant

  lemma AppendOk(a: Audio, samples: seq<Sample>)
    requires Ok(a)
    ensures Ok(Append(a, samples))
    ensures |Append(a, samples).content| == Min(a.capacity, |a.content| + |samples|)
  {
    var all := a.content + samples;
    var d := |all| - |KeepLast(all, a.capacity)|;
    SelectedOfLonger(a.pushed, samples, a.fates);
    SelectedGrows(a.pushed + samples, a.fates, d, Dropped);
    assert (a.pushed + samples)[|a.fates|..] == all;
    assert (a.pushed + samples)[|a.fates| + d..] == all[d..];
  }

  lemma SkipOk(a: Audio, n: nat)
    requires Ok(a) && n <= |a.content|
    ensures Ok(Skip(a, n))
  {
    SelectedGrows(a.pushed, a.fates, n, Dropped);
    assert a.pushed[|a.fates| + n..] == a.content[n..];
  }

  lemma PlayOk(a: Audio, need: nat)
    requires Ok(a)
    ensures Ok(Play(a, need))
  {
    var n := Min(need, |a.content|);
    SelectedGrows(a.pushed, a.fates, n, Played);
    assert a.pushed[|a.fates| + n..] == a.content[n..];
    assert a.pushed[|a.fates|..|a.fates| + n] == a.content[..n];
  }

  /** Both branches of `resize` keep three seconds of capacity. */
  lemma ResizeOk(a: Audio, sampleRate: nat, channels: nat)
    requires Ok(a) && sampleRate > 0 && channels > 0
    ensures Ok(Resize(a, sampleRate, channels)) && Resize(a, sampleRate, channels).rate == sampleRate * channels
  {
    var r := sampleRate * channels;
    assert r > 0;
    assert r * 3000 / 1000 == 3 * r;
    SelectedGrows(a.pushed, a.fates, |a.content|, Dropped);
  }

  lemma MeasureOk(a: Audio, having: nat, now: int)
    requires Ok(a)
    ensures Ok(Measure(a, having, now).0)
  {
    var w := a.window + [(having, a.rate)];
    assert w[..|w| - 1] == a.window;
    forall e | e in w ensures e.1 > 0 { assert e in a.window || e == (having, a.rate); }
  }

  // ----- the histogram

  function Sum(h: seq<nat>): nat {
    if h == [] then 0 else Sum(h[..|h| - 1]) + h[|h| - 1]
  }

  lemma {:induction false} SumBumped(h: seq<nat>, i: nat)
    requires i < |h|
    ensures Sum(h[i := h[i] + 1]) == Sum(h) + 1
  {
    var n := |h| - 1;
    if i < n {
      SumBumped(h[..n], i);
      assert h[i := h[i] + 1][..n] == h[..n][i := h[i] + 1];
    } else {
      assert h[i := h[i] + 1][..n] == h[..n];
    }
  }

  lemma {:induction false} SumOfBlank(h: seq<nat>)
    requires forall i :: 0 <= i < |h| ==> h[i] == 0
    ensures Sum(h) == 0
  {
    if h != [] { SumOfBlank(h[..|h| - 1]); }
  }

  /** The counters always add up to the number of measurements in the open window. */
  lemma MeasureCounts(a: Audio, having: nat, now: int)
    requires Ok(a) && Sum(a.hist) == |a.window|
    ensures var (b, _) := Measure(a, having, now);
            && Sum(b.hist) == |b.window|
            && if Closes(a, now) then b.window == [] && b.hist == Blank() else |b.window| == |a.window| + 1
  {
    SumBumped(a.hist, Bucket(having, a.rate));
    SumOfBlank(Blank());
  }

  /** With an empty first bucket the peak is the first maximum of the whole histogram. */
  lemma PeakIsFirstMaximum(h: seq<nat>)
    requires h != [] && h[0] == 0
    ensures Peak(h) < |h|
    ensures forall j :: 0 <= j < |h| ==> h[j] <= h[Peak(h)]
    ensures forall j :: 0 <= j < Peak(h) ==> h[j] < h[Peak(h)]
  {
    FirstMaximum(h, Peak(h));
  }

  lemma FirstMaximum(h: seq<nat>, m: nat)
    requires h != [] && h[0] == 0 && m < |h|
    requires forall j :: 1 <= j < |h| ==> h[j] <= if m == 0 then 0 else h[m]
    requires m != 0 ==> h[m] > 0 && forall j :: 1 <= j < m ==> h[j] < h[m]
    ensures forall j :: 0 <= j < |h| ==> h[j] <= h[m]
    ensures forall j :: 0 <= j < m ==> h[j] < h[m]
  {
  }

  /** If the buffer was ever almost empty, nothing is dropped. */
  lemma NearlyEmptyMeansNoDrop(h: seq<nat>, capacity: nat)
    requires h != [] && h[0] != 0
    ensures Mark(h) == 0 && DropSize(capacity, Mark(h)) == 0
  {
    assert LeadingZeros(h) == 0;
  }

  lemma {:induction false} CountedIfIn(w: seq<(nat, nat)>, e: (nat, nat))
    requires (forall x :: x in w ==> x.1 > 0) && e in w
    ensures CountBucket(w, Bucket(e.0, e.1)) > 0
  {
    if e != w[|w| - 1] {
      assert e in w[..|w| - 1];
      CountedIfIn(w[..|w| - 1], e);
    }
  }

  /** What a positive mark says about every occupancy of the window it was read from. */
  ghost predicate Justified(mark: nat, w: seq<(nat, nat)>) {
    forall e :: e in w ==> e.1 > 0 && mark * e.1 * 3 <= 80 * e.0 && 5 * e.0 >= e.1
  }

  lemma MarkJustified(a: Audio, having: nat, now: int)
    requires Ok(a) && Measure(a, having, now).1 > 0
    ensures Closes(a, now)
    ensures Justified(Measure(a, having, now).1, a.window + [(having, a.rate)])
    ensures Peak(a.hist[Bucket(having, a.rate) := a.hist[Bucket(having, a.rate)] + 1]) >= 6
  {
    hide LeadingZeros, CountBucket, Selected, Justified;
    var w := a.window + [(having, a.rate)];
    var i := Bucket(having, a.rate);
    var h := a.hist[i := a.hist[i] + 1];
    forall e | e in w ensures e.1 > 0 && h[Bucket(e.0, e.1)] > 0 {
      if e in a.window { CountedIfIn(a.window, e); }
    }
    JustifiedByHistogram(h, w);
  }

  lemma JustifiedByHistogram(h: seq<nat>, w: seq<(nat, nat)>)
    requires |h| == BUCKETS && Mark(h) > 0 && forall e :: e in w ==> e.1 > 0 && h[Bucket(e.0, e.1)] > 0
    ensures Justified(Mark(h), w)
  {
    var zeros := LeadingZeros(h);
    assert 0 < Mark(h) <= zeros * 2 / 3 * 4;
    forall e | e in w ensures e.1 > 0 && Mark(h) * e.1 * 3 <= 80 * e.0 && 5 * e.0 >= e.1 {
      assert zeros <= Bucket(e.0, e.1);
      DeepEnough(e.0, e.1, zeros, Mark(h));
    }
  }

  lemma QuotientBelow(n: nat, d: nat)
    requires d > 0
    ensures n / d * d <= n
  {
  }

  lemma DeepEnough(having: nat, rate: nat, zeros: nat, mark: nat)
    requires rate > 0 && zeros <= Bucket(having, rate) && 0 < mark <= zeros * 2 / 3 * 4
    ensures mark * rate * 3 <= 80 * having && 5 * having >= rate
  {
    var q := having * 10 / rate;
    QuotientBelow(having * 10, rate);
    assert 2 <= zeros <= q && 3 * mark <= 8 * zeros;
    MulMonotone(zeros, q, rate);
    MulMonotone(2, zeros, rate);
    MulMonotone(3 * mark, 8 * zeros, rate);
    Reordered(mark, rate, zeros);
  }

  lemma Reordered(mark: nat, rate: nat, zeros: nat)
    ensures 3 * mark * rate == mark * rate * 3 && 8 * zeros * rate == 8 * (zeros * rate)
  {
  }

  /** The drop is the one even number within a sample of the mark's share of
      the capacity, a 120th for each unit of the mark. */
  lemma DropSizeRounds(capacity: nat, mark: nat, n: nat)
    ensures DropSize(capacity, mark) == n <==> n % 2 == 0 && 120 * (n - 1) <= capacity * mark < 120 * (n + 1)
  {
    ExactWorth(capacity * mark, n);
  }

  lemma ExactWorth(worth: nat, n: nat)
    ensures Even(worth / 120 + 1) == n <==> n % 2 == 0 && 120 * (n - 1) <= worth < 120 * (n + 1)
  {
  }

  /** The drop itself, at any later moment and with the rate unchanged. */
  lemma DropBounded(a: Audio, mark: nat, w: seq<(nat, nat)>)
    requires Ok(a) && Justified(mark, w) && Shrink(a, mark) != a
    ensures var skip := |a.content| - |Shrink(a, mark).content|;
            && skip > 0 && skip % 2 == 0 && 3 * skip < |a.content|
            && forall e :: e in w && e.1 == a.rate ==> 3 * (skip - 1) <= 2 * e.0 && 5 * e.0 >= a.rate
  {
    var skip := DropSize(a.capacity, mark);
    DropSizeRounds(a.capacity, mark, skip);
    forall e | e in w && e.1 == a.rate ensures 3 * (skip - 1) <= 2 * e.0 {
      ThreeSeconds(a.rate, a.capacity, mark, skip, e.0);
    }
  }

  lemma ThreeSeconds(rate: nat, capacity: nat, mark: nat, skip: nat, having: nat)
    requires capacity == 3 * rate && 120 * (skip - 1) <= capacity * mark && mark * rate * 3 <= 80 * having
    ensures 3 * (skip - 1) <= 2 * having
  {
    assert 3 * rate * mark == mark * rate * 3;
  }

  /** A drop of `n`, the even number within a sample of the mark's share of the
      capacity, takes exactly the `n` oldest samples if more than three times as
      many are there, and otherwise nothing changes. */
  lemma ShrinkExactly(a: Audio, mark: nat, n: nat)
    requires n % 2 == 0 && 120 * (n - 1) <= a.capacity * mark < 120 * (n + 1)
    ensures Shrink(a, mark) == if n > 0 && |a.content| > 3 * n
              then a.(content := a.content[n..], fates := a.fates + Times(n, Dropped)) else a
  {
    DropSizeRounds(a.capacity, mark, n);
  }

  /** A bucket is a tenth of a second, the last one holds all deeper ones. */
  lemma BucketMeans(having: nat, rate: nat)
    requires rate > 0
    ensures var i := Bucket(having, rate);
            && i < 30 && i * rate <= 10 * having && (i < 29 ==> 10 * having < (i + 1) * rate)
  {
    var q := having * 10 / rate;
    QuotientBelow(having * 10, rate);
    assert 10 * having < (q + 1) * rate;
    MulMonotone(Bucket(having, rate), q, rate);
  }

  /** Whether a measurement closes the window, and what else it does. */
  lemma MeasureExactly(a: Audio, having: nat, now: int)
    requires Ok(a)
    ensures var (b, mark) := Measure(a, having, now);
            var h := a.hist[Bucket(having, a.rate) := a.hist[Bucket(having, a.rate)] + 1];
            && b.content == a.content && b.fates == a.fates && b.capacity == a.capacity && b.rate == a.rate
            && if a.shrunkAt == 0 then b.shrunkAt == now && b.hist == h && mark == 0
               else if now < a.shrunkAt + 12_000 then b.shrunkAt == a.shrunkAt && b.hist == h && mark == 0
               else b.shrunkAt == now && b.hist == Blank() && mark == Mark(h)
  {
  }

  /** The mark is the peak, held down to four times two thirds of the empty run,
      and there is none below six. */
  lemma MarkExactly(h: seq<nat>, safe: nat)
    requires 3 * safe <= 2 * LeadingZeros(h) < 3 * safe + 3
    ensures Mark(h) <= Peak(h) && Mark(h) <= 4 * safe
    ensures Peak(h) < 6 ==> Mark(h) == 0
    ensures Peak(h) >= 6 ==> Mark(h) == Peak(h) || Mark(h) == 4 * safe
  {
    hide LeadingZeros, Peak;
    assert safe == LeadingZeros(h) * 2 / 3;
  }

  /** A new format with the same capacity leaves everything as it is; otherwise
      everything that is there is dropped. */
  lemma ResizeExactly(a: Audio, sampleRate: nat, channels: nat)
    requires Ok(a)
    ensures var b := Resize(a, sampleRate, channels);
            if a.rate == sampleRate * channels then b == a
            else b.content == [] && b.heard == a.heard && b.hist == a.hist && b.rate == sampleRate * channels
                 && b.fates == a.fates + Times(|a.content|, Dropped)
  {
    var r := sampleRate * channels;
    assert r * 3000 / 1000 == 3 * r;
  }

  /** The callback takes all it needs, as far as it is there. */
  lemma PlayExactly(a: Audio, need: nat)
    ensures var n := if need <= |a.content| then need else |a.content|;
            Play(a, need) == a.(content := a.content[n..], heard := a.heard + a.content[..n], fates := a.fates + Times(n, Played))
  {
  }

  // ----- a buffer that stays full is shrunk

  /** Everything recorded so far is in one bucket. */
  ghost predicate IsSteady(w: seq<(nat, nat)>, bucket: nat) {
    forall e :: e in w ==> e.1 > 0 && Bucket(e.0, e.1) == bucket
  }

  lemma {:induction false} NoneElsewhere(w: seq<(nat, nat)>, bucket: nat, i: nat)
    requires IsSteady(w, bucket) && i != bucket
    ensures CountBucket(w, i) == 0
  {
    if w != [] { NoneElsewhere(w[..|w| - 1], bucket, i); }
  }

  lemma OneBucketMarks(h: seq<nat>, bucket: nat)
    requires |h| == BUCKETS && 6 <= bucket < 30 && h[bucket] > 0 && forall i :: 0 <= i < BUCKETS && i != bucket ==> h[i] == 0
    ensures Mark(h) == bucket
  {
    assert LeadingZeros(h) == bucket && Peak(h) == bucket;
  }

  lemma SteadyMark(a: Audio, having: nat, now: int, bucket: nat)
    requires Ok(a) && IsSteady(a.window, bucket) && Bucket(having, a.rate) == bucket && 6 <= bucket < 30
    requires a.shrunkAt != 0 && now >= a.shrunkAt + 12_000
    ensures Measure(a, having, now).1 == bucket
  {
    forall i | 0 <= i < BUCKETS && i != bucket ensures a.hist[i] == 0 { NoneElsewhere(a.window, bucket, i); }
    OneBucketMarks(a.hist[bucket := a.hist[bucket] + 1], bucket);
  }

  lemma SteadyDropFits(rate: nat, bucket: nat, having: nat, n: nat)
    requires rate > 20 && 6 <= bucket && bucket * rate <= 10 * having
    requires n % 2 == 0 && 120 * (n - 1) <= 3 * rate * bucket < 120 * (n + 1)
    ensures n > 0 && having > 3 * n
  {
    var x := bucket * rate;
    MulMonotone(6, bucket, rate);
    assert 3 * rate * bucket == 3 * x && x > 120;
  }

  /** A buffer that has been in one bucket from 6 to 29 for a whole window is
      shrunk when the window closes, by the even number of samples within one of
      that bucket's fortieth of a second. */
  lemma SteadyBufferShrinks(a: Audio, now: int, bucket: nat, n: nat)
    requires Ok(a) && a.rate > 20 && IsSteady(a.window, bucket) && Bucket(|a.content|, a.rate) == bucket && 6 <= bucket < 30
    requires a.shrunkAt != 0 && now >= a.shrunkAt + 12_000
    requires n % 2 == 0 && 40 * (n - 1) <= a.rate * bucket < 40 * (n + 1)
    ensures n > 0 && |a.content| > 3 * n
    ensures var (b, mark) := Measure(a, |a.content|, now); Shrink(b, mark).content == a.content[n..]
  {
    hide IsSteady, Shrink, Bucket;
    SteadyMark(a, |a.content|, now, bucket);
    MeasureExactly(a, |a.content|, now);
    ShareOfBucket(a, bucket, n);
    ShrinkExactly(Measure(a, |a.content|, now).0, bucket, n);
  }

  lemma ShareOfBucket(a: Audio, bucket: nat, n: nat)
    requires Ok(a) && a.rate > 20 && Bucket(|a.content|, a.rate) == bucket && 6 <= bucket
    requires n % 2 == 0 && 40 * (n - 1) <= a.rate * bucket < 40 * (n + 1)
    ensures 120 * (n - 1) <= a.capacity * bucket < 120 * (n + 1) && n > 0 && |a.content| > 3 * n
  {
    hide Bucket;
    BucketMeans(|a.content|, a.rate);
    assert a.capacity * bucket == 3 * a.rate * bucket == 3 * (a.rate * bucket);
    SteadyDropFits(a.rate, bucket, |a.content|, n);
  }

  // ----- runs

  /** What the decoding thread is in the middle of. */
  datatype Doing = Idle | Appended(having: nat) | Deciding(mark: nat, read: seq<(nat, nat)>, peak: nat)

  datatype System = System(audio: Audio, doing: Doing)

  datatype Event =
    | DoAppend(samples: seq<Sample>)
    | DoMeasure(now: int)
    | DoShrink
    | DoPlay(need: nat)
    | DoResize(sampleRate: nat, channels: nat)

  /** The callback may play at any time; the rest is one thread, in order. */
  predicate Enabled(s: System, e: Event) {
    match e
    case DoAppend(_) => s.doing.Idle?
    case DoMeasure(_) => s.doing.Appended? && s.audio.rate > 0 && |s.audio.hist| == BUCKETS
    case DoShrink => s.doing.Deciding?
    case DoPlay(_) => true
    case DoResize(sampleRate, channels) => s.doing.Idle? && sampleRate > 0 && channels > 0
  }

  function Next(s: System, e: Event): System
    requires Enabled(s, e)
  {
    var a := s.audio;
    match e
    case DoAppend(samples) =>
      var b := Append(a, samples);
      System(b, Appended(|b.content|))
    case DoMeasure(now) =>
      var having := s.doing.having;
      var (b, mark) := Measure(a, having, now);
      var i := Bucket(having, a.rate);
      System(b, if mark == 0 then Idle else Deciding(mark, a.window + [(having, a.rate)], Peak(a.hist[i := a.hist[i] + 1])))
    case DoShrink => System(Shrink(a, s.doing.mark), Idle)
    case DoPlay(need) => System(Play(a, need), s.doing)
    case DoResize(sampleRate, channels) => System(Resize(a, sampleRate, channels), Idle)
  }

  /** `AudioBuffer::default`. */
  function Start(): System {
    System(Audio(288000, 96000, [], Blank(), 0, [], [], [], []), Idle)
  }

  ghost predicate IsRun(run: seq<System>, events: seq<Event>) {
    && |run| == |events| + 1 && run[0] == Start()
    && forall k :: 0 <= k < |events| ==> Enabled(run[k], events[k]) && run[k + 1] == Next(run[k], events[k])
  }

  ghost predicate SystemOk(s: System) {
    && Ok(s.audio) && Sum(s.audio.hist) == |s.audio.window|
    && (s.doing.Deciding? ==> Justified(s.doing.mark, s.doing.read) && s.doing.peak >= 6)
  }

  lemma NextOk(s: System, e: Event)
    requires SystemOk(s) && Enabled(s, e)
    ensures SystemOk(Next(s, e))
  {
    var a := s.audio;
    match e
    case DoAppend(samples) => AppendOk(a, samples);
    case DoMeasure(now) => MeasuredOk(s, now);
    case DoShrink => if Shrink(a, s.doing.mark) != a { SkipOk(a, DropSize(a.capacity, s.doing.mark)); }
    case DoPlay(need) => PlayOk(a, need);
    case DoResize(sampleRate, channels) => ResizeOk(a, sampleRate, channels);
  }

  lemma MeasuredOk(s: System, now: int)
    requires SystemOk(s) && s.doing.Appended?
    ensures SystemOk(Next(s, DoMeasure(now)))
  {
    hide Selected, CountBucket, Mark, Sum;
    MeasureOk(s.audio, s.doing.having, now);
    MeasureCounts(s.audio, s.doing.having, now);
    if Measure(s.audio, s.doing.having, now).1 > 0 { MarkJustified(s.audio, s.doing.having, now); }
  }

  lemma {:induction false} RunOk(run: seq<System>, events: seq<Event>, k: nat)
    requires IsRun(run, events) && k < |run|
    ensures SystemOk(run[k])
  {
    if k == 0 {
      SumOfBlank(Blank());
    } else {
      RunOk(run, events, k - 1);
      NextOk(run[k - 1], events[k - 1]);
    }
  }

  /** In every state of every run: three seconds of capacity, pushed = played +
      dropped + buffered, and what was played is what was pushed with fate `Played`, in order. */
  lemma RunConservesSamples(run: seq<System>, events: seq<Event>, k: nat)
    requires IsRun(run, events) && k < |run|
    ensures var a := run[k].audio;
            && a.capacity == 3 * a.rate && |a.content| <= a.capacity
            && |a.pushed| == |a.heard| + CountFate(a.fates, Dropped) + |a.content|
            && |a.fates| <= |a.pushed| && a.pushed[|a.fates|..] == a.content && a.heard == Selected(a.pushed, a.fates)
            && Sum(a.hist) == |a.window|
  {
    RunOk(run, events, k);
    SamplesConserved(run[k].audio);
  }

  /** In every run a drop is even, under a third of what is there, and under two
      thirds of every occupancy its window recorded at the present rate; every
      occupancy of the window was a fifth of a second or more at its own rate. */
  lemma RunDropsSafely(run: seq<System>, events: seq<Event>, k: nat)
    requires IsRun(run, events) && k < |events| && events[k].DoShrink? && run[k + 1].audio != run[k].audio
    ensures var a := run[k].audio;
            var skip := |a.content| - |run[k + 1].audio.content|;
            && skip > 0 && skip % 2 == 0 && 3 * skip < |a.content| && run[k].doing.peak >= 6
            && (forall e :: e in run[k].doing.read ==> 5 * e.0 >= e.1)
            && forall e :: e in run[k].doing.read && e.1 == a.rate ==> 3 * (skip - 1) <= 2 * e.0
  {
    RunOk(run, events, k);
    DropBounded(run[k].audio, run[k].doing.mark, run[k].doing.read);
  }

  /** In every run each shrink takes exactly that many of the oldest samples, or
      changes nothing. */
  lemma RunShrinksExactly(run: seq<System>, events: seq<Event>, k: nat, n: nat)
    requires IsRun(run, events) && k < |events| && events[k].DoShrink?
    requires n % 2 == 0 && 120 * (n - 1) <= run[k].audio.capacity * run[k].doing.mark < 120 * (n + 1)
    ensures var a, b := run[k].audio, run[k + 1].audio;
            && run[k + 1].doing == Idle
            && if n > 0 && |a.content| > 3 * n
               then b.content == a.content[n..] && b.fates == a.fates + Times(n, Dropped) && b.heard == a.heard && b.pushed == a.pushed
               else b == a
  {
    ShrinkExactly(run[k].audio, run[k].doing.mark, n);
  }

  /** In every run: if the occupancy is measured as it is, at the end of a window
      that was all in one bucket from 6 to 29, and the callback does not come in
      between, samples are dropped. */
  lemma RunShrinksSteadyBuffer(run: seq<System>, events: seq<Event>, k: nat, bucket: nat)
    requires IsRun(run, events) && k + 1 < |events| && events[k].DoMeasure? && events[k + 1].DoShrink?
    requires var a := run[k].audio;
             && a.rate > 20 && IsSteady(a.window, bucket) && 6 <= bucket < 30 && run[k].doing == Appended(|a.content|)
             && Bucket(|a.content|, a.rate) == bucket && a.shrunkAt != 0 && events[k].now >= a.shrunkAt + 12_000
    ensures |run[k + 2].audio.content| < |run[k].audio.content|
  {
    RunOk(run, events, k);
    var a := run[k].audio;
    var n := Even(a.rate * bucket / 40 + 1);
    FortiethsRound(a.rate * bucket);
    SteadyBufferShrinks(a, events[k].now, bucket, n);
    assert run[k + 2] == Next(run[k + 1], events[k + 1]);
  }

  lemma FortiethsRound(worth: nat)
    ensures var n := Even(worth / 40 + 1); n % 2 == 0 && 40 * (n - 1) <= worth < 40 * (n + 1)
  {
  }

  // ----- left and right stay in phase

  predicate IsStereo(e: Event) {
    match e
    case DoAppend(samples) => |samples| % 2 == 0
    case DoPlay(need) => need % 2 == 0
    case DoResize(_, channels) => channels == 2
    case _ => true
  }

  /** Two samples of a frame share their fate. */
  ghost predicate FrameWhole(fates: seq<Fate>, frame: nat) {
    2 * frame + 1 < |fates| ==> fates[2 * frame] == fates[2 * frame + 1]
  }

  ghost predicate InPhase(a: Audio) {
    && a.capacity % 2 == 0 && |a.content| % 2 == 0 && |a.fates| % 2 == 0
    && forall frame: nat :: FrameWhole(a.fates, frame)
  }

  lemma FatesPaired(a: Audio, b: Audio, n: nat, f: Fate)
    requires InPhase(a) && n % 2 == 0 && b.fates == a.fates + Times(n, f)
    requires b.capacity % 2 == 0 && |b.content| % 2 == 0
    ensures InPhase(b)
  {
    forall frame: nat ensures FrameWhole(b.fates, frame) {
      assert FrameWhole(a.fates, frame);
    }
  }

  lemma AppendInPhase(a: Audio, samples: seq<Sample>)
    requires Ok(a) && InPhase(a) && |samples| % 2 == 0
    ensures InPhase(Append(a, samples))
  {
    var all := a.content + samples;
    EvenSum(|a.content|, |samples|);
    var kept := if |all| <= a.capacity then |all| else a.capacity;
    EvenDifference(|all|, kept);
    FatesPaired(a, Append(a, samples), |all| - kept, Dropped);
  }

  lemma EvenSum(m: nat, n: nat)
    requires m % 2 == 0 && n % 2 == 0
    ensures (m + n) % 2 == 0
  {
  }

  lemma EvenDifference(m: nat, n: nat)
    requires m % 2 == 0 && n % 2 == 0 && n <= m
    ensures (m - n) % 2 == 0
  {
  }

  lemma StereoCapacity(sampleRate: nat)
    ensures sampleRate * 2 * 3000 / 1000 == 6 * sampleRate && 6 * sampleRate % 2 == 0
  {
    assert sampleRate * 2 * 3000 == 6 * sampleRate * 1000;
    assert 6 * sampleRate == 2 * (3 * sampleRate);
  }

  lemma DropIsEven(capacity: nat, mark: nat)
    ensures DropSize(capacity, mark) % 2 == 0
  {
  }

  lemma SkipInPhase(a: Audio, skip: nat)
    requires InPhase(a) && skip <= |a.content| && skip % 2 == 0
    ensures InPhase(Skip(a, skip))
  {
    FatesPaired(a, Skip(a, skip), skip, Dropped);
  }

  lemma ShrinkInPhase(a: Audio, mark: nat)
    requires Ok(a) && InPhase(a)
    ensures InPhase(Shrink(a, mark))
  {
    if Shrink(a, mark) != a {
      DropIsEven(a.capacity, mark);
      SkipInPhase(a, DropSize(a.capacity, mark));
    }
  }

  lemma ResizeInPhase(a: Audio, sampleRate: nat)
    requires Ok(a) && InPhase(a)
    ensures InPhase(Resize(a, sampleRate, 2))
  {
    StereoCapacity(sampleRate);
    if Resize(a, sampleRate, 2) != a { FatesPaired(a, Resize(a, sampleRate, 2), |a.content|, Dropped); }
  }

  lemma PlayInPhase(a: Audio, need: nat)
    requires Ok(a) && InPhase(a) && need % 2 == 0
    ensures InPhase(Play(a, need))
  {
    var n := if need < |a.content| then need else |a.content|;
    EvenDifference(|a.content|, n);
    FatesPaired(a, Play(a, need), n, Played);
  }

  lemma MeasureInPhase(a: Audio, having: nat, now: int)
    requires Ok(a) && InPhase(a)
    ensures InPhase(Measure(a, having, now).0)
  {
    var b := Measure(a, having, now).0;
    assert b.fates == a.fates && b.content == a.content && b.capacity == a.capacity;
  }

  lemma NextInPhase(s: System, e: Event)
    requires SystemOk(s) && Enabled(s, e) && IsStereo(e) && InPhase(s.audio)
    ensures InPhase(Next(s, e).audio)
  {
    var a := s.audio;
    match e
    case DoAppend(samples) => AppendInPhase(a, samples);
    case DoShrink => ShrinkInPhase(a, s.doing.mark);
    case DoPlay(need) => PlayInPhase(a, need);
    case DoResize(sampleRate, channels) => ResizeInPhase(a, sampleRate);
    case DoMeasure(now) => MeasureInPhase(a, s.doing.having, now);
  }

  /** With two channels no frame is ever split between played and dropped. */
  lemma {:induction false} StereoStaysInPhase(run: seq<System>, events: seq<Event>, k: nat)
    requires IsRun(run, events) && k < |run| && forall e :: e in events ==> IsStereo(e)
    ensures InPhase(run[k].audio)
  {
    if k > 0 {
      StereoStaysInPhase(run, events, k - 1);
      RunOk(run, events, k - 1);
      NextInPhase(run[k - 1], events[k - 1]);
    }
  }

  // ----- whole frames

  /** Whether the buffer's drops take whole frames of `c` channels at `r` samples
      per second: with more than two channels only if half a bucket is worth an
      even number of samples. */
  predicate DropsWholeFrames(r: nat, c: nat) {
    c <= 2 || (r % 40 == 0 && (r / 40 * c) % 2 == 0)
  }

  /** The drop for a mark, from the fortieth parts of the samples per second. */
  lemma DropOfFortieths(r: nat, c: nat, mark: nat)
    ensures DropSize(3 * (r * c), mark) == Even(r * mark * c / 40 + 1)
  {
    assert 3 * (r * c) * mark == 3 * (r * mark * c);
  }

  lemma EvenShare(r: nat, c: nat, mark: nat)
    requires c > 0 && DropsWholeFrames(r, c)
    ensures DropSize(3 * (r * c), mark) % c == 0
  {
    if c > 2 {
      var k := r / 40;
      DropOfFortieths(r, c, mark);
      assert r * mark * c == 40 * (k * c * mark) by { assert r == 40 * k; }
      EvenProduct(k * c, mark);
      assert DropSize(3 * (r * c), mark) == k * c * mark;
      assert k * c * mark == k * mark * c + 0;
      Remainder(k * mark, 0, c);
    } else {
      DropIsEven(3 * (r * c), mark);
    }
  }

  lemma EvenProduct(a: nat, b: nat)
    requires a % 2 == 0
    ensures a * b % 2 == 0
  {
    assert a * b == 2 * (a / 2 * b);
  }

  /** A mark that leaves about half of forty. */
  function SplittingMark(rest: nat): nat {
    if rest % 2 == 1 then 20 else if rest % 4 == 2 then 10 else if rest % 8 == 4 then 15 else if rest == 16 || rest == 24 then 6 else 7
  }

  lemma TwentyLeft(n: nat, q: nat)
    requires n == 40 * q + 20
    ensures n % 40 == 20
  {
  }

  lemma LeavesHalf(rest: nat)
    requires 0 < rest < 40
    ensures 14 <= rest * SplittingMark(rest) % 40 <= 26
  {
    if rest % 2 == 1 {
      TwentyLeft(rest * 20, rest / 2);
    } else if rest % 4 == 2 {
      TwentyLeft(rest * 10, rest / 4);
    } else if rest % 8 == 4 {
      TwentyLeft(rest * 15, 3 * (rest / 8) + 1);
    } else {
      assert rest == 8 || rest == 16 || rest == 24 || rest == 32;
    }
  }

  lemma InsideFrame(product: nat, c: nat) returns (a: nat, t: nat)
    requires c > 2 && 14 <= product % 40 <= 26
    ensures product * c / 40 == a * c + t && 1 <= t <= c - 2
  {
    var s := product % 40;
    a, t := product / 40, s * c / 40;
    MulMonotone(14, s, c);
    MulMonotone(s, 26, c);
    assert product * c == 40 * (a * c) + s * c by { assert product == 40 * a + s; }
  }

  /** A drop that splits a frame, at a rate that is no multiple of forty. */
  lemma OddRateSplits(r: nat, c: nat, mark: nat)
    requires c > 2 && 14 <= r * mark % 40 <= 26
    ensures DropSize(3 * (r * c), mark) % c != 0
  {
    var a, t := InsideFrame(r * mark, c);
    DropOfFortieths(r, c, mark);
    var d := DropSize(3 * (r * c), mark);
    Remainder(a, d - a * c, c);
  }

  lemma OddShareSplits(r: nat, c: nat)
    requires c > 2 && r % 40 == 0 && (r / 40 * c) % 2 == 1
    ensures DropSize(3 * (r * c), 7) % c != 0
  {
    var k, d := r / 40, DropSize(3 * (r * c), 7);
    DropOfFortieths(r, c, 7);
    OddShare(r, k, c);
    assert d == 7 * (k * c) + 1;
    assert 7 * (k * c) == 7 * k * c;
    Remainder(7 * k, 1, c);
  }

  lemma OddShare(r: nat, k: nat, c: nat)
    requires r == 40 * k && k * c % 2 == 1
    ensures r * 7 * c / 40 == 7 * (k * c) && 7 * (k * c) % 2 == 1
  {
    var x := k * c;
    SevenTimes(x);
    assert r * 7 * c == 280 * x by { assert r * c == 40 * x; }
  }

  lemma SevenTimes(x: nat)
    ensures 280 * x / 40 == 7 * x && (x % 2 == 1 ==> 7 * x % 2 == 1)
  {
  }

  /** Every mark from 6 to 29 is one that some histogram gives. */
  lemma MarkGiven(mark: nat) returns (h: seq<nat>)
    requires 6 <= mark < 30
    ensures |h| == BUCKETS && Mark(h) == mark
  {
    h := seq(BUCKETS, i => if i == mark then 1 else 0);
    assert h[mark] == 1;
    assert LeadingZeros(h) == mark && Peak(h) == mark;
  }

  lemma SomeDropSplits(r: nat, c: nat) returns (mark: nat)
    requires !DropsWholeFrames(r, c)
    ensures 6 <= mark < 30 && DropSize(3 * (r * c), mark) % c != 0
  {
    if r % 40 == 0 {
      mark := 7;
      OddShareSplits(r, c);
    } else {
      var rest := r % 40;
      mark := SplittingMark(rest);
      LeavesHalf(rest);
      RestOfProduct(r, mark);
      OddRateSplits(r, c, mark);
    }
  }

  lemma RestOfProduct(r: nat, mark: nat)
    ensures r * mark % 40 == r % 40 * mark % 40
  {
    var k, rest := r / 40, r % 40;
    assert r * mark == 40 * (k * mark) + rest * mark by { assert r == 40 * k + rest; }
  }

  /** Exactly when every drop takes whole frames, whichever marks are asked of:
      all, or those from 6 to 29. */
  lemma WholeFrameDrops(r: nat, c: nat)
    requires c > 0
    ensures (forall mark: nat :: DropSize(3 * (r * c), mark) % c == 0) <==> DropsWholeFrames(r, c)
    ensures (forall mark: nat :: 6 <= mark < 30 ==> DropSize(3 * (r * c), mark) % c == 0) <==> DropsWholeFrames(r, c)
  {
    if DropsWholeFrames(r, c) {
      forall mark: nat ensures DropSize(3 * (r * c), mark) % c == 0 { EvenShare(r, c, mark); }
    } else {
      var mark := SomeDropSplits(r, c);
    }
  }

  /** Among the usual rates: four channels lose their frames at 44100 Hz, and no
      number of channels does at 48000 Hz. */
  lemma UsualRates(c: nat)
    requires c > 0
    ensures DropsWholeFrames(48000, c) && !DropsWholeFrames(44100, 4)
    ensures DropSize(3 * (44100 * 4), 7) % 4 == 2
  {
    assert 48000 / 40 * c == 2 * (600 * c);
  }

  lemma Remainder(q: nat, r: nat, c: nat)
    requires r < c
    ensures (q * c + r) % c == r
  {
    var n := q * c + r;
    var k := n / c;
    QuotientAndRest(n, c);
    if k > q {
      MulMonotone(q + 1, k, c);
      assert false;
    } else if k < q {
      MulMonotone(k + 1, q, c);
      assert false;
    }
  }

  lemma QuotientAndRest(n: nat, c: nat)
    requires c > 0
    ensures n == n / c * c + n % c
  {
  }
}
