/** `AudioBuffer` over a circular array, updated in place as the code does it,
    against the steps of `AudioModel`. */
module AudioBuffers {
  import opened AudioModel
  import AudioRuns

  /** `ringbuf::HeapRb`: a circular array of fixed capacity. */
  class HeapRb {
    const data: array<Sample>
    var start: nat
    var len: nat

    ghost predicate Valid()
      reads this, data
    {
      data.Length > 0 && start < data.Length && len <= data.Length
    }

    /** Position of the `i`-th buffered sample. */
    function At(i: nat): (p: nat)
      requires start < data.Length && i <= data.Length
      reads this
      ensures p < data.Length
    {
      if start + i < data.Length then start + i else start + i - data.Length
    }

    ghost function Contents(): (s: seq<Sample>)
      requires Valid()
      reads this, data
      ensures |s| == len
    {
      seq(len, i requires 0 <= i < len reads this, data requires Valid() => data[At(i)])
    }

    constructor (capacity: nat)
      requires capacity > 0
      ensures Valid() && fresh(data) && data.Length == capacity && Contents() == []
    {
      data := new Sample[capacity];
      start, len := 0, 0;
    }

    method Skip(n: nat)
      requires Valid() && n <= len
      modifies this
      ensures Valid() && Contents() == old(Contents())[n..]
    {
      start := At(n);
      len := len - n;
    }

    /** Writes behind what is there; there must be room. */
    method PushSlice(samples: seq<Sample>)
      requires Valid() && len + |samples| <= data.Length
      modifies this, data
      ensures Valid() && Contents() == old(Contents()) + samples
    {
      ghost var before := Contents();
      for i := 0 to |samples|
        invariant Valid() && start == old(start) && len == old(len) + i
        invariant Contents() == before + samples[..i]
      {
        data[At(len)] := samples[i];
        len := len + 1;
        assert Contents()[..len - 1] == before + samples[..i];
        assert samples[..i + 1] == samples[..i] + [samples[i]];
        assert Contents() == Contents()[..len - 1] + [samples[i]];
      }
    }

    /** What does not fit pushes out the oldest, and then its own beginning. */
    method PushSliceOverwrite(samples: seq<Sample>)
      requires Valid()
      modifies this, data
      ensures Valid() && Contents() == KeepLast(old(Contents()) + samples, data.Length)
    {
      ghost var before := Contents();
      ghost var cut := 0;
      if |samples| > data.Length - len {
        cut := Min(|samples| - (data.Length - len), len);
        Skip(Min(|samples| - (data.Length - len), len));
      }
      if |samples| > data.Length - len {
        KeptEnds(before, samples, cut, |samples| - (data.Length - len), data.Length);
        PushSlice(samples[|samples| - (data.Length - len)..]);
      } else {
        KeptEnds(before, samples, cut, 0, data.Length);
        PushSlice(samples);
      }
    }

    /** What is left when the front of the new samples only goes after all old ones. */
    static lemma KeptEnds(s: seq<Sample>, t: seq<Sample>, i: nat, j: nat, capacity: nat)
      requires i <= |s| && j <= |t| && (j > 0 ==> i == |s|)
      requires |s| - i + |t| - j == if |s| + |t| <= capacity then |s| + |t| else capacity
      ensures KeepLast(s + t, capacity) == s[i..] + t[j..] && t[0..] == t
    {
      assert |s| + |t| > capacity ==> (s + t)[i + j..] == s[i..] + t[j..];
      assert i == 0 && j == 0 ==> s[i..] == s && t[j..] == t;
    }

    method PopSlice(n: nat) returns (samples: seq<Sample>)
      requires Valid() && n <= len
      modifies this
      ensures Valid() && samples == old(Contents())[..n] && Contents() == old(Contents())[n..]
    {
      samples := [];
      for i := 0 to n
        invariant samples == Contents()[..i]
      {
        samples := samples + [data[At(i)]];
      }
      Skip(n);
    }
  }

  class AudioBuffer {
    var ring: HeapRb
    var rate: nat
    const hist: array<nat>
    // The timestamp of the last shrink, static in the code.
    var shrunkAt: int

    ghost var pushed: seq<Sample>
    ghost var fates: seq<Fate>
    ghost var heard: seq<Sample>
    ghost var window: seq<(nat, nat)>

    ghost predicate Valid()
      reads this, hist, ring, ring.data
    {
      hist.Length == BUCKETS && ring.Valid() && Ok(Model())
    }

    ghost function Model(): Audio
      requires ring.Valid()
      reads this, hist, ring, ring.data
    {
      Audio(ring.data.Length, rate, ring.Contents(), hist[..], shrunkAt, pushed, fates, heard, window)
    }

    constructor ()
      ensures Valid() && fresh(hist) && fresh(ring) && fresh(ring.data)
      ensures Model() == AudioRuns.Start().audio
    {
      ring := new HeapRb(48000 * 2 * 3000 / 1000);
      rate := 48000 * 2;
      hist := new nat[30](_ => 0);
      shrunkAt := 0;
      pushed, fates, heard, window := [], [], [], [];
      new;
      assert hist[..] == Blank();
    }

    method Resize(sampleRate: nat, channels: nat)
      requires Valid() && sampleRate > 0 && channels > 0
      modifies this
      ensures Valid() && Model() == AudioModel.Resize(old(Model()), sampleRate, channels)
      ensures ring == old(ring) || (fresh(ring) && fresh(ring.data))
    {
      var capacity := sampleRate * channels * 3000 / 1000;
      AudioRuns.ResizeOk(Model(), sampleRate, channels);
      if capacity != ring.data.Length {
        fates := fates + Times(ring.len, Dropped);
        ring := new HeapRb(capacity);
        rate := sampleRate * channels;
      }
    }

    /** Brings the ring to the last `capacity` samples of what was and comes. */
    method Overwrite(samples: seq<Sample>) returns (having: nat)
      requires ring.Valid()
      modifies ring, ring.data
      ensures ring.Valid() && ring.Contents() == KeepLast(old(ring.Contents()) + samples, ring.data.Length)
      ensures having == ring.len
    {
      var capacity := ring.data.Length;
      if |samples| > capacity {
        ring.PushSliceOverwrite(samples);
        return capacity;
      }
      var total := ring.len + |samples|;
      if total > capacity {
        Room(ring.Contents(), samples, total - capacity, capacity);
        ring.Skip(total - capacity);
      }
      ring.PushSliceOverwrite(samples);
      return ring.len;
    }

    /** Making room first leaves the same as pushing over. */
    static lemma Room(s: seq<Sample>, t: seq<Sample>, k: nat, capacity: nat)
      requires k <= |s| && |s| + |t| == capacity + k
      ensures KeepLast(s[k..] + t, capacity) == KeepLast(s + t, capacity)
    {
      assert (s + t)[k..] == s[k..] + t;
    }

    /** Returns the occupancy after the append. */
    method AppendPcm2(samples: seq<Sample>) returns (having: nat)
      requires Valid()
      modifies this`pushed, this`fates, ring, ring.data
      ensures Valid() && Model() == Append(old(Model()), samples)
      ensures having == Min(ring.data.Length, |old(Model()).content| + |samples|) == |Model().content|
    {
      ghost var a := Model();
      AudioRuns.AppendOk(a, samples);
      having := Overwrite(samples);
      pushed := pushed + samples;
      fates := fates + Times(|a.content + samples| - having, Dropped);
      assert Model() == Append(a, samples);
    }

    /** The loop of `try_shrink` and the reset behind it. */
    method ScanHistogram() returns (zero: nat, max: nat)
      requires hist.Length == BUCKETS
      modifies hist
      ensures zero == LeadingZeros(old(hist[..])) && max == Peak(old(hist[..]))
      ensures hist[..] == Blank()
    {
      zero, max := 0, 0;
      ghost var h := hist[..];
      for i := 0 to 30
        invariant zero <= i && (forall j :: 0 <= j < zero ==> h[j] == 0) && (zero < i ==> h[zero] != 0)
        invariant max == 0 || max < i
        invariant forall j :: i <= j < 30 ==> hist[j] == h[j]
        invariant forall j :: 0 <= j < i && j != max ==> hist[j] == 0
        invariant i > 0 ==> hist[max] == if max == 0 then 0 else h[max]
        invariant forall j :: 1 <= j < i ==> h[j] <= hist[max]
        invariant max != 0 ==> h[max] > 0 && forall j :: 1 <= j < max ==> h[j] < h[max]
      {
        if hist[i] == 0 && zero == i {
          zero := zero + 1;
        }
        if hist[i] > hist[max] {
          hist[max] := 0;
          max := i;
        } else {
          hist[i] := 0;
        }
      }
      hist[max] := 0;
      PeakUnique(h, max, Peak(h));
    }

    static lemma PeakUnique(h: seq<nat>, m: nat, n: nat)
      requires (m == 0 || m < |h|) && (n == 0 || n < |h|)
      requires forall j :: 1 <= j < |h| ==> h[j] <= if m == 0 then 0 else h[m]
      requires forall j :: 1 <= j < |h| ==> h[j] <= if n == 0 then 0 else h[n]
      requires m != 0 ==> h[m] > 0 && forall j :: 1 <= j < m ==> h[j] < h[m]
      requires n != 0 ==> h[n] > 0 && forall j :: 1 <= j < n ==> h[j] < h[n]
      ensures m == n
    {
    }

    /** Counts the occupancy in its bucket. */
    method Count(having: nat)
      requires Valid()
      modifies this`window, hist
      ensures ring.Valid()
      ensures Model() == old(Model()).(hist := old(Model()).hist[Bucket(having, rate) := old(Model()).hist[Bucket(having, rate)] + 1],
                                       window := old(window) + [(having, rate)])
    {
      ghost var a := Model();
      var i := having * 10 / rate;
      if i > 29 {
        i := 29;
      }
      ghost var h := hist[..];
      hist[i] := hist[i] + 1;
      assert hist[..] == h[i := h[i] + 1];
      window := window + [(having, rate)];
    }

    /** The first half of `try_shrink`, up to the choice of the mark. */
    method Measure(having: nat, now: int) returns (mark: nat)
      requires Valid()
      modifies this`shrunkAt, this`window, hist
      ensures Valid() && (Model(), mark) == AudioModel.Measure(old(Model()), having, now)
    {
      AudioRuns.MeasureOk(Model(), having, now);
      Count(having);
      if shrunkAt == 0 {
        shrunkAt := now;
        return 0;
      } else if now < shrunkAt + PERIOD {
        return 0;
      }
      shrunkAt := now;
      mark := ReadMark();
      window := [];
    }

    /** Reads the mark off the histogram and clears it. */
    method ReadMark() returns (mark: nat)
      requires hist.Length == BUCKETS
      modifies hist
      ensures mark == Mark(old(hist[..])) && hist[..] == Blank()
    {
      var zero, max := ScanHistogram();
      zero := zero * 2 / 3;
      if max < 6 {
        return 0;
      } else if max > zero * 4 {
        max := zero * 4;
      }
      return max;
    }

    /** The second half, under the lock. */
    method Shrink(mark: nat)
      requires Valid()
      modifies this`fates, ring
      ensures Valid() && Model() == AudioModel.Shrink(old(Model()), mark)
    {
      ghost var a := Model();
      var skip := DropSize(ring.data.Length, mark);
      if ring.len > skip * 3 && skip > 0 {
        AudioRuns.SkipOk(a, skip);
        fates := fates + Times(skip, Dropped);
        ring.Skip(skip);
      }
    }

    /** `append_pcm` when the callback does not interrupt it. */
    method AppendPcm(samples: seq<Sample>, now: int)
      requires Valid()
      modifies this, hist, ring, ring.data
      ensures Valid() && ring == old(ring)
      ensures var appended := Append(old(Model()), samples);
              var (measured, mark) := AudioModel.Measure(appended, |appended.content|, now);
              Model() == AudioModel.Shrink(measured, mark)
    {
      var having := AppendPcm2(samples);
      var mark := Measure(having, now);
      Shrink(mark);
    }

    /** The playback callback. */
    method Play(need: nat) returns (samples: seq<Sample>)
      requires Valid()
      modifies this`fates, this`heard, ring
      ensures Valid() && Model() == AudioModel.Play(old(Model()), need)
      ensures samples == old(Model()).content[..Min(need, |old(Model()).content|)]
    {
      AudioRuns.PlayOk(Model(), need);
      var n := Min(need, ring.len);
      samples := ring.PopSlice(n);
      fates := fates + Times(n, Played);
      heard := heard + samples;
    }
  }
}
