/** When a video decoder is given up (client/src/client.rs). */
module DecoderHealth {
  const MAX_DECODE_FAIL_COUNTER := 3
  const USIZE_MAX := 0xFFFF_FFFF_FFFF_FFFF

  type Format = nat

  /** A frame of some format; whether it carries an image, whether that decodes,
      and whether the decoder is usable at all. */
  datatype Frame = Frame(format: Format, hasImage: bool, decodes: bool, valid: bool)

  /** `results` are the decoding results since the last reset. */
  datatype Handler = Handler(format: Format, fails: nat, first: bool, results: seq<bool>)

  function New(format: Format): Handler { Handler(format, 0, true, []) }

  function Failed(h: Handler): nat {
    if h.fails >= USIZE_MAX then h.fails
    else if h.first && h.fails < MAX_DECODE_FAIL_COUNTER then MAX_DECODE_FAIL_COUNTER
    else h.fails + 1
  }

  function HandleFrame(h: Handler, f: Frame): Handler {
    var g := if f.format != h.format then New(f.format) else h;
    if !f.hasImage then g
    else Handler(g.format, if f.decodes then 0 else Failed(g), false, g.results + [f.decodes])
  }

  class VideoHandler {
    var format: Format
    var failCounter: nat
    var firstFrame: bool
    ghost var results: seq<bool>

    ghost function State(): Handler
      reads this
    {
      Handler(format, failCounter, firstFrame, results)
    }

    constructor (format: Format)
      ensures State() == New(format)
    {
      this.format, failCounter, firstFrame, results := format, 0, true, [];
    }

    method Reset(newFormat: Format)
      modifies this
      ensures State() == New(newFormat)
    {
      format := newFormat;
      failCounter := 0;
      firstFrame := true;
      results := [];
    }

    method Handle(f: Frame)
      modifies this
      ensures State() == HandleFrame(old(State()), f)
    {
      if f.format != format {
        Reset(f.format);
      }
      if f.hasImage {
        if f.decodes {
          failCounter := 0;
        } else if failCounter < USIZE_MAX {
          if firstFrame && failCounter < MAX_DECODE_FAIL_COUNTER {
            failCounter := MAX_DECODE_FAIL_COUNTER;
          } else {
            failCounter := failCounter + 1;
          }
        }
        firstFrame := false;
        results := results + [f.decodes];
      }
    }
  }

  // ----- the counter

  /** Length of the run of failures at the end. */
  function FailureRun(results: seq<bool>): (k: nat)
    ensures k <= |results| && (forall i :: |results| - k <= i < |results| ==> !results[i])
    ensures k < |results| ==> results[|results| - 1 - k]
  {
    if results == [] || results[|results| - 1] then 0 else 1 + FailureRun(results[..|results| - 1])
  }

  /** Failures in a row, two more if there has been nothing else since the reset;
      the counter stops at its largest value. */
  function Count(results: seq<bool>): nat {
    var k := FailureRun(results);
    var n := if k > 0 && k == |results| then k + 2 else k;
    if n < USIZE_MAX then n else USIZE_MAX
  }

  ghost predicate Counts(h: Handler) {
    h.fails == Count(h.results) && (h.first <==> h.results == [])
  }

  lemma HandleFrameCounts(h: Handler, f: Frame)
    requires Counts(h)
    ensures Counts(HandleFrame(h, f))
  {
    var g := if f.format != h.format then New(f.format) else h;
    ResultAppended(g.results, f.decodes);
  }

  lemma ResultAppended(results: seq<bool>, decodes: bool)
    ensures FailureRun(results + [decodes]) == if decodes then 0 else FailureRun(results) + 1
  {
    var r := results + [decodes];
    assert r[..|r| - 1] == results;
  }

  /** The threshold is reached exactly by three failures in a row or by nothing
      but failures since the reset. */
  lemma ThresholdMeans(h: Handler)
    requires Counts(h)
    ensures h.fails >= MAX_DECODE_FAIL_COUNTER
       <==> FailureRun(h.results) >= 3 || (h.results != [] && FailureRun(h.results) == |h.results|)
  {
  }

  // ----- several video threads and one list of given-up formats

  /** `owing` are the threads, one for each display, that have marked a format
      and not yet told the peer; `updates` are the lists the peer was told. */
  datatype Session = Session(handlers: map<nat, Handler>, marked: seq<Format>, owing: set<nat>, updates: seq<seq<Format>>)

  datatype Event = OnFrame(display: nat, frame: Frame) | OnTell(display: nat) | OnReset(display: nat)

  function After(s: Session, display: nat, f: Frame): Handler {
    HandleFrame(if display in s.handlers then s.handlers[display] else New(f.format), f)
  }

  predicate GivesUp(h: Handler, f: Frame) {
    !f.valid || h.fails >= MAX_DECODE_FAIL_COUNTER
  }

  /** A frame is handled, then its decoder is checked under the lock; after the
      lock is released, other threads may come in between, the peer is told the
      list as it is by then. A thread that owes this does nothing else before. */
  function Next(s: Session, e: Event): Session {
    match e
    case OnFrame(display, f) =>
      if display in s.owing then s
      else
        var h := After(s, display, f);
        var t := s.(handlers := s.handlers[display := h]);
        if GivesUp(h, f) && h.format !in s.marked
        then t.(marked := s.marked + [h.format], owing := s.owing + {display})
        else t
    case OnTell(display) =>
      if display in s.owing then s.(owing := s.owing - {display}, updates := s.updates + [s.marked]) else s
    case OnReset(display) =>
      if display in s.handlers && display !in s.owing
      then s.(handlers := s.handlers[display := New(s.handlers[display].format)])
      else s
  }

  /** A frame and a reset change the handler of their own display only, and a
      reset leaves nothing counted. */
  lemma OwnHandlerOnly(s: Session, display: nat, f: Frame, other: nat)
    requires display !in s.owing && display in s.handlers && other != display && other in s.handlers
    ensures Next(s, OnFrame(display, f)).handlers == s.handlers[display := After(s, display, f)]
    ensures Next(s, OnReset(display)).handlers == s.handlers[display := Handler(s.handlers[display].format, 0, true, [])]
    ensures Next(s, OnFrame(display, f)).handlers[other] == s.handlers[other]
    ensures Next(s, OnReset(display)).handlers[other] == s.handlers[other]
  {
  }

  function Run(s: Session, events: seq<Event>): Session
    decreases |events|
  {
    if events == [] then s else Run(Next(s, events[0]), events[1..])
  }

  /** One update for each marked format, sent or owed; each update is the list
      as it once was, and with none owed the last one is the list as it is. */
  ghost predicate SessionOk(s: Session) {
    && (forall d :: d in s.handlers ==> Counts(s.handlers[d]))
    && (forall i, j :: 0 <= i < j < |s.marked| ==> s.marked[i] != s.marked[j])
    && |s.updates| + |s.owing| == |s.marked|
    && (forall u :: u in s.updates ==> u <= s.marked)
    && (s.owing == {} && s.updates != [] ==> s.updates[|s.updates| - 1] == s.marked)
  }

  lemma NextOk(s: Session, e: Event)
    requires SessionOk(s)
    ensures SessionOk(Next(s, e))
  {
    match e
    case OnFrame(display, f) => if display !in s.owing { FrameOk(s, display, f); }
    case OnTell(display) => TellOk(s, display);
    case OnReset(display) =>
  }

  lemma FrameOk(s: Session, display: nat, f: Frame)
    requires SessionOk(s) && display !in s.owing
    ensures SessionOk(Next(s, OnFrame(display, f)))
  {
    HandleFrameCounts(if display in s.handlers then s.handlers[display] else New(f.format), f);
    var h := After(s, display, f);
    HandlerOk(s, display, h);
    var t := s.(handlers := s.handlers[display := h]);
    if GivesUp(h, f) && h.format !in s.marked { MarkOk(t, display, h.format); }
  }

  lemma HandlerOk(s: Session, display: nat, h: Handler)
    requires SessionOk(s) && Counts(h)
    ensures SessionOk(s.(handlers := s.handlers[display := h]))
  {
  }

  lemma MarkOk(s: Session, display: nat, format: Format)
    requires SessionOk(s) && display !in s.owing && format !in s.marked
    ensures SessionOk(s.(marked := s.marked + [format], owing := s.owing + {display}))
  {
    OneMore(s.marked, format);
    assert |s.owing + {display}| == |s.owing| + 1;
    assert display in s.owing + {display};
  }

  lemma OneMore(marked: seq<Format>, format: Format)
    requires forall i, j :: 0 <= i < j < |marked| ==> marked[i] != marked[j]
    ensures var more := if format in marked then marked else marked + [format];
            forall i, j :: 0 <= i < j < |more| ==> more[i] != more[j]
  {
  }

  lemma TellOk(s: Session, display: nat)
    requires SessionOk(s)
    ensures SessionOk(Next(s, OnTell(display)))
  {
    if display in s.owing {
      assert |s.owing - {display}| == |s.owing| - 1;
    }
  }

  /** In every interleaving of the threads the list stays free of duplicates,
      there is one update for each entry, sent or owed, no update tells more than
      was marked, and once none is owed the last one has told everything. */
  lemma {:induction false} RunOk(s: Session, events: seq<Event>)
    requires SessionOk(s)
    ensures SessionOk(Run(s, events))
    decreases |events|
  {
    if events != [] {
      NextOk(s, events[0]);
      RunOk(Next(s, events[0]), events[1..]);
    }
  }

  /** A format whose decoder works is newly marked exactly after three failures
      in a row or nothing but failures since the reset. */
  lemma MarkedExactlyWhen(s: Session, display: nat, f: Frame)
    requires SessionOk(s) && f.valid && display !in s.owing
    ensures var h := After(s, display, f);
            Next(s, OnFrame(display, f)).marked != s.marked
            <==> f.format !in s.marked
                 && (FailureRun(h.results) >= 3 || (h.results != [] && FailureRun(h.results) == |h.results|))
  {
    hide FailureRun;
    var g := if display in s.handlers then s.handlers[display] else New(f.format);
    HandleFrameCounts(g, f);
    ThresholdMeans(After(s, display, f));
    assert After(s, display, f).format == f.format && |s.marked + [f.format]| == |s.marked| + 1;
  }

  /** The format of a decoder that is not usable is marked at once. */
  lemma InvalidIsMarked(s: Session, display: nat, f: Frame)
    requires !f.valid && display !in s.owing
    ensures After(s, display, f).format == f.format && f.format in Next(s, OnFrame(display, f)).marked
  {
  }

  // ----- the results are those since the last change

  datatype Input = Show(frame: Frame) | Clear

  /** What one handler goes through. */
  function Handled(h: Handler, inputs: seq<Input>): Handler
    decreases |inputs|
  {
    if inputs == [] then h
    else
      var n := |inputs| - 1;
      var g := Handled(h, inputs[..n]);
      match inputs[n]
      case Show(f) => HandleFrame(g, f)
      case Clear => New(g.format)
  }

  /** The decoding results of the frames with an image. */
  function ImageFlags(inputs: seq<Input>): seq<bool> {
    if inputs == [] then []
    else
      var n := |inputs| - 1;
      ImageFlags(inputs[..n]) + if inputs[n].Show? && inputs[n].frame.hasImage then [inputs[n].frame.decodes] else []
  }

  lemma LastFormat(h: Handler, inputs: seq<Input>)
    ensures var n := |inputs| - 1; n >= 0 && inputs[n].Show? ==> Handled(h, inputs).format == inputs[n].frame.format
  {
  }

  /** From `i` on there are only frames of the present format, before it is a
      reset or a frame of another one, and the results are those from `i` on. */
  ghost predicate IsSince(inputs: seq<Input>, i: nat, h: Handler) {
    && i <= |inputs| && h.results == ImageFlags(inputs[i..])
    && (forall j :: i <= j < |inputs| ==> inputs[j].Show? && inputs[j].frame.format == h.format)
    && (i > 0 ==> inputs[i - 1].Clear? || inputs[i - 1].frame.format != h.format)
  }

  lemma FlagsGrow(inputs: seq<Input>, f: Frame)
    ensures ImageFlags(inputs + [Show(f)]) == ImageFlags(inputs) + if f.hasImage then [f.decodes] else []
  {
    assert (inputs + [Show(f)])[..|inputs|] == inputs;
  }

  lemma SameFormat(inputs: seq<Input>, i: nat, h: Handler, f: Frame)
    requires IsSince(inputs, i, h) && f.format == h.format
    ensures IsSince(inputs + [Show(f)], i, HandleFrame(h, f))
  {
    FlagsGrow(inputs[i..], f);
    assert (inputs + [Show(f)])[i..] == inputs[i..] + [Show(f)];
  }

  lemma OtherFormat(inputs: seq<Input>, h: Handler, f: Frame)
    requires f.format != h.format
    requires inputs != [] && inputs[|inputs| - 1].Show? ==> inputs[|inputs| - 1].frame.format == h.format
    ensures IsSince(inputs + [Show(f)], |inputs|, HandleFrame(h, f))
  {
    FlagsGrow([], f);
    assert (inputs + [Show(f)])[|inputs|..] == [] + [Show(f)];
  }

  /** The results are those of the frames behind the last reset and the last
      frame of another format. */
  lemma {:induction false} ResultsSinceChange(format: Format, inputs: seq<Input>) returns (i: nat)
    ensures IsSince(inputs, i, Handled(New(format), inputs)) && Counts(Handled(New(format), inputs))
    decreases |inputs|
  {
    i := |inputs|;
    if inputs != [] {
      hide IsSince, HandleFrame, Counts;
      var n := |inputs| - 1;
      var before := inputs[..n];
      i := ResultsSinceChange(format, before);
      var g := Handled(New(format), before);
      assert inputs == before + [inputs[n]];
      if inputs[n].Clear? {
        i := |inputs|;
        Cleared(before, g.format);
      } else {
        var f := inputs[n].frame;
        HandleFrameCounts(g, f);
        LastFormat(New(format), before);
        if f.format == g.format {
          SameFormat(before, i, g, f);
        } else {
          i := n;
          OtherFormat(before, g, f);
        }
      }
    }
  }

  lemma Cleared(inputs: seq<Input>, format: Format)
    ensures IsSince(inputs + [Clear], |inputs| + 1, New(format)) && Counts(New(format))
  {
    assert (inputs + [Clear])[|inputs| + 1..] == [];
  }
}
