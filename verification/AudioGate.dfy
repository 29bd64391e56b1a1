// Which buffers of a run are muted: on the stereo route exactly those with no loud one in the log
// within the closing time, counted in the log's own frames.

module AudioGate {
  import opened Arithmetic
  import opened AudioQueue

  // ---------------------------------------------------------------- the log by itself

  // A buffer with a sample of amplitude 5 or more.
  ghost predicate Loud(e: Event)
  {
    exists i :: 0 <= i < |e.samples| && (e.samples[i] >= 5 || e.samples[i] <= -5)
  }

  function FramesOf(c: Config, e: Event): nat { |e.samples| / Width(c.channels) }

  // Frames of the events from one place in the log to another; buffers that found no open device
  // were heard by nobody.
  function FramesBetween(c: Config, log: seq<Event>, from: nat, end: nat): nat
    requires from <= end <= |log|
    decreases end
  {
    if from == end then 0
    else FramesBetween(c, log, from, end - 1) + if log[end - 1].Unopened? then 0 else FramesOf(c, log[end - 1])
  }

  // The time after which the gate closes, as a number of frames: one and a half seconds.
  function ClosingFrames(c: Config): nat
  {
    (if c.outputRate == 0 then 32000 else c.outputRate) * 1500 / 1000 % 0x1_0000_0000
  }

  // Up to an event there is a loud one no further back than the closing time, or it is loud itself.
  ghost predicate RecentlyLoud(c: Config, log: seq<Event>, k: nat)
    requires k < |log|
  {
    Loud(log[k]) || exists i :: 0 <= i < k && LoudAt(log, i) && FramesBetween(c, log, i + 1, k + 1) < ClosingFrames(c)
  }

  ghost predicate LoudAt(log: seq<Event>, i: nat)
    requires i < |log|
  {
    !log[i].Unopened? && Loud(log[i])
  }

  // Of the events from a place in the log on, exactly those are muted that the stereo route hears
  // without a loud one in time.
  ghost predicate MutedRightly(c: Config, log: seq<Event>, from: nat)
  {
    forall k :: from <= k < |log| && !log[k].Unopened? ==>
      (log[k].Muted? <==> c.stereoRoute && !RecentlyLoud(c, log, k))
  }

  // ---------------------------------------------------------------- one buffer

  lemma SpreadIsLoud(channels: nat, frames: seq<sample>, e: Event)
    requires e.samples == Spread(channels, frames)
    ensures Loud(e) <==> Loudest(frames) >= 5
  {
    hide Loudest;
    LoudestIsMaximum(frames);
    var w := Width(channels);
    if Loudest(frames) >= 5 {
      assert frames != [] by { if frames == [] { NoLoudness(); assert false; } }
      var i :| 0 <= i < |frames| && Loudness(frames[i]) == Loudest(frames);
      assert e.samples[i * w] == frames[i];
    }
    if Loud(e) {
      var i :| 0 <= i < |e.samples| && (e.samples[i] >= 5 || e.samples[i] <= -5);
      assert e.samples[i] == frames[i / w];
      assert Loudness(frames[i / w]) <= Loudest(frames);
    }
  }

  lemma NoLoudness()
    ensures Loudest([]) == 0
  {
  }

  lemma SpreadFrames(c: Config, frames: seq<sample>, e: Event)
    requires e.samples == Spread(c.channels, frames)
    ensures FramesOf(c, e) == |frames|
  {
  }

  // How far back the last loud event lies.
  ghost predicate LastLoud(c: Config, log: seq<Event>, i: nat)
  {
    i < |log| && LoudAt(log, i) && forall j :: i < j < |log| ==> !LoudAt(log, j)
  }

  ghost predicate NeverLoud(log: seq<Event>) { forall j :: 0 <= j < |log| ==> !LoudAt(log, j) }

  // The last event heard is loud.
  ghost predicate LoudNow(c: Config, log: seq<Event>, i: nat)
  {
    LastLoud(c, log, i) && forall j :: i < j < |log| ==> log[j].Unopened?
  }

  // The gate says of the log what the log says itself.
  ghost predicate Follows(c: Config, g: Gate, log: seq<Event>)
  {
    && (g.configured ==> g.closeFrames == ClosingFrames(c))
    && (g.open ==> g.configured)
    && (NeverLoud(log) ==> !g.open)
    && (forall i: nat :: LastLoud(c, log, i) ==>
          && g.quiet == Min(0xffff_ffff, FramesBetween(c, log, i + 1, |log|))
          && (g.open <==> LoudNow(c, log, i) || FramesBetween(c, log, i + 1, |log|) < ClosingFrames(c)))
  }

  lemma {:induction false} FramesOfPrefix(c: Config, log: seq<Event>, e: Event, from: nat, end: nat)
    requires from <= end <= |log|
    ensures FramesBetween(c, log + [e], from, end) == FramesBetween(c, log, from, end)
    decreases end
  {
    hide FramesOf;
    if from < end { FramesOfPrefix(c, log, e, from, end - 1); }
  }

  lemma ClosingIs(c: Config)
    ensures ClosingFrames(c) == CloseFrames(c.outputRate) < 0x1_0000_0000
  {
  }

  lemma {:induction false} FindLastLoud(c: Config, log: seq<Event>) returns (i: nat)
    ensures NeverLoud(log) || LastLoud(c, log, i)
  {
    hide Loud;
    if log == [] {
      i := 0;
    } else {
      var n := |log| - 1;
      if LoudAt(log, n) {
        i := n;
      } else {
        i := FindLastLoud(c, log[..n]);
        assert forall j :: 0 <= j < n ==> LoudAt(log[..n], j) == LoudAt(log, j);
      }
    }
  }

  // A loud event is the last loud one of its log.
  lemma LoudFollows(c: Config, g: Gate, log: seq<Event>, e: Event)
    requires !e.Unopened? && Loud(e) && g.configured && g.closeFrames == ClosingFrames(c) && g.open && g.quiet == 0
    ensures Follows(c, g, log + [e])
  {
    hide Loud, FramesOf, ClosingFrames;
    var now := log + [e];
    assert LoudAt(now, |log|);
    assert forall i: nat :: LastLoud(c, now, i) ==> i == |log|;
  }

  lemma QuietFollows(c: Config, g: Gate, h: Gate, log: seq<Event>, e: Event, frames: nat)
    requires Follows(c, g, log) && !e.Unopened? && !Loud(e) && FramesOf(c, e) == frames
    requires h.configured && h.closeFrames == ClosingFrames(c)
    requires h.quiet == Min(0xffff_ffff, g.quiet + frames) && h.open == (g.open && h.quiet < h.closeFrames)
    ensures Follows(c, h, log + [e])
  {
    hide Loud, FramesOf;
    var now := log + [e];
    assert forall j :: 0 <= j < |log| ==> LoudAt(now, j) == LoudAt(log, j);
    assert !LoudAt(now, |log|);
    ClosingIs(c);
    if NeverLoud(now) { assert NeverLoud(log); }
    forall i: nat | LastLoud(c, now, i)
      ensures h.quiet == Min(0xffff_ffff, FramesBetween(c, now, i + 1, |now|))
      ensures h.open <==> LoudNow(c, now, i) || FramesBetween(c, now, i + 1, |now|) < ClosingFrames(c)
    {
      assert LastLoud(c, log, i);
      FramesOfPrefix(c, log, e, i + 1, |log|);
      assert FramesBetween(c, now, i + 1, |now|) == FramesBetween(c, log, i + 1, |log|) + frames;
      assert !LoudNow(c, now, i) by { assert !now[|log|].Unopened?; }
    }
  }

  // What the gate says decides an event rightly.
  lemma RecentIffOpen(c: Config, h: Gate, log: seq<Event>, e: Event)
    requires Follows(c, h, log + [e]) && !e.Unopened?
    ensures RecentlyLoud(c, log + [e], |log|) <==> h.open
  {
    hide Loud, FramesOf, ClosingFrames;
    var now, k := log + [e], |log|;
    var i := FindLastLoud(c, now);
    assert LoudAt(now, k) <==> Loud(e);
    if NeverLoud(now) {
      assert !RecentlyLoud(c, now, k);
    } else if i == k {
      assert LoudNow(c, now, i);
    } else {
      assert !LoudNow(c, now, i) by { assert !now[k].Unopened?; }
      forall j | 0 <= j < k && LoudAt(now, j)
        ensures FramesBetween(c, now, i + 1, k + 1) <= FramesBetween(c, now, j + 1, k + 1)
      {
        FramesGrow(c, now, j + 1, i + 1, k + 1);
      }
      assert !LoudAt(now, k);
    }
  }

  lemma {:induction false} FramesGrow(c: Config, log: seq<Event>, a: nat, b: nat, end: nat)
    requires a <= b <= end <= |log|
    ensures FramesBetween(c, log, b, end) <= FramesBetween(c, log, a, end)
    decreases end
  {
    hide FramesOf;
    if b < end { FramesGrow(c, log, a, b, end - 1); }
  }

  lemma MutedStays(c: Config, log: seq<Event>, e: Event, from: nat)
    requires MutedRightly(c, log, from) && from <= |log|
    requires !e.Unopened? ==> (e.Muted? <==> c.stereoRoute && !RecentlyLoud(c, log + [e], |log|))
    ensures MutedRightly(c, log + [e], from)
  {
    hide Loud;
    var now := log + [e];
    forall k | from <= k < |now| && !now[k].Unopened?
      ensures now[k].Muted? <==> c.stereoRoute && !RecentlyLoud(c, now, k)
    {
      if k < |log| { RecentInPrefix(c, log, e, k); }
    }
  }

  lemma RecentInPrefix(c: Config, log: seq<Event>, e: Event, k: nat)
    requires k < |log|
    ensures RecentlyLoud(c, log + [e], k) <==> RecentlyLoud(c, log, k)
  {
    hide Loud, FramesOf, ClosingFrames;
    var now := log + [e];
    forall i | 0 <= i < k
      ensures LoudAt(now, i) == LoudAt(log, i)
      ensures FramesBetween(c, now, i + 1, k + 1) == FramesBetween(c, log, i + 1, k + 1)
    {
      FramesOfPrefix(c, log, e, i + 1, k + 1);
    }
  }

  // ---------------------------------------------------------------- every step

  ghost predicate Right(c: Config, s: State, from: nat)
  {
    from <= |s.log| && Follows(c, s.gate, s.log) && MutedRightly(c, s.log, from)
  }

  lemma DeliverIsRight(c: Config, s: State, frames: seq<sample>, forced: bool, from: nat)
    requires Right(c, s, from)
    ensures Right(c, Deliver(c, s, frames, forced), from)
  {
    hide Loud, FramesOf, Spread, Loudest, Follows, MutedRightly, ClosingFrames;
    var t := Deliver(c, s, frames, forced);
    var e := t.log[|s.log|];
    assert t.log == s.log + [e];
    SpreadIsLoud(c.channels, frames, e);
    SpreadFrames(c, frames, e);
    StepFollows(c, s.gate, s.log, e, Loudest(frames), |frames|);
    RecentIffOpen(c, t.gate, s.log, e);
    MutedStays(c, s.log, e, from);
  }

  lemma StepFollows(c: Config, g: Gate, log: seq<Event>, e: Event, peak: nat, frames: nat)
    requires Follows(c, g, log) && !e.Unopened? && (Loud(e) <==> peak >= 5) && FramesOf(c, e) == frames
    ensures Follows(c, GateStep(g, c.outputRate, peak, frames), log + [e])
  {
    hide Loud, FramesOf, ClosingFrames;
    ClosingIs(c);
    var h := GateStep(g, c.outputRate, peak, frames);
    if peak >= 5 { LoudFollows(c, h, log, e); } else { QuietFollows(c, g, h, log, e, frames); }
  }

  lemma UnopenedIsRight(c: Config, s: State, samples: seq<sample>, from: nat)
    requires Right(c, s, from)
    ensures Right(c, s.(queue := [], log := s.log + [Unopened(samples)]), from)
  {
    hide Loud, FramesOf, ClosingFrames, MutedRightly;
    var e := Unopened(samples);
    var now := s.log + [e];
    MutedStays(c, s.log, e, from);
    assert forall j :: 0 <= j < |s.log| ==> LoudAt(now, j) == LoudAt(s.log, j);
    assert !LoudAt(now, |s.log|);
    if NeverLoud(now) { assert NeverLoud(s.log); }
    forall i: nat | LastLoud(c, now, i)
      ensures LastLoud(c, s.log, i) && LoudNow(c, now, i) == LoudNow(c, s.log, i)
      ensures FramesBetween(c, now, i + 1, |now|) == FramesBetween(c, s.log, i + 1, |s.log|)
    {
      FramesOfPrefix(c, s.log, e, i + 1, |s.log|);
      if LoudNow(c, now, i) { assert forall j :: i < j < |s.log| ==> now[j] == s.log[j]; }
      if LoudNow(c, s.log, i) { assert forall j :: i < j < |s.log| ==> now[j] == s.log[j]; }
    }
  }

  lemma FlushIsRight(c: Config, s: State, force: bool, from: nat)
    requires Right(c, s, from)
    ensures Right(c, Flush(c, s, force), from)
  {
    hide Follows, MutedRightly, Deliver, Spread;
    if c.open { DeliverIsRight(c, s.(queue := []), s.queue, force, from); }
    else { UnopenedIsRight(c, s, Spread(c.channels, s.queue), from); }
  }

  lemma EnqueueIsRight(c: Config, s: State, x: sample, from: nat)
    requires Right(c, s, from)
    ensures Right(c, Enqueue(c, s, x), from)
  {
    hide Follows, MutedRightly, Flush;
    FlushIsRight(c, s.(queue := s.queue + [x]), false, from);
  }

  lemma {:induction false} ResampleIsRight(c: Config, s: State, data: seq<Frame>, from: nat)
    requires Right(c, s, from)
    ensures Right(c, Resample(c, s, data), from)
  {
    hide Follows, MutedRightly, Enqueue, InputRate, OutputRate, Mono;
    if data != [] {
      var before := Resample(c, s, data[..|data| - 1]);
      ResampleIsRight(c, s, data[..|data| - 1], from);
      var accum := (before.accum + OutputRate(c)) % WORD;
      if accum >= InputRate(c) {
        EnqueueIsRight(c, before.(accum := accum - InputRate(c)), Mono(data[|data| - 1]), from);
      }
    }
  }

  lemma {:induction false} DirectIsRight(c: Config, s: State, data: seq<Frame>, from: nat)
    requires Right(c, s, from)
    ensures Right(c, Direct(c, s, data).0, from)
    decreases |data|
  {
    hide Follows, MutedRightly, Deliver, Refused, Monos;
    if data != [] {
      var n := Min(CHUNK_FRAMES, |data|);
      DeliverIsRight(c, s, Monos(data[..n]), false, from);
      DirectIsRight(c, Deliver(c, s, Monos(data[..n]), false), data[n..], from);
    }
  }

  lemma StepIsRight(c: Config, s: State, call: Call, from: nat)
    requires Right(c, s, from)
    ensures Right(c, Step(c, s, call), from)
  {
    hide Follows, MutedRightly, Direct, Resample, Enqueue, Flush, InputRate, OutputRate, Mono;
    match call {
      case Batched(data) =>
        DirectIsRight(c, s.(accum := 0), data, from);
        ResampleIsRight(c, s, data, from);
      case Single(f) => EnqueueIsRight(c, s, Mono(f), from);
      case Flushed(force) => FlushIsRight(c, s, force, from);
    }
  }

  // ---------------------------------------------------------------- every run

  lemma {:induction false} RunIsRight(c: Config, s: State, calls: seq<Call>, from: nat)
    requires Right(c, s, from)
    ensures Right(c, Run(c, s, calls), from)
  {
    hide Right, Step;
    if calls != [] {
      RunIsRight(c, s, calls[..|calls| - 1], from);
      StepIsRight(c, Run(c, s, calls[..|calls| - 1]), calls[|calls| - 1], from);
    }
  }

  function Start(): State { State(0, [], Gate(false, 0, 0, false), []) }

  // In every run of the host, at any rates and with any mixture of calls: a buffer that an open
  // device route was there for is muted if and only if the route is the stereo one and no loud buffer
  // stands in the log within the closing time up to it. A loud buffer is never muted.
  lemma MutedIffSilent(c: Config, calls: seq<Call>, k: nat)
    requires k < |Run(c, Start(), calls).log| && !Run(c, Start(), calls).log[k].Unopened?
    ensures var log := Run(c, Start(), calls).log;
            && (log[k].Muted? <==> c.stereoRoute && !RecentlyLoud(c, log, k))
            && (Loud(log[k]) ==> log[k].Written?)
  {
    hide Run, Loud, FramesBetween, ClosingFrames;
    StartIsRight(c);
    RunIsRight(c, Start(), calls, 0);
  }

  lemma StartIsRight(c: Config)
    ensures Right(c, Start(), 0)
  {
  }

  // Buffers are unopened exactly while the device is not open.
  lemma {:induction false} UnopenedIffClosed(c: Config, calls: seq<Call>, k: nat)
    requires k < |Run(c, Start(), calls).log|
    ensures Run(c, Start(), calls).log[k].Unopened? <==> !c.open
  {
    hide Step;
    if calls != [] {
      var before := Run(c, Start(), calls[..|calls| - 1]);
      StepOpens(c, before, calls[|calls| - 1]);
      if k < |before.log| {
        UnopenedIffClosed(c, calls[..|calls| - 1], k);
        assert Run(c, Start(), calls).log[k] == before.log[k];
      }
    }
  }

  // The log grows, and by unopened events only while the device is not open.
  ghost predicate Grows(c: Config, s: State, t: State)
  {
    && s.log <= t.log
    && forall k :: |s.log| <= k < |t.log| ==> (t.log[k].Unopened? <==> !c.open)
  }

  lemma FlushOpens(c: Config, s: State, force: bool)
    ensures Grows(c, s, Flush(c, s, force))
  {
    hide GateStep, Spread, Loudest;
  }

  lemma {:induction false} ResampleOpens(c: Config, s: State, data: seq<Frame>)
    ensures Grows(c, s, Resample(c, s, data))
  {
    hide Flush, InputRate, OutputRate, Mono;
    if data != [] {
      var before := Resample(c, s, data[..|data| - 1]);
      ResampleOpens(c, s, data[..|data| - 1]);
      var accum := (before.accum + OutputRate(c)) % WORD;
      if accum >= InputRate(c) {
        var t := before.(accum := accum - InputRate(c), queue := before.queue + [Mono(data[|data| - 1])]);
        FlushOpens(c, t, false);
      }
    }
  }

  lemma {:induction false} DirectOpens(c: Config, s: State, data: seq<Frame>)
    requires c.open
    ensures Grows(c, s, Direct(c, s, data).0)
    decreases |data|
  {
    hide GateStep, Spread, Loudest, Monos;
    if data != [] {
      var n := Min(CHUNK_FRAMES, |data|);
      DirectOpens(c, Deliver(c, s, Monos(data[..n]), false), data[n..]);
    }
  }

  lemma StepOpens(c: Config, s: State, call: Call)
    ensures Grows(c, s, Step(c, s, call))
  {
    hide Direct, Resample, Flush, InputRate, OutputRate, Mono;
    match call {
      case Batched(data) =>
        if c.open { DirectOpens(c, s.(accum := 0), data); }
        ResampleOpens(c, s, data);
      case Single(f) => FlushOpens(c, s.(queue := s.queue + [Mono(f)]), false);
      case Flushed(force) => FlushOpens(c, s, force);
    }
  }
}
