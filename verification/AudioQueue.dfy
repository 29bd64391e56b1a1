// The libretro host's audio path: stereo frames from a core are mixed to mono, resampled by dropping
// frames, collected in a 512 frame buffer and handed to the audio device behind a noise gate.
//
// The device and the audio route are seen through a log with one event per buffer that left the
// host; whether the device accepts a transfer is an arbitrary function of its place in the log.

module AudioQueue {
  import opened Arithmetic

  const CHUNK_FRAMES: nat := 512
  const BUFFER_FRAMES: nat := 512
  const DEFAULT_RATE: nat := 32000
  // A peak opens the gate at 5 and counts as quiet at 4 or less, so the code's case for peaks
  // between the two levels is never taken and the model has no branch for it.
  const OPEN_LEVEL: nat := 5
  const CLOSE_MS: nat := 1500
  const WORD: nat := 0x1_0000_0000

  newtype sample = x: int | -0x8000 <= x < 0x8000

  datatype Frame = Frame(left: sample, right: sample)

  datatype Event =
    | Written(samples: seq<sample>, accepted: bool, forced: bool)
    | Muted(samples: seq<sample>)
    | Unopened(samples: seq<sample>)

  datatype Gate = Gate(open: bool, quiet: nat, closeFrames: nat, configured: bool)

  datatype Config = Config(enabled: bool, fastForward: bool, open: bool, inputRate: nat, outputRate: nat,
                           channels: nat, stereoRoute: bool, accepts: nat -> bool)

  datatype State = State(accum: nat, queue: seq<sample>, gate: Gate, log: seq<Event>)

  // ---------------------------------------------------------------- samples

  // The source halves with an arithmetic shift, which rounds towards minus infinity.
  function Mono(f: Frame): (m: sample)
    ensures 2 * (m as int) <= f.left as int + f.right as int <= 2 * (m as int) + 1
  {
    ((f.left as int + f.right as int) / 2) as sample
  }

  function Monos(data: seq<Frame>): (r: seq<sample>)
    ensures |r| == |data|
  {
    seq(|data|, i requires 0 <= i < |data| => Mono(data[i]))
  }

  function Loudness(x: sample): nat { if x < 0 then -(x as int) else x as int }

  function Loudest(s: seq<sample>): nat
  {
    if s == [] then 0
    else
      var rest := Loudest(s[..|s| - 1]);
      if Loudness(s[|s| - 1]) > rest then Loudness(s[|s| - 1]) else rest
  }

  // The peak is reached by some sample and exceeded by none.
  lemma {:induction false} LoudestIsMaximum(s: seq<sample>)
    ensures forall i :: 0 <= i < |s| ==> Loudness(s[i]) <= Loudest(s)
    ensures s != [] ==> exists i :: 0 <= i < |s| && Loudness(s[i]) == Loudest(s)
  {
    if s != [] {
      var n := |s| - 1;
      LoudestIsMaximum(s[..n]);
      assert forall i :: 0 <= i < n ==> s[..n][i] == s[i];
      if Loudness(s[n]) > Loudest(s[..n]) || n == 0 {
        assert Loudness(s[n]) == Loudest(s);
      } else {
        var i :| 0 <= i < n && Loudness(s[..n][i]) == Loudest(s[..n]);
        assert Loudness(s[i]) == Loudest(s);
      }
    }
  }

  function Width(channels: nat): (w: nat)
    ensures w == 1 || w == 2
  {
    if channels == 2 then 2 else 1
  }

  // The device's view of mono frames: one sample a frame, or the same sample on both channels.
  function Spread(channels: nat, frames: seq<sample>): (r: seq<sample>)
    ensures |r| == |frames| * Width(channels)
  {
    var w := Width(channels);
    seq(|frames| * w, i requires 0 <= i < |frames| * w => frames[i / w])
  }

  lemma SpreadAppend(channels: nat, a: seq<sample>, b: seq<sample>)
    ensures Spread(channels, a + b) == Spread(channels, a) + Spread(channels, b)
  {
    var w := Width(channels);
    var l, r := Spread(channels, a + b), Spread(channels, a) + Spread(channels, b);
    assert |l| == |r|;
    forall i | 0 <= i < |l| ensures l[i] == r[i] {
      if i < |a| * w {
      } else {
        assert (i - |a| * w) / w == i / w - |a|;
      }
    }
  }

  // ---------------------------------------------------------------- the gate

  function CloseFrames(outputRate: nat): nat
  {
    (if outputRate == 0 then DEFAULT_RATE else outputRate) * CLOSE_MS / 1000 % WORD
  }

  function Configured(g: Gate, outputRate: nat): Gate
  {
    if g.configured then g else g.(configured := true, closeFrames := CloseFrames(outputRate))
  }

  function GateStep(g: Gate, outputRate: nat, peak: nat, frames: nat): Gate
  {
    var g := Configured(g, outputRate);
    if peak >= OPEN_LEVEL then g.(open := true, quiet := 0)
    else
      var quiet := Min(WORD - 1, g.quiet + frames);
      g.(quiet := quiet, open := g.open && quiet < g.closeFrames)
  }

  datatype Chunk = Chunk(peak: nat, frames: nat)

  function GateRun(g: Gate, outputRate: nat, chunks: seq<Chunk>): Gate
  {
    if chunks == [] then g
    else
      var last := chunks[|chunks| - 1];
      GateStep(GateRun(g, outputRate, chunks[..|chunks| - 1]), outputRate, last.peak, last.frames)
  }

  // Frames heard since the last chunk at or above the opening level; none when no chunk was loud.
  function SinceLoud(chunks: seq<Chunk>): (r: (bool, nat))
  {
    if chunks == [] then (false, 0)
    else
      var last := chunks[|chunks| - 1];
      if last.peak >= OPEN_LEVEL then (true, 0)
      else
        var before := SinceLoud(chunks[..|chunks| - 1]);
        (before.0, before.1 + last.frames)
  }

  // The gate counts audio time, not callbacks: whatever the chunk sizes, it is open exactly while
  // fewer quiet frames than the closing time have passed since the last loud chunk.
  lemma {:induction false} GateFollowsAudioTime(outputRate: nat, chunks: seq<Chunk>)
    requires 0 < CloseFrames(outputRate)
    ensures var g := GateRun(Gate(false, 0, 0, false), outputRate, chunks);
            && g.quiet == Min(WORD - 1, SinceLoud(chunks).1)
            && (chunks != [] ==> g.configured && g.closeFrames == CloseFrames(outputRate))
            && (g.configured ==> g.closeFrames == CloseFrames(outputRate))
            && (g.open <==> SinceLoud(chunks).0 && SinceLoud(chunks).1 < CloseFrames(outputRate))
  {
    if chunks != [] {
      GateFollowsAudioTime(outputRate, chunks[..|chunks| - 1]);
    }
  }

  // ---------------------------------------------------------------- what the host computes

  // A buffer leaves the host: the gate hears it, then it is muted or offered to the device.
  function Deliver(c: Config, s: State, frames: seq<sample>, forced: bool): State
  {
    var g := GateStep(s.gate, c.outputRate, Loudest(frames), |frames|);
    var samples := Spread(c.channels, frames);
    if c.stereoRoute && !g.open then s.(gate := g, log := s.log + [Muted(samples)])
    else s.(gate := g, log := s.log + [Written(samples, c.accepts(|s.log|), forced)])
  }

  function Flush(c: Config, s: State, force: bool): State
  {
    if s.queue == [] then s
    else if !force && c.open && c.inputRate != c.outputRate && |s.queue| < CHUNK_FRAMES then s
    else if !c.open then s.(queue := [], log := s.log + [Unopened(Spread(c.channels, s.queue))])
    else Deliver(c, s.(queue := []), s.queue, force)
  }

  function Enqueue(c: Config, s: State, x: sample): State
  {
    var s := s.(queue := s.queue + [x]);
    if |s.queue| >= BUFFER_FRAMES then Flush(c, s, false) else s
  }

  function InputRate(c: Config): nat { if c.inputRate != 0 then c.inputRate else DEFAULT_RATE }

  function OutputRate(c: Config): nat { if c.outputRate != 0 then c.outputRate else InputRate(c) }

  // One input frame: the 32-bit accumulator decides whether the frame is kept.
  function ResampleStep(c: Config, s: State, f: Frame): State
  {
    var accum := (s.accum + OutputRate(c)) % WORD;
    if accum < InputRate(c) then s.(accum := accum)
    else Enqueue(c, s.(accum := accum - InputRate(c)), Mono(f))
  }

  function Resample(c: Config, s: State, data: seq<Frame>): State
  {
    if data == [] then s
    else ResampleStep(c, Resample(c, s, data[..|data| - 1]), data[|data| - 1])
  }

  predicate Refused(s: State)
  {
    s.log != [] && s.log[|s.log| - 1].Written? && !s.log[|s.log| - 1].accepted
  }

  // Equal rates: chunks go straight to the device until one is refused.
  function Direct(c: Config, s: State, data: seq<Frame>): (State, nat)
    decreases |data|
  {
    if data == [] then (s, 0)
    else
      var n := Min(CHUNK_FRAMES, |data|);
      var t := Deliver(c, s, Monos(data[..n]), false);
      if Refused(t) then (t, n)
      else
        var rest := Direct(c, t, data[n..]);
        (rest.0, n + rest.1)
  }

  function Batch(c: Config, s: State, data: seq<Frame>): (State, nat)
  {
    if !c.enabled || c.fastForward || !c.open then (s, |data|)
    else if InputRate(c) == OutputRate(c) then Direct(c, s.(accum := 0), data)
    else (Resample(c, s, data), |data|)
  }

  function SampleCall(c: Config, s: State, f: Frame): State
  {
    if !c.enabled || c.fastForward then s else Enqueue(c, s, Mono(f))
  }

  // ---------------------------------------------------------------- the resampler's arithmetic

  // What the resampler keeps of the input, counted with an accumulator that cannot overflow.
  function Emit(c: Config, accum: nat, data: seq<Frame>): seq<sample>
  {
    if data == [] then []
    else
      var n := |data| - 1;
      Emit(c, accum, data[..n]) +
      if Accum(c, accum, n) + OutputRate(c) < InputRate(c) then [] else [Mono(data[n])]
  }

  // What is left over after n input frames, and how many frames have been kept by then.
  function Accum(c: Config, accum: nat, n: nat): nat
    requires 0 < InputRate(c)
  {
    Total(accum, n, OutputRate(c)) % InputRate(c)
  }

  function Kept(c: Config, accum: nat, n: nat): nat
    requires 0 < InputRate(c)
  {
    Total(accum, n, OutputRate(c)) / InputRate(c)
  }

  function Total(start: nat, n: nat, step: nat): nat { start + n * step }

  ghost predicate Downsamples(c: Config)
  {
    0 < InputRate(c) && OutputRate(c) <= InputRate(c) && InputRate(c) + OutputRate(c) <= WORD
  }

  lemma DivModStep(a: nat, b: nat, d: nat)
    requires 0 < d && b <= d
    ensures a % d + b < d ==> (a + b) / d == a / d && (a + b) % d == a % d + b
    ensures a % d + b >= d ==> (a + b) / d == a / d + 1 && (a + b) % d == a % d + b - d
  {
    var q, r := a / d, a % d;
    assert a == q * d + r;
    if r + b < d {
      DivisionIs(a + b, q, r + b, d);
    } else {
      OneMoreTime(q, d);
      DivisionIs(a + b, q + 1, r + b - d, d);
    }
  }

  lemma NextTotal(start: nat, n: nat, step: nat)
    ensures Total(start, n + 1, step) == Total(start, n, step) + step
  {
  }

  lemma NextFrame(c: Config, accum: nat, n: nat)
    requires Downsamples(c)
    ensures Accum(c, accum, n) < InputRate(c) && Accum(c, accum, n + 1) < InputRate(c)
    ensures Accum(c, accum, n) + OutputRate(c) < InputRate(c) ==>
              Accum(c, accum, n + 1) == Accum(c, accum, n) + OutputRate(c) &&
              Kept(c, accum, n + 1) == Kept(c, accum, n)
    ensures Accum(c, accum, n) + OutputRate(c) >= InputRate(c) ==>
              Accum(c, accum, n + 1) == Accum(c, accum, n) + OutputRate(c) - InputRate(c) &&
              Kept(c, accum, n + 1) == Kept(c, accum, n) + 1
  {
    NextTotal(accum, n, OutputRate(c));
    hide InputRate, OutputRate, Total;
    DivModStep(Total(accum, n, OutputRate(c)), OutputRate(c), InputRate(c));
  }

  lemma NoFrames(c: Config, accum: nat)
    requires Downsamples(c) && accum < InputRate(c)
    ensures Accum(c, accum, 0) == accum && Kept(c, accum, 0) == 0
  {
    DivisionIs(accum, 0, accum, InputRate(c));
  }

  // The counting law, and which frames are kept: the one that carries the running total over a
  // multiple of the input rate becomes the output frame with that number.
  lemma {:induction false} EmitCounts(c: Config, accum: nat, data: seq<Frame>)
    requires Downsamples(c) && accum < InputRate(c)
    ensures |Emit(c, accum, data)| == Kept(c, accum, |data|)
    ensures forall i :: 0 <= i < |data| && Accum(c, accum, i) + OutputRate(c) >= InputRate(c) ==>
              Kept(c, accum, i) < |Emit(c, accum, data)| &&
              Emit(c, accum, data)[Kept(c, accum, i)] == Mono(data[i])
  {
    hide Kept, Accum, Mono, InputRate, OutputRate;
    DownsamplingRates(c);
    NoFrames(c, accum);
    if data != [] {
      var n := |data| - 1;
      EmitCounts(c, accum, data[..n]);
      NextFrame(c, accum, n);
    }
  }

  lemma DownsamplingRates(c: Config)
    requires Downsamples(c)
    ensures 0 < InputRate(c)
  {
  }

  lemma {:induction false} AccumSplit(c: Config, accum: nat, m: nat, n: nat)
    requires Downsamples(c)
    ensures Accum(c, Accum(c, accum, m), n) == Accum(c, accum, m + n) < InputRate(c)
  {
    hide Kept, Accum, InputRate, OutputRate;
    DownsamplingRates(c);
    NextFrame(c, accum, m + n);
    NextFrame(c, accum, m);
    if n == 0 {
      NoFrames(c, Accum(c, accum, m));
    } else {
      AccumSplit(c, accum, m, n - 1);
      NextFrame(c, Accum(c, accum, m), n - 1);
      NextFrame(c, accum, m + n - 1);
    }
  }

  // Cutting the input into batches changes nothing.
  lemma {:induction false} EmitSplit(c: Config, accum: nat, a: seq<Frame>, b: seq<Frame>)
    requires Downsamples(c)
    ensures Emit(c, accum, a + b) == Emit(c, accum, a) + Emit(c, Accum(c, accum, |a|), b)
  {
    hide Accum, InputRate, OutputRate, Mono;
    DownsamplingRates(c);
    if b == [] {
      assert a + b == a;
    } else {
      var n := |b| - 1;
      EmitSplit(c, accum, a, b[..n]);
      AccumSplit(c, accum, |a|, n);
      assert (a + b)[..|a + b| - 1] == a + b[..n];
    }
  }

  // The host's 32-bit accumulator obeys the counting law for one more frame, from every value it
  // can hold, exactly when the two rates together fit in 32 bits.
  lemma AccumulatorFitsIff(c: Config)
    requires 0 < OutputRate(c) <= InputRate(c) < WORD
    ensures (forall accum: nat :: accum < InputRate(c) ==> AccumulatorFits(c, accum))
            <==> InputRate(c) + OutputRate(c) <= WORD
  {
    assert AccumulatorFits(c, InputRate(c) - 1) <==> InputRate(c) + OutputRate(c) <= WORD;
  }

  predicate AccumulatorFits(c: Config, accum: nat)
  {
    (accum + OutputRate(c)) % WORD >= InputRate(c) <==> accum + OutputRate(c) >= InputRate(c)
  }

  // The device rate chosen for a core's rate.
  function DeviceRate(inputRate: nat): nat
  {
    if inputRate == 22050 || inputRate == 32000 || inputRate == 44100 then inputRate else DEFAULT_RATE
  }

  // The host downsamples, or passes frames straight through, exactly for these core rates; below
  // 32000 Hz (22050 apart) it would have to produce more frames than it is given.
  lemma DownsamplesIff(c: Config)
    requires 0 < c.inputRate < WORD && c.outputRate == DeviceRate(c.inputRate)
    ensures Downsamples(c) <==> c.inputRate == 22050 || 32000 <= c.inputRate <= WORD - 32000
    ensures InputRate(c) == OutputRate(c) <==> c.inputRate in {22050, 32000, 44100}
  {
  }

  // ---------------------------------------------------------------- conservation

  function Samples(log: seq<Event>): seq<sample>
  {
    if log == [] then [] else Samples(log[..|log| - 1]) + log[|log| - 1].samples
  }

  // Everything that left the host, followed by everything still waiting.
  function Held(c: Config, s: State): seq<sample>
  {
    Samples(s.log) + Spread(c.channels, s.queue)
  }

  // The queue is never left full, and while the rates differ every transfer that was not forced
  // out carries exactly one period.
  ghost predicate Regular(c: Config, s: State)
  {
    && |s.queue| < BUFFER_FRAMES
    && (c.inputRate != c.outputRate && c.open ==> Periods(c, s.log))
  }

  ghost predicate Periods(c: Config, log: seq<Event>)
  {
    forall i :: 0 <= i < |log| && log[i].Written? && !log[i].forced ==>
      |log[i].samples| == CHUNK_FRAMES * Width(c.channels)
  }

  lemma DeliverKeeps(c: Config, s: State, frames: seq<sample>, forced: bool)
    ensures Samples(Deliver(c, s, frames, forced).log) == Samples(s.log) + Spread(c.channels, frames)
    ensures Deliver(c, s, frames, forced).queue == s.queue
    ensures Deliver(c, s, frames, forced).accum == s.accum
    ensures |Deliver(c, s, frames, forced).log| == |s.log| + 1
  {
    var t := Deliver(c, s, frames, forced);
    assert t.log[..|t.log| - 1] == s.log;
  }

  lemma FlushKeeps(c: Config, s: State, force: bool)
    requires |s.queue| <= BUFFER_FRAMES
    requires c.inputRate != c.outputRate && c.open ==> Periods(c, s.log)
    ensures Held(c, Flush(c, s, force)) == Held(c, s)
    ensures Flush(c, s, force).accum == s.accum
    ensures |s.queue| == BUFFER_FRAMES ==> Flush(c, s, force).queue == []
    ensures Regular(c, Flush(c, s, force))
    ensures force ==> Flush(c, s, force).queue == []
  {
    var t := Flush(c, s, force);
    if s.queue != [] && t.queue == [] {
      if c.open { DeliverKeeps(c, s.(queue := []), s.queue, force); }
      else { assert t.log[..|t.log| - 1] == s.log; }
      assert Held(c, t) == Samples(t.log);
    }
  }

  lemma HeldGrows(c: Config, s: State, x: sample)
    ensures Held(c, s.(queue := s.queue + [x])) == Held(c, s) + Spread(c.channels, [x])
  {
    SpreadAppend(c.channels, s.queue, [x]);
  }

  lemma EnqueueKeeps(c: Config, s: State, x: sample)
    requires Regular(c, s)
    ensures Held(c, Enqueue(c, s, x)) == Held(c, s) + Spread(c.channels, [x])
    ensures Enqueue(c, s, x).accum == s.accum
    ensures Regular(c, Enqueue(c, s, x))
  {
    hide Held, Spread, Flush;
    var t := s.(queue := s.queue + [x]);
    HeldGrows(c, s, x);
    if |t.queue| >= BUFFER_FRAMES { FlushKeeps(c, t, false); }
  }

  lemma HeldIgnoresAccum(c: Config, s: State, accum: nat)
    ensures Held(c, s.(accum := accum)) == Held(c, s)
    ensures Regular(c, s.(accum := accum)) <==> Regular(c, s)
  {
  }

  // Resampling a batch: the accumulator stays below the input rate, and the frames the counting
  // law keeps are added, in order, to what the host already held.
  lemma {:induction false} ResampleKeeps(c: Config, s: State, data: seq<Frame>)
    requires Downsamples(c) && s.accum < InputRate(c) && Regular(c, s)
    ensures Resample(c, s, data).accum == Accum(c, s.accum, |data|)
    ensures Regular(c, Resample(c, s, data))
    ensures Held(c, Resample(c, s, data)) == Held(c, s) + Spread(c.channels, Emit(c, s.accum, data))
  {
    hide Held, Spread, ResampleStep, Regular, Accum, InputRate, OutputRate, Mono;
    DownsamplingRates(c);
    NoFrames(c, s.accum);
    if data == [] {
      SpreadNothing(c.channels);
    } else {
      var n := |data| - 1;
      var before := Resample(c, s, data[..n]);
      ResampleKeeps(c, s, data[..n]);
      ResampleStepKeeps(c, before, data[n], s.accum, n);
      SpreadAppend(c.channels, Emit(c, s.accum, data[..n]), [Mono(data[n])]);
      assert Emit(c, s.accum, data[..n]) + [] == Emit(c, s.accum, data[..n]);
      assert Held(c, before) + [] == Held(c, before);
    }
  }

  lemma SpreadNothing(channels: nat)
    ensures Spread(channels, []) == []
  {
  }

  lemma ResampleStepKeeps(c: Config, s: State, f: Frame, accum: nat, n: nat)
    requires Downsamples(c) && Regular(c, s) && s.accum == Accum(c, accum, n)
    ensures var t := ResampleStep(c, s, f);
            && t.accum == Accum(c, accum, n + 1)
            && Regular(c, t)
            && Held(c, t) == Held(c, s) +
                 if Accum(c, accum, n) + OutputRate(c) < InputRate(c) then []
                 else Spread(c.channels, [Mono(f)])
  {
    hide Held, Spread, Enqueue, Regular, Accum;
    NextFrame(c, accum, n);
    var total := s.accum + OutputRate(c);
    assert total % WORD == total;
    if total < InputRate(c) {
      HeldIgnoresAccum(c, s, total);
    } else {
      HeldIgnoresAccum(c, s, total - InputRate(c));
      EnqueueKeeps(c, s.(accum := total - InputRate(c)), Mono(f));
    }
  }

  // At equal rates the host reports as consumed exactly the frames that left it, in order, even
  // when the device refuses a chunk part of the way through; no chunk is larger than a period.
  lemma {:induction false} DirectKeeps(c: Config, s: State, data: seq<Frame>)
    ensures var r := Direct(c, s, data);
            && r.1 <= |data|
            && Samples(r.0.log) == Samples(s.log) + Spread(c.channels, Monos(data[..r.1]))
            && r.0.queue == s.queue && r.0.accum == s.accum
            && (r.1 < |data| ==> Refused(r.0))
    decreases |data|
  {
    hide Deliver, Refused, Spread, Samples;
    if data == [] {
      SpreadNothing(c.channels);
      assert Monos(data[..0]) == [];
    } else {
      var n := Min(CHUNK_FRAMES, |data|);
      var t := Deliver(c, s, Monos(data[..n]), false);
      DeliverKeeps(c, s, Monos(data[..n]), false);
      if !Refused(t) {
        DirectKeeps(c, t, data[n..]);
        var m := Direct(c, t, data[n..]).1;
        assert Monos(data[..n + m]) == Monos(data[..n]) + Monos(data[n..][..m]);
        SpreadAppend(c.channels, Monos(data[..n]), Monos(data[n..][..m]));
      }
    }
  }

  // ---------------------------------------------------------------- whole runs

  datatype Call =
    | Batched(data: seq<Frame>)
    | Single(frame: Frame)
    | Flushed(force: bool)

  function Step(c: Config, s: State, call: Call): State
  {
    match call
    case Batched(data) => Batch(c, s, data).0
    case Single(f) => SampleCall(c, s, f)
    case Flushed(force) => Flush(c, s, force)
  }

  function Run(c: Config, s: State, calls: seq<Call>): State
  {
    if calls == [] then s else Step(c, Run(c, s, calls[..|calls| - 1]), calls[|calls| - 1])
  }

  // The frames of all batches of a run, end to end.
  function Input(calls: seq<Call>): seq<Frame>
  {
    if calls == [] then []
    else
      var last := calls[|calls| - 1];
      Input(calls[..|calls| - 1]) + if last.Batched? then last.data else []
  }

  // What a run lets through: batches are resampled with one running accumulator, single samples
  // are not resampled at all.
  function Heard(c: Config, accum: nat, calls: seq<Call>): seq<sample>
    requires 0 < InputRate(c)
  {
    if calls == [] then []
    else
      var before := calls[..|calls| - 1];
      Heard(c, accum, before) +
      match calls[|calls| - 1]
      case Batched(data) => Emit(c, Accum(c, accum, |Input(before)|), data)
      case Single(f) => [Mono(f)]
      case Flushed(_) => []
  }

  ghost predicate Resamples(c: Config)
  {
    c.enabled && !c.fastForward && c.open && InputRate(c) != OutputRate(c) && Downsamples(c)
  }

  // In every run, from any state the host can be in: written, muted and waiting samples together
  // are the resampled input in order, the accumulator stays in range, the queue stays below its
  // capacity and unforced transfers are whole periods.
  lemma {:induction false} RunKeeps(c: Config, s: State, calls: seq<Call>)
    requires Resamples(c) && s.accum < InputRate(c) && Regular(c, s)
    ensures Run(c, s, calls).accum == Accum(c, s.accum, |Input(calls)|) < InputRate(c)
    ensures Regular(c, Run(c, s, calls))
    ensures Held(c, Run(c, s, calls)) == Held(c, s) + Spread(c.channels, Heard(c, s.accum, calls))
  {
    hide Held, Spread, Enqueue, Flush, Resample, Regular, Downsamples, Emit, Accum, InputRate, OutputRate, Mono;
    DownsamplingRates(c);
    NoFrames(c, s.accum);
    if calls == [] {
      SpreadNothing(c.channels);
    } else {
      var before := calls[..|calls| - 1];
      var t := Run(c, s, before);
      RunKeeps(c, s, before);
      match calls[|calls| - 1]
      case Batched(data) =>
        ResampleKeeps(c, t, data);
        AccumSplit(c, s.accum, |Input(before)|, |data|);
        SpreadAppend(c.channels, Heard(c, s.accum, before), Emit(c, t.accum, data));
      case Single(f) =>
        EnqueueKeeps(c, t, Mono(f));
        SpreadAppend(c.channels, Heard(c, s.accum, before), [Mono(f)]);
      case Flushed(force) =>
        RegularBound(c, t);
        assert Heard(c, s.accum, before) + [] == Heard(c, s.accum, before);
        FlushKeeps(c, t, force);
    }
  }

  lemma RegularBound(c: Config, s: State)
    requires Regular(c, s)
    ensures |s.queue| < BUFFER_FRAMES
    ensures c.inputRate != c.outputRate && c.open ==> Periods(c, s.log)
  {
  }

  // A run without single samples hears the resampling of its whole input, however the core cut
  // the input into batches and wherever the host flushed.
  lemma {:induction false} BatchesAreOneStream(c: Config, accum: nat, calls: seq<Call>)
    requires Downsamples(c) && accum < InputRate(c)
    requires forall i :: 0 <= i < |calls| ==> !calls[i].Single?
    ensures Heard(c, accum, calls) == Emit(c, accum, Input(calls))
    ensures |Heard(c, accum, calls)| == Kept(c, accum, |Input(calls)|)
  {
    hide Accum, Kept, Emit, InputRate, OutputRate, Mono;
    DownsamplingRates(c);
    NoFrames(c, accum);
    EmitCounts(c, accum, Input(calls));
    if calls != [] {
      var before := calls[..|calls| - 1];
      BatchesAreOneStream(c, accum, before);
      if calls[|calls| - 1].Batched? {
        EmitSplit(c, accum, Input(before), calls[|calls| - 1].data);
      } else {
        assert Heard(c, accum, before) + [] == Heard(c, accum, before);
        assert Input(before) + [] == Input(before);
      }
    }
  }

  // ---------------------------------------------------------------- the host object

  lemma LoudestGrows(s: seq<sample>, x: sample)
    ensures Loudest(s + [x]) == if Loudness(x) > Loudest(s) then Loudness(x) else Loudest(s)
  {
    assert (s + [x])[..|s|] == s;
  }

  // Mono frames laid out in an array, one or two samples each.
  ghost predicate Stored(a: array<sample>, channels: nat, frames: seq<sample>)
    reads a
  {
    |frames| * Width(channels) <= a.Length && a[..|frames| * Width(channels)] == Spread(channels, frames)
  }

  method StoreMono(a: array<sample>, channels: nat, ghost before: seq<sample>, frame: nat, x: sample)
    requires Stored(a, channels, before) && |before| == frame && (frame + 1) * Width(channels) <= a.Length
    modifies a
    ensures Stored(a, channels, before + [x])
  {
    SpreadAppend(channels, before, [x]);
    if channels == 2 {
      a[frame * 2] := x;
      a[frame * 2 + 1] := x;
      assert a[..(frame + 1) * 2] == a[..frame * 2] + [x, x];
    } else {
      a[frame] := x;
      assert a[..frame + 1] == a[..frame] + [x];
    }
  }

  lemma NoMonos(a: array<sample>, channels: nat, data: seq<Frame>, at: nat)
    requires at <= |data|
    ensures Stored(a, channels, Monos(data[at..at])) && Loudest(Monos(data[at..at])) == 0
  {
    assert Monos(data[at..at]) == [];
  }

  lemma OneMoreMono(data: seq<Frame>, at: nat, count: nat)
    requires at + count < |data|
    ensures Monos(data[at..at + count + 1]) == Monos(data[at..at + count]) + [Mono(data[at + count])]
  {
    hide Mono;
  }

  class AudioHost {
    const config: Config
    const sampleBuffer: array<sample>
    const mixBuffer: array<sample>
    var accum: nat
    var bufferFrames: nat
    var bufferPeak: nat
    var gate: Gate
    var log: seq<Event>
    ghost var queue: seq<sample>

    ghost predicate Valid()
      reads this, sampleBuffer
    {
      && sampleBuffer != mixBuffer
      && sampleBuffer.Length == BUFFER_FRAMES * 2
      && mixBuffer.Length == CHUNK_FRAMES * 2
      && |queue| == bufferFrames <= BUFFER_FRAMES
      && Stored(sampleBuffer, config.channels, queue)
      && bufferPeak == Loudest(queue)
    }

    ghost function Now(): State
      reads this
    {
      State(accum, queue, gate, log)
    }

    constructor (c: Config)
      ensures Valid() && fresh(sampleBuffer) && fresh(mixBuffer) && config == c
      ensures Now() == State(0, [], Gate(false, 0, 0, false), [])
    {
      config := c;
      sampleBuffer := new sample[BUFFER_FRAMES * 2];
      mixBuffer := new sample[CHUNK_FRAMES * 2];
      accum, bufferFrames, bufferPeak, log := 0, 0, 0, [];
      gate := Gate(false, 0, 0, false);
      queue := [];
    }

    method UpdateGate(peak: nat, frames: nat)
      modifies `gate
      ensures gate == GateStep(old(gate), config.outputRate, peak, frames)
    {
      if !gate.configured {
        gate := gate.(configured := true, closeFrames := CloseFrames(config.outputRate));
      }
      if peak >= OPEN_LEVEL {
        if !gate.open { gate := gate.(open := true); }
        gate := gate.(quiet := 0);
      } else {
        if WORD - 1 - gate.quiet < frames {
          gate := gate.(quiet := WORD - 1);
        } else {
          gate := gate.(quiet := gate.quiet + frames);
        }
        if gate.open && gate.quiet >= gate.closeFrames {
          gate := gate.(open := false);
        }
      }
    }

    // Hands a buffer to the gate and, unless the stereo route is muted, to the device.
    method DeliverBuffer(a: array<sample>, count: nat, peak: nat, ghost frames: seq<sample>, forced: bool)
      returns (ok: bool)
      requires Stored(a, config.channels, frames) && count == |frames| && peak == Loudest(frames)
      modifies `gate, `log
      ensures Now() == Deliver(config, old(Now()), frames, forced)
      ensures ok <==> !Refused(Now())
    {
      UpdateGate(peak, count);
      var samples := a[..count * Width(config.channels)];
      if config.stereoRoute && !gate.open {
        log := log + [Muted(samples)];
        return true;
      }
      ok := config.accepts(|log|);
      log := log + [Written(samples, ok, forced)];
    }

    method FlushSampleBuffer(force: bool)
      requires Valid()
      modifies this
      ensures Valid() && Now() == Flush(config, old(Now()), force)
    {
      if bufferFrames == 0 { return; }
      if !force && config.open && config.inputRate != config.outputRate && bufferFrames < CHUNK_FRAMES {
        return;
      }
      if !config.open {
        log := log + [Unopened(sampleBuffer[..bufferFrames * Width(config.channels)])];
      } else {
        var _ := DeliverBuffer(sampleBuffer, bufferFrames, bufferPeak, queue, force);
      }
      bufferFrames, bufferPeak := 0, 0;
      queue := [];
    }

    method QueueMono(x: sample)
      requires Valid() && bufferFrames < BUFFER_FRAMES
      modifies this, sampleBuffer
      ensures Valid() && Now() == Enqueue(config, old(Now()), x) && bufferFrames < BUFFER_FRAMES
    {
      LoudestGrows(queue, x);
      if Loudness(x) > bufferPeak { bufferPeak := Loudness(x); }
      StoreMono(sampleBuffer, config.channels, queue, bufferFrames, x);
      bufferFrames := bufferFrames + 1;
      queue := queue + [x];
      if bufferFrames >= BUFFER_FRAMES { FlushSampleBuffer(false); }
    }

    method SampleCallback(f: Frame)
      requires Valid() && bufferFrames < BUFFER_FRAMES
      modifies this, sampleBuffer
      ensures Valid() && Now() == SampleCall(config, old(Now()), f) && bufferFrames < BUFFER_FRAMES
    {
      if !config.enabled || config.fastForward { return; }
      QueueMono(Mono(f));
    }

    method MixChunk(data: seq<Frame>, at: nat) returns (count: nat, peak: nat)
      requires Valid() && at < |data|
      modifies mixBuffer
      ensures count == Min(CHUNK_FRAMES, |data| - at)
      ensures Stored(mixBuffer, config.channels, Monos(data[at..at + count]))
      ensures peak == Loudest(Monos(data[at..at + count]))
    {
      hide Loudest, Stored, Mono, Monos, Spread;
      count, peak := 0, 0;
      NoMonos(mixBuffer, config.channels, data, at);
      while at + count < |data| && count < CHUNK_FRAMES
        invariant at + count <= |data| && count <= CHUNK_FRAMES
        invariant Stored(mixBuffer, config.channels, Monos(data[at..at + count]))
        invariant peak == Loudest(Monos(data[at..at + count]))
      {
        var scaled := Mono(data[at + count]);
        LoudestGrows(Monos(data[at..at + count]), scaled);
        if Loudness(scaled) > peak { peak := Loudness(scaled); }
        StoreMono(mixBuffer, config.channels, Monos(data[at..at + count]), count, scaled);
        OneMoreMono(data, at, count);
        count := count + 1;
      }
    }

    method WriteDirect(data: seq<Frame>) returns (consumed: nat)
      requires Valid()
      modifies this, mixBuffer
      ensures Valid() && (Now(), consumed) == Direct(config, old(Now()), data)
      ensures bufferFrames == old(bufferFrames)
    {
      hide Deliver, Refused, Loudest, Monos, Spread;
      consumed := 0;
      while consumed < |data|
        invariant consumed <= |data|
        invariant Valid() && bufferFrames == old(bufferFrames)
        invariant var rest := Direct(config, Now(), data[consumed..]);
                  Direct(config, old(Now()), data) == (rest.0, consumed + rest.1)
      {
        var count, peak := MixChunk(data, consumed);
        assert data[consumed..][..count] == data[consumed..consumed + count];
        assert data[consumed..][count..] == data[consumed + count..];
        var ok := DeliverBuffer(mixBuffer, count, peak, Monos(data[consumed..consumed + count]), false);
        consumed := consumed + count;
        if !ok { return; }
      }
    }

    method ResampleFrames(data: seq<Frame>) returns (consumed: nat)
      requires Valid() && bufferFrames < BUFFER_FRAMES
      modifies this, sampleBuffer
      ensures Valid() && bufferFrames < BUFFER_FRAMES
      ensures Now() == Resample(config, old(Now()), data) && consumed == |data|
    {
      hide Enqueue, Loudest, Stored, Mono;
      var inputRate, outputRate := InputRate(config), OutputRate(config);
      consumed := 0;
      while consumed < |data|
        invariant consumed <= |data|
        invariant Valid() && bufferFrames < BUFFER_FRAMES
        invariant Now() == Resample(config, old(Now()), data[..consumed])
      {
        var frame := data[consumed];
        assert data[..consumed + 1][..consumed] == data[..consumed];
        consumed := consumed + 1;
        accum := (accum + outputRate) % WORD;
        if accum < inputRate { continue; }
        accum := accum - inputRate;
        QueueMono(Mono(frame));
      }
      assert data[..consumed] == data;
    }

    method BatchCallback(data: seq<Frame>) returns (consumed: nat)
      requires Valid() && bufferFrames < BUFFER_FRAMES
      modifies this, sampleBuffer, mixBuffer
      ensures Valid() && bufferFrames < BUFFER_FRAMES
      ensures (Now(), consumed) == Batch(config, old(Now()), data)
    {
      if !config.enabled || config.fastForward || !config.open { return |data|; }
      if InputRate(config) == OutputRate(config) {
        accum := 0;
        consumed := WriteDirect(data);
      } else {
        consumed := ResampleFrames(data);
      }
    }
  }
}
