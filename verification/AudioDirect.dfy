// Whole runs of the audio host at equal rates: batches go straight to the device, while single
// samples wait in the queue, so a batch overtakes the samples waiting when it arrives.

module AudioDirect {
  import opened Arithmetic
  import opened AudioQueue

  ghost predicate Passes(c: Config)
  {
    c.enabled && !c.fastForward && c.open && InputRate(c) == OutputRate(c)
  }

  // The part of each batch the host reports as consumed, end to end.
  function Passed(c: Config, s: State, calls: seq<Call>): seq<sample>
  {
    if calls == [] then []
    else
      var before, last := calls[..|calls| - 1], calls[|calls| - 1];
      Passed(c, s, before) +
      if last.Batched? then Monos(last.data[..Consumed(c, Run(c, s, before), last.data)]) else []
  }

  // The frames of a batch the host reports as consumed.
  function Consumed(c: Config, s: State, data: seq<Frame>): (n: nat)
    ensures n <= |data|
  {
    DirectKeeps(c, s.(accum := 0), data);
    Batch(c, s, data).1
  }

  // The single samples, end to end.
  function Singles(calls: seq<Call>): seq<sample>
  {
    if calls == [] then []
    else
      var last := calls[|calls| - 1];
      Singles(calls[..|calls| - 1]) + if last.Single? then [Mono(last.frame)] else []
  }

  // ---------------------------------------------------------------- two streams in one

  // w holds the elements of a and of b, each in its order.
  predicate Interleaves(w: seq<sample>, a: seq<sample>, b: seq<sample>)
    decreases |w|
  {
    && |w| == |a| + |b|
    && (w == [] ||
        (a != [] && w[|w| - 1] == a[|a| - 1] && Interleaves(w[..|w| - 1], a[..|a| - 1], b)) ||
        (b != [] && w[|w| - 1] == b[|b| - 1] && Interleaves(w[..|w| - 1], a, b[..|b| - 1])))
  }

  lemma {:induction false} InterleavesLeft(w: seq<sample>, a: seq<sample>, b: seq<sample>, x: seq<sample>)
    requires Interleaves(w, a, b)
    ensures Interleaves(w + x, a + x, b)
    decreases |x|
  {
    if x == [] {
      assert w + x == w && a + x == a;
    } else {
      var n := |x| - 1;
      InterleavesLeft(w, a, b, x[..n]);
      assert (w + x)[..|w + x| - 1] == w + x[..n] && (a + x)[..|a + x| - 1] == a + x[..n];
    }
  }

  lemma {:induction false} InterleavesRight(w: seq<sample>, a: seq<sample>, b: seq<sample>, x: seq<sample>)
    requires Interleaves(w, a, b)
    ensures Interleaves(w + x, a, b + x)
    decreases |x|
  {
    if x == [] {
      assert w + x == w && b + x == b;
    } else {
      var n := |x| - 1;
      InterleavesRight(w, a, b, x[..n]);
      assert (w + x)[..|w + x| - 1] == w + x[..n] && (b + x)[..|b + x| - 1] == b + x[..n];
    }
  }

  // Nothing is lost, added or repeated.
  lemma {:induction false} InterleavesConserves(w: seq<sample>, a: seq<sample>, b: seq<sample>)
    requires Interleaves(w, a, b)
    ensures multiset(w) == multiset(a) + multiset(b)
    decreases |w|
  {
    if w != [] {
      Unsnoc(w);
      if a != [] && w[|w| - 1] == a[|a| - 1] && Interleaves(w[..|w| - 1], a[..|a| - 1], b) {
        Unsnoc(a);
        InterleavesConserves(w[..|w| - 1], a[..|a| - 1], b);
      } else {
        Unsnoc(b);
        InterleavesConserves(w[..|w| - 1], a, b[..|b| - 1]);
      }
    }
  }

  lemma Unsnoc(s: seq<sample>)
    requires s != []
    ensures multiset(s) == multiset(s[..|s| - 1]) + multiset{s[|s| - 1]}
  {
    assert s == s[..|s| - 1] + [s[|s| - 1]];
  }

  lemma {:induction false} InterleavesAlone(w: seq<sample>, a: seq<sample>)
    requires Interleaves(w, a, [])
    ensures w == a
    decreases |w|
  {
    if w != [] { InterleavesAlone(w[..|w| - 1], a[..|a| - 1]); }
  }

  // ---------------------------------------------------------------- one step

  // What left the host since s is an interleaving of the passed frames and of the samples that are
  // no longer waiting; the waiting ones are the last of those queued.
  ghost predicate Woven(c: Config, s: State, t: State, passed: seq<sample>, singles: seq<sample>)
  {
    var queued, old_ := s.queue + singles, Samples(s.log);
    && |t.queue| <= |queued| && t.queue == queued[|queued| - |t.queue|..]
    && |old_| <= |Samples(t.log)| && Samples(t.log)[..|old_|] == old_
    && Interleaves(Samples(t.log)[|old_|..], Spread(c.channels, passed),
                   Spread(c.channels, queued[..|queued| - |t.queue|]))
  }

  lemma WovenStart(c: Config, s: State)
    ensures Woven(c, s, s, [], [])
  {
    hide Samples;
    var queued := s.queue + [];
    assert queued == s.queue && queued[..0] == [];
    SpreadNothing(c.channels);
  }

  lemma WovenPass(c: Config, s: State, t: State, u: State, passed: seq<sample>, singles: seq<sample>, x: seq<sample>)
    requires Woven(c, s, t, passed, singles)
    requires u.queue == t.queue && Samples(u.log) == Samples(t.log) + Spread(c.channels, x)
    ensures Woven(c, s, u, passed + x, singles)
  {
    hide Samples, Spread, Interleaves;
    var n, queued := |Samples(s.log)|, s.queue + singles;
    SpreadAppend(c.channels, passed, x);
    InterleavesLeft(Samples(t.log)[n..], Spread(c.channels, passed),
                    Spread(c.channels, queued[..|queued| - |t.queue|]), Spread(c.channels, x));
    assert Samples(u.log)[n..] == Samples(t.log)[n..] + Spread(c.channels, x);
    assert Samples(u.log)[..n] == Samples(t.log)[..n];
  }

  lemma WovenQueue(c: Config, s: State, t: State, u: State, passed: seq<sample>, singles: seq<sample>, x: sample)
    requires Woven(c, s, t, passed, singles)
    requires u.queue == t.queue + [x] && u.log == t.log
    ensures Woven(c, s, u, passed, singles + [x])
  {
    hide Samples, Spread, Interleaves;
    var queued := s.queue + singles;
    var more := s.queue + (singles + [x]);
    assert more == queued + [x];
    assert more[..|more| - |u.queue|] == queued[..|queued| - |t.queue|];
    assert more[|more| - |u.queue|..] == queued[|queued| - |t.queue|..] + [x];
  }

  lemma WovenFlush(c: Config, s: State, t: State, u: State, passed: seq<sample>, singles: seq<sample>)
    requires Woven(c, s, t, passed, singles)
    requires u.queue == [] && Samples(u.log) == Samples(t.log) + Spread(c.channels, t.queue)
    ensures Woven(c, s, u, passed, singles)
  {
    hide Samples, Spread, Interleaves;
    var n, queued := |Samples(s.log)|, s.queue + singles;
    var gone := queued[..|queued| - |t.queue|];
    assert queued[..|queued|] == gone + t.queue;
    SpreadAppend(c.channels, gone, t.queue);
    InterleavesRight(Samples(t.log)[n..], Spread(c.channels, passed), Spread(c.channels, gone), Spread(c.channels, t.queue));
    assert Samples(u.log)[n..] == Samples(t.log)[n..] + Spread(c.channels, t.queue);
    assert Samples(u.log)[..n] == Samples(t.log)[..n];
  }

  // A flush does nothing or empties the queue into the log.
  lemma FlushShape(c: Config, t: State, force: bool)
    ensures var u := Flush(c, t, force);
            u == t || (u.queue == [] && Samples(u.log) == Samples(t.log) + Spread(c.channels, t.queue))
  {
    hide Spread;
    var u := Flush(c, t, force);
    if u != t {
      if c.open {
        DeliverKeeps(c, t.(queue := []), t.queue, force);
      } else {
        assert u.log[..|u.log| - 1] == t.log;
      }
    }
  }

  lemma FlushWeaves(c: Config, s: State, t: State, passed: seq<sample>, singles: seq<sample>, force: bool)
    requires Woven(c, s, t, passed, singles)
    ensures Woven(c, s, Flush(c, t, force), passed, singles)
  {
    hide Woven, Samples, Spread, Flush;
    FlushShape(c, t, force);
    if Flush(c, t, force) != t { WovenFlush(c, s, t, Flush(c, t, force), passed, singles); }
  }

  lemma EnqueueWeaves(c: Config, s: State, t: State, passed: seq<sample>, singles: seq<sample>, x: sample)
    requires Woven(c, s, t, passed, singles)
    ensures Woven(c, s, Enqueue(c, t, x), passed, singles + [x])
  {
    hide Woven, Flush;
    var u := t.(queue := t.queue + [x]);
    WovenQueue(c, s, t, u, passed, singles, x);
    FlushWeaves(c, s, u, passed, singles + [x], false);
  }

  lemma BatchWeaves(c: Config, s: State, t: State, passed: seq<sample>, singles: seq<sample>, data: seq<Frame>)
    requires Passes(c) && Woven(c, s, t, passed, singles)
    ensures Woven(c, s, Batch(c, t, data).0, passed + Monos(data[..Consumed(c, t, data)]), singles)
  {
    hide Woven, Direct, Samples, Spread, Monos, InputRate, OutputRate;
    DirectKeeps(c, t.(accum := 0), data);
    WovenPass(c, s, t, Batch(c, t, data).0, passed, singles, Monos(data[..Consumed(c, t, data)]));
  }

  // ---------------------------------------------------------------- whole runs

  // In every run at equal rates, from any state: what has left the host is an interleaving of the
  // frames passed on and of the queued samples, both in order, and the samples still waiting are
  // the latest ones queued.
  lemma {:induction false} RunInterleaves(c: Config, s: State, calls: seq<Call>)
    requires Passes(c)
    ensures Woven(c, s, Run(c, s, calls), Passed(c, s, calls), Singles(calls))
  {
    hide Woven, Batch, Enqueue, Flush, Consumed, Monos, Mono, InputRate, OutputRate;
    if calls == [] {
      WovenStart(c, s);
    } else {
      var before := calls[..|calls| - 1];
      var t, passed, singles := Run(c, s, before), Passed(c, s, before), Singles(before);
      RunInterleaves(c, s, before);
      assert passed + [] == passed && singles + [] == singles;
      match calls[|calls| - 1] {
        case Batched(data) => BatchWeaves(c, s, t, passed, singles, data);
        case Single(f) => EnqueueWeaves(c, s, t, passed, singles, Mono(f));
        case Flushed(force) => FlushWeaves(c, s, t, passed, singles, force);
      }
    }
  }

  // So nothing is lost, added or repeated: what has left the host and what is waiting are what was
  // there, the frames passed on and the single samples.
  lemma RunConserves(c: Config, s: State, calls: seq<Call>)
    requires Passes(c)
    ensures multiset(Held(c, Run(c, s, calls))) ==
            multiset(Held(c, s)) + multiset(Spread(c.channels, Passed(c, s, calls)))
                                 + multiset(Spread(c.channels, Singles(calls)))
  {
    hide Samples, Spread, Interleaves, Run, Passed, Singles;
    RunInterleaves(c, s, calls);
    var t, passed, singles := Run(c, s, calls), Passed(c, s, calls), Singles(calls);
    var n, queued := |Samples(s.log)|, s.queue + singles;
    var gone := queued[..|queued| - |t.queue|];
    InterleavesConserves(Samples(t.log)[n..], Spread(c.channels, passed), Spread(c.channels, gone));
    assert Samples(t.log) == Samples(s.log) + Samples(t.log)[n..];
    assert queued == gone + t.queue;
    SpreadAppend(c.channels, gone, t.queue);
    SpreadAppend(c.channels, s.queue, singles);
    Regrouped(Samples(s.log), Samples(t.log)[n..], Spread(c.channels, t.queue), Spread(c.channels, passed),
              Spread(c.channels, gone), Spread(c.channels, s.queue), Spread(c.channels, singles));
  }

  lemma Regrouped(had: seq<sample>, left: seq<sample>, waits: seq<sample>, passed: seq<sample>, gone: seq<sample>,
                  waited: seq<sample>, singles: seq<sample>)
    requires multiset(left) == multiset(passed) + multiset(gone) && gone + waits == waited + singles
    ensures multiset(had + left + waits) == multiset(had + waited) + multiset(passed) + multiset(singles)
  {
    calc {
      multiset(had + left + waits);
      multiset(had) + multiset(left) + multiset(waits);
      multiset(had) + multiset(passed) + multiset(gone + waits);
      multiset(had) + multiset(passed) + multiset(waited + singles);
      multiset(had + waited) + multiset(passed) + multiset(singles);
    }
  }

  lemma {:induction false} NoSingles(calls: seq<Call>)
    requires forall i :: 0 <= i < |calls| ==> !calls[i].Single?
    ensures Singles(calls) == []
  {
    if calls != [] { NoSingles(calls[..|calls| - 1]); }
  }

  // Without single samples the order is kept as well.
  lemma BatchesPassInOrder(c: Config, s: State, calls: seq<Call>)
    requires Passes(c) && s.queue == [] && forall i :: 0 <= i < |calls| ==> !calls[i].Single?
    ensures Samples(Run(c, s, calls).log) == Samples(s.log) + Spread(c.channels, Passed(c, s, calls))
    ensures Run(c, s, calls).queue == []
  {
    hide Samples, Spread, Interleaves, Run, Passed, Singles;
    RunInterleaves(c, s, calls);
    NoSingles(calls);
    SpreadNothing(c.channels);
    var t, n := Run(c, s, calls), |Samples(s.log)|;
    assert (s.queue + Singles(calls))[..0] == [];
    InterleavesAlone(Samples(t.log)[n..], Spread(c.channels, Passed(c, s, calls)));
    assert Samples(t.log) == Samples(t.log)[..n] + Samples(t.log)[n..];
  }

  lemma {:induction false} AcceptedBatch(c: Config, s: State, data: seq<Frame>)
    requires forall i: nat :: c.accepts(i)
    ensures Direct(c, s, data).1 == |data|
    decreases |data|
  {
    hide Loudest, Spread, Monos, GateStep;
    if data != [] {
      var n := Min(CHUNK_FRAMES, |data|);
      AcceptedBatch(c, Deliver(c, s, Monos(data[..n]), false), data[n..]);
    }
  }

  // While the device accepts everything, every frame of every batch is passed on.
  lemma {:induction false} AcceptedRunPassesAll(c: Config, s: State, calls: seq<Call>)
    requires Passes(c) && forall i: nat :: c.accepts(i)
    ensures Passed(c, s, calls) == Monos(Input(calls))
  {
    hide Mono, Run, InputRate, OutputRate, Direct;
    if calls != [] {
      var before, last := calls[..|calls| - 1], calls[|calls| - 1];
      AcceptedRunPassesAll(c, s, before);
      if last.Batched? {
        AcceptedBatch(c, Run(c, s, before).(accum := 0), last.data);
        assert last.data[..|last.data|] == last.data;
        assert Monos(Input(before) + last.data) == Monos(Input(before)) + Monos(last.data);
      } else {
        assert Input(before) + [] == Input(before);
      }
    }
  }

  // A batch that finds a sample waiting overtakes it.
  lemma SingleIsOvertaken(c: Config, s: State, f: Frame, g: Frame)
    requires Passes(c) && s.queue == []
    ensures Held(c, Run(c, s, [Single(f), Batched([g])])) ==
            Samples(s.log) + Spread(c.channels, [Mono(g)]) + Spread(c.channels, [Mono(f)])
  {
    hide Spread, Mono, Samples, Direct, InputRate, OutputRate;
    var calls := [Single(f), Batched([g])];
    assert calls[..1] == [Single(f)] && [Single(f)][..0] == [];
    var t := SampleCall(c, s, f);
    assert s.queue + [Mono(f)] == [Mono(f)];
    assert t.queue == [Mono(f)] && t.log == s.log;
    assert Run(c, s, calls[..1]) == t by { assert Run(c, s, []) == s; }
    DirectKeeps(c, t.(accum := 0), [g]);
    OneFrameIsConsumed(c, t.(accum := 0), g);
    assert Monos([g][..1]) == [Mono(g)];
  }

  lemma OneFrameIsConsumed(c: Config, s: State, g: Frame)
    ensures Direct(c, s, [g]).1 == 1
  {
    hide Deliver, Refused, Monos;
    assert [g][1..] == [];
  }
}
