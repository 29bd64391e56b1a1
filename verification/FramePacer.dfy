// Frame pacing of the libretro host: a deadline that advances one period a frame, a bounded
// amount of timing debt after a stall, and a wait whenever a frame finishes early.
//
// The clock is an input: each frame carries the time read at its start and the time read after
// the delay. Times are microseconds and do not wrap.

module FramePacer {

  const UINT32_MAX: nat := 0xffff_ffff

  // How late a frame may end before the deadline is reset, and the debt a reset leaves behind.
  function LateLimit(period: nat): nat { 12 * period }

  function CatchUp(period: nat): nat { 3 * period }

  datatype Pace = Pace(period: nat, deadline: nat, resets: nat)

  datatype Frame = Frame(now: nat, woke: nat, fastForward: bool)

  // ---------------------------------------------------------------- one frame

  function Paced(p: Pace, f: Frame): bool { p.period != 0 && !f.fastForward }

  // The delay asked for; the delay primitive takes 32 bits.
  function Wait(p: Pace, now: nat): nat
  {
    if now >= p.deadline then 0
    else if p.deadline - now > UINT32_MAX then UINT32_MAX
    else p.deadline - now
  }

  function End(p: Pace, f: Frame): nat
  {
    if Paced(p, f) && f.now < p.deadline then f.woke else f.now
  }

  function Step(p: Pace, f: Frame): Pace
  {
    if !Paced(p, f) then p
    else
      var end := End(p, f);
      if end > p.deadline + LateLimit(p.period) then
        var catchup := CatchUp(p.period);
        p.(deadline := if end > catchup then end - catchup else end, resets := p.resets + 1)
      else p.(deadline := p.deadline + p.period)
  }

  class Pacer {
    var period: nat
    var fastForward: bool
    var deadline: nat
    var waitFrames: nat
    var lateFrames: nat
    var resetFrames: nat

    ghost function Now(): Pace
      reads this
    {
      Pace(period, deadline, resetFrames)
    }

    constructor (period: nat)
      ensures Now() == Pace(period, 0, 0) && !fastForward && waitFrames == lateFrames == 0
    {
      this.period := period;
      fastForward := false;
      deadline, waitFrames, lateFrames, resetFrames := 0, 0, 0, 0;
    }

    method Begin(now: nat)
      modifies `deadline
      ensures Now() == old(Now()).(deadline := now + period)
    {
      deadline := now + period;
    }

    // The caller's delay primitive sleeps for the returned wait between the two clock readings.
    method PaceFrame(now: nat, woke: nat) returns (wait: nat)
      modifies this
      ensures Now() == Step(old(Now()), Frame(now, woke, fastForward)) && fastForward == old(fastForward)
      ensures wait == if Paced(old(Now()), Frame(now, woke, fastForward)) then Wait(old(Now()), now) else 0
      // A paced frame before its deadline counts as waited for, any other paced frame as late.
      ensures var paced, early := Paced(old(Now()), Frame(now, woke, fastForward)), now < old(deadline);
              && waitFrames == old(waitFrames) + (if paced && early then 1 else 0)
              && lateFrames == old(lateFrames) + (if paced && !early then 1 else 0)
    {
      wait := 0;
      if period == 0 || fastForward { return; }
      var after := now;
      if now < deadline {
        wait := if deadline - now > UINT32_MAX then UINT32_MAX else deadline - now;
        after := woke;
        waitFrames := waitFrames + 1;
      } else {
        lateFrames := lateFrames + 1;
      }
      if after > deadline + LateLimit(period) {
        var catchup := CatchUp(period);
        deadline := after;
        if after > catchup { deadline := after - catchup; }
        resetFrames := resetFrames + 1;
      } else {
        deadline := deadline + period;
      }
    }
  }

  // ---------------------------------------------------------------- whole runs

  function After(p: Pace, frames: seq<Frame>): Pace
  {
    if frames == [] then p
    else Step(After(p, frames[..|frames| - 1]), frames[|frames| - 1])
  }

  function EndOf(p: Pace, frames: seq<Frame>, i: nat): nat
    requires i < |frames|
  {
    End(After(p, frames[..i]), frames[i])
  }

  // Time does not run backwards and a delay lasts at least as long as was asked.
  ghost predicate Timely(p: Pace, start: nat, frames: seq<Frame>)
  {
    forall i :: 0 <= i < |frames| ==> TimelyAt(p, start, frames, i)
  }

  ghost predicate TimelyAt(p: Pace, start: nat, frames: seq<Frame>, i: nat)
    requires i < |frames|
  {
    && frames[i].now >= (if i == 0 then start else EndOf(p, frames, i - 1))
    && frames[i].woke >= frames[i].now + Wait(After(p, frames[..i]), frames[i].now)
  }

  function PacedFrames(frames: seq<Frame>): nat
  {
    if frames == [] then 0
    else PacedFrames(frames[..|frames| - 1]) + if frames[|frames| - 1].fastForward then 0 else 1
  }

  lemma TimelyPrefix(p: Pace, start: nat, frames: seq<Frame>, n: nat)
    requires Timely(p, start, frames) && n <= |frames|
    ensures Timely(p, start, frames[..n])
    ensures forall i :: 0 <= i < n ==> EndOf(p, frames[..n], i) == EndOf(p, frames, i)
  {
    forall i | 0 <= i < n
      ensures EndOf(p, frames[..n], i) == EndOf(p, frames, i) && TimelyAt(p, start, frames[..n], i)
    {
      assert frames[..n][..i] == frames[..i];
      if i > 0 { assert frames[..n][..i - 1] == frames[..i - 1]; }
      assert TimelyAt(p, start, frames, i);
    }
  }

  // The deadline is never more than a period ahead of the last frame.
  lemma {:induction false} DeadlineIsNear(p: Pace, start: nat, frames: seq<Frame>)
    requires p.deadline <= start + p.period && p.period <= UINT32_MAX
    requires Timely(p, start, frames)
    ensures After(p, frames).period == p.period
    ensures After(p, frames).deadline <=
            (if frames == [] then start else EndOf(p, frames, |frames| - 1)) + p.period
  {
    if frames != [] {
      var n := |frames| - 1;
      TimelyPrefix(p, start, frames, n);
      DeadlineIsNear(p, start, frames[..n]);
      assert TimelyAt(p, start, frames, n);
    }
  }

  // So the 32-bit clamp on the delay never shortens a wait.
  lemma ClampNeverBites(p: Pace, start: nat, frames: seq<Frame>, i: nat)
    requires p.deadline <= start + p.period && p.period <= UINT32_MAX
    requires Timely(p, start, frames) && i < |frames|
    ensures var q := After(p, frames[..i]);
            frames[i].now < q.deadline ==> Wait(q, frames[i].now) == q.deadline - frames[i].now
  {
    TimelyPrefix(p, start, frames, i);
    DeadlineIsNear(p, start, frames[..i]);
    assert TimelyAt(p, start, frames, i);
  }

  // A paced frame advances the deadline by at least a period and ends at most eleven periods
  // behind it.
  lemma StepBounds(p: Pace, f: Frame)
    requires Paced(p, f)
    requires f.now < p.deadline ==> f.woke >= p.deadline
    ensures var q := Step(p, f);
            && q.deadline >= p.deadline + p.period
            && End(p, f) <= q.deadline + 11 * p.period
            && q.deadline <= End(p, f) + p.period
            && (q.resets == p.resets ==> q.deadline == p.deadline + p.period)
            && (q.resets != p.resets ==> q.deadline + 3 * p.period == End(p, f))
            && p.resets <= q.resets
  {
  }

  lemma TimelyStep(p: Pace, start: nat, frames: seq<Frame>, i: nat)
    requires p.deadline <= start + p.period && 0 < p.period <= UINT32_MAX
    requires Timely(p, start, frames) && i < |frames| && !frames[i].fastForward
    ensures var q := After(p, frames[..i]);
            q.period == p.period && Paced(q, frames[i]) &&
            (frames[i].now < q.deadline ==> frames[i].woke >= q.deadline)
    ensures After(p, frames[..i + 1]) == Step(After(p, frames[..i]), frames[i])
  {
    TimelyPrefix(p, start, frames, i);
    DeadlineIsNear(p, start, frames[..i]);
    ClampNeverBites(p, start, frames, i);
    assert TimelyAt(p, start, frames, i);
    assert frames[..i + 1][..i] == frames[..i];
  }

  lemma IdleStep(p: Pace, f: Frame)
    requires f.fastForward
    ensures Step(p, f) == p
  {
  }

  lemma OneMore(n: nat, period: nat)
    ensures (n + 1) * period == n * period + period
  {
  }

  // Over any stretch of a run the deadline advances by at least one period for every paced
  // frame, and by exactly that when nothing was reset.
  lemma {:induction false} DeadlineAdvances(p: Pace, start: nat, frames: seq<Frame>, m: nat, n: nat)
    requires p.deadline <= start + p.period && 0 < p.period <= UINT32_MAX
    requires Timely(p, start, frames) && m <= n <= |frames|
    ensures var a, b, k := After(p, frames[..m]), After(p, frames[..n]), PacedFrames(frames[m..n]);
            && b.deadline >= a.deadline + Periods(k, p.period)
            && b.resets >= a.resets
            && (b.resets == a.resets ==> b.deadline == a.deadline + Periods(k, p.period))
    decreases n
  {
    hide Step, Timely, End, After, PacedFrames, Periods;
    if m < n {
      DeadlineAdvances(p, start, frames, m, n - 1);
      OneMoreFrame(p, frames, m, n - 1);
      OneMorePeriod(PacedFrames(frames[m..n - 1]), p.period);
      if frames[n - 1].fastForward {
        IdleStep(After(p, frames[..n - 1]), frames[n - 1]);
      } else {
        TimelyStep(p, start, frames, n - 1);
        StepBounds(After(p, frames[..n - 1]), frames[n - 1]);
      }
    } else {
      NoFrames(p, frames, m);
    }
  }

  function Periods(k: int, period: nat): int { k * period }

  lemma OneMorePeriod(k: int, period: nat)
    ensures Periods(k + 1, period) == Periods(k, period) + period
  {
  }

  lemma NoFrames(p: Pace, frames: seq<Frame>, m: nat)
    requires m <= |frames|
    ensures PacedFrames(frames[m..m]) == 0 && Periods(0, p.period) == 0
  {
  }

  lemma OneMoreFrame(p: Pace, frames: seq<Frame>, m: nat, n: nat)
    requires m <= n < |frames|
    ensures After(p, frames[..n + 1]) == Step(After(p, frames[..n]), frames[n])
    ensures PacedFrames(frames[m..n + 1]) == PacedFrames(frames[m..n]) + if frames[n].fastForward then 0 else 1
  {
    hide Step;
    assert frames[..n + 1][..n] == frames[..n];
    assert frames[m..n + 1][..n - m] == frames[m..n];
  }

  lemma Distance(a: int, b: int, k: nat, period: nat)
    requires b >= a + Periods(k, period) - 12 * period
    ensures b >= a + (k - 12) * period
  {
  }

  // The pacing bound: frame j ends at least (paced frames after i, up to j, less twelve) periods
  // after frame i, however the frames in between were delayed.
  lemma FramesAreSpaced(p: Pace, start: nat, frames: seq<Frame>, i: nat, j: nat)
    requires p.deadline <= start + p.period && 0 < p.period <= UINT32_MAX
    requires Timely(p, start, frames) && i < j < |frames|
    requires !frames[i].fastForward && !frames[j].fastForward
    ensures EndOf(p, frames, j) >=
            EndOf(p, frames, i) + (PacedFrames(frames[i + 1..j + 1]) - 12) * p.period
  {
    hide Step, Timely, End, After, PacedFrames, Periods;
    TimelyStep(p, start, frames, i);
    StepBounds(After(p, frames[..i]), frames[i]);
    TimelyStep(p, start, frames, j);
    StepBounds(After(p, frames[..j]), frames[j]);
    DeadlineAdvances(p, start, frames, i + 1, j + 1);
    Distance(EndOf(p, frames, i), EndOf(p, frames, j), PacedFrames(frames[i + 1..j + 1]), p.period);
  }

  // Without a reset the pace does not drift: after n paced frames the deadline is n periods on.
  lemma NoDriftWithoutReset(p: Pace, start: nat, frames: seq<Frame>)
    requires p.deadline <= start + p.period && 0 < p.period <= UINT32_MAX
    requires Timely(p, start, frames) && After(p, frames).resets == p.resets
    ensures After(p, frames).deadline == p.deadline + PacedFrames(frames) * p.period
  {
    DeadlineAdvances(p, start, frames, 0, |frames|);
    assert frames[..0] == [] && frames[..|frames|] == frames == frames[0..|frames|];
  }

  // ---------------------------------------------------------------- the bound is tight

  // A stall of twelve periods past the deadline, then frames that take no time at all.
  function Burst(end: nat, n: nat): seq<Frame>
  {
    seq(n, _ => Frame(end, end, false))
  }

  lemma LateStep(p: Pace, end: nat)
    requires 0 < p.period && p.deadline <= end <= p.deadline + 12 * p.period
    ensures Step(p, Frame(end, end, false)) == p.(deadline := p.deadline + p.period)
    ensures End(p, Frame(end, end, false)) == end
  {
  }

  lemma AtMost(n: nat, m: nat, period: nat)
    requires n <= m
    ensures 0 <= n * period <= m * period
  {
  }

  lemma {:induction false} BurstDeadline(p: Pace, n: nat)
    requires 0 < p.period && n <= 13
    ensures var frames := Burst(p.deadline + 12 * p.period, n);
            After(p, frames) == p.(deadline := p.deadline + n * p.period) && PacedFrames(frames) == n
  {
    hide Step, LateLimit, CatchUp;
    var end := p.deadline + 12 * p.period;
    if n > 0 {
      BurstDeadline(p, n - 1);
      assert Burst(end, n)[..n - 1] == Burst(end, n - 1);
      OneMore(n - 1, p.period);
      AtMost(n - 1, 12, p.period);
      LateStep(p.(deadline := p.deadline + (n - 1) * p.period), end);
    } else {
      assert Burst(end, 0) == [];
    }
  }

  lemma BurstEnds(p: Pace, n: nat, i: nat)
    requires 0 < p.period && i < n <= 13
    ensures var frames := Burst(p.deadline + 12 * p.period, n);
            EndOf(p, frames, i) == p.deadline + 12 * p.period &&
            frames[i].now >= After(p, frames[..i]).deadline
  {
    hide Step, End, LateLimit, CatchUp;
    var end := p.deadline + 12 * p.period;
    BurstDeadline(p, i);
    assert Burst(end, n)[..i] == Burst(end, i);
    AtMost(i, 12, p.period);
    LateStep(p.(deadline := p.deadline + i * p.period), end);
  }

  lemma BurstIsTimely(p: Pace, start: nat, n: nat)
    requires p.deadline == start + p.period && 0 < p.period && n <= 13
    ensures Timely(p, start, Burst(p.deadline + 12 * p.period, n))
  {
    var frames := Burst(p.deadline + 12 * p.period, n);
    forall i | 0 <= i < n ensures TimelyAt(p, start, frames, i) {
      BurstEnds(p, n, i);
      if i > 0 { BurstEnds(p, n, i - 1); }
    }
  }

  // Thirteen frames can end at the same moment: twelve periods of debt is what the code allows,
  // and no smaller number would do in the pacing bound.
  lemma BoundIsTight(p: Pace, start: nat)
    requires p.deadline == start + p.period && 0 < p.period
    ensures exists frames ::
              && |frames| == 13 && Timely(p, start, frames)
              && PacedFrames(frames[1..13]) == 12
              && EndOf(p, frames, 12) == EndOf(p, frames, 0)
  {
    var end := p.deadline + 12 * p.period;
    var frames := Burst(end, 13);
    BurstIsTimely(p, start, 13);
    BurstDeadline(p, 12);
    BurstEnds(p, 13, 0);
    BurstEnds(p, 13, 12);
    hide Timely, EndOf, PacedFrames;
    assert frames[1..13] == Burst(end, 12);
  }
}
