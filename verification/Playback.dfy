/**
  Animation playback: which frame is shown, how often all were, and when the next is due.

  Time is a natural number of nanoseconds and never overflows. The functions on
  `Cursor` say what each operation computes; the class runs them in place.
 */
module Playback {
  import opened Arith
  import opened Wrappers

  const MIN_FRAME_DELAY: nat := 10 * 1_000_000
  const MAX_FRAME_DELAY: nat := 3600 * 1_000_000_000
  const U64_MAX: nat := 0xFFFF_FFFF_FFFF_FFFF

  datatype Repeat = Infinite | Finite(total: nat)

  datatype Animation = Animation(delays: seq<nat>, repeat: Repeat)

  /** What decoding yields: at least two frames, bounded delays, a positive repeat count. */
  ghost predicate Decoded(a: Animation) {
    && |a.delays| >= 2
    && (forall i :: 0 <= i < |a.delays| ==> MIN_FRAME_DELAY <= a.delays[i] <= MAX_FRAME_DELAY)
    && (a.repeat.Finite? ==> 1 <= a.repeat.total <= U32_MAX)
  }

  /** A container's delay in milliseconds, as nanoseconds within the playable range. */
  function NormalizedFrameDelay(numerator: nat, denominator: nat): (delay: nat)
    requires numerator <= U32_MAX && denominator <= U32_MAX
    ensures MIN_FRAME_DELAY <= delay <= MAX_FRAME_DELAY
  {
    var nanos := Min(numerator * 1_000_000 / Max(denominator, 1), U64_MAX);
    Min(Max(nanos, MIN_FRAME_DELAY), MAX_FRAME_DELAY)
  }

  /** A delay inside the range is the exact one rounded down to a nanosecond; others go to the nearer end. */
  lemma DelayIsExact(numerator: nat, denominator: nat)
    requires numerator <= U32_MAX && denominator <= U32_MAX
    ensures var d, exact := Max(denominator, 1), numerator * 1_000_000;
      var delay := NormalizedFrameDelay(numerator, denominator);
      && (MIN_FRAME_DELAY * d <= exact < (MAX_FRAME_DELAY + 1) * d ==> delay * d <= exact < (delay + 1) * d)
      && (exact < MIN_FRAME_DELAY * d ==> delay == MIN_FRAME_DELAY)
      && (exact >= (MAX_FRAME_DELAY + 1) * d ==> delay == MAX_FRAME_DELAY)
  {
    var d, exact := Max(denominator, 1), numerator * 1_000_000;
    var q := exact / d;
    FloorBounds(exact, d, MIN_FRAME_DELAY);
    FloorBounds(exact, d, MAX_FRAME_DELAY + 1);
    FloorBounds(exact, d, q);
    FloorBounds(exact, d, q + 1);
  }

  lemma FloorBounds(n: nat, d: nat, k: nat)
    requires d > 0
    ensures k * d <= n <==> k <= n / d
  {
    var q, rest := n / d, n % d;
    assert n == q * d + rest;
    if k <= q {
      assert k * d <= q * d;
    } else {
      assert k * d >= (q + 1) * d == q * d + d;
    }
  }

  datatype Cursor = Cursor(frameIndex: nat, completedCycles: nat, playing: bool, nextFrameAt: Option<nat>)

  ghost predicate Valid(a: Animation, c: Cursor) {
    && Decoded(a)
    && c.frameIndex < |a.delays|
    && c.completedCycles <= U32_MAX
    && (c.playing <==> c.nextFrameAt.Some?)
    && (c.playing ==> !Finished(a, c))
  }

  function Start(a: Animation, now: nat): Cursor
    requires |a.delays| > 0
  {
    Cursor(0, 0, true, Some(now + a.delays[0]))
  }

  predicate Finished(a: Animation, c: Cursor) {
    a.repeat.Finite? && c.completedCycles >= a.repeat.total
  }

  function Delay(a: Animation, c: Cursor): nat
    requires c.frameIndex < |a.delays|
  {
    a.delays[c.frameIndex]
  }

  /** Move to the next frame, wrapping or finishing; the flag says whether the shown frame changed. */
  function AdvanceOne(a: Animation, c: Cursor): (Cursor, bool) {
    if c.frameIndex + 1 < |a.delays| then (c.(frameIndex := c.frameIndex + 1), true)
    else
      var d := c.(completedCycles := Min(c.completedCycles + 1, U32_MAX));
      if Finished(a, d) then (d.(playing := false), false) else (d.(frameIndex := 0), true)
  }

  /** Show one due frame: the next deadline counts from the last one, not from now. */
  function Tick(a: Animation, c: Cursor): (Cursor, bool)
    requires |a.delays| > 0 && c.frameIndex < |a.delays| && c.nextFrameAt.Some?
  {
    var (d, changed) := AdvanceOne(a, c);
    (d.(nextFrameAt := if d.playing then Some(c.nextFrameAt.value + Delay(a, d)) else None), changed)
  }

  /** No frame is due at `now`. */
  predicate Settled(c: Cursor, now: nat) {
    c.nextFrameAt.None? || c.nextFrameAt.value > now
  }

  /** Show due frames, at most `steps` of them. */
  function CatchUpWithin(a: Animation, c: Cursor, now: nat, steps: nat): (Cursor, bool)
    requires Valid(a, c)
    decreases steps
  {
    if steps == 0 || Settled(c, now) then (c, false)
    else
      TickKeepsValid(a, c);
      var (d, changed) := Tick(a, c);
      var (e, later) := CatchUpWithin(a, d, now, steps - 1);
      (e, changed || later)
  }

  function MaxSteps(a: Animation): nat {
    Max(2 * |a.delays|, 1)
  }

  /** Catch up by at most twice the frame count; if a frame is overdue even then, the clock restarts at now. */
  function Advance(a: Animation, c: Cursor, now: nat): (Cursor, bool)
    requires Valid(a, c)
  {
    if !c.playing then (c, false)
    else
      CatchUpKeepsValid(a, c, now, MaxSteps(a));
      var (d, changed) := CatchUpWithin(a, c, now, MaxSteps(a));
      (if Settled(d, now) then d else d.(nextFrameAt := Some(now + Delay(a, d))), changed)
  }

  function Toggle(a: Animation, c: Cursor, now: nat): Cursor
    requires Valid(a, c)
  {
    if c.playing then c.(playing := false, nextFrameAt := None)
    else
      var d := if Finished(a, c) then c.(frameIndex := 0, completedCycles := 0) else c;
      d.(playing := true, nextFrameAt := Some(now + Delay(a, d)))
  }

  function Pause(c: Cursor): Cursor {
    c.(playing := false, nextFrameAt := None)
  }

  function SteppedIndex(index: nat, delta: int, count: nat): Option<nat> {
    var next := index + delta;
    if next < 0 || next == index || next >= count then None else Some(next)
  }

  function StepBy(a: Animation, c: Cursor, delta: int): (Cursor, bool) {
    match SteppedIndex(c.frameIndex, delta, |a.delays|)
    case None => (Pause(c), false)
    case Some(next) => (Pause(c).(frameIndex := next), true)
  }

  /** Toggling a finished playback starts it over; pausing and resuming shows the same frame for its whole delay. */
  lemma ToggleResumes(a: Animation, c: Cursor, t1: nat, t2: nat)
    requires Valid(a, c)
    ensures !c.playing && Finished(a, c) ==> Toggle(a, c, t1) == Start(a, t1)
    ensures c.playing ==>
      var paused := Toggle(a, c, t1);
      && !paused.playing && Valid(a, paused)
      && Toggle(a, paused, t2) == c.(nextFrameAt := Some(t2 + Delay(a, c)))
  {
  }

  /** A step moves by exactly its delta or not at all, and the opposite step undoes it. */
  lemma StepsUndo(a: Animation, c: Cursor, delta: int)
    requires Valid(a, c)
    ensures var (d, moved) := StepBy(a, c, delta);
      && (moved <==> delta != 0 && 0 <= c.frameIndex + delta < |a.delays|)
      && d.frameIndex == c.frameIndex + (if moved then delta else 0)
      && (moved ==> StepBy(a, d, -delta) == (Pause(c), true))
      && !d.playing && d.completedCycles == c.completedCycles
  {
  }

  // ----- every operation keeps the cursor valid

  lemma TickKeepsValid(a: Animation, c: Cursor)
    requires Valid(a, c) && c.playing
    ensures Valid(a, Tick(a, c).0)
    ensures Tick(a, c).0.playing ==> Tick(a, c).0.nextFrameAt.value >= c.nextFrameAt.value + MIN_FRAME_DELAY
  {
  }

  lemma {:induction false} CatchUpKeepsValid(a: Animation, c: Cursor, now: nat, steps: nat)
    requires Valid(a, c)
    ensures Valid(a, CatchUpWithin(a, c, now, steps).0)
    decreases steps
  {
    if steps > 0 && !Settled(c, now) {
      TickKeepsValid(a, c);
      CatchUpKeepsValid(a, Tick(a, c).0, now, steps - 1);
    }
  }

  datatype Event = Toggled(at: nat) | Paused | Stepped(delta: int) | Advanced(at: nat)

  function Apply(a: Animation, c: Cursor, e: Event): Cursor
    requires Valid(a, c)
  {
    match e
    case Toggled(at) => Toggle(a, c, at)
    case Paused => Pause(c)
    case Stepped(delta) => StepBy(a, c, delta).0
    case Advanced(at) => Advance(a, c, at).0
  }

  /** Every event keeps the cursor valid, and after an advance no frame is overdue. */
  lemma EventKeepsValid(a: Animation, c: Cursor, e: Event)
    requires Valid(a, c)
    ensures Valid(a, Apply(a, c, e))
    ensures e.Advanced? ==> Settled(Apply(a, c, e), e.at)
  {
    if e.Advanced? {
      CatchUpKeepsValid(a, c, e.at, MaxSteps(a));
    }
  }

  /** Any interleaving of events, from the start of playback. */
  function Play(a: Animation, start: nat, events: seq<Event>): (c: Cursor)
    requires Decoded(a)
    ensures Valid(a, c)
  {
    if |events| == 0 then Start(a, start)
    else
      var before := Play(a, start, events[..|events| - 1]);
      EventKeepsValid(a, before, events[|events| - 1]);
      Apply(a, before, events[|events| - 1])
  }

  // ----- catching up without a bound

  /** How many frames fall due by `now`. */
  function DueFrames(a: Animation, c: Cursor, now: nat): nat
    requires Valid(a, c)
    decreases if c.playing && c.nextFrameAt.value <= now then now - c.nextFrameAt.value + 1 else 0
  {
    if Settled(c, now) then 0
    else
      TickKeepsValid(a, c);
      1 + DueFrames(a, Tick(a, c).0, now)
  }

  /** Within its bound, catching up shows exactly the due frames; beyond it, a frame is left overdue. */
  lemma {:induction false} CatchUpSettles(a: Animation, c: Cursor, now: nat, steps: nat)
    requires Valid(a, c)
    ensures Valid(a, CatchUpWithin(a, c, now, steps).0)
    ensures Settled(CatchUpWithin(a, c, now, steps).0, now) <==> DueFrames(a, c, now) <= steps
    decreases steps
  {
    if steps > 0 && !Settled(c, now) {
      TickKeepsValid(a, c);
      CatchUpSettles(a, Tick(a, c).0, now, steps - 1);
    }
  }

  /** An earlier poll splits the due frames in two and changes nothing else. */
  lemma {:induction false} EarlierPollSplits(a: Animation, c: Cursor, t1: nat, t2: nat, steps: nat)
    requires Valid(a, c) && t1 <= t2 && DueFrames(a, c, t2) <= steps
    ensures DueFrames(a, c, t1) <= steps
    ensures Valid(a, CatchUpWithin(a, c, t1, steps).0)
    ensures var (mid, early) := CatchUpWithin(a, c, t1, steps);
      var (end, late) := CatchUpWithin(a, mid, t2, steps);
      (end, early || late) == CatchUpWithin(a, c, t2, steps)
    decreases steps
  {
    if Settled(c, t1) {
      assert CatchUpWithin(a, c, t1, steps) == (c, false);
    } else {
      TickKeepsValid(a, c);
      var d := Tick(a, c).0;
      EarlierPollSplits(a, d, t1, t2, steps - 1);
      var mid := CatchUpWithin(a, d, t1, steps - 1).0;
      CatchUpSettles(a, d, t1, steps - 1);
      FewerDueLater(a, d, t1, t2, steps - 1);
      MoreStepsIdle(a, mid, t2, steps - 1);
    }
  }

  /** What is still due after an earlier poll is no more than was due before it. */
  lemma {:induction false} FewerDueLater(a: Animation, c: Cursor, t1: nat, t2: nat, steps: nat)
    requires Valid(a, c) && t1 <= t2
    ensures Valid(a, CatchUpWithin(a, c, t1, steps).0)
    ensures DueFrames(a, CatchUpWithin(a, c, t1, steps).0, t2) <= DueFrames(a, c, t2)
    decreases steps
  {
    if steps > 0 && !Settled(c, t1) {
      TickKeepsValid(a, c);
      FewerDueLater(a, Tick(a, c).0, t1, t2, steps - 1);
    }
  }

  /** Steps beyond the due frames are idle. */
  lemma {:induction false} MoreStepsIdle(a: Animation, c: Cursor, now: nat, steps: nat)
    requires Valid(a, c) && DueFrames(a, c, now) <= steps
    ensures CatchUpWithin(a, c, now, steps + 1) == CatchUpWithin(a, c, now, steps)
    decreases steps
  {
    if !Settled(c, now) {
      TickKeepsValid(a, c);
      MoreStepsIdle(a, Tick(a, c).0, now, steps - 1);
    }
  }

  // ----- polling

  /** Polling once more, at any earlier time, makes no difference to the state or to whether a frame changed. */
  ghost predicate PollingInsensitive(a: Animation, c: Cursor, t2: nat)
    requires Valid(a, c)
  {
    forall t1 {:trigger Advance(a, c, t1)} :: 0 <= t1 <= t2 ==>
      var (mid, early) := Advance(a, c, t1);
      Valid(a, mid) &&
      var (end, late) := Advance(a, mid, t2);
      (end, early || late) == Advance(a, c, t2)
  }

  lemma FewDueIsInsensitive(a: Animation, c: Cursor, t1: nat, t2: nat)
    requires Valid(a, c) && t1 <= t2 && DueFrames(a, c, t2) <= MaxSteps(a)
    ensures Valid(a, Advance(a, c, t1).0)
    ensures var (mid, early) := Advance(a, c, t1);
      var (end, late) := Advance(a, mid, t2);
      (end, early || late) == Advance(a, c, t2)
  {
    if c.playing {
      EarlierPollSplits(a, c, t1, t2, MaxSteps(a));
      CatchUpSettles(a, c, t1, MaxSteps(a));
      CatchUpSettles(a, c, t2, MaxSteps(a));
      var mid := CatchUpWithin(a, c, t1, MaxSteps(a)).0;
      FewerDueLater(a, c, t1, t2, MaxSteps(a));
      CatchUpSettles(a, mid, t2, MaxSteps(a));
      assert Advance(a, c, t1).0 == mid;
    }
  }

  /** Beyond the bound, a catch-up of k steps followed by one more is a catch-up of k + 1. */
  lemma {:induction false} OneStepMore(a: Animation, c: Cursor, now: nat, steps: nat)
    requires Valid(a, c) && DueFrames(a, c, now) > steps
    ensures var d := CatchUpWithin(a, c, now, steps).0;
      Valid(a, d) && !Settled(d, now) && CatchUpWithin(a, c, now, steps + 1).0 == Tick(a, d).0
    decreases steps
  {
    TickKeepsValid(a, c);
    if steps > 0 {
      OneStepMore(a, Tick(a, c).0, now, steps - 1);
    }
  }

  lemma TickMoves(a: Animation, c: Cursor)
    requires Valid(a, c) && c.playing
    ensures Tick(a, c).0.frameIndex != c.frameIndex || !Tick(a, c).0.playing
  {
  }

  /** With more frames due than the bound, polling at the first deadline ends elsewhere. */
  lemma ManyDueIsSensitive(a: Animation, c: Cursor, t2: nat)
    requires Valid(a, c) && DueFrames(a, c, t2) > MaxSteps(a)
    ensures !PollingInsensitive(a, c, t2)
  {
    var t1 := c.nextFrameAt.value;
    var steps := MaxSteps(a);
    TickKeepsValid(a, c);
    var first := Tick(a, c).0;
    assert CatchUpWithin(a, first, t1, steps - 1) == (first, false);
    assert CatchUpWithin(a, c, t1, steps).0 == first;
    assert Advance(a, c, t1).0 == first;
    OneStepMore(a, c, t2, steps);
    var direct := CatchUpWithin(a, c, t2, steps).0;
    var detour := CatchUpWithin(a, first, t2, steps).0;
    assert detour == CatchUpWithin(a, c, t2, steps + 1).0;
    TickMoves(a, direct);
    assert Advance(a, c, t2).0.frameIndex == direct.frameIndex && Advance(a, c, t2).0.playing;
    assert Advance(a, first, t2).0.frameIndex == detour.frameIndex;
    assert Advance(a, first, t2).0.playing == detour.playing;
  }

  /** Playback is insensitive to extra polls exactly while no more than the bounded number of frames is due. */
  lemma PollingTheorem(a: Animation, c: Cursor, t2: nat)
    requires Valid(a, c)
    ensures PollingInsensitive(a, c, t2) <==> DueFrames(a, c, t2) <= 2 * |a.delays|
  {
    if DueFrames(a, c, t2) <= 2 * |a.delays| {
      forall t1 | 0 <= t1 <= t2
        ensures Valid(a, Advance(a, c, t1).0)
        ensures var (mid, early) := Advance(a, c, t1);
          var (end, late) := Advance(a, mid, t2);
          (end, early || late) == Advance(a, c, t2)
      {
        FewDueIsInsensitive(a, c, t1, t2);
      }
    } else {
      ManyDueIsSensitive(a, c, t2);
    }
  }

  /** Two frames of 10 ms, polled after a second: a hundred are due, and polling in between ends elsewhere. */
  lemma LatePollIsSensitive()
    ensures var a := Animation([MIN_FRAME_DELAY, MIN_FRAME_DELAY], Infinite);
      Valid(a, Start(a, 0)) && DueFrames(a, Start(a, 0), 1_000_000_000) > 2 * |a.delays|
      && !PollingInsensitive(a, Start(a, 0), 1_000_000_000)
  {
    var a, now := Animation([MIN_FRAME_DELAY, MIN_FRAME_DELAY], Infinite), 1_000_000_000;
    var first := Cursor(0, 0, true, Some(10_000_000));
    var second := Cursor(1, 0, true, Some(20_000_000));
    var third := Cursor(0, 1, true, Some(30_000_000));
    var fourth := Cursor(1, 1, true, Some(40_000_000));
    var fifth := Cursor(0, 2, true, Some(50_000_000));
    hide DueFrames;
    OneDue(a, first, now);
    OneDue(a, second, now);
    OneDue(a, third, now);
    OneDue(a, fourth, now);
    OneDue(a, fifth, now);
    PollingTheorem(a, first, now);
  }

  lemma OneDue(a: Animation, c: Cursor, now: nat)
    requires Valid(a, c) && !Settled(c, now)
    ensures Valid(a, Tick(a, c).0) && DueFrames(a, c, now) == 1 + DueFrames(a, Tick(a, c).0, now)
  {
    TickKeepsValid(a, c);
  }

  // ----- many polls

  /** Advance at each of several times, in list order. */
  function AdvanceAll(a: Animation, c: Cursor, times: seq<nat>): (d: Cursor)
    requires Valid(a, c)
    ensures Valid(a, d)
  {
    if |times| == 0 then c
    else
      var before := AdvanceAll(a, c, times[..|times| - 1]);
      EventKeepsValid(a, before, Advanced(times[|times| - 1]));
      Advance(a, before, times[|times| - 1]).0
  }

  /** Some of those advances reported a changed frame. */
  function AnyChanged(a: Animation, c: Cursor, times: seq<nat>): bool
    requires Valid(a, c)
  {
    |times| > 0
    && (AnyChanged(a, c, times[..|times| - 1])
        || Advance(a, AdvanceAll(a, c, times[..|times| - 1]), times[|times| - 1]).1)
  }

  ghost predicate NoneAfter(times: seq<nat>, now: nat) {
    forall i :: 0 <= i < |times| ==> times[i] <= now
  }

  /** Any polls up to `t2` make no difference to what an advance to `t2` leaves and has reported. */
  ghost predicate PollsInsensitive(a: Animation, c: Cursor, t2: nat)
    requires Valid(a, c)
  {
    forall times :: NoneAfter(times, t2) ==>
      (Advance(a, AdvanceAll(a, c, times), t2).0,
       AnyChanged(a, c, times) || Advance(a, AdvanceAll(a, c, times), t2).1) == Advance(a, c, t2)
  }

  lemma FewDueStaysFew(a: Animation, c: Cursor, t1: nat, t2: nat)
    requires Valid(a, c) && t1 <= t2 && DueFrames(a, c, t2) <= MaxSteps(a)
    ensures Valid(a, Advance(a, c, t1).0) && DueFrames(a, Advance(a, c, t1).0, t2) <= MaxSteps(a)
  {
    if c.playing {
      EarlierPollSplits(a, c, t1, t2, MaxSteps(a));
      CatchUpSettles(a, c, t1, MaxSteps(a));
      FewerDueLater(a, c, t1, t2, MaxSteps(a));
    }
  }

  lemma {:induction false} PollsAddNothing(a: Animation, c: Cursor, times: seq<nat>, t2: nat)
    requires Valid(a, c) && NoneAfter(times, t2) && DueFrames(a, c, t2) <= MaxSteps(a)
    ensures var mid := AdvanceAll(a, c, times);
      && DueFrames(a, mid, t2) <= MaxSteps(a)
      && (Advance(a, mid, t2).0, AnyChanged(a, c, times) || Advance(a, mid, t2).1) == Advance(a, c, t2)
  {
    if |times| > 0 {
      hide Advance, DueFrames, Valid;
      var m := |times| - 1;
      PollsAddNothing(a, c, times[..m], t2);
      var before := AdvanceAll(a, c, times[..m]);
      FewDueIsInsensitive(a, before, times[m], t2);
      FewDueStaysFew(a, before, times[m], t2);
    }
  }

  /** Playback is insensitive to any number of polls exactly while no more than the bounded number of frames is due. */
  lemma PollsTheorem(a: Animation, c: Cursor, t2: nat)
    requires Valid(a, c)
    ensures PollsInsensitive(a, c, t2) <==> DueFrames(a, c, t2) <= 2 * |a.delays|
  {
    hide DueFrames, Advance;
    if DueFrames(a, c, t2) <= 2 * |a.delays| {
      forall times | NoneAfter(times, t2)
        ensures (Advance(a, AdvanceAll(a, c, times), t2).0,
                 AnyChanged(a, c, times) || Advance(a, AdvanceAll(a, c, times), t2).1) == Advance(a, c, t2)
      {
        PollsAddNothing(a, c, times, t2);
      }
    }
    PollingTheorem(a, c, t2);
    if PollsInsensitive(a, c, t2) {
      forall t1: nat | t1 <= t2
        ensures Valid(a, Advance(a, c, t1).0)
        ensures (Advance(a, Advance(a, c, t1).0, t2).0, Advance(a, c, t1).1 || Advance(a, Advance(a, c, t1).0, t2).1)
                == Advance(a, c, t2)
      {
        OnePoll(a, c, t1);
        assert NoneAfter([t1], t2);
      }
    }
  }

  lemma OnePoll(a: Animation, c: Cursor, t1: nat)
    requires Valid(a, c)
    ensures AdvanceAll(a, c, [t1]) == Advance(a, c, t1).0 && AnyChanged(a, c, [t1]) == Advance(a, c, t1).1
  {
    assert [t1][..0] == [];
    assert AdvanceAll(a, c, []) == c && !AnyChanged(a, c, []);
  }

  // ----- the schedule

  /** `k` due frames shown one after another. */
  function Ticks(a: Animation, c: Cursor, k: nat): (d: Cursor)
    requires Valid(a, c)
    ensures Valid(a, d)
  {
    if k == 0 then c
    else
      var before := Ticks(a, c, k - 1);
      if !before.playing then before
      else
        TickKeepsValid(a, before);
        Tick(a, before).0
  }

  /** The sum of the first `k` delays of one cycle. */
  function DelaysThrough(a: Animation, k: nat): nat
    requires k <= |a.delays|
  {
    if k == 0 then 0 else DelaysThrough(a, k - 1) + a.delays[k - 1]
  }

  function CycleLength(a: Animation): nat {
    DelaysThrough(a, |a.delays|)
  }

  /** One frame later in the cycle, or at the start of the next. */
  lemma TickInCycle(a: Animation, i: nat, q: nat, deadline: nat)
    requires Decoded(a) && i < |a.delays| && (a.repeat.Finite? ==> q < a.repeat.total)
    ensures var c := Cursor(i, Min(q, U32_MAX), true, Some(deadline));
      && (i + 1 < |a.delays| ==>
            Tick(a, c).0 == Cursor(i + 1, Min(q, U32_MAX), true, Some(deadline + a.delays[i + 1])))
      && (i + 1 == |a.delays| && (a.repeat.Finite? ==> q + 1 < a.repeat.total) ==>
            Tick(a, c).0 == Cursor(0, Min(q + 1, U32_MAX), true, Some(deadline + a.delays[0])))
  {
  }

  /** How many frames follow the first up to frame `r` of cycle `q`. */
  function FrameNumber(a: Animation, q: nat, r: nat): nat {
    q * |a.delays| + r
  }

  /** When frame `r` of cycle `q` is over: the start and every delay shown. */
  function DueAt(a: Animation, start: nat, q: nat, r: nat): nat
    requires r < |a.delays|
  {
    start + q * CycleLength(a) + DelaysThrough(a, r + 1)
  }

  lemma NextFrame(a: Animation, start: nat, q: nat, r: nat)
    requires Decoded(a) && r < |a.delays|
    ensures r + 1 < |a.delays| ==>
      FrameNumber(a, q, r + 1) == FrameNumber(a, q, r) + 1
      && DueAt(a, start, q, r + 1) == DueAt(a, start, q, r) + a.delays[r + 1]
    ensures r + 1 == |a.delays| ==>
      FrameNumber(a, q + 1, 0) == FrameNumber(a, q, r) + 1
      && DueAt(a, start, q + 1, 0) == DueAt(a, start, q, r) + a.delays[0]
  {
    OneMoreTimes(q, |a.delays|);
    OneMoreTimes(q, CycleLength(a));
    assert DelaysThrough(a, 1) == a.delays[0];
  }

  lemma FirstFrame(a: Animation, start: nat)
    requires Decoded(a)
    ensures FrameNumber(a, 0, 0) == 0 && DueAt(a, start, 0, 0) == start + a.delays[0]
  {
    assert 0 * |a.delays| == 0 && 0 * CycleLength(a) == 0;
    assert DelaysThrough(a, 1) == a.delays[0];
  }

  /**
    Without drift: while playback runs, q whole cycles and r frames after the start the
    cursor shows frame r, and its deadline is the start plus every delay shown.
   */
  lemma {:induction false} ScheduleHasNoDrift(a: Animation, start: nat, q: nat, r: nat)
    requires Decoded(a) && r < |a.delays|
    requires a.repeat.Finite? ==> q < a.repeat.total
    ensures Ticks(a, Start(a, start), FrameNumber(a, q, r))
            == Cursor(r, Min(q, U32_MAX), true, Some(DueAt(a, start, q, r)))
    decreases q, r
  {
    hide FrameNumber, DueAt, Tick;
    if r > 0 {
      ScheduleHasNoDrift(a, start, q, r - 1);
      NextFrame(a, start, q, r - 1);
      NextTick(a, start, FrameNumber(a, q, r - 1));
      TickInCycle(a, r - 1, q, DueAt(a, start, q, r - 1));
    } else if q > 0 {
      var n := |a.delays|;
      ScheduleHasNoDrift(a, start, q - 1, n - 1);
      NextFrame(a, start, q - 1, n - 1);
      NextTick(a, start, FrameNumber(a, q - 1, n - 1));
      TickInCycle(a, n - 1, q - 1, DueAt(a, start, q - 1, n - 1));
    } else {
      FirstFrame(a, start);
    }
  }

  lemma OneMoreTimes(q: nat, n: nat)
    ensures (q + 1) * n == q * n + n
  {
  }

  lemma NextTick(a: Animation, start: nat, k: nat)
    requires Decoded(a)
    ensures Ticks(a, Start(a, start), k).playing ==>
      Ticks(a, Start(a, start), k + 1) == Tick(a, Ticks(a, Start(a, start), k)).0
  {
  }

  /** Finite playback stops after its last cycle, on the last frame. */
  lemma FiniteScheduleStops(a: Animation, start: nat)
    requires Decoded(a) && a.repeat.Finite?
    ensures var n := |a.delays|;
      Ticks(a, Start(a, start), a.repeat.total * n) == Cursor(n - 1, a.repeat.total, false, None)
  {
    var n, q := |a.delays|, a.repeat.total - 1;
    OneMoreTimes(q, n);
    ScheduleHasNoDrift(a, start, q, n - 1);
    NextTick(a, start, FrameNumber(a, q, n - 1));
  }

  // ----- where an advance lands

  lemma {:induction false} TicksFromNext(a: Animation, c: Cursor, k: nat)
    requires Valid(a, c) && c.playing
    ensures Valid(a, Tick(a, c).0) && Ticks(a, c, k + 1) == Ticks(a, Tick(a, c).0, k)
  {
    TickKeepsValid(a, c);
    if k > 0 {
      TicksFromNext(a, c, k - 1);
    } else {
      assert Ticks(a, c, 0) == c;
    }
  }

  lemma {:induction false} StoppedStays(a: Animation, c: Cursor, k: nat)
    requires Valid(a, c) && !c.playing
    ensures Ticks(a, c, k) == c
  {
    if k > 0 {
      StoppedStays(a, c, k - 1);
    }
  }

  /** More than `k` frames are due exactly when, after `k` of them, playback runs and its deadline has come. */
  lemma {:induction false} DueExactly(a: Animation, c: Cursor, now: nat, k: nat)
    requires Valid(a, c)
    ensures k < DueFrames(a, c, now) <==> Ticks(a, c, k).playing && Ticks(a, c, k).nextFrameAt.value <= now
    decreases k
  {
    if !c.playing {
      StoppedStays(a, c, k);
    } else if k > 0 {
      TickKeepsValid(a, c);
      TicksFromNext(a, c, k - 1);
      DueExactly(a, Tick(a, c).0, now, k - 1);
    }
  }

  lemma {:induction false} CatchUpIsTicks(a: Animation, c: Cursor, now: nat, steps: nat)
    requires Valid(a, c)
    ensures CatchUpWithin(a, c, now, steps).0 == Ticks(a, c, Min(steps, DueFrames(a, c, now)))
    decreases steps
  {
    if steps > 0 && !Settled(c, now) {
      TickKeepsValid(a, c);
      CatchUpIsTicks(a, Tick(a, c).0, now, steps - 1);
      TicksFromNext(a, c, Min(steps - 1, DueFrames(a, Tick(a, c).0, now)));
    }
  }

  /** Some frame among the next `k` differs from the one before it. */
  ghost predicate FrameChanges(a: Animation, c: Cursor, k: nat)
    requires Valid(a, c)
  {
    exists i :: 0 <= i < k && Ticks(a, c, i).frameIndex != Ticks(a, c, i + 1).frameIndex
  }

  lemma TickChanges(a: Animation, c: Cursor)
    requires Valid(a, c) && c.playing
    ensures Tick(a, c).1 <==> Tick(a, c).0.frameIndex != c.frameIndex
  {
  }

  lemma FrameChangesFromNext(a: Animation, c: Cursor, k: nat)
    requires Valid(a, c) && c.playing
    ensures Valid(a, Tick(a, c).0)
    ensures FrameChanges(a, c, k + 1) <==> Tick(a, c).0.frameIndex != c.frameIndex || FrameChanges(a, Tick(a, c).0, k)
  {
    var d := Tick(a, c).0;
    hide Tick, Valid;
    TicksFromNext(a, c, 0);
    assert Ticks(a, c, 0) == c && Ticks(a, d, 0) == d;
    forall i | 0 <= i <= k + 1
      ensures i > 0 ==> Ticks(a, c, i) == Ticks(a, d, i - 1)
    {
      if i > 0 {
        TicksFromNext(a, c, i - 1);
      }
    }
    if FrameChanges(a, d, k) {
      var i :| 0 <= i < k && Ticks(a, d, i).frameIndex != Ticks(a, d, i + 1).frameIndex;
      assert Ticks(a, c, i + 1).frameIndex != Ticks(a, c, i + 2).frameIndex;
    }
  }

  lemma {:induction false} CatchUpReports(a: Animation, c: Cursor, now: nat, steps: nat)
    requires Valid(a, c)
    ensures CatchUpWithin(a, c, now, steps).1 <==> FrameChanges(a, c, Min(steps, DueFrames(a, c, now)))
    decreases steps
  {
    if steps > 0 && !Settled(c, now) {
      TickKeepsValid(a, c);
      TickChanges(a, c);
      CatchUpReports(a, Tick(a, c).0, now, steps - 1);
      FrameChangesFromNext(a, c, Min(steps - 1, DueFrames(a, Tick(a, c).0, now)));
    }
  }

  /**
    An advance shows every due frame, up to twice the frame count. With more due than
    that, the frame it ends on is shown for its whole delay from now; otherwise the
    deadline is the one the schedule gives. It reports whether the shown frame changed
    on the way.
   */
  lemma AdvanceLands(a: Animation, c: Cursor, now: nat)
    requires Valid(a, c)
    ensures var due, bound, d := DueFrames(a, c, now), 2 * |a.delays|, Advance(a, c, now).0;
      && (due <= bound ==> d == Ticks(a, c, due))
      && (due > bound ==>
            var e := Ticks(a, c, bound);
            d == Cursor(e.frameIndex, e.completedCycles, true, Some(now + a.delays[e.frameIndex])))
      && (Advance(a, c, now).1 <==> FrameChanges(a, c, Min(due, bound)))
  {
    var bound := 2 * |a.delays|;
    CatchUpIsTicks(a, c, now, bound);
    CatchUpReports(a, c, now, bound);
    CatchUpSettles(a, c, now, bound);
    DueExactly(a, c, now, bound);
    hide Ticks;
    if !c.playing {
      assert Ticks(a, c, 0) == c by { StoppedStays(a, c, 0); }
      assert DueFrames(a, c, now) == 0;
    }
  }

  /**
    A late poll in closed form: with more than two rounds of an animation due since its
    start, the poll shows frame 0 of the third cycle, if there is one, for its whole delay.
   */
  lemma LateStart(a: Animation, start: nat, now: nat)
    requires Decoded(a) && (a.repeat.Finite? ==> a.repeat.total > 2)
    requires now >= start + 2 * CycleLength(a) + a.delays[0]
    ensures Advance(a, Start(a, start), now).0 == Cursor(0, 2, true, Some(now + a.delays[0]))
  {
    var c, n := Start(a, start), |a.delays|;
    ScheduleHasNoDrift(a, start, 2, 0);
    assert FrameNumber(a, 2, 0) == 2 * n;
    assert DelaysThrough(a, 1) == a.delays[0];
    DueExactly(a, c, now, 2 * n);
    AdvanceLands(a, c, now);
  }

  // ----- frame changes over a whole run

  /** How many frame changes a bounded catch-up shows. */
  function Changes(a: Animation, c: Cursor, now: nat, steps: nat): nat
    requires Valid(a, c)
    decreases steps
  {
    if steps == 0 || Settled(c, now) then 0
    else
      TickKeepsValid(a, c);
      (if Tick(a, c).1 then 1 else 0) + Changes(a, Tick(a, c).0, now, steps - 1)
  }

  /** How many changes lead from the first frame to the one shown. */
  function Position(a: Animation, c: Cursor): int {
    if Finished(a, c) then a.repeat.total * |a.delays| - 1
    else c.completedCycles * |a.delays| + c.frameIndex
  }

  lemma TickPosition(a: Animation, c: Cursor)
    requires Valid(a, c) && c.playing && a.repeat.Finite?
    ensures Position(a, Tick(a, c).0) == Position(a, c) + (if Tick(a, c).1 then 1 else 0)
    ensures !Tick(a, c).0.playing ==> Tick(a, c).0.frameIndex == |a.delays| - 1 && Finished(a, Tick(a, c).0)
  {
    var n, k := |a.delays|, c.completedCycles;
    assert (k + 1) * n == k * n + n;
  }

  lemma {:induction false} CatchUpPosition(a: Animation, c: Cursor, now: nat, steps: nat)
    requires Valid(a, c) && a.repeat.Finite?
    ensures var d := CatchUpWithin(a, c, now, steps).0;
      && Position(a, d) == Position(a, c) + Changes(a, c, now, steps)
      && (c.playing && !d.playing ==> Finished(a, d) && d.frameIndex == |a.delays| - 1)
      && (CatchUpWithin(a, c, now, steps).1 <==> Changes(a, c, now, steps) > 0)
    decreases steps
  {
    if steps > 0 && !Settled(c, now) {
      TickKeepsValid(a, c);
      TickPosition(a, c);
      CatchUpPosition(a, Tick(a, c).0, now, steps - 1);
    }
  }

  function AllChanges(a: Animation, c: Cursor, times: seq<nat>): nat
    requires Valid(a, c)
  {
    if |times| == 0 then 0
    else
      var before := AdvanceAll(a, c, times[..|times| - 1]);
      AllChanges(a, c, times[..|times| - 1])
      + (if before.playing then Changes(a, before, times[|times| - 1], MaxSteps(a)) else 0)
  }

  /**
    A finite animation that is only advanced, at any times at all, has shown exactly
    as many changes as its position; stopped, that is one short of cycles times
    frames, and it rests on its last frame.
   */
  lemma {:induction false} FiniteRunChanges(a: Animation, start: nat, times: seq<nat>)
    requires Decoded(a) && a.repeat.Finite?
    ensures var c := AdvanceAll(a, Start(a, start), times);
      && AllChanges(a, Start(a, start), times) == Position(a, c)
      && (!c.playing ==> c.frameIndex == |a.delays| - 1)
      && (!c.playing ==> AllChanges(a, Start(a, start), times) == a.repeat.total * |a.delays| - 1)
  {
    if |times| > 0 {
      FiniteRunChanges(a, start, times[..|times| - 1]);
      var before := AdvanceAll(a, Start(a, start), times[..|times| - 1]);
      CatchUpPosition(a, before, times[|times| - 1], MaxSteps(a));
    } else {
      assert 0 * |a.delays| == 0;
    }
  }

  /** An advance at or after the deadline always shows another frame or stops. */
  lemma DueAdvanceProgresses(a: Animation, c: Cursor, now: nat)
    requires Valid(a, c) && a.repeat.Finite? && c.playing && c.nextFrameAt.value <= now
    ensures var d := Advance(a, c, now).0;
      Position(a, d) > Position(a, c) || !d.playing
  {
    CatchUpPosition(a, c, now, MaxSteps(a));
    TickKeepsValid(a, c);
    TickPosition(a, c);
    var d := Tick(a, c).0;
    if !Tick(a, c).1 {
      assert CatchUpWithin(a, d, now, MaxSteps(a) - 1) == (d, false);
    }
  }

  /** Every poll comes at or after the deadline then set. */
  ghost predicate AtDeadlines(a: Animation, c: Cursor, times: seq<nat>)
    requires Valid(a, c)
  {
    forall k :: 0 <= k < |times| ==>
      var d := AdvanceAll(a, c, times[..k]);
      d.playing ==> times[k] >= d.nextFrameAt.value
  }

  lemma {:induction false} EachPollProgresses(a: Animation, start: nat, times: seq<nat>)
    requires Decoded(a) && a.repeat.Finite? && AtDeadlines(a, Start(a, start), times)
    ensures var c := AdvanceAll(a, Start(a, start), times);
      c.playing ==> Position(a, c) >= |times|
  {
    if |times| > 0 {
      var m := |times| - 1;
      assert forall k :: 0 <= k <= m ==> times[..m][..k] == times[..k];
      EachPollProgresses(a, start, times[..m]);
      var before := AdvanceAll(a, Start(a, start), times[..m]);
      hide Advance, AdvanceAll, Position;
      AfterOnePoll(a, start, times);
      if before.playing {
        DueAdvanceProgresses(a, before, times[m]);
      }
    } else {
      assert 0 * |a.delays| == 0;
    }
  }

  lemma AfterOnePoll(a: Animation, start: nat, times: seq<nat>)
    requires Decoded(a) && |times| > 0
    ensures var before, m := AdvanceAll(a, Start(a, start), times[..|times| - 1]), |times| - 1;
      && AdvanceAll(a, Start(a, start), times) == Advance(a, before, times[m]).0
      && (!before.playing ==> !AdvanceAll(a, Start(a, start), times).playing)
  {
  }

  lemma CyclesFit(k: nat, total: nat, n: nat)
    requires k < total
    ensures k * n + n <= total * n
  {
    Grows(n, k + 1, total);
    Distributes(n, k, 1);
    Units(n);
  }

  lemma PlayingPosition(a: Animation, c: Cursor)
    requires Valid(a, c) && a.repeat.Finite? && c.playing
    ensures Position(a, c) < a.repeat.total * |a.delays|
  {
    CyclesFit(c.completedCycles, a.repeat.total, |a.delays|);
  }

  /**
    A finite animation polled at or after each of its deadlines has stopped within as
    many polls as it has frames to show, after exactly one change fewer, on its last frame.
   */
  lemma DueRunStops(a: Animation, start: nat, times: seq<nat>)
    requires Decoded(a) && a.repeat.Finite? && AtDeadlines(a, Start(a, start), times)
    requires |times| >= a.repeat.total * |a.delays|
    ensures var c := AdvanceAll(a, Start(a, start), times);
      && !c.playing && c.frameIndex == |a.delays| - 1
      && AllChanges(a, Start(a, start), times) == a.repeat.total * |a.delays| - 1
  {
    hide Advance, AdvanceAll, Position, AllChanges;
    var c := AdvanceAll(a, Start(a, start), times);
    EachPollProgresses(a, start, times);
    FiniteRunChanges(a, start, times);
    if c.playing {
      PlayingPosition(a, c);
    }
  }

  // ----- the playback object

  class AnimationPlayback {
    const animation: Animation
    var frameIndex: nat
    var completedCycles: nat
    var playing: bool
    var nextFrameAt: Option<nat>

    function Value(): Cursor
      reads this
    {
      Cursor(frameIndex, completedCycles, playing, nextFrameAt)
    }

    constructor (animation: Animation, now: nat)
      requires Decoded(animation)
      ensures this.animation == animation && Value() == Start(animation, now)
      ensures Valid(animation, Value())
    {
      this.animation := animation;
      frameIndex, completedCycles, playing := 0, 0, true;
      nextFrameAt := Some(now + animation.delays[0]);
    }

    method ToggleAt(now: nat)
      requires Valid(animation, Value())
      modifies this
      ensures Value() == Toggle(animation, old(Value()), now) && Valid(animation, Value())
    {
      if playing {
        playing, nextFrameAt := false, None;
        return;
      }
      if Finished(animation, Value()) {
        frameIndex, completedCycles := 0, 0;
      }
      playing := true;
      nextFrameAt := Some(now + animation.delays[frameIndex]);
    }

    method PauseNow()
      requires Valid(animation, Value())
      modifies this
      ensures Value() == Pause(old(Value())) && Valid(animation, Value())
    {
      playing, nextFrameAt := false, None;
    }

    /** Stop the clock and show the frame `delta` away, if there is one. */
    method Step(delta: int) returns (moved: bool)
      requires Valid(animation, Value())
      modifies this
      ensures (Value(), moved) == StepBy(animation, old(Value()), delta) && Valid(animation, Value())
    {
      PauseNow();
      match SteppedIndex(frameIndex, delta, |animation.delays|) {
        case None =>
          moved := false;
        case Some(next) =>
          frameIndex, moved := next, true;
      }
    }

    method MoveOne() returns (changed: bool)
      requires Valid(animation, Value())
      modifies this
      ensures (Value(), changed) == AdvanceOne(animation, old(Value()))
    {
      if frameIndex + 1 < |animation.delays| {
        frameIndex := frameIndex + 1;
        return true;
      }
      completedCycles := Min(completedCycles + 1, U32_MAX);
      if Finished(animation, Value()) {
        playing := false;
        return false;
      }
      frameIndex := 0;
      changed := true;
    }

    /** Show the due frames in order, as many as the bound allows; nothing is overdue afterwards. */
    method AdvanceTo(now: nat) returns (changed: bool)
      requires Valid(animation, Value())
      modifies this
      ensures (Value(), changed) == Advance(animation, old(Value()), now)
      ensures Valid(animation, Value()) && Settled(Value(), now)
    {
      EventKeepsValid(animation, Value(), Advanced(now));
      if !playing {
        return false;
      }
      changed := false;
      var maxSteps := MaxSteps(animation);
      ghost var goal := CatchUpWithin(animation, Value(), now, maxSteps);
      var step := 0;
      while step < maxSteps && nextFrameAt.Some? && nextFrameAt.value <= now
        invariant step <= maxSteps && Valid(animation, Value())
        invariant var (end, later) := CatchUpWithin(animation, Value(), now, maxSteps - step);
          (end, changed || later) == goal
      {
        var deadline := nextFrameAt.value;
        TickKeepsValid(animation, Value());
        var moved := MoveOne();
        changed := changed || moved;
        if playing {
          nextFrameAt := Some(deadline + animation.delays[frameIndex]);
        } else {
          nextFrameAt := None;
        }
        step := step + 1;
      }
      if nextFrameAt.Some? && nextFrameAt.value <= now {
        nextFrameAt := Some(now + animation.delays[frameIndex]);
      }
    }
  }
}
