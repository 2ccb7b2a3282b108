/**
  Whole sessions of trashing and undoing: moves submitted, finished and failed,
  restores and removals, in any order the application allows.
 */
module TrashRuns {
  import opened Wrappers
  import opened IndexLists
  import opened TrashRecords
  import opened TrashQueue
  import opened TrashRevert

  /** The playlist, the moves on their way, and the pending records. */
  datatype Moving = Moving(playlist: seq<Path>, moves: seq<Removal>, pending: seq<Record>)

  datatype SessionEvent =
    | Submit(position: nat)
    | Finish(receipt: Option<TrashReceipt>)
    | Abandon
    | RestoreAll(attempts: seq<Attempt>)
    | RemoveLive(positions: seq<nat>)

  /** Restores and removals wait until no move is on its way. */
  ghost predicate Possible(s: Moving, e: SessionEvent) {
    match e
    case Submit(position) => position < |s.playlist|
    case Finish(receipt) => s.moves != [] && (receipt.Some? ==> receipt.value.originalPath == s.moves[0].path)
    case Abandon => true
    case RestoreAll(attempts) => s.moves == [] && |attempts| == |s.pending|
    case RemoveLive(positions) => s.moves == [] && Distinct(positions) && InRange(positions, |s.playlist|)
  }

  ghost function After(s: Moving, e: SessionEvent): Moving
    requires Possible(s, e)
  {
    match e
    case Submit(position) =>
      Moving(Without(s.playlist, [position]), s.moves + [Removal(s.playlist[position], position)], s.pending)
    case Finish(receipt) =>
      var index := s.moves[0].index;
      Moving(s.playlist, s.moves[1..], match receipt
        case Some(r) => [Record(r, index)]
        case None => RebasedAfterRemovals(s.pending, [index]))
    case Abandon => Moving(RevertAll(s.playlist, s.moves), [], s.pending)
    case RestoreAll(attempts) =>
      var outcome := Partition(s.pending, attempts);
      Moving(Reinsert(s.playlist, SortByIndex(outcome.restored), outcome.failures), [], TakeRetryable(outcome.failures))
    case RemoveLive(positions) =>
      Moving(Without(s.playlist, positions), [], RebasedAfterRemovals(s.pending, positions))
  }

  /** The session as `TrashRecords` sees it. */
  ghost function View(s: Moving): Undo {
    Undo(Settled(s.playlist, s.moves), s.pending)
  }

  /** The settled list is the base list less the pending slots. */
  ghost predicate Sound(base: seq<Path>, s: Moving) {
    Submitted(s.playlist, s.moves) && Inv(base, View(s))
  }

  /** What the event does to the settled list; submissions and failures are no event there. */
  ghost function SettledEvent(s: Moving, e: SessionEvent): Option<Event>
    requires Possible(s, e)
  {
    match e
    case Submit(_) => None
    case Finish(receipt) => Some(FinishEvent(s.moves[0], receipt))
    case Abandon => None
    case RestoreAll(attempts) => Some(Restore(attempts))
    case RemoveLive(positions) => Some(Remove(positions))
  }

  /** The settled list and the pending records make exactly that step, or stay; a failure may reorder. */
  lemma Simulates(s: Moving, e: SessionEvent)
    requires Possible(s, e) && Submitted(s.playlist, s.moves)
    ensures Submitted(After(s, e).playlist, After(s, e).moves)
    ensures SettledEvent(s, e).Some? ==>
      Enabled(View(s), SettledEvent(s, e).value) && View(After(s, e)) == Step(View(s), SettledEvent(s, e).value)
    ensures e.Submit? ==> View(After(s, e)) == View(s)
    ensures e.Abandon? ==> View(After(s, e)) == Undo(RevertAll(s.playlist, s.moves), s.pending)
  {
    hide Settled, Submitted, RevertAll, Partition, Reinsert, SortByIndex, TakeRetryable, RebasedAfterRemovals, Without;
    match e
    case Submit(position) => SubmitKeepsSettled(s.playlist, s.moves, position);
    case Finish(receipt) =>
      FinishTakesOut(s.playlist, s.moves);
      FinishSteps(s.playlist, s.moves, s.pending, receipt);
    case Abandon => NothingMoving(RevertAll(s.playlist, s.moves));
    case RestoreAll(attempts) =>
      RestoreSteps(s.playlist, s.pending, attempts);
      NothingMoving(After(s, e).playlist);
    case RemoveLive(positions) =>
      NothingMoving(s.playlist);
      NothingMoving(After(s, e).playlist);
  }

  /** The paths an event gives up for good: superseded, moved away without a receipt, dropped, or removed. */
  ghost function LostBy(s: Moving, e: SessionEvent): multiset<Path>
    requires Possible(s, e)
  {
    match e
    case Submit(_) => multiset{}
    case Finish(receipt) => if receipt.Some? then multiset(Paths(s.pending)) else multiset{s.moves[0].path}
    case Abandon => multiset{}
    case RestoreAll(attempts) => multiset(Paths(DroppedRecords(Partition(s.pending, attempts).failures)))
    case RemoveLive(positions) => multiset(Picked(s.playlist, positions))
  }

  lemma LostAlike(s: Moving, e: SessionEvent)
    requires Possible(s, e) && Submitted(s.playlist, s.moves) && SettledEvent(s, e).Some?
    requires Enabled(View(s), SettledEvent(s, e).value)
    ensures LostBy(s, e) == Lost(View(s), SettledEvent(s, e).value)
  {
    hide Partition, DroppedRecords, Submitted;
    match e
    case Finish(receipt) =>
      if receipt.None? {
        FinishTakesOut(s.playlist, s.moves);
        hide Settled;
        assert Picked(View(s).playlist, [s.moves[0].index]) == [s.moves[0].path];
      }
    case RemoveLive(positions) => NothingMoving(s.playlist);
    case _ =>
  }

  /** The event keeps the order of the list: it is no failure, or one whose moves all come back in order. */
  ghost predicate KeepsOrder(s: Moving, e: SessionEvent) {
    e.Abandon? ==> InOrder(s.playlist, s.moves)
  }

  lemma WholeEmbeds(base: seq<Path>)
    ensures Embeds(base, base, Positions(|base|))
  {
  }

  lemma ViewIsDistinct(base: seq<Path>, s: Moving)
    requires Sound(base, s) && Distinct(base)
    ensures Distinct(Settled(s.playlist, s.moves))
  {
    hide Distinct, Settled, Submitted;
    WithoutIsDistinct(base, Indices(s.pending));
  }

  /** One event takes what it gives up out of the base list, and keeps the rest, in order unless a failure reorders it. */
  lemma OneEvent(base: seq<Path>, s: Moving, e: SessionEvent) returns (next: seq<Path>, at: seq<nat>)
    requires Sound(base, s) && Possible(s, e) && (e.Abandon? ==> Distinct(base))
    ensures Sound(next, After(s, e))
    ensures multiset(base) == multiset(next) + LostBy(s, e)
    ensures KeepsOrder(s, e) ==> Embeds(next, base, at)
  {
    hide Possible, After, Settled, Submitted, Inv, Step, Enabled, Lost, LostSlots, InOrder, Embeds, Distinct;
    Simulates(s, e);
    next, at := base, Positions(|base|);
    WholeEmbeds(base);
    if SettledEvent(s, e).Some? {
      var event := SettledEvent(s, e).value;
      StepKeepsInv(base, View(s), event);
      StepConserves(base, View(s), event);
      LostAlike(s, e);
      KeptEmbeds(base, LostSlots(base, View(s), event));
      next := Without(base, LostSlots(base, View(s), event));
      at := Kept(|base|, LostSlots(base, View(s), event));
    } else if e.Abandon? {
      ViewIsDistinct(base, s);
      next := FailureKeepsInv(base, s.playlist, s.moves, s.pending);
    }
  }

  // ----- whole sessions

  ghost predicate SessionRun(states: seq<Moving>, events: seq<SessionEvent>) {
    && |states| == |events| + 1
    && forall i :: 0 <= i < |events| ==> Possible(states[i], events[i]) && states[i + 1] == After(states[i], events[i])
  }

  ghost predicate AllKeepOrder(states: seq<Moving>, events: seq<SessionEvent>)
    requires |states| == |events| + 1
  {
    forall i :: 0 <= i < |events| ==> KeepsOrder(states[i], events[i])
  }

  lemma ShorterRun(states: seq<Moving>, events: seq<SessionEvent>)
    requires SessionRun(states, events) && |events| > 0
    ensures var m := |events| - 1;
      && SessionRun(states[..m + 1], events[..m]) && states[..m + 1][0] == states[0] && states[..m + 1][m] == states[m]
      && Possible(states[m], events[m]) && states[m + 1] == After(states[m], events[m])
      && (AllKeepOrder(states, events) ==> AllKeepOrder(states[..m + 1], events[..m]) && KeepsOrder(states[m], events[m]))
  {
    hide Possible, After, KeepsOrder;
    var m := |events| - 1;
    var shorter := states[..m + 1];
    assert forall i {:trigger shorter[i]} :: 0 <= i < m + 1 ==> shorter[i] == states[i];
    assert states[m + 1] == After(states[m], events[m]);
  }

  ghost function LostInSession(states: seq<Moving>, events: seq<SessionEvent>): multiset<Path>
    requires SessionRun(states, events)
    decreases |events|
  {
    if |events| == 0 then multiset{}
    else
      var m := |events| - 1;
      ShorterRun(states, events);
      LostInSession(states[..m + 1], events[..m]) + LostBy(states[m], events[m])
  }

  lemma StillDistinct(original: seq<Path>, earlier: seq<Path>, lost: multiset<Path>)
    requires multiset(original) == multiset(earlier) + lost && Distinct(original)
    ensures Distinct(earlier)
  {
    DistinctByMultiset(original, earlier);
  }

  /** One more event at the end of a session. */
  lemma OneMoreInSession(
    original: seq<Path>, earlier: seq<Path>, earlierAt: seq<nat>, lost: multiset<Path>, s: Moving, e: SessionEvent
  ) returns (base: seq<Path>, at: seq<nat>)
    requires Sound(earlier, s) && Possible(s, e) && (e.Abandon? ==> Distinct(original))
    requires multiset(original) == multiset(earlier) + lost
    ensures Sound(base, After(s, e)) && multiset(original) == multiset(base) + (lost + LostBy(s, e))
    ensures Embeds(earlier, original, earlierAt) && KeepsOrder(s, e) ==> Embeds(base, original, at)
  {
    hide Sound, Possible, After, LostBy, KeepsOrder, Embeds, Distinct;
    if e.Abandon? {
      StillDistinct(original, earlier, lost);
    }
    base, at := OneEvent(earlier, s, e);
    if Embeds(earlier, original, earlierAt) && KeepsOrder(s, e) {
      at := EmbedsTrans(base, earlier, original, at, earlierAt);
    }
  }

  /**
    After any session the settled list is some base list less exactly the pending slots,
    and the original list holds the base list and what was given up, nothing else. When
    every failure in the session put its moves back in order, the base list is in the
    order of the original.
   */
  lemma {:induction false} SessionKeepsEntries(original: seq<Path>, states: seq<Moving>, events: seq<SessionEvent>)
    returns (base: seq<Path>, at: seq<nat>)
    requires SessionRun(states, events) && Sound(original, states[0])
    requires forall i :: 0 <= i < |events| && events[i].Abandon? ==> Distinct(original)
    ensures Sound(base, states[|events|])
    ensures multiset(original) == multiset(base) + LostInSession(states, events)
    ensures AllKeepOrder(states, events) ==> Embeds(base, original, at)
  {
    if |events| == 0 {
      WholeEmbeds(original);
      base, at := original, Positions(|original|);
    } else {
      hide SessionRun, Sound, Possible, After, Embeds, Distinct, AllKeepOrder, KeepsOrder, LostBy;
      var m := |events| - 1;
      ShorterRun(states, events);
      var earlier, earlierAt := SessionKeepsEntries(original, states[..m + 1], events[..m]);
      var lost := LostInSession(states[..m + 1], events[..m]);
      base, at := OneMoreInSession(original, earlier, earlierAt, lost, states[m], events[m]);
    }
  }

  /**
    Once no move is on its way and nothing is pending, the playlist holds the original
    entries less exactly what was given up, in the original order if every failure was
    in order.
   */
  lemma SessionAtRest(original: seq<Path>, states: seq<Moving>, events: seq<SessionEvent>) returns (at: seq<nat>)
    requires SessionRun(states, events) && Sound(original, states[0])
    requires forall i :: 0 <= i < |events| && events[i].Abandon? ==> Distinct(original)
    requires states[|events|].moves == [] && states[|events|].pending == []
    ensures multiset(original) == multiset(states[|events|].playlist) + LostInSession(states, events)
    ensures AllKeepOrder(states, events) ==> Embeds(states[|events|].playlist, original, at)
  {
    var base;
    base, at := SessionKeepsEntries(original, states, events);
    hide SessionRun, AllKeepOrder, LostInSession, Embeds;
    var last := states[|events|];
    NothingMoving(last.playlist);
    assert Indices(last.pending) == [];
    WithoutNothing(base);
  }
}
