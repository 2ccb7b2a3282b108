/**
  Moves to the Trash on their way.

  An entry leaves the playlist when its move is submitted, with the index it had
  then; the undo record is written only when the move finishes, and further moves
  may queue behind it. The settled list is the playlist with every entry on its way
  put back where it was. Submitting a move does not change it, and a move that
  finishes changes it as if the entry had left only then.
 */
module TrashQueue {
  import opened Arith
  import opened Wrappers
  import opened IndexLists
  import opened TrashRecords

  /** A submitted move: the entry and the index it was taken from. */
  datatype Removal = Removal(path: Path, index: nat)

  /** The playlist with the moves put back, the one submitted first outermost. */
  function Settled(playlist: seq<Path>, moves: seq<Removal>): seq<Path>
    decreases |moves|
  {
    if |moves| == 0 then playlist
    else
      var later := Settled(playlist, moves[1..]);
      InsertAt(later, Min(moves[0].index, |later|), moves[0].path)
  }

  /** Every index was one of the list its entry was taken from. */
  ghost predicate Submitted(playlist: seq<Path>, moves: seq<Removal>) {
    forall m :: 0 <= m < |moves| ==> moves[m].index <= |playlist| + (|moves| - 1 - m)
  }

  lemma {:induction false} SettledLength(playlist: seq<Path>, moves: seq<Removal>)
    ensures |Settled(playlist, moves)| == |playlist| + |moves|
  {
    if |moves| > 0 {
      SettledLength(playlist, moves[1..]);
    }
  }

  lemma InsertUndoesRemoval(s: seq<Path>, position: nat)
    requires position < |s|
    ensures |Without(s, [position])| == |s| - 1
    ensures InsertAt(Without(s, [position]), position, s[position]) == s
  {
    WithoutNothing(s);
    assert Rank([], position) == position;
    PutBack(s, [position], [], position);
    WithoutLength(s, [position]);
    assert CountBelow([position], |s|) == 1;
  }

  lemma RemovalUndoesInsert(s: seq<Path>, position: nat, path: Path)
    requires position <= |s|
    ensures Without(InsertAt(s, position, path), [position]) == s
    ensures InsertAt(s, position, path)[position] == path
  {
    var t := InsertAt(s, position, path);
    assert t == s[..position] + [path] + s[position..];
    InsertUndoesRemoval(t, position);
    var w := Without(t, [position]);
    assert w[..position] == t[..position] == s[..position];
    assert w[position..] == t[position + 1..] == s[position..];
    assert w == w[..position] + w[position..] && s == s[..position] + s[position..];
  }

  /** Taking an entry out of the playlist and queueing its move leaves the settled list as it was. */
  lemma {:induction false} SubmitKeepsSettled(playlist: seq<Path>, moves: seq<Removal>, position: nat)
    requires position < |playlist| && Submitted(playlist, moves)
    ensures var after := moves + [Removal(playlist[position], position)];
      && Submitted(Without(playlist, [position]), after)
      && Settled(Without(playlist, [position]), after) == Settled(playlist, moves)
    decreases |moves|
  {
    var left, move := Without(playlist, [position]), Removal(playlist[position], position);
    InsertUndoesRemoval(playlist, position);
    if |moves| == 0 {
      assert [move][1..] == [];
      assert [] + [move] == [move];
      assert Settled(left, []) == left;
    } else {
      assert (moves + [move])[1..] == moves[1..] + [move];
      assert Submitted(playlist, moves[1..]) by {
        assert forall m :: 0 <= m < |moves[1..]| ==> moves[1..][m] == moves[m + 1];
      }
      SubmitKeepsSettled(playlist, moves[1..], position);
    }
  }

  /** The move submitted first, once done, has left the settled list at its own index. */
  lemma FinishTakesOut(playlist: seq<Path>, moves: seq<Removal>)
    requires |moves| > 0 && Submitted(playlist, moves)
    ensures Submitted(playlist, moves[1..])
    ensures var s := Settled(playlist, moves);
      && moves[0].index < |s| && s[moves[0].index] == moves[0].path
      && Settled(playlist, moves[1..]) == Without(s, [moves[0].index])
  {
    assert forall m :: 0 <= m < |moves[1..]| ==> moves[1..][m] == moves[m + 1];
    SettledLength(playlist, moves[1..]);
    RemovalUndoesInsert(Settled(playlist, moves[1..]), moves[0].index, moves[0].path);
  }

  /** With no move on its way the settled list is the playlist. */
  lemma NothingMoving(playlist: seq<Path>)
    ensures Settled(playlist, []) == playlist && Submitted(playlist, [])
  {
  }

  /** With no move on its way a restore is the restore of the playlist. */
  lemma RestoreSteps(playlist: seq<Path>, pending: seq<Record>, attempts: seq<Attempt>)
    requires |attempts| == |pending|
    ensures var u, outcome := Undo(Settled(playlist, []), pending), Partition(pending, attempts);
      && Enabled(u, Restore(attempts))
      && Step(u, Restore(attempts)) ==
         Undo(Settled(Reinsert(playlist, SortByIndex(outcome.restored), outcome.failures), []), TakeRetryable(outcome.failures))
  {
    hide Partition, Reinsert, TakeRetryable, SortByIndex;
  }

  /** What a finished move does to the settled list and the pending records. */
  function FinishEvent(move: Removal, receipt: Option<TrashReceipt>): Event {
    match receipt
    case Some(r) => Trash(move.index, r)
    case None => Remove([move.index])
  }

  lemma NothingRebased(removed: seq<nat>)
    ensures RebasedAfterRemovals([], removed) == []
  {
  }

  /** Writing the undo record when a move finishes is, on the settled list, trashing or removing the entry then. */
  lemma FinishSteps(playlist: seq<Path>, moves: seq<Removal>, pending: seq<Record>, receipt: Option<TrashReceipt>)
    requires |moves| > 0 && Submitted(playlist, moves)
    requires receipt.Some? ==> receipt.value.originalPath == moves[0].path
    ensures var u, index := Undo(Settled(playlist, moves), pending), moves[0].index;
      var after := match receipt
        case Some(r) => [Record(r, index)]
        case None => RebasedAfterRemovals(pending, [index]);
      && Enabled(u, FinishEvent(moves[0], receipt))
      && Step(u, FinishEvent(moves[0], receipt)) == Undo(Settled(playlist, moves[1..]), after)
  {
    hide Settled, Submitted, RebasedAfterRemovals, Without;
    FinishTakesOut(playlist, moves);
  }
}
