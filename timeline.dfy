/** The undo history both screens keep: a list of grid snapshots and a cursor
    (`history`, `historyIndex`), as values. */
module Timeline {
  import opened Grids

  datatype History = History(snapshots: seq<Grid>, index: int)

  /** The cursor points into the list. */
  predicate Valid(h: History)
  {
    0 <= h.index < |h.snapshots|
  }

  /** The undo button is enabled (`disabled={historyIndex <= 0}`). */
  predicate CanUndo(h: History)
  {
    h.index > 0
  }

  /** The redo button is enabled (`disabled={historyIndex >= history.length - 1}`). */
  predicate CanRedo(h: History)
  {
    h.index < |h.snapshots| - 1
  }

  function Current(h: History): Grid
    requires Valid(h)
  {
    h.snapshots[h.index]
  }

  /** `setHistory([g]); setHistoryIndex(0)`: a one-entry history. */
  function Start(g: Grid): (h: History)
    ensures Valid(h) && Current(h) == g && |h.snapshots| == 1
    ensures !CanUndo(h) && !CanRedo(h)
  {
    History([g], 0)
  }

  /** `addToHistory`: keep the entries up to the cursor, append `g`, and move
      the cursor to the new last entry. */
  function Commit(h: History, g: Grid): (r: History)
    requires Valid(h)
    ensures Valid(r) && Current(r) == g
    ensures !CanRedo(r) && CanUndo(r)
    ensures |r.snapshots| == h.index + 2 <= |h.snapshots| + 1
    ensures r.snapshots[..h.index + 1] == h.snapshots[..h.index + 1]
  {
    var kept := h.snapshots[..h.index + 1] + [g];
    History(kept, |kept| - 1)
  }

  /** `undo`: step the cursor back when it is not at the oldest entry. */
  function Undo(h: History): (r: History)
    ensures r.snapshots == h.snapshots
    ensures CanUndo(h) ==> r.index == h.index - 1
    ensures !CanUndo(h) ==> r == h
    ensures Valid(h) ==> Valid(r)
  {
    if h.index > 0 then History(h.snapshots, h.index - 1) else h
  }

  /** `redo`: step the cursor forward when it is not at the newest entry. */
  function Redo(h: History): (r: History)
    ensures r.snapshots == h.snapshots
    ensures CanRedo(h) ==> r.index == h.index + 1
    ensures !CanRedo(h) ==> r == h
    ensures Valid(h) ==> Valid(r)
  {
    if h.index < |h.snapshots| - 1 then History(h.snapshots, h.index + 1) else h
  }

  /** Undo then redo restores the cursor and the list. */
  lemma RedoAfterUndo(h: History)
    requires Valid(h) && CanUndo(h)
    ensures CanRedo(Undo(h)) && Redo(Undo(h)) == h
  {
  }

  /** Redo then undo restores the cursor and the list. */
  lemma UndoAfterRedo(h: History)
    requires Valid(h) && CanRedo(h)
    ensures CanUndo(Redo(h)) && Undo(Redo(h)) == h
  {
  }

  /** After a commit, redo has nothing left to bring back. */
  lemma CommitPrunesRedo(h: History, g: Grid)
    requires Valid(h)
    ensures Redo(Commit(h, g)) == Commit(h, g)
  {
  }

  /** An undo right after a commit shows the entry the cursor was on before,
      so a commit (a Clear on the second screen, say) can be taken back. */
  lemma UndoAfterCommit(h: History, g: Grid)
    requires Valid(h)
    ensures Current(Undo(Commit(h, g))) == Current(h)
    ensures Undo(Commit(h, g)).index == h.index
  {
    var r := Commit(h, g);
    assert r.snapshots[h.index] == r.snapshots[..h.index + 1][h.index];
  }

  /** Commit A, B, C, undo, commit D: the list is A, B, D and C is gone. */
  lemma BranchIsPruned(a: Grid, b: Grid, c: Grid, d: Grid)
    ensures var h := Commit(Commit(Start(a), b), c);
            var r := Commit(Undo(h), d);
            r.snapshots == [a, b, d] && Current(r) == d && !CanRedo(r)
  {
    var h := Commit(Commit(Start(a), b), c);
    assert h.snapshots == [a, b, c];
    assert Undo(h).snapshots[..2] == [a, b];
  }

  /** `k` presses of undo. */
  function UndoTimes(h: History, k: nat): (r: History)
    ensures r.snapshots == h.snapshots
    ensures r.index == if h.index - k > 0 then h.index - k else if h.index > 0 then 0 else h.index
  {
    if k == 0 then h else Undo(UndoTimes(h, k - 1))
  }

  /** `k` presses of redo. */
  function RedoTimes(h: History, k: nat): (r: History)
    ensures r.snapshots == h.snapshots
    ensures r.index == if h.index + k < |h.snapshots| - 1 then h.index + k
                       else if h.index < |h.snapshots| - 1 then |h.snapshots| - 1 else h.index
  {
    if k == 0 then h else Redo(RedoTimes(h, k - 1))
  }

  /** `k` undos followed by `k` redos come back to the same history, as long
      as the undos did not hit the oldest entry. */
  lemma RedoTimesAfterUndoTimes(h: History, k: nat)
    requires Valid(h) && k <= h.index
    ensures RedoTimes(UndoTimes(h, k), k) == h
  {
  }

  /** After a commit no number of redos changes anything. */
  lemma RedoTimesAfterCommit(h: History, g: Grid, k: nat)
    requires Valid(h)
    ensures RedoTimes(Commit(h, g), k) == Commit(h, g)
  {
  }
}
