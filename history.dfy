/**
 * The undo/redo history of src/widgets/Canvas.js: a list of grid snapshots and the
 * index of the one the canvas shows, capped at thirty entries.
 */
module HistoryStore {
  import opened Grids

  /** At most this many snapshots are kept (Canvas.js line 53). */
  const Capacity: nat := 30

  datatype History = History(entries: seq<Grid>, index: int)

  /** The index points at an entry and the cap is respected. */
  predicate Valid(h: History)
  {
    0 <= h.index < |h.entries| <= Capacity
  }

  /** The snapshot the index points at. */
  function Current(h: History): Grid
    requires 0 <= h.index < |h.entries|
  {
    h.entries[h.index]
  }

  /** What a fresh canvas holds: the one snapshot `g` at index 0 (Canvas.js lines 43-44). */
  function Initial(g: Grid): (h: History)
    ensures Valid(h) && Current(h) == g
  {
    History([g], 0)
  }

  /**
   * `saveToHistory`: drop the redo branch after the index, append `g`, evict the
   * oldest entry when the list grows past the cap, and point at the new last entry.
   */
  function Save(h: History, g: Grid): (r: History)
    requires 0 <= h.index < |h.entries|
    ensures 0 <= r.index == |r.entries| - 1 && Current(r) == g
  {
    var kept := h.entries[..h.index + 1] + [g];
    var entries := if |kept| > Capacity then kept[1..] else kept;
    History(entries, |entries| - 1)
  }

  /**
   * `undo`: step back one entry, or nothing at index 0. The entries never change and a
   * valid history stays valid; `BoundariesAreNoOps` and `StepsMoveByOne` say by how much
   * the index moves.
   */
  function Undo(h: History): (r: History)
    ensures r.entries == h.entries && (Valid(h) ==> Valid(r))
    ensures r.index == h.index || r.index == h.index - 1
  {
    if h.index > 0 then h.(index := h.index - 1) else h
  }

  /**
   * `redo`: step forward one entry, or nothing at the last index. The entries never
   * change and a valid history stays valid.
   */
  function Redo(h: History): (r: History)
    ensures r.entries == h.entries && (Valid(h) ==> Valid(r))
    ensures r.index == h.index || r.index == h.index + 1
  {
    if h.index < |h.entries| - 1 then h.(index := h.index + 1) else h
  }

  /** A commit keeps the history within its cap and makes `g` the current entry. */
  lemma SaveKeepsValid(h: History, g: Grid)
    requires Valid(h)
    ensures Valid(Save(h, g)) && Current(Save(h, g)) == g
  {
  }

  /**
   * A commit keeps the entries up to the index, in order, and discards those after it;
   * the oldest entry is evicted exactly when the list would reach thirty-one entries.
   */
  lemma SaveKeepsPrefix(h: History, g: Grid)
    requires Valid(h)
    ensures var r := Save(h, g);
      var evicted := h.index + 2 > Capacity;
      |r.entries| == (if evicted then Capacity else h.index + 2) &&
      forall k :: 0 <= k < r.index ==>
        r.entries[k] == h.entries[if evicted then k + 1 else k]
  {
  }

  /** Undo at index 0 and redo at the last index change nothing. */
  lemma BoundariesAreNoOps(h: History)
    ensures h.index <= 0 ==> Undo(h) == h
    ensures h.index >= |h.entries| - 1 ==> Redo(h) == h
  {
  }

  /**
   * An effective undo or redo moves the index by exactly one, keeps the entries,
   * and keeps the history valid.
   */
  lemma StepsMoveByOne(h: History)
    requires Valid(h)
    ensures Undo(h).entries == h.entries && Redo(h).entries == h.entries
    ensures Valid(Undo(h)) && Valid(Redo(h))
    ensures h.index > 0 ==> Undo(h).index == h.index - 1
    ensures h.index < |h.entries| - 1 ==> Redo(h).index == h.index + 1
  {
  }

  /** An effective undo followed by redo returns to the same history, and vice versa. */
  lemma UndoRedoRoundTrip(h: History)
    requires Valid(h)
    ensures h.index > 0 ==> Redo(Undo(h)) == h
    ensures h.index < |h.entries| - 1 ==> Undo(Redo(h)) == h
  {
  }

  /** `n` undos in a row. */
  function UndoN(h: History, n: nat): History
    decreases n
  {
    if n == 0 then h else UndoN(Undo(h), n - 1)
  }

  /** `n` redos in a row. */
  function RedoN(h: History, n: nat): History
    decreases n
  {
    if n == 0 then h else RedoN(Redo(h), n - 1)
  }

  /** Undoing `n` times, for `n` no larger than the index, only lowers the index by `n`. */
  lemma {:induction false} UndoNSteps(h: History, n: nat)
    requires n <= h.index
    ensures UndoN(h, n) == h.(index := h.index - n)
    decreases n
  {
    if n > 0 {
      UndoNSteps(Undo(h), n - 1);
    }
  }

  /** Redoing `n` times, while there are `n` entries after the index, only raises it by `n`. */
  lemma {:induction false} RedoNSteps(h: History, n: nat)
    requires h.index + n < |h.entries|
    ensures RedoN(h, n) == h.(index := h.index + n)
    decreases n
  {
    if n > 0 {
      RedoNSteps(Redo(h), n - 1);
    }
  }

  /**
   * The round-trip law: `n` undos followed by `n` redos, for `n` up to the index,
   * restore the history and so the grid it shows.
   */
  lemma UndoThenRedoN(h: History, n: nat)
    requires Valid(h) && n <= h.index
    ensures RedoN(UndoN(h, n), n) == h
    ensures Current(RedoN(UndoN(h, n), n)) == Current(h)
  {
    UndoNSteps(h, n);
    RedoNSteps(h.(index := h.index - n), n);
  }

  /**
   * Committing a grid and then undoing shows again the grid that was current before
   * the commit, with or without eviction.
   */
  lemma SaveThenUndo(h: History, g: Grid)
    requires Valid(h)
    ensures var u := Undo(Save(h, g));
      0 <= u.index < |u.entries| && Current(u) == Current(h)
  {
  }
}
