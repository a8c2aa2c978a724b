/** The undo and redo stacks of entry ids, most recent last. */
module Stacks {
  import opened Prelude

  datatype UndoRedoStacks = UndoRedoStacks(undo: seq<string>, redo: seq<string>) {
    /**
     * The whole history the stacks stand for, oldest first: what is applied, then what was
     * undone, in the order in which it would be redone.
     */
    function History(): seq<string> {
      undo + Reversed(redo)
    }
  }

  datatype TransferResult = TransferResult(stacks: UndoRedoStacks, entryId: Option<string>)

  function Reversed(s: seq<string>): (r: seq<string>)
    ensures |r| == |s|
    ensures forall k :: 0 <= k < |s| ==> r[k] == s[|s| - 1 - k]
  {
    seq(|s|, k requires 0 <= k < |s| => s[|s| - 1 - k])
  }

  function Top(s: seq<string>): Option<string> {
    if s == [] then None else Some(s[|s| - 1])
  }

  function CreateStacks(): UndoRedoStacks {
    UndoRedoStacks([], [])
  }

  function PushAppliedClearingRedo(s: UndoRedoStacks, entryId: string): UndoRedoStacks {
    UndoRedoStacks(s.undo + [entryId], [])
  }

  function TransferUndoToRedo(s: UndoRedoStacks): TransferResult {
    match Top(s.undo)
    case None => TransferResult(s, None)
    case Some(top) => TransferResult(UndoRedoStacks(s.undo[..|s.undo| - 1], s.redo + [top]), Some(top))
  }

  function TransferRedoToUndo(s: UndoRedoStacks): TransferResult {
    match Top(s.redo)
    case None => TransferResult(s, None)
    case Some(top) => TransferResult(UndoRedoStacks(s.undo + [top], s.redo[..|s.redo| - 1]), Some(top))
  }

  /** Undo only moves the boundary in the history, and redo takes it back. */
  lemma UndoMovesTheBoundary(s: UndoRedoStacks)
    ensures TransferUndoToRedo(s).stacks.History() == s.History()
    ensures s.undo != [] ==> TransferRedoToUndo(TransferUndoToRedo(s).stacks) == TransferResult(s, Top(s.undo))
  {
    if s.undo != [] {
      var n := |s.undo| - 1;
      assert Reversed(s.redo + [s.undo[n]]) == [s.undo[n]] + Reversed(s.redo);
      assert s.undo[..n] + [s.undo[n]] == s.undo;
      assert (s.redo + [s.undo[n]])[..|s.redo|] == s.redo;
    }
  }

  /** Redo only moves the boundary in the history, and undo takes it back. */
  lemma RedoMovesTheBoundary(s: UndoRedoStacks)
    ensures TransferRedoToUndo(s).stacks.History() == s.History()
    ensures s.redo != [] ==> TransferUndoToRedo(TransferRedoToUndo(s).stacks) == TransferResult(s, Top(s.redo))
  {
    if s.redo != [] {
      var n := |s.redo| - 1;
      assert Reversed(s.redo) == [s.redo[n]] + Reversed(s.redo[..n]);
      assert s.redo[..n] + [s.redo[n]] == s.redo;
      assert (s.undo + [s.redo[n]])[..|s.undo|] == s.undo;
    }
  }
}
