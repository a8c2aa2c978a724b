/**
 * Sessions over documents that give every place of the page a content, with the inverses that
 * `createJournalEntry` stores. They meet the hypothesis of the replay theorem exactly when each
 * operation found in its place what it claims to have found.
 */
module EditSession {
  import opened Prelude
  import opened Operations
  import opened ChangeJournal
  import opened Moves
  import Inverse
  import Replay

  /** Places that are not mentioned are `Missing`. */
  type Document = d: map<Place, Content> | forall p :: p in d ==> d[p] != Missing
    witness map[]

  function Holding(d: Document, p: Place): Content {
    if p in d then d[p] else Missing
  }

  function Put(d: Document, p: Place, c: Content): Document {
    if c == Missing then d - {p} else d[p := c]
  }

  lemma PutExactly(d: Document, p: Place, c: Content)
    ensures Holding(Put(d, p, c), p) == c
    ensures forall q :: q != p ==> Holding(Put(d, p, c), q) == Holding(d, q)
    ensures Put(d, p, c) == d <==> Holding(d, p) == c
    ensures forall b :: Put(Put(d, p, b), p, c) == Put(d, p, c)
  {
  }

  /** Carrying an operation out: its place gets the content it moves to. */
  function ApplyMove(d: Document, op: Operation): Document {
    Put(d, MoveOf(op.payload).place, MoveOf(op.payload).after)
  }

  /** `inverseId` and `now` stand for the generated id and the clock. */
  function CreateJournalEntry(id: string, op: Operation, inverse: Option<Operation>, inverseId: string, now: nat): Entry<Operation> {
    Entry(id, op, Valid(inverse.GetOr(Inverse.ComputeInverse(op, inverseId, now))), Preview)
  }

  /** The place holds what the operation says it found there. */
  predicate CapturedAt(op: Operation, d: Document) {
    Holding(d, MoveOf(op.payload).place) == MoveOf(op.payload).before
  }

  /** For every kind, the computed inverse undoes an operation exactly where its "before" was captured truthfully. */
  lemma ComputedInverseUndoesExactly(d: Document, id: string, op: Operation, inverseId: string, now: nat)
    ensures Replay.UndoneAt(CreateJournalEntry(id, op, None, inverseId, now), ApplyMove, d) <==> CapturedAt(op, d)
  {
    var move := MoveOf(op.payload);
    InverseMovesBackExactly(op.payload);
    PutExactly(d, move.place, move.after);
    PutExactly(d, move.place, move.before);
    hide MoveOf, Inverse.InvertPayload, Put;
  }

  /**
   * Where no previous value was captured the inverse writes the empty text. It undoes the edit
   * exactly if the empty text is what was there; in particular it does not undo the first setting
   * of a property that was not declared.
   */
  lemma UncapturedEditIsUndoneExactly(d: Document, id: string, base: Base, target: ElementRef, property: string, value: string,
                                      important: bool, inverseId: string, now: nat)
    ensures var op := Operation(base, StyleEdit(target, property, value, important, None));
            Replay.UndoneAt(CreateJournalEntry(id, op, None, inverseId, now), ApplyMove, d)
            <==> Holding(d, StyleOf(target, property, important)) == Words("")
  {
    var op := Operation(base, StyleEdit(target, property, value, important, None));
    ComputedInverseUndoesExactly(d, id, op, inverseId, now);
    assert MoveOf(op.payload) == Move(StyleOf(target, property, important), Words(""), Words(value));
  }

  // ---------------------------------------------------------------- sessions

  /** Recording a captured operation under a fresh id keeps the whole session replayable. */
  lemma CapturedEditsReplay(s: Replay.Session<Operation, Document>, init: Document, id: string, op: Operation, inverseId: string, now: nat)
    requires Replay.Replayable(s, ApplyMove, init) && id !in Ids(s.journal.entries)
    requires CapturedAt(op, s.doc)
    ensures var e := CreateJournalEntry(id, op, None, inverseId, now);
            var t := Replay.Next(s, ApplyMove, Append(e));
            && Replay.Replayable(t, ApplyMove, init)
            && Replay.Next(t, ApplyMove, UndoTop).doc == s.doc
  {
    hide Inverse.ComputeInverse, CapturedAt;
    var e := CreateJournalEntry(id, op, None, inverseId, now);
    var t := Replay.Next(s, ApplyMove, Append(e));
    ComputedInverseUndoesExactly(s.doc, id, op, inverseId, now);
    Replay.AppendReplays(s, ApplyMove, init, e);
    Replay.UndoReplays(t, ApplyMove, init);
    assert t.journal.stacks.undo == s.journal.stacks.undo + [id];
  }

  /** What the caller of the journal does: records operations it has just carried out, undoes and redoes. */
  datatype Step = Edit(id: string, op: Operation, inverseId: string, now: nat) | Undo | Redo | Settle(id: string)

  function EventOf(step: Step): Event<Operation> {
    match step
    case Edit(id, op, inverseId, now) => Append(CreateJournalEntry(id, op, None, inverseId, now))
    case Undo => UndoTop
    case Redo => RedoTop
    case Settle(id) => Commit(id)
  }

  function RunSteps(s: Replay.Session<Operation, Document>, steps: seq<Step>): Replay.Session<Operation, Document>
    decreases steps
  {
    if steps == [] then s else RunSteps(Replay.Next(s, ApplyMove, EventOf(steps[0])), steps[1..])
  }

  /** A captured edit carries its operation out; undoing takes it back, redoing repeats it, and settling changes no document. */
  lemma EditUndoRedo(s: Replay.Session<Operation, Document>, init: Document, edit: Step)
    requires Replay.Replayable(s, ApplyMove, init) && edit.Edit? && edit.id !in Ids(s.journal.entries) && CapturedAt(edit.op, s.doc)
    ensures var edited := ApplyMove(s.doc, edit.op);
            && RunSteps(s, [edit]).doc == edited
            && RunSteps(s, [edit, Undo]).doc == s.doc
            && RunSteps(s, [edit, Undo, Redo]).doc == edited
            && RunSteps(s, [edit, Settle(edit.id)]).doc == edited
  {
    var t := Replay.Next(s, ApplyMove, EventOf(edit));
    assert EventOf(edit) == Append(CreateJournalEntry(edit.id, edit.op, None, edit.inverseId, edit.now));
    assert EventOf(Undo) == UndoTop && EventOf(Redo) == RedoTop;
    hide *;
    EditApplies(s, edit);
    CapturedEditsReplay(s, init, edit.id, edit.op, edit.inverseId, edit.now);
    assert t.journal.stacks.undo != [];
    Replay.UndoRedoRoundTrip(t, ApplyMove, init);
    ThreeSteps(s, edit, Undo, Redo);
    ThreeSteps(s, edit, Settle(edit.id), Redo);
  }

  lemma EditApplies(s: Replay.Session<Operation, Document>, edit: Step)
    requires edit.Edit?
    ensures var t := Replay.Next(s, ApplyMove, EventOf(edit));
            && t.doc == ApplyMove(s.doc, edit.op)
            && t.journal.stacks.undo == s.journal.stacks.undo + [edit.id]
            && Replay.Next(t, ApplyMove, EventOf(Settle(edit.id))).doc == t.doc
    ensures var t := Replay.Next(s, ApplyMove, EventOf(edit));
            var u := Replay.Next(t, ApplyMove, EventOf(Settle(edit.id)));
            OnlyMarked(t.journal.entries, u.journal.entries, edit.id, Committed) && u.journal.stacks == t.journal.stacks
  {
    hide ApplyMove, Inverse.ComputeInverse;
    var t := Replay.Next(s, ApplyMove, EventOf(edit));
    MarksExactly(t.journal, edit.id);
    assert t.journal.entries[|s.journal.entries|].id == edit.id;
    assert IsRecorded(t.journal.entries, edit.id);
  }

  lemma ThreeSteps(s: Replay.Session<Operation, Document>, a: Step, b: Step, c: Step)
    ensures RunSteps(s, [a]) == Replay.Next(s, ApplyMove, EventOf(a))
    ensures RunSteps(s, [a, b]) == Replay.Next(RunSteps(s, [a]), ApplyMove, EventOf(b))
    ensures RunSteps(s, [a, b, c]) == Replay.Next(RunSteps(s, [a, b]), ApplyMove, EventOf(c))
  {
    hide Replay.Next, EventOf;
    assert [a, b, c][1..] == [b, c] && [b, c][1..] == [c] && [c][1..] == [] && [a, b][1..] == [b] && [b][1..] == [] && [a][1..] == [];
    var t := Replay.Next(s, ApplyMove, EventOf(a));
    var u := Replay.Next(t, ApplyMove, EventOf(b));
    var v := Replay.Next(u, ApplyMove, EventOf(c));
    assert RunSteps(t, []) == t && RunSteps(u, []) == u && RunSteps(v, []) == v;
    assert RunSteps(u, [c]) == v && RunSteps(t, [b]) == u && RunSteps(t, [b, c]) == RunSteps(u, [c]);
  }

  /** Every edit has a fresh id and finds in its place what it says. */
  ghost predicate AllCaptured(s: Replay.Session<Operation, Document>, steps: seq<Step>)
    decreases steps
  {
    steps == [] ||
    (&& (steps[0].Edit? ==> steps[0].id !in Ids(s.journal.entries) && CapturedAt(steps[0].op, s.doc))
     && AllCaptured(Replay.Next(s, ApplyMove, EventOf(steps[0])), steps[1..]))
  }

  /**
   * Any interleaving of captured edits of all kinds, undos, redos and commits: the document is
   * always the initial one with the operations on the undo stack carried out in order.
   */
  lemma {:induction false} EditSessionsReplay(s: Replay.Session<Operation, Document>, init: Document, steps: seq<Step>)
    requires Replay.Replayable(s, ApplyMove, init) && AllCaptured(s, steps)
    ensures var t := RunSteps(s, steps);
            && Replay.Replayable(t, ApplyMove, init)
            && t.doc == Replay.Folded(t.journal.entries, ApplyMove, init, t.journal.stacks.undo)
    decreases steps
  {
    if steps != [] {
      var e := EventOf(steps[0]);
      if steps[0].Edit? {
        ComputedInverseUndoesExactly(s.doc, steps[0].id, steps[0].op, steps[0].inverseId, steps[0].now);
      }
      Replay.StepReplays(s, ApplyMove, init, e);
      hide Replay.Next, Replay.InPlace, CapturedAt;
      EditSessionsReplay(Replay.Next(s, ApplyMove, e), init, steps[1..]);
    }
  }
}
