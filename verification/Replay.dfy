/**
 * A session: a journal together with the document to which the caller applies whatever
 * `undo` and `redo` return. The document and the way operations act on it are arbitrary.
 */
module Replay {
  import opened Prelude
  import opened Stacks
  import opened ChangeJournal

  /** `recordedAt` remembers, for every entry, the document in which it was recorded. */
  datatype Session<Op, D> = Session(journal: Journal<Op>, doc: D, recordedAt: map<string, D>)

  /** The initial document with the operations of the given entries applied in order. */
  ghost function Folded<Op, D>(entries: seq<Entry<Op>>, apply: (D, Op) -> D, init: D, ids: seq<string>): D {
    if ids == [] then init
    else
      var d := Folded(entries, apply, init, ids[..|ids| - 1]);
      match Find(entries, ids[|ids| - 1])
      case None => d
      case Some(e) => apply(d, e.operation)
  }

  function Next<Op, D>(s: Session<Op, D>, apply: (D, Op) -> D, e: Event<Op>): Session<Op, D> {
    match e
    case Append(entry) =>
      Session(AppendEntry(s.journal, entry), apply(s.doc, entry.operation), s.recordedAt[entry.id := s.doc])
    case UndoTop =>
      (match Undo(s.journal, None)
       case Ok(out) => s.(journal := out.journal, doc := apply(s.doc, out.op))
       case Err(_) => s)
    case RedoTop =>
      (match Redo(s.journal, None)
       case Ok(out) => s.(journal := out.journal, doc := apply(s.doc, out.op))
       case Err(_) => s)
    case _ => s.(journal := ChangeJournal.Next(s.journal, e))
  }

  /** The stored inverse undoes the operation in document `d`. */
  ghost predicate UndoneAt<Op, D>(e: Entry<Op>, apply: (D, Op) -> D, d: D) {
    e.inverse.Valid? && apply(apply(d, e.operation), e.inverse.op) == d
  }

  /** The k-th entry of the history was recorded in the document its predecessors produce, and is undone there. */
  ghost predicate InPlace<Op, D>(s: Session<Op, D>, apply: (D, Op) -> D, init: D, k: nat)
    requires k < |s.journal.stacks.History()|
  {
    var id := s.journal.stacks.History()[k];
    && id in s.recordedAt
    && s.recordedAt[id] == Folded(s.journal.entries, apply, init, s.journal.stacks.History()[..k])
    && Find(s.journal.entries, id).Some?
    && UndoneAt(Find(s.journal.entries, id).value, apply, s.recordedAt[id])
  }

  /** The document is the initial one with the undo stack's operations applied in order. */
  ghost predicate Replayable<Op, D>(s: Session<Op, D>, apply: (D, Op) -> D, init: D) {
    && NoDuplicates(Ids(s.journal.entries))
    && NoDuplicates(s.journal.stacks.History())
    && (forall k: nat :: k < |s.journal.stacks.History()| ==> InPlace(s, apply, init, k))
    && s.doc == Folded(s.journal.entries, apply, init, s.journal.stacks.undo)
  }

  /**
   * New entries are fresh and come with an inverse that undoes them where they are recorded;
   * only entries outside the history, or at its very end and undone, are superseded.
   */
  ghost predicate Faithful<Op, D>(s: Session<Op, D>, apply: (D, Op) -> D, e: Event<Op>) {
    match e
    case Append(entry) => entry.id !in Ids(s.journal.entries) && UndoneAt(entry, apply, s.doc)
    case Supersede(id) => id !in Ids(s.journal.entries) || LeavesAtTheEnd(s.journal.stacks, id)
    case _ => true
  }

  predicate LeavesAtTheEnd(s: UndoRedoStacks, id: string) {
    id !in s.undo && (id !in s.redo || id == s.redo[0])
  }

  // ---------------------------------------------------------------- folding depends on the operations only

  ghost predicate SameOperations<Op>(a: seq<Entry<Op>>, b: seq<Entry<Op>>, ids: seq<string>) {
    forall id :: id in ids ==>
      && Find(a, id).Some? && Find(b, id).Some?
      && Find(a, id).value.operation == Find(b, id).value.operation
      && Find(a, id).value.inverse == Find(b, id).value.inverse
  }

  lemma {:induction false} FoldedSame<Op, D>(a: seq<Entry<Op>>, b: seq<Entry<Op>>, apply: (D, Op) -> D, init: D, ids: seq<string>)
    requires SameOperations(a, b, ids)
    ensures Folded(a, apply, init, ids) == Folded(b, apply, init, ids)
  {
    if ids != [] {
      FoldedSame(a, b, apply, init, ids[..|ids| - 1]);
      assert ids[|ids| - 1] in ids;
    }
  }

  lemma {:induction false} FindAfterStatus<Op>(entries: seq<Entry<Op>>, id: string, status: Status, x: string)
    ensures var f, g := Find(entries, x), Find(WithStatus(entries, id, status), x);
            && (f.Some? <==> g.Some?)
            && (f.Some? ==> f.value.operation == g.value.operation && f.value.inverse == g.value.inverse)
  {
    if entries != [] {
      assert WithStatus(entries, id, status)[1..] == WithStatus(entries[1..], id, status);
      FindAfterStatus(entries[1..], id, status, x);
    }
  }

  lemma {:induction false} FindAfterAppend<Op>(entries: seq<Entry<Op>>, e: Entry<Op>, x: string)
    ensures Find(entries + [e], x) ==
            if Find(entries, x).Some? then Find(entries, x) else if e.id == x then Some(e) else None
  {
    if entries == [] {
      assert entries + [e] == [e] && [e][1..] == [];
    } else {
      assert (entries + [e])[1..] == entries[1..] + [e];
      FindAfterAppend(entries[1..], e, x);
    }
  }

  /** Where two sessions share the front of their histories and its operations, the entries stay in place. */
  lemma FrontStaysInPlace<Op, D>(s: Session<Op, D>, t: Session<Op, D>, apply: (D, Op) -> D, init: D, n: nat, k: nat)
    requires k < n <= |s.journal.stacks.History()| && n <= |t.journal.stacks.History()|
    requires t.journal.stacks.History()[..n] == s.journal.stacks.History()[..n]
    requires InPlace(s, apply, init, k)
    requires SameOperations(s.journal.entries, t.journal.entries, s.journal.stacks.History()[..n])
    requires var id := s.journal.stacks.History()[k];
             id in s.recordedAt && id in t.recordedAt && t.recordedAt[id] == s.recordedAt[id]
    ensures InPlace(t, apply, init, k)
  {
    var hs, ht := s.journal.stacks.History(), t.journal.stacks.History();
    assert hs[..n][..k] == hs[..k] && ht[..n][..k] == ht[..k];
    assert hs[..n][k] == hs[k] && ht[..n][k] == ht[k] && hs[k] in hs[..n];
    assert forall x :: x in hs[..k] ==> x in hs[..n];
    hide Folded, Find, UndoneAt;
    FoldedSame(s.journal.entries, t.journal.entries, apply, init, hs[..k]);
  }

  lemma HistoryIsRecorded<Op, D>(s: Session<Op, D>, apply: (D, Op) -> D, init: D, x: string)
    requires Replayable(s, apply, init) && x in s.journal.stacks.History()
    ensures Find(s.journal.entries, x).Some? && x in s.recordedAt && x in Ids(s.journal.entries)
  {
    var k :| 0 <= k < |s.journal.stacks.History()| && s.journal.stacks.History()[k] == x;
    assert InPlace(s, apply, init, k);
  }

  // ---------------------------------------------------------------- steps

  lemma AppendReplays<Op, D>(s: Session<Op, D>, apply: (D, Op) -> D, init: D, entry: Entry<Op>)
    requires Replayable(s, apply, init) && Faithful(s, apply, Append(entry))
    ensures Replayable(Next(s, apply, Append(entry)), apply, init)
  {
    var t := Next(s, apply, Append(entry));
    AppendKeepsDistinct(s, apply, init, entry);
    FoldedOneMore(s, apply, init, entry);
    forall k: nat | k < |t.journal.stacks.History()|
      ensures InPlace(t, apply, init, k)
    {
      if k < |s.journal.stacks.undo| {
        OldEntryIsInPlace(s, apply, init, entry, k);
      } else {
        NewEntryIsInPlace(s, apply, init, entry);
      }
    }
  }

  lemma AppendKeepsDistinct<Op, D>(s: Session<Op, D>, apply: (D, Op) -> D, init: D, entry: Entry<Op>)
    requires Replayable(s, apply, init) && entry.id !in Ids(s.journal.entries)
    ensures var t := AppendEntry(s.journal, entry);
            && NoDuplicates(Ids(t.entries)) && NoDuplicates(t.stacks.History())
            && t.stacks.History() == t.stacks.undo == s.journal.stacks.undo + [entry.id]
  {
    var t := AppendEntry(s.journal, entry);
    hide InPlace;
    AppendKeepsOperations(s, apply, init, entry);
    assert Ids(t.entries) == Ids(s.journal.entries) + [entry.id];
    FreshAtEnd(Ids(s.journal.entries), entry.id);
    FreshAtEnd(s.journal.stacks.undo, entry.id);
    assert t.stacks.History() == t.stacks.undo;
  }

  lemma OldEntryIsInPlace<Op, D>(s: Session<Op, D>, apply: (D, Op) -> D, init: D, entry: Entry<Op>, k: nat)
    requires Replayable(s, apply, init) && entry.id !in Ids(s.journal.entries) && k < |s.journal.stacks.undo|
    ensures InPlace(Next(s, apply, Append(entry)), apply, init, k)
  {
    var t := Next(s, apply, Append(entry));
    var undo := s.journal.stacks.undo;
    var n := |undo|;
    AppendKeepsDistinct(s, apply, init, entry);
    AppendKeepsOperations(s, apply, init, entry);
    assert s.journal.stacks.History()[..n] == undo && t.journal.stacks.History()[..n] == undo;
    assert s.journal.stacks.History()[k] == undo[k] && undo[k] in undo;
    assert InPlace(s, apply, init, k);
    hide InPlace;
    FrontStaysInPlace(s, t, apply, init, n, k);
  }

  lemma FoldedOneMore<Op, D>(s: Session<Op, D>, apply: (D, Op) -> D, init: D, entry: Entry<Op>)
    requires Replayable(s, apply, init) && entry.id !in Ids(s.journal.entries)
    ensures var es := s.journal.entries + [entry];
            Folded(es, apply, init, s.journal.stacks.undo + [entry.id]) == apply(s.doc, entry.operation)
  {
    var undo := s.journal.stacks.undo;
    AppendKeepsOperations(s, apply, init, entry);
    FoldedSame(s.journal.entries, s.journal.entries + [entry], apply, init, undo);
    FindAfterAppend(s.journal.entries, entry, entry.id);
    assert (undo + [entry.id])[..|undo|] == undo;
  }

  lemma FreshAtEnd(xs: seq<string>, x: string)
    requires NoDuplicates(xs) && x !in xs
    ensures NoDuplicates(xs + [x])
  {
  }

  lemma AppendKeepsOperations<Op, D>(s: Session<Op, D>, apply: (D, Op) -> D, init: D, entry: Entry<Op>)
    requires Replayable(s, apply, init) && entry.id !in Ids(s.journal.entries)
    ensures SameOperations(s.journal.entries, s.journal.entries + [entry], s.journal.stacks.undo)
    ensures forall x :: x in s.journal.stacks.undo ==> x in s.recordedAt && x != entry.id
    ensures NoDuplicates(s.journal.stacks.undo)
  {
    assert s.journal.stacks.History()[..|s.journal.stacks.undo|] == s.journal.stacks.undo;
    forall x | x in s.journal.stacks.undo
      ensures Find(s.journal.entries + [entry], x) == Find(s.journal.entries, x) && Find(s.journal.entries, x).Some?
      ensures x in s.recordedAt && x != entry.id
    {
      HistoryIsRecorded(s, apply, init, x);
      FindAfterAppend(s.journal.entries, entry, x);
    }
  }

  lemma NewEntryIsInPlace<Op, D>(s: Session<Op, D>, apply: (D, Op) -> D, init: D, entry: Entry<Op>)
    requires Replayable(s, apply, init) && Faithful(s, apply, Append(entry))
    ensures var t := Next(s, apply, Append(entry));
            var n := |s.journal.stacks.undo|;
            n < |t.journal.stacks.History()| && InPlace(t, apply, init, n)
  {
    var t := Next(s, apply, Append(entry));
    var undo := s.journal.stacks.undo;
    assert t.journal.stacks.History() == undo + [entry.id];
    assert (undo + [entry.id])[..|undo|] == undo;
    AppendKeepsOperations(s, apply, init, entry);
    FoldedSame(s.journal.entries, t.journal.entries, apply, init, undo);
    FindAfterAppend(s.journal.entries, entry, entry.id);
  }

  /** Undo brings back the document in which the undone entry was recorded. */
  lemma UndoReplays<Op, D>(s: Session<Op, D>, apply: (D, Op) -> D, init: D)
    requires Replayable(s, apply, init)
    ensures Replayable(Next(s, apply, UndoTop), apply, init)
    ensures s.journal.stacks.undo != [] ==>
              && Undo(s.journal, None).Ok?
              && Top(s.journal.stacks.undo).value in s.recordedAt
              && Next(s, apply, UndoTop).doc == s.recordedAt[Top(s.journal.stacks.undo).value]
  {
    var undo, hs := s.journal.stacks.undo, s.journal.stacks.History();
    if undo != [] {
      var n := |undo| - 1;
      UndoMovesTheBoundary(s.journal.stacks);
      assert hs[n] == undo[n] && hs[..n] == undo[..n];
      assert InPlace(s, apply, init, n);
      hide InPlace, Reversed, NoDuplicates;
      MovedBoundaryReplays(s, apply, init, UndoTop, undo[n], Reverted);
    }
  }

  /** Redo always runs in the document in which its entry was recorded. */
  lemma RedoReplays<Op, D>(s: Session<Op, D>, apply: (D, Op) -> D, init: D)
    requires Replayable(s, apply, init)
    ensures Replayable(Next(s, apply, RedoTop), apply, init)
    ensures s.journal.stacks.redo != [] ==>
              && Redo(s.journal, None).Ok?
              && Top(s.journal.stacks.redo).value in s.recordedAt
              && s.doc == s.recordedAt[Top(s.journal.stacks.redo).value]
  {
    var undo, redo, hs := s.journal.stacks.undo, s.journal.stacks.redo, s.journal.stacks.History();
    if redo != [] {
      var n := |undo|;
      RedoMovesTheBoundary(s.journal.stacks);
      assert hs[n] == redo[|redo| - 1] && hs[..n] == undo;
      assert InPlace(s, apply, init, n);
      assert (undo + [hs[n]])[..n] == undo;
      hide InPlace, Reversed, NoDuplicates;
      MovedBoundaryReplays(s, apply, init, RedoTop, hs[n], Committed);
    }
  }

  lemma MovedBoundaryReplays<Op, D>(s: Session<Op, D>, apply: (D, Op) -> D, init: D, e: Event<Op>, id: string, status: Status)
    requires Replayable(s, apply, init)
    requires var t := Next(s, apply, e);
             && t.journal.entries == WithStatus(s.journal.entries, id, status)
             && t.journal.stacks.History() == s.journal.stacks.History()
             && t.recordedAt == s.recordedAt
             && t.journal.stacks.undo <= t.journal.stacks.History()
             && t.doc == Folded(s.journal.entries, apply, init, t.journal.stacks.undo)
    ensures Replayable(Next(s, apply, e), apply, init)
  {
    var t := Next(s, apply, e);
    StatusKeepsPlaces(s, t, apply, init, id, status);
  }

  lemma StatusKeepsPlaces<Op, D>(s: Session<Op, D>, t: Session<Op, D>, apply: (D, Op) -> D, init: D, id: string, status: Status)
    requires Replayable(s, apply, init)
    requires t.journal.entries == WithStatus(s.journal.entries, id, status)
    requires t.recordedAt == s.recordedAt
    requires t.journal.stacks.History() <= s.journal.stacks.History()
    requires t.journal.stacks.undo <= t.journal.stacks.History()
    requires t.doc == Folded(s.journal.entries, apply, init, t.journal.stacks.undo)
    ensures Replayable(t, apply, init)
  {
    hide InPlace, Reversed, Find, Folded;
    var hs, ht := s.journal.stacks.History(), t.journal.stacks.History();
    var n := |ht|;
    assert ht[..n] == hs[..n] == ht;
    forall x | x in ht
      ensures x in hs && x in s.recordedAt && Find(s.journal.entries, x).Some?
      ensures SameOperations(s.journal.entries, t.journal.entries, [x])
    {
      HistoryIsRecorded(s, apply, init, x);
      FindAfterStatus(s.journal.entries, id, status, x);
    }
    assert forall x :: x in ht ==> x in [x];
    FoldedSame(s.journal.entries, t.journal.entries, apply, init, t.journal.stacks.undo);
    forall k: nat | k < n
      ensures InPlace(t, apply, init, k)
    {
      assert InPlace(s, apply, init, k) && hs[k] == ht[k];
      FrontStaysInPlace(s, t, apply, init, n, k);
    }
  }

  lemma {:induction false} WithoutAbsent(ids: seq<string>, id: string)
    requires id !in ids
    ensures Without(ids, id) == ids
  {
    if ids != [] {
      WithoutAbsent(ids[1..], id);
      assert [ids[0]] + ids[1..] == ids;
    }
  }

  lemma {:induction false} WithoutPresent(ids: seq<string>, p: nat)
    requires p < |ids| && NoDuplicates(ids)
    ensures Without(ids, ids[p]) == ids[..p] + ids[p + 1..]
  {
    if p == 0 {
      forall k | 0 < k < |ids|
        ensures ids[k] != ids[0]
      {
      }
      WithoutAbsent(ids[1..], ids[0]);
    } else {
      WithoutPresent(ids[1..], p - 1);
      assert ids[1..][..p - 1] == ids[1..p] && ids[1..][p - 1 + 1..] == ids[p + 1..];
      assert [ids[0]] + (ids[1..p] + ids[p + 1..]) == ids[..p] + ids[p + 1..];
    }
  }

  /** Taking one entry out of both stacks takes it out of the history. */
  lemma HistoryWithout(s: UndoRedoStacks, id: string, p: nat)
    requires NoDuplicates(s.History()) && p < |s.History()| && s.History()[p] == id
    ensures UndoRedoStacks(Without(s.undo, id), Without(s.redo, id)).History() == s.History()[..p] + s.History()[p + 1..]
    ensures Without(s.undo, id) == (if p < |s.undo| then s.undo[..p] + s.undo[p + 1..] else s.undo)
  {
    var undo := s.undo;
    var n := |undo|;
    ReversedWithout(s.redo, id);
    WithoutOfAppend(undo, Reversed(s.redo), id);
    WithoutPresent(s.History(), p);
    assert s.History()[..n] == undo;
    if p < n {
      assert undo[p] == id && NoDuplicates(undo);
      WithoutPresent(undo, p);
    } else {
      forall k | 0 <= k < n
        ensures undo[k] != id
      {
        assert s.History()[k] == undo[k];
      }
      WithoutAbsent(undo, id);
    }
  }

  lemma SupersededStacks(s: UndoRedoStacks, id: string)
    requires NoDuplicates(s.History()) && LeavesAtTheEnd(s, id)
    ensures Without(s.undo, id) == s.undo
    ensures UndoRedoStacks(s.undo, Without(s.redo, id)).History() <= s.History()
  {
    WithoutAbsent(s.undo, id);
    if id in s.redo {
      var p := |s.History()| - 1;
      assert s.History()[p] == id;
      HistoryWithout(s, id, p);
      assert s.History()[..p] + s.History()[p + 1..] == s.History()[..p];
    } else {
      WithoutAbsent(s.redo, id);
    }
  }

  /** An entry that leaves at the end of the history disturbs nothing. */
  lemma SupersedeReplays<Op, D>(s: Session<Op, D>, apply: (D, Op) -> D, init: D, id: string)
    requires Replayable(s, apply, init) && Faithful(s, apply, Supersede(id))
    ensures Replayable(Next(s, apply, Supersede(id)), apply, init)
  {
    if id in Ids(s.journal.entries) {
      hide InPlace, Reversed;
      SupersededStacks(s.journal.stacks, id);
      StatusKeepsPlaces(s, Next(s, apply, Supersede(id)), apply, init, id, Superseded);
    }
  }

  lemma MarkReplays<Op, D>(s: Session<Op, D>, apply: (D, Op) -> D, init: D, e: Event<Op>)
    requires Replayable(s, apply, init) && (e.Commit? || e.Revert?)
    ensures Replayable(Next(s, apply, e), apply, init)
  {
    if e.id in Ids(s.journal.entries) {
      hide InPlace, Reversed;
      StatusKeepsPlaces(s, Next(s, apply, e), apply, init, e.id, if e.Commit? then Committed else Reverted);
    }
  }

  // ---------------------------------------------------------------- whole runs

  function Run<Op, D>(s: Session<Op, D>, apply: (D, Op) -> D, es: seq<Event<Op>>): Session<Op, D>
    decreases es
  {
    if es == [] then s else Run(Next(s, apply, es[0]), apply, es[1..])
  }

  ghost predicate AllFaithful<Op, D>(s: Session<Op, D>, apply: (D, Op) -> D, es: seq<Event<Op>>)
    decreases es
  {
    es == [] || (Faithful(s, apply, es[0]) && AllFaithful(Next(s, apply, es[0]), apply, es[1..]))
  }

  lemma StepReplays<Op, D>(s: Session<Op, D>, apply: (D, Op) -> D, init: D, e: Event<Op>)
    requires Replayable(s, apply, init) && Faithful(s, apply, e)
    ensures Replayable(Next(s, apply, e), apply, init)
  {
    hide Replayable, Next, Faithful;
    match e
    case Append(entry) => AppendReplays(s, apply, init, entry);
    case UndoTop => UndoReplays(s, apply, init);
    case RedoTop => RedoReplays(s, apply, init);
    case Supersede(id) => SupersedeReplays(s, apply, init, id);
    case Commit(_) => MarkReplays(s, apply, init, e);
    case Revert(_) => MarkReplays(s, apply, init, e);
  }

  /**
   * However the calls interleave, the document stays the initial one with the undo stack's
   * operations applied in order, and every entry can still be undone and redone in place.
   */
  lemma {:induction false} RunReplays<Op, D>(s: Session<Op, D>, apply: (D, Op) -> D, init: D, es: seq<Event<Op>>)
    requires Replayable(s, apply, init) && AllFaithful(s, apply, es)
    ensures Replayable(Run(s, apply, es), apply, init)
    decreases es
  {
    hide Replayable, Next, Faithful;
    if es != [] {
      StepReplays(s, apply, init, es[0]);
      RunReplays(Next(s, apply, es[0]), apply, init, es[1..]);
    }
  }

  /** Every faithful run from an empty journal: the document is the initial one with the applied entries' operations in order. */
  lemma NewSessionReplays<Op, D>(apply: (D, Op) -> D, init: D, es: seq<Event<Op>>)
    requires AllFaithful(Session(CreateJournal(), init, map[]), apply, es)
    ensures var s := Run(Session(CreateJournal(), init, map[]), apply, es);
            && Replayable(s, apply, init)
            && s.doc == Folded(s.journal.entries, apply, init, s.journal.stacks.undo)
  {
    RunReplays(Session(CreateJournal(), init, map[]), apply, init, es);
  }

  /** Undo and then redo: document and stacks are back where they were. */
  lemma UndoRedoRoundTrip<Op, D>(s: Session<Op, D>, apply: (D, Op) -> D, init: D)
    requires Replayable(s, apply, init) && s.journal.stacks.undo != []
    ensures var t := Next(Next(s, apply, UndoTop), apply, RedoTop);
            t.doc == s.doc && t.journal.stacks == s.journal.stacks
  {
    var t := Next(s, apply, UndoTop);
    var u := Next(t, apply, RedoTop);
    UndoReplays(s, apply, init);
    RedoReplays(t, apply, init);
    RoundTripStacks(s, apply, init);
    StatusTwiceSame(s, apply, init, Top(s.journal.stacks.undo).value);
    hide InPlace, Next, Find, WithStatus;
    FoldedSame(s.journal.entries, u.journal.entries, apply, init, s.journal.stacks.undo);
  }

  lemma RoundTripStacks<Op, D>(s: Session<Op, D>, apply: (D, Op) -> D, init: D)
    requires Replayable(s, apply, init) && s.journal.stacks.undo != []
    ensures var top := Top(s.journal.stacks.undo).value;
            var u := Next(Next(s, apply, UndoTop), apply, RedoTop);
            && u.journal.stacks == s.journal.stacks
            && u.journal.entries == WithStatus(WithStatus(s.journal.entries, top, Reverted), top, Committed)
  {
    hide InPlace, Folded;
    UndoReplays(s, apply, init);
    RedoReplays(Next(s, apply, UndoTop), apply, init);
    UndoMovesTheBoundary(s.journal.stacks);
  }

  lemma StatusTwiceSame<Op, D>(s: Session<Op, D>, apply: (D, Op) -> D, init: D, id: string)
    requires Replayable(s, apply, init)
    ensures SameOperations(s.journal.entries, WithStatus(WithStatus(s.journal.entries, id, Reverted), id, Committed), s.journal.stacks.undo)
  {
    var once := WithStatus(s.journal.entries, id, Reverted);
    forall x | x in s.journal.stacks.undo
      ensures SameOperations(s.journal.entries, WithStatus(once, id, Committed), [x])
    {
      HistoryIsRecorded(s, apply, init, x);
      FindAfterStatus(s.journal.entries, id, Reverted, x);
      FindAfterStatus(once, id, Committed, x);
    }
    assert forall x :: x in s.journal.stacks.undo ==> x in [x];
  }

  // ---------------------------------------------------------------- superseding inside the history

  /** Documents that remember every operation: applying writes it down, the inverse strikes out the last line. */
  datatype Edit = Write(line: string) | Strike

  function Scribe(d: seq<string>, e: Edit): seq<string> {
    match e
    case Write(line) => d + [line]
    case Strike => if d == [] then [] else d[..|d| - 1]
  }

  ghost predicate OnlyWrites(entries: seq<Entry<Edit>>) {
    forall e :: e in entries ==> e.operation.Write?
  }

  lemma {:induction false} LinesFolded(entries: seq<Entry<Edit>>, init: seq<string>, ids: seq<string>)
    requires OnlyWrites(entries) && forall id :: id in ids ==> Find(entries, id).Some?
    ensures |Folded(entries, Scribe, init, ids)| == |init| + |ids|
  {
    if ids != [] {
      assert forall id :: id in ids[..|ids| - 1] ==> id in ids;
      LinesFolded(entries, init, ids[..|ids| - 1]);
      assert ids[|ids| - 1] in ids;
    }
  }

  lemma WritesAfterSupersede(entries: seq<Entry<Edit>>, id: string)
    requires OnlyWrites(entries)
    ensures OnlyWrites(WithStatus(entries, id, Superseded))
    ensures forall x :: Find(entries, x).Some? <==> Find(WithStatus(entries, id, Superseded), x).Some?
  {
    forall x
      ensures Find(entries, x).Some? <==> Find(WithStatus(entries, id, Superseded), x).Some?
    {
      FindAfterStatus(entries, id, Superseded, x);
    }
    var es := WithStatus(entries, id, Superseded);
    forall e | e in es
      ensures e.operation.Write?
    {
      var k :| 0 <= k < |es| && es[k] == e;
      assert entries[k].operation.Write? by {
        assert entries[k] in entries;
      }
    }
  }

  lemma FoundAfterSupersede(s: Session<Edit, seq<string>>, init: seq<string>, id: string)
    requires Replayable(s, Scribe, init) && OnlyWrites(s.journal.entries) && id in Ids(s.journal.entries)
    ensures var entries := Next(s, Scribe, Supersede(id)).journal.entries;
            && OnlyWrites(entries)
            && forall x :: x in s.journal.stacks.History() ==> Find(s.journal.entries, x).Some? && Find(entries, x).Some?
  {
    SupersededEntries(s, id);
    WritesAfterSupersede(s.journal.entries, id);
    hide Replayable, Next, Find, WithStatus, OnlyWrites;
    forall x | x in s.journal.stacks.History()
      ensures Find(s.journal.entries, x).Some?
    {
      HistoryIsRecorded(s, Scribe, init, x);
    }
  }

  lemma SupersededEntries(s: Session<Edit, seq<string>>, id: string)
    requires id in Ids(s.journal.entries)
    ensures Next(s, Scribe, Supersede(id)).journal.entries == WithStatus(s.journal.entries, id, Superseded)
    ensures Next(s, Scribe, Supersede(id)).journal.stacks
         == UndoRedoStacks(Without(s.journal.stacks.undo, id), Without(s.journal.stacks.redo, id))
    ensures Next(s, Scribe, Supersede(id)).doc == s.doc && Next(s, Scribe, Supersede(id)).recordedAt == s.recordedAt
  {
    hide WithStatus, Without;
  }

  /** An applied entry leaves its line in the document although the undo stack no longer holds it. */
  lemma SupersedingAppliedBreaks(s: Session<Edit, seq<string>>, init: seq<string>, id: string)
    requires Replayable(s, Scribe, init) && OnlyWrites(s.journal.entries)
    requires id in Ids(s.journal.entries) && id in s.journal.stacks.undo
    ensures !Replayable(Next(s, Scribe, Supersede(id)), Scribe, init)
  {
    hide InPlace, Find, WithStatus, Without, OnlyWrites, Reversed;
    SupersededEntries(s, id);
    hide Next;
    var t := Next(s, Scribe, Supersede(id));
    var undo := s.journal.stacks.undo;
    var p :| 0 <= p < |undo| && undo[p] == id;
    assert s.journal.stacks.History()[p] == id;
    HistoryWithout(s.journal.stacks, id, p);
    FoundAfterSupersede(s, init, id);
    var left := t.journal.stacks.undo;
    assert forall x :: x in undo ==> x in s.journal.stacks.History();
    assert forall x :: x in left ==> x in undo;
    LinesFolded(s.journal.entries, init, undo);
    LinesFolded(t.journal.entries, init, left);
    assert |t.doc| != |Folded(t.journal.entries, Scribe, init, left)|;
  }

  /** An entry undone earlier than the superseded one expects a document that redo no longer reaches. */
  lemma SupersedingBetweenBreaks(s: Session<Edit, seq<string>>, init: seq<string>, id: string)
    requires Replayable(s, Scribe, init) && OnlyWrites(s.journal.entries)
    requires id in Ids(s.journal.entries) && id in s.journal.stacks.redo && id != s.journal.stacks.redo[0]
    ensures !Replayable(Next(s, Scribe, Supersede(id)), Scribe, init)
  {
    hide UndoneAt, Folded, WithStatus;
    var t := Next(s, Scribe, Supersede(id));
    var redo, hs := s.journal.stacks.redo, s.journal.stacks.History();
    var r :| 0 <= r < |redo| && redo[r] == id;
    var p := |hs| - 1 - r;
    assert hs[p] == id;
    assert InPlace(s, Scribe, init, p + 1);
    SupersededEntries(s, id);
    HistoryWithout(s.journal.stacks, id, p);
    FoundAfterSupersede(s, init, id);
    hide Next, Without, Reversed, OnlyWrites, Find;
    var ht := t.journal.stacks.History();
    assert ht[p] == hs[p + 1] && ht[..p] == hs[..p];
    assert forall x :: x in hs[..p + 1] ==> x in hs;
    assert forall x :: x in hs[..p] ==> x in hs;
    LinesFolded(s.journal.entries, init, hs[..p + 1]);
    LinesFolded(t.journal.entries, init, hs[..p]);
    assert !InPlace(t, Scribe, init, p);
  }

  /**
   * The condition on superseding cannot be weakened: for documents that remember every
   * operation, superseding a recorded entry keeps the session replayable exactly when the
   * entry is outside the history or undone at its very end.
   */
  lemma SupersedeReplaysExactly(s: Session<Edit, seq<string>>, init: seq<string>, id: string)
    requires Replayable(s, Scribe, init) && OnlyWrites(s.journal.entries) && id in Ids(s.journal.entries)
    ensures Replayable(Next(s, Scribe, Supersede(id)), Scribe, init) <==> LeavesAtTheEnd(s.journal.stacks, id)
  {
    hide Replayable, Next;
    if id in s.journal.stacks.undo {
      SupersedingAppliedBreaks(s, init, id);
    } else if LeavesAtTheEnd(s.journal.stacks, id) {
      SupersedeReplays(s, Scribe, init, id);
    } else {
      SupersedingBetweenBreaks(s, init, id);
    }
  }
}
