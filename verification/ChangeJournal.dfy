/**
 * The change journal: recorded entries with a status, and the two stacks. Every operation
 * returns a new journal; what the source throws is an error value here.
 */
module ChangeJournal {
  import opened Prelude
  import opened Stacks

  datatype Status = Preview | Committed | Superseded | Reverted

  /** The stored inverse as it comes back from persistence. */
  datatype StoredInverse<Op> = Valid(op: Op) | Corrupt

  datatype Entry<Op> = Entry(id: string, operation: Op, inverse: StoredInverse<Op>, status: Status)

  datatype Journal<Op> = Journal(entries: seq<Entry<Op>>, stacks: UndoRedoStacks)

  datatype Error = StackEmpty | NotTheTop(target: string, top: string) | NotFound(id: string) | StaleInverse(id: string)

  datatype Outcome<Op> = Outcome(journal: Journal<Op>, op: Op)

  function CreateJournal<Op>(): Journal<Op> {
    Journal([], CreateStacks())
  }

  predicate IsActive(s: Status) {
    s == Preview || s == Committed
  }

  function Ids<Op>(entries: seq<Entry<Op>>): (ids: seq<string>)
    ensures |ids| == |entries|
    ensures forall k :: 0 <= k < |entries| ==> ids[k] == entries[k].id
  {
    seq(|entries|, k requires 0 <= k < |entries| => entries[k].id)
  }

  function ActiveJournalEntries<Op>(entries: seq<Entry<Op>>): seq<Entry<Op>> {
    if entries == [] then []
    else (if IsActive(entries[0].status) then [entries[0]] else []) + ActiveJournalEntries(entries[1..])
  }

  function Find<Op>(entries: seq<Entry<Op>>, id: string): (e: Option<Entry<Op>>)
    ensures e.Some? ==> e.value in entries && e.value.id == id
    ensures e.None? <==> id !in Ids(entries)
  {
    if entries == [] then None
    else if entries[0].id == id then Some(entries[0])
    else
      assert Ids(entries) == [entries[0].id] + Ids(entries[1..]);
      Find(entries[1..], id)
  }

  function WithStatus<Op>(entries: seq<Entry<Op>>, id: string, status: Status): (es: seq<Entry<Op>>)
    ensures |es| == |entries|
    ensures forall k :: 0 <= k < |entries| ==>
              es[k] == if entries[k].id == id then entries[k].(status := status) else entries[k]
    ensures Ids(es) == Ids(entries)
  {
    seq(|entries|, k requires 0 <= k < |entries| =>
      if entries[k].id == id then entries[k].(status := status) else entries[k])
  }

  function AppendEntry<Op>(j: Journal<Op>, entry: Entry<Op>): Journal<Op> {
    Journal(j.entries + [entry], PushAppliedClearingRedo(j.stacks, entry.id))
  }

  function Undo<Op>(j: Journal<Op>, entryId: Option<string>): Result<Outcome<Op>, Error> {
    match Top(j.stacks.undo)
    case None => Err(StackEmpty)
    case Some(top) =>
      var target := entryId.GetOr(top);
      if target != top then Err(NotTheTop(target, top))
      else
        match Find(j.entries, target)
        case None => Err(NotFound(target))
        case Some(entry) =>
          match entry.inverse
          case Corrupt => Err(StaleInverse(target))
          case Valid(inverse) =>
            Ok(Outcome(Journal(WithStatus(j.entries, target, Reverted), TransferUndoToRedo(j.stacks).stacks), inverse))
  }

  function Redo<Op>(j: Journal<Op>, entryId: Option<string>): Result<Outcome<Op>, Error> {
    match Top(j.stacks.redo)
    case None => Err(StackEmpty)
    case Some(top) =>
      var target := entryId.GetOr(top);
      if target != top then Err(NotTheTop(target, top))
      else
        match Find(j.entries, target)
        case None => Err(NotFound(target))
        case Some(entry) =>
          Ok(Outcome(Journal(WithStatus(j.entries, target, Committed), TransferRedoToUndo(j.stacks).stacks), entry.operation))
  }

  /** Shared by committing and reverting outside the undo path: the stacks stay. */
  function Mark<Op>(j: Journal<Op>, id: string, status: Status): Result<Journal<Op>, Error> {
    if id !in Ids(j.entries) then Err(NotFound(id)) else Ok(Journal(WithStatus(j.entries, id, status), j.stacks))
  }

  function MarkEntryCommitted<Op>(j: Journal<Op>, id: string): Result<Journal<Op>, Error> {
    Mark(j, id, Committed)
  }

  function MarkEntryReverted<Op>(j: Journal<Op>, id: string): Result<Journal<Op>, Error> {
    Mark(j, id, Reverted)
  }

  function Without(ids: seq<string>, id: string): seq<string> {
    if ids == [] then [] else (if ids[0] == id then [] else [ids[0]]) + Without(ids[1..], id)
  }

  function MarkEntrySuperseded<Op>(j: Journal<Op>, id: string): Result<Journal<Op>, Error> {
    if id !in Ids(j.entries) then Err(NotFound(id))
    else
      Ok(Journal(WithStatus(j.entries, id, Superseded),
                 UndoRedoStacks(Without(j.stacks.undo, id), Without(j.stacks.redo, id))))
  }

  // ---------------------------------------------------------------- what each operation does, described

  /** The entries stay, with everything they record, but those with this id have the status now. */
  ghost predicate OnlyMarked<Op>(before: seq<Entry<Op>>, after: seq<Entry<Op>>, id: string, status: Status) {
    && |after| == |before|
    && forall k :: 0 <= k < |before| ==>
         && after[k].id == before[k].id && after[k].operation == before[k].operation && after[k].inverse == before[k].inverse
         && after[k].status == if before[k].id == id then status else before[k].status
  }

  ghost predicate IsRecorded<Op>(entries: seq<Entry<Op>>, id: string) {
    exists k :: 0 <= k < |entries| && entries[k].id == id
  }

  /** The first entry with this id stands at `k`. */
  ghost predicate IsFirstOf<Op>(entries: seq<Entry<Op>>, id: string, k: nat) {
    k < |entries| && entries[k].id == id && forall i :: 0 <= i < k ==> entries[i].id != id
  }

  /** `id` is on top of the stack, and the caller asks for it or for no entry in particular. */
  ghost predicate AsksForTop(stack: seq<string>, entryId: Option<string>, id: string) {
    |stack| > 0 && stack[|stack| - 1] == id && (entryId == None || entryId == Some(id))
  }

  /** The caller asks for another entry than the top. */
  ghost predicate AsksForOther(stack: seq<string>, entryId: Option<string>, target: string, top: string) {
    |stack| > 0 && stack[|stack| - 1] == top && entryId == Some(target) && target != top
  }

  lemma {:induction false} FindExactly<Op>(entries: seq<Entry<Op>>, id: string) returns (k: nat)
    ensures Find(entries, id).Some? <==> IsRecorded(entries, id)
    ensures Find(entries, id).Some? ==> IsFirstOf(entries, id, k) && entries[k] == Find(entries, id).value
  {
    k := 0;
    if entries != [] && entries[0].id != id {
      var rest := entries[1..];
      k := FindExactly(rest, id);
      RecordedLater(entries, id, k);
      k := k + 1;
    }
  }

  lemma RecordedLater<Op>(entries: seq<Entry<Op>>, id: string, k: nat)
    requires entries != [] && entries[0].id != id
    ensures IsRecorded(entries, id) <==> IsRecorded(entries[1..], id)
    ensures IsFirstOf(entries[1..], id, k) ==> IsFirstOf(entries, id, k + 1)
  {
    var rest := entries[1..];
    if i :| 0 <= i < |entries| && entries[i].id == id {
      assert rest[i - 1].id == id;
    }
    if i :| 0 <= i < |rest| && rest[i].id == id {
      assert entries[i + 1].id == id;
    }
    if IsFirstOf(rest, id, k) {
      assert forall i :: 0 < i < k + 1 ==> entries[i] == rest[i - 1];
    }
  }

  /** `out` undoes the entry `id`: its operation is the stored inverse, and the entry alone becomes reverted. */
  ghost predicate Undoes<Op>(j: Journal<Op>, id: string, out: Outcome<Op>) {
    && (exists k: nat :: IsFirstOf(j.entries, id, k) && j.entries[k].inverse == Valid(out.op))
    && OnlyMarked(j.entries, out.journal.entries, id, Reverted)
    && j.stacks.undo == out.journal.stacks.undo + [id] && out.journal.stacks.redo == j.stacks.redo + [id]
  }

  /** `out` redoes the entry `id`: its operation is the recorded one, and the entry alone becomes committed. */
  ghost predicate Redoes<Op>(j: Journal<Op>, id: string, out: Outcome<Op>) {
    && (exists k: nat :: IsFirstOf(j.entries, id, k) && j.entries[k].operation == out.op)
    && OnlyMarked(j.entries, out.journal.entries, id, Committed)
    && out.journal.stacks.undo == j.stacks.undo + [id] && j.stacks.redo == out.journal.stacks.redo + [id]
  }

  /** When undoing fails and with which error, and what it returns and changes otherwise. */
  lemma UndoExactly<Op>(j: Journal<Op>, entryId: Option<string>)
    ensures match Undo(j, entryId)
            case Err(StackEmpty) => j.stacks.undo == []
            case Err(NotTheTop(target, top)) => AsksForOther(j.stacks.undo, entryId, target, top)
            case Err(NotFound(id)) => AsksForTop(j.stacks.undo, entryId, id) && !IsRecorded(j.entries, id)
            case Err(StaleInverse(id)) =>
              AsksForTop(j.stacks.undo, entryId, id) && exists k: nat :: IsFirstOf(j.entries, id, k) && j.entries[k].inverse == Corrupt
            case Ok(out) => exists id :: AsksForTop(j.stacks.undo, entryId, id) && Undoes(j, id, out)
  {
    if j.stacks.undo != [] {
      var top := j.stacks.undo[|j.stacks.undo| - 1];
      var k := FindExactly(j.entries, top);
      MarkedOnly(j.entries, top, Reverted);
      PoppedTop(j.stacks.undo);
      hide Find, IsFirstOf, IsRecorded, WithStatus, OnlyMarked;
      if Undo(j, entryId).Ok? {
        assert Undoes(j, top, Undo(j, entryId).value);
      }
    }
  }

  /** The same for redoing, which needs no inverse. */
  lemma RedoExactly<Op>(j: Journal<Op>, entryId: Option<string>)
    ensures match Redo(j, entryId)
            case Err(StackEmpty) => j.stacks.redo == []
            case Err(NotTheTop(target, top)) => AsksForOther(j.stacks.redo, entryId, target, top)
            case Err(NotFound(id)) => AsksForTop(j.stacks.redo, entryId, id) && !IsRecorded(j.entries, id)
            case Err(StaleInverse(id)) => false
            case Ok(out) => exists id :: AsksForTop(j.stacks.redo, entryId, id) && Redoes(j, id, out)
  {
    if j.stacks.redo != [] {
      var top := j.stacks.redo[|j.stacks.redo| - 1];
      var k := FindExactly(j.entries, top);
      MarkedOnly(j.entries, top, Committed);
      PoppedTop(j.stacks.redo);
      hide Find, IsFirstOf, IsRecorded, WithStatus, OnlyMarked;
      if Redo(j, entryId).Ok? {
        assert Redoes(j, top, Redo(j, entryId).value);
      }
    }
  }

  lemma MarkedOnly<Op>(entries: seq<Entry<Op>>, id: string, status: Status)
    ensures OnlyMarked(entries, WithStatus(entries, id, status), id, status)
  {
  }

  ghost predicate MarksOnly<Op>(j: Journal<Op>, id: string, status: Status, r: Result<Journal<Op>, Error>) {
    match r
    case Err(e) => e == NotFound(id) && !IsRecorded(j.entries, id)
    case Ok(k) => IsRecorded(j.entries, id) && OnlyMarked(j.entries, k.entries, id, status)
  }

  /** Committing and reverting leave the stacks alone; superseding takes the id out of both. */
  lemma MarksExactly<Op>(j: Journal<Op>, id: string)
    ensures MarksOnly(j, id, Committed, MarkEntryCommitted(j, id))
    ensures MarksOnly(j, id, Reverted, MarkEntryReverted(j, id))
    ensures MarksOnly(j, id, Superseded, MarkEntrySuperseded(j, id))
    ensures MarkEntryCommitted(j, id).Ok? ==> MarkEntryCommitted(j, id).value.stacks == j.stacks
    ensures MarkEntryReverted(j, id).Ok? ==> MarkEntryReverted(j, id).value.stacks == j.stacks
    ensures MarkEntrySuperseded(j, id).Ok? ==>
              var stacks := MarkEntrySuperseded(j, id).value.stacks;
              stacks.undo == Without(j.stacks.undo, id) && stacks.redo == Without(j.stacks.redo, id)
  {
    hide Without;
    assert id in Ids(j.entries) <==> IsRecorded(j.entries, id);
  }

  /** The ids around an occurrence of `id` close up; together with `WithoutOfAppend` this is all of `Without`. */
  lemma WithoutExactly(before: seq<string>, id: string, after: seq<string>)
    requires id !in before && id !in after
    ensures Without(before + [id] + after, id) == before + after
    ensures Without(before, id) == before
  {
    WithoutHead(id, after);
    hide Without;
    WithoutOfAppend(before, [id] + after, id);
    WithoutNothing(before, id);
    WithoutNothing(after, id);
    Regroup(before, [id], after);
  }

  lemma WithoutHead(id: string, after: seq<string>)
    ensures Without([id] + after, id) == Without(after, id)
  {
    assert ([id] + after)[1..] == after;
  }

  lemma {:induction false} WithoutNothing(ids: seq<string>, id: string)
    requires id !in ids
    ensures Without(ids, id) == ids
  {
    if ids != [] {
      WithoutNothing(ids[1..], id);
    }
  }

  // ---------------------------------------------------------------- sequences and sub-sequences

  /** What is left of `ids` when only the members of `keep` stay. */
  function OnlyIn(ids: seq<string>, keep: set<string>): seq<string> {
    if ids == [] then [] else (if ids[0] in keep then [ids[0]] else []) + OnlyIn(ids[1..], keep)
  }

  function Members(ids: seq<string>): set<string> {
    set x | x in ids
  }

  /** `part` is a sub-sequence of `ids`; both are meant to be free of duplicates. */
  ghost predicate IsSelection(part: seq<string>, ids: seq<string>) {
    part == OnlyIn(ids, Members(part))
  }

  lemma {:induction false} OnlyInMembers(ids: seq<string>, keep: set<string>)
    ensures forall x :: x in OnlyIn(ids, keep) <==> x in ids && x in keep
  {
    if ids != [] {
      OnlyInMembers(ids[1..], keep);
    }
  }

  lemma {:induction false} OnlyInTwice(ids: seq<string>, a: set<string>, b: set<string>)
    ensures OnlyIn(OnlyIn(ids, a), b) == OnlyIn(ids, a * b)
  {
    if ids != [] {
      OnlyInTwice(ids[1..], a, b);
      var tail := OnlyIn(ids[1..], a);
      if ids[0] in a {
        assert ([ids[0]] + tail)[1..] == tail;
      } else {
        assert [] + tail == tail;
      }
    }
  }

  lemma {:induction false} OnlyInSame(ids: seq<string>, a: set<string>, b: set<string>)
    requires forall x :: x in ids ==> (x in a <==> x in b)
    ensures OnlyIn(ids, a) == OnlyIn(ids, b)
  {
    if ids != [] {
      OnlyInSame(ids[1..], a, b);
    }
  }

  lemma {:induction false} OnlyInOfAppend(xs: seq<string>, ys: seq<string>, keep: set<string>)
    ensures OnlyIn(xs + ys, keep) == OnlyIn(xs, keep) + OnlyIn(ys, keep)
  {
    if xs == [] {
      assert xs + ys == ys;
    } else {
      assert (xs + ys)[1..] == xs[1..] + ys && (xs + ys)[0] == xs[0];
      OnlyInOfAppend(xs[1..], ys, keep);
      var head := if xs[0] in keep then [xs[0]] else [];
      Regroup(head, OnlyIn(xs[1..], keep), OnlyIn(ys, keep));
    }
  }

  lemma {:induction false} OnlyInAllOrNone(ids: seq<string>, keep: set<string>)
    ensures (forall x :: x in ids ==> x in keep) ==> OnlyIn(ids, keep) == ids
    ensures (forall x :: x in ids ==> x !in keep) ==> OnlyIn(ids, keep) == []
  {
    if ids != [] {
      OnlyInAllOrNone(ids[1..], keep);
      assert [ids[0]] + ids[1..] == ids;
    }
  }

  lemma {:induction false} WithoutIsOnlyIn(ids: seq<string>, id: string)
    ensures Without(ids, id) == OnlyIn(ids, Members(ids) - {id})
  {
    if ids != [] {
      WithoutIsOnlyIn(ids[1..], id);
      OnlyInSame(ids[1..], Members(ids[1..]) - {id}, Members(ids) - {id});
    }
  }

  lemma {:induction false} OnlyInNoDuplicates(ids: seq<string>, keep: set<string>)
    requires NoDuplicates(ids)
    ensures NoDuplicates(OnlyIn(ids, keep))
  {
    if ids != [] {
      OnlyInNoDuplicates(ids[1..], keep);
      OnlyInMembers(ids[1..], keep);
    }
  }

  /** A selection of a selection is a selection. */
  lemma SelectionOfSelection(part: seq<string>, ids: seq<string>, keep: set<string>)
    requires IsSelection(part, ids)
    ensures IsSelection(OnlyIn(part, keep), ids)
  {
    var smaller := OnlyIn(part, keep);
    OnlyInTwice(ids, Members(part), keep);
    OnlyInMembers(part, keep);
    assert Members(smaller) == Members(part) * keep;
  }

  /** So is the front part of a selection without duplicates. */
  lemma FrontOfSelection(front: seq<string>, back: seq<string>, ids: seq<string>)
    requires NoDuplicates(ids) && IsSelection(front + back, ids)
    ensures IsSelection(front, ids) && NoDuplicates(front + back)
    ensures Members(front) !! Members(back)
  {
    var whole := front + back;
    OnlyInNoDuplicates(ids, Members(whole));
    forall x | x in back
      ensures x !in front
    {
      DisjointParts(front, back, x);
    }
    OnlyInTwice(ids, Members(whole), Members(front));
    assert Members(whole) * Members(front) == Members(front);
    OnlyInOfAppend(front, back, Members(front));
    OnlyInAllOrNone(front, Members(front));
    OnlyInAllOrNone(back, Members(front));
  }

  lemma DisjointParts(front: seq<string>, back: seq<string>, x: string)
    requires NoDuplicates(front + back) && x in back
    ensures x !in front
  {
    var j :| 0 <= j < |back| && back[j] == x;
    forall i | 0 <= i < |front|
      ensures front[i] != x
    {
      assert (front + back)[i] == front[i] && (front + back)[|front| + j] == x;
    }
  }

  // ---------------------------------------------------------------- the active list is the undo stack

  /**
   * No id twice; the active entries are, in order, the undo stack; and the history is a
   * sub-sequence of the recorded entries.
   */
  ghost predicate Consistent<Op>(j: Journal<Op>) {
    && NoDuplicates(Ids(j.entries))
    && Ids(ActiveJournalEntries(j.entries)) == j.stacks.undo
    && IsSelection(j.stacks.History(), Ids(j.entries))
  }

  ghost function ActiveSet<Op>(entries: seq<Entry<Op>>): set<string> {
    set k | 0 <= k < |entries| && IsActive(entries[k].status) :: entries[k].id
  }

  lemma {:induction false} ActiveIds<Op>(entries: seq<Entry<Op>>)
    requires NoDuplicates(Ids(entries))
    ensures Ids(ActiveJournalEntries(entries)) == OnlyIn(Ids(entries), ActiveSet(entries))
  {
    if entries != [] {
      var rest := entries[1..];
      assert Ids(entries) == [entries[0].id] + Ids(rest);
      NoDuplicatesTail(entries);
      ActiveIds(rest);
      forall x | x in Ids(rest)
        ensures x in ActiveSet(rest) <==> x in ActiveSet(entries)
      {
        ActiveInTail(entries, x);
      }
      OnlyInSame(Ids(rest), ActiveSet(rest), ActiveSet(entries));
      ActiveHead(entries);
    }
  }

  lemma NoDuplicatesTail<Op>(entries: seq<Entry<Op>>)
    requires entries != [] && NoDuplicates(Ids(entries))
    ensures NoDuplicates(Ids(entries[1..]))
  {
    assert forall k :: 0 <= k < |entries[1..]| ==> Ids(entries[1..])[k] == Ids(entries)[k + 1];
  }

  lemma ActiveInTail<Op>(entries: seq<Entry<Op>>, x: string)
    requires entries != [] && NoDuplicates(Ids(entries)) && x in Ids(entries[1..])
    ensures x in ActiveSet(entries[1..]) <==> x in ActiveSet(entries)
  {
    var rest := entries[1..];
    var i :| 0 <= i < |rest| && Ids(rest)[i] == x;
    NoDuplicatesTail(entries);
    ActiveAt(rest, i);
    ActiveAt(entries, i + 1);
  }

  lemma ActiveHead<Op>(entries: seq<Entry<Op>>)
    requires entries != [] && NoDuplicates(Ids(entries))
    ensures entries[0].id in ActiveSet(entries) <==> IsActive(entries[0].status)
    ensures var rest := ActiveJournalEntries(entries[1..]);
            Ids(ActiveJournalEntries(entries)) == (if IsActive(entries[0].status) then [entries[0].id] else []) + Ids(rest)
  {
    ActiveAt(entries, 0);
  }

  /** An id is active exactly when the one entry that carries it is. */
  lemma ActiveAt<Op>(entries: seq<Entry<Op>>, i: nat)
    requires i < |entries| && NoDuplicates(Ids(entries))
    ensures entries[i].id in ActiveSet(entries) <==> IsActive(entries[i].status)
  {
    forall k | 0 <= k < |entries| && k != i
      ensures entries[k].id != entries[i].id
    {
      assert Ids(entries)[k] != Ids(entries)[i];
    }
  }

  /** In terms of sets: an entry is active exactly when its id is on the undo stack. */
  lemma ConsistentBySets<Op>(j: Journal<Op>)
    requires NoDuplicates(Ids(j.entries)) && IsSelection(j.stacks.History(), Ids(j.entries))
    ensures Consistent(j) <==> ActiveSet(j.entries) == Members(j.stacks.undo)
  {
    var ids, active, undo := Ids(j.entries), ActiveSet(j.entries), j.stacks.undo;
    ActiveIds(j.entries);
    FrontOfSelection(undo, Reversed(j.stacks.redo), ids);
    OnlyInMembers(ids, active);
    assert forall x :: x in active ==> x in ids by {
      assert forall k :: 0 <= k < |j.entries| ==> ids[k] == j.entries[k].id;
    }
  }

  lemma ActiveSetWithStatus<Op>(entries: seq<Entry<Op>>, id: string, status: Status)
    requires id in Ids(entries)
    ensures ActiveSet(WithStatus(entries, id, status))
         == if IsActive(status) then ActiveSet(entries) + {id} else ActiveSet(entries) - {id}
  {
    var es := WithStatus(entries, id, status);
    var i :| 0 <= i < |entries| && Ids(entries)[i] == id;
    assert es[i].id == id && es[i].status == status;
    forall x
      ensures x in ActiveSet(es) <==> x in (if IsActive(status) then ActiveSet(entries) + {id} else ActiveSet(entries) - {id})
    {
      if x in ActiveSet(entries) && x != id {
        var k :| 0 <= k < |entries| && IsActive(entries[k].status) && entries[k].id == x;
        assert es[k] == entries[k];
      }
      if x in ActiveSet(es) && x != id {
        var k :| 0 <= k < |es| && IsActive(es[k].status) && es[k].id == x;
        assert es[k] == entries[k];
      }
    }
  }

  // ---------------------------------------------------------------- what each operation keeps

  /** Appending keeps consistency exactly for a fresh id and an active status. */
  lemma AppendKeepsExactly<Op>(j: Journal<Op>, e: Entry<Op>)
    requires Consistent(j)
    ensures Consistent(AppendEntry(j, e)) <==> e.id !in Ids(j.entries) && IsActive(e.status)
  {
    var k := AppendEntry(j, e);
    var n := |j.entries|;
    var ids, undo := Ids(j.entries), j.stacks.undo;
    assert Ids(k.entries) == ids + [e.id];
    if e.id in ids {
      var i :| 0 <= i < |ids| && ids[i] == e.id;
      assert Ids(k.entries)[i] == Ids(k.entries)[n];
    } else {
      ConsistentBySets(j);
      FrontOfSelection(undo, Reversed(j.stacks.redo), ids);
      OnlyInOfAppend(ids, [e.id], Members(undo) + {e.id});
      OnlyInSame(ids, Members(undo), Members(undo) + {e.id});
      assert k.stacks.History() == undo + [e.id];
      assert Members(undo + [e.id]) == Members(undo) + {e.id};
      assert OnlyIn([e.id], Members(undo) + {e.id}) == [e.id];
      ConsistentBySets(k);
      ActiveSetOfAppend(j.entries, e);
      assert e.id !in ActiveSet(j.entries) by {
        assert forall i :: 0 <= i < n ==> ids[i] == j.entries[i].id;
      }
    }
  }

  lemma ActiveSetOfAppend<Op>(entries: seq<Entry<Op>>, e: Entry<Op>)
    ensures ActiveSet(entries + [e]) == ActiveSet(entries) + if IsActive(e.status) then {e.id} else {}
  {
    var es := entries + [e];
    assert es[|entries|] == e;
    forall x | x in ActiveSet(entries)
      ensures x in ActiveSet(es)
    {
      var k :| 0 <= k < |entries| && IsActive(entries[k].status) && entries[k].id == x;
      assert es[k] == entries[k];
    }
  }

  lemma PoppedMembers(s: UndoRedoStacks, ids: seq<string>)
    requires s.undo != [] && NoDuplicates(ids) && IsSelection(s.History(), ids)
    ensures var n := |s.undo| - 1;
            Members(s.undo[..n]) == Members(s.undo) - {s.undo[n]}
  {
    var n := |s.undo| - 1;
    var back := [s.undo[n]] + Reversed(s.redo);
    assert s.undo[..n] + back == s.History();
    assert s.undo == s.undo[..n] + [s.undo[n]];
    FrontOfSelection(s.undo[..n], back, ids);
    assert s.undo[n] in Members(back);
  }

  /** The journal after `top` got a status and the boundary in the history moved. */
  lemma MovedIsConsistent<Op>(j: Journal<Op>, top: string, status: Status, stacks: UndoRedoStacks)
    requires Consistent(j) && top in Ids(j.entries) && stacks.History() == j.stacks.History()
    requires Members(stacks.undo) == if IsActive(status) then Members(j.stacks.undo) + {top} else Members(j.stacks.undo) - {top}
    ensures Consistent(Journal(WithStatus(j.entries, top, status), stacks))
  {
    var k := Journal(WithStatus(j.entries, top, status), stacks);
    ConsistentBySets(j);
    ActiveSetWithStatus(j.entries, top, status);
    assert Ids(k.entries) == Ids(j.entries);
    hide ActiveSet, Members, WithStatus, ActiveJournalEntries;
    ConsistentBySets(k);
  }

  lemma UndoneIsConsistent<Op>(j: Journal<Op>)
    requires Consistent(j) && j.stacks.undo != []
    ensures var top := j.stacks.undo[|j.stacks.undo| - 1];
            && top in Ids(j.entries)
            && Consistent(Journal(WithStatus(j.entries, top, Reverted), TransferUndoToRedo(j.stacks).stacks))
  {
    var top := j.stacks.undo[|j.stacks.undo| - 1];
    TopIsRecorded(j, top);
    PoppedMembers(j.stacks, Ids(j.entries));
    UndoMovesTheBoundary(j.stacks);
    hide Consistent, Members, WithStatus;
    MovedIsConsistent(j, top, Reverted, TransferUndoToRedo(j.stacks).stacks);
  }

  /** Undo fails only on an empty stack, another entry than the top, or a corrupt inverse; it keeps consistency. */
  lemma UndoKeeps<Op>(j: Journal<Op>, entryId: Option<string>)
    requires Consistent(j)
    ensures match Undo(j, entryId)
            case Ok(out) =>
              && Consistent(out.journal)
              && j.stacks.undo == out.journal.stacks.undo + [Top(j.stacks.undo).value]
              && out.journal.stacks.redo == j.stacks.redo + [Top(j.stacks.undo).value]
            case Err(e) => e == StackEmpty || e.NotTheTop? || e.StaleInverse?
  {
    hide Consistent, WithStatus, Find;
    if j.stacks.undo != [] {
      UndoneIsConsistent(j);
      PoppedTop(j.stacks.undo);
    }
  }

  lemma PoppedTop(s: seq<string>)
    requires s != []
    ensures s == s[..|s| - 1] + [s[|s| - 1]] && Top(s) == Some(s[|s| - 1])
  {
  }

  lemma TopIsRecorded<Op>(j: Journal<Op>, id: string)
    requires IsSelection(j.stacks.History(), Ids(j.entries)) && id in j.stacks.History()
    ensures id in Ids(j.entries)
  {
    OnlyInMembers(Ids(j.entries), Members(j.stacks.History()));
  }

  lemma RedoneIsConsistent<Op>(j: Journal<Op>)
    requires Consistent(j) && j.stacks.redo != []
    ensures var top := j.stacks.redo[|j.stacks.redo| - 1];
            && top in Ids(j.entries)
            && Consistent(Journal(WithStatus(j.entries, top, Committed), TransferRedoToUndo(j.stacks).stacks))
  {
    var redo := j.stacks.redo;
    var top := redo[|redo| - 1];
    assert Reversed(redo)[0] == top && j.stacks.History()[|j.stacks.undo|] == top;
    TopIsRecorded(j, top);
    assert Members(j.stacks.undo + [top]) == Members(j.stacks.undo) + {top};
    RedoMovesTheBoundary(j.stacks);
    hide Consistent, Members, WithStatus;
    MovedIsConsistent(j, top, Committed, TransferRedoToUndo(j.stacks).stacks);
  }

  /** Redo fails only on an empty stack or another entry than the top; it keeps consistency. */
  lemma RedoKeeps<Op>(j: Journal<Op>, entryId: Option<string>)
    requires Consistent(j)
    ensures match Redo(j, entryId)
            case Ok(out) =>
              && Consistent(out.journal)
              && out.journal.stacks.undo == j.stacks.undo + [Top(j.stacks.redo).value]
              && j.stacks.redo == out.journal.stacks.redo + [Top(j.stacks.redo).value]
            case Err(e) => e == StackEmpty || e.NotTheTop?
  {
    hide Consistent, WithStatus, Find;
    if j.stacks.redo != [] {
      RedoneIsConsistent(j);
      PoppedTop(j.stacks.redo);
    }
  }

  /** Committing keeps consistency exactly for entries on the undo stack. */
  lemma CommitKeepsExactly<Op>(j: Journal<Op>, id: string)
    requires Consistent(j)
    ensures MarkEntryCommitted(j, id).Ok? <==> id in Ids(j.entries)
    ensures MarkEntryCommitted(j, id).Ok? ==> (Consistent(MarkEntryCommitted(j, id).value) <==> id in j.stacks.undo)
  {
    if id in Ids(j.entries) {
      ConsistentBySets(j);
      ConsistentBySets(MarkEntryCommitted(j, id).value);
      ActiveSetWithStatus(j.entries, id, Committed);
      assert id in Members(j.stacks.undo) <==> id in j.stacks.undo;
    }
  }

  /** Reverting outside the undo path keeps consistency exactly for entries that are not on the undo stack. */
  lemma RevertKeepsExactly<Op>(j: Journal<Op>, id: string)
    requires Consistent(j)
    ensures MarkEntryReverted(j, id).Ok? <==> id in Ids(j.entries)
    ensures MarkEntryReverted(j, id).Ok? ==> (Consistent(MarkEntryReverted(j, id).value) <==> id !in j.stacks.undo)
  {
    if id in Ids(j.entries) {
      ConsistentBySets(j);
      ConsistentBySets(MarkEntryReverted(j, id).value);
      ActiveSetWithStatus(j.entries, id, Reverted);
      assert id in Members(j.stacks.undo) <==> id in j.stacks.undo;
    }
  }

  lemma {:induction false} WithoutOfAppend(xs: seq<string>, ys: seq<string>, id: string)
    ensures Without(xs + ys, id) == Without(xs, id) + Without(ys, id)
  {
    if xs == [] {
      assert xs + ys == ys;
    } else {
      assert (xs + ys)[1..] == xs[1..] + ys;
      WithoutOfAppend(xs[1..], ys, id);
    }
  }

  lemma {:induction false} ReversedWithout(xs: seq<string>, id: string)
    ensures Reversed(Without(xs, id)) == Without(Reversed(xs), id)
  {
    if xs != [] {
      ReversedWithout(xs[1..], id);
      assert Reversed(xs) == Reversed(xs[1..]) + [xs[0]];
      WithoutOfAppend(Reversed(xs[1..]), [xs[0]], id);
      assert [xs[0]][1..] == [];
      if xs[0] != id {
        assert Reversed([xs[0]] + Without(xs[1..], id)) == Reversed(Without(xs[1..], id)) + [xs[0]];
      } else {
        assert [] + Without(xs[1..], id) == Without(xs[1..], id);
      }
    }
  }

  /** Superseding any recorded entry keeps consistency: it leaves the history and the active list together. */
  lemma SupersedeKeeps<Op>(j: Journal<Op>, id: string)
    requires Consistent(j)
    ensures MarkEntrySuperseded(j, id).Ok? <==> id in Ids(j.entries)
    ensures MarkEntrySuperseded(j, id).Ok? ==>
              && Consistent(MarkEntrySuperseded(j, id).value)
              && id !in MarkEntrySuperseded(j, id).value.stacks.History()
  {
    if id in Ids(j.entries) {
      var k := MarkEntrySuperseded(j, id).value;
      var undo, history := j.stacks.undo, j.stacks.History();
      ConsistentBySets(j);
      ReversedWithout(j.stacks.redo, id);
      WithoutOfAppend(undo, Reversed(j.stacks.redo), id);
      assert k.stacks.History() == Without(history, id);
      WithoutIsOnlyIn(history, id);
      SelectionOfSelection(history, Ids(j.entries), Members(history) - {id});
      OnlyInMembers(history, Members(history) - {id});
      ConsistentBySets(k);
      ActiveSetWithStatus(j.entries, id, Superseded);
      WithoutIsOnlyIn(undo, id);
      OnlyInMembers(undo, Members(undo) - {id});
      assert Members(k.stacks.undo) == Members(undo) - {id};
    }
  }

  // ---------------------------------------------------------------- whole runs

  datatype Event<Op> =
    | Append(entry: Entry<Op>)
    | UndoTop
    | RedoTop
    | Supersede(id: string)
    | Commit(id: string)
    | Revert(id: string)

  /** A call that throws leaves the caller with the journal it had. */
  function Next<Op>(j: Journal<Op>, e: Event<Op>): Journal<Op> {
    match e
    case Append(entry) => AppendEntry(j, entry)
    case UndoTop => (match Undo(j, None) case Ok(out) => out.journal case Err(_) => j)
    case RedoTop => (match Redo(j, None) case Ok(out) => out.journal case Err(_) => j)
    case Supersede(id) => (match MarkEntrySuperseded(j, id) case Ok(k) => k case Err(_) => j)
    case Commit(id) => (match MarkEntryCommitted(j, id) case Ok(k) => k case Err(_) => j)
    case Revert(id) => (match MarkEntryReverted(j, id) case Ok(k) => k case Err(_) => j)
  }

  /** What a careful caller does: fresh active entries, commits of applied entries, reverts of others. */
  predicate Careful<Op>(j: Journal<Op>, e: Event<Op>) {
    match e
    case Append(entry) => entry.id !in Ids(j.entries) && IsActive(entry.status)
    case Commit(id) => id !in Ids(j.entries) || id in j.stacks.undo
    case Revert(id) => id !in Ids(j.entries) || id !in j.stacks.undo
    case _ => true
  }

  function RunAll<Op>(j: Journal<Op>, es: seq<Event<Op>>): Journal<Op>
    decreases es
  {
    if es == [] then j else RunAll(Next(j, es[0]), es[1..])
  }

  predicate AllCareful<Op>(j: Journal<Op>, es: seq<Event<Op>>)
    decreases es
  {
    es == [] || (Careful(j, es[0]) && AllCareful(Next(j, es[0]), es[1..]))
  }

  /** Carefulness is exactly what one step needs. */
  lemma StepKeepsExactly<Op>(j: Journal<Op>, e: Event<Op>)
    requires Consistent(j)
    ensures Consistent(Next(j, e)) <==> Careful(j, e)
  {
    hide Consistent;
    match e
    case Append(entry) => AppendKeepsExactly(j, entry);
    case UndoTop => UndoKeeps(j, None);
    case RedoTop => RedoKeeps(j, None);
    case Supersede(id) => SupersedeKeeps(j, id);
    case Commit(id) => CommitKeepsExactly(j, id);
    case Revert(id) => RevertKeepsExactly(j, id);
  }

  /** After every careful run the active list is the undo stack and the history is in recording order. */
  lemma {:induction false} RunKeepsConsistent<Op>(j: Journal<Op>, es: seq<Event<Op>>)
    requires Consistent(j) && AllCareful(j, es)
    ensures Consistent(RunAll(j, es))
    decreases es
  {
    hide Consistent, Next;
    if es != [] {
      StepKeepsExactly(j, es[0]);
      RunKeepsConsistent(Next(j, es[0]), es[1..]);
    }
  }

  lemma NewJournalIsConsistent<Op>()
    ensures Consistent(CreateJournal<Op>())
  {
  }
}
