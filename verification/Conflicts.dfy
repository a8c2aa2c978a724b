/**
 * The conflict check between two change sets. The source looks operations up by conflict
 * signature; the specification is the plain question whether some pair of operations, one
 * from each set, conflicts.
 */
module Conflicts {
  import opened Prelude
  import opened Operations
  import Inverse
  import Merge
  import opened EditSlots
  import EditClaims

  function Signatures(op: Operation): seq<string> {
    ConflictSignatures(op.payload)
  }

  // ---------------------------------------------------------------- when two operations conflict

  /** Linked by `inverseOf`, in either direction. */
  predicate Linked(a: Operation, b: Operation) {
    b.base.inverseOf == Some(a.base.id) || a.base.inverseOf == Some(b.base.id)
  }

  datatype CssSlot = CssSlot(element: ElementRef, property: string)

  function FlexSlots(e: ElementRef): seq<CssSlot> {
    [CssSlot(e, "flex-grow"), CssSlot(e, "flex-shrink"), CssSlot(e, "flex-basis")]
  }

  function CssConflictSlots(p: Payload): seq<CssSlot> {
    match p
    case StyleEdit(t, prop, _, _, _) => [CssSlot(t, prop)]
    case RemoveStyle(t, prop, _, _) => [CssSlot(t, prop)]
    case ResizeElement(_, e, prop, _, _, _) => [CssSlot(e, prop)]
    case ResizeFlexPair(_, _, p1, p2, _, _, _, _) => FlexSlots(p1.element) + FlexSlots(p2.element)
    case _ => []
  }

  predicate SameSlot(x: CssSlot, y: CssSlot) {
    x.property == y.property && SameElementIdentity(x.element, y.element)
  }

  /** A flex-pair resize and another css edit of the same element, possibly under a fresh runtime id. */
  predicate Aliases(a: Operation, b: Operation) {
    && (a.payload.ResizeFlexPair? || b.payload.ResizeFlexPair?)
    && exists x, y :: x in CssConflictSlots(a.payload) && y in CssConflictSlots(b.payload) && SameSlot(x, y)
  }

  predicate SharesSignature(a: Operation, b: Operation) {
    exists s :: s in Signatures(a) && s in Signatures(b)
  }

  /** Same signature and not inverse in either sense, or an alias that is not linked. */
  predicate Conflicting(a: Operation, b: Operation) {
    && !Linked(a, b)
    && (|| (SharesSignature(a, b) && !Merge.StructuralInversePair(a.payload, b.payload))
        || Aliases(a, b))
  }

  lemma ConflictingIsSymmetric(a: Operation, b: Operation)
    ensures Conflicting(a, b) <==> Conflicting(b, a)
  {
    hide Signatures, Aliases, Merge.StructuralInversePair, Merge.EffectOf;
    Merge.InverseMeansOpposite(a.payload, b.payload);
    Merge.InverseMeansOpposite(b.payload, a.payload);
    AliasesIsSymmetric(a, b);
    AliasesIsSymmetric(b, a);
  }

  lemma AliasesIsSymmetric(a: Operation, b: Operation)
    ensures Aliases(a, b) ==> Aliases(b, a)
  {
    hide CssConflictSlots;
    if Aliases(a, b) {
      var x, y :| x in CssConflictSlots(a.payload) && y in CssConflictSlots(b.payload) && SameSlot(x, y);
      assert SameSlot(y, x);
    }
  }

  // ---------------------------------------------------------------- the same, by what is edited

  /** One of the two names the other as the operation it inverts. */
  ghost predicate InverseByLink(a: Operation, b: Operation) {
    || (a.base.inverseOf.Some? && a.base.inverseOf.value == b.base.id)
    || (b.base.inverseOf.Some? && b.base.inverseOf.value == a.base.id)
  }

  /** One of the two resizes a flex pair, and both edit one property of what is the same element. */
  ghost predicate EditOneStyle(p: Payload, q: Payload) {
    && (p.ResizeFlexPair? || q.ResizeFlexPair?)
    && exists e1, e2, property ::
         EditClaims.EditsCss(p, e1, property) && EditClaims.EditsCss(q, e2, property) && SameElementIdentity(e1, e2)
  }

  /**
   * No link makes either the inverse of the other, and they touch the same without one undoing
   * the other, or edit one style of the same element.
   */
  ghost predicate Contradict(a: Operation, b: Operation) {
    && !InverseByLink(a, b)
    && (|| (EditClaims.TouchTheSame(a.payload, b.payload) && !EditClaims.Undoing(a.payload, b.payload))
        || EditOneStyle(a.payload, b.payload))
  }

  lemma CssConflictSlotsExactly(p: Payload, x: CssSlot)
    ensures x in CssConflictSlots(p) <==> EditClaims.EditsCss(p, x.element, x.property)
  {
    if p.ResizeFlexPair? {
      assert forall e :: x in FlexSlots(e) <==>
               x.element == e && (x.property == "flex-grow" || x.property == "flex-shrink" || x.property == "flex-basis");
    }
  }

  lemma AliasesExactly(a: Operation, b: Operation)
    ensures Aliases(a, b) <==> EditOneStyle(a.payload, b.payload)
  {
    hide CssConflictSlots, EditClaims.EditsCss, SameElementIdentity;
    if Aliases(a, b) {
      var x, y :| x in CssConflictSlots(a.payload) && y in CssConflictSlots(b.payload) && SameSlot(x, y);
      CssConflictSlotsExactly(a.payload, x);
      CssConflictSlotsExactly(b.payload, y);
    }
    if EditOneStyle(a.payload, b.payload) {
      var e1, e2, property :| EditClaims.EditsCss(a.payload, e1, property) && EditClaims.EditsCss(b.payload, e2, property)
                              && SameElementIdentity(e1, e2);
      CssConflictSlotsExactly(a.payload, CssSlot(e1, property));
      CssConflictSlotsExactly(b.payload, CssSlot(e2, property));
      assert SameSlot(CssSlot(e1, property), CssSlot(e2, property));
    }
  }

  lemma SharesSignatureExactly(a: Operation, b: Operation)
    ensures SharesSignature(a, b) <==> EditClaims.TouchTheSame(a.payload, b.payload)
  {
    EditClaims.SharedExactly(a.payload, b.payload);
    hide EditClaims.TouchTheSame, ConflictSignatures;
    if s :| s in Signatures(a) && s in Signatures(b) {
      assert s in ConflictSignatures(a.payload) && s in ConflictSignatures(b.payload);
    }
    if s :| s in ConflictSignatures(a.payload) && s in ConflictSignatures(b.payload) {
      assert s in Signatures(a) && s in Signatures(b);
    }
  }

  /** What the check compares, signatures and slots, is exactly what the operations edit. */
  lemma ConflictingExactly(a: Operation, b: Operation)
    ensures Conflicting(a, b) <==> Contradict(a, b)
  {
    AliasesExactly(a, b);
    SharesSignatureExactly(a, b);
    EditClaims.StructuralInverseExactly(a.payload, b.payload);
    hide Aliases, EditOneStyle, ConflictSignatures, Merge.StructuralInversePair, EditClaims.TouchTheSame, EditClaims.Undoing;
    assert Linked(a, b) <==> InverseByLink(a, b);
    hide SharesSignature;
  }

  /** Two edits of one property of one element are rejected, whatever their kinds and values, unless linked. */
  lemma SameStyleContradicts(a: Operation, b: Operation, e1: ElementRef, e2: ElementRef, property: string)
    requires EditClaims.EditsCss(a.payload, e1, property) && EditClaims.EditsCss(b.payload, e2, property)
    requires e1.runtimeId == e2.runtimeId
    ensures SomePairConflicts([a], [b]) <==> !InverseByLink(a, b)
  {
    ConflictingExactly(a, b);
    var text := e1.runtimeId + ":" + property;
    assert EditClaims.Touches(a.payload, Css, text) && EditClaims.Touches(b.payload, Css, text);
    assert !EditClaims.Undoing(a.payload, b.payload);
    hide EditClaims.EditsCss, Conflicting, EditOneStyle, EditClaims.Undoing, EditClaims.Touches;
    assert EditClaims.TouchTheSame(a.payload, b.payload);
    assert a in [a] && b in [b];
  }

  /** An element found again under a new runtime id is still the same to a flex-pair resize. */
  lemma RefoundStyleContradicts(a: Operation, b: Operation, e: ElementRef, newRuntimeId: string, property: string)
    requires a.payload.ResizeFlexPair? && !InverseByLink(a, b)
    requires EditClaims.EditsCss(a.payload, e, property)
    requires EditClaims.EditsCss(b.payload, e.(runtimeId := newRuntimeId), property)
    requires e.selector.Some? && e.occurrence.Some? && e.fingerprint.Some?
    ensures SomePairConflicts([a], [b])
  {
    ConflictingExactly(a, b);
    hide EditClaims.EditsCss, Conflicting;
    assert SameElementIdentity(e, e.(runtimeId := newRuntimeId));
    assert EditOneStyle(a.payload, b.payload);
    assert a in [a] && b in [b];
  }

  /** The first slot of `xs` that is also a slot of `ys`. */
  function FirstSharedSlot(xs: seq<CssSlot>, ys: seq<CssSlot>): Option<CssSlot> {
    if xs == [] then None
    else if exists y :: y in ys && SameSlot(xs[0], y) then Some(xs[0])
    else FirstSharedSlot(xs[1..], ys)
  }

  /** The report of an alias names the slot as the first set's operation knows it. */
  function AliasSignature(a: Operation, b: Operation): Option<string> {
    if !a.payload.ResizeFlexPair? && !b.payload.ResizeFlexPair? then None
    else
      match FirstSharedSlot(CssConflictSlots(a.payload), CssConflictSlots(b.payload))
      case None => None
      case Some(x) => Some(CssSignature(x.element.runtimeId, x.property))
  }

  lemma {:induction false} FirstSharedSlotExactly(xs: seq<CssSlot>, ys: seq<CssSlot>)
    ensures FirstSharedSlot(xs, ys).Some? <==> exists x, y :: x in xs && y in ys && SameSlot(x, y)
  {
    if xs != [] {
      FirstSharedSlotExactly(xs[1..], ys);
      assert xs == [xs[0]] + xs[1..];
    }
  }

  lemma AliasSignatureExactly(a: Operation, b: Operation)
    ensures AliasSignature(a, b).Some? <==> Aliases(a, b)
  {
    FirstSharedSlotExactly(CssConflictSlots(a.payload), CssConflictSlots(b.payload));
    hide CssConflictSlots, FirstSharedSlot;
  }

  /** It names a style that both edit, with the element as the first set's operation knows it. */
  lemma AliasSignatureTells(a: Operation, b: Operation)
    requires AliasSignature(a, b).Some?
    ensures exists e1, e2, property ::
              && EditClaims.EditsCss(a.payload, e1, property) && EditClaims.EditsCss(b.payload, e2, property)
              && SameElementIdentity(e1, e2) && AliasSignature(a, b) == Some("css:" + (e1.runtimeId + ":" + property))
  {
    var xs, ys := CssConflictSlots(a.payload), CssConflictSlots(b.payload);
    FirstSharedSlotIsFirst(xs, ys);
    hide CssConflictSlots, FirstSharedSlot, EditClaims.EditsCss, SameElementIdentity;
    var x := FirstSharedSlot(xs, ys).value;
    var y :| y in ys && SameSlot(x, y);
    CssConflictSlotsExactly(a.payload, x);
    CssConflictSlotsExactly(b.payload, y);
    CssSpelling(x.element.runtimeId, x.property);
  }

  /** The shared slot is the first of its list. */
  lemma {:induction false} FirstSharedSlotIsFirst(xs: seq<CssSlot>, ys: seq<CssSlot>)
    ensures match FirstSharedSlot(xs, ys)
            case None => true
            case Some(x) =>
              exists i :: && 0 <= i < |xs| && xs[i] == x && (exists y :: y in ys && SameSlot(x, y))
                          && forall k, y :: 0 <= k < i && y in ys ==> !SameSlot(xs[k], y)
  {
    hide SameSlot;
    if xs != [] && !(exists y :: y in ys && SameSlot(xs[0], y)) {
      var rest := xs[1..];
      FirstSharedSlotIsFirst(rest, ys);
      if FirstSharedSlot(rest, ys).Some? {
        var x := FirstSharedSlot(rest, ys).value;
        var i :| 0 <= i < |rest| && rest[i] == x && (exists y :: y in ys && SameSlot(x, y))
                 && forall k, y :: 0 <= k < i && y in ys ==> !SameSlot(rest[k], y);
        assert xs[i + 1] == x;
        assert forall k :: 0 < k < i + 1 ==> xs[k] == rest[k - 1];
      }
    }
  }

  /** The styles of a flex pair in their order: of the primary and then of the neighbor, grow, shrink and basis. */
  lemma FlexPairInOrder(p: Payload, i: nat)
    requires p.ResizeFlexPair? && i < 6
    ensures |CssConflictSlots(p)| == |SlotsOf(p)| == 6
    ensures var e := if i < 3 then p.primary.element else p.neighbor.element;
            var property := ["flex-grow", "flex-shrink", "flex-basis"][i % 3];
            CssConflictSlots(p)[i] == CssSlot(e, property) && SlotsOf(p)[i] == EditSlot(Css, [e.runtimeId, property])
  {
  }

  lemma {:induction false} SharedSlotFrom(xs: seq<CssSlot>, ys: seq<CssSlot>, i: nat)
    requires i <= |xs| && forall k :: 0 <= k < i ==> FirstSharedSlot([xs[k]], ys).None?
    ensures FirstSharedSlot(xs, ys) == FirstSharedSlot(xs[i..], ys)
  {
    if i > 0 {
      forall k | 0 <= k < i - 1
        ensures FirstSharedSlot([xs[1..][k]], ys).None?
      {
        assert xs[1..][k] == xs[k + 1];
      }
      SharedSlotFrom(xs[1..], ys, i - 1);
      assert xs[1..][i - 1..] == xs[i..];
      assert FirstSharedSlot([xs[0]], ys).None?;
    }
  }

  method FlexPairAliasSignature(a: Operation, b: Operation) returns (signature: Option<string>)
    ensures signature == AliasSignature(a, b)
  {
    hide CssConflictSlots, SameElementIdentity, CssSignature;
    if !a.payload.ResizeFlexPair? && !b.payload.ResizeFlexPair? {
      return None;
    }
    var slotsA, slotsB := CssConflictSlots(a.payload), CssConflictSlots(b.payload);
    for i := 0 to |slotsA|
      invariant forall k :: 0 <= k < i ==> FirstSharedSlot([slotsA[k]], slotsB).None?
    {
      for j := 0 to |slotsB|
        invariant forall y :: y in slotsB[..j] ==> !SameSlot(slotsA[i], y)
      {
        if slotsA[i].property == slotsB[j].property && SameElementIdentity(slotsA[i].element, slotsB[j].element) {
          assert SameSlot(slotsA[i], slotsB[j]);
          SharedSlotFrom(slotsA, slotsB, i);
          return Some(CssSignature(slotsA[i].element.runtimeId, slotsA[i].property));
        }
        assert slotsB[..j + 1] == slotsB[..j] + [slotsB[j]];
      }
      assert slotsB[..|slotsB|] == slotsB;
    }
    SharedSlotFrom(slotsA, slotsB, |slotsA|);
    return None;
  }

  // ---------------------------------------------------------------- merging change sets

  datatype ChangeSet = ChangeSet(
    id: string,
    workspaceId: string,
    sessionId: string,
    page: string,
    viewport: string,
    createdAt: int,
    updatedAt: int,
    selectedTargets: seq<ElementRef>,
    operations: seq<Operation>,
    committed: bool)

  datatype MergeConflict = MergeConflict(signature: string, operationIds: (string, string))

  datatype MergeResult = Merged(changeSet: ChangeSet) | Rejected(conflicts: seq<MergeConflict>)

  // ---------------------------------------------------------------- the reports, without an index

  /** Same signature `s`, without being inverse in either sense. */
  predicate Clashes(a: Operation, b: Operation, s: string) {
    s in Signatures(a) && Unpaired(a, b)
  }

  predicate Unpaired(a: Operation, b: Operation) {
    !Merge.StructuralInversePair(a.payload, b.payload) && !Linked(a, b)
  }

  function FirstClash(ops: seq<Operation>, b: Operation, s: string): Option<Operation> {
    if ops == [] then None
    else
      var n := |ops| - 1;
      var earlier := FirstClash(ops[..n], b, s);
      if earlier.Some? then earlier else if Clashes(ops[n], b, s) then Some(ops[n]) else None
  }

  function ClashReport(opsA: seq<Operation>, b: Operation, s: string): seq<MergeConflict> {
    match FirstClash(opsA, b, s)
    case None => []
    case Some(a) => [MergeConflict(s, (a.base.id, b.base.id))]
  }

  /** One report for every signature of `b` with a clash. */
  function ClashReports(opsA: seq<Operation>, b: Operation, sigs: seq<string>): seq<MergeConflict> {
    if sigs == [] then []
    else
      var n := |sigs| - 1;
      ClashReports(opsA, b, sigs[..n]) + ClashReport(opsA, b, sigs[n])
  }

  predicate Reported(cs: seq<MergeConflict>, a: Operation, b: Operation) {
    exists c :: c in cs && c.operationIds == (a.base.id, b.base.id)
  }

  /** Adds one report for every unlinked alias that is not reported yet. */
  function WithAliases(cs: seq<MergeConflict>, opsA: seq<Operation>, b: Operation): seq<MergeConflict> {
    if opsA == [] then cs
    else
      var n := |opsA| - 1;
      var earlier := WithAliases(cs, opsA[..n], b);
      var signature := AliasSignature(opsA[n], b);
      if signature.Some? && !Linked(opsA[n], b) && !Reported(earlier, opsA[n], b)
      then earlier + [MergeConflict(signature.value, (opsA[n].base.id, b.base.id))]
      else earlier
  }

  function Reports(opsA: seq<Operation>, opsB: seq<Operation>): seq<MergeConflict> {
    if opsB == [] then []
    else
      var n := |opsB| - 1;
      WithAliases(Reports(opsA, opsB[..n]) + ClashReports(opsA, opsB[n], Signatures(opsB[n])), opsA, opsB[n])
  }

  // ---------------------------------------------------------------- the reports are right

  lemma {:induction false} FirstClashExactly(ops: seq<Operation>, b: Operation, s: string)
    ensures match FirstClash(ops, b, s)
            case None => forall a :: a in ops ==> !Clashes(a, b, s)
            case Some(a) => a in ops && Clashes(a, b, s)
  {
    hide Clashes;
    if ops != [] {
      FirstClashExactly(ops[..|ops| - 1], b, s);
      assert ops == ops[..|ops| - 1] + [ops[|ops| - 1]];
    }
  }

  /** `c` reports the pair with a signature they share, or with the slot they alias. */
  ghost predicate Tells(c: MergeConflict, a: Operation, b: Operation) {
    && c.operationIds == (a.base.id, b.base.id)
    && (|| (c.signature in Signatures(b) && Clashes(a, b, c.signature))
        || (!Linked(a, b) && AliasSignature(a, b) == Some(c.signature)))
  }

  ghost predicate IsReal(c: MergeConflict, opsA: seq<Operation>, b: Operation) {
    exists a :: a in opsA && Tells(c, a, b)
  }

  lemma {:induction false} ClashReportsAreReal(opsA: seq<Operation>, b: Operation, sigs: seq<string>)
    requires forall s :: s in sigs ==> s in Signatures(b)
    ensures forall c :: c in ClashReports(opsA, b, sigs) ==> IsReal(c, opsA, b)
  {
    hide Signatures, Clashes, FirstClash;
    if sigs != [] {
      var n := |sigs| - 1;
      ClashReportsAreReal(opsA, b, sigs[..n]);
      FirstClashExactly(opsA, b, sigs[n]);
      forall c | c in ClashReport(opsA, b, sigs[n])
        ensures IsReal(c, opsA, b)
      {
        assert Tells(c, FirstClash(opsA, b, sigs[n]).value, b);
      }
    }
  }

  lemma {:induction false} EveryClashIsTold(opsA: seq<Operation>, b: Operation, sigs: seq<string>, a: Operation, s: string)
    requires a in opsA && s in sigs && Clashes(a, b, s)
    ensures exists c :: c in ClashReports(opsA, b, sigs) && c.signature == s && c.operationIds.1 == b.base.id
  {
    hide Clashes, FirstClash;
    var n := |sigs| - 1;
    if s == sigs[n] {
      FirstClashExactly(opsA, b, s);
      var c := MergeConflict(s, (FirstClash(opsA, b, s).value.base.id, b.base.id));
      assert c in ClashReport(opsA, b, s);
    } else {
      assert sigs == sigs[..n] + [sigs[n]];
      EveryClashIsTold(opsA, b, sigs[..n], a, s);
      var c :| c in ClashReports(opsA, b, sigs[..n]) && c.signature == s && c.operationIds.1 == b.base.id;
      assert c in ClashReports(opsA, b, sigs);
    }
  }

  lemma {:induction false} WithAliasesExactly(cs: seq<MergeConflict>, opsA: seq<Operation>, b: Operation)
    ensures cs <= WithAliases(cs, opsA, b)
    ensures forall c :: c in WithAliases(cs, opsA, b) ==> c in cs || IsReal(c, opsA, b)
    ensures forall a :: a in opsA && Aliases(a, b) && !Linked(a, b) ==> Reported(WithAliases(cs, opsA, b), a, b)
  {
    hide Aliases, AliasSignature, Linked, Clashes, Signatures;
    if opsA != [] {
      var n := |opsA| - 1;
      var (init, last) := (opsA[..n], opsA[n]);
      assert opsA == init + [last];
      WithAliasesExactly(cs, init, b);
      AliasSignatureExactly(last, b);
      var earlier := WithAliases(cs, init, b);
      forall c | c in WithAliases(cs, opsA, b)
        ensures c in cs || IsReal(c, opsA, b)
      {
        if c in earlier && c !in cs {
          var a :| a in init && Tells(c, a, b);
          assert a in opsA;
        } else if c !in cs {
          assert Tells(c, last, b);
        }
      }
      forall a | a in opsA && Aliases(a, b) && !Linked(a, b)
        ensures Reported(WithAliases(cs, opsA, b), a, b)
      {
        ReportedStays(earlier, WithAliases(cs, opsA, b), a, b);
        if a == last && !Reported(earlier, a, b) {
          var c := MergeConflict(AliasSignature(a, b).value, (a.base.id, b.base.id));
          assert c in WithAliases(cs, opsA, b);
        }
      }
    }
  }

  lemma ReportedStays(cs: seq<MergeConflict>, more: seq<MergeConflict>, a: Operation, b: Operation)
    requires cs <= more
    ensures Reported(cs, a, b) ==> Reported(more, a, b)
  {
    if c :| c in cs && c.operationIds == (a.base.id, b.base.id) {
      assert c in more;
    }
  }

  /** Every report names a pair that really conflicts, and tells why. */
  ghost predicate Sound(cs: seq<MergeConflict>, opsA: seq<Operation>, opsB: seq<Operation>) {
    forall c :: c in cs ==> exists a, b :: a in opsA && b in opsB && Conflicting(a, b) && Tells(c, a, b)
  }

  /** Every signature with a clash and every unlinked alias of `b` has a report. */
  ghost predicate Covers(cs: seq<MergeConflict>, opsA: seq<Operation>, b: Operation) {
    && (forall a, s :: a in opsA && s in Signatures(b) && Clashes(a, b, s) ==>
          exists c :: c in cs && c.signature == s && c.operationIds.1 == b.base.id)
    && (forall a :: a in opsA && Aliases(a, b) && !Linked(a, b) ==> Reported(cs, a, b))
  }

  lemma CoversMore(cs: seq<MergeConflict>, more: seq<MergeConflict>, opsA: seq<Operation>, b: Operation)
    requires Covers(cs, opsA, b) && cs <= more
    ensures Covers(more, opsA, b)
  {
    hide Clashes, Signatures, Aliases, Linked;
    forall a, s | a in opsA && s in Signatures(b) && Clashes(a, b, s)
      ensures exists c :: c in more && c.signature == s && c.operationIds.1 == b.base.id
    {
      var c :| c in cs && c.signature == s && c.operationIds.1 == b.base.id;
      assert c in more;
    }
    forall a | a in opsA && Aliases(a, b) && !Linked(a, b)
      ensures Reported(more, a, b)
    {
      ReportedStays(cs, more, a, b);
    }
  }

  lemma TellsConflict(c: MergeConflict, a: Operation, b: Operation)
    requires Tells(c, a, b)
    ensures Conflicting(a, b)
  {
    AliasSignatureExactly(a, b);
    hide Signatures, Aliases, AliasSignature;
    assert c.signature in Signatures(b) && Clashes(a, b, c.signature) ==> SharesSignature(a, b);
  }

  /** Every report is real, and everything that conflicts is reported. */
  lemma {:induction false} ReportsAreExact(opsA: seq<Operation>, opsB: seq<Operation>)
    ensures Sound(Reports(opsA, opsB), opsA, opsB)
    ensures forall b :: b in opsB ==> Covers(Reports(opsA, opsB), opsA, b)
  {
    if opsB != [] {
      var n := |opsB| - 1;
      var (init, b) := (opsB[..n], opsB[n]);
      hide Sound, Covers, WithAliases, ClashReports, Signatures;
      assert opsB == init + [b];
      ReportsAreExact(opsA, init);
      OneMoreIsExact(Reports(opsA, init), opsA, init, b);
    } else {
      assert Reports(opsA, opsB) == [];
    }
  }

  lemma OneMoreIsExact(before: seq<MergeConflict>, opsA: seq<Operation>, init: seq<Operation>, b: Operation)
    requires Sound(before, opsA, init)
    requires forall x :: x in init ==> Covers(before, opsA, x)
    ensures var cs := before + ClashReports(opsA, b, Signatures(b));
            var out := WithAliases(cs, opsA, b);
            Sound(out, opsA, init + [b]) && forall x :: x in init + [b] ==> Covers(out, opsA, x)
  {
    var cs := before + ClashReports(opsA, b, Signatures(b));
    var out := WithAliases(cs, opsA, b);
    ClashReportsAreReal(opsA, b, Signatures(b));
    WithAliasesExactly(cs, opsA, b);
    NewReportsCover(before, opsA, b);
    hide ClashReports, WithAliases, Sound, Covers, IsReal, Signatures, Reported, Aliases, Linked;
    SoundOneMore(before, out, opsA, init, b);
    forall x | x in init
      ensures Covers(out, opsA, x)
    {
      CoversMore(before, out, opsA, x);
    }
  }

  lemma SoundOneMore(before: seq<MergeConflict>, out: seq<MergeConflict>, opsA: seq<Operation>, init: seq<Operation>, b: Operation)
    requires Sound(before, opsA, init) && forall c :: c in out ==> c in before || IsReal(c, opsA, b)
    ensures Sound(out, opsA, init + [b])
  {
    hide Tells, Conflicting;
    forall c | c in out
      ensures exists a, x :: a in opsA && x in init + [b] && Conflicting(a, x) && Tells(c, a, x)
    {
      if c in before {
        var a, x :| a in opsA && x in init && Conflicting(a, x) && Tells(c, a, x);
        assert x in init + [b];
      } else {
        var a :| a in opsA && Tells(c, a, b);
        TellsConflict(c, a, b);
        assert b in init + [b];
      }
    }
  }

  /** The reports made for `b` cover it. */
  lemma NewReportsCover(before: seq<MergeConflict>, opsA: seq<Operation>, b: Operation)
    ensures Covers(WithAliases(before + ClashReports(opsA, b, Signatures(b)), opsA, b), opsA, b)
  {
    var clashes := ClashReports(opsA, b, Signatures(b));
    var cs := before + clashes;
    var out := WithAliases(cs, opsA, b);
    WithAliasesExactly(cs, opsA, b);
    hide ClashReports, WithAliases, Clashes, Signatures, Aliases, Linked, IsReal;
    forall a, s | a in opsA && s in Signatures(b) && Clashes(a, b, s)
      ensures exists c :: c in out && c.signature == s && c.operationIds.1 == b.base.id
    {
      EveryClashIsTold(opsA, b, Signatures(b), a, s);
      var c :| c in clashes && c.signature == s && c.operationIds.1 == b.base.id;
      assert c in cs && c in out;
    }
  }

  ghost predicate SomePairConflicts(opsA: seq<Operation>, opsB: seq<Operation>) {
    exists a, b :: a in opsA && b in opsB && Conflicting(a, b)
  }

  /** There is a report exactly when some pair of operations, one from each set, conflicts. */
  lemma ReportsExactlyOnConflict(opsA: seq<Operation>, opsB: seq<Operation>)
    ensures Reports(opsA, opsB) != [] <==> SomePairConflicts(opsA, opsB)
  {
    ReportsAreExact(opsA, opsB);
    hide Reports, Signatures, Aliases, Tells, Linked, Merge.StructuralInversePair;
    if Reports(opsA, opsB) != [] {
      assert Reports(opsA, opsB)[0] in Reports(opsA, opsB);
    }
    if a, b :| a in opsA && b in opsB && Conflicting(a, b) {
      assert Covers(Reports(opsA, opsB), opsA, b);
      if SharesSignature(a, b) && Unpaired(a, b) {
        var s :| s in Signatures(a) && s in Signatures(b);
        assert Clashes(a, b, s);
      } else {
        assert Reported(Reports(opsA, opsB), a, b);
      }
    }
  }

  lemma ConflictMeansContradiction(opsA: seq<Operation>, opsB: seq<Operation>)
    ensures SomePairConflicts(opsA, opsB) <==> exists x, y :: x in opsA && y in opsB && Contradict(x, y)
  {
    hide Conflicting, Contradict;
    forall x, y
      ensures Conflicting(x, y) <==> Contradict(x, y)
    {
      ConflictingExactly(x, y);
    }
  }

  // ---------------------------------------------------------------- the index

  type Index = map<string, seq<Operation>>

  function BucketOf(m: Index, s: string): seq<Operation> {
    if s in m then m[s] else []
  }

  /** One copy of `op` for every time `s` is among the signatures. */
  function Copies(op: Operation, s: string, sigs: seq<string>): seq<Operation> {
    if sigs == [] then []
    else
      var n := |sigs| - 1;
      Copies(op, s, sigs[..n]) + if sigs[n] == s then [op] else []
  }

  function Bucket(ops: seq<Operation>, s: string): seq<Operation> {
    if ops == [] then []
    else
      var n := |ops| - 1;
      Bucket(ops[..n], s) + Copies(ops[n], s, Signatures(ops[n]))
  }

  ghost predicate Indexes(m: Index, ops: seq<Operation>) {
    forall s :: BucketOf(m, s) == Bucket(ops, s)
  }

  lemma BucketNext(ops: seq<Operation>, i: nat, s: string)
    requires i < |ops|
    ensures Bucket(ops[..i + 1], s) == Bucket(ops[..i], s) + Copies(ops[i], s, Signatures(ops[i]))
  {
    assert ops[..i + 1][..i] == ops[..i];
  }

  lemma CopiesNext(op: Operation, s: string, sigs: seq<string>, k: nat)
    requires k < |sigs|
    ensures Copies(op, s, sigs[..k + 1]) == Copies(op, s, sigs[..k]) + if sigs[k] == s then [op] else []
  {
    assert sigs[..k + 1][..k] == sigs[..k];
  }

  /** `m` is `start` with `op` filed under the given signatures. */
  ghost predicate Filed(start: Index, m: Index, op: Operation, sigs: seq<string>) {
    forall s :: BucketOf(m, s) == BucketOf(start, s) + Copies(op, s, sigs)
  }

  lemma NothingFiled(m: Index, op: Operation)
    ensures Filed(m, m, op, [])
  {
  }

  lemma NothingIndexed()
    ensures Indexes(map[], [])
  {
  }

  lemma BucketAfterFiling(m: Index, key: string, op: Operation, s: string)
    ensures BucketOf(m[key := BucketOf(m, key) + [op]], s) == BucketOf(m, s) + if key == s then [op] else []
    ensures key !in m ==> BucketOf(m, key) + [op] == [op]
  {
  }

  lemma FiledOnce(start: Index, before: Index, op: Operation, sigs: seq<string>, k: nat)
    requires k < |sigs| && Filed(start, before, op, sigs[..k])
    ensures Filed(start, before[sigs[k] := BucketOf(before, sigs[k]) + [op]], op, sigs[..k + 1])
    ensures sigs[k] !in before ==> BucketOf(before, sigs[k]) + [op] == [op]
  {
    var after := before[sigs[k] := BucketOf(before, sigs[k]) + [op]];
    BucketAfterFiling(before, sigs[k], op, sigs[k]);
    forall s
      ensures BucketOf(after, s) == BucketOf(start, s) + Copies(op, s, sigs[..k + 1])
    {
      CopiesNext(op, s, sigs, k);
      BucketAfterFiling(before, sigs[k], op, s);
      hide Copies, BucketOf;
    }
  }

  lemma FiledAll(start: Index, m: Index, ops: seq<Operation>, i: nat)
    requires i < |ops| && Indexes(start, ops[..i]) && Filed(start, m, ops[i], Signatures(ops[i]))
    ensures Indexes(m, ops[..i + 1])
  {
    forall s
      ensures BucketOf(m, s) == Bucket(ops[..i + 1], s)
    {
      BucketNext(ops, i, s);
      hide Copies, Bucket, BucketOf, Signatures;
    }
  }

  method BuildIndex(ops: seq<Operation>) returns (m: Index)
    ensures Indexes(m, ops)
  {
    hide Signatures, Indexes, Filed;
    m := map[];
    NothingIndexed();
    for i := 0 to |ops|
      invariant Indexes(m, ops[..i])
    {
      var op := ops[i];
      var sigs := Signatures(op);
      ghost var start := m;
      NothingFiled(m, op);
      for k := 0 to |sigs|
        invariant Filed(start, m, op, sigs[..k])
      {
        FiledOnce(start, m, op, sigs, k);
        if sigs[k] !in m {
          m := m[sigs[k] := [op]];
        } else {
          m := m[sigs[k] := m[sigs[k]] + [op]];
        }
      }
      assert sigs[..|sigs|] == sigs;
      FiledAll(start, m, ops, i);
    }
    assert ops[..|ops|] == ops;
  }

  function FirstUnpaired(bucket: seq<Operation>, b: Operation): Option<Operation> {
    if bucket == [] then None
    else if Unpaired(bucket[0], b) then Some(bucket[0])
    else FirstUnpaired(bucket[1..], b)
  }

  lemma {:induction false} FirstUnpairedOfAppend(xs: seq<Operation>, ys: seq<Operation>, b: Operation)
    ensures FirstUnpaired(xs + ys, b) == if FirstUnpaired(xs, b).Some? then FirstUnpaired(xs, b) else FirstUnpaired(ys, b)
  {
    hide Unpaired;
    if xs == [] {
      assert xs + ys == ys;
    } else {
      assert (xs + ys)[1..] == xs[1..] + ys;
      FirstUnpairedOfAppend(xs[1..], ys, b);
    }
  }

  lemma {:induction false} FirstCopy(op: Operation, s: string, sigs: seq<string>, b: Operation)
    ensures FirstUnpaired(Copies(op, s, sigs), b) == if s in sigs && Unpaired(op, b) then Some(op) else None
  {
    hide Unpaired;
    if sigs != [] {
      var n := |sigs| - 1;
      assert sigs == sigs[..n] + [sigs[n]];
      FirstCopy(op, s, sigs[..n], b);
      FirstUnpairedOfAppend(Copies(op, s, sigs[..n]), if sigs[n] == s then [op] else [], b);
    }
  }

  /** Looking up the bucket finds what a search through all operations finds. */
  lemma {:induction false} LookupFindsFirstClash(ops: seq<Operation>, b: Operation, s: string)
    ensures FirstUnpaired(Bucket(ops, s), b) == FirstClash(ops, b, s)
  {
    hide Unpaired, Signatures;
    if ops != [] {
      var n := |ops| - 1;
      LookupFindsFirstClash(ops[..n], b, s);
      FirstUnpairedOfAppend(Bucket(ops[..n], s), Copies(ops[n], s, Signatures(ops[n])), b);
      FirstCopy(ops[n], s, Signatures(ops[n]), b);
    }
  }

  // ---------------------------------------------------------------- the loops

  /** `find` in one bucket. */
  method FindCounterpart(bucket: seq<Operation>, opB: Operation) returns (found: Option<Operation>)
    ensures found == FirstUnpaired(bucket, opB)
  {
    hide Merge.StructuralInversePair, Linked;
    for i := 0 to |bucket|
      invariant FirstUnpaired(bucket, opB) == FirstUnpaired(bucket[i..], opB)
    {
      if !Merge.StructuralInversePair(bucket[i].payload, opB.payload) && !Linked(bucket[i], opB) {
        assert Unpaired(bucket[i], opB);
        return Some(bucket[i]);
      }
      assert bucket[i..][1..] == bucket[i + 1..];
    }
    return None;
  }

  method AlreadyReported(conflicts: seq<MergeConflict>, a: Operation, b: Operation) returns (known: bool)
    ensures known <==> Reported(conflicts, a, b)
  {
    for i := 0 to |conflicts|
      invariant forall c :: c in conflicts[..i] ==> c.operationIds != (a.base.id, b.base.id)
    {
      if conflicts[i].operationIds == (a.base.id, b.base.id) {
        assert conflicts[i] in conflicts;
        return true;
      }
      assert conflicts[..i + 1] == conflicts[..i] + [conflicts[i]];
    }
    assert conflicts[..|conflicts|] == conflicts;
    return false;
  }

  lemma ClashReportsNext(opsA: seq<Operation>, b: Operation, sigs: seq<string>, k: nat)
    requires k < |sigs|
    ensures ClashReports(opsA, b, sigs[..k + 1]) == ClashReports(opsA, b, sigs[..k]) + ClashReport(opsA, b, sigs[k])
  {
    assert sigs[..k + 1][..k] == sigs[..k];
  }

  /** The reports one operation of the second set adds. */
  method ReportConflicts(conflicts: seq<MergeConflict>, index: Index, opsA: seq<Operation>, opB: Operation)
    returns (out: seq<MergeConflict>)
    requires Indexes(index, opsA)
    ensures out == WithAliases(conflicts + ClashReports(opsA, opB, Signatures(opB)), opsA, opB)
  {
    hide Signatures, AliasSignature, FirstUnpaired, FirstClash, Bucket, Linked, Reported;
    out := conflicts;
    var sigs := Signatures(opB);
    for k := 0 to |sigs|
      invariant out == conflicts + ClashReports(opsA, opB, sigs[..k])
    {
      LookupFindsFirstClash(opsA, opB, sigs[k]);
      assert BucketOf(index, sigs[k]) == Bucket(opsA, sigs[k]);
      ClashReportsNext(opsA, opB, sigs, k);
      if sigs[k] in index {
        var counterpart := FindCounterpart(index[sigs[k]], opB);
        if counterpart.Some? {
          out := out + [MergeConflict(sigs[k], (counterpart.value.base.id, opB.base.id))];
        }
      } else {
        assert FirstUnpaired([], opB).None? by { NothingUnpaired(opB); }
      }
    }
    assert sigs[..|sigs|] == sigs;
    ghost var found := out;
    for i := 0 to |opsA|
      invariant out == WithAliases(found, opsA[..i], opB)
    {
      var opA := opsA[i];
      assert opsA[..i + 1][..i] == opsA[..i];
      var signature := FlexPairAliasSignature(opA, opB);
      if signature.Some? && !Linked(opA, opB) {
        var known := AlreadyReported(out, opA, opB);
        if !known {
          out := out + [MergeConflict(signature.value, (opA.base.id, opB.base.id))];
        }
      }
    }
    assert opsA[..|opsA|] == opsA;
  }

  lemma NothingUnpaired(b: Operation)
    ensures FirstUnpaired([], b) == None
  {
  }

  /**
   * The merge is rejected, with exactly the specified reports, when there are any, which is
   * when some pair of operations, one from each set, conflicts. Otherwise the result carries
   * the net effect of both streams. `newId` and `now` stand for the generated id and the clock.
   */
  method MergeChangeSets(a: ChangeSet, b: ChangeSet, newId: string, now: int) returns (r: MergeResult)
    ensures r.Rejected? <==> SomePairConflicts(a.operations, b.operations)
    ensures r.Rejected? <==> exists x, y :: x in a.operations && y in b.operations && Contradict(x, y)
    ensures r.Rejected? ==> r.conflicts == Reports(a.operations, b.operations)
    ensures r.Merged? ==>
              r.changeSet == ChangeSet(newId, a.workspaceId, a.sessionId, a.page, a.viewport, now, now,
                                       a.selectedTargets + b.selectedTargets,
                                       Merge.NetEffect(a.operations + b.operations), false)
  {
    hide SomePairConflicts, Merge.NetEffect, WithAliases, ClashReports, Signatures;
    var index := BuildIndex(a.operations);
    var conflicts: seq<MergeConflict> := [];
    for i := 0 to |b.operations|
      invariant conflicts == Reports(a.operations, b.operations[..i])
    {
      var opB := b.operations[i];
      conflicts := ReportConflicts(conflicts, index, a.operations, opB);
      assert b.operations[..i + 1][..i] == b.operations[..i];
    }
    assert b.operations[..|b.operations|] == b.operations;
    ReportsExactlyOnConflict(a.operations, b.operations);
    ConflictMeansContradiction(a.operations, b.operations);
    if |conflicts| > 0 {
      return Rejected(conflicts);
    }
    var merged, _, _ := Merge.MergeOperations(a.operations + b.operations);
    r := Merged(ChangeSet(newId, a.workspaceId, a.sessionId, a.page, a.viewport, now, now,
                          a.selectedTargets + b.selectedTargets, merged, false));
  }

  /** The verdict does not depend on which set comes first. */
  lemma VerdictIsSymmetric(opsA: seq<Operation>, opsB: seq<Operation>)
    ensures SomePairConflicts(opsA, opsB) <==> SomePairConflicts(opsB, opsA)
  {
    hide Conflicting;
    if a, b :| a in opsA && b in opsB && Conflicting(a, b) {
      ConflictingIsSymmetric(a, b);
    }
    if b, a :| b in opsB && a in opsA && Conflicting(b, a) {
      ConflictingIsSymmetric(b, a);
    }
  }

  // ---------------------------------------------------------------- undoing by merging

  /** An operation never conflicts with its computed inverse. */
  lemma InverseNeverConflicts(op: Operation, newId: string, now: nat)
    ensures !SomePairConflicts([op], [Inverse.ComputeInverse(op, newId, now)])
  {
    hide Inverse.InvertPayload, SharesSignature, Aliases;
  }

  lemma StructuralInverseIsOpposite(p: Payload)
    requires Inverse.IsStructural(p)
    ensures Merge.Opposite(Merge.EffectOf(p), Merge.EffectOf(Inverse.InvertPayload(p)))
  {
    hide Inverse.InvertStyle, Inverse.InvertLayout, Inverse.InvertMetadata;
  }

  /** Merging a structural operation with its computed inverse leaves nothing. */
  lemma StructuralInverseCancels(op: Operation, newId: string, now: nat)
    requires Inverse.IsStructural(op.payload)
    ensures Merge.NetEffect([op] + [Inverse.ComputeInverse(op, newId, now)]) == []
  {
    hide Inverse.InvertPayload, Inverse.IsStructural, Merge.EffectOf;
    var inv := Inverse.ComputeInverse(op, newId, now);
    StructuralInverseIsOpposite(op.payload);
    var ops := [op, inv];
    assert [op] + [inv] == ops && ops[1..] == [inv] && [inv][1..] == [];
    var (slot, side) := Merge.Effect(op).value;
    assert Merge.Count([inv], slot, side) == 0 && Merge.Count([inv], slot, side.Other()) == 1;
    assert Merge.Count(ops, slot, side) == 1 && Merge.Count(ops, slot, side.Other()) == 1;
    assert side.Other().Other() == side;
    assert Merge.Survivors([inv], ops) == [];
  }
}
