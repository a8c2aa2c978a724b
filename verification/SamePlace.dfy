/**
 * The promise of the merge is that edits of the same element and slot in both change sets are
 * reported. What counts as the same slot is taken here from the meaning of the operations: the place
 * that they move. Most edits of one place are reported, and the exceptions are named.
 */
module SamePlace {
  import opened Prelude
  import opened Operations
  import opened EditSlots
  import opened EditClaims
  import opened Moves
  import Conflicts
  import Text
  import Inverse

  /** Groups, alignments, gaps, pseudo-elements, crops and suggestions are compared with nothing. */
  predicate IsUntracked(p: Payload) {
    || p.MultiSelectGroup? || p.AlignElements? || p.DistributeElements?
    || p.PseudoStyleEdit? || p.ScreenshotCropRef? || p.SuggestedDiff?
  }

  /**
   * Of two operations on one place, what tells them apart for the conflict check: the new sizing of a
   * child, the replaced class name, and whether one or several elements move to another parent.
   */
  ghost predicate Agree(p: Payload, q: Payload) {
    && (p.SetChildSizing? && q.SetChildSizing? ==> p.sizing == q.sizing)
    && (p.ClassReplace? && q.ClassReplace? ==> p.oldClassName == q.oldClassName)
    && (p.BreakpointClassEdit? && q.BreakpointClassEdit? ==> p.oldClassName == q.oldClassName)
    && (p.ReparentElement? <==> q.ReparentElement?)
  }

  lemma SameHead(head: string, a: string, b: string)
    ensures head + a == head + b <==> a == b
  {
    assert (head + a)[|head|..] == a && (head + b)[|head|..] == b;
  }

  // ---------------------------------------------------------------- which kinds share a place

  /** Kinds whose places can be equal have the same number. */
  function Sort(p: Payload): nat {
    match p
    case StyleEdit(_, _, _, _, _) => 0
    case RemoveStyle(_, _, _, _) => 0
    case ClassAdd(_, _) => 1
    case ClassRemove(_, _) => 1
    case ClassReplace(_, _, _) => 2
    case SetAttribute(_, _, _, _) => 3
    case SetComponentProp(_, _, _, _, _, _) => 4
    case TextEdit(_, _, _) => 5
    case PseudoStyleEdit(_, _, _, _, _, _) => 6
    case PositionElement(_, _, _, _) => 7
    case ResizeElement(_, _, _, _, _, _) => 8
    case ResizeFlexPair(_, _, _, _, _, _, _, _) => 9
    case ReorderChild(_, _, _, _, _) => 10
    case ReparentElement(_, _, _, _, _, _) => 11
    case GroupReparent(_, _, _, _, _, _) => 11
    case MultiSelectGroup(_, _, _, _) => 12
    case GroupReorder(_, _, _, _, _) => 13
    case AlignElements(_, _, _, _, _) => 14
    case DistributeElements(_, _, _, _, _, _) => 15
    case SetContainerLayout(_, _, _, _, _) => 16
    case SetChildSizing(_, _, _, _, _, _, _, _) => 17
    case GridReorder(_, _, _, _, _, _, _, _) => 18
    case GridSpan(_, _, _, _, _, _) => 19
    case InsertElement(_, _, _, _, _, _) => 20
    case RemoveElement(_, _, _, _, _, _) => 20
    case DuplicateElement(_, _, _, _, _, _) => 20
    case WrapElements(_, _, _, _, _) => 21
    case UnwrapElement(_, _, _, _, _) => 21
    case BreakpointStyleEdit(_, _, _, _, _, _) => 22
    case BreakpointClassEdit(_, _, _, _) => 23
    case BreakpointTextEdit(_, _, _, _) => 24
    case ScreenshotCropRef(_, _, _, _, _) => 25
    case SuggestedDiff(_, _, _, _, _) => 26
  }

  function SortOfPlace(place: Place): nat {
    match place
    case StyleOf(_, _, _) => 0
    case ClassName(_, _) => 1
    case ClassSlot(_) => 2
    case AttributeOf(_, _) => 3
    case PropOf(_, _, _, _) => 4
    case TextOf(_) => 5
    case PseudoStyleOf(_, _, _, _) => 6
    case PositionOf(_, _) => 7
    case SizeOf(_, _, _) => 8
    case FlexPair(_, _, _, _, _, _) => 9
    case IndexIn(_, _) => 10
    case HomeOf(_) => 11
    case GroupOf(_) => 12
    case OrderIn(_, _) => 13
    case AlignmentOf(_, _) => 14
    case GapsOf(_, _, _) => 15
    case LayoutOf(_, _) => 16
    case SizingOf(_, _, _) => 17
    case CellOf(_, _, _) => 18
    case SpanOf(_, _, _) => 19
    case Node(_, _, _, _) => 20
    case WrapperNode(_, _, _, _) => 21
    case Scoped(_, inner) => if inner.StyleOf? then 22 else if inner.ClassSlot? then 23 else 24
    case Crop(_) => 25
    case Suggestion(_, _, _) => 26
  }

  lemma StyleSort(p: Payload)
    requires Inverse.IsStyle(p)
    ensures SortOfPlace(StyleMove(p).place) == Sort(p)
  {
    hide WitnessElements, RectsBefore, RectsAfter;
  }

  lemma LayoutSort(p: Payload)
    requires Inverse.IsLayout(p)
    ensures SortOfPlace(LayoutMove(p).place) == Sort(p)
  {
  }

  lemma OtherSort(p: Payload)
    requires !Inverse.IsStyle(p) && !Inverse.IsLayout(p)
    ensures SortOfPlace(OtherMove(p).place) == Sort(p)
  {
  }

  lemma PlaceSort(p: Payload)
    ensures SortOfPlace(MoveOf(p).place) == Sort(p)
  {
    hide StyleMove, LayoutMove, OtherMove, SortOfPlace, Sort;
    if Inverse.IsStyle(p) {
      StyleSort(p);
    } else if Inverse.IsLayout(p) {
      LayoutSort(p);
    } else {
      OtherSort(p);
    }
  }

  // ---------------------------------------------------------------- slots at one place

  lemma EqualSlots(p: Payload, q: Payload)
    requires SlotsOf(p) == SlotsOf(q) != []
    ensures TouchTheSame(p, q)
  {
    SharedSlotTouches(p, q, SlotsOf(p)[0], SlotsOf(q)[0]);
  }

  lemma NoSlots(p: Payload, q: Payload)
    requires SlotsOf(p) == []
    ensures !TouchTheSame(p, q)
  {
    hide SlotsOf, Touches;
    forall f, text
      ensures !Touches(p, f, text)
    {
      ClaimsExactly(p, f, text);
      NoSlot(p, f, text);
    }
  }

  lemma SingleSlots(p: Payload, q: Payload, x: EditSlot, y: EditSlot)
    requires SlotsOf(p) == [x] && SlotsOf(q) == [y]
    ensures TouchTheSame(p, q) <==> x.family == y.family && JoinedNames(x) == JoinedNames(y)
  {
    SharedExactly(p, q);
    SharedSignatureExactly(p, q);
    hide SlotsOf, TouchTheSame, ConflictSignatures, JoinedNames;
    assert x in SlotsOf(p) && y in SlotsOf(q);
  }

  /** What distinguishes the two sometimes, although they move one place. */
  predicate IsDelicate(p: Payload) {
    p.ClassReplace? || p.BreakpointClassEdit? || p.SetChildSizing? || p.ReparentElement? || p.GroupReparent?
  }

  lemma StyleNumbers(p: Payload)
    ensures p.StyleEdit? || p.RemoveStyle? <==> Sort(p) == 0
    ensures (p.ResizeElement? <==> Sort(p) == 8) && (p.ResizeFlexPair? <==> Sort(p) == 9)
  {
  }

  lemma ContentNumbers(p: Payload)
    ensures (p.ClassAdd? || p.ClassRemove? <==> Sort(p) == 1) && (p.SetAttribute? <==> Sort(p) == 3)
    ensures (p.SetComponentProp? <==> Sort(p) == 4) && (p.TextEdit? <==> Sort(p) == 5)
    ensures (p.PseudoStyleEdit? <==> Sort(p) == 6) && (p.PositionElement? <==> Sort(p) == 7)
  {
  }

  lemma LayoutNumbers(p: Payload)
    ensures (p.ReorderChild? <==> Sort(p) == 10) && (p.GroupReorder? <==> Sort(p) == 13)
    ensures (p.SetContainerLayout? <==> Sort(p) == 16) && (p.GridReorder? <==> Sort(p) == 18) && (p.GridSpan? <==> Sort(p) == 19)
  {
  }

  lemma CssSlots(p: Payload, q: Payload)
    requires IsCssEdit(p) && Inverse.IsStyle(q) && Sort(p) == Sort(q) && StyleMove(p).place == StyleMove(q).place
    ensures SlotsOf(p) == SlotsOf(q) != []
  {
    StyleNumbers(p);
    StyleNumbers(q);
    hide Sort, WitnessElements, RectsBefore, RectsAfter;
    if p.ResizeFlexPair? {
      assert p.primary.element == q.primary.element && p.neighbor.element == q.neighbor.element;
      hide FlexSlotsOf;
    }
  }

  lemma StyleSlots(p: Payload, q: Payload)
    requires Inverse.IsStyle(p) && Inverse.IsStyle(q) && Sort(p) == Sort(q) && StyleMove(p).place == StyleMove(q).place
    requires !p.ClassReplace?
    ensures SlotsOf(p) == SlotsOf(q) && (SlotsOf(p) == [] <==> p.PseudoStyleEdit?)
  {
    if IsCssEdit(p) {
      CssSlots(p, q);
      hide SlotsOf, StyleMove;
    } else {
      ContentNumbers(p);
      ContentNumbers(q);
      hide Sort, FlexSlotsOf, WitnessElements, RectsBefore, RectsAfter;
    }
  }

  predicate IsTrackedLayout(p: Payload) {
    p.ReorderChild? || p.GroupReorder? || p.SetContainerLayout? || p.GridReorder? || p.GridSpan?
  }

  lemma TrackedLayoutSlots(p: Payload, q: Payload)
    requires IsTrackedLayout(p) && Inverse.IsLayout(q) && Sort(p) == Sort(q) && LayoutMove(p).place == LayoutMove(q).place
    ensures SlotsOf(p) == SlotsOf(q) != []
  {
    LayoutNumbers(p);
    LayoutNumbers(q);
    hide Sort;
  }

  lemma LayoutSlots(p: Payload, q: Payload)
    requires Inverse.IsLayout(p) && Inverse.IsLayout(q) && Sort(p) == Sort(q) && LayoutMove(p).place == LayoutMove(q).place
    requires !IsDelicate(p)
    ensures SlotsOf(p) == SlotsOf(q) && (SlotsOf(p) == [] <==> IsUntracked(p))
  {
    hide LayoutMove;
    if IsTrackedLayout(p) {
      TrackedLayoutSlots(p, q);
      hide SlotsOf, Sort;
    } else {
      KindOfSort(p);
      KindOfSort(q);
      hide Sort;
      assert IsUntracked(p) && IsUntracked(q);
    }
  }

  lemma OtherSlots(p: Payload, q: Payload)
    requires !Inverse.IsStyle(p) && !Inverse.IsLayout(p) && !Inverse.IsStyle(q) && !Inverse.IsLayout(q)
    requires Sort(p) == Sort(q) && OtherMove(p).place == OtherMove(q).place
    requires !p.BreakpointClassEdit?
    ensures SlotsOf(p) == SlotsOf(q) && (SlotsOf(p) == [] <==> IsUntracked(p))
  {
  }

  lemma SortIsKind(p: Payload, q: Payload)
    requires Sort(p) == Sort(q)
    ensures Inverse.IsStyle(p) == Inverse.IsStyle(q) && Inverse.IsLayout(p) == Inverse.IsLayout(q)
    ensures IsDelicate(p) == IsDelicate(q) && IsUntracked(p) == IsUntracked(q)
    ensures Inverse.IsStyle(p) ==> !Inverse.IsLayout(p) && (IsUntracked(p) <==> p.PseudoStyleEdit?) && (IsDelicate(p) <==> p.ClassReplace?)
    ensures !Inverse.IsStyle(p) && !Inverse.IsLayout(p) ==> (IsDelicate(p) <==> p.BreakpointClassEdit?)
  {
    KindOfSort(p);
    KindOfSort(q);
    hide Sort, Inverse.IsStyle, Inverse.IsLayout, IsDelicate, IsUntracked;
  }

  lemma KindOfSort(p: Payload)
    ensures var n := Sort(p);
            && (Inverse.IsStyle(p) <==> n <= 9) && (Inverse.IsLayout(p) <==> 10 <= n <= 19)
            && (IsDelicate(p) <==> n == 2 || n == 11 || n == 17 || n == 23)
            && (IsUntracked(p) <==> n == 6 || n == 12 || n == 14 || n == 15 || n == 25 || n == 26)
            && (p.PseudoStyleEdit? <==> n == 6) && (p.ClassReplace? <==> n == 2) && (p.BreakpointClassEdit? <==> n == 23)
  {
  }

  lemma PlainAtOnePlace(p: Payload, q: Payload)
    requires MoveOf(p).place == MoveOf(q).place && Sort(p) == Sort(q) && !IsDelicate(p)
    ensures TouchTheSame(p, q) <==> !IsUntracked(p)
  {
    SortIsKind(p, q);
    hide StyleMove, LayoutMove, OtherMove, Sort, IsDelicate, IsUntracked, TouchTheSame, SlotsOf, Inverse.IsStyle, Inverse.IsLayout;
    if Inverse.IsStyle(p) {
      StyleSlots(p, q);
    } else if Inverse.IsLayout(p) {
      LayoutSlots(p, q);
    } else {
      OtherSlots(p, q);
    }
    if SlotsOf(p) == [] {
      NoSlots(p, q);
    } else {
      EqualSlots(p, q);
    }
  }

  lemma ClassAtOnePlace(p: Payload, q: Payload)
    requires p.ClassReplace? && q.ClassReplace? && MoveOf(p).place == MoveOf(q).place
    ensures TouchTheSame(p, q) <==> p.oldClassName == q.oldClassName
  {
    var id := p.target.runtimeId;
    assert id == q.target.runtimeId;
    SingleSlots(p, q, EditSlot(Class, [id, p.oldClassName]), EditSlot(Class, [id, q.oldClassName]));
    hide TouchTheSame, SlotsOf;
    JoinOfTwo(id, p.oldClassName);
    JoinOfTwo(id, q.oldClassName);
    SameHead(id + ":", p.oldClassName, q.oldClassName);
  }

  lemma BreakpointClassAtOnePlace(p: Payload, q: Payload)
    requires p.BreakpointClassEdit? && q.BreakpointClassEdit? && MoveOf(p).place == MoveOf(q).place
    ensures TouchTheSame(p, q) <==> p.oldClassName == q.oldClassName
  {
    var (id, b) := (p.target.runtimeId, p.scope.breakpoint);
    assert id == q.target.runtimeId && b == q.scope.breakpoint;
    SingleSlots(p, q, EditSlot(BpClass, [id, b, p.oldClassName]), EditSlot(BpClass, [id, b, q.oldClassName]));
    hide TouchTheSame, SlotsOf, Text.Join;
    JoinOfThree(id, b, p.oldClassName);
    JoinOfThree(id, b, q.oldClassName);
    SameHead(id + ":" + b + ":", p.oldClassName, q.oldClassName);
  }

  lemma SizingAtOnePlace(p: Payload, q: Payload)
    requires p.SetChildSizing? && q.SetChildSizing? && MoveOf(p).place == MoveOf(q).place
    ensures TouchTheSame(p, q) <==> p.sizing == q.sizing
  {
    var (id, i) := (p.container.runtimeId, Decimal(p.childIndex));
    assert id == q.container.runtimeId && p.childIndex == q.childIndex;
    var (a, b) := (SizingName(p.sizing), SizingName(q.sizing));
    SingleSlots(p, q, EditSlot(ChildSizing, [id, i, a]), EditSlot(ChildSizing, [id, i, b]));
    assert a == b <==> p.sizing == q.sizing by { SizingNamesDiffer(p.sizing, q.sizing); }
    hide TouchTheSame, SlotsOf, Text.Join, Decimal, SizingName;
    JoinOfThree(id, i, a);
    JoinOfThree(id, i, b);
    SameHead(id + ":" + i + ":", a, b);
  }

  lemma SizingNamesDiffer(s: Sizing, t: Sizing)
    ensures SizingName(s) == SizingName(t) <==> s == t
  {
    assert SizingName(s)[0] == (if s.Hug? then 'h' else 'f') && |SizingName(s)| == (if s.Hug? then 3 else if s.Fill? then 4 else 5);
    assert SizingName(t)[0] == (if t.Hug? then 'h' else 'f') && |SizingName(t)| == (if t.Hug? then 3 else if t.Fill? then 4 else 5);
  }

  lemma HomeAtOnePlace(p: Payload, q: Payload)
    requires (p.ReparentElement? || p.GroupReparent?) && (q.ReparentElement? || q.GroupReparent?)
    requires MoveOf(p).place == MoveOf(q).place
    ensures TouchTheSame(p, q) <==> (p.ReparentElement? <==> q.ReparentElement?)
  {
    var (x, y) := (SlotsOf(p)[0], SlotsOf(q)[0]);
    assert p.ReparentElement? && q.ReparentElement? ==> [p.element][0] == [q.element][0];
    assert SlotsOf(p) == [x] && SlotsOf(q) == [y];
    SingleSlots(p, q, x, y);
    hide TouchTheSame, JoinedNames;
  }

  /**
   * Two operations that move the same place touch the same, so that the merge reports them, exactly if
   * their kind is tracked and they agree. So it lets through two sizings of one child that differ, two
   * replacements of different names in one element's class list, and the moves of one element alone and
   * in a group.
   */
  lemma SamePlaceTouchesExactly(p: Payload, q: Payload)
    requires MoveOf(p).place == MoveOf(q).place
    ensures TouchTheSame(p, q) <==> !IsUntracked(p) && Agree(p, q)
  {
    PlaceSort(p);
    PlaceSort(q);
    if !IsDelicate(p) {
      PlainAtOnePlace(p, q);
      NotDelicate(p, q);
    } else {
      DelicateKinds(p, q);
      hide MoveOf, TouchTheSame, Sort;
      if p.ClassReplace? {
        ClassAtOnePlace(p, q);
      } else if p.BreakpointClassEdit? {
        BreakpointClassAtOnePlace(p, q);
      } else if p.SetChildSizing? {
        SizingAtOnePlace(p, q);
      } else {
        HomeAtOnePlace(p, q);
      }
    }
  }

  lemma NotDelicate(p: Payload, q: Payload)
    requires Sort(p) == Sort(q) && !IsDelicate(p)
    ensures Agree(p, q)
  {
  }

  lemma DelicateKinds(p: Payload, q: Payload)
    requires Sort(p) == Sort(q) && IsDelicate(p)
    ensures p.ClassReplace? == q.ClassReplace? && p.BreakpointClassEdit? == q.BreakpointClassEdit?
    ensures p.SetChildSizing? == q.SetChildSizing?
    ensures (p.ReparentElement? || p.GroupReparent?) == (q.ReparentElement? || q.GroupReparent?)
  {
  }

  /** What the merge makes of it, for two operations that are not linked and do not undo each other. */
  lemma SamePlaceIsReportedExactly(a: Operation, b: Operation)
    requires MoveOf(a.payload).place == MoveOf(b.payload).place
    requires !Conflicts.InverseByLink(a, b) && !Undoing(a.payload, b.payload)
    ensures Conflicts.SomePairConflicts([a], [b]) <==> !IsUntracked(a.payload) && Agree(a.payload, b.payload)
  {
    SamePlaceTouchesExactly(a.payload, b.payload);
    Conflicts.ConflictingExactly(a, b);
    if Conflicts.EditOneStyle(a.payload, b.payload) {
      OneStyleTouches(a.payload, b.payload);
    }
    hide MoveOf, TouchTheSame, Undoing, Conflicts.EditOneStyle, Conflicts.Conflicting, Agree;
    assert a in [a] && b in [b];
  }

  /** Where a flex pair moves one place with another operation, the two touch the same anyway. */
  lemma OneStyleTouches(p: Payload, q: Payload)
    requires MoveOf(p).place == MoveOf(q).place && Conflicts.EditOneStyle(p, q)
    ensures TouchTheSame(p, q)
  {
    PlaceSort(p);
    PlaceSort(q);
    assert !IsDelicate(p) && !IsUntracked(p);
    hide Conflicts.EditOneStyle, TouchTheSame, MoveOf;
    PlainAtOnePlace(p, q);
  }
}
