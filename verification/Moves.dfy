/**
 * What the operations mean, all kinds alike: each moves one place of the page from one content
 * to another. An inverse is right when it moves the same place back.
 */
module Moves {
  import opened Prelude
  import opened Operations
  import opened Inverse

  datatype Place =
    | StyleOf(e: ElementRef, property: string, important: bool)
    | ClassName(e: ElementRef, className: string)
    | ClassSlot(e: ElementRef)
    | AttributeOf(e: ElementRef, name: string)
    | PropOf(e: ElementRef, componentName: string, propName: string, range: SourceRange)
    | TextOf(e: ElementRef)
    | PseudoStyleOf(e: ElementRef, pseudoTarget: string, property: string, important: bool)
    | PositionOf(e: ElementRef, property: string)
    | SizeOf(e: ElementRef, property: string, unit: string)
    | FlexPair(e: ElementRef, container: ElementRef, primary: ElementRef, neighbor: ElementRef,
               witnesses: seq<ElementRef>, axis: FlexAxis)
    | IndexIn(parent: ElementRef, e: ElementRef)
    | HomeOf(elements: seq<ElementRef>)
    | GroupOf(groupId: string)
    | OrderIn(parent: ElementRef, children: seq<ElementRef>)
    | AlignmentOf(elements: seq<ElementRef>, alignment: string)
    | GapsOf(elements: seq<ElementRef>, direction: string, mode: string)
    | LayoutOf(container: ElementRef, property: string)
    | SizingOf(container: ElementRef, childIndex: nat, e: ElementRef)
    | CellOf(grid: ElementRef, e: ElementRef, placement: string)
    | SpanOf(grid: ElementRef, e: ElementRef, direction: string)
    | Node(e: ElementRef, parent: ElementRef, index: nat, tagName: string)
    | WrapperNode(e: ElementRef, parent: ElementRef, tagName: string, wrapped: seq<ElementRef>)
    | Scoped(scope: Scope, place: Place)
    | Crop(crop: Payload)
    | Suggestion(diff: string, ranges: seq<SourceRange>, preconditions: seq<string>)

  datatype Content =
    | Missing
    | Words(words: string)
    | AllWords(all: seq<string>)
    | Index(index: nat, area: Option<string>)
    | Indices(indices: seq<nat>)
    | At(parent: ElementRef, positions: seq<nat>)
    | Group(members: seq<ElementRef>)
    | Sized(sizing: Sizing, size: Option<string>)
    | Flexed(primary: FlexState, neighbor: FlexState, container: Rect, witnesses: seq<Rect>)
    | Present(attributes: Option<map<string, string>>)
    | Applied(applied: bool)

  /** A shift is the move of a flex pair, which states its signed distance beside the contents. */
  datatype Move =
    | Move(place: Place, before: Content, after: Content)
    | Shift(place: Place, before: Content, after: Content, distance: real)
  {
    function Back(): Move {
      match this
      case Move(place, before, after) => Move(place, after, before)
      case Shift(place, before, after, distance) => Shift(place, after, before, -distance)
    }
  }

  function WordsOf(value: Option<string>): Content {
    Words(value.GetOr(""))
  }

  function WitnessElements(ws: seq<Witness>): seq<ElementRef> {
    seq(|ws|, i requires 0 <= i < |ws| => ws[i].element)
  }

  function RectsBefore(ws: seq<Witness>): seq<Rect> {
    seq(|ws|, i requires 0 <= i < |ws| => ws[i].rect.before)
  }

  function RectsAfter(ws: seq<Witness>): seq<Rect> {
    seq(|ws|, i requires 0 <= i < |ws| => ws[i].rect.after)
  }

  function StyleMove(p: Payload): Move
    requires IsStyle(p)
  {
    match p
    case StyleEdit(t, prop, v, imp, prev) => Move(StyleOf(t, prop, imp), WordsOf(prev), Words(v))
    case RemoveStyle(t, prop, prev, imp) => Move(StyleOf(t, prop, imp.GetOr(false)), WordsOf(prev), Missing)
    case ClassAdd(t, c) => Move(ClassName(t, c), Missing, Present(None))
    case ClassRemove(t, c) => Move(ClassName(t, c), Present(None), Missing)
    case ClassReplace(t, o, n) => Move(ClassSlot(t), Words(o), Words(n))
    case SetAttribute(t, name, v, prev) => Move(AttributeOf(t, name), WordsOf(prev), Words(v))
    case SetComponentProp(t, comp, prop, v, prev, range) => Move(PropOf(t, comp, prop, range), WordsOf(prev), Words(v))
    case TextEdit(t, text, prev) => Move(TextOf(t), WordsOf(prev), Words(text))
    case PseudoStyleEdit(t, pt, prop, v, imp, prev) => Move(PseudoStyleOf(t, pt, prop, imp), WordsOf(prev), Words(v))
    case PositionElement(t, prop, from, to) => Move(PositionOf(t, prop), Words(from), Words(to))
    case ResizeElement(_, e, prop, from, to, unit) => Move(SizeOf(e, prop, unit), Words(from), Words(to))
    case ResizeFlexPair(t, c, p1, p2, cw, ws, axis, delta) =>
      Shift(FlexPair(t, c, p1.element, p2.element, WitnessElements(ws), axis),
            Flexed(p1.change.before, p2.change.before, cw.before, RectsBefore(ws)),
            Flexed(p1.change.after, p2.change.after, cw.after, RectsAfter(ws)),
            delta)
  }

  function LayoutMove(p: Payload): Move
    requires IsLayout(p)
  {
    match p
    case ReorderChild(_, parent, child, from, to) => Move(IndexIn(parent, child), Index(from, None), Index(to, None))
    case ReparentElement(_, e, sp, si, tp, ti) => Move(HomeOf([e]), At(sp, [si]), At(tp, [ti]))
    case MultiSelectGroup(_, ts, g, prev) => Move(GroupOf(g), Group(prev.GetOr([])), Group(ts))
    case GroupReorder(_, parent, cs, prev, next) => Move(OrderIn(parent, cs), Indices(prev), Indices(next))
    case GroupReparent(_, es, sp, si, tp, ti) => Move(HomeOf(es), At(sp, si), At(tp, ti))
    case AlignElements(_, ts, a, prev, next) => Move(AlignmentOf(ts, a), AllWords(prev), AllWords(next))
    case DistributeElements(_, ts, axis, mode, prev, next) => Move(GapsOf(ts, axis, mode), AllWords(prev), AllWords(next))
    case SetContainerLayout(_, c, prop, v, prev) => Move(LayoutOf(c, prop), WordsOf(prev), Words(v))
    case SetChildSizing(_, c, i, child, sizing, prev, v, prevV) =>
      Move(SizingOf(c, i, child), Sized(prev.GetOr(sizing), prevV), Sized(sizing, v))
    case GridReorder(_, g, c, pl, from, to, prevA, newA) => Move(CellOf(g, c, pl), Index(from, prevA), Index(to, newA))
    case GridSpan(_, g, c, axis, from, to) => Move(SpanOf(g, c, axis), Index(from, None), Index(to, None))
  }

  function OtherMove(p: Payload): Move
    requires !IsStyle(p) && !IsLayout(p)
  {
    match p
    case InsertElement(_, e, parent, i, tag, attrs) => Move(Node(e, parent, i, tag), Missing, Present(attrs))
    case RemoveElement(_, e, parent, i, tag, attrs) => Move(Node(e, parent, i, tag), Present(attrs), Missing)
    case DuplicateElement(_, _, d, parent, i, tag) => Move(Node(d, parent, i, tag), Missing, Present(None))
    case WrapElements(_, ts, w, parent, tag) => Move(WrapperNode(w, parent, tag, ts), Missing, Present(None))
    case UnwrapElement(_, w, parent, tag, ts) => Move(WrapperNode(w, parent, tag, ts), Present(None), Missing)
    case BreakpointStyleEdit(t, s, prop, v, imp, prev) => Move(Scoped(s, StyleOf(t, prop, imp)), WordsOf(prev), Words(v))
    case BreakpointClassEdit(t, s, o, n) => Move(Scoped(s, ClassSlot(t)), Words(o), Words(n))
    case BreakpointTextEdit(t, s, text, prev) => Move(Scoped(s, TextOf(t)), WordsOf(prev), Words(text))
    case ScreenshotCropRef(_, _, _, _, _) => Move(Crop(p), Missing, Missing)
    case SuggestedDiff(_, d, rs, pre, applied) => Move(Suggestion(d, rs, pre), Applied(false), Applied(applied))
  }

  function MoveOf(p: Payload): Move {
    if IsStyle(p) then StyleMove(p) else if IsLayout(p) then LayoutMove(p) else OtherMove(p)
  }

  lemma StyleInverseMovesBack(p: Payload)
    requires IsStyle(p)
    ensures IsStyle(InvertStyle(p))
    ensures StyleMove(InvertStyle(p)) == StyleMove(p).Back() <==> !p.RemoveStyle?
    ensures StyleMove(InvertStyle(p)).place == StyleMove(p).place && StyleMove(InvertStyle(p)).after == StyleMove(p).before
  {
    if p.ResizeFlexPair? {
      var swapped := SwapWitnesses(p.witnesses);
      assert WitnessElements(swapped) == WitnessElements(p.witnesses);
      assert RectsBefore(swapped) == RectsAfter(p.witnesses);
      assert RectsAfter(swapped) == RectsBefore(p.witnesses);
    }
    hide WitnessElements, RectsBefore, RectsAfter, SwapWitnesses;
  }

  lemma LayoutInverseMovesBack(p: Payload)
    requires IsLayout(p)
    ensures IsLayout(InvertLayout(p))
    ensures LayoutMove(InvertLayout(p)) == LayoutMove(p).Back()
  {
  }

  lemma OtherInverseMovesBack(p: Payload)
    requires !IsStyle(p) && !IsLayout(p)
    ensures var q := InvertPayload(p);
            && !IsStyle(q) && !IsLayout(q)
            && (OtherMove(q) == OtherMove(p).Back() <==> !(p.SuggestedDiff? && p.applied))
            && OtherMove(q).place == OtherMove(p).place && OtherMove(q).after == OtherMove(p).before
  {
    hide InvertStyle, InvertLayout;
  }

  /**
   * Every inverse moves the same place back, from what the operation leaves to what it found,
   * but for two kinds: the inverse of a style removal writes the old value back as if it had
   * never gone, and the inverse of an applied suggestion only clears the flag.
   */
  lemma InverseMovesBackExactly(p: Payload)
    ensures MoveOf(InvertPayload(p)) == MoveOf(p).Back() <==> !p.RemoveStyle? && !(p.SuggestedDiff? && p.applied)
    ensures MoveOf(InvertPayload(p)).place == MoveOf(p).place && MoveOf(InvertPayload(p)).after == MoveOf(p).before
  {
    hide StyleMove, LayoutMove, OtherMove, InvertStyle, InvertLayout, InvertStructural, InvertMetadata;
    if IsStyle(p) {
      StyleInverseMovesBack(p);
    } else if IsLayout(p) {
      LayoutInverseMovesBack(p);
    } else {
      OtherInverseMovesBack(p);
    }
  }

  // ---------------------------------------------------------------- the directions, by the names of the fields

  ghost predicate Leads(p: Payload, before: Content, after: Content) {
    MoveOf(p).before == before && MoveOf(p).after == after
  }

  /** Edits with a value find the previous one, or the empty text, and leave the value. */
  lemma ValuesLead(p: Payload)
    requires p.StyleEdit? || p.SetAttribute? || p.SetComponentProp? || p.PseudoStyleEdit? || p.SetContainerLayout? || p.BreakpointStyleEdit?
    ensures Leads(p, Words(if p.previousValue.Some? then p.previousValue.value else ""), Words(p.value))
  {
  }

  lemma NamesLead(p: Payload)
    ensures p.ClassReplace? || p.BreakpointClassEdit? ==> Leads(p, Words(p.oldClassName), Words(p.newClassName))
    ensures p.TextEdit? || p.BreakpointTextEdit? ==>
              Leads(p, Words(if p.previousText.Some? then p.previousText.value else ""), Words(p.newText))
    ensures p.PositionElement? || p.ResizeElement? ==> Leads(p, Words(p.fromValue), Words(p.toValue))
  {
    hide WitnessElements, RectsBefore, RectsAfter;
  }

  /** What is added was missing, and what is removed is missing. */
  lemma PresenceLeads(p: Payload)
    ensures p.ClassAdd? || p.InsertElement? || p.DuplicateElement? || p.WrapElements? ==>
              MoveOf(p).before == Missing && MoveOf(p).after.Present?
    ensures p.ClassRemove? || p.RemoveElement? || p.UnwrapElement? ==>
              MoveOf(p).before.Present? && MoveOf(p).after == Missing
    ensures p.RemoveStyle? ==> MoveOf(p).after == Missing
    ensures p.InsertElement? || p.RemoveElement? ==>
              Present(p.attributes) == if p.InsertElement? then MoveOf(p).after else MoveOf(p).before
    ensures p.SuggestedDiff? ==> Leads(p, Applied(false), Applied(p.applied))
  {
    hide WitnessElements, RectsBefore, RectsAfter;
  }

  lemma OrderLeads(p: Payload)
    ensures p.ReorderChild? ==> Leads(p, Index(p.fromIndex, None), Index(p.toIndex, None))
    ensures p.GridReorder? ==> Leads(p, Index(p.fromIndex, p.previousGridArea), Index(p.toIndex, p.newGridArea))
    ensures p.GridSpan? ==> Leads(p, Index(p.fromSpan, None), Index(p.toSpan, None))
    ensures p.GroupReorder? ==> Leads(p, Indices(p.previousOrder), Indices(p.newOrder))
    ensures p.ReparentElement? ==> Leads(p, At(p.sourceParent, [p.sourceIndex]), At(p.targetParent, [p.targetIndex]))
    ensures p.GroupReparent? ==> Leads(p, At(p.sourceParent, p.sourceIndices), At(p.targetParent, p.targetIndices))
  {
    hide StyleMove;
  }

  lemma GroupLeads(p: Payload)
    ensures p.MultiSelectGroup? ==> Leads(p, Group(if p.previousTargets.Some? then p.previousTargets.value else []), Group(p.targets))
    ensures p.AlignElements? ==>
              Leads(p, AllWords(p.previousValues), AllWords(p.newValues)) && MoveOf(p).place == AlignmentOf(p.targets, p.alignment)
    ensures p.DistributeElements? ==>
              Leads(p, AllWords(p.previousGaps), AllWords(p.newGaps)) && MoveOf(p).place == GapsOf(p.targets, p.axis, p.mode)
    ensures p.SetChildSizing? ==>
              Leads(p, Sized(if p.previousSizing.Some? then p.previousSizing.value else p.sizing, p.previousSizeValue),
                       Sized(p.sizing, p.sizeValue))
  {
    hide StyleMove;
  }

  /** A flex pair moves both members, the container and every witness from their states before to those after. */
  lemma FlexPairLeads(p: Payload)
    requires p.ResizeFlexPair?
    ensures var m := MoveOf(p);
            && m.place.FlexPair? && m.place.e == p.target && m.place.container == p.container
            && m.place.primary == p.primary.element && m.place.neighbor == p.neighbor.element
            && m.before.Flexed? && m.before.primary == p.primary.change.before && m.before.neighbor == p.neighbor.change.before
            && m.after.Flexed? && m.after.primary == p.primary.change.after && m.after.neighbor == p.neighbor.change.after
            && m.before.container == p.containerWitness.before && m.after.container == p.containerWitness.after
            && |m.before.witnesses| == |m.after.witnesses| == |p.witnesses|
            && forall i :: 0 <= i < |p.witnesses| ==>
                 m.before.witnesses[i] == p.witnesses[i].rect.before && m.after.witnesses[i] == p.witnesses[i].rect.after
  {
  }
}
