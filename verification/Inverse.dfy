/** The inverse that is stored with every recorded operation. */
module Inverse {
  import opened Prelude
  import opened Operations

  /** A fresh id, a link to the operation, and every context field of the operation itself. */
  function InverseBase(b: Base, newId: string, now: nat): Base {
    Base(newId, Some(b.id), now, b.runtime, b.origin, b.confidence, b.breakpoint, b.pseudoState, b.notes)
  }

  function SwapMember(m: FlexMember): FlexMember {
    m.(change := m.change.Swapped())
  }

  function SwapWitnesses(ws: seq<Witness>): seq<Witness> {
    seq(|ws|, i requires 0 <= i < |ws| => ws[i].(rect := ws[i].rect.Swapped()))
  }

  function InvertStyle(p: Payload): Payload
    requires IsStyle(p)
  {
    match p
    case StyleEdit(t, prop, v, imp, prev) => StyleEdit(t, prop, prev.GetOr(""), imp, Some(v))
    case RemoveStyle(t, prop, prev, imp) => StyleEdit(t, prop, prev.GetOr(""), imp.GetOr(false), Some(prev.GetOr("")))
    case ClassAdd(t, c) => ClassRemove(t, c)
    case ClassRemove(t, c) => ClassAdd(t, c)
    case ClassReplace(t, o, n) => ClassReplace(t, n, o)
    case SetAttribute(t, name, v, prev) => SetAttribute(t, name, prev.GetOr(""), Some(v))
    case SetComponentProp(t, comp, prop, v, prev, range) => SetComponentProp(t, comp, prop, prev.GetOr(""), Some(v), range)
    case TextEdit(t, text, prev) => TextEdit(t, prev.GetOr(""), Some(text))
    case PseudoStyleEdit(t, pt, prop, v, imp, prev) => PseudoStyleEdit(t, pt, prop, prev.GetOr(""), imp, Some(v))
    case PositionElement(t, prop, from, to) => PositionElement(t, prop, to, from)
    case ResizeElement(_, e, prop, from, to, unit) => ResizeElement(None, e, prop, to, from, unit)
    case ResizeFlexPair(t, c, p1, p2, cw, ws, axis, delta) =>
      ResizeFlexPair(t, c, SwapMember(p1), SwapMember(p2), cw.Swapped(), SwapWitnesses(ws), axis, -delta)
  }

  predicate IsStyle(p: Payload) {
    || p.StyleEdit? || p.RemoveStyle? || p.ClassAdd? || p.ClassRemove? || p.ClassReplace? || p.SetAttribute?
    || p.SetComponentProp? || p.TextEdit? || p.PseudoStyleEdit? || p.PositionElement? || p.ResizeElement?
    || p.ResizeFlexPair?
  }

  function InvertLayout(p: Payload): Payload
    requires IsLayout(p)
  {
    match p
    case ReorderChild(_, parent, child, from, to) => ReorderChild(None, parent, child, to, from)
    case ReparentElement(_, e, sp, si, tp, ti) => ReparentElement(None, e, tp, ti, sp, si)
    case MultiSelectGroup(_, ts, g, prev) => MultiSelectGroup(None, prev.GetOr([]), g, Some(ts))
    case GroupReorder(_, parent, cs, prev, next) => GroupReorder(None, parent, cs, next, prev)
    case GroupReparent(_, es, sp, si, tp, ti) => GroupReparent(None, es, tp, ti, sp, si)
    case AlignElements(_, ts, a, prev, next) => AlignElements(None, ts, a, next, prev)
    case DistributeElements(_, ts, axis, mode, prev, next) => DistributeElements(None, ts, axis, mode, next, prev)
    case SetContainerLayout(_, c, prop, v, prev) => SetContainerLayout(None, c, prop, prev.GetOr(""), Some(v))
    case SetChildSizing(_, c, i, child, sizing, prev, v, prevV) =>
      SetChildSizing(None, c, i, child, prev.GetOr(sizing), Some(sizing), prevV, v)
    case GridReorder(_, g, c, pl, from, to, prevA, newA) => GridReorder(None, g, c, pl, to, from, newA, prevA)
    case GridSpan(_, g, c, axis, from, to) => GridSpan(None, g, c, axis, to, from)
  }

  predicate IsLayout(p: Payload) {
    || p.ReorderChild? || p.ReparentElement? || p.MultiSelectGroup? || p.GroupReorder? || p.GroupReparent?
    || p.AlignElements? || p.DistributeElements? || p.SetContainerLayout? || p.SetChildSizing? || p.GridReorder?
    || p.GridSpan?
  }

  function InvertMetadata(p: Payload): Payload
    requires IsMetadata(p)
  {
    match p
    case BreakpointStyleEdit(t, s, prop, v, imp, prev) => BreakpointStyleEdit(t, s, prop, prev.GetOr(""), imp, Some(v))
    case BreakpointClassEdit(t, s, o, n) => BreakpointClassEdit(t, s, n, o)
    case BreakpointTextEdit(t, s, text, prev) => BreakpointTextEdit(t, s, prev.GetOr(""), Some(text))
    case ScreenshotCropRef(_, _, _, _, _) => p
    case SuggestedDiff(h, d, rs, pre, _) => SuggestedDiff(h, d, rs, pre, false)
  }

  predicate IsMetadata(p: Payload) {
    p.BreakpointStyleEdit? || p.BreakpointClassEdit? || p.BreakpointTextEdit? || p.ScreenshotCropRef? || p.SuggestedDiff?
  }

  function InvertStructural(p: Payload): Payload
    requires IsStructural(p)
  {
    match p
    case InsertElement(_, e, parent, i, tag, attrs) => RemoveElement(None, e, parent, i, tag, attrs)
    case RemoveElement(_, e, parent, i, tag, attrs) => InsertElement(None, e, parent, i, tag, attrs)
    case DuplicateElement(_, _, d, parent, i, tag) => RemoveElement(None, d, parent, i, tag, None)
    case WrapElements(_, ts, w, parent, tag) => UnwrapElement(None, w, parent, tag, ts)
    case UnwrapElement(_, w, parent, tag, ts) => WrapElements(None, ts, w, parent, tag)
  }

  predicate IsStructural(p: Payload) {
    p.InsertElement? || p.RemoveElement? || p.DuplicateElement? || p.WrapElements? || p.UnwrapElement?
  }

  function InvertPayload(p: Payload): Payload {
    if IsStyle(p) then InvertStyle(p)
    else if IsLayout(p) then InvertLayout(p)
    else if IsStructural(p) then InvertStructural(p)
    else InvertMetadata(p)
  }

  /** `newId` and `now` stand for the generated id and the clock. */
  function ComputeInverse(op: Operation, newId: string, now: nat): Operation {
    Operation(InverseBase(op.base, newId, now), InvertPayload(op.payload))
  }

  // ---------------------------------------------------------------- inverse law

  lemma SwapWitnessesTwice(ws: seq<Witness>)
    ensures SwapWitnesses(SwapWitnesses(ws)) == ws
  {
  }

  /**
   * When inverting twice restores the payload: the previous value was captured where one is
   * optional, no hint is set where the inverse drops it, a suggestion is not yet applied, and
   * the operation is neither a style removal nor a duplication, whose inverses are one-way.
   */
  predicate Lossless(p: Payload) {
    match p
    case StyleEdit(_, _, _, _, prev) => prev.Some?
    case RemoveStyle(_, _, _, _) => false
    case SetAttribute(_, _, _, prev) => prev.Some?
    case SetComponentProp(_, _, _, _, prev, _) => prev.Some?
    case TextEdit(_, _, prev) => prev.Some?
    case PseudoStyleEdit(_, _, _, _, _, prev) => prev.Some?
    case MultiSelectGroup(h, _, _, prev) => h.None? && prev.Some?
    case SetContainerLayout(h, _, _, _, prev) => h.None? && prev.Some?
    case SetChildSizing(h, _, _, _, _, prev, _, _) => h.None? && prev.Some?
    case DuplicateElement(_, _, _, _, _, _) => false
    case BreakpointStyleEdit(_, _, _, _, _, prev) => prev.Some?
    case BreakpointTextEdit(_, _, _, prev) => prev.Some?
    case SuggestedDiff(_, _, _, _, applied) => !applied
    case ClassAdd(_, _) => true
    case ClassRemove(_, _) => true
    case ClassReplace(_, _, _) => true
    case PositionElement(_, _, _, _) => true
    case ResizeFlexPair(_, _, _, _, _, _, _, _) => true
    case BreakpointClassEdit(_, _, _, _) => true
    case ScreenshotCropRef(_, _, _, _, _) => true
    case _ => p.hint.None?
  }

  lemma InvertStyleTwice(p: Payload)
    requires IsStyle(p)
    ensures InvertPayload(InvertPayload(p)) == p <==> Lossless(p)
  {
    if p.ResizeFlexPair? {
      SwapWitnessesTwice(p.witnesses);
    }
  }

  lemma InvertLayoutTwice(p: Payload)
    requires IsLayout(p)
    ensures InvertPayload(InvertPayload(p)) == p <==> Lossless(p)
  {
    hide InvertStyle, InvertStructural, InvertMetadata;
  }

  lemma InvertOtherTwice(p: Payload)
    requires !IsStyle(p) && !IsLayout(p)
    ensures InvertPayload(InvertPayload(p)) == p <==> Lossless(p)
  {
    hide InvertStyle, InvertLayout;
  }

  lemma InvertTwiceExactly(p: Payload)
    ensures InvertPayload(InvertPayload(p)) == p <==> Lossless(p)
  {
    hide InvertPayload, Lossless;
    if IsStyle(p) {
      InvertStyleTwice(p);
    } else if IsLayout(p) {
      InvertLayoutTwice(p);
    } else {
      InvertOtherTwice(p);
    }
  }

  lemma StyleInverseIsLossless(p: Payload)
    requires IsStyle(p)
    ensures Lossless(InvertStyle(p))
  {
    hide SwapWitnesses;
  }

  lemma LayoutInverseIsLossless(p: Payload)
    requires IsLayout(p)
    ensures Lossless(InvertLayout(p))
  {
  }

  lemma OtherInverseIsLossless(p: Payload)
    requires !IsStyle(p) && !IsLayout(p)
    ensures Lossless(InvertPayload(p))
  {
    hide InvertStyle, InvertLayout;
  }

  /** The inverse of any payload is one that inverting twice restores: nothing more is lost. */
  lemma InverseIsLossless(p: Payload)
    ensures Lossless(InvertPayload(p))
  {
    hide InvertStyle, InvertLayout, InvertStructural, InvertMetadata, Lossless;
    if IsStyle(p) {
      StyleInverseIsLossless(p);
    } else if IsLayout(p) {
      LayoutInverseIsLossless(p);
    } else {
      OtherInverseIsLossless(p);
    }
  }

  /** For every kind, inverting three times is inverting once: an undo of a redo of an undo is that undo. */
  lemma InvertThrice(p: Payload)
    ensures InvertPayload(InvertPayload(InvertPayload(p))) == InvertPayload(p)
  {
    InverseIsLossless(p);
    hide InvertPayload, Lossless;
    InvertTwiceExactly(InvertPayload(p));
  }

  /** The inverse is linked to its operation and keeps the preview flag and all context, through any number of inversions. */
  lemma InverseKeepsContext(op: Operation, id1: string, now1: nat, id2: string, now2: nat)
    ensures var inv := ComputeInverse(op, id1, now1);
            var again := ComputeInverse(inv, id2, now2);
            && inv.base == op.base.(id := id1, inverseOf := Some(op.base.id), timestamp := now1)
            && again.base == op.base.(id := id2, inverseOf := Some(id1), timestamp := now2)
  {
  }

  /** One member grows by delta along the main axis and the other shrinks by it. */
  predicate Balanced(p: Payload)
    requires p.ResizeFlexPair?
  {
    && p.primary.change.after.usedMainSize - p.primary.change.before.usedMainSize == p.delta
    && p.neighbor.change.after.usedMainSize - p.neighbor.change.before.usedMainSize == -p.delta
  }

  /** The inverse of a flex-pair resize is balanced exactly when the resize is, and it restores every witness. */
  lemma FlexPairStaysBalanced(p: Payload)
    requires p.ResizeFlexPair?
    ensures var q := InvertPayload(p);
            && q.ResizeFlexPair? && (Balanced(q) <==> Balanced(p))
            && q.containerWitness.before == p.containerWitness.after && q.containerWitness.after == p.containerWitness.before
            && |q.witnesses| == |p.witnesses|
            && (forall i :: 0 <= i < |p.witnesses| ==>
                  && q.witnesses[i].element == p.witnesses[i].element
                  && q.witnesses[i].rect.before == p.witnesses[i].rect.after
                  && q.witnesses[i].rect.after == p.witnesses[i].rect.before)
  {
  }
}
