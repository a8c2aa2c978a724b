/**
 * What each operation lays claim to, family by family: the styles, texts, classes, places and
 * elements no other change set may edit at the same time. Nothing here refers to how the
 * conflict check computes its signatures; the lemmas show that it means the same.
 */
module EditClaims {
  import opened Prelude
  import opened Operations
  import opened EditSlots
  import Text
  import Merge
  import Inverse

  /** The operation sets, removes or resizes `property` of `e`; a flex-pair resize sets three on both members. */
  ghost predicate EditsCss(p: Payload, e: ElementRef, property: string) {
    || ((p.StyleEdit? || p.RemoveStyle?) && p.target == e && p.property == property)
    || (p.ResizeElement? && p.element == e && p.property == property)
    || (&& p.ResizeFlexPair? && (p.primary.element == e || p.neighbor.element == e)
        && (property == "flex-grow" || property == "flex-shrink" || property == "flex-basis"))
  }

  ghost predicate AnyCss(p: Payload, text: string) {
    exists e: ElementRef, property: string :: EditsCss(p, e, property) && text == e.runtimeId + ":" + property
  }

  ghost predicate EditsContent(p: Payload, f: Family, text: string) {
    || (f == TextOf && p.TextEdit? && text == p.target.runtimeId)
    || (f == Attribute && p.SetAttribute? && text == p.target.runtimeId + ":" + p.name)
    || (f == ComponentProp && p.SetComponentProp? && text == p.target.runtimeId + ":" + p.componentName + ":" + p.propName)
    || (f == Position && p.PositionElement? && text == p.target.runtimeId + ":" + p.property)
  }

  ghost predicate EditsClass(p: Payload, f: Family, text: string) {
    || (f == Class && (p.ClassAdd? || p.ClassRemove?) && text == p.target.runtimeId + ":" + p.className)
    || (f == Class && p.ClassReplace? && text == p.target.runtimeId + ":" + p.oldClassName)
  }

  ghost predicate EditsScoped(p: Payload, f: Family, text: string) {
    || (f == BpStyle && p.BreakpointStyleEdit? && text == p.target.runtimeId + ":" + p.scope.breakpoint + ":" + p.property)
    || (f == BpClass && p.BreakpointClassEdit? && text == p.target.runtimeId + ":" + p.scope.breakpoint + ":" + p.oldClassName)
    || (f == BpText && p.BreakpointTextEdit? && text == p.target.runtimeId + ":" + p.scope.breakpoint)
  }

  ghost predicate EditsPlacement(p: Payload, f: Family, text: string) {
    || (f == Reorder && p.ReorderChild? && text == p.parent.runtimeId + ":" + p.child.runtimeId)
    || (f == Reparent && p.ReparentElement? && text == p.element.runtimeId)
    || (f == Family.GroupReorder && p.GroupReorder? && text == p.parent.runtimeId)
    || (f == Family.GroupReparent && p.GroupReparent? && text == if |p.elements| > 0 then p.elements[0].runtimeId else "")
  }

  ghost predicate EditsLayout(p: Payload, f: Family, text: string) {
    || (f == ContainerLayout && p.SetContainerLayout? && text == p.container.runtimeId + ":" + p.property)
    || (f == ChildSizing && p.SetChildSizing?
        && text == p.container.runtimeId + ":" + Decimal(p.childIndex) + ":"
                   + (if p.sizing.Hug? then "hug" else if p.sizing.Fill? then "fill" else "fixed"))
    || (f == Family.GridReorder && p.GridReorder? && text == p.grid.runtimeId + ":" + p.child.runtimeId)
    || (f == Family.GridSpan && p.GridSpan? && text == p.grid.runtimeId + ":" + p.child.runtimeId + ":" + p.axis)
  }

  ghost predicate EditsStructure(p: Payload, f: Family, text: string) {
    || (f == StructuralElement && (Inserts(p, text) || Removes(p, text)))
    || (f == StructuralWrapper && (Wraps(p, text) || Unwraps(p, text)))
  }

  ghost predicate Inserts(p: Payload, id: string) {
    || (p.InsertElement? && id == p.element.runtimeId)
    || (p.DuplicateElement? && id == p.duplicate.runtimeId)
  }

  ghost predicate Removes(p: Payload, id: string) {
    p.RemoveElement? && id == p.element.runtimeId
  }

  ghost predicate Wraps(p: Payload, id: string) {
    p.WrapElements? && id == p.wrapper.runtimeId
  }

  ghost predicate Unwraps(p: Payload, id: string) {
    p.UnwrapElement? && id == p.wrapper.runtimeId
  }

  /** The operation edits what `text` names among the things of the family. */
  ghost predicate Touches(p: Payload, f: Family, text: string) {
    || (f == Css && AnyCss(p, text))
    || EditsContent(p, f, text) || EditsClass(p, f, text) || EditsScoped(p, f, text)
    || EditsPlacement(p, f, text) || EditsLayout(p, f, text) || EditsStructure(p, f, text)
  }

  ghost predicate TouchTheSame(p: Payload, q: Payload) {
    exists f, text :: Touches(p, f, text) && Touches(q, f, text)
  }

  /** One inserts or duplicates the element that the other removes, or wraps with the wrapper the other unwraps. */
  ghost predicate Undoing(p: Payload, q: Payload) {
    exists id :: || (Inserts(p, id) && Removes(q, id)) || (Removes(p, id) && Inserts(q, id))
                 || (Wraps(p, id) && Unwraps(q, id)) || (Unwraps(p, id) && Wraps(q, id))
  }

  // ---------------------------------------------------------------- signatures are claims

  ghost predicate HasSlot(p: Payload, f: Family, text: string) {
    exists x :: x in SlotsOf(p) && x.family == f && JoinedNames(x) == text
  }

  lemma OneSlot(p: Payload, x: EditSlot, f: Family, text: string)
    requires SlotsOf(p) == [x]
    ensures HasSlot(p, f, text) <==> x.family == f && JoinedNames(x) == text
  {
    hide SlotsOf, JoinedNames;
    assert x in SlotsOf(p);
  }

  lemma OneName(p: Payload, g: Family, a: string, f: Family, text: string)
    requires SlotsOf(p) == [EditSlot(g, [a])]
    ensures HasSlot(p, f, text) <==> f == g && text == a
  {
    OneSlot(p, EditSlot(g, [a]), f, text);
    hide SlotsOf;
  }

  lemma TwoNames(p: Payload, g: Family, a: string, b: string, f: Family, text: string)
    requires SlotsOf(p) == [EditSlot(g, [a, b])]
    ensures HasSlot(p, f, text) <==> f == g && text == a + ":" + b
  {
    OneSlot(p, EditSlot(g, [a, b]), f, text);
    hide SlotsOf;
    JoinOfTwo(a, b);
  }

  lemma ThreeNames(p: Payload, g: Family, a: string, b: string, c: string, f: Family, text: string)
    requires SlotsOf(p) == [EditSlot(g, [a, b, c])]
    ensures HasSlot(p, f, text) <==> f == g && text == a + ":" + b + ":" + c
  {
    OneSlot(p, EditSlot(g, [a, b, c]), f, text);
    JoinOfThree(a, b, c);
    hide SlotsOf, Text.Join;
  }

  lemma JoinOfThree(a: string, b: string, c: string)
    ensures Text.Join([a, b, c], ':') == a + ":" + b + ":" + c
  {
    JoinOfTwo(b, c);
    assert [a, b, c][1..] == [b, c];
    assert Text.Join([a, b, c], ':') == a + ":" + (b + ":" + c);
    hide Text.Join;
    Regroup(a + ":", b + ":", c);
    assert a + ":" + (b + ":" + c) == a + ":" + b + ":" + c;
  }

  lemma JoinOfTwo(a: string, b: string)
    ensures Text.Join([a, b], ':') == a + ":" + b
  {
    assert [a, b][1..] == [b];
  }

  lemma NoSlot(p: Payload, f: Family, text: string)
    requires SlotsOf(p) == []
    ensures !HasSlot(p, f, text)
  {
    hide SlotsOf;
  }

  predicate IsCssEdit(p: Payload) {
    p.StyleEdit? || p.RemoveStyle? || p.ResizeElement? || p.ResizeFlexPair?
  }

  ghost predicate IsStyleSlot(p: Payload, x: EditSlot) {
    exists e: ElementRef, property: string :: EditsCss(p, e, property) && x == CssSlotOf(e, property)
  }

  /** The slots of a css edit are the styles it edits, with each element as the operation knows it. */
  lemma CssSlotsExactly(p: Payload, x: EditSlot)
    requires IsCssEdit(p)
    ensures x in SlotsOf(p) <==> IsStyleSlot(p, x)
  {
    if x in SlotsOf(p) {
      if p.ResizeFlexPair? {
        var e := if x in FlexSlotsOf(p.primary.element) then p.primary.element else p.neighbor.element;
        assert x in FlexSlotsOf(e);
        assert EditsCss(p, e, x.names[1]) && x == CssSlotOf(e, x.names[1]);
      } else {
        var e := if p.ResizeElement? then p.element else p.target;
        assert EditsCss(p, e, p.property) && x == CssSlotOf(e, p.property);
      }
    }
    if e: ElementRef, property: string :| EditsCss(p, e, property) && x == CssSlotOf(e, property) {
      if p.ResizeFlexPair? {
        assert x in FlexSlotsOf(e);
      }
    }
  }

  lemma StyleSlotName(p: Payload, x: EditSlot)
    requires IsStyleSlot(p, x)
    ensures x.family == Css && AnyCss(p, JoinedNames(x))
  {
    hide EditsCss;
    var e: ElementRef, property: string :| EditsCss(p, e, property) && x == CssSlotOf(e, property);
    JoinOfTwo(e.runtimeId, property);
  }

  lemma StyleHasSlot(p: Payload, e: ElementRef, property: string)
    requires IsCssEdit(p) && EditsCss(p, e, property)
    ensures HasSlot(p, Css, e.runtimeId + ":" + property)
  {
    var x := CssSlotOf(e, property);
    CssSlotsExactly(p, x);
    hide SlotsOf, EditsCss, IsCssEdit;
    assert IsStyleSlot(p, x);
    JoinOfTwo(e.runtimeId, property);
  }

  lemma SlotIsStyle(p: Payload, f: Family, text: string)
    requires IsCssEdit(p) && HasSlot(p, f, text)
    ensures f == Css && AnyCss(p, text)
  {
    hide EditsCss, SlotsOf, JoinedNames, IsStyleSlot, IsCssEdit, AnyCss;
    var x :| x in SlotsOf(p) && x.family == f && JoinedNames(x) == text;
    CssSlotsExactly(p, x);
    StyleSlotName(p, x);
  }

  lemma CssClaims(p: Payload, f: Family, text: string)
    requires IsCssEdit(p)
    ensures HasSlot(p, f, text) <==> f == Css && AnyCss(p, text)
  {
    hide EditsCss, HasSlot, IsCssEdit;
    if HasSlot(p, f, text) {
      SlotIsStyle(p, f, text);
    }
    if AnyCss(p, text) {
      var e: ElementRef, property: string :| EditsCss(p, e, property) && text == e.runtimeId + ":" + property;
      StyleHasSlot(p, e, property);
    }
  }

  predicate IsContentEdit(p: Payload) {
    p.TextEdit? || p.SetAttribute? || p.SetComponentProp? || p.PositionElement?
  }

  predicate IsClassEdit(p: Payload) {
    p.ClassAdd? || p.ClassRemove? || p.ClassReplace?
  }

  predicate IsScopedEdit(p: Payload) {
    p.BreakpointStyleEdit? || p.BreakpointClassEdit? || p.BreakpointTextEdit?
  }

  predicate IsPlacementEdit(p: Payload) {
    p.ReorderChild? || p.ReparentElement? || p.GroupReorder? || p.GroupReparent?
  }

  predicate IsLayoutEdit(p: Payload) {
    p.SetContainerLayout? || p.SetChildSizing? || p.GridReorder? || p.GridSpan?
  }

  predicate IsStructureEdit(p: Payload) {
    p.InsertElement? || p.RemoveElement? || p.DuplicateElement? || p.WrapElements? || p.UnwrapElement?
  }

  lemma ContentClaims(p: Payload, f: Family, text: string)
    requires IsContentEdit(p)
    ensures HasSlot(p, f, text) <==> EditsContent(p, f, text)
  {
    hide HasSlot;
    var id := p.target.runtimeId;
    match p {
      case TextEdit(_, _, _) => OneName(p, TextOf, id, f, text);
      case SetAttribute(_, name, _, _) => TwoNames(p, Attribute, id, name, f, text);
      case SetComponentProp(_, c, name, _, _, _) => ThreeNames(p, ComponentProp, id, c, name, f, text);
      case PositionElement(_, prop, _, _) => TwoNames(p, Position, id, prop, f, text);
    }
  }

  lemma ClassClaims(p: Payload, f: Family, text: string)
    requires IsClassEdit(p)
    ensures HasSlot(p, f, text) <==> EditsClass(p, f, text)
  {
    hide HasSlot;
    TwoNames(p, Class, p.target.runtimeId, if p.ClassReplace? then p.oldClassName else p.className, f, text);
  }

  lemma ScopedClaims(p: Payload, f: Family, text: string)
    requires IsScopedEdit(p)
    ensures HasSlot(p, f, text) <==> EditsScoped(p, f, text)
  {
    hide HasSlot;
    var (id, b) := (p.target.runtimeId, p.scope.breakpoint);
    if p.BreakpointTextEdit? {
      TwoNames(p, BpText, id, b, f, text);
    } else if p.BreakpointStyleEdit? {
      ThreeNames(p, BpStyle, id, b, p.property, f, text);
    } else {
      ThreeNames(p, BpClass, id, b, p.oldClassName, f, text);
    }
  }

  lemma PlacementClaims(p: Payload, f: Family, text: string)
    requires IsPlacementEdit(p)
    ensures HasSlot(p, f, text) <==> EditsPlacement(p, f, text)
  {
    hide HasSlot;
    match p {
      case ReorderChild(_, parent, child, _, _) => TwoNames(p, Reorder, parent.runtimeId, child.runtimeId, f, text);
      case ReparentElement(_, e, _, _, _, _) => OneName(p, Reparent, e.runtimeId, f, text);
      case GroupReorder(_, parent, _, _, _) => OneName(p, Family.GroupReorder, parent.runtimeId, f, text);
      case GroupReparent(_, es, _, _, _, _) =>
        OneName(p, Family.GroupReparent, if es == [] then "" else es[0].runtimeId, f, text);
    }
  }

  lemma LayoutClaims(p: Payload, f: Family, text: string)
    requires IsLayoutEdit(p)
    ensures HasSlot(p, f, text) <==> EditsLayout(p, f, text)
  {
    hide HasSlot, Decimal;
    match p {
      case SetContainerLayout(_, c, prop, _, _) => TwoNames(p, ContainerLayout, c.runtimeId, prop, f, text);
      case SetChildSizing(_, c, i, _, sizing, _, _, _) =>
        ThreeNames(p, ChildSizing, c.runtimeId, Decimal(i), SizingName(sizing), f, text);
      case GridReorder(_, g, child, _, _, _, _, _) => TwoNames(p, Family.GridReorder, g.runtimeId, child.runtimeId, f, text);
      case GridSpan(_, g, child, axis, _, _) => ThreeNames(p, Family.GridSpan, g.runtimeId, child.runtimeId, axis, f, text);
    }
  }

  lemma StructureClaims(p: Payload, f: Family, text: string)
    requires IsStructureEdit(p)
    ensures HasSlot(p, f, text) <==> EditsStructure(p, f, text)
  {
    hide HasSlot;
    if p.WrapElements? || p.UnwrapElement? {
      OneName(p, StructuralWrapper, p.wrapper.runtimeId, f, text);
    } else {
      OneName(p, StructuralElement, if p.DuplicateElement? then p.duplicate.runtimeId else p.element.runtimeId, f, text);
    }
  }

  predicate IsOtherEdit(p: Payload) {
    || p.MultiSelectGroup? || p.AlignElements? || p.DistributeElements?
    || p.PseudoStyleEdit? || p.ScreenshotCropRef? || p.SuggestedDiff?
  }

  lemma OtherClaims(p: Payload, f: Family, text: string)
    requires IsOtherEdit(p)
    ensures !HasSlot(p, f, text)
  {
    assert SlotsOf(p) == [];
    NoSlot(p, f, text);
  }

  lemma OneGroup(p: Payload)
    ensures var n := (if IsCssEdit(p) then 1 else 0) + (if IsContentEdit(p) then 1 else 0) + (if IsClassEdit(p) then 1 else 0)
                   + (if IsScopedEdit(p) then 1 else 0) + (if IsPlacementEdit(p) then 1 else 0)
                   + (if IsLayoutEdit(p) then 1 else 0) + (if IsStructureEdit(p) then 1 else 0) + (if IsOtherEdit(p) then 1 else 0);
            n == 1
  {
  }

  lemma CssByKind(p: Payload, text: string)
    ensures AnyCss(p, text) ==> IsCssEdit(p)
  {
  }

  lemma ElementByKind(p: Payload, f: Family, text: string)
    ensures EditsContent(p, f, text) ==> IsContentEdit(p)
    ensures EditsClass(p, f, text) ==> IsClassEdit(p)
    ensures EditsScoped(p, f, text) ==> IsScopedEdit(p)
  {
  }

  lemma TreeByKind(p: Payload, f: Family, text: string)
    ensures EditsPlacement(p, f, text) ==> IsPlacementEdit(p)
    ensures EditsLayout(p, f, text) ==> IsLayoutEdit(p)
    ensures EditsStructure(p, f, text) ==> IsStructureEdit(p)
  {
    hide Decimal;
  }

  lemma ClaimsExactly(p: Payload, f: Family, text: string)
    ensures HasSlot(p, f, text) <==> Touches(p, f, text)
  {
    OneGroup(p);
    CssByKind(p, text);
    ElementByKind(p, f, text);
    TreeByKind(p, f, text);
    hide HasSlot, AnyCss, EditsContent, EditsClass, EditsScoped, EditsPlacement, EditsLayout, EditsStructure,
         IsCssEdit, IsContentEdit, IsClassEdit, IsScopedEdit, IsPlacementEdit, IsLayoutEdit, IsStructureEdit, IsOtherEdit;
    if IsCssEdit(p) {
      CssClaims(p, f, text);
    } else if IsContentEdit(p) {
      ContentClaims(p, f, text);
    } else if IsClassEdit(p) {
      ClassClaims(p, f, text);
    } else if IsScopedEdit(p) {
      ScopedClaims(p, f, text);
    } else if IsPlacementEdit(p) {
      PlacementClaims(p, f, text);
    } else if IsLayoutEdit(p) {
      LayoutClaims(p, f, text);
    } else if IsStructureEdit(p) {
      StructureClaims(p, f, text);
    } else {
      OtherClaims(p, f, text);
    }
  }

  /** The signatures of an operation are what it touches, each with the name of its family in front. */
  lemma SignaturesExactly(p: Payload, s: string)
    ensures s in ConflictSignatures(p) <==> exists f, text :: Touches(p, f, text) && s == FamilyName(f) + ":" + text
  {
    hide Touches, SlotsOf, FamilyName;
    var slots := SlotsOf(p);
    SlotsHaveTheirArity(p);
    hide Arity;
    if s in ConflictSignatures(p) {
      var i :| 0 <= i < |slots| && s == Spell(slots[i]);
      var x := slots[i];
      assert x in slots && HasSlot(p, x.family, JoinedNames(x));
      ClaimsExactly(p, x.family, JoinedNames(x));
      SpellingOf(p, x);
      assert Touches(p, x.family, JoinedNames(x)) && s == FamilyName(x.family) + ":" + JoinedNames(x);
    }
    if f, text :| Touches(p, f, text) && s == FamilyName(f) + ":" + text {
      ClaimsExactly(p, f, text);
      var x :| x in slots && x.family == f && JoinedNames(x) == text;
      SpellingOf(p, x);
      var i :| 0 <= i < |slots| && slots[i] == x;
      assert ConflictSignatures(p)[i] == s;
    }
  }

  lemma SpellingOf(p: Payload, x: EditSlot)
    requires x in SlotsOf(p)
    ensures Spell(x) == FamilyName(x.family) + ":" + JoinedNames(x)
  {
    SlotsHaveTheirArity(p);
    hide SlotsOf, FamilyName;
    var i :| 0 <= i < |SlotsOf(p)| && SlotsOf(p)[i] == x;
    assert |x.names| == Arity(x.family) > 0;
    assert ([FamilyName(x.family)] + x.names)[1..] == x.names;
  }

  /** Two operations share a signature exactly when they touch the same. */
  lemma SharedExactly(p: Payload, q: Payload)
    ensures (exists s :: s in ConflictSignatures(p) && s in ConflictSignatures(q)) <==> TouchTheSame(p, q)
  {
    SharedSignatureExactly(p, q);
    hide Touches, SlotsOf, JoinedNames, ConflictSignatures;
    if TouchTheSame(p, q) {
      var f, text :| Touches(p, f, text) && Touches(q, f, text);
      ClaimsExactly(p, f, text);
      ClaimsExactly(q, f, text);
    }
    if x, y :| x in SlotsOf(p) && y in SlotsOf(q) && x.family == y.family && JoinedNames(x) == JoinedNames(y) {
      SharedSlotTouches(p, q, x, y);
    }
  }

  lemma SharedSlotTouches(p: Payload, q: Payload, x: EditSlot, y: EditSlot)
    requires x in SlotsOf(p) && y in SlotsOf(q) && x.family == y.family && JoinedNames(x) == JoinedNames(y)
    ensures TouchTheSame(p, q)
  {
    var f, text := x.family, JoinedNames(x);
    hide Touches, SlotsOf, JoinedNames;
    assert HasSlot(p, f, text) && HasSlot(q, f, text);
    ClaimsExactly(p, f, text);
    ClaimsExactly(q, f, text);
  }

  /** Structural inverses are exactly the operations that undo each other's insertion or wrapping. */
  lemma StructuralInverseExactly(p: Payload, q: Payload)
    ensures Merge.StructuralInversePair(p, q) <==> Undoing(p, q)
  {
    if Merge.StructuralInversePair(p, q) {
      var id := if p.InsertElement? || p.RemoveElement? then p.element.runtimeId
                else if p.DuplicateElement? then p.duplicate.runtimeId else p.wrapper.runtimeId;
      assert Inserts(p, id) || Removes(p, id) || Wraps(p, id) || Unwraps(p, id);
    }
  }

  /** The operation touches this and nothing else. */
  ghost predicate TouchesOnly(p: Payload, f: Family, text: string) {
    Touches(p, f, text) && forall g, other :: Touches(p, g, other) ==> g == f && other == text
  }

  lemma OneEach(p: Payload, q: Payload, f: Family, a: string, g: Family, b: string)
    requires TouchesOnly(p, f, a) && TouchesOnly(q, g, b)
    ensures TouchTheSame(p, q) <==> f == g && a == b
  {
    hide Touches, TouchesOnly;
    OnlyTouches(p, f, a);
    OnlyTouches(q, g, b);
  }

  lemma OnlyTouches(p: Payload, f: Family, text: string)
    requires TouchesOnly(p, f, text)
    ensures Touches(p, f, text)
    ensures forall g, other :: Touches(p, g, other) ==> g == f && other == text
  {
    hide Touches;
  }

  // ---------------------------------------------------------------- the decimal numeral in a claim

  function DigitValue(c: char): int {
    c as int - '0' as int
  }

  /** What a numeral says, read from the left. */
  function Reading(s: string): int {
    if s == "" then 0 else 10 * Reading(s[..|s| - 1]) + DigitValue(s[|s| - 1])
  }

  /** An index is spelled by the decimal numeral that reads back as it, without leading zeros. */
  lemma {:induction false} DecimalReadsBack(n: nat)
    ensures var s := Decimal(n);
            && s != "" && (forall i :: 0 <= i < |s| ==> '0' <= s[i] <= '9') && (s[0] == '0' ==> n == 0 && s == "0")
            && Reading(s) == n
  {
    var s := Decimal(n);
    if n < 10 {
      assert s[..0] == "";
    } else {
      DecimalReadsBack(n / 10);
      assert s[..|s| - 1] == Decimal(n / 10);
    }
  }
}
