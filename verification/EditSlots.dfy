/**
 * What an operation edits, as the conflict check names it: slots of an element, spelled as
 * strings with ':' between the names.
 */
module EditSlots {
  import opened Prelude
  import opened Operations
  import Text

  datatype Family =
    | Css | TextOf | Class | Attribute | ComponentProp | Position | Reorder | Reparent | ContainerLayout | ChildSizing
    | GridReorder | GridSpan | BpStyle | BpClass | BpText | GroupReorder | GroupReparent | StructuralElement
    | StructuralWrapper

  datatype EditSlot = EditSlot(family: Family, names: seq<string>)

  function FamilyName(f: Family): string {
    match f
    case Css => "css"
    case TextOf => "text"
    case Class => "class"
    case Attribute => "attribute"
    case ComponentProp => "component-prop"
    case Position => "position"
    case Reorder => "reorder"
    case Reparent => "reparent"
    case ContainerLayout => "container-layout"
    case ChildSizing => "child-sizing"
    case GridReorder => "grid-reorder"
    case GridSpan => "grid-span"
    case BpStyle => "bp-style"
    case BpClass => "bp-class"
    case BpText => "bp-text"
    case GroupReorder => "group-reorder"
    case GroupReparent => "group-reparent"
    case StructuralElement => "structural-element"
    case StructuralWrapper => "structural-wrapper"
  }

  /** How many names follow the family. */
  function Arity(f: Family): nat {
    match f
    case TextOf => 1
    case Reparent => 1
    case GroupReorder => 1
    case GroupReparent => 1
    case StructuralElement => 1
    case StructuralWrapper => 1
    case ComponentProp => 3
    case ChildSizing => 3
    case GridSpan => 3
    case BpStyle => 3
    case BpClass => 3
    case _ => 2
  }

  function Decimal(n: nat): string {
    if n < 10 then [(48 + n) as char] else Decimal(n / 10) + [(48 + n % 10) as char]
  }

  function SizingName(s: Sizing): string {
    match s case Hug => "hug" case Fill => "fill" case Fixed => "fixed"
  }

  function CssSlotOf(e: ElementRef, property: string): EditSlot {
    EditSlot(Css, [e.runtimeId, property])
  }

  function FlexSlotsOf(e: ElementRef): seq<EditSlot> {
    [CssSlotOf(e, "flex-grow"), CssSlotOf(e, "flex-shrink"), CssSlotOf(e, "flex-basis")]
  }

  function SlotsOf(p: Payload): seq<EditSlot> {
    match p
    case StyleEdit(t, prop, _, _, _) => [CssSlotOf(t, prop)]
    case RemoveStyle(t, prop, _, _) => [CssSlotOf(t, prop)]
    case ResizeElement(_, e, prop, _, _, _) => [CssSlotOf(e, prop)]
    case ResizeFlexPair(_, _, p1, p2, _, _, _, _) => FlexSlotsOf(p1.element) + FlexSlotsOf(p2.element)
    case TextEdit(t, _, _) => [EditSlot(TextOf, [t.runtimeId])]
    case ClassAdd(t, c) => [EditSlot(Class, [t.runtimeId, c])]
    case ClassRemove(t, c) => [EditSlot(Class, [t.runtimeId, c])]
    case ClassReplace(t, oldName, _) => [EditSlot(Class, [t.runtimeId, oldName])]
    case SetAttribute(t, name, _, _) => [EditSlot(Attribute, [t.runtimeId, name])]
    case SetComponentProp(t, comp, prop, _, _, _) => [EditSlot(ComponentProp, [t.runtimeId, comp, prop])]
    case PositionElement(t, prop, _, _) => [EditSlot(Position, [t.runtimeId, prop])]
    case ReorderChild(_, parent, child, _, _) => [EditSlot(Reorder, [parent.runtimeId, child.runtimeId])]
    case ReparentElement(_, e, _, _, _, _) => [EditSlot(Reparent, [e.runtimeId])]
    case SetContainerLayout(_, c, prop, _, _) => [EditSlot(ContainerLayout, [c.runtimeId, prop])]
    case SetChildSizing(_, c, i, _, sizing, _, _, _) => [EditSlot(ChildSizing, [c.runtimeId, Decimal(i), SizingName(sizing)])]
    case GridReorder(_, g, child, _, _, _, _, _) => [EditSlot(Family.GridReorder, [g.runtimeId, child.runtimeId])]
    case GridSpan(_, g, child, axis, _, _) => [EditSlot(Family.GridSpan, [g.runtimeId, child.runtimeId, axis])]
    case BreakpointStyleEdit(t, s, prop, _, _, _) => [EditSlot(BpStyle, [t.runtimeId, s.breakpoint, prop])]
    case BreakpointClassEdit(t, s, oldName, _) => [EditSlot(BpClass, [t.runtimeId, s.breakpoint, oldName])]
    case BreakpointTextEdit(t, s, _, _) => [EditSlot(BpText, [t.runtimeId, s.breakpoint])]
    case GroupReorder(_, parent, _, _, _) => [EditSlot(Family.GroupReorder, [parent.runtimeId])]
    case GroupReparent(_, es, _, _, _, _) => [EditSlot(Family.GroupReparent, [if es == [] then "" else es[0].runtimeId])]
    case InsertElement(_, e, _, _, _, _) => [EditSlot(StructuralElement, [e.runtimeId])]
    case RemoveElement(_, e, _, _, _, _) => [EditSlot(StructuralElement, [e.runtimeId])]
    case DuplicateElement(_, _, d, _, _, _) => [EditSlot(StructuralElement, [d.runtimeId])]
    case WrapElements(_, _, w, _, _) => [EditSlot(StructuralWrapper, [w.runtimeId])]
    case UnwrapElement(_, w, _, _, _) => [EditSlot(StructuralWrapper, [w.runtimeId])]
    case MultiSelectGroup(_, _, _, _) => []
    case AlignElements(_, _, _, _, _) => []
    case DistributeElements(_, _, _, _, _, _) => []
    case ScreenshotCropRef(_, _, _, _, _) => []
    case SuggestedDiff(_, _, _, _, _) => []
    case PseudoStyleEdit(_, _, _, _, _, _) => []
  }

  function Spell(slot: EditSlot): string {
    Text.Join([FamilyName(slot.family)] + slot.names, ':')
  }

  function ConflictSignatures(p: Payload): seq<string> {
    var slots := SlotsOf(p);
    seq(|slots|, i requires 0 <= i < |slots| => Spell(slots[i]))
  }

  function CssSignature(runtimeId: string, property: string): string {
    Spell(EditSlot(Css, [runtimeId, property]))
  }

  lemma CssSpelling(id: string, property: string)
    ensures CssSignature(id, property) == "css:" + (id + ":" + property)
  {
    assert Text.Join([property], ':') == property;
    assert [id, property][1..] == [property];
    assert Text.Join([id, property], ':') == id + ":" + property;
    assert ["css"] + [id, property] == ["css", id, property] && ["css", id, property][1..] == [id, property];
    assert CssSignature(id, property) == "css" + [':'] + (id + ":" + property);
  }

  lemma SameCssSignature(id1: string, p1: string, id2: string, p2: string)
    ensures CssSignature(id1, p1) == CssSignature(id2, p2) <==> id1 + ":" + p1 == id2 + ":" + p2
  {
    CssSpelling(id1, p1);
    CssSpelling(id2, p2);
    hide CssSignature;
    assert CssSignature(id1, p1)[4..] == id1 + ":" + p1 && CssSignature(id2, p2)[4..] == id2 + ":" + p2;
  }

  // ---------------------------------------------------------------- when signatures say what they mean

  /** No ':' in any name but the one at position `free`, as the spelling needs it to be read back. */
  ghost predicate Legible(slot: EditSlot, free: nat) {
    forall i :: 0 <= i < |slot.names| && i != free ==> ':' !in slot.names[i]
  }

  lemma JoinHead(a: string, rest: string, b: string, more: string)
    requires ':' !in a && ':' !in b && a + [':'] + rest == b + [':'] + more
    ensures a == b && rest == more
  {
    Text.SplitHead(a, rest, ':');
    Text.SplitHead(b, more, ':');
    assert Text.Split(a + [':'] + rest, ':')[0] == a && Text.Split(b + [':'] + more, ':')[0] == b;
    assert (a + [':'] + rest)[|a| + 1..] == rest && (b + [':'] + more)[|b| + 1..] == more;
  }

  lemma GlueOfBlankHead(xs: seq<string>, ys: seq<string>)
    requires |xs| >= 1
    ensures Text.Glue(xs, [""] + ys) == xs + ys
  {
    var n := |xs| - 1;
    assert xs[n] + "" == xs[n] && ([""] + ys)[1..] == ys && xs == xs[..n] + [xs[n]];
  }

  lemma SplitOfFirstFree(first: string, rest: seq<string>)
    requires |rest| >= 1 && forall i :: 0 <= i < |rest| ==> ':' !in rest[i]
    ensures Text.Split(first + [':'] + Text.Join(rest, ':'), ':') == Text.Split(first, ':') + rest
  {
    Text.SplitOfJoin(rest, ':');
    hide Text.Split, Text.Join;
    var tail := "" + [':'] + Text.Join(rest, ':');
    Text.SplitHead("", Text.Join(rest, ':'), ':');
    Text.SplitOfAppend(first, tail, ':');
    assert first + [':'] + Text.Join(rest, ':') == first + tail;
    GlueOfBlankHead(Text.Split(first, ':'), rest);
  }

  lemma AroundAfterFirst(parts: seq<string>, free: nat, pieces: seq<string>)
    requires 0 < free < |parts|
    ensures parts[..free] + pieces + parts[free + 1..] == [parts[0]] + (parts[1..][..free - 1] + pieces + parts[1..][free..])
  {
    assert parts[..free] == [parts[0]] + parts[1..][..free - 1] && parts[1..][free..] == parts[free + 1..];
    Regroup([parts[0]], parts[1..][..free - 1], pieces);
    Regroup([parts[0]], parts[1..][..free - 1] + pieces, parts[free + 1..]);
  }

  /** Splitting finds every part again; the one with separators comes back in pieces. */
  lemma {:induction false} SplitOfJoinAround(parts: seq<string>, free: nat)
    requires free < |parts| && forall i :: 0 <= i < |parts| && i != free ==> ':' !in parts[i]
    ensures Text.Split(Text.Join(parts, ':'), ':') == parts[..free] + Text.Split(parts[free], ':') + parts[free + 1..]
  {
    hide Text.Split;
    var rest := parts[1..];
    if |parts| == 1 {
      assert parts[..0] == [] && parts[1..] == [];
      assert [] + Text.Split(parts[0], ':') + [] == Text.Split(parts[0], ':');
    } else if free > 0 {
      SplitOfJoinAround(rest, free - 1);
      Text.SplitHead(parts[0], Text.Join(rest, ':'), ':');
      AroundAfterFirst(parts, free, Text.Split(parts[free], ':'));
    } else {
      SplitOfFirstFree(parts[0], rest);
      assert parts[..0] == [] && [] + Text.Split(parts[0], ':') == Text.Split(parts[0], ':');
    }
  }

  lemma JoinIsInjective(xs: seq<string>, ys: seq<string>, free: nat)
    requires |xs| == |ys| && Text.Join(xs, ':') == Text.Join(ys, ':')
    requires forall i :: 0 <= i < |xs| && i != free ==> ':' !in xs[i] && ':' !in ys[i]
    ensures xs == ys
  {
    hide Text.Split, Text.Join;
    if free < |xs| {
      SplitOfJoinAround(xs, free);
      SplitOfJoinAround(ys, free);
      var (x, y) := (Text.Split(xs[free], ':'), Text.Split(ys[free], ':'));
      var (l, r) := (xs[..free] + x + xs[free + 1..], ys[..free] + y + ys[free + 1..]);
      assert |x| == |y|;
      assert l[..free] == xs[..free] && r[..free] == ys[..free];
      assert l[free..][..|x|] == x && r[free..][..|x|] == y;
      assert l[free + |x|..] == xs[free + 1..] && r[free + |x|..] == ys[free + 1..];
      Text.JoinOfSplit(xs[free], ':');
      Text.JoinOfSplit(ys[free], ':');
      assert xs == xs[..free] + [xs[free]] + xs[free + 1..] && ys == ys[..free] + [ys[free]] + ys[free + 1..];
    } else if |xs| > 0 {
      Text.SplitOfJoin(xs, ':');
      Text.SplitOfJoin(ys, ':');
    }
  }

  /** Enough of a family's name to tell it from the others: its length, its third and its last character. */
  function Mark(f: Family): (nat, char, char) {
    match f
    case Css => (3, 's', 's')
    case TextOf => (4, 'x', 't')
    case Class => (5, 'a', 's')
    case Attribute => (9, 't', 'e')
    case ComponentProp => (14, 'm', 'p')
    case Position => (8, 's', 'n')
    case Reorder => (7, 'o', 'r')
    case Reparent => (8, 'p', 't')
    case ContainerLayout => (16, 'n', 't')
    case ChildSizing => (12, 'i', 'g')
    case GridReorder => (12, 'i', 'r')
    case GridSpan => (9, 'i', 'n')
    case BpStyle => (8, '-', 'e')
    case BpClass => (8, '-', 's')
    case BpText => (7, '-', 't')
    case GroupReorder => (13, 'o', 'r')
    case GroupReparent => (14, 'o', 't')
    case StructuralElement => (18, 'r', 't')
    case StructuralWrapper => (18, 'r', 'r')
  }

  lemma MarkOfName(f: Family)
    ensures var name := FamilyName(f);
            |name| > 2 && Mark(f) == (|name|, name[2], name[|name| - 1])
  {
  }

  lemma NamesDiffer(f: Family, g: Family)
    ensures FamilyName(f) == FamilyName(g) ==> f == g
  {
    MarkOfName(f);
    MarkOfName(g);
    hide FamilyName;
  }

  lemma LongNameIsPlain(f: Family)
    requires |FamilyName(f)| > 8
    ensures ':' !in FamilyName(f)
  {
  }

  lemma ShortNameIsPlain(f: Family)
    requires |FamilyName(f)| <= 8
    ensures ':' !in FamilyName(f)
  {
  }

  lemma NameIsPlain(f: Family)
    ensures ':' !in FamilyName(f)
  {
    hide FamilyName;
    if |FamilyName(f)| > 8 {
      LongNameIsPlain(f);
    } else {
      ShortNameIsPlain(f);
    }
  }

  /** What follows the family in the spelling. */
  function JoinedNames(slot: EditSlot): string {
    Text.Join(slot.names, ':')
  }

  /** Two slots are spelled alike exactly when the family is the same and so is the text of the names. */
  lemma SpelledAlikeExactly(x: EditSlot, y: EditSlot)
    requires |x.names| == Arity(x.family) && |y.names| == Arity(y.family)
    ensures Spell(x) == Spell(y) <==> x.family == y.family && JoinedNames(x) == JoinedNames(y)
  {
    var xs, ys := [FamilyName(x.family)] + x.names, [FamilyName(y.family)] + y.names;
    assert xs[1..] == x.names && ys[1..] == y.names;
    NamesDiffer(x.family, y.family);
    NameIsPlain(x.family);
    NameIsPlain(y.family);
    hide FamilyName;
    assert Spell(x) == xs[0] + [':'] + JoinedNames(x) && Spell(y) == ys[0] + [':'] + JoinedNames(y);
    if Spell(x) == Spell(y) {
      JoinHead(xs[0], JoinedNames(x), ys[0], JoinedNames(y));
    }
  }

  /** Where one position may hold colons and no other does, the text of the names tells the names. */
  lemma SpellingIsExact(x: EditSlot, y: EditSlot, free: Family -> nat)
    requires Legible(x, free(x.family)) && Legible(y, free(y.family))
    requires |x.names| == Arity(x.family) && |y.names| == Arity(y.family)
    ensures Spell(x) == Spell(y) <==> x == y
  {
    SpelledAlikeExactly(x, y);
    if Spell(x) == Spell(y) {
      hide Spell;
      JoinIsInjective(x.names, y.names, free(x.family));
    }
  }

  /** Signatures are shared exactly by slots that are spelled alike. */
  lemma SharedSpelling(p: Payload, q: Payload)
    ensures (exists s :: s in ConflictSignatures(p) && s in ConflictSignatures(q))
       <==> (exists x, y :: x in SlotsOf(p) && y in SlotsOf(q) && Spell(x) == Spell(y))
  {
    hide SlotsOf, Spell;
    var (xs, ys) := (SlotsOf(p), SlotsOf(q));
    if s :| s in ConflictSignatures(p) && s in ConflictSignatures(q) {
      var i :| 0 <= i < |xs| && Spell(xs[i]) == s;
      var j :| 0 <= j < |ys| && Spell(ys[j]) == s;
      assert xs[i] in xs && ys[j] in ys;
    }
    if x, y :| x in xs && y in ys && Spell(x) == Spell(y) {
      var i :| 0 <= i < |xs| && xs[i] == x;
      var j :| 0 <= j < |ys| && ys[j] == y;
      assert ConflictSignatures(p)[i] == Spell(x) && ConflictSignatures(q)[j] == Spell(x);
      assert Spell(x) in ConflictSignatures(p) && Spell(x) in ConflictSignatures(q);
    }
  }

  /**
   * For all operations, whatever their names hold: they share a signature exactly when they have
   * slots of one family whose names, joined, are the same text.
   */
  lemma SharedSignatureExactly(p: Payload, q: Payload)
    ensures (exists s :: s in ConflictSignatures(p) && s in ConflictSignatures(q))
       <==> (exists x, y :: x in SlotsOf(p) && y in SlotsOf(q) && x.family == y.family && JoinedNames(x) == JoinedNames(y))
  {
    SharedSpelling(p, q);
    SlotsHaveTheirArity(p);
    SlotsHaveTheirArity(q);
    hide SlotsOf, Spell, Arity, JoinedNames, ConflictSignatures;
    forall x, y | x in SlotsOf(p) && y in SlotsOf(q)
      ensures Spell(x) == Spell(y) <==> x.family == y.family && JoinedNames(x) == JoinedNames(y)
    {
      SpelledAlikeExactly(x, y);
    }
  }

  /**
   * That is a common slot, as long as each family of slots has one position outside which no name
   * holds a ':'. The position is free: the breakpoint of a breakpoint edit, the class name of a
   * class edit, or the element's id.
   */
  lemma SharedSlotExactly(p: Payload, q: Payload, free: Family -> nat)
    requires forall x :: x in SlotsOf(p) + SlotsOf(q) ==> Legible(x, free(x.family))
    ensures (exists s :: s in ConflictSignatures(p) && s in ConflictSignatures(q)) <==> (exists x :: x in SlotsOf(p) && x in SlotsOf(q))
  {
    SharedSpelling(p, q);
    SlotsHaveTheirArity(p);
    SlotsHaveTheirArity(q);
    hide SlotsOf, Spell, Arity, Legible, ConflictSignatures;
    forall x, y | x in SlotsOf(p) && y in SlotsOf(q)
      ensures Spell(x) == Spell(y) <==> x == y
    {
      assert x in SlotsOf(p) + SlotsOf(q) && y in SlotsOf(p) + SlotsOf(q);
      SpellingIsExact(x, y, free);
    }
  }

  ghost predicate HaveTheirArity(slots: seq<EditSlot>) {
    forall i :: 0 <= i < |slots| ==> |slots[i].names| == Arity(slots[i].family)
  }

  predicate IsElementEdit(p: Payload) {
    || p.StyleEdit? || p.RemoveStyle? || p.ResizeElement? || p.ResizeFlexPair? || p.TextEdit? || p.ClassAdd?
    || p.ClassRemove? || p.ClassReplace? || p.SetAttribute? || p.SetComponentProp? || p.PositionElement?
    || p.BreakpointStyleEdit? || p.BreakpointClassEdit? || p.BreakpointTextEdit?
  }

  lemma ElementSlotsHaveTheirArity(p: Payload)
    requires IsElementEdit(p)
    ensures HaveTheirArity(SlotsOf(p))
  {
  }

  lemma OtherSlotsHaveTheirArity(p: Payload)
    requires !IsElementEdit(p)
    ensures HaveTheirArity(SlotsOf(p))
  {
    hide Decimal, SizingName, FlexSlotsOf;
  }

  lemma SlotsHaveTheirArity(p: Payload)
    ensures HaveTheirArity(SlotsOf(p))
  {
    hide SlotsOf, HaveTheirArity;
    if IsElementEdit(p) {
      ElementSlotsHaveTheirArity(p);
    } else {
      OtherSlotsHaveTheirArity(p);
    }
  }

  // ---------------------------------------------------------------- when they do not

  /**
   * Signatures are joined with ':' unescaped. Edits of two different elements can share a
   * signature exactly when one runtime id continues the other after a ':'.
   */
  lemma CssSignaturesCollideExactly(id1: string, id2: string)
    ensures (exists p1: string, p2: string :: p1 != "" && p2 != "" && CssSignature(id1, p1) == CssSignature(id2, p2))
       <==> id1 + ":" <= id2 + ":" || id2 + ":" <= id1 + ":"
  {
    if p1: string, p2: string :| p1 != "" && p2 != "" && CssSignature(id1, p1) == CssSignature(id2, p2) {
      var s1, s2 := id1 + ":" + p1, id2 + ":" + p2;
      SameCssSignature(id1, p1, id2, p2);
      var n1, n2 := |id1| + 1, |id2| + 1;
      assert s1[..n1] == id1 + ":" && s2[..n2] == id2 + ":";
      if n1 <= n2 {
        assert s2[..n2][..n1] == s1[..n1];
      } else {
        assert s1[..n1][..n2] == s2[..n2];
      }
    }
    if id1 + ":" <= id2 + ":" {
      CollisionWitness(id1, id2);
    }
    if id2 + ":" <= id1 + ":" {
      CollisionWitness(id2, id1);
    }
  }

  lemma CollisionWitness(short: string, long: string)
    requires short + ":" <= long + ":"
    ensures var rest := (long + ":")[|short| + 1..] + "x";
            rest != "" && CssSignature(short, rest) == CssSignature(long, "x")
  {
    var rest := (long + ":")[|short| + 1..];
    assert long + ":" == short + ":" + rest;
    assert short + ":" + (rest + "x") == long + ":" + "x";
    SameCssSignature(short, rest + "x", long, "x");
  }

  /** Where no id, or no property, holds a ':' the signature names the element and the property. */
  lemma CssSignatureIsExact(id1: string, p1: string, id2: string, p2: string)
    requires (':' !in id1 && ':' !in id2) || (':' !in p1 && ':' !in p2)
    ensures CssSignature(id1, p1) == CssSignature(id2, p2) <==> id1 == id2 && p1 == p2
  {
    var free: nat := if ':' !in id1 && ':' !in id2 then 1 else 0;
    SpellingIsExact(EditSlot(Css, [id1, p1]), EditSlot(Css, [id2, p2]), f => free);
  }
}
