/** The change operations and the element identities they refer to. */
module Operations {
  import opened Prelude

  datatype ElementRef = ElementRef(
    runtimeId: string,
    sourceId: Option<string>,
    selector: Option<string>,
    occurrence: Option<nat>,
    fingerprint: Option<string>)
  {
    predicate HasDurableIdentity() {
      selector.Some? && occurrence.Some? && fingerprint.Some?
    }
  }

  predicate SameElementIdentity(left: ElementRef, right: ElementRef) {
    || left.runtimeId == right.runtimeId
    || (&& left.HasDurableIdentity() && right.HasDurableIdentity()
        && left.selector == right.selector
        && left.occurrence == right.occurrence
        && left.fingerprint == right.fingerprint)
  }

  /**
   * Under one runtime id references name one element. Under two they do only if all of selector,
   * occurrence and fingerprint are known and equal; the source id plays no part.
   */
  lemma IdentityExactly(left: ElementRef, right: ElementRef)
    ensures left.runtimeId == right.runtimeId ==> SameElementIdentity(left, right)
    ensures left.runtimeId != right.runtimeId ==>
              (SameElementIdentity(left, right) <==>
                exists s, o, f :: && left == ElementRef(left.runtimeId, left.sourceId, Some(s), Some(o), Some(f))
                                  && right == ElementRef(right.runtimeId, right.sourceId, Some(s), Some(o), Some(f)))
  {
    if left.runtimeId != right.runtimeId && SameElementIdentity(left, right) {
      var (s, o, f) := (left.selector.value, left.occurrence.value, left.fingerprint.value);
      assert left == ElementRef(left.runtimeId, left.sourceId, Some(s), Some(o), Some(f));
    }
  }

  datatype Confidence = Weight(w: real) | Level(name: string)

  datatype Origin = PropertyPanel | CanvasDrag | Shortcut | Agent

  /** The fields every operation has. */
  datatype Base = Base(
    id: string,
    inverseOf: Option<string>,
    timestamp: nat,
    runtime: bool,
    origin: Origin,
    confidence: Confidence,
    breakpoint: Option<string>,
    pseudoState: Option<string>,
    notes: Option<seq<string>>)

  datatype SourceRange = SourceRange(startLine: nat, startColumn: nat, endLine: nat, endColumn: nat)

  datatype Rect = Rect(x: real, y: real, width: real, height: real)

  /** A value before and after an operation. */
  datatype Change<T> = Change(before: T, after: T) {
    function Swapped(): Change<T> {
      Change(after, before)
    }
  }

  datatype FlexState = FlexState(flexGrow: string, flexShrink: string, flexBasis: string, usedMainSize: real)

  datatype FlexMember = FlexMember(element: ElementRef, change: Change<FlexState>)

  datatype Witness = Witness(element: ElementRef, rect: Change<Rect>)

  datatype FlexAxis = FlexAxis(writingMode: string, direction: string, flexDirection: string, logicalAxis: string,
                               physicalAxis: string, directionSign: int, handleBoundary: string)

  datatype Sizing = Hug | Fill | Fixed

  /** The optional context of an edit scoped to a breakpoint. */
  datatype Scope = Scope(breakpoint: string, mediaSource: Option<string>, activeViewport: Option<string>,
                         responsivePrefix: Option<string>, applyToBase: Option<bool>)

  /**
   * What an operation does. Kinds whose element is named by other fields have their
   * `target` optional; it is called `hint` here.
   */
  datatype Payload =
    | StyleEdit(target: ElementRef, property: string, value: string, important: bool, previousValue: Option<string>)
    | RemoveStyle(target: ElementRef, property: string, previousValue: Option<string>, wasImportant: Option<bool>)
    | ClassAdd(target: ElementRef, className: string)
    | ClassRemove(target: ElementRef, className: string)
    | ClassReplace(target: ElementRef, oldClassName: string, newClassName: string)
    | SetAttribute(target: ElementRef, name: string, value: string, previousValue: Option<string>)
    | SetComponentProp(target: ElementRef, componentName: string, propName: string, value: string,
                       previousValue: Option<string>, sourceRange: SourceRange)
    | TextEdit(target: ElementRef, newText: string, previousText: Option<string>)
    | PseudoStyleEdit(target: ElementRef, pseudoTarget: string, property: string, value: string, important: bool,
                      previousValue: Option<string>)
    | PositionElement(target: ElementRef, property: string, fromValue: string, toValue: string)
    | ResizeElement(hint: Option<ElementRef>, element: ElementRef, property: string, fromValue: string, toValue: string,
                    unit: string)
    | ResizeFlexPair(target: ElementRef, container: ElementRef, primary: FlexMember, neighbor: FlexMember,
                     containerWitness: Change<Rect>, witnesses: seq<Witness>, flexAxis: FlexAxis, delta: real)
    | ReorderChild(hint: Option<ElementRef>, parent: ElementRef, child: ElementRef, fromIndex: nat, toIndex: nat)
    | ReparentElement(hint: Option<ElementRef>, element: ElementRef, sourceParent: ElementRef, sourceIndex: nat,
                      targetParent: ElementRef, targetIndex: nat)
    | MultiSelectGroup(hint: Option<ElementRef>, targets: seq<ElementRef>, groupId: string,
                       previousTargets: Option<seq<ElementRef>>)
    | GroupReorder(hint: Option<ElementRef>, parent: ElementRef, children: seq<ElementRef>, previousOrder: seq<nat>,
                   newOrder: seq<nat>)
    | GroupReparent(hint: Option<ElementRef>, elements: seq<ElementRef>, sourceParent: ElementRef, sourceIndices: seq<nat>,
                    targetParent: ElementRef, targetIndices: seq<nat>)
    | AlignElements(hint: Option<ElementRef>, targets: seq<ElementRef>, alignment: string, previousValues: seq<string>,
                    newValues: seq<string>)
    | DistributeElements(hint: Option<ElementRef>, targets: seq<ElementRef>, axis: string, mode: string,
                         previousGaps: seq<string>, newGaps: seq<string>)
    | SetContainerLayout(hint: Option<ElementRef>, container: ElementRef, property: string, value: string,
                         previousValue: Option<string>)
    | SetChildSizing(hint: Option<ElementRef>, container: ElementRef, childIndex: nat, child: ElementRef, sizing: Sizing,
                     previousSizing: Option<Sizing>, sizeValue: Option<string>, previousSizeValue: Option<string>)
    | GridReorder(hint: Option<ElementRef>, grid: ElementRef, child: ElementRef, placement: string, fromIndex: nat,
                  toIndex: nat, previousGridArea: Option<string>, newGridArea: Option<string>)
    | GridSpan(hint: Option<ElementRef>, grid: ElementRef, child: ElementRef, axis: string, fromSpan: nat, toSpan: nat)
    | InsertElement(hint: Option<ElementRef>, element: ElementRef, parent: ElementRef, index: nat, tagName: string,
                    attributes: Option<map<string, string>>)
    | RemoveElement(hint: Option<ElementRef>, element: ElementRef, parent: ElementRef, index: nat, tagName: string,
                    attributes: Option<map<string, string>>)
    | DuplicateElement(hint: Option<ElementRef>, source: ElementRef, duplicate: ElementRef, parent: ElementRef, index: nat,
                       tagName: string)
    | WrapElements(hint: Option<ElementRef>, targets: seq<ElementRef>, wrapper: ElementRef, parent: ElementRef,
                   tagName: string)
    | UnwrapElement(hint: Option<ElementRef>, wrapper: ElementRef, parent: ElementRef, tagName: string,
                    targets: seq<ElementRef>)
    | BreakpointStyleEdit(target: ElementRef, scope: Scope, property: string, value: string, important: bool,
                          previousValue: Option<string>)
    | BreakpointClassEdit(target: ElementRef, scope: Scope, oldClassName: string, newClassName: string)
    | BreakpointTextEdit(target: ElementRef, scope: Scope, newText: string, previousText: Option<string>)
    | ScreenshotCropRef(target: ElementRef, artifactId: string, captureRegion: Rect, redactionReport: Option<string>,
                        retentionExpiresAt: Option<nat>)
    | SuggestedDiff(hint: Option<ElementRef>, diff: string, sourceRanges: seq<SourceRange>, preconditions: seq<string>,
                    applied: bool)

  datatype Operation = Operation(base: Base, payload: Payload)
}
