/**
 * How sure a map origin may claim to be: the policy matrix and its enforcement on a
 * finished origin ("never wrong HIGH").
 */
module ConfidencePolicy {
  import opened Prelude

  datatype Evidence = MapWithRange | MapWithoutRange | ModulePathOnly | Absent | TextSearch | Marker

  datatype Confidence = High | Medium | Low

  datatype Kind = Css | Js | Unknown

  datatype Facts = Facts(hasMap: bool, hasRange: bool, modulePathOnly: bool, evidence: seq<Evidence>)

  /** `None` as confidence means that no origin is to be emitted. */
  datatype Decision = Decision(confidence: Option<Confidence>, warnings: seq<string>, qualifiesForHigh: bool)

  datatype MapOrigin = MapOrigin(
    sourceUrl: Option<string>,
    mapUrl: Option<string>,
    relativePath: Option<string>,
    startLine: Option<int>,
    startColumn: Option<int>,
    endLine: Option<int>,
    endColumn: Option<int>,
    snippet: Option<string>,
    confidence: Confidence,
    kind: Option<Kind>,
    warnings: seq<string>)

  const MAP_WITHOUT_RANGE := "map-present-without-range"
  const MODULE_PATH_ONLY := "module-path-only"
  const NEVER_WRONG_HIGH := "downgraded by never-wrong-HIGH policy: map origin lacks map+range"
  const TEXT_SEARCH_REJECTED := "text-search cannot produce HIGH on map path"
  const MARKER_REJECTED := "marker HIGH is not a map-origin product path"

  predicate QualifiesMapHigh(f: Facts) {
    && f.hasMap && f.hasRange
    && !f.modulePathOnly
    && TextSearch !in f.evidence
    && Marker !in f.evidence
    && ModulePathOnly !in f.evidence
    && Absent !in f.evidence
  }

  function AssignMapOriginConfidence(f: Facts): Decision {
    if TextSearch in f.evidence then
      Decision(if f.hasMap then Some(Medium) else None, [TEXT_SEARCH_REJECTED], false)
    else if Marker in f.evidence then
      Decision(None, [MARKER_REJECTED], false)
    else if !f.hasMap || Absent in f.evidence then
      Decision(None, [], false)
    else if f.modulePathOnly || ModulePathOnly in f.evidence then
      Decision(Some(Medium), [MODULE_PATH_ONLY], false)
    else if (f.hasRange || MapWithRange in f.evidence) && QualifiesMapHigh(f.(hasRange := true)) then
      Decision(Some(High), [], true)
    else
      Decision(Some(Medium), [MAP_WITHOUT_RANGE], false)
  }

  /**
   * The exact matrix for HIGH. A claimed "map-with-range" tag counts as a range, so HIGH is
   * wider than `QualifiesMapHigh` by exactly the facts that carry the tag but no range.
   */
  lemma HighExactly(f: Facts)
    ensures var d := AssignMapOriginConfidence(f);
            && (d.confidence == Some(High) <==> d.qualifiesForHigh)
            && (d.confidence == Some(High) <==>
                  QualifiesMapHigh(f) || (MapWithRange in f.evidence && QualifiesMapHigh(f.(hasRange := true))))
            && (MapWithRange !in f.evidence ==> (d.confidence == Some(High) <==> QualifiesMapHigh(f)))
  {
  }

  /**
   * The rest of the matrix: a decision is made exactly for facts with a map, unless they carry a marker
   * or say that the map is absent, which only a text search outweighs. The warnings tell the reason.
   */
  lemma DecisionExactly(f: Facts)
    ensures var d := AssignMapOriginConfidence(f);
            var searched := TextSearch in f.evidence;
            && (d.confidence != None <==> f.hasMap && (searched || (Marker !in f.evidence && Absent !in f.evidence)))
            && d.confidence != Some(Low)
            && (searched <==> "text-search cannot produce HIGH on map path" in d.warnings)
            && (!searched && Marker in f.evidence <==> "marker HIGH is not a map-origin product path" in d.warnings)
            && ("module-path-only" in d.warnings <==>
                  d.confidence == Some(Medium) && !searched && (f.modulePathOnly || ModulePathOnly in f.evidence))
            && ("map-present-without-range" in d.warnings <==>
                  d.confidence == Some(Medium) && !searched && !f.modulePathOnly && ModulePathOnly !in f.evidence)
            && |d.warnings| <= 1
  {
    WarningsDiffer();
  }

  lemma WarningsDiffer()
    ensures |MAP_WITHOUT_RANGE| == 25 && |MODULE_PATH_ONLY| == 16 && |TEXT_SEARCH_REJECTED| == 43 && |MARKER_REJECTED| == 44
  {
  }

  predicate HasMapOriginRange(o: MapOrigin) {
    o.startLine.Some? && o.endLine.Some?
  }

  /** Appends the warnings that are not there yet. */
  function Merged(existing: seq<string>, extra: seq<string>): seq<string> {
    if extra == [] then existing
    else
      var before := Merged(existing, extra[..|extra| - 1]);
      var w := extra[|extra| - 1];
      if w in before then before else before + [w]
  }

  method MergeWarnings(existing: seq<string>, extra: seq<string>) returns (out: seq<string>)
    ensures out == Merged(existing, extra)
  {
    out := existing;
    var i := 0;
    assert extra[..0] == [];
    while i < |extra|
      invariant 0 <= i <= |extra|
      invariant out == Merged(existing, extra[..i])
    {
      assert extra[..i + 1][..i] == extra[..i];
      if extra[i] !in out {
        out := out + [extra[i]];
      }
      i := i + 1;
    }
    assert extra[..i] == extra;
  }

  /** Merging keeps what was there, in place, adds everything extra, and adds nothing twice. */
  lemma {:induction false} MergedIsUnion(existing: seq<string>, extra: seq<string>)
    ensures var out := Merged(existing, extra);
            && existing <= out
            && (forall w :: w in out <==> w in existing || w in extra)
            && (NoDuplicates(existing) ==> NoDuplicates(out))
  {
    if extra != [] {
      MergedIsUnion(existing, extra[..|extra| - 1]);
      assert extra == extra[..|extra| - 1] + [extra[|extra| - 1]];
    }
  }

  function FactsOf(o: MapOrigin): Facts {
    Facts(o.mapUrl.Some? || o.relativePath.Some?, HasMapOriginRange(o),
          o.kind == Some(Js) || MODULE_PATH_ONLY in o.warnings, [])
  }

  function Enforced(o: MapOrigin): MapOrigin {
    if o.confidence != High then o
    else
      var d := AssignMapOriginConfidence(FactsOf(o));
      if d.confidence == Some(High) then o
      else o.(confidence := d.confidence.GetOr(Medium), warnings := Merged(o.warnings, d.warnings + [NEVER_WRONG_HIGH]))
  }

  method EnforceMapOriginNeverWrongHigh(origin: MapOrigin) returns (result: MapOrigin)
    ensures result == Enforced(origin)
  {
    if origin.confidence != High {
      return origin;
    }
    var decision := AssignMapOriginConfidence(FactsOf(origin));
    if decision.confidence == Some(High) {
      return origin;
    }
    var confidence := if decision.confidence.None? then Medium else decision.confidence.value;
    var warnings := MergeWarnings(origin.warnings, decision.warnings + [NEVER_WRONG_HIGH]);
    result := origin.(confidence := confidence, warnings := warnings);
  }

  /** A map, a concrete range, and neither a script nor a module-path-only candidate. */
  ghost predicate DeservesHigh(o: MapOrigin) {
    && (o.mapUrl.Some? || o.relativePath.Some?)
    && o.startLine.Some? && o.endLine.Some?
    && o.kind != Some(Js)
    && MODULE_PATH_ONLY !in o.warnings
  }

  /**
   * Enforcement lets HIGH through exactly when it is claimed and deserved; otherwise a claim
   * becomes MEDIUM with a warning. Nothing but the confidence and the warnings changes, no
   * warning is lost, and enforcing twice is enforcing once.
   */
  lemma NeverWrongHigh(o: MapOrigin)
    ensures var e := Enforced(o);
            && (e.confidence == High <==> o.confidence == High && DeservesHigh(o))
            && (e == o || (o.confidence == High && e.confidence == Medium && NEVER_WRONG_HIGH in e.warnings))
            && e.(confidence := o.confidence, warnings := o.warnings) == o
            && o.warnings <= e.warnings
            && Enforced(e) == e
  {
    var extra := AssignMapOriginConfidence(FactsOf(o)).warnings + [NEVER_WRONG_HIGH];
    MergedIsUnion(o.warnings, extra);
    assert extra[|extra| - 1] == NEVER_WRONG_HIGH;
  }

  /** The warnings that a downgraded claim gains: why it is not HIGH, as far as there is a map, and that it was downgraded. */
  lemma DowngradeExactly(o: MapOrigin)
    requires o.confidence == High && !DeservesHigh(o)
    ensures var e := Enforced(o);
            var mapped := o.mapUrl.Some? || o.relativePath.Some?;
            var pathOnly := o.kind == Some(Js) || "module-path-only" in o.warnings;
            && e.confidence == Medium
            && forall w :: w in e.warnings <==>
                 || w in o.warnings
                 || w == "downgraded by never-wrong-HIGH policy: map origin lacks map+range"
                 || (mapped && pathOnly && w == "module-path-only")
                 || (mapped && !pathOnly && w == "map-present-without-range")
  {
    MergedIsUnion(o.warnings, AssignMapOriginConfidence(FactsOf(o)).warnings + [NEVER_WRONG_HIGH]);
  }
}
