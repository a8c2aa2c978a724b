/**
 * Origins of CSS rules: one per rule whose stylesheet has a loadable map, HIGH exactly when
 * the selector was found in an original source.
 */
module CssOrigins {
  import opened Prelude
  import opened Caps
  import opened MapLoading
  import Policy = ConfidencePolicy
  import SourceMap

  datatype CssRule = CssRule(selectorText: string, stylesheet: Resource)

  function Stylesheets(rules: seq<CssRule>): (sheets: seq<Resource>)
    ensures |sheets| == |rules| && forall i :: 0 <= i < |rules| ==> sheets[i] == rules[i].stylesheet
  {
    seq(|rules|, i requires 0 <= i < |rules| => rules[i].stylesheet)
  }

  function First(sources: seq<string>): Option<string> {
    if sources == [] then None else Some(sources[0])
  }

  /** The origin of a rule, given its map URL and its parsed map; output lines count from 1. */
  function OriginOf(rule: CssRule, mapUrl: string, m: SourceMap.CssSourceMap): Policy.MapOrigin {
    match SourceMap.FindRange(m, rule.selectorText)
    case Some(found) =>
      Policy.MapOrigin(rule.stylesheet.url, Some(mapUrl), Some(found.sourceFile),
                       Some(found.range.startLine + 1), Some(found.range.startColumn),
                       Some(found.range.endLine + 1), Some(found.range.endColumn),
                       Some(found.range.snippet), Policy.High, Some(Policy.Css), [])
    case None =>
      Policy.MapOrigin(rule.stylesheet.url, Some(mapUrl), First(m.sources), None, None, None, None, None,
                       Policy.Medium, Some(Policy.Css), [Policy.MAP_WITHOUT_RANGE])
  }

  /** What an uncached resolver without caps emits for one rule. */
  function Offered(w: World, rule: CssRule): seq<Policy.MapOrigin> {
    match MapUrlOf(w, rule.stylesheet)
    case None => []
    case Some(mapUrl) =>
      match PlainLoad(w, mapUrl)
      case None => []
      case Some(m) => [OriginOf(rule, mapUrl, m)]
  }

  function PlainOrigins(w: World, rules: seq<CssRule>): seq<Policy.MapOrigin> {
    if rules == [] then []
    else
      var n := |rules| - 1;
      PlainOrigins(w, rules[..n]) + Offered(w, rules[n])
  }

  /** The end of the loop body: search, decide, enforce. */
  method EmitOrigin(rule: CssRule, mapUrl: string, m: SourceMap.CssSourceMap) returns (emitted: seq<Policy.MapOrigin>)
    ensures emitted == [OriginOf(rule, mapUrl, m)]
  {
    hide OriginOf, Policy.AssignMapOriginConfidence, Policy.Enforced, SourceMap.FindRange;
    emitted := [];
    var range := SourceMap.FindSelectorRange(m, rule.selectorText);
    var decision := Policy.AssignMapOriginConfidence(Policy.Facts(true, range.Some?, false, []));
    CssDecision(range.Some?);
    OriginSurvives(rule, mapUrl, m);
    if decision.confidence.Some? {
      var confidence, kind, warnings := decision.confidence.value, Some(Policy.Css), decision.warnings;
      var draft :=
        match range
        case Some(found) =>
          Policy.MapOrigin(rule.stylesheet.url, Some(mapUrl), Some(found.sourceFile),
                           Some(found.range.startLine + 1), Some(found.range.startColumn),
                           Some(found.range.endLine + 1), Some(found.range.endColumn),
                           Some(found.range.snippet), confidence, kind, warnings)
        case None =>
          Policy.MapOrigin(rule.stylesheet.url, Some(mapUrl), First(m.sources), None, None, None, None, None,
                           confidence, kind, warnings);
      var origin := Policy.EnforceMapOriginNeverWrongHigh(draft);
      emitted := emitted + [origin];
    }
  }

  method ResolveCssOrigins(rules: seq<CssRule>, world: World, caps: MapCaps)
    returns (origins: seq<Policy.MapOrigin>, originsTruncated: bool, ghost mapFetches: seq<string>, ghost spent: Counters)
    ensures origins == PlainOrigins(world, rules[..Handled(world, caps, Stylesheets(rules))])
    ensures originsTruncated <==> Handled(world, caps, Stylesheets(rules)) < |rules|
    ensures NoDuplicates(mapFetches) && forall u :: u in mapFetches ==> u in UrlsOf(world, Stylesheets(rules))
    ensures spent == Spent(world, caps, UrlsOf(world, Stylesheets(rules)))
  {
    hide Offered, OriginOf, MapUrlOf, HasMapUrl, PlainLoad, PlainOrigins, Spent, UrlsOf, Handled, Stylesheets;
    var pass := new MapPass(world, caps);
    origins := [];
    var k := 0;
    StartOfPass(world, caps, rules);
    ghost var sheets := Stylesheets(rules);
    while k < |rules|
      invariant 0 <= k <= |rules|
      invariant fresh(pass) && fresh(pass.budget) && pass.Valid()
      invariant pass.world == world && pass.caps == caps
      invariant pass.mapUrls == UrlsOf(world, sheets[..k])
      invariant !pass.budget.truncated ==>
                  && Affordable(world, caps, sheets[..k])
                  && origins == PlainOrigins(world, rules[..k])
      invariant pass.budget.truncated ==>
                  && k > 0
                  && Affordable(world, caps, sheets[..k - 1]) && !Affordable(world, caps, sheets[..k])
                  && origins == PlainOrigins(world, rules[..k - 1])
    {
      if pass.budget.truncated {
        break;
      }
      var rule := rules[k];
      OneMoreRule(world, rules, k);
      UrlsOfOneMore(world, sheets, k);
      k := k + 1;
      var mapUrl := pass.DiscoverMapUrl(rule.stylesheet);
      if mapUrl.None? {
        continue;
      }
      if pass.budget.truncated {
        break;
      }
      var cached := pass.LoadMap(mapUrl.value);
      if cached.loadFailed || cached.parsed.None? {
        continue;
      }
      var emitted := EmitOrigin(rule, mapUrl.value, cached.parsed.value);
      origins := origins + emitted;
    }
    assert rules[..|rules|] == rules && sheets[..|rules|] == sheets;
    HandledIsLongest(world, caps, sheets);
    SpentOfPrefix(world, caps, sheets, k);
    originsTruncated := pass.budget.truncated;
    mapFetches, spent := pass.mapFetches, pass.budget.Counts();
  }

  lemma StartOfPass(w: World, caps: MapCaps, rules: seq<CssRule>)
    ensures UrlsOf(w, Stylesheets(rules)[..0]) == [] && PlainOrigins(w, rules[..0]) == []
    ensures Spent(w, caps, []) == FRESH
  {
  }

  lemma OneMoreRule(w: World, rules: seq<CssRule>, k: nat)
    requires k < |rules|
    ensures PlainOrigins(w, rules[..k + 1]) ==
            match MapUrlOf(w, rules[k].stylesheet)
            case None => PlainOrigins(w, rules[..k])
            case Some(u) =>
              match PlainLoad(w, u)
              case None => PlainOrigins(w, rules[..k])
              case Some(m) => PlainOrigins(w, rules[..k]) + [OriginOf(rules[k], u, m)]
  {
    hide OriginOf;
    assert rules[..k + 1][..k] == rules[..k];
    assert PlainOrigins(w, rules[..k]) + [] == PlainOrigins(w, rules[..k]);
  }

  lemma CssDecision(hasRange: bool)
    ensures Policy.AssignMapOriginConfidence(Policy.Facts(true, hasRange, false, []))
         == if hasRange then Policy.Decision(Some(Policy.High), [], true)
            else Policy.Decision(Some(Policy.Medium), [Policy.MAP_WITHOUT_RANGE], false)
  {
  }

  lemma OriginSurvives(rule: CssRule, mapUrl: string, m: SourceMap.CssSourceMap)
    ensures Policy.Enforced(OriginOf(rule, mapUrl, m)) == OriginOf(rule, mapUrl, m)
    ensures match SourceMap.FindRange(m, rule.selectorText)
            case Some(found) =>
              OriginOf(rule, mapUrl, m) ==
              Policy.MapOrigin(rule.stylesheet.url, Some(mapUrl), Some(found.sourceFile),
                               Some(found.range.startLine + 1), Some(found.range.startColumn),
                               Some(found.range.endLine + 1), Some(found.range.endColumn),
                               Some(found.range.snippet), Policy.High, Some(Policy.Css), [])
            case None =>
              OriginOf(rule, mapUrl, m) ==
              Policy.MapOrigin(rule.stylesheet.url, Some(mapUrl), First(m.sources), None, None, None, None, None,
                               Policy.Medium, Some(Policy.Css), [Policy.MAP_WITHOUT_RANGE])
  {
    hide SourceMap.FindRange;
    Policy.NeverWrongHigh(OriginOf(rule, mapUrl, m));
  }

  // ---------------------------------------------------------------- HIGH is truthful

  /** `o` reports the range `r`, with lines counted from 1. */
  ghost predicate Reports(o: Policy.MapOrigin, r: SourceMap.Range) {
    && o.startLine == Some(r.startLine + 1) && o.startColumn == Some(r.startColumn)
    && o.endLine == Some(r.endLine + 1) && o.endColumn == Some(r.endColumn)
    && o.snippet == Some(r.snippet)
  }

  /** No content of a named source has the needle of the selector in front of '{' or ','. */
  ghost predicate IsUnfindable(m: SourceMap.CssSourceMap, selector: string) {
    || m.sourcesContent.None? || SourceMap.Selector.Needle(selector) == ""
    || forall i :: 0 <= i < |m.sourcesContent.value| && i < |m.sources| ==> SourceMap.Lacks(m, i, SourceMap.Selector.Needle(selector))
  }

  /** HIGH: the origin reports where the parsed map's contents first have the selector. */
  ghost predicate IsHighOrigin(o: Policy.MapOrigin, m: SourceMap.CssSourceMap, selector: string) {
    && o.confidence == Policy.High && o.warnings == [] && o.relativePath.Some?
    && exists r :: Reports(o, r) && SourceMap.Truthful(m, selector, SourceMap.ResolvedRange(o.relativePath.value, r))
  }

  /** MEDIUM: the selector is in none of the contents, and the origin names the first source, if any, without a place. */
  ghost predicate IsMediumOrigin(o: Policy.MapOrigin, m: SourceMap.CssSourceMap, selector: string) {
    && IsUnfindable(m, selector)
    && o.confidence == Policy.Medium && o.warnings == ["map-present-without-range"]
    && (if |m.sources| > 0 then o.relativePath == Some(m.sources[0]) else o.relativePath == None)
    && o.startLine == None && o.startColumn == None && o.endLine == None && o.endColumn == None && o.snippet == None
  }

  /** All that the origin of a rule says. */
  ghost predicate IsOriginOf(w: World, rule: CssRule, o: Policy.MapOrigin) {
    exists mapUrl, m ::
      && HasMapUrl(w, rule.stylesheet, mapUrl) && HasMap(w, mapUrl, m)
      && o.sourceUrl == rule.stylesheet.url && o.mapUrl == Some(mapUrl) && o.kind == Some(Policy.Css)
      && (IsHighOrigin(o, m, rule.selectorText) || IsMediumOrigin(o, m, rule.selectorText))
  }

  ghost predicate HasLoadableMap(w: World, rule: CssRule) {
    exists mapUrl, m :: HasMapUrl(w, rule.stylesheet, mapUrl) && HasMap(w, mapUrl, m)
  }

  lemma DescribedByParsedMap(rule: CssRule, mapUrl: string, m: SourceMap.CssSourceMap)
    ensures var o := OriginOf(rule, mapUrl, m);
            && o.sourceUrl == rule.stylesheet.url && o.mapUrl == Some(mapUrl) && o.kind == Some(Policy.Css)
            && (IsHighOrigin(o, m, rule.selectorText) || IsMediumOrigin(o, m, rule.selectorText))
  {
    hide SourceMap.FindRange, SourceMap.Truthful, SourceMap.Selector.Needle, SourceMap.MatchesAt;
    SourceMap.SearchIsExact(m, rule.selectorText);
    var found := SourceMap.FindRange(m, rule.selectorText);
    if found.Some? {
      assert SourceMap.ResolvedRange(found.value.sourceFile, found.value.range) == found.value;
      assert Reports(OriginOf(rule, mapUrl, m), found.value.range);
    }
  }

  /** A rule has one origin when its stylesheet has a map that loads, and none otherwise. */
  lemma OfferedIsExact(w: World, rule: CssRule)
    ensures Offered(w, rule) == [] <==> !HasLoadableMap(w, rule)
    ensures Offered(w, rule) != [] ==> |Offered(w, rule)| == 1 && IsOriginOf(w, rule, Offered(w, rule)[0])
  {
    forall u
      ensures MapUrlOf(w, rule.stylesheet) == Some(u) <==> HasMapUrl(w, rule.stylesheet, u)
    {
      MapUrlExactly(w, rule.stylesheet, u);
    }
    forall u, m
      ensures PlainLoad(w, u) == Some(m) <==> HasMap(w, u, m)
    {
      MapExactly(w, u, m);
    }
    hide MapUrlOf, PlainLoad, HasMapUrl, HasMap, OriginOf, IsHighOrigin, IsMediumOrigin;
    if MapUrlOf(w, rule.stylesheet).Some? && PlainLoad(w, MapUrlOf(w, rule.stylesheet).value).Some? {
      var mapUrl := MapUrlOf(w, rule.stylesheet).value;
      var m := PlainLoad(w, mapUrl).value;
      assert HasMapUrl(w, rule.stylesheet, mapUrl) && HasMap(w, mapUrl, m);
      DescribedByParsedMap(rule, mapUrl, m);
    }
  }

  /** The plain list holds one origin for each rule with a loadable map, in the order of the rules. */
  lemma {:induction false} PlainOriginsAreExact(w: World, rules: seq<CssRule>) returns (at: seq<nat>)
    ensures var os := PlainOrigins(w, rules);
            && |at| == |os|
            && (forall i, k :: 0 <= i < k < |at| ==> at[i] < at[k])
            && (forall i :: 0 <= i < |at| ==> at[i] < |rules| && IsOriginOf(w, rules[at[i]], os[i]))
            && (forall k :: 0 <= k < |rules| ==> (k in at <==> HasLoadableMap(w, rules[k])))
  {
    hide IsOriginOf, HasLoadableMap, Offered;
    at := [];
    if rules != [] {
      var n := |rules| - 1;
      at := PlainOriginsAreExact(w, rules[..n]);
      OfferedIsExact(w, rules[n]);
      assert forall k :: 0 <= k < n ==> rules[..n][k] == rules[k];
      assert forall k :: k in at ==> k < n;
      if Offered(w, rules[n]) != [] {
        at := at + [n];
      }
    }
  }

  /**
   * The origin names an entry of the `sources` of the rule's own map, and the content which the
   * map gives for that entry spells, at the reported lines and columns, the needle of the rule's
   * selector in front of '{' or ','.
   */
  ghost predicate PointsAtSelector(w: World, rule: CssRule, o: Policy.MapOrigin) {
    exists mapUrl, raw, path, r ::
      && HasMapUrl(w, rule.stylesheet, mapUrl) && HasRawMap(w, mapUrl, raw)
      && o.mapUrl == Some(mapUrl) && o.relativePath == Some(path) && Reports(o, r)
      && SourceMap.TruthfulTo(raw, rule.selectorText, SourceMap.ResolvedRange(path, r))
  }

  /** The rule's map lists these sources. */
  ghost predicate MapLists(w: World, rule: CssRule, sources: seq<Option<string>>) {
    exists mapUrl, raw :: HasMapUrl(w, rule.stylesheet, mapUrl) && HasRawMap(w, mapUrl, raw) && raw.sources == sources
  }

  lemma PointsThere(w: World, rule: CssRule, o: Policy.MapOrigin, mapUrl: string, raw: SourceMap.RawMap, path: string, r: SourceMap.Range)
    requires HasMapUrl(w, rule.stylesheet, mapUrl) && HasRawMap(w, mapUrl, raw)
    requires o.mapUrl == Some(mapUrl) && o.relativePath == Some(path) && Reports(o, r)
    requires SourceMap.TruthfulTo(raw, rule.selectorText, SourceMap.ResolvedRange(path, r))
    ensures PointsAtSelector(w, rule, o)
  {
    hide HasMapUrl, HasRawMap, Reports, SourceMap.TruthfulTo;
  }

  lemma FoundReports(rule: CssRule, mapUrl: string, m: SourceMap.CssSourceMap)
    requires SourceMap.FindRange(m, rule.selectorText).Some?
    ensures var found := SourceMap.FindRange(m, rule.selectorText).value;
            var o := OriginOf(rule, mapUrl, m);
            && o.mapUrl == Some(mapUrl) && o.relativePath == Some(found.sourceFile) && Reports(o, found.range)
            && SourceMap.ResolvedRange(found.sourceFile, found.range) == found
  {
    hide SourceMap.FindRange;
  }

  lemma FoundPoints(w: World, rule: CssRule, mapUrl: string, raw: SourceMap.RawMap)
    requires HasMapUrl(w, rule.stylesheet, mapUrl) && HasRawMap(w, mapUrl, raw) && SourceMap.Aligned(raw.sources)
    requires SourceMap.ParseSourceMap(raw).Some? && SourceMap.FindRange(SourceMap.ParseSourceMap(raw).value, rule.selectorText).Some?
    ensures PointsAtSelector(w, rule, OriginOf(rule, mapUrl, SourceMap.ParseSourceMap(raw).value))
  {
    var m := SourceMap.ParseSourceMap(raw).value;
    var found := SourceMap.FindRange(m, rule.selectorText).value;
    SourceMap.AlignedIsTruthful(raw, rule.selectorText);
    FoundReports(rule, mapUrl, m);
    hide *;
    PointsThere(w, rule, OriginOf(rule, mapUrl, m), mapUrl, raw, found.sourceFile, found.range);
  }

  /** Where the map's strings stand in front of everything else, a HIGH origin points at the selector. */
  lemma HighIsTruthful(w: World, rule: CssRule, o: Policy.MapOrigin, sources: seq<Option<string>>)
    requires o in Offered(w, rule) && o.confidence == Policy.High
    requires MapLists(w, rule, sources) && SourceMap.Aligned(sources)
    ensures PointsAtSelector(w, rule, o)
  {
    hide MapUrlOf, PlainFetch, HasMapUrl, HasRawMap, PointsAtSelector, SourceMap.ParseSourceMap, SourceMap.FindRange, SourceMap.Aligned;
    var mapUrl: string, raw: SourceMap.RawMap :|
      HasMapUrl(w, rule.stylesheet, mapUrl) && HasRawMap(w, mapUrl, raw) && raw.sources == sources;
    MapUrlExactly(w, rule.stylesheet, mapUrl);
    RawMapExactly(w, mapUrl, raw);
    assert PlainLoad(w, mapUrl) == SourceMap.ParseSourceMap(raw);
    hide PlainLoad, RawMapOf;
    FoundPoints(w, rule, mapUrl, raw);
  }

  /** Every HIGH origin a whole pass returns is the truthful origin of one of its rules. */
  lemma HighOriginsAreTruthful(w: World, caps: MapCaps, rules: seq<CssRule>, o: Policy.MapOrigin)
    requires o in PlainOrigins(w, rules[..Handled(w, caps, Stylesheets(rules))]) && o.confidence == Policy.High
    ensures exists k :: 0 <= k < |rules| && IsOriginOf(w, rules[k], o) && PointsIfAligned(w, rules[k], o)
  {
    hide Offered, PointsIfAligned, IsOriginOf, PlainOrigins, Handled;
    var part := rules[..Handled(w, caps, Stylesheets(rules))];
    PlainOriginsComeFromRules(w, part);
    var k :| 0 <= k < |part| && o in Offered(w, part[k]);
    OfferedIsExact(w, rules[k]);
    OfferedPoints(w, rules[k], o);
  }

  /** Whatever the sources of the rule's map, if they are aligned the origin points at the selector. */
  ghost predicate PointsIfAligned(w: World, rule: CssRule, o: Policy.MapOrigin) {
    forall sources :: MapLists(w, rule, sources) && SourceMap.Aligned(sources) ==> PointsAtSelector(w, rule, o)
  }

  lemma OfferedPoints(w: World, rule: CssRule, o: Policy.MapOrigin)
    requires o in Offered(w, rule) && o.confidence == Policy.High
    ensures PointsIfAligned(w, rule, o)
  {
    hide Offered, PointsAtSelector, MapLists, SourceMap.Aligned;
    forall sources | MapLists(w, rule, sources) && SourceMap.Aligned(sources)
      ensures PointsAtSelector(w, rule, o)
    {
      HighIsTruthful(w, rule, o, sources);
    }
  }

  lemma {:induction false} PlainOriginsComeFromRules(w: World, rules: seq<CssRule>)
    ensures forall o :: o in PlainOrigins(w, rules) ==> exists i :: 0 <= i < |rules| && o in Offered(w, rules[i])
  {
    hide Offered;
    if rules != [] {
      var n := |rules| - 1;
      PlainOriginsComeFromRules(w, rules[..n]);
      forall o | o in PlainOrigins(w, rules)
        ensures exists i :: 0 <= i < |rules| && o in Offered(w, rules[i])
      {
        if o in PlainOrigins(w, rules[..n]) {
          var i :| 0 <= i < |rules[..n]| && o in Offered(w, rules[..n][i]);
          assert o in Offered(w, rules[i]);
        }
      }
    }
  }

  /** In every world, HIGH origins from maps that list these sources point at their selector. */
  ghost predicate HighAlwaysPoints(sources: seq<Option<string>>) {
    forall w, rule, o :: MapLists(w, rule, sources) && o in Offered(w, rule) && o.confidence == Policy.High ==>
      PointsAtSelector(w, rule, o)
  }

  /** A world in which every URL delivers this map. */
  function WorldOf(raw: SourceMap.RawMap): World {
    World(_ => Body("map"), (_, _) => None, text => |text|, _ => Some(raw), (_, _) => None, _ => None, _ => 0)
  }

  lemma MisalignedHigh(raw: SourceMap.RawMap, rule: CssRule) returns (o: Policy.MapOrigin)
    requires rule == CssRule(SourceMap.CLASS, Resource(None, None, Some("map")))
    requires SourceMap.ParseSourceMap(raw).Some?
    requires SourceMap.FindRange(SourceMap.ParseSourceMap(raw).value, SourceMap.CLASS).Some?
    requires forall found :: !SourceMap.TruthfulTo(raw, SourceMap.CLASS, found)
    ensures var w := WorldOf(raw);
            && MapLists(w, rule, raw.sources)
            && o in Offered(w, rule) && o.confidence == Policy.High && !PointsAtSelector(w, rule, o)
  {
    hide SourceMap.FindRange, SourceMap.ParseSourceMap, SourceMap.TruthfulTo;
    var w := WorldOf(raw);
    assert MapUrlOf(w, rule.stylesheet) == Some("map");
    assert !IsDataUrl("map");
    assert RawMapOf(w, "map") == Some(raw);
    var m := SourceMap.ParseSourceMap(raw).value;
    assert PlainLoad(w, "map") == Some(m);
    o := OriginOf(rule, "map", m);
    WorldHasOneMap(raw, rule);
  }

  lemma WorldHasOneMap(raw: SourceMap.RawMap, rule: CssRule)
    requires rule == CssRule(SourceMap.CLASS, Resource(None, None, Some("map")))
    ensures MapLists(WorldOf(raw), rule, raw.sources)
    ensures forall u, x :: HasMapUrl(WorldOf(raw), rule.stylesheet, u) && HasRawMap(WorldOf(raw), u, x) ==> x == raw
  {
    var w := WorldOf(raw);
    assert MapUrlOf(w, rule.stylesheet) == Some("map");
    assert RawMapOf(w, "map") == Some(raw);
    MapUrlExactly(w, rule.stylesheet, "map");
    RawMapExactly(w, "map", raw);
  }

  /** HIGH is truthful about the map itself exactly for maps with aligned sources. */
  lemma HighIsTruthfulExactly(sources: seq<Option<string>>)
    ensures HighAlwaysPoints(sources) <==> SourceMap.Aligned(sources)
  {
    if SourceMap.Aligned(sources) {
      forall w, rule, o | MapLists(w, rule, sources) && o in Offered(w, rule) && o.confidence == Policy.High
        ensures PointsAtSelector(w, rule, o)
      {
        HighIsTruthful(w, rule, o, sources);
      }
    } else {
      var raw := SourceMap.RawMap(3, Some(""), None, sources, None);
      var contents := SourceMap.MisalignedIsUntruthful(raw);
      var rule := CssRule(SourceMap.CLASS, Resource(None, None, Some("map")));
      var o := MisalignedHigh(raw.(sourcesContent := Some(contents)), rule);
      hide Offered, PointsAtSelector, MapLists;
    }
  }

  lemma {:induction false} PlainOriginsPrefix(w: World, rules: seq<CssRule>, k: nat)
    requires k <= |rules|
    ensures PlainOrigins(w, rules[..k]) <= PlainOrigins(w, rules)
    decreases |rules|
  {
    hide Offered;
    if k == |rules| {
      assert rules[..k] == rules;
    } else {
      assert rules[..|rules| - 1][..k] == rules[..k];
      PlainOriginsPrefix(w, rules[..|rules| - 1], k);
    }
  }
}
