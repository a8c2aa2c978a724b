/**
 * Module candidates from script source maps. The resolver shares a budget and two memo
 * tables over all scripts; its specification, `PlainOrigins`, knows neither.
 */
module JsOrigins {
  import opened Prelude
  import opened Caps
  import opened MapLoading
  import SourceMap
  import Policy = ConfidencePolicy

  /** From a `sources` entry to a workspace path, or nothing for bundler noise. */
  type Normalizer = string -> Option<string>

  function Candidate(scriptSrc: Option<string>, mapUrl: string, path: string): Policy.MapOrigin {
    Policy.MapOrigin(scriptSrc, Some(mapUrl), Some(path), None, None, None, None, None,
                     Policy.Medium, Some(Policy.Js), [Policy.MODULE_PATH_ONLY])
  }

  function CandidatesOf(scriptSrc: Option<string>, mapUrl: string, normalize: Normalizer, sources: seq<string>): seq<Policy.MapOrigin> {
    if sources == [] then []
    else
      var n := |sources| - 1;
      CandidatesOf(scriptSrc, mapUrl, normalize, sources[..n])
      + match normalize(sources[n]) { case None => [] case Some(path) => [Candidate(scriptSrc, mapUrl, path)] }
  }

  /** Everything one script's map offers. */
  function Offered(w: World, normalize: Normalizer, script: Resource): seq<Policy.MapOrigin> {
    match MapUrlOf(w, script)
    case None => []
    case Some(mapUrl) =>
      match PlainLoad(w, mapUrl)
      case None => []
      case Some(m) => CandidatesOf(script.url, mapUrl, normalize, m.sources)
  }

  function AllOffered(w: World, normalize: Normalizer, scripts: seq<Resource>): seq<Policy.MapOrigin> {
    if scripts == [] then []
    else
      var n := |scripts| - 1;
      AllOffered(w, normalize, scripts[..n]) + Offered(w, normalize, scripts[n])
  }

  predicate HasPath(origins: seq<Policy.MapOrigin>, path: Option<string>) {
    exists o :: o in origins && o.relativePath == path
  }

  /** Keeps the first origin of every path. */
  function FirstOfEachPath(origins: seq<Policy.MapOrigin>): seq<Policy.MapOrigin> {
    if origins == [] then []
    else
      var n := |origins| - 1;
      var before := FirstOfEachPath(origins[..n]);
      if HasPath(before, origins[n].relativePath) then before else before + [origins[n]]
  }

  /** What an uncached resolver without caps lists. */
  function PlainOrigins(w: World, normalize: Normalizer, scripts: seq<Resource>): seq<Policy.MapOrigin> {
    FirstOfEachPath(AllOffered(w, normalize, scripts))
  }

  /** The loop over the sources of one script's map. */
  method PushCandidates(origins: seq<Policy.MapOrigin>, seenPaths: set<string>, script: Resource, mapUrl: string,
                        sources: seq<string>, normalize: Normalizer, ghost before: seq<Policy.MapOrigin>)
    returns (out: seq<Policy.MapOrigin>, seen: set<string>)
    requires origins == FirstOfEachPath(before)
    requires forall p :: p in seenPaths <==> HasPath(origins, Some(p))
    ensures out == FirstOfEachPath(before + CandidatesOf(script.url, mapUrl, normalize, sources))
    ensures forall p :: p in seen <==> HasPath(out, Some(p))
  {
    hide FirstOfEachPath, CandidatesOf, Policy.AssignMapOriginConfidence, Policy.Enforced;
    out, seen := origins, seenPaths;
    var j := 0;
    NoSources(before, script.url, mapUrl, normalize, sources);
    while j < |sources|
      invariant 0 <= j <= |sources|
      invariant forall p :: p in seen <==> HasPath(out, Some(p))
      invariant out == FirstOfEachPath(before + CandidatesOf(script.url, mapUrl, normalize, sources[..j]))
    {
      var relativePath := normalize(sources[j]);
      OneMoreSource(before, script.url, mapUrl, normalize, sources, j);
      j := j + 1;
      if relativePath.None? {
        continue;
      }
      if relativePath.value in seen {
        continue;
      }
      seen := seen + {relativePath.value};
      var decision := Policy.AssignMapOriginConfidence(Policy.Facts(true, false, true, []));
      ModuleCandidatesAreMedium();
      if decision.confidence.Some? {
        var origin := Policy.EnforceMapOriginNeverWrongHigh(
          Policy.MapOrigin(script.url, Some(mapUrl), relativePath, None, None, None, None, None,
                           decision.confidence.value, Some(Policy.Js), decision.warnings));
        out := out + [origin];
      }
    }
    assert sources[..j] == sources;
  }

  lemma NoSources(before: seq<Policy.MapOrigin>, src: Option<string>, mapUrl: string, normalize: Normalizer, sources: seq<string>)
    ensures before + CandidatesOf(src, mapUrl, normalize, sources[..0]) == before
  {
  }

  /**
   * The origins are those of the longest list of leading scripts that the caps let through
   * whole, and the truncation flag says whether that leaves out a script.
   */
  method ResolveJsOrigins(scripts: seq<Resource>, world: World, caps: MapCaps, normalize: Normalizer)
    returns (origins: seq<Policy.MapOrigin>, originsTruncated: bool, ghost mapFetches: seq<string>, ghost spent: Counters)
    ensures origins == PlainOrigins(world, normalize, scripts[..Handled(world, caps, scripts)])
    ensures originsTruncated <==> Handled(world, caps, scripts) < |scripts|
    ensures NoDuplicates(mapFetches) && forall u :: u in mapFetches ==> u in UrlsOf(world, scripts)
    ensures spent == Spent(world, caps, UrlsOf(world, scripts))
  {
    hide Offered, MapUrlOf, HasMapUrl, PlainLoad, Spent, UrlsOf, Handled, FirstOfEachPath, AllOffered, PlainOrigins, CandidatesOf, HasPath;
    var pass := new MapPass(world, caps);
    origins := [];
    var seenPaths: set<string> := {};
    var k := 0;
    StartOfPass(world, normalize, caps, scripts);
    assert scripts[..|scripts|] == scripts;
    while k < |scripts|
      invariant 0 <= k <= |scripts|
      invariant fresh(pass) && fresh(pass.budget) && pass.Valid()
      invariant pass.world == world && pass.caps == caps
      invariant forall p :: p in seenPaths <==> HasPath(origins, Some(p))
      invariant pass.mapUrls == UrlsOf(world, scripts[..k])
      invariant !pass.budget.truncated ==>
                  && Affordable(world, caps, scripts[..k])
                  && origins == PlainOrigins(world, normalize, scripts[..k])
      invariant pass.budget.truncated ==>
                  && k > 0
                  && Affordable(world, caps, scripts[..k - 1]) && !Affordable(world, caps, scripts[..k])
                  && origins == PlainOrigins(world, normalize, scripts[..k - 1])
    {
      if pass.budget.truncated {
        break;
      }
      var script := scripts[k];
      UrlsOfOneMore(world, scripts, k);
      OneMoreScript(world, normalize, scripts, k);
      k := k + 1;
      var mapUrl := pass.DiscoverMapUrl(script);
      if mapUrl.None? {
        continue;
      }
      if pass.budget.truncated {
        break;
      }
      var cached := pass.LoadMap(mapUrl.value);
      if cached.loadFailed || cached.parsed.None? {
        continue;
      }
      origins, seenPaths := PushCandidates(origins, seenPaths, script, mapUrl.value, cached.parsed.value.sources,
                                           normalize, AllOffered(world, normalize, scripts[..k - 1]));
    }
    HandledIsLongest(world, caps, scripts);
    SpentOfPrefix(world, caps, scripts, k);
    originsTruncated := pass.budget.truncated;
    mapFetches, spent := pass.mapFetches, pass.budget.Counts();
  }

  /** What one more script adds to the plain list. */
  lemma OneMoreScript(w: World, normalize: Normalizer, scripts: seq<Resource>, k: nat)
    requires k < |scripts|
    ensures PlainOrigins(w, normalize, scripts[..k]) == FirstOfEachPath(AllOffered(w, normalize, scripts[..k]))
    ensures PlainOrigins(w, normalize, scripts[..k + 1]) ==
            match MapUrlOf(w, scripts[k])
            case None => PlainOrigins(w, normalize, scripts[..k])
            case Some(u) =>
              match PlainLoad(w, u)
              case None => PlainOrigins(w, normalize, scripts[..k])
              case Some(m) =>
                FirstOfEachPath(AllOffered(w, normalize, scripts[..k]) + CandidatesOf(scripts[k].url, u, normalize, m.sources))
  {
    hide MapUrlOf, PlainLoad, CandidatesOf, FirstOfEachPath;
    assert scripts[..k + 1][..k] == scripts[..k];
    OfferedCases(w, normalize, scripts[k]);
    hide Offered;
    if Offered(w, normalize, scripts[k]) == [] {
      NothingOffered(w, normalize, scripts, k + 1);
    }
  }

  lemma ModuleCandidatesAreMedium()
    ensures Policy.AssignMapOriginConfidence(Policy.Facts(true, false, true, []))
         == Policy.Decision(Some(Policy.Medium), [Policy.MODULE_PATH_ONLY], false)
    ensures forall o: Policy.MapOrigin :: o.confidence != Policy.High ==> Policy.Enforced(o) == o
  {
  }

  lemma OfferedCases(w: World, normalize: Normalizer, script: Resource)
    ensures match MapUrlOf(w, script)
            case None => Offered(w, normalize, script) == []
            case Some(u) =>
              match PlainLoad(w, u)
              case None => Offered(w, normalize, script) == []
              case Some(m) => Offered(w, normalize, script) == CandidatesOf(script.url, u, normalize, m.sources)
  {
  }

  /** One more `sources` entry adds its origin unless it is noise or its path is known. */
  lemma OneMoreSource(before: seq<Policy.MapOrigin>, src: Option<string>, mapUrl: string, normalize: Normalizer,
                      sources: seq<string>, j: nat)
    requires j < |sources|
    ensures var was := FirstOfEachPath(before + CandidatesOf(src, mapUrl, normalize, sources[..j]));
            var now := FirstOfEachPath(before + CandidatesOf(src, mapUrl, normalize, sources[..j + 1]));
            match normalize(sources[j])
            case None => now == was
            case Some(path) => now == if HasPath(was, Some(path)) then was else was + [Candidate(src, mapUrl, path)]
  {
    hide FirstOfEachPath, HasPath;
    assert sources[..j + 1][..j] == sources[..j];
    var cs := CandidatesOf(src, mapUrl, normalize, sources[..j]);
    match normalize(sources[j])
    case None =>
      assert cs + [] == cs;
    case Some(path) =>
      FirstOfAppend(before + cs, Candidate(src, mapUrl, path));
      assert before + (cs + [Candidate(src, mapUrl, path)]) == before + cs + [Candidate(src, mapUrl, path)];
  }

  lemma FirstOfAppend(origins: seq<Policy.MapOrigin>, o: Policy.MapOrigin)
    ensures FirstOfEachPath(origins + [o])
         == if HasPath(FirstOfEachPath(origins), o.relativePath) then FirstOfEachPath(origins)
            else FirstOfEachPath(origins) + [o]
  {
    assert (origins + [o])[..|origins|] == origins;
  }

  lemma StartOfPass(w: World, normalize: Normalizer, caps: MapCaps, scripts: seq<Resource>)
    ensures UrlsOf(w, scripts[..0]) == [] && PlainOrigins(w, normalize, scripts[..0]) == []
    ensures !HasPath([], None) && forall p :: !HasPath([], Some(p))
    ensures Spent(w, caps, []) == FRESH
  {
  }

  lemma NothingOffered(w: World, normalize: Normalizer, scripts: seq<Resource>, k: nat)
    requires 0 < k <= |scripts| && Offered(w, normalize, scripts[k - 1]) == []
    ensures PlainOrigins(w, normalize, scripts[..k]) == PlainOrigins(w, normalize, scripts[..k - 1])
  {
    assert scripts[..k][..k - 1] == scripts[..k - 1];
    assert AllOffered(w, normalize, scripts[..k - 1]) + [] == AllOffered(w, normalize, scripts[..k - 1]);
  }

  // ---------------------------------------------------------------- what a script offers, described

  /** A medium candidate for a module path of the script, and nothing else. */
  ghost predicate IsModuleCandidate(o: Policy.MapOrigin, script: Resource, mapUrl: string, path: string) {
    && o.sourceUrl == script.url && o.mapUrl == Some(mapUrl) && o.relativePath == Some(path)
    && o.startLine == None && o.startColumn == None && o.endLine == None && o.endColumn == None && o.snippet == None
    && o.confidence == Policy.Medium && o.kind == Some(Policy.Js) && o.warnings == ["module-path-only"]
  }

  /** Source `j` of the script's map stands for `path`, and `o` is the candidate for it. */
  ghost predicate OffersAt(w: World, normalize: Normalizer, script: Resource, j: nat, o: Policy.MapOrigin) {
    exists mapUrl, m, path ::
      && HasMapUrl(w, script, mapUrl) && HasMap(w, mapUrl, m)
      && j < |m.sources| && normalize(m.sources[j]) == Some(path) && IsModuleCandidate(o, script, mapUrl, path)
  }

  lemma CandidateExactly(script: Resource, mapUrl: string, path: string, o: Policy.MapOrigin)
    ensures o == Candidate(script.url, mapUrl, path) <==> IsModuleCandidate(o, script, mapUrl, path)
  {
  }

  /** The candidates of a map are those of its sources, in their order. */
  lemma {:induction false} CandidatesExactly(script: Resource, mapUrl: string, normalize: Normalizer, sources: seq<string>)
    returns (at: seq<nat>)
    ensures var cs := CandidatesOf(script.url, mapUrl, normalize, sources);
            && |at| == |cs|
            && (forall i, k :: 0 <= i < k < |at| ==> at[i] < at[k])
            && (forall i :: 0 <= i < |at| ==>
                  && at[i] < |sources| && normalize(sources[at[i]]).Some?
                  && IsModuleCandidate(cs[i], script, mapUrl, normalize(sources[at[i]]).value))
            && (forall j :: 0 <= j < |sources| && normalize(sources[j]).Some? ==> j in at)
  {
    hide IsModuleCandidate;
    at := [];
    if sources != [] {
      var n := |sources| - 1;
      at := CandidatesExactly(script, mapUrl, normalize, sources[..n]);
      if normalize(sources[n]).Some? {
        var path := normalize(sources[n]).value;
        CandidateExactly(script, mapUrl, path, Candidate(script.url, mapUrl, path));
        at := at + [n];
      }
    }
  }

  /** The offers of one script, by the places of its sources. */
  ghost predicate AreOfferedBy(w: World, normalize: Normalizer, script: Resource, sources: seq<nat>, os: seq<Policy.MapOrigin>) {
    && |sources| == |os|
    && (forall i, k :: 0 <= i < k < |sources| ==> sources[i] < sources[k])
    && (forall i :: 0 <= i < |sources| ==> OffersAt(w, normalize, script, sources[i], os[i]))
    && (forall j, o :: OffersAt(w, normalize, script, j, o) ==> exists i :: 0 <= i < |sources| && sources[i] == j && os[i] == o)
  }

  /** What the plain list takes from a script, source by source. */
  lemma OfferedExactly(w: World, normalize: Normalizer, script: Resource) returns (at: seq<nat>)
    ensures AreOfferedBy(w, normalize, script, at, Offered(w, normalize, script))
  {
    forall u
      ensures MapUrlOf(w, script) == Some(u) <==> HasMapUrl(w, script, u)
    {
      MapUrlExactly(w, script, u);
    }
    forall u, m
      ensures PlainLoad(w, u) == Some(m) <==> HasMap(w, u, m)
    {
      MapExactly(w, u, m);
    }
    hide MapUrlOf, PlainLoad, HasMapUrl, HasMap;
    at := [];
    if MapUrlOf(w, script).Some? && PlainLoad(w, MapUrlOf(w, script).value).Some? {
      var mapUrl := MapUrlOf(w, script).value;
      var m := PlainLoad(w, mapUrl).value;
      at := CandidatesExactly(script, mapUrl, normalize, m.sources);
      OffersFromMap(w, normalize, script, mapUrl, m, at);
    }
  }

  lemma OffersFromMap(w: World, normalize: Normalizer, script: Resource, mapUrl: string, m: SourceMap.CssSourceMap, at: seq<nat>)
    requires forall u :: HasMapUrl(w, script, u) <==> u == mapUrl
    requires forall x :: HasMap(w, mapUrl, x) <==> x == m
    requires var cs := CandidatesOf(script.url, mapUrl, normalize, m.sources);
            && |at| == |cs|
            && (forall i :: 0 <= i < |at| ==>
                  && at[i] < |m.sources| && normalize(m.sources[at[i]]).Some?
                  && IsModuleCandidate(cs[i], script, mapUrl, normalize(m.sources[at[i]]).value))
            && (forall j :: 0 <= j < |m.sources| && normalize(m.sources[j]).Some? ==> j in at)
    ensures var cs := CandidatesOf(script.url, mapUrl, normalize, m.sources);
            && (forall i :: 0 <= i < |at| ==> OffersAt(w, normalize, script, at[i], cs[i]))
            && (forall j, o :: OffersAt(w, normalize, script, j, o) ==> exists i :: 0 <= i < |at| && at[i] == j && cs[i] == o)
  {
    hide HasMapUrl, HasMap, CandidatesOf, IsModuleCandidate;
    var cs := CandidatesOf(script.url, mapUrl, normalize, m.sources);
    forall j: nat, o | OffersAt(w, normalize, script, j, o)
      ensures exists i :: 0 <= i < |at| && at[i] == j && cs[i] == o
    {
      var path := normalize(m.sources[j]).value;
      var i :| 0 <= i < |at| && at[i] == j;
      CandidateExactly(script, mapUrl, path, o);
      CandidateExactly(script, mapUrl, path, cs[i]);
    }
  }

  /** Source `at.1` of script `at.0`. */
  type Place = (nat, nat)

  predicate Earlier(a: Place, b: Place) {
    a.0 < b.0 || (a.0 == b.0 && a.1 < b.1)
  }

  /** `o` is what the scripts offer at this place. */
  ghost predicate OfferedAt(w: World, normalize: Normalizer, scripts: seq<Resource>, at: Place, o: Policy.MapOrigin) {
    at.0 < |scripts| && OffersAt(w, normalize, scripts[at.0], at.1, o)
  }

  /** `o` is offered at some place, and its path at no earlier one. */
  ghost predicate OfferedFirst(w: World, normalize: Normalizer, scripts: seq<Resource>, o: Policy.MapOrigin) {
    exists at :: && OfferedAt(w, normalize, scripts, at, o)
      && forall before, other :: Earlier(before, at) && OfferedAt(w, normalize, scripts, before, other) ==>
           other.relativePath != o.relativePath
  }

  /** `places` says where each of `os` is offered; nothing else is offered. */
  ghost predicate AreOffered(w: World, normalize: Normalizer, scripts: seq<Resource>, places: seq<Place>, os: seq<Policy.MapOrigin>) {
    && |places| == |os|
    && (forall i, k :: 0 <= i < k < |places| ==> Earlier(places[i], places[k]))
    && (forall i :: 0 <= i < |places| ==> OfferedAt(w, normalize, scripts, places[i], os[i]))
    && (forall at, o :: OfferedAt(w, normalize, scripts, at, o) ==> exists i :: 0 <= i < |places| && places[i] == at && os[i] == o)
  }

  lemma {:induction false} AllOfferedExactly(w: World, normalize: Normalizer, scripts: seq<Resource>) returns (places: seq<Place>)
    ensures AreOffered(w, normalize, scripts, places, AllOffered(w, normalize, scripts))
  {
    places := [];
    if scripts != [] {
      var n := |scripts| - 1;
      var (init, last) := (scripts[..n], scripts[n]);
      assert scripts == init + [last];
      var before := AllOfferedExactly(w, normalize, init);
      var sources := OfferedExactly(w, normalize, last);
      assert AllOffered(w, normalize, scripts) == AllOffered(w, normalize, init) + Offered(w, normalize, last);
      hide *;
      places := OneMoreOffered(w, normalize, init, last, before, AllOffered(w, normalize, init), sources, Offered(w, normalize, last));
    }
  }

  function PlacesIn(n: nat, sources: seq<nat>): (places: seq<Place>)
    ensures |places| == |sources| && forall i :: 0 <= i < |places| ==> places[i] == (n, sources[i])
  {
    seq(|sources|, i requires 0 <= i < |sources| => (n, sources[i]))
  }

  lemma OneMoreOffered(w: World, normalize: Normalizer, scripts: seq<Resource>, script: Resource,
                       before: seq<Place>, os: seq<Policy.MapOrigin>, sources: seq<nat>, more: seq<Policy.MapOrigin>)
    returns (places: seq<Place>)
    requires AreOffered(w, normalize, scripts, before, os) && AreOfferedBy(w, normalize, script, sources, more)
    ensures AreOffered(w, normalize, scripts + [script], places, os + more)
  {
    places := before + PlacesIn(|scripts|, sources);
    EachIsOffered(w, normalize, scripts, script, before, os, sources, more);
    NothingElseOffered(w, normalize, scripts, script, before, os, sources, more);
    PlacesIncrease(before, |scripts|, sources);
    hide AreOfferedBy, OfferedAt, Earlier, PlacesIn;
  }

  lemma EachIsOffered(w: World, normalize: Normalizer, scripts: seq<Resource>, script: Resource,
                      before: seq<Place>, os: seq<Policy.MapOrigin>, sources: seq<nat>, more: seq<Policy.MapOrigin>)
    requires AreOffered(w, normalize, scripts, before, os) && AreOfferedBy(w, normalize, script, sources, more)
    ensures var places := before + PlacesIn(|scripts|, sources);
            && |places| == |os + more|
            && forall i :: 0 <= i < |places| ==> OfferedAt(w, normalize, scripts + [script], places[i], (os + more)[i])
    ensures forall i :: 0 <= i < |before| ==> before[i].0 < |scripts|
  {
    OfferedStill(w, normalize, scripts, script, before, os);
    OfferedNow(w, normalize, scripts, script, sources, more);
    hide OfferedAt, OffersAt;
  }

  lemma PlacesIncrease(before: seq<Place>, n: nat, sources: seq<nat>)
    requires forall i, k :: 0 <= i < k < |before| ==> Earlier(before[i], before[k])
    requires forall i :: 0 <= i < |before| ==> before[i].0 < n
    requires forall i, k :: 0 <= i < k < |sources| ==> sources[i] < sources[k]
    ensures var places := before + PlacesIn(n, sources);
            forall i, k :: 0 <= i < k < |places| ==> Earlier(places[i], places[k])
  {
  }

  lemma OfferedStill(w: World, normalize: Normalizer, scripts: seq<Resource>, script: Resource,
                     before: seq<Place>, os: seq<Policy.MapOrigin>)
    requires AreOffered(w, normalize, scripts, before, os)
    ensures forall i :: 0 <= i < |before| ==> before[i].0 < |scripts| && OfferedAt(w, normalize, scripts + [script], before[i], os[i])
  {
    hide OffersAt;
    forall i | 0 <= i < |before|
      ensures before[i].0 < |scripts| && OfferedAt(w, normalize, scripts + [script], before[i], os[i])
    {
      assert OfferedAt(w, normalize, scripts, before[i], os[i]);
    }
  }

  lemma OfferedNow(w: World, normalize: Normalizer, scripts: seq<Resource>, script: Resource,
                   sources: seq<nat>, more: seq<Policy.MapOrigin>)
    requires AreOfferedBy(w, normalize, script, sources, more)
    ensures var added := PlacesIn(|scripts|, sources);
            forall i :: 0 <= i < |added| ==> OfferedAt(w, normalize, scripts + [script], added[i], more[i])
  {
    hide OffersAt;
  }

  lemma NothingElseOffered(w: World, normalize: Normalizer, scripts: seq<Resource>, script: Resource,
                           before: seq<Place>, os: seq<Policy.MapOrigin>, sources: seq<nat>, more: seq<Policy.MapOrigin>)
    requires AreOffered(w, normalize, scripts, before, os) && AreOfferedBy(w, normalize, script, sources, more)
    ensures var places := before + PlacesIn(|scripts|, sources);
            forall at, o :: OfferedAt(w, normalize, scripts + [script], at, o) ==>
              exists i :: 0 <= i < |places| && places[i] == at && (os + more)[i] == o
  {
    hide OffersAt;
    var added := PlacesIn(|scripts|, sources);
    var places := before + added;
    forall at: Place, o | OfferedAt(w, normalize, scripts + [script], at, o)
      ensures exists i :: 0 <= i < |places| && places[i] == at && (os + more)[i] == o
    {
      if at.0 < |scripts| {
        assert OfferedAt(w, normalize, scripts, at, o);
        var i :| 0 <= i < |before| && before[i] == at && os[i] == o;
        assert places[i] == at && (os + more)[i] == o;
      } else {
        var i :| 0 <= i < |sources| && sources[i] == at.1 && more[i] == o;
        assert places[|before| + i] == added[i] && (os + more)[|before| + i] == o;
      }
    }
  }

  /**
   * What the scripts' list holds, origin by origin: exactly the candidates that are offered before any other
   * of the same path, scripts in their order and the sources of one map in theirs.
   */
  lemma OriginsExactly(w: World, normalize: Normalizer, scripts: seq<Resource>, o: Policy.MapOrigin)
    ensures o in PlainOrigins(w, normalize, scripts) <==> OfferedFirst(w, normalize, scripts, o)
  {
    var all := AllOffered(w, normalize, scripts);
    var places := AllOfferedExactly(w, normalize, scripts);
    FirstOfEachPathIsExact(all);
    KeptIsFirst(all, o);
    FirstIsOfferedFirst(w, normalize, scripts, places, all, o);
    hide AllOffered, FirstOfEachPath, IsFirst, OfferedFirst;
  }

  lemma KeptIsFirst(origins: seq<Policy.MapOrigin>, o: Policy.MapOrigin)
    ensures o in FirstOfEachPath(origins) <==> IsFirst(origins, o)
  {
    FirstOfEachPathIsExact(origins);
    hide FirstOfEachPath;
    if IsFirst(origins, o) {
      var other :| other in FirstOfEachPath(origins) && other.relativePath == o.relativePath;
      assert IsFirst(origins, other);
    }
  }

  lemma FirstIsOfferedFirst(w: World, normalize: Normalizer, scripts: seq<Resource>, places: seq<Place>,
                            os: seq<Policy.MapOrigin>, o: Policy.MapOrigin)
    requires AreOffered(w, normalize, scripts, places, os)
    ensures IsFirst(os, o) <==> OfferedFirst(w, normalize, scripts, o)
  {
    hide OfferedAt, AreOffered;
    if IsFirst(os, o) {
      var i :| 0 <= i < |os| && os[i] == o && forall j :: 0 <= j < i ==> os[j].relativePath != o.relativePath;
      FirstAtPlace(w, normalize, scripts, places, os, i);
    }
    if OfferedFirst(w, normalize, scripts, o) {
      var at: Place :| OfferedAt(w, normalize, scripts, at, o)
        && forall before, other :: Earlier(before, at) && OfferedAt(w, normalize, scripts, before, other) ==>
             other.relativePath != o.relativePath;
      FirstInList(w, normalize, scripts, places, os, at, o);
    }
  }

  lemma FirstAtPlace(w: World, normalize: Normalizer, scripts: seq<Resource>, places: seq<Place>,
                     os: seq<Policy.MapOrigin>, i: nat)
    requires AreOffered(w, normalize, scripts, places, os)
    requires i < |os| && forall j :: 0 <= j < i ==> os[j].relativePath != os[i].relativePath
    ensures OfferedFirst(w, normalize, scripts, os[i])
  {
    hide OfferedAt;
    forall before, other | Earlier(before, places[i]) && OfferedAt(w, normalize, scripts, before, other)
      ensures other.relativePath != os[i].relativePath
    {
      var k :| 0 <= k < |places| && places[k] == before && os[k] == other;
      assert k < i;
    }
    assert OfferedAt(w, normalize, scripts, places[i], os[i]);
  }

  lemma FirstInList(w: World, normalize: Normalizer, scripts: seq<Resource>, places: seq<Place>,
                    os: seq<Policy.MapOrigin>, at: Place, o: Policy.MapOrigin)
    requires AreOffered(w, normalize, scripts, places, os) && OfferedAt(w, normalize, scripts, at, o)
    requires forall before, other :: Earlier(before, at) && OfferedAt(w, normalize, scripts, before, other) ==>
               other.relativePath != o.relativePath
    ensures IsFirst(os, o)
  {
    hide OfferedAt;
    var i :| 0 <= i < |places| && places[i] == at && os[i] == o;
    forall j | 0 <= j < i
      ensures os[j].relativePath != o.relativePath
    {
      assert Earlier(places[j], at) && OfferedAt(w, normalize, scripts, places[j], os[j]);
    }
  }

  // ---------------------------------------------------------------- what the plain list is

  /** Later origins never change what was kept of earlier ones. */
  lemma {:induction false} FirstOfEachPathPrefix(a: seq<Policy.MapOrigin>, b: seq<Policy.MapOrigin>)
    ensures FirstOfEachPath(a) <= FirstOfEachPath(a + b)
  {
    hide HasPath;
    if b == [] {
      assert a + b == a;
    } else {
      var n := |b| - 1;
      FirstOfEachPathPrefix(a, b[..n]);
      assert a + b == (a + b[..n]) + [b[n]];
      FirstOfAppend(a + b[..n], b[n]);
    }
  }

  lemma {:induction false} AllOfferedPrefix(w: World, normalize: Normalizer, scripts: seq<Resource>, k: nat)
    requires k <= |scripts|
    ensures AllOffered(w, normalize, scripts[..k]) <= AllOffered(w, normalize, scripts)
    decreases |scripts|
  {
    hide Offered;
    if k == |scripts| {
      assert scripts[..k] == scripts;
    } else {
      assert scripts[..|scripts| - 1][..k] == scripts[..k];
      AllOfferedPrefix(w, normalize, scripts[..|scripts| - 1], k);
    }
  }

  /** Cut off or not, the resolver's list is a prefix of the plain one. */
  lemma CappedIsPrefixOfPlain(w: World, caps: MapCaps, normalize: Normalizer, scripts: seq<Resource>)
    ensures var k := Handled(w, caps, scripts);
            && PlainOrigins(w, normalize, scripts[..k]) <= PlainOrigins(w, normalize, scripts)
            && (k == |scripts| ==> PlainOrigins(w, normalize, scripts[..k]) == PlainOrigins(w, normalize, scripts))
  {
    hide AllOffered, FirstOfEachPath, Handled;
    var k := Handled(w, caps, scripts);
    var part, whole := AllOffered(w, normalize, scripts[..k]), AllOffered(w, normalize, scripts);
    AllOfferedPrefix(w, normalize, scripts, k);
    assert whole == part + whole[|part|..];
    FirstOfEachPathPrefix(part, whole[|part|..]);
    if k == |scripts| {
      assert scripts[..k] == scripts;
    }
  }

  /** `o` is offered, and no origin offered before it has its path. */
  ghost predicate IsFirst(origins: seq<Policy.MapOrigin>, o: Policy.MapOrigin) {
    exists i :: 0 <= i < |origins| && origins[i] == o
      && forall j :: 0 <= j < i ==> origins[j].relativePath != o.relativePath
  }

  lemma FirstStaysFirst(init: seq<Policy.MapOrigin>, last: Policy.MapOrigin, o: Policy.MapOrigin)
    requires IsFirst(init, o)
    ensures IsFirst(init + [last], o)
  {
    var i :| 0 <= i < |init| && init[i] == o && forall j :: 0 <= j < i ==> init[j].relativePath != o.relativePath;
    assert (init + [last])[i] == o;
  }

  lemma NewPathIsFirst(init: seq<Policy.MapOrigin>, last: Policy.MapOrigin)
    requires forall o :: o in init ==> o.relativePath != last.relativePath
    ensures IsFirst(init + [last], last)
  {
    assert (init + [last])[|init|] == last;
  }

  /**
   * Keeping the first of each path: no path twice, no path lost, and the kept origin of a
   * path is the one offered before all others.
   */
  lemma {:induction false} FirstOfEachPathIsExact(origins: seq<Policy.MapOrigin>)
    ensures var kept := FirstOfEachPath(origins);
            && (forall i, j :: 0 <= i < j < |kept| ==> kept[i].relativePath != kept[j].relativePath)
            && (forall o :: o in origins ==> HasPath(kept, o.relativePath))
            && (forall o :: o in kept ==> IsFirst(origins, o))
  {
    hide IsFirst;
    if origins != [] {
      var n := |origins| - 1;
      var init, last := origins[..n], origins[n];
      assert origins == init + [last];
      FirstOfEachPathIsExact(init);
      var before := FirstOfEachPath(init);
      forall o | o in before
        ensures IsFirst(origins, o)
      {
        FirstStaysFirst(init, last, o);
      }
      if !HasPath(before, last.relativePath) {
        forall o | o in init
          ensures o.relativePath != last.relativePath
        {
          assert HasPath(before, o.relativePath);
        }
        NewPathIsFirst(init, last);
      }
    }
  }
}
