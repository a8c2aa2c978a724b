/**
 * Loading source maps in one resolve pass: the capped fetch, the discovery of a map URL and
 * the two memo tables, which the script and the stylesheet resolvers have in common. They are
 * compared with `PlainFetch`, `MapUrlOf` and `PlainLoad`, which know no budget, no clock and no
 * memory.
 */
module MapLoading {
  import opened Prelude
  import opened Caps
  import SourceMap
  import Text

  // ---------------------------------------------------------------- the outside world

  datatype Outcome = NotOk | Body(text: string) | Aborted | Broken

  /**
   * Everything the resolvers take from outside, as functions: the network, the decoding of
   * data URLs, UTF-8 lengths, JSON parsing, URL resolution, the sourceMappingURL directive,
   * and the readings of the clock, numbered from 0.
   */
  datatype World = World(
    fetch: string -> Outcome,
    decodeData: (bool, string) -> Option<string>,
    utf8Length: string -> nat,
    json: string -> Option<SourceMap.RawMap>,
    resolve: (string, Option<string>) -> Option<string>,
    directive: string -> Option<string>,
    clock: nat -> int)

  /** A script or a stylesheet: its URL, its text when already known, and its map URL when already known. */
  datatype Resource = Resource(url: Option<string>, text: Option<string>, mapUrl: Option<string>)

  datatype Reason = Missing | Oversized | Timeout | Network | Cap | Empty

  datatype FetchTextResult = Fetched(text: string, byteLength: nat) | NotFetched(reason: Reason) {
    function Text(): Option<string> {
      if Fetched? then Some(text) else None
    }
  }

  /** The parsed map of one URL, remembered for the rest of the pass. */
  datatype CachedMap = CachedMap(mapUrl: string, parsed: Option<SourceMap.CssSourceMap>, loadFailed: bool)

  predicate IsDataUrl(url: string) {
    "data:" <= url
  }

  /** The text a data URL carries, if it has a comma and its data decodes. */
  function DataUrlText(w: World, url: string): Option<string>
    requires IsDataUrl(url)
  {
    var comma := Text.FirstIndex(url, ',');
    if comma == |url| then None
    else
      assert comma >= 5 by {
        assert forall k :: 0 <= k < 5 ==> url[k] == "data:"[k];
      }
      w.decodeData(Text.Contains(url[5..comma], ";base64"), url[comma + 1..])
  }

  // ---------------------------------------------------------------- no caps, no caches

  /** What the URL delivers when nothing limits it; an empty text counts as nothing. */
  function PlainFetch(w: World, url: string): Option<string> {
    var text :=
      if IsDataUrl(url) then DataUrlText(w, url)
      else match w.fetch(url) { case Body(t) => Some(t) case _ => None };
    if text == Some("") then None else text
  }

  /** The map as it comes out of JSON, before it is parsed as a source map. */
  function RawMapOf(w: World, mapUrl: string): Option<SourceMap.RawMap> {
    match PlainFetch(w, mapUrl)
    case None => None
    case Some(text) => w.json(text)
  }

  function PlainLoad(w: World, mapUrl: string): Option<SourceMap.CssSourceMap> {
    match PlainFetch(w, mapUrl)
    case None => None
    case Some(text) => ParseText(w, text)
  }

  function ParseText(w: World, text: string): Option<SourceMap.CssSourceMap> {
    match w.json(text)
    case None => None
    case Some(raw) => SourceMap.ParseSourceMap(raw)
  }

  function MapUrlOf(w: World, r: Resource): Option<string> {
    if r.mapUrl.GetOr("") != "" then
      Some(w.resolve(r.mapUrl.value, r.url).GetOr(r.mapUrl.value))
    else
      var text := if r.text.None? && r.url.Some? then PlainFetch(w, r.url.value) else r.text;
      match text
      case None => None
      case Some(t) => FromDirective(w, t, r.url)
  }

  function FromDirective(w: World, text: string, base: Option<string>): Option<string> {
    match w.directive(text)
    case None => None
    case Some(ref) => w.resolve(ref, base)
  }

  function PlainResult(w: World, url: string): FetchTextResult {
    var text :=
      if IsDataUrl(url) then
        match DataUrlText(w, url) { case Some(t) => Fetched(t, w.utf8Length(t)) case None => NotFetched(Missing) }
      else
        match w.fetch(url)
        case Body(t) => Fetched(t, w.utf8Length(t))
        case NotOk => NotFetched(Missing)
        case Aborted => NotFetched(Timeout)
        case Broken => NotFetched(Network);
    if text.Text() == Some("") then NotFetched(Empty) else text
  }

  // ---------------------------------------------------------------- the same, described

  ghost predicate IsData(url: string) {
    exists rest :: url == "data:" + rest
  }

  ghost predicate SaysBase64(meta: string) {
    exists a, b :: meta == a + ";base64" + b
  }

  /** After "data:" and up to the first comma stands how the rest is encoded. */
  ghost predicate IsDataOf(url: string, meta: string, data: string) {
    url == "data:" + meta + "," + data && ',' !in meta
  }

  /** The body behind the URL is `text`, which may be empty. */
  ghost predicate Carries(w: World, url: string, text: string) {
    if IsData(url) then exists meta, data :: IsDataOf(url, meta, data) && w.decodeData(SaysBase64(meta), data) == Some(text)
    else w.fetch(url) == Body(text)
  }

  ghost predicate Delivers(w: World, url: string, text: string) {
    text != "" && Carries(w, url, text)
  }

  /** What a fetch of the URL tells when no cap intervenes. */
  ghost predicate Yields(w: World, url: string, r: FetchTextResult) {
    match r
    case Fetched(text, byteLength) => Delivers(w, url, text) && byteLength == w.utf8Length(text)
    case NotFetched(reason) =>
      match reason
      case Empty => Carries(w, url, "")
      case Missing => if IsData(url) then forall text :: !Carries(w, url, text) else w.fetch(url) == NotOk
      case Timeout => !IsData(url) && w.fetch(url) == Aborted
      case Network => !IsData(url) && w.fetch(url) == Broken
      case Oversized => false
      case Cap => false
  }

  /** The text that is searched for a directive: the known one, even an empty one, or else what the URL delivers. */
  ghost predicate IsTextOf(w: World, r: Resource, text: string) {
    r.text == Some(text) || (r.text.None? && r.url.Some? && Delivers(w, r.url.value, text))
  }

  /**
   * The map URL of a resource: its own one, resolved against the resource's URL if that works; without
   * one, the directive of its text, which has to resolve against the resource's URL.
   */
  ghost predicate HasMapUrl(w: World, r: Resource, u: string) {
    if exists own :: own != "" && r.mapUrl == Some(own) then
      if w.resolve(r.mapUrl.value, r.url).Some? then w.resolve(r.mapUrl.value, r.url) == Some(u) else r.mapUrl == Some(u)
    else
      exists text, ref :: IsTextOf(w, r, text) && w.directive(text) == Some(ref) && w.resolve(ref, r.url) == Some(u)
  }

  ghost predicate HasMap(w: World, mapUrl: string, m: SourceMap.CssSourceMap) {
    exists text, raw :: Delivers(w, mapUrl, text) && w.json(text) == Some(raw) && SourceMap.ParseSourceMap(raw) == Some(m)
  }

  /** What JSON parsing makes of the text behind the map URL. */
  ghost predicate HasRawMap(w: World, mapUrl: string, raw: SourceMap.RawMap) {
    exists text :: Delivers(w, mapUrl, text) && w.json(text) == Some(raw)
  }

  lemma DataExactly(url: string)
    ensures IsDataUrl(url) <==> IsData(url)
  {
    if IsDataUrl(url) {
      assert url == "data:" + url[5..];
    }
  }

  lemma Base64Exactly(meta: string)
    ensures Text.Contains(meta, ";base64") <==> SaysBase64(meta)
  {
    if i :| 0 <= i <= |meta| && Text.OccursAt(meta, ";base64", i) {
      assert meta == meta[..i] + ";base64" + meta[i + 7..];
    }
    if a, b :| meta == a + ";base64" + b {
      assert meta[|a|..|a| + 7] == ";base64";
      assert Text.OccursAt(meta, ";base64", |a|);
    }
  }

  lemma CommaEndsMeta(url: string, meta: string, data: string)
    requires IsDataOf(url, meta, data)
    ensures Text.FirstIndex(url, ',') == 5 + |meta| < |url| && meta == url[5..5 + |meta|] && data == url[6 + |meta|..]
  {
    var head := "data:" + meta;
    assert url == head + ([','] + data);
    Text.FirstIndexOf(head, ',', data);
    assert head[5..] == meta && url[..|head|] == head;
  }

  lemma CutAtComma(url: string, comma: nat)
    requires IsDataUrl(url) && 5 <= comma < |url| && url[comma] == ',' && ',' !in url[..comma]
    ensures IsDataOf(url, url[5..comma], url[comma + 1..])
  {
    assert url[..comma] == "data:" + url[5..comma];
    assert url == url[..comma] + "," + url[comma + 1..];
  }

  /** A data URL falls apart at its first comma, if it has one. */
  lemma CommaSplits(url: string, meta: string, data: string)
    requires IsDataUrl(url)
    ensures var comma := Text.FirstIndex(url, ',');
            IsDataOf(url, meta, data) <==> 5 <= comma < |url| && meta == url[5..comma] && data == url[comma + 1..]
  {
    var comma := Text.FirstIndex(url, ',');
    if 5 <= comma < |url| {
      CutAtComma(url, comma);
    }
    if IsDataOf(url, meta, data) {
      CommaEndsMeta(url, meta, data);
    }
    hide IsDataOf;
  }

  lemma CarriesExactly(w: World, url: string, text: string)
    ensures Carries(w, url, text) <==>
              if IsDataUrl(url) then DataUrlText(w, url) == Some(text) else w.fetch(url) == Body(text)
  {
    DataExactly(url);
    if IsDataUrl(url) {
      var comma := Text.FirstIndex(url, ',');
      forall meta, data
        ensures IsDataOf(url, meta, data) <==> 5 <= comma < |url| && meta == url[5..comma] && data == url[comma + 1..]
      {
        CommaSplits(url, meta, data);
      }
      hide IsDataOf, SaysBase64, Text.Contains;
      if comma < |url| {
        assert comma >= 5 by { CommaIsBehind(url); }
        Base64Exactly(url[5..comma]);
        assert IsDataOf(url, url[5..comma], url[comma + 1..]);
      }
    }
  }

  lemma CommaIsBehind(url: string)
    requires IsDataUrl(url)
    ensures Text.FirstIndex(url, ',') >= 5
  {
    assert forall k :: 0 <= k < 5 ==> url[k] == "data:"[k];
  }

  lemma PlainFetchExactly(w: World, url: string, text: string)
    ensures PlainFetch(w, url) == Some(text) <==> Delivers(w, url, text)
  {
    CarriesExactly(w, url, text);
    hide Carries, DataUrlText, IsDataUrl;
  }

  lemma PlainResultExactly(w: World, url: string, r: FetchTextResult)
    ensures PlainResult(w, url) == r <==> Yields(w, url, r)
  {
    DataExactly(url);
    forall text
      ensures Carries(w, url, text) <==>
                if IsDataUrl(url) then DataUrlText(w, url) == Some(text) else w.fetch(url) == Body(text)
    {
      CarriesExactly(w, url, text);
    }
    hide Carries, DataUrlText, IsDataUrl, IsData;
    assert IsDataUrl(url) && DataUrlText(w, url).Some? ==> Carries(w, url, DataUrlText(w, url).value);
  }

  lemma MapUrlExactly(w: World, r: Resource, u: string)
    ensures MapUrlOf(w, r) == Some(u) <==> HasMapUrl(w, r, u)
  {
    if r.mapUrl.GetOr("") != "" {
      assert exists own :: own != "" && r.mapUrl == Some(own);
    } else {
      var text := if r.text.None? && r.url.Some? then PlainFetch(w, r.url.value) else r.text;
      forall t
        ensures IsTextOf(w, r, t) <==> text == Some(t)
      {
        if r.url.Some? {
          PlainFetchExactly(w, r.url.value, t);
        }
      }
      hide IsTextOf, PlainFetch;
      assert text.Some? ==> IsTextOf(w, r, text.value);
    }
  }

  lemma RawMapExactly(w: World, mapUrl: string, raw: SourceMap.RawMap)
    ensures RawMapOf(w, mapUrl) == Some(raw) <==> HasRawMap(w, mapUrl, raw)
  {
    forall text
      ensures PlainFetch(w, mapUrl) == Some(text) <==> Delivers(w, mapUrl, text)
    {
      PlainFetchExactly(w, mapUrl, text);
    }
    hide PlainFetch, Delivers;
    if RawMapOf(w, mapUrl) == Some(raw) {
      assert Delivers(w, mapUrl, PlainFetch(w, mapUrl).value);
    }
  }

  lemma MapExactly(w: World, mapUrl: string, m: SourceMap.CssSourceMap)
    ensures PlainLoad(w, mapUrl) == Some(m) <==> HasMap(w, mapUrl, m)
  {
    forall text
      ensures PlainFetch(w, mapUrl) == Some(text) <==> Delivers(w, mapUrl, text)
    {
      PlainFetchExactly(w, mapUrl, text);
    }
    hide PlainFetch, Delivers, SourceMap.ParseSourceMap;
    if PlainLoad(w, mapUrl) == Some(m) {
      assert Delivers(w, mapUrl, PlainFetch(w, mapUrl).value);
    }
  }

  // ---------------------------------------------------------------- what the budget sees

  /** The number of bytes of whatever body arrives, an empty one included. */
  function BodySize(w: World, url: string): Option<nat> {
    if IsDataUrl(url) then
      match DataUrlText(w, url) { case Some(t) => Some(w.utf8Length(t)) case None => None }
    else
      match w.fetch(url) { case Body(t) => Some(w.utf8Length(t)) case _ => None }
  }

  /**
   * The request a map URL stands for when it is the `n`-th one (from 1) of the pass: exactly
   * one clock reading goes into each. A data URL is checked a second time as if at the start
   * of the pass, which matters only for a clock that runs backwards.
   */
  function RequestOf(w: World, url: string, n: nat): Request {
    var elapsed := w.clock(n) - w.clock(0);
    Request(if IsDataUrl(url) && BodySize(w, url).Some? && elapsed < 0 then 0 else elapsed, BodySize(w, url))
  }

  /** The request's body is measured as it is carried, and it is made when the clock is next read. */
  lemma RequestExactly(w: World, url: string, n: nat)
    ensures var r := RequestOf(w, url, n);
            && (forall text :: Carries(w, url, text) ==> r.body == Some(w.utf8Length(text)))
            && (r.body.Some? ==> exists text :: Carries(w, url, text))
            && (w.clock(n) >= w.clock(0) || !IsData(url) || r.body.None? ==> r.elapsed == w.clock(n) - w.clock(0))
            && (w.clock(n) < w.clock(0) && IsData(url) && r.body.Some? ==> r.elapsed == 0)
  {
    DataExactly(url);
    forall text
      ensures Carries(w, url, text) <==>
                if IsDataUrl(url) then DataUrlText(w, url) == Some(text) else w.fetch(url) == Body(text)
    {
      CarriesExactly(w, url, text);
    }
    hide Carries, DataUrlText, IsDataUrl, IsData;
    if RequestOf(w, url, n).body.Some? {
      assert Carries(w, url, if IsDataUrl(url) then DataUrlText(w, url).value else w.fetch(url).text);
    }
  }

  function RequestsOf(w: World, urls: seq<string>): seq<Request> {
    seq(|urls|, i requires 0 <= i < |urls| => RequestOf(w, urls[i], i + 1))
  }

  /** The budget after requesting these map URLs, one after the other. */
  function Spent(w: World, caps: MapCaps, urls: seq<string>): Counters {
    ServeAll(FRESH, caps, RequestsOf(w, urls))
  }

  lemma SpentOneMore(w: World, caps: MapCaps, urls: seq<string>, url: string)
    ensures Spent(w, caps, urls + [url]) == Serve(Spent(w, caps, urls), caps, RequestOf(w, url, |urls| + 1))
  {
    hide RequestOf, Serve;
    var rs := RequestsOf(w, urls + [url]);
    assert rs[..|urls|] == RequestsOf(w, urls);
  }

  lemma SpentStaysTruncated(w: World, caps: MapCaps, urls: seq<string>, more: seq<string>)
    requires Spent(w, caps, urls).truncated
    ensures Spent(w, caps, urls + more) == Spent(w, caps, urls)
  {
    hide RequestOf;
    if more == [] {
      assert urls + more == urls;
    } else {
      var n := |more| - 1;
      SpentStaysTruncated(w, caps, urls, more[..n]);
      SpentOneMore(w, caps, urls + more[..n], more[n]);
      assert urls + more == (urls + more[..n]) + [more[n]];
    }
  }

  // ---------------------------------------------------------------- which map URLs are needed

  /** The distinct map URLs of the resources, in the order in which they are first needed. */
  function UrlsOf(w: World, rs: seq<Resource>): (urls: seq<string>)
    ensures NoDuplicates(urls)
  {
    if rs == [] then []
    else
      var before := UrlsOf(w, rs[..|rs| - 1]);
      match MapUrlOf(w, rs[|rs| - 1])
      case None => before
      case Some(u) => if u in before then before else before + [u]
  }

  /** Exactly the map URLs of the resources are asked for. */
  lemma {:induction false} UrlsOfExactly(w: World, rs: seq<Resource>, u: string)
    ensures u in UrlsOf(w, rs) <==> exists k :: 0 <= k < |rs| && HasMapUrl(w, rs[k], u)
  {
    if rs != [] {
      var n := |rs| - 1;
      UrlsOfExactly(w, rs[..n], u);
      MapUrlExactly(w, rs[n], u);
      hide MapUrlOf, HasMapUrl;
      if k :| 0 <= k < |rs| && HasMapUrl(w, rs[k], u) {
        assert k < n ==> rs[..n][k] == rs[k];
      }
      if u in UrlsOf(w, rs[..n]) {
        var k :| 0 <= k < n && HasMapUrl(w, rs[..n][k], u);
        assert rs[..n][k] == rs[k];
      }
    }
  }

  lemma UrlsOfOneMore(w: World, rs: seq<Resource>, k: nat)
    requires k < |rs|
    ensures UrlsOf(w, rs[..k + 1]) ==
            match MapUrlOf(w, rs[k])
            case None => UrlsOf(w, rs[..k])
            case Some(u) => if u in UrlsOf(w, rs[..k]) then UrlsOf(w, rs[..k]) else UrlsOf(w, rs[..k]) + [u]
  {
    hide MapUrlOf;
    assert rs[..k + 1][..k] == rs[..k];
  }

  /** Do the caps let a pass through all of these resources? */
  predicate Affordable(w: World, caps: MapCaps, rs: seq<Resource>) {
    !Spent(w, caps, UrlsOf(w, rs)).truncated
  }

  /** They do exactly when every map URL's request, at its place in the pass, is granted. */
  lemma AffordableExactly(w: World, caps: MapCaps, rs: seq<Resource>)
    ensures var requests := RequestsOf(w, UrlsOf(w, rs));
            Affordable(w, caps, rs) <==> forall i :: 0 <= i < |requests| ==> Granted(caps, requests, i)
  {
    var requests := RequestsOf(w, UrlsOf(w, rs));
    TruncatedExactly(caps, requests);
    assert Affordable(w, caps, rs) <==> !ServeAll(FRESH, caps, requests).truncated;
  }

  /** How many resources are handled before the caps cut in. */
  function Handled(w: World, caps: MapCaps, rs: seq<Resource>): (k: nat)
    ensures k <= |rs|
  {
    if rs == [] then 0
    else
      var k := Handled(w, caps, rs[..|rs| - 1]);
      if k == |rs| - 1 && Affordable(w, caps, rs) then |rs| else k
  }

  /** A longer list needs at least the same URLs, in the same order. */
  lemma {:induction false} UrlsOfPrefix(w: World, rs: seq<Resource>, k: nat)
    requires k <= |rs|
    ensures UrlsOf(w, rs[..k]) <= UrlsOf(w, rs)
    decreases |rs|
  {
    hide MapUrlOf;
    if k == |rs| {
      assert rs[..k] == rs;
    } else {
      assert rs[..|rs| - 1][..k] == rs[..k];
      UrlsOfPrefix(w, rs[..|rs| - 1], k);
    }
  }

  lemma AffordablePrefix(w: World, caps: MapCaps, rs: seq<Resource>, k: nat)
    requires k <= |rs| && Affordable(w, caps, rs)
    ensures Affordable(w, caps, rs[..k])
  {
    hide Spent;
    UrlsOfPrefix(w, rs, k);
    var urls, part := UrlsOf(w, rs), UrlsOf(w, rs[..k]);
    assert urls == part + urls[|part|..];
    if Spent(w, caps, part).truncated {
      SpentStaysTruncated(w, caps, part, urls[|part|..]);
    }
  }

  /** A pass that stopped after `k` resources has spent what the whole list costs, or has not stopped early. */
  lemma SpentOfPrefix(w: World, caps: MapCaps, rs: seq<Resource>, k: nat)
    requires k <= |rs|
    requires Spent(w, caps, UrlsOf(w, rs[..k])).truncated || k == |rs|
    ensures Spent(w, caps, UrlsOf(w, rs[..k])) == Spent(w, caps, UrlsOf(w, rs))
    ensures forall u :: u in UrlsOf(w, rs[..k]) ==> u in UrlsOf(w, rs)
  {
    hide Spent, UrlsOf;
    UrlsOfPrefix(w, rs, k);
    var urls, part := UrlsOf(w, rs), UrlsOf(w, rs[..k]);
    assert urls == part + urls[|part|..];
    if k == |rs| {
      assert rs[..k] == rs;
    } else {
      SpentStaysTruncated(w, caps, part, urls[|part|..]);
    }
  }

  /** Whatever is asked for, the budget of a pass stays within the caps and adds up. */
  lemma PassBudget(w: World, caps: MapCaps, urls: seq<string>)
    ensures var sizes := AcceptedSizes(FRESH, caps, RequestsOf(w, urls));
            var c := Spent(w, caps, urls);
            && WithinCaps(c, caps) && c.mapsLoaded == |sizes| && c.totalBytes == Sum(sizes)
  {
    PassKeepsCaps(FRESH, caps, RequestsOf(w, urls));
  }

  /** `Handled` is the length of the longest affordable prefix. */
  lemma {:induction false} HandledIsLongest(w: World, caps: MapCaps, rs: seq<Resource>)
    ensures forall k :: 0 <= k <= |rs| ==> (Affordable(w, caps, rs[..k]) <==> k <= Handled(w, caps, rs))
  {
    hide Affordable;
    if rs == [] {
      assert rs[..0] == rs;
      NothingIsAffordable(w, caps);
    } else {
      var n := |rs| - 1;
      var init := rs[..n];
      HandledIsLongest(w, caps, init);
      assert rs[..|rs|] == rs;
      forall k | 0 <= k <= |rs|
        ensures Affordable(w, caps, rs[..k]) <==> k <= Handled(w, caps, rs)
      {
        if k <= n {
          assert init[..k] == rs[..k];
        } else {
          assert rs[..k] == rs && init[..n] == init;
          if Affordable(w, caps, rs) {
            AffordablePrefix(w, caps, rs, n);
          }
        }
      }
    }
  }

  lemma NothingIsAffordable(w: World, caps: MapCaps)
    ensures Affordable(w, caps, [])
  {
    assert UrlsOf(w, []) == [] && RequestsOf(w, []) == [];
  }

  // ---------------------------------------------------------------- one pass, with budget and memory

  function Remembered(w: World, mapUrl: string): CachedMap {
    CachedMap(mapUrl, PlainLoad(w, mapUrl), PlainLoad(w, mapUrl).None?)
  }

  class MapPass {
    const world: World
    const caps: MapCaps
    const budget: CapBudget
    var readings: nat
    var mapCache: map<string, CachedMap>
    var textCache: map<string, Option<string>>
    // The map URLs asked for so far, and those of them and of the texts that went to the network.
    ghost var mapUrls: seq<string>
    ghost var mapFetches: seq<string>
    ghost var textFetches: seq<string>

    constructor (world: World, caps: MapCaps)
      ensures Valid() && fresh(budget)
      ensures this.world == world && this.caps == caps && mapUrls == []
    {
      this.world := world;
      this.caps := caps;
      budget := new CapBudget(world.clock(0));
      readings := 1;
      mapCache := map[];
      textCache := map[];
      mapUrls, mapFetches, textFetches := [], [], [];
    }

    /**
     * The budget is what the asked-for URLs cost, every URL is asked for and fetched at most
     * once, and as long as nothing was cut off both tables say what an unlimited fetch says.
     */
    ghost predicate Valid()
      reads this, budget
    {
      && budget.startedAt == world.clock(0)
      && readings == |mapUrls| + 1
      && budget.Counts() == Spent(world, caps, mapUrls)
      && mapCache.Keys == (set u | u in mapUrls)
      && NoDuplicates(mapUrls) && NoDuplicates(mapFetches) && NoDuplicates(textFetches)
      && (forall u :: u in mapFetches ==> u in mapUrls)
      && (forall u :: u in textFetches ==> u in textCache)
      && (forall u :: u in textCache ==> textCache[u] == PlainFetch(world, u))
      && (!budget.truncated ==> forall u :: u in mapCache ==> mapCache[u] == Remembered(world, u))
    }

    /**
     * The caps only withhold: an uncounted fetch ignores them, and a counted one delivers
     * the plain result unless it is the moment, or after the moment, the caps cut in.
     */
    method FetchTextCapped(url: string, countTowardMapCaps: bool) returns (r: FetchTextResult)
      requires budget.startedAt == world.clock(0)
      modifies this`readings, this`mapFetches, this`textFetches, budget
      ensures countTowardMapCaps ==>
                && readings == old(readings) + 1
                && budget.Counts() == old(Serve(budget.Counts(), caps, RequestOf(world, url, readings)))
                && r == (if !budget.truncated then PlainResult(world, url)
                         else NotFetched(if old(MayStart(budget.Counts(), caps, RequestOf(world, url, readings).elapsed))
                                         then Oversized else Cap))
                && textFetches == old(textFetches)
                && (mapFetches == old(mapFetches) || mapFetches == old(mapFetches) + [url])
      ensures !countTowardMapCaps ==>
                && r == PlainResult(world, url)
                && readings == old(readings) && budget.Counts() == old(budget.Counts())
                && mapFetches == old(mapFetches)
                && (textFetches == old(textFetches) || textFetches == old(textFetches) + [url])
    {
      if countTowardMapCaps {
        var now := world.clock(readings);
        readings := readings + 1;
        var may := budget.CanStartMapFetch(caps, now);
        if !may {
          return NotFetched(Cap);
        }
      }
      if IsDataUrl(url) {
        r := DecodeDataUrl(url, countTowardMapCaps);
        return;
      }
      if countTowardMapCaps {
        mapFetches := mapFetches + [url];
      } else {
        textFetches := textFetches + [url];
      }
      match world.fetch(url)
      case NotOk => return NotFetched(Missing);
      case Aborted => return NotFetched(Timeout);
      case Broken => return NotFetched(Network);
      case Body(text) =>
        var byteLength := world.utf8Length(text);
        if countTowardMapCaps {
          var fits := budget.AcceptMapBytes(caps, byteLength);
          if !fits {
            return NotFetched(Oversized);
          }
        }
        if |text| == 0 {
          return NotFetched(Empty);
        }
        return Fetched(text, byteLength);
    }

    method DecodeDataUrl(url: string, countTowardMapCaps: bool) returns (r: FetchTextResult)
      requires IsDataUrl(url)
      modifies budget
      ensures !countTowardMapCaps || DataUrlText(world, url).None? ==>
                r == PlainResult(world, url) && budget.Counts() == old(budget.Counts())
      ensures countTowardMapCaps && DataUrlText(world, url).Some? ==>
                && budget.Counts() == old(Serve(budget.Counts(), caps, Request(0, BodySize(world, url))))
                && r == (if !budget.truncated then PlainResult(world, url)
                         else NotFetched(if old(MayStart(budget.Counts(), caps, 0)) then Oversized else Cap))
    {
      var decoded := DataUrlText(world, url);
      if decoded.None? {
        return NotFetched(Missing);
      }
      var text := decoded.value;
      var byteLength := world.utf8Length(text);
      if countTowardMapCaps {
        var may := budget.CanStartMapFetch(caps, budget.startedAt);
        if !may {
          return NotFetched(Cap);
        }
        var fits := budget.AcceptMapBytes(caps, byteLength);
        if !fits {
          return NotFetched(Oversized);
        }
      }
      if |text| == 0 {
        return NotFetched(Empty);
      }
      return Fetched(text, byteLength);
    }

    method DiscoverMapUrl(resource: Resource) returns (mapUrl: Option<string>)
      requires Valid()
      modifies this`textCache, this`textFetches, this`readings, this`mapFetches, budget
      ensures Valid() && budget.Counts() == old(budget.Counts())
      ensures mapUrl == MapUrlOf(world, resource)
      ensures forall u :: mapUrl == Some(u) <==> HasMapUrl(world, resource, u)
      ensures readings == old(readings) && mapFetches == old(mapFetches)
      ensures resource.text.Some? || resource.mapUrl.GetOr("") != "" ==> textFetches == old(textFetches)
      ensures textFetches == old(textFetches) || (resource.url.Some? && textFetches == old(textFetches) + [resource.url.value])
    {
      hide Spent, RequestOf, Serve, PlainResult, PlainFetch, HasMapUrl, Yields;
      forall u
        ensures MapUrlOf(world, resource) == Some(u) <==> HasMapUrl(world, resource, u)
      {
        MapUrlExactly(world, resource, u);
      }
      if resource.mapUrl.Some? && |resource.mapUrl.value| > 0 {
        return Some(world.resolve(resource.mapUrl.value, resource.url).GetOr(resource.mapUrl.value));
      }
      var text := resource.text;
      if text.None? && resource.url.Some? {
        var src := resource.url.value;
        if src in textCache {
          text := textCache[src];
        } else {
          PlainResultText(world, src);
          var fetched := FetchTextCapped(src, false);
          text := fetched.Text();
          textCache := textCache[src := text];
        }
      }
      if text.None? {
        return None;
      }
      var ref := world.directive(text.value);
      if ref.None? {
        return None;
      }
      return world.resolve(ref.value, resource.url);
    }

    method LoadMap(mapUrl: string) returns (entry: CachedMap)
      requires Valid()
      modifies this`mapCache, this`mapUrls, this`readings, this`mapFetches, this`textFetches, budget
      ensures Valid()
      ensures mapUrls == if mapUrl in old(mapUrls) then old(mapUrls) else old(mapUrls) + [mapUrl]
      ensures !budget.truncated ==> entry == Remembered(world, mapUrl)
      ensures budget.truncated && !old(budget.truncated) ==> entry.loadFailed
    {
      hide Spent, RequestOf, Serve, PlainResult, PlainFetch, SourceMap.ParseSourceMap;
      if mapUrl in mapCache {
        return mapCache[mapUrl];
      }
      PlainResultText(world, mapUrl);
      SpentOneMore(world, caps, mapUrls, mapUrl);
      if budget.truncated {
        ServeWhenTruncated(budget.Counts(), caps, RequestOf(world, mapUrl, readings));
      }
      var fetched := FetchTextCapped(mapUrl, true);
      mapUrls := mapUrls + [mapUrl];
      entry := CachedMap(mapUrl, None, true);
      if fetched.Fetched? {
        var json := world.json(fetched.text);
        if json.Some? {
          var parsed := SourceMap.ParseSourceMap(json.value);
          entry := CachedMap(mapUrl, parsed, parsed.None?);
        }
      }
      mapCache := mapCache[mapUrl := entry];
    }
  }

  lemma PlainResultText(w: World, url: string)
    ensures PlainResult(w, url).Text() == PlainFetch(w, url)
  {
  }

  /**
   * What the contract of a counted fetch says of its answer, the `n`-th of the pass, with counters `c`
   * before and `after` after it: it is withheld with "cap" when the pass is truncated, full or out of
   * time, with "oversized" when its body breaks a byte limit, and otherwise is what the URL yields.
   */
  lemma CountedFetchExactly(w: World, caps: MapCaps, c: Counters, url: string, n: nat, r: FetchTextResult)
    requires var q := RequestOf(w, url, n);
             r == if !Serve(c, caps, q).truncated then PlainResult(w, url)
                  else NotFetched(if MayStart(c, caps, q.elapsed) then Oversized else Cap)
    ensures var after := Serve(c, caps, RequestOf(w, url, n));
            && (r == NotFetched(Cap) <==>
                  c.truncated || c.mapsLoaded >= caps.maxMaps || RequestOf(w, url, n).elapsed >= caps.wallClockMs)
            && (r == NotFetched(Oversized) <==>
                  && r != NotFetched(Cap)
                  && exists text :: && Carries(w, url, text)
                       && (w.utf8Length(text) > caps.maxBytesPerMap || c.totalBytes + w.utf8Length(text) > caps.maxBytesTotal))
            && (r != NotFetched(Cap) && r != NotFetched(Oversized) <==> !after.truncated)
            && (!after.truncated ==> Yields(w, url, r))
            && (after.truncated ==> after == c.(truncated := true))
            && (forall text :: !after.truncated && Carries(w, url, text) ==>
                  after == Counters(c.mapsLoaded + 1, c.totalBytes + w.utf8Length(text), false))
            && (!after.truncated && (forall text :: !Carries(w, url, text)) ==> after == c)
  {
    RequestExactly(w, url, n);
    PlainResultExactly(w, url, r);
    PlainResultExactly(w, url, NotFetched(Cap));
    PlainResultExactly(w, url, NotFetched(Oversized));
    hide RequestOf, Carries, PlainResult;
  }
}
