# Verified core of Vision Control

Vision Control lets a developer edit a running page visually and turns the edits into change
sets for source code. This project is a Dafny model of the parts of it in which one wrong step
would go unnoticed for long, with proofs that hold for all inputs and all runs.

`dafny verify dfyconfig.toml` checks everything.

| part | files |
|---|---|
| source maps: decoding, selector search | Text, Vlq, Mappings, Selector, SourceMap |
| capped and cached origin resolution | Caps, MapLoading, ConfidencePolicy, JsOrigins, CssOrigins |
| bridge connection lifecycle | BridgeClient |
| change operations, inverses, merging | Operations, Inverse, Moves, Merge, EditSlots, EditClaims, Conflicts, SamePlace |
| undo/redo journal | Stacks, ChangeJournal, Replay, EditSession |
| affine geometry, transform strings, marquee sampling | Geometry, TransformText, SampleGrid |
| rule-driven redaction | Redaction, RedactionLaws, RedactionRules, ConfiguredRule |

How the main results fit together:

- **Source maps.** The encoder of ECMA-426 ("Base64 VLQ" and "Mappings structure") is the
  specification. Decoding after encoding is the identity exactly for deltas below 2^30 in
  magnitude; the bound comes from JavaScript's 32-bit shifts, which are written out.
- **Origin resolution.** The specification of both resolvers is a resolver without budget,
  clock or memory. The class `MapPass` carries the budget and both memo tables; the resolvers
  agree with the specification on the longest list of leading inputs that the caps let through.
  What that resolver lists is in turn described as a relation between the outside world, an input
  and an origin; of its functions it mentions only the map parser, described by `ParsedExactly`.
- **Bridge client.** The class follows the source method by method. Each method is tied to a
  step of a state machine that includes promises, sockets and timers, and the results are about
  all runs of steps, with events of superseded sockets among them. The verdict of a connect
  promise is compared with a function of the event trace alone.
- **Journal.** One invariant says that the active entries are the undo stack. A second one, for
  an arbitrary document type and an arbitrary way of applying operations, says that the document
  is always the initial one with the undo stack applied. `EditSession` instantiates it with
  documents that give every place of the page a content, and with the stored inverses.
- **Inverses.** `Moves` gives every kind of operation a meaning, the move of one place from one
  content to another, and an inverse is compared with the opposite move.
- **Merging.** The greedy cancellation is compared with a closed form by counting; the indexed
  conflict check with a search over all pairs, and what it compares, the signatures, with what each
  kind of operation edits (`EditClaims`) and with the place it moves (`SamePlace`).
- **Redaction.** The loop over the matched rules is compared with a closed form, from which
  completeness and the exact conditions for idempotence follow, for one target under any rules and
  for all targets under the defaults with one configured rule. `RedactionLaws` says what a pass does
  and reports, attribute by attribute and notice by notice.

## Where the code and its promises part

In each case the model does what the code does, and a lemma says exactly when the promise holds.

- `redactTarget` is documented as idempotent. It is under the default rules. A configured rule
  behind them that looks for text of a mask can match only after the first pass, when it still
  finds something to hide or to drop (`ConfiguredRule.ConfiguredRuleIdempotentExactly` for fixed
  sensitive names, `ConfiguredRule.IdempotentForAllNamesExactly` for all, with
  `ConfiguredRule.PasswordRuleIsNotIdempotent` for an input; `Redaction.IdempotentExactly` for
  any list of rules).
- `markEntrySuperseded` takes an entry out of the stacks wherever it is. Applied to an entry in
  the middle of the history, later undo and redo run in documents other than the recorded ones
  (`Replay.SupersedeReplaysExactly`).
- `markEntryCommitted` and `markEntryReverted` can make the active list differ from the undo
  stack (`ChangeJournal.CommitKeepsExactly`, `ChangeJournal.RevertKeepsExactly`).
- Where no previous value was captured, the inverse writes the empty text. In a document that
  tells the empty text from an undeclared property it undoes the edit only if the empty text was
  there (`EditSession.UncapturedEditIsUndoneExactly`). What a browser makes of an empty
  declaration is not modelled.
- Conflict signatures are joined with colons unescaped; edits of different elements can share
  one (`EditSlots.CssSignaturesCollideExactly`).
- The merge is documented to fail when both sets edit the same element and slot without one being
  the inverse. Two sizings of one child are compared only if they set the same sizing, two class
  replacements in one class list only if they replace the same name, moves of one element to other
  parents not if one of them moves it as a group of one, and six kinds never
  (`SamePlace.SamePlaceIsReportedExactly`).
- Entries of `sources` that are not strings are dropped while `sourcesContent` keeps its
  length, so names and contents can get out of step and a HIGH origin can name the wrong file
  (`CssOrigins.HighIsTruthfulExactly`, `SourceMap.MisalignedNames`).
- The policy's documentation allows HIGH for a map with a concrete range only. The evidence tag
  `map-with-range` is taken for a range (`ConfidencePolicy.HighExactly`). The resolvers pass no
  evidence, so their HIGH origins are not affected.
- The cap on the number of maps is not checked when a body is accepted; it holds because a
  start is granted first (`Caps.BodyCheckIgnoresTheCount`).
- `invert` refuses some matrices that have an inverse (`Geometry.InvertRefusesExactly`).
- `fromString` is documented to reject structural problems. It looks at the text after the last
  call, not at text before or between calls, and its pattern takes any argument text up to the
  first closing bracket: "junk translate(1px)" and "translate((1px)" are accepted
  (`TransformText.MalformedIsAcceptedExactly`, `TransformText.JunkTranslateIsAccepted`,
  `TransformText.OpenBracketIsAccepted`). Blank pieces between commas are dropped and pieces
  beyond those a function takes are not read. A call without any arguments counts as a call, as
  the code has a default for it. An argument that cannot be read is no error either; the matrix
  is then not one of numbers (`TransformText.FromString`).
- `rotate` has a case for gradians that no text reaches: "rad" is looked for first
  (`TransformText.GradiansAreReadAsRadians`).
- The search for a selector is not anchored. An element's name can be found at the end of a
  longer name (`SourceMap.WholeTokensExactly`), and a selector whose last pseudo-class has
  arguments with combinators or nested brackets is looked up by a piece of them
  (`Selector.NeedleOfCutArguments`, `Selector.NeedleOfNestedArguments`).
- A sample step that is not positive makes the marquee sampling run for ever on a nonempty
  rectangle (`SampleGrid.LoopsStopExactly`).
- A comment promises enough density to catch small elements. What is always caught are exactly
  the sizes with both sides longer than the step (`SampleGrid.CoverageExactly`).

## Model

| member | source | states |
|---|---|---|
| `Vlq.VlqRoundTrip` | packages/map-origins/src/source-map.ts:219-240 | Decoding the concatenated encodings of any list of integers gives each of them as 32-bit shifts leave it, and gives the list back if and only if every magnitude is below 2^30 |
| `Vlq.DecodeVlqSegment` | packages/map-origins/src/source-map.ts:219-240 | The nested loops stop on every string and compute `DecodeVlq`, the decoder of which the round trip speaks |
| `Vlq.WrappedExactlyBelowLimit` | packages/map-origins/src/source-map.ts:231-237 | The tight bound: with `<<`, `&` and `>>` on 32-bit integers one value comes back unchanged if and only if its magnitude is below 2^30 |
| `Vlq.WrappedAtLimit` | packages/map-origins/src/source-map.ts:231-237 | 2^30 and -2^30 come back with the sign flipped |
| `Vlq.VlqStopsAtBadCharacter` | packages/map-origins/src/source-map.ts:227-229 | A character outside the alphabet keeps the integers before it and drops everything after it |
| `Vlq.IndexOfTable` | packages/map-origins/src/source-map.ts:8 | The alphabet: `IndexOf` gives the only position of a character in the table, or a negative number when it has none |
| `Vlq.EncodingsInAlphabet` | packages/map-origins/src/source-map.ts:8 | The encoder uses only characters of the alphabet |
| `Mappings.MappingsRoundTrip` | packages/map-origins/src/source-map.ts:154-216 | Decoding the encoding of a list of lines of 1-, 4- and 5-field segments gives the lines back if and only if there is a line, every segment carries its own line number, and every delta is below 2^30 in magnitude |
| `Mappings.DecodeMappings` | packages/map-origins/src/source-map.ts:154-216 | The loops over lines and segments compute `Decode`, with the generated column reset per line and the four other totals carried across lines |
| `Mappings.LineRoundTrip` | packages/map-origins/src/source-map.ts:170-212 | One line, started at any column and totals: the segments and the totals after the line come back exactly if the deltas fit |
| `Mappings.LinesRoundTrip` | packages/map-origins/src/source-map.ts:158-213 | Any number of lines, started at any totals: the lines come back if and only if all deltas fit |
| `Mappings.DecodeNeverEmpty` | packages/map-origins/src/source-map.ts:155-168 | There is one decoded line per part between semicolons, so never none |
| `Text.SplitOfJoin` | packages/map-origins/src/source-map.ts:155-170 | Splitting at a separator undoes joining parts that do not hold it |
| `Text.JoinOfSplit` | packages/map-origins/src/source-map.ts:102-107 | Joining undoes splitting on every string |
| `Selector.NeedleCharacters` | packages/map-origins/src/source-map.ts:72-83 | The looked-up token consists of characters of the selector and holds neither white space nor a combinator |
| `Selector.NeedleOfCompound` | packages/map-origins/src/source-map.ts:72-83 | Whatever stands before the last combinator, and whatever pseudo-classes, pseudo-elements (with or without arguments) and attribute tests follow, a plain token is looked up as itself, where arguments and tests hold no white space, no combinator and no bracket of their own kind, tests no colon |
| `Selector.NeedleOfCutArguments` | packages/map-origins/src/source-map.ts:72-83 | Arguments with white space or a combinator are cut at the last one: what is looked up is the rest of them with the closing bracket |
| `Selector.NeedleOfNestedArguments` | packages/map-origins/src/source-map.ts:72-83 | Of nested brackets the first that closes ends the arguments: the token is looked up with the next one |
| `SourceMap.FoundRangeSpells` | packages/map-origins/src/source-map.ts:85-116 | The offset-to-line/column arithmetic: the text, read by lines, spells the needle at the reported line and columns and opens a block after it; it is the first such place, and when nothing is reported there is none |
| `SourceMap.WholeTokensExactly` | packages/map-origins/src/source-map.ts:97-100 | The first match starts at a token boundary in every text if and only if the needle does not start with a name character |
| `SourceMap.FoundInsideName` | packages/map-origins/src/source-map.ts:97-100 | For every other needle, a text in which it is found at the end of a longer name |
| `SourceMap.FindSelectorRange` | packages/map-origins/src/source-map.ts:45-61 | The loop over the sources returns the first source, with both name and content, in which the needle is found |
| `SourceMap.SearchIsExact` | packages/map-origins/src/source-map.ts:45-61 | About the parsed map: what is found names the first source whose content has the needle before a brace or comma, at its first place there, with the trimmed line, cut after 200 characters, as the snippet; none is reported only without contents, without a needle, or when no named content holds the needle so |
| `SourceMap.TruthfulExactlyIfAligned` | packages/map-origins/src/source-map.ts:130-151 | About the map itself, for version 3 maps: whatever the contents and the selector, the found file is the name of an own entry of `sources` (itself, or itself in the directory that `sourceRoot` names) whose own content has the needle at the found place, if and only if all strings of `sources` stand before the first entry that is not a string |
| `SourceMap.AlignedIsTruthful` | packages/map-origins/src/source-map.ts:130-151 | With such sources, in particular when all are strings, every found range is truthful about the map in this sense |
| `SourceMap.SourceNameExactly` | packages/map-origins/src/source-map.ts:134-151 | The name of a source, described by itself: the source where there is no root or it starts with a slash or a scheme; otherwise directory, slash and source, where the root is the directory with or without a final slash |
| `SourceMap.FinalSlashIsOptional` | packages/map-origins/src/source-map.ts:149-150 | A root names the same files with and without its final slash |
| `SourceMap.SchemeExactly` | packages/map-origins/src/source-map.ts:147 | A scheme is a letter and then letters, digits, plus, dot or minus, up to a colon |
| `SourceMap.ParsedExactly` | packages/map-origins/src/source-map.ts:123-144 | Nothing is parsed exactly without version 3 or mappings; otherwise the sources are the described names of the strings in `sources`, in their order, and contents and mappings are the map's own |
| `SourceMap.FoundRangeLocates` | packages/map-origins/src/source-map.ts:91-115 | A reported range is the first match and carries the excerpt of its line |
| `SourceMap.OpensBlockExactly` | packages/map-origins/src/source-map.ts:97 | The lookahead: white space and then an opening brace or a comma |
| `SourceMap.MisalignedIsUntruthful` | packages/map-origins/src/source-map.ts:130-142 | For all other sources it constructs contents for which a range is reported under a wrong name |
| `SourceMap.NamesKeepTheirIndex` | packages/map-origins/src/source-map.ts:130-139 | Dropping the entries of `sources` that are not strings keeps each kept name at its index if and only if all strings stand before the first dropped entry |
| `SourceMap.MisalignedNames` | packages/map-origins/src/source-map.ts:130-139 | A family of inputs for which it does not: the match in the content of a dropped source is reported under the name of the next one |
| `Caps.CapBudget.CanStartMapFetch` | packages/map-origins/src/caps.ts:48-59 | Grants a start exactly when not truncated, below the map count and within the wall clock; a refusal sets `truncated` |
| `Caps.CapBudget.AcceptMapBytes` | packages/map-origins/src/caps.ts:65-77 | Accepts and counts a body exactly when it fits both byte limits; otherwise sets `truncated` |
| `Caps.PassKeepsCaps` | packages/map-origins/src/caps.ts:48-77 | Over any run of requests: the count and byte caps hold, the total is the sum of the accepted sizes and at most the count times the per-map limit, and once `truncated` is set nothing changes |
| `Caps.PassExactly` | packages/map-origins/src/caps.ts:48-77 | Where a pass is cut off: it counts every arriving body up to the first request that comes after the wall clock, after the allowed number of maps, or with a body over the limit for one map or, with all before it, over the total; and nothing from there on |
| `Caps.TruncatedExactly` | packages/map-origins/src/caps.ts:48-77 | A pass is truncated if and only if there is such a request |
| `MapLoading.MapPass.FetchTextCapped` | packages/map-origins/src/fetch-text.ts:37-77 | A counted fetch reads the clock once, charges the budget exactly one request, and delivers what an unlimited fetch delivers unless the caps cut in, with reason `cap` or `oversized`; an uncounted fetch ignores the budget |
| `MapLoading.MapPass.DecodeDataUrl` | packages/map-origins/src/fetch-text.ts:79-106 | A data URL is charged, refused and delivered like a fetched body |
| `MapLoading.MapPass.DiscoverMapUrl` | packages/map-origins/src/resolve-js-origins.ts:143-174 | A nonempty own map URL is resolved against the resource's URL and stands for itself if that fails; otherwise the directive of the text is resolved against the resource's URL, and there is none if text or directive is missing or this fails; a known text, even an empty one, is not fetched, and nothing is charged |
| `MapLoading.MapUrlExactly` | packages/map-origins/src/resolve-css-origins.ts:121-155 | The same about the uncached discovery to which both resolvers are compared |
| `MapLoading.PlainResultExactly` | packages/map-origins/src/fetch-text.ts:54-103 | What a URL yields: the text it carries with its length, or the reason `missing`, `timeout`, `network` or `empty`; a data URL carries what follows its first comma, read as base64 where ";base64" stands before the comma |
| `MapLoading.CountedFetchExactly` | packages/map-origins/src/fetch-text.ts:40-70 | When a counted fetch answers `cap` and when `oversized`, what it charges in each case, and that it otherwise tells what the URL yields |
| `MapLoading.MapExactly` | packages/map-origins/src/resolve-js-origins.ts:184-220 | A map loads exactly as the parsed JSON of the text behind its URL |
| `MapLoading.UrlsOfExactly` | packages/map-origins/src/resolve-js-origins.ts:72-100 | Exactly the described map URLs of the resources are asked for |
| `MapLoading.AffordableExactly` | packages/map-origins/src/resolve-js-origins.ts:72-100 | The caps let a list of resources through if and only if the request of each of its map URLs, at its place in the pass, is granted |
| `MapLoading.MapPass.LoadMap` | packages/map-origins/src/resolve-js-origins.ts:184-220 | Asks for each map URL at most once; unless truncated, the entry says what an uncached, uncapped load says |
| `MapLoading.HandledIsLongest` | packages/map-origins/src/resolve-js-origins.ts:72-100 | The number of resources a pass handles is the length of the longest list of leading resources the caps let through |
| `MapLoading.PassBudget` | packages/map-origins/src/caps.ts:48-77 | Whatever map URLs a pass asks for, its budget stays within the caps and adds up |
| `MapLoading.SpentOfPrefix` | packages/map-origins/src/resolve-js-origins.ts:72-100 | A pass that is cut off has spent exactly what the whole list of resources costs |
| `JsOrigins.ResolveJsOrigins` | packages/map-origins/src/resolve-js-origins.ts:60-133 | The origins are those an uncached, uncapped resolver lists for the handled scripts; `originsTruncated` holds exactly when a script is left out; every map URL is fetched at most once, and only map URLs of the scripts |
| `JsOrigins.CappedIsPrefixOfPlain` | packages/map-origins/src/resolve-js-origins.ts:60-133 | The origins are a prefix of the uncached, uncapped list, and equal to it when no script is left out |
| `JsOrigins.PushCandidates` | packages/map-origins/src/resolve-js-origins.ts:102-126 | The loop over one map's sources keeps the first origin of each normalized path over all scripts |
| `JsOrigins.FirstOfEachPathIsExact` | packages/map-origins/src/resolve-js-origins.ts:102-106 | That list holds no path twice and loses none, and each kept origin is the one offered before all others with its path |
| `JsOrigins.OriginsExactly` | packages/map-origins/src/resolve-js-origins.ts:60-133 | What the list holds: exactly the candidates offered at a source of a script's map whose normalized path no earlier source of that map or of an earlier script offers; each is MEDIUM, of kind `js`, with script URL, map URL and path, the warning `module-path-only`, and no range |
| `JsOrigins.OfferedExactly` | packages/map-origins/src/resolve-js-origins.ts:102-126 | One script offers, in the order of its map's sources, one candidate for each source that has a path |
| `CssOrigins.ResolveCssOrigins` | packages/map-origins/src/resolve-css-origins.ts:36-110 | The origins are those an uncached, uncapped resolver emits for the handled rules; `originsTruncated` holds exactly when a rule is left out; every map URL is fetched at most once |
| `CssOrigins.PlainOriginsPrefix` | packages/map-origins/src/resolve-css-origins.ts:36-110 | What is emitted for the handled rules is a prefix of what is emitted for all |
| `CssOrigins.OfferedIsExact` | packages/map-origins/src/resolve-css-origins.ts:50-103 | A rule has an origin if and only if its stylesheet has a map that loads; it is HIGH, with path, 1-based lines, columns and snippet of the first place of the selector, or MEDIUM, with the first source and `map-present-without-range`, when no content has the selector |
| `CssOrigins.PlainOriginsAreExact` | packages/map-origins/src/resolve-css-origins.ts:47-104 | There is one such origin for each rule with a loadable map, in the order of the rules |
| `CssOrigins.HighIsTruthful` | packages/map-origins/src/resolve-css-origins.ts:77-103 | If the rule's map has all its source strings before any other entry, a HIGH origin names one of its entries, by source and root, and that entry's own content has the selector's token, first, at the reported lines and columns |
| `CssOrigins.HighIsTruthfulExactly` | packages/map-origins/src/resolve-css-origins.ts:77-103 | For a given list of sources: every HIGH origin from any map with these sources, in any world, is truthful about the map itself, if and only if the list has all its strings before any other entry |
| `CssOrigins.HighOriginsAreTruthful` | packages/map-origins/src/resolve-css-origins.ts:47-104 | `HighIsTruthful` and the description of `OfferedIsExact` for every HIGH origin of a whole capped pass |
| `CssOrigins.EmitOrigin` | packages/map-origins/src/resolve-css-origins.ts:77-103 | Search, decision and enforcement together give the origin with 1-based lines |
| `CssOrigins.OriginSurvives` | packages/map-origins/src/resolve-css-origins.ts:86-102 | Enforcement never changes an origin this resolver makes |
| `ConfidencePolicy.HighExactly` | packages/map-origins/src/confidence-policy.ts:68-130 | The exact matrix for HIGH, in terms of `qualifiesMapHigh`: the tag `map-with-range` counts as a range, so HIGH is wider by exactly the facts with the tag and no range |
| `ConfidencePolicy.DecisionExactly` | packages/map-origins/src/confidence-policy.ts:87-130 | The rest of the matrix: for which facts there is a decision at all, and which warning it gives |
| `ConfidencePolicy.DowngradeExactly` | packages/map-origins/src/confidence-policy.ts:145-168 | Which warnings a downgraded claim gains |
| `ConfidencePolicy.NeverWrongHigh` | packages/map-origins/src/confidence-policy.ts:145-168 | Enforcement lets HIGH through exactly when it is claimed and deserved, otherwise downgrades to MEDIUM with a warning; it changes nothing else, loses no warning, and is idempotent |
| `ConfidencePolicy.EnforceMapOriginNeverWrongHigh` | packages/map-origins/src/confidence-policy.ts:145-168 | Computes `Enforced`, of which the previous row speaks |
| `ConfidencePolicy.MergeWarnings` | packages/map-origins/src/confidence-policy.ts:170-179 | The loop computes `Merged` |
| `ConfidencePolicy.MergedIsUnion` | packages/map-origins/src/confidence-policy.ts:170-179 | Merging keeps the existing warnings in place, holds exactly both lists' warnings, and adds no duplicate |
| `BridgeClient.RunKeepsInv` | packages/bridge-client/src/client.ts:71-255 | After any events in any order: the unsettled connect promises are the current attempt while connecting and none otherwise; state, socket, target, expiry and pending rejection agree; at most one heartbeat timer is live, it is the stored one, there is one when connected and none when disconnected |
| `BridgeClient.ConnectIsDecidedByTrace` | packages/bridge-client/src/client.ts:71-141 | After any run, an attempt has exactly the verdict that the events after its connect call give it, and none while they give none |
| `BridgeClient.ResettlesOnlyOnRepeatedOpen` | packages/bridge-client/src/client.ts:74-131 | After any events in any order, the next event calls `resolve` or `reject` on an already settled promise if and only if it is another open event of the connected socket |
| `BridgeClient.StepSettles` | packages/bridge-client/src/client.ts:74-141 | Each event changes the verdicts by its one settling call, the first on a promise, and by nothing else |
| `BridgeClient.SupersededSocketCannotAct` | packages/bridge-client/src/client.ts:83-130 | Dropping all events of a socket that is not the current one changes no run |
| `BridgeClient.EndOfConnection` | packages/bridge-client/src/client.ts:100-130 | An attempt that ends without opening is rejected and leaves no target and no expiry; a connection closed after opening keeps both |
| `BridgeClient.TokenIsKeptExactly` | packages/bridge-client/src/client.ts:71-141 | On the events alone: target and expiry are in memory if and only if after the last attempt nothing disconnected the client and that attempt was not ended before it opened |
| `BridgeClient.TokenOutlivesConnectionExactly` | packages/bridge-client/src/client.ts:100-120 | A disconnected client holds a token if and only if the last attempt opened and its socket then closed, with neither a disconnect nor a new attempt since |
| `BridgeClient.DisconnectClears` | packages/bridge-client/src/client.ts:134-141 | From any state, reachable or not, disconnecting leaves the client idle; from a reachable one also without live timers and listening sockets |
| `BridgeClient.HeartbeatChain` | packages/bridge-client/src/client.ts:237-248 | A firing timer is the only live one and schedules its successor exactly when connected |
| `BridgeClient.ReconnectKeepsOneHeartbeat` | packages/bridge-client/src/client.ts:71-92 | Reconnecting a connected client, with any ticks before the new socket opens, ends with one live timer, a new one |
| `BridgeClient.BridgeClient.constructor` | packages/bridge-client/src/client.ts:43-68 | A new client is disconnected, with nothing pending and nothing live |
| `BridgeClient.BridgeClient.Connect` | packages/bridge-client/src/client.ts:71-132 | The method changes fields, promises, sockets and timers by exactly the `Connect` step |
| `BridgeClient.BridgeClient.OnOpen` | packages/bridge-client/src/client.ts:83-91 | The open handler, exactly the `SocketOpened` step |
| `BridgeClient.BridgeClient.OnClose` | packages/bridge-client/src/client.ts:100-120 | The close handler, exactly the `SocketClosed` step |
| `BridgeClient.BridgeClient.OnError` | packages/bridge-client/src/client.ts:122-130 | The error handler, exactly the `SocketFailed` step |
| `BridgeClient.BridgeClient.Disconnect` | packages/bridge-client/src/client.ts:135-141 | Leaves no target, expiry, socket, pending rejection or stored timer, whatever the state; exactly the `Disconnect` step |
| `BridgeClient.BridgeClient.TickHeartbeat` | packages/bridge-client/src/client.ts:237-248 | Exactly the `TimerFired` step of the timer that fires |
| `BridgeClient.BridgeClient.StartHeartbeat` | packages/bridge-client/src/client.ts:230-235 | Replaces the stored timer by a new live one |
| `BridgeClient.BridgeClient.StopHeartbeat` | packages/bridge-client/src/client.ts:250-255 | Clears the stored timer |
| `BridgeClient.BridgeClient.DisconnectSocketOnly` | packages/bridge-client/src/client.ts:257-267 | Lets go of the socket and rejects the pending promise with the given reason |
| `Stacks.UndoMovesTheBoundary` | packages/change-journal/src/stacks.ts:47-54 | Undo moves only the boundary within the history, and redo takes it back |
| `Stacks.RedoMovesTheBoundary` | packages/change-journal/src/stacks.ts:60-67 | The same the other way round |
| `ChangeJournal.RunKeepsConsistent` | packages/change-journal/src/journal.ts:74-216 | Over every careful run the ids of the active entries are, in order, the undo stack, no id occurs twice, and undo followed by reversed redo is a duplicate-free sub-sequence of the recorded ids |
| `ChangeJournal.StepKeepsExactly` | packages/change-journal/src/journal.ts:74-216 | Carefulness is exact: a step keeps consistency if and only if it appends a fresh active entry, commits an entry of the undo stack, reverts one outside it, or is an undo, a redo or a superseding |
| `ChangeJournal.AppendKeepsExactly` | packages/change-journal/src/journal.ts:74-77 | Appending keeps consistency if and only if the id is fresh and the status active |
| `ChangeJournal.UndoKeeps` | packages/change-journal/src/journal.ts:115-133 | From a consistent journal undo fails only on an empty stack, another entry than the top, or a corrupt inverse; otherwise it moves the top across and keeps consistency |
| `ChangeJournal.RedoKeeps` | packages/change-journal/src/journal.ts:147-161 | The same for redo |
| `ChangeJournal.UndoExactly` | packages/change-journal/src/journal.ts:115-133 | For any journal and request: which error in which case, and otherwise the stored inverse of the first entry with the id on top, which alone becomes reverted |
| `ChangeJournal.RedoExactly` | packages/change-journal/src/journal.ts:147-161 | The same for redo, with the operation, and without regard to the inverse |
| `ChangeJournal.MarksExactly` | packages/change-journal/src/journal.ts:177-216 | Committing, reverting and superseding change the status of the entries with the id, each to its own, and nothing else of any entry; only superseding touches the stacks |
| `ChangeJournal.WithoutExactly` | packages/change-journal/src/journal.ts:203-216 | The ids around a superseded one close up, and no other list changes |
| `ChangeJournal.CommitKeepsExactly` | packages/change-journal/src/journal.ts:177-184 | Committing fails exactly on unknown ids and keeps consistency if and only if the entry is on the undo stack |
| `ChangeJournal.RevertKeepsExactly` | packages/change-journal/src/journal.ts:190-197 | Reverting fails exactly on unknown ids and keeps consistency if and only if the entry is not on the undo stack |
| `ChangeJournal.SupersedeKeeps` | packages/change-journal/src/journal.ts:203-216 | Superseding any recorded entry keeps consistency and takes it out of the history |
| `ChangeJournal.NewJournalIsConsistent` | packages/change-journal/src/journal.ts:56 | A new journal is consistent |
| `Replay.RunReplays` | packages/change-journal/src/journal.ts:74-161 | However calls interleave, the document is the initial one with the undo stack's operations applied in order, and every entry of the history is in place to be undone and redone |
| `Replay.NewSessionReplays` | packages/change-journal/src/journal.ts:56-161 | In particular for every faithful run from an empty journal |
| `Replay.UndoReplays` | packages/change-journal/src/journal.ts:115-133 | Undo succeeds and brings back the document in which the undone entry was recorded |
| `Replay.RedoReplays` | packages/change-journal/src/journal.ts:147-161 | Redo succeeds and runs in the document in which its entry was recorded |
| `Replay.UndoRedoRoundTrip` | packages/change-journal/src/journal.ts:115-161 | Undo and then redo gives document and stacks back |
| `Replay.SupersedeReplays` | packages/change-journal/src/journal.ts:203-216 | Superseding an entry outside the history, or undone at its very end, keeps the session replayable |
| `Replay.SupersedeReplaysExactly` | packages/change-journal/src/journal.ts:203-216 | Nothing more does: for documents that remember every operation, superseding a recorded entry keeps the session replayable if and only if it is such an entry |
| `EditSession.ComputedInverseUndoesExactly` | packages/change-journal/src/entry.ts:80-98 | For every kind: with the inverse that is stored by default, an operation is undone if and only if its place held what the operation says it found |
| `EditSession.UncapturedEditIsUndoneExactly` | packages/change-ir/src/operation-inverse-style.ts:26-36 | A style edit without a captured previous value is undone if and only if the empty text was there; not where the property was undeclared |
| `EditSession.EditSessionsReplay` | packages/change-journal/src/journal.ts:74-161 | Any interleaving of captured edits of all kinds, undos, redos and commits: the document is the initial one with the operations of the undo stack carried out in order |
| `EditSession.CapturedEditsReplay` | packages/change-journal/src/journal.history.test.ts:160-171 | Recording a captured edit keeps the whole session replayable, and undoing it gives the document back |
| `EditSession.EditUndoRedo` | packages/change-journal/src/journal.history.test.ts:160-171 | A captured edit carries its operation out, undo takes it back, redo repeats it, and settling the entry changes no document |
| `Moves.InverseMovesBackExactly` | packages/change-ir/src/operation-inverse.ts:7-51 | For every kind: the inverse acts on the same place and leaves what the operation found there; it moves the place back exactly, also claiming to find what the operation left, unless the operation is a style removal or an applied suggestion |
| `Moves.StyleInverseMovesBack` | packages/change-ir/src/operation-inverse-style.ts:23-173 | The same for the style kinds, every member and witness and the distance of a flex pair included |
| `Moves.LayoutInverseMovesBack` | packages/change-ir/src/operation-inverse-layout.ts:22-154 | The same for the layout kinds, without exception |
| `Moves.OtherInverseMovesBack` | packages/change-ir/src/operation-inverse-structural.ts:16-76 | The same for the structural kinds (and the metadata kinds) |
| `Inverse.InvertThrice` | packages/change-ir/src/operation-inverse.ts:7-51 | For every kind, inverting three times gives the payload of inverting once |
| `Inverse.InvertTwiceExactly` | packages/change-ir/src/operation-inverse.ts:7-51 | Exactly which payloads inverting twice restores |
| `Inverse.InvertStyleTwice` | packages/change-ir/src/operation-inverse-style.ts:23-173 | The same for the style kinds |
| `Inverse.InvertLayoutTwice` | packages/change-ir/src/operation-inverse-layout.ts:22-154 | The same for the layout kinds |
| `Inverse.InvertOtherTwice` | packages/change-ir/src/operation-inverse-structural.ts:16-76 | The same for the structural and the metadata kinds |
| `Inverse.InverseKeepsContext` | packages/change-ir/src/operation-inverse-base.ts:4-13 | The inverse links to its operation; the preview flag and all other context stay through any number of inversions |
| `Inverse.FlexPairStaysBalanced` | packages/change-ir/src/operation-inverse-style.ts:137-167 | The inverse of a flex-pair resize under the negated delta is balanced if and only if the resize is, and every witness is swapped |
| `Merge.InverseMeansOpposite` | packages/change-ir/src/merge.ts:66-86 | The six cases of structural inverses are exactly: opposite effects on the same element or wrapper |
| `Merge.MergeOperations` | packages/change-ir/src/merge.ts:95-113 | The greedy loop returns exactly the net effect, a description without pairing, and the dropped positions pair up perfectly as structural inverses |
| `Merge.NetEffectIsConserved` | packages/change-ir/src/merge.ts:95-113 | For every element and wrapper, additions minus removals is conserved and one side is empty |
| `Merge.NetEffectHasNoInverses` | packages/change-ir/src/merge.ts:95-113 | No two operations of the result are structural inverses, in any order |
| `Merge.NetEffectIsIdempotent` | packages/change-ir/src/merge.ts:95-113 | Cancelling the result again changes nothing |
| `Merge.NetEffectKeepsOthers` | packages/change-ir/src/merge.ts:88-94 | Operations that are not structural all stay, in order |
| `Conflicts.MergeChangeSets` | packages/change-ir/src/merge.ts:123-184 | Rejects if and only if for some cross pair neither links the other as its inverse, and either they touch the same, family by family, without one undoing the other, or one resizes a flex pair and both edit one property of the same element; with exactly the specified reports. Otherwise the merged set carries the net effect and the first set's context |
| `EditClaims.SharedExactly` | packages/change-ir/src/conflict-signatures.ts:8-86 | When two operations share a signature, by kind and fields: both style, remove or resize the same property of one runtime id, both edit its text, a class of the same name, an attribute, and so on for every family; the six kinds without signatures share none |
| `EditClaims.SignaturesExactly` | packages/change-ir/src/conflict-signatures.ts:8-86 | The signatures of an operation are exactly what it touches, behind the name of the family |
| `EditClaims.StructuralInverseExactly` | packages/change-ir/src/merge.ts:58-86 | Structural inverses: one inserts or duplicates the element the other removes, or wraps with the wrapper the other unwraps |
| `EditClaims.DecimalReadsBack` | packages/change-ir/src/conflict-signatures.ts:42-45 | An index in a signature is its decimal numeral |
| `Operations.IdentityExactly` | packages/change-ir/src/element-identity.ts:8-25 | Two references name the same element under one runtime id, or when selector, occurrence and fingerprint are all known and equal |
| `Conflicts.ConflictingExactly` | packages/change-ir/src/merge.ts:132-163 | What the check compares, signatures and slots, is what the operations edit |
| `Conflicts.SameStyleContradicts` | packages/change-ir/src/merge.ts:132-148 | Two edits of one property of one runtime id, of whatever kinds, conflict if and only if they are not linked |
| `Conflicts.RefoundStyleContradicts` | packages/change-ir/src/merge.ts:149-161 | A flex-pair resize also conflicts with an edit of the same element under another runtime id |
| `SamePlace.SamePlaceTouchesExactly` | packages/change-ir/src/conflict-signatures.ts:8-86 | Of two operations that move the same place, as their meaning defines it: they touch the same if and only if their kind is tracked, two sizings of a child are equal, two class replacements replace the same name, and either both or neither reparent the element on its own rather than as a group of one |
| `SamePlace.SamePlaceIsReportedExactly` | packages/change-ir/src/merge.ts:115-163 | The promise that edits of the same element and slot are reported: for two such operations, neither linked nor undoing each other, it is kept if and only if that condition holds |
| `Conflicts.ReportsExactlyOnConflict` | packages/change-ir/src/merge.ts:132-163 | There is a report if and only if some cross pair shares a signature without being a structural or linked inverse, or aliases a flex-pair slot without a linked inverse |
| `Conflicts.ReportsAreExact` | packages/change-ir/src/merge.ts:132-163 | Every report names a conflicting pair and the signature or slot at fault; every clashing signature and every unlinked alias of an operation is reported |
| `Conflicts.BuildIndex` | packages/change-ir/src/merge.ts:124-131 | The index holds under each signature the operations that carry it, in order, once per occurrence |
| `Conflicts.LookupFindsFirstClash` | packages/change-ir/src/merge.ts:135-139 | Searching one bucket finds what searching all operations finds |
| `Conflicts.ReportConflicts` | packages/change-ir/src/merge.ts:133-162 | The loops for one operation of the second set add exactly its specified reports |
| `Conflicts.FlexPairAliasSignature` | packages/change-ir/src/merge.ts:46-56 | The nested loops find the first shared slot of the first operation |
| `Conflicts.AliasSignatureExactly` | packages/change-ir/src/merge.ts:46-56 | There is one if and only if one of the two is a flex-pair resize and they edit the same property of the same element, by runtime id or by durable identity |
| `Conflicts.AliasSignatureTells` | packages/change-ir/src/merge.ts:46-56 | The reported signature names a style that both operations edit, with the runtime id under which the first set knows the element |
| `Conflicts.FlexPairInOrder` | packages/change-ir/src/merge.ts:34-41 | A flex pair stands for six styles, in this order: of the primary and then of the neighbor, grow, shrink and basis |
| `Conflicts.VerdictIsSymmetric` | packages/change-ir/src/merge.ts:123-163 | Whether a merge is rejected does not depend on the order of the two sets |
| `EditSlots.SharedSignatureExactly` | packages/change-ir/src/conflict-signatures.ts:8-86 | For all operations, whatever their names hold: they share a signature if and only if they have slots of one family whose names, joined with colons, are the same text |
| `EditSlots.SharedSlotExactly` | packages/change-ir/src/conflict-signatures.ts:8-86 | That is a common slot, as long as each family of slots has one position, of any choice, outside which no name holds a colon; so with colons in breakpoints, in class names, or in element ids |
| `EditSlots.SpelledAlikeExactly` | packages/change-ir/src/conflict-signatures.ts:8-86 | One signature is another if and only if the family and the joined names are the same |
| `EditSlots.CssSignaturesCollideExactly` | packages/change-ir/src/conflict-signatures.ts:5-6 | With colons: two runtime ids can share a css signature if and only if one continues the other after a colon |
| `EditSlots.CssSignatureIsExact` | packages/change-ir/src/conflict-signatures.ts:5-6 | Where no id, or where no property, holds a colon a css signature determines element and property |
| `Conflicts.InverseNeverConflicts` | packages/change-ir/src/merge.ts:18-20 | An operation never conflicts with its computed inverse |
| `Conflicts.StructuralInverseCancels` | packages/change-ir/src/merge.ts:58-65 | Merging a structural operation with its computed inverse leaves nothing |
| `Geometry.ApplyOfMultiply` | packages/geometry/src/matrix.ts:42-57 | Applying a product is applying the second matrix and then the first |
| `TransformText.FromString` | packages/geometry/src/matrix.ts:250-270 | On every string: the result is the first refused call of the scan, or malformed if the tail is not blank; otherwise a matrix of numbers if and only if every call gives one, and it acts as the calls one after another, the last one first (what each call does: `CallSendsExactly`) |
| `TransformText.CallSendsExactly` | packages/geometry/src/matrix.ts:176-234 | Where each function moves a point: `translate` and its two cases add, 0 for a missing argument; `scale` and its two cases multiply, one argument serving both; `rotate` turns (1, 0) to (cos, sin); `matrix` maps by its six numbers and `matrix3d` by its entries 0, 1, 4, 5, 12 and 13; nowhere if a number is not finite |
| `TransformText.CallIsRefusedExactly` | packages/geometry/src/matrix.ts:176-234 | Which calls are refused and with which error: `matrix` without 6 and `matrix3d` without 16 arguments, a `matrix3d` that moves along z, and every other name |
| `TransformText.ActsMeansSends` | packages/geometry/src/matrix.ts:250-270 | A matrix that acts as the calls sends every point where they do |
| `TransformText.FirstErrorExactly` | packages/geometry/src/matrix.ts:250-270 | The error is that of the first refused call, and there is none if and only if no call is refused |
| `TransformText.SplitArgsExactly` | packages/geometry/src/matrix.ts:169-173 | The arguments are the trimmed pieces between the commas, in order, without the blank ones |
| `TransformText.LengthExactly` | packages/geometry/src/matrix.ts:148-152 | A length is read without the unit `px` behind it |
| `TransformText.AngleExactly` | packages/geometry/src/matrix.ts:158-165 | Degrees, radians and turns are read as such, and a number without any of these units as degrees |
| `TransformText.GradiansAreReadAsRadians` | packages/geometry/src/matrix.ts:158-165 | Gradians never are: where a number ends before the letter g, the angle read is that number of radians, which is right if and only if it is zero |
| `TransformText.ScanIsExact` | packages/geometry/src/matrix.ts:250-264 | The scan cuts a string into skipped text, well-formed calls and a tail in which nothing matches, and loses nothing |
| `TransformText.FindCallIsLeftmost` | packages/geometry/src/matrix.ts:145 | Each match is the leftmost one |
| `TransformText.ScanOfCallList` | packages/geometry/src/matrix.ts:250-264 | Scanning a list of calls with nothing but white space around them finds exactly its calls |
| `TransformText.CallListExactly` | packages/geometry/src/matrix.ts:239-270 | A string is a list of calls if and only if the scan skips nothing but white space and all arguments are argument lists: no bracket opens in them, no piece between commas is blank, and there are no more pieces than the function takes |
| `TransformText.TakesExactly` | packages/geometry/src/matrix.ts:176-209 | How many arguments a function takes: one more if and only if for some way of reading numbers it makes a difference |
| `TransformText.MatrixTakesExactly` | packages/geometry/src/matrix.ts:210-232 | The two matrix functions: as many as a call that is not refused for their number has |
| `TransformText.MalformedIsAcceptedExactly` | packages/geometry/src/matrix.ts:239-270 | A string whose calls are all supported is accepted if and only if its tail is blank; so an accepted string is no list of calls if and only if some text skipped before or between its calls is not blank or some arguments are no argument list |
| `TransformText.OneCallIsAcceptedExactly` | packages/geometry/src/matrix.ts:239-270 | A single supported match is accepted, and is a list of calls if and only if its arguments are an argument list |
| `TransformText.JunkIsAccepted` | packages/geometry/src/matrix.ts:239-270 | A family of malformed strings that are accepted: a word and white space before any supported call |
| `TransformText.JunkTranslateIsAccepted` | packages/geometry/src/matrix.ts:239-270 | One of them, "junk translate(1px)" |
| `TransformText.OpenBracketIsAccepted` | packages/geometry/src/matrix.ts:239-270 | "translate((1px)" is accepted |
| `Geometry.MultiplyAssociative` | packages/geometry/src/matrix.ts:46-57 | The product is associative |
| `Geometry.InvertIsTheInverse` | packages/geometry/src/matrix.ts:90-103 | A given inverse is two-sided and the only one |
| `Geometry.InvertRefusesExactly` | packages/geometry/src/matrix.ts:93-94 | A matrix that has an inverse is refused if and only if its determinant is within the tolerance but not zero |
| `Geometry.InverseExistsExactly` | packages/geometry/src/matrix.ts:90-95 | A matrix has an inverse if and only if its determinant is not zero |
| `Geometry.CoordinateRoundTrip` | packages/geometry/src/coordinate-conversion.ts:120-139 | The two conversions undo each other, both ways, for every transform and origin |
| `Geometry.LocalToClientExactly` | packages/geometry/src/coordinate-conversion.ts:135-139 | Seen from the transform origin, the linear part acts on the point and the translation is added |
| `Geometry.ClientToLocalRefusesExactly` | packages/geometry/src/coordinate-conversion.ts:120-128 | The way back is refused if and only if the determinant is zero within 10^-12 |
| `SampleGrid.EveryLargePartIsSampled` | packages/overlay-ui/src/hit-testing.ts:134-154 | Every part of the rectangle whose sides are both longer than the step holds a sampled point strictly inside |
| `SampleGrid.CoverageExactly` | packages/overlay-ui/src/hit-testing.ts:129-154 | For every step and size: a part of that size holds a sample wherever it lies in whatever rectangle if and only if both its sides are longer than the step |
| `SampleGrid.SmallPartCanBeMissed` | packages/overlay-ui/src/hit-testing.ts:134-154 | For every other size, a rectangle and a part of it that miss every sample, edges included |
| `SampleGrid.SamplesStayInside` | packages/overlay-ui/src/hit-testing.ts:134-154 | All sampled points lie in the rectangle |
| `SampleGrid.GridExactly` | packages/overlay-ui/src/hit-testing.ts:148-152 | The grid holds exactly the positive multiples of the step, counted from the corner, that are strictly inside |
| `SampleGrid.AnchorsExactly` | packages/overlay-ui/src/hit-testing.ts:141-147 | The first samples are the four corners, upper before lower and left before right, and the centre |
| `SampleGrid.ColumnsInOrder` | packages/overlay-ui/src/hit-testing.ts:148-152 | The grid lists its columns from the left, each from above |
| `SampleGrid.SampleRectGrid` | packages/overlay-ui/src/hit-testing.ts:134-154 | The two loops stop and list the anchors and then the grid, column by column |
| `SampleGrid.LoopsStopExactly` | packages/overlay-ui/src/hit-testing.ts:148-149 | A loop's guard becomes false if and only if the step is positive or it is false at once |
| `SampleGrid.ElementsFromRect` | packages/overlay-ui/src/hit-testing.ts:104-125 | Returns the first-seen distinct elements of the stacks at the sampled points; nothing for an empty rectangle |
| `SampleGrid.DistinctKeepsFirstSeen` | packages/overlay-ui/src/hit-testing.ts:114-123 | Those elements are all, each once, in the order of their first occurrence |
| `SampleGrid.LargeElementsAreFound` | packages/overlay-ui/src/hit-testing.ts:104-125 | An element hit throughout a part with sides longer than the step is returned, and whatever is returned is hit in the rectangle |
| `Redaction.RedactTarget` | packages/context-compiler/src/redaction-selectors.ts:184-267 | The loops compute `Redacted` and `Notices` |
| `Redaction.RedactedExactly` | packages/context-compiler/src/redaction-selectors.ts:184-267 | The result in closed form: sensitive attributes masked; value attributes masked by the first matched masking rule if the first of them still showed; the triggers of matched excluding rules gone; the text masked by the first matched rule |
| `RedactionLaws.RedactedByEntry` | packages/context-compiler/src/redaction-selectors.ts:184-267 | A pass, attribute by attribute, on the target alone: exactly those a matching excluding rule names are dropped; of the others, in their order, a value attribute becomes "[REDACTED:id]" of the first matching masking rule if the first value attribute shows, an exposed sensitive one "[REDACTED:sensitive-attribute]", and the rest stay; the text is covered by the first matching rule |
| `RedactionLaws.NoticesExactly` | packages/context-compiler/src/redaction-selectors.ts:184-267 | The report, notice by notice, with field, id and description: one for each exposed sensitive attribute, and then for each matching rule, in order, what it is the first to hide |
| `RedactionLaws.MatchExactly` | packages/context-compiler/src/redaction-selectors.ts:139-160 | What a match is: the tag in lower case, every required name present, and every tested value containing its part in whatever case |
| `RedactionLaws.MatchedPicks` | packages/context-compiler/src/redaction-selectors.ts:175-183 | The rules a pass applies are the matching ones, in their order |
| `RedactionLaws.CredentialFieldsAreMasked` | packages/context-compiler/src/redaction-selectors.ts:95-132 | Under every configuration, value and text of a password, hidden or credential-token input are masked or absent |
| `RedactionLaws.PrivateElementsAreMasked` | packages/context-compiler/src/redaction-selectors.ts:95-132 | Under every configuration an element with `data-private` loses that attribute, and its text is masked or absent |
| `Redaction.MatchingRuleHides` | packages/context-compiler/src/redaction-selectors.ts:209-256 | Whatever the other rules are, a matching masking rule leaves the first value attribute (if present) masked and a matching excluding rule leaves none of its trigger attributes; both leave the text empty or masked |
| `Redaction.AttributesAreMaskedOrKept` | packages/context-compiler/src/redaction-selectors.ts:192-201 | No sensitive attribute shows, and attributes that nothing names are kept |
| `Redaction.ReportIsEmptyExactly` | packages/context-compiler/src/redaction-selectors.ts:202-204 | Nothing is reported if and only if nothing changes, and never more than there was to hide |
| `Redaction.NothingToDoExactly` | packages/context-compiler/src/redaction-selectors.ts:188-204 | A pass reports nothing if and only if nothing sensitive shows and every matching rule has nothing left to hide |
| `Redaction.IdempotentExactly` | packages/context-compiler/src/redaction-selectors.ts:170-183 | For one target, read off the target and the rules before any pass: a second pass changes and reports nothing if and only if every rule that does not match yet, but will, has nothing left to hide then |
| `Redaction.AttributeOnceExactly` | packages/context-compiler/src/redaction-selectors.ts:192-240 | What the first pass leaves of the first attribute of each name, read off the target |
| `Redaction.DeafRulesAreIdempotent` | packages/context-compiler/src/redaction-selectors.ts:139-160 | Rules that look for nothing a mask contains match after redaction only if they matched before, so redaction is idempotent |
| `RedactionRules.ConfiguredRulesAreIdempotent` | packages/context-compiler/src/redaction-selectors.ts:95-132 | Redaction is idempotent under the default rules, alone or with configured rules that look for nothing a mask contains |
| `ConfiguredRule.ConfiguredRuleIdempotentExactly` | packages/context-compiler/src/redaction-selectors.ts:129-183 | One configured rule of any shape behind the defaults, for any fixed notion of sensitive names: redaction is idempotent for all targets if and only if no mask can wake the rule; the rule's action, tag, names, the six masks of the defaults with their order, the default on private data, and which names are sensitive enter the condition |
| `ConfiguredRule.IdempotentForAllNamesExactly` | packages/context-compiler/src/redaction-selectors.ts:129-183 | It is idempotent for all targets and all notions of sensitive names if and only if a condition on the rule alone fails |
| `ConfiguredRule.WokenBecause` | packages/context-compiler/src/redaction-selectors.ts:184-256 | A rule that matches only after the first pass, with something left to hide, meets that condition |
| `ConfiguredRule.CanWakeIsNotIdempotent` | packages/context-compiler/src/redaction-selectors.ts:184-256 | For every rule and notion of sensitive names that meet it, a target for which a second pass is not idle |
| `ConfiguredRule.PasswordMaskWakesDroppingRule` | packages/context-compiler/src/redaction-selectors.ts:233-246 | A family of them: a rule that drops values containing a word of the mask of password fields |
| `ConfiguredRule.PasswordRuleIsNotIdempotent` | packages/context-compiler/src/redaction-selectors.ts:233-246 | One of them: the word "password" on a password field |
| `RedactionRules.DefaultsStayInForce` | packages/context-compiler/src/redaction-selectors.ts:129-132 | No configuration switches a default rule off, nor changes which rule's mask the text gets when a default rule matches |

## Left out

- RedactionRules.ConfiguredRulesAreIdempotent: for two or more configured rules it is a sufficient condition only. Which sets of rules one target can meet while it misses others depends on how their substrings overlap; `Redaction.IdempotentExactly` is exact for each target under any list, and `ConfiguredRule.ConfiguredRuleIdempotentExactly` over all targets for one configured rule.
- EditSession.ComputedInverseUndoesExactly: documents are places with contents that do not depend on each other; how the preview writes them into a page is outside.

Taken from outside, as functions or parameters:

- Network, decoding of data URLs (base64 and percent), UTF-8 lengths, JSON parsing, URL resolution and the sourceMappingURL directive are functions in `World`; the bytes loop of `decodeBase64` is inside one of them. A fetch answers a URL always in the same way.
- The clock of a pass is an arbitrary sequence of readings. Awaits are sequential, as the loops are; the abort timer of a fetch shows only as the outcome `Aborted`.
- `normalizeMapSourcePath` is an arbitrary function; `merge-origin-results.ts` and `scriptsFromElements` are not modelled.
- Generated ids and timestamps are parameters of `ComputeInverse`, `CreateJournalEntry` and `MergeChangeSets`.
- Sockets and timers are numbers. The factory gives a new socket on every call, and `onStateChange` does not call back into the client. A timer that fires is one that was set and not cleared.
- Which attribute names are sensitive is an arbitrary predicate; the secret patterns for strings are not modelled.
- The hit-test stack of a point, already filtered for overlay and closed shadow roots, is an arbitrary function.

Not modelled:

- Numbers are unbounded integers or reals. Sums of VLQ deltas are exact in JavaScript only up to 2^53; negative zero and the rounding of matrices are not modelled. `parseFloat`, the cosine, the sine and pi are parameters (`Reader`); a number read is finite, infinite, or none. A matrix with an entry that is not finite is modelled only as such. `decompose` is left out.
- Strings are sequences of characters without Unicode case folding; `toLowerCase` is modelled on the ASCII letters.
- In `Redaction` the rest of a target (selectors, box model, breadcrumb), which the code copies, is not carried.
- In `Conflicts` the fields of a merged change set that are constants or copies without influence (schema version, source resolutions, verification plan, privacy report) are not carried, and a conflict's reason is its signature. `supersedeChangeSet` is field copying.
- In `Moves` and `EditSession` places are independent: adding a class and replacing one are moves of different places, and so are an element's index and its parent. The optional target hint of an operation is not part of its move. How the preview writes contents into a page is not modelled.
- Entries carry id, operation, inverse and status; snapshots, evidence and actors have no influence on the journal. A stored inverse is valid or corrupt; the schemas that decide it, persistence and migrations are library behaviour.
- Messages, pushes and handlers of the bridge client, and what a heartbeat sends, do not touch the connection state.
- The remaining coordinate systems are translations; the interaction machine, the mapping of insertion indices for reversed axes, the token budget of the context compiler, panels, extension wiring and the MCP server are not modelled.
