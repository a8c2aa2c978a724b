/**
 * A parsed CSS source map and the search for a selector in its original
 * sources, with the arithmetic that turns an offset into a line and columns.
 */
module SourceMap {
  import opened Prelude
  import Mappings
  import Selector
  import Text

  /** Lines and columns count from 0; the end column is exclusive. */
  datatype Range = Range(startLine: nat, startColumn: nat, endLine: nat, endColumn: nat, snippet: string)

  datatype ResolvedRange = ResolvedRange(sourceFile: string, range: Range)

  datatype CssSourceMap = CssSourceMap(
    sources: seq<string>,
    segments: seq<seq<Mappings.Segment>>,
    sourcesContent: Option<seq<Option<string>>>)

  // ---------------------------------------------------------------- search in one text

  /** The lookahead `(?=\s*[{,])`. */
  predicate OpensBlock(s: string) {
    s != [] && (s[0] == '{' || s[0] == ',' || (Text.IsSpace(s[0]) && OpensBlock(s[1..])))
  }

  /** White space, and then an opening brace or a comma. */
  lemma {:induction false} OpensBlockExactly(s: string)
    ensures OpensBlock(s) <==> exists gap, rest :: Text.Blank(gap) && (s == gap + "{" + rest || s == gap + "," + rest)
  {
    if OpensBlock(s) {
      var gap := "";
      while !(s[|gap|] == '{' || s[|gap|] == ',')
        invariant |gap| < |s| && s[..|gap|] == gap && Text.Blank(gap) && OpensBlock(s[|gap|..])
        decreases |s| - |gap|
      {
        gap := gap + [s[|gap|]];
      }
      assert s == gap + [s[|gap|]] + s[|gap| + 1..];
    }
    if gap, rest :| Text.Blank(gap) && (s == gap + "{" + rest || s == gap + "," + rest) {
      BlankThenBlock(gap, rest, s[|gap|]);
    }
  }

  lemma {:induction false} BlankThenBlock(gap: string, rest: string, c: char)
    requires Text.Blank(gap) && (c == '{' || c == ',')
    ensures OpensBlock(gap + [c] + rest)
  {
    if gap != "" {
      BlankThenBlock(gap[1..], rest, c);
      assert (gap + [c] + rest)[1..] == gap[1..] + [c] + rest;
    }
  }

  predicate MatchesAt(content: string, needle: string, i: nat) {
    i + |needle| <= |content| && content[i..i + |needle|] == needle && OpensBlock(content[i + |needle|..])
  }

  /** The leftmost match at or after `i`. */
  function FirstMatch(content: string, needle: string, i: nat): (at: Option<nat>)
    requires i <= |content|
    ensures at.Some? ==> i <= at.value && MatchesAt(content, needle, at.value)
    ensures forall k :: i <= k <= |content| && (at.Some? ==> k < at.value) ==> !MatchesAt(content, needle, k)
    decreases |content| - i
  {
    if MatchesAt(content, needle, i) then Some(i)
    else if i == |content| then None
    else FirstMatch(content, needle, i + 1)
  }

  function Take(s: string, n: nat): string {
    if |s| <= n then s else s[..n]
  }

  function FindSelectorInContent(content: string, needle: string): Option<Range> {
    match FirstMatch(content, needle, 0)
    case None => None
    case Some(charIndex) =>
      var lines := Text.Split(content[..charIndex], '\n');
      var startLine := |lines| - 1;
      var startColumn := |lines[startLine]|;
      var contentLines := Text.Split(content, '\n');
      var snippetLine := if startLine < |contentLines| then contentLines[startLine] else needle;
      Some(Range(startLine, startColumn, startLine, startColumn + |needle|, Take(Text.Trim(snippetLine), 200)))
  }

  /**
   * Reading the text by lines: the range lies on one line and spells the needle, and what
   * follows it, over the rest of that line and the later ones, opens a block.
   */
  ghost predicate Spells(content: string, r: Range, needle: string) {
    var lines := Text.Split(content, '\n');
    && r.endLine == r.startLine < |lines|
    && r.startColumn <= r.endColumn <= |lines[r.startLine]|
    && lines[r.startLine][r.startColumn..r.endColumn] == needle
    && OpensBlock(Text.Join([lines[r.startLine][r.endColumn..]] + lines[r.startLine + 1..], '\n'))
  }

  /** The text before the range, read by lines. */
  ghost function Before(content: string, r: Range): string
    requires var lines := Text.Split(content, '\n');
             r.startLine < |lines| && r.startColumn <= |lines[r.startLine]|
  {
    var lines := Text.Split(content, '\n');
    Text.Join(lines[..r.startLine] + [lines[r.startLine][..r.startColumn]], '\n')
  }

  /** `snippet` is the line without the white space around it, cut off after 200 characters. */
  ghost predicate Excerpts(snippet: string, line: string) {
    exists lead, body, trail ::
      && line == lead + body + trail && Text.Blank(lead) && Text.Blank(trail)
      && (body == "" || (!Text.IsSpace(body[0]) && !Text.IsSpace(body[|body| - 1])))
      && |snippet| == (if |body| < 200 then |body| else 200) && snippet <= body
  }

  /** The range spells the needle where the text first has it in front of a block, and shows the line. */
  ghost predicate Locates(content: string, r: Range, needle: string) {
    && Spells(content, r, needle)
    && (forall k :: 0 <= k < |Before(content, r)| ==> !MatchesAt(content, needle, k))
    && Excerpts(r.snippet, Text.Split(content, '\n')[r.startLine])
  }

  lemma GlueAround(bs: seq<string>, needle: string, xs: seq<string>)
    requires |bs| >= 1 && |xs| >= 1
    ensures var lines := Text.Glue(bs, Text.Glue([needle], xs));
            var n := |bs| - 1;
            && |lines| == n + |xs|
            && lines[..n] == bs[..n]
            && lines[n] == bs[n] + needle + xs[0]
            && lines[n + 1..] == xs[1..]
  {
    var n := |bs| - 1;
    assert Text.Glue([needle], xs) == [needle + xs[0]] + xs[1..];
    assert bs[n] + (needle + xs[0]) == bs[n] + needle + xs[0];
  }

  /** The lines of `before + needle + after` around a needle that holds no line break. */
  lemma SplitAround(before: string, needle: string, after: string)
    requires '\n' !in needle
    ensures var bs, xs := Text.Split(before, '\n'), Text.Split(after, '\n');
            var lines := Text.Split(before + needle + after, '\n');
            var n := |bs| - 1;
            && |lines| == n + |xs|
            && lines[..n] == bs[..n]
            && lines[n] == bs[n] + needle + xs[0]
            && lines[n + 1..] == xs[1..]
  {
    hide Text.Split, Text.Glue;
    Text.SplitOfAppend(needle, after, '\n');
    Text.SplitHead(needle, "", '\n');
    assert before + needle + after == before + (needle + after);
    Text.SplitOfAppend(before, needle + after, '\n');
    var bs, xs := Text.Split(before, '\n'), Text.Split(after, '\n');
    GlueAround(bs, needle, xs);
  }

  /** Lines that are glued around a needle come apart again at its columns. */
  lemma LinesComeApart(lines: seq<string>, bs: seq<string>, needle: string, xs: seq<string>)
    requires |bs| >= 1 && |xs| >= 1 && |lines| == |bs| - 1 + |xs|
    requires var n := |bs| - 1;
             lines[..n] == bs[..n] && lines[n] == bs[n] + needle + xs[0] && lines[n + 1..] == xs[1..]
    ensures var n := |bs| - 1;
            var (from, to) := (|bs[n]|, |bs[n]| + |needle|);
            && to <= |lines[n]|
            && lines[..n] + [lines[n][..from]] == bs
            && lines[n][from..to] == needle
            && [lines[n][to..]] + lines[n + 1..] == xs
  {
    var n := |bs| - 1;
    Pieces(bs[n], needle, xs[0]);
    assert bs == bs[..n] + [bs[n]] && xs == [xs[0]] + xs[1..];
  }

  lemma Pieces(a: string, b: string, c: string)
    ensures var s := a + b + c;
            s[..|a|] == a && s[|a|..|a| + |b|] == b && s[|a| + |b|..] == c
  {
  }

  /** The lines around a match at `i`, read off the text before and after it. */
  lemma LinesAround(content: string, needle: string, i: nat, r: Range)
    requires '\n' !in needle && i + |needle| <= |content| && content[i..i + |needle|] == needle
    requires var bs := Text.Split(content[..i], '\n');
             r.startLine == r.endLine == |bs| - 1 && r.startColumn == |bs[|bs| - 1]| && r.endColumn == r.startColumn + |needle|
    ensures var lines := Text.Split(content, '\n');
            && r.startLine < |lines| && r.endColumn <= |lines[r.startLine]|
            && lines[..r.startLine] + [lines[r.startLine][..r.startColumn]] == Text.Split(content[..i], '\n')
            && lines[r.startLine][r.startColumn..r.endColumn] == needle
            && [lines[r.startLine][r.endColumn..]] + lines[r.startLine + 1..] == Text.Split(content[i + |needle|..], '\n')
  {
    var before, after := content[..i], content[i + |needle|..];
    CutAround(content, needle, i);
    SplitAround(before, needle, after);
    hide Text.Split;
    LinesComeApart(Text.Split(content, '\n'), Text.Split(before, '\n'), needle, Text.Split(after, '\n'));
  }

  lemma CutAround(content: string, needle: string, i: nat)
    requires i + |needle| <= |content| && content[i..i + |needle|] == needle
    ensures content == content[..i] + needle + content[i + |needle|..]
  {
  }

  /** The offset-to-line/column arithmetic is right, and it points at the first match. */
  lemma FoundRangeSpells(content: string, needle: string)
    requires '\n' !in needle
    ensures match FindSelectorInContent(content, needle)
            case None => forall k :: 0 <= k <= |content| ==> !MatchesAt(content, needle, k)
            case Some(r) =>
              && Spells(content, r, needle)
              && MatchesAt(content, needle, |Before(content, r)|)
              && (forall k :: 0 <= k < |Before(content, r)| ==> !MatchesAt(content, needle, k))
  {
    hide Text.Split, Text.Join, OpensBlock, Text.Trim;
    match FirstMatch(content, needle, 0)
    case None =>
    case Some(i) =>
      var r := FindSelectorInContent(content, needle).value;
      LinesAround(content, needle, i, r);
      Text.JoinOfSplit(content[..i], '\n');
      Text.JoinOfSplit(content[i + |needle|..], '\n');
      hide FirstMatch;
      assert Before(content, r) == content[..i];
  }

  /** Position `k` does not lie inside a name: there is no name character on both sides. */
  predicate IsTokenBoundary(content: string, k: nat) {
    k == 0 || k >= |content| || !(Selector.IsNameChar(content[k - 1]) && Selector.IsNameChar(content[k]))
  }

  /** Whatever the text, what is found starts at a token boundary. */
  ghost predicate FindsWholeTokens(needle: string) {
    forall content :: FirstMatch(content, needle, 0).Some? ==> IsTokenBoundary(content, FirstMatch(content, needle, 0).value)
  }

  /**
   * The search is not anchored at a token. What it finds starts at a token boundary in every text
   * exactly for needles that do not start with a name character, so for classes and ids, while an
   * element's name can be found at the end of a longer name.
   */
  lemma WholeTokensExactly(needle: string)
    requires needle != ""
    ensures FindsWholeTokens(needle) <==> !Selector.IsNameChar(needle[0])
  {
    if Selector.IsNameChar(needle[0]) {
      var content := FoundInsideName(needle);
    } else {
      forall content | FirstMatch(content, needle, 0).Some?
        ensures IsTokenBoundary(content, FirstMatch(content, needle, 0).value)
      {
        var k := FirstMatch(content, needle, 0).value;
        assert content[k..k + |needle|][0] == content[k];
      }
    }
  }

  /** A text in which the needle is found at the end of a longer name. */
  lemma FoundInsideName(needle: string) returns (content: string)
    requires needle != "" && Selector.IsNameChar(needle[0])
    ensures FirstMatch(content, needle, 0) == Some(1) && !IsTokenBoundary(content, 1)
  {
    var c := if needle[0] == 'x' then 'y' else 'x';
    content := [c] + needle + "{";
    assert content[1..1 + |needle|] == needle && content[1 + |needle|..] == "{";
    assert content[0..0 + |needle|][0] == c;
    assert MatchesAt(content, needle, 1) && !MatchesAt(content, needle, 0);
    assert content[1] == needle[0];
  }

  lemma ExcerptOf(line: string)
    ensures Excerpts(Take(Text.Trim(line), 200), line)
  {
    var lead, trail := Text.TrimExactly(line);
    Text.TrimmedEnds(line);
  }

  /** What is found is the first match, with its line as the snippet. */
  lemma FoundRangeLocates(content: string, needle: string)
    requires '\n' !in needle
    ensures var found := FindSelectorInContent(content, needle);
            found.Some? ==> Locates(content, found.value, needle)
  {
    FoundRangeSpells(content, needle);
    var found := FindSelectorInContent(content, needle);
    if found.Some? {
      var line := Text.Split(content, '\n')[found.value.startLine];
      ExcerptOf(line);
      hide Spells, Excerpts, MatchesAt, Text.Split, Before;
    }
  }

  /** The position of a found range is that of the first match. */
  lemma FoundAtFirstMatch(content: string, needle: string)
    requires '\n' !in needle
    ensures match FindSelectorInContent(content, needle)
            case None => FirstMatch(content, needle, 0).None?
            case Some(r) => Spells(content, r, needle) && FirstMatch(content, needle, 0) == Some(|Before(content, r)|)
  {
    FoundRangeSpells(content, needle);
    hide MatchesAt;
  }

  // ---------------------------------------------------------------- search in all sources

  /** What the search finds in source `i`, when both its name and its content are known. */
  function FindInSource(m: CssSourceMap, needle: string, i: nat): Option<ResolvedRange>
    requires m.sourcesContent.Some? && i < |m.sourcesContent.value|
  {
    match m.sourcesContent.value[i]
    case None => None
    case Some(content) =>
      if i >= |m.sources| then None
      else
        match FindSelectorInContent(content, needle)
        case None => None
        case Some(r) => Some(ResolvedRange(m.sources[i], r))
  }

  function FindFrom(m: CssSourceMap, needle: string, i: nat): Option<ResolvedRange>
    requires m.sourcesContent.Some? && i <= |m.sourcesContent.value|
    decreases if m.sourcesContent.Some? then |m.sourcesContent.value| - i else 0
  {
    if i == |m.sourcesContent.value| then None
    else if FindInSource(m, needle, i).Some? then FindInSource(m, needle, i)
    else FindFrom(m, needle, i + 1)
  }

  function FindRange(m: CssSourceMap, selector: string): Option<ResolvedRange> {
    if m.sourcesContent.None? || Selector.Needle(selector) == "" then None
    else FindFrom(m, Selector.Needle(selector), 0)
  }

  method FindSelectorRange(m: CssSourceMap, selector: string) returns (found: Option<ResolvedRange>)
    ensures found == FindRange(m, selector)
  {
    if m.sourcesContent.None? {
      return None;
    }
    var needle := Selector.Needle(selector);
    if |needle| == 0 {
      return None;
    }
    var contents := m.sourcesContent.value;
    var i := 0;
    while i < |contents|
      invariant 0 <= i <= |contents|
      invariant FindFrom(m, needle, 0) == FindFrom(m, needle, i)
    {
      if contents[i].Some? && i < |m.sources| {
        var range := FindSelectorInContent(contents[i].value, needle);
        if range.Some? {
          return Some(ResolvedRange(m.sources[i], range.value));
        }
      }
      i := i + 1;
    }
    found := None;
  }

  /** Source `i`, as far as its content is known, has the needle nowhere in front of a block. */
  ghost predicate Lacks(m: CssSourceMap, i: nat, needle: string)
    requires m.sourcesContent.Some? && i < |m.sourcesContent.value|
  {
    match m.sourcesContent.value[i]
    case None => true
    case Some(content) => forall k :: 0 <= k <= |content| ==> !MatchesAt(content, needle, k)
  }

  /** The range names the first source whose known content has the needle in front of '{' or ',', and locates it there. */
  ghost predicate Truthful(m: CssSourceMap, selector: string, found: ResolvedRange) {
    var needle := Selector.Needle(selector);
    && m.sourcesContent.Some?
    && exists i :: 0 <= i < |m.sourcesContent.value| && i < |m.sources|
         && m.sources[i] == found.sourceFile
         && m.sourcesContent.value[i].Some?
         && Locates(m.sourcesContent.value[i].value, found.range, needle)
         && forall j :: 0 <= j < i ==> Lacks(m, j, needle)
  }

  lemma NothingFoundMeansLacks(m: CssSourceMap, selector: string, i: nat)
    requires m.sourcesContent.Some? && i < |m.sourcesContent.value| && i < |m.sources|
    ensures FindInSource(m, Selector.Needle(selector), i).None? ==> Lacks(m, i, Selector.Needle(selector))
  {
    Selector.NeedleCharacters(selector);
    assert Selector.IsSeparator('\n');
    if m.sourcesContent.value[i].Some? {
      FoundRangeSpells(m.sourcesContent.value[i].value, Selector.Needle(selector));
    }
    hide Selector.Needle, FindSelectorInContent, MatchesAt;
  }

  lemma {:induction false} FoundFromIsTruthful(m: CssSourceMap, selector: string, i: nat)
    requires m.sourcesContent.Some? && i <= |m.sourcesContent.value|
    requires FindFrom(m, Selector.Needle(selector), i).Some?
    requires forall j :: 0 <= j < i ==> Lacks(m, j, Selector.Needle(selector))
    ensures Truthful(m, selector, FindFrom(m, Selector.Needle(selector), i).value)
    decreases |m.sourcesContent.value| - i
  {
    hide Selector.Needle, FindSelectorInContent, Locates, Lacks;
    var needle := Selector.Needle(selector);
    if FindInSource(m, needle, i).Some? {
      Selector.NeedleCharacters(selector);
      assert Selector.IsSeparator('\n');
      FoundRangeLocates(m.sourcesContent.value[i].value, needle);
    } else if i < |m.sources| {
      NothingFoundMeansLacks(m, selector, i);
      FoundFromIsTruthful(m, selector, i + 1);
    } else {
      NothingBeyondNames(m, needle, i);
    }
  }

  lemma {:induction false} NothingBeyondNames(m: CssSourceMap, needle: string, i: nat)
    requires m.sourcesContent.Some? && |m.sources| <= i <= |m.sourcesContent.value|
    ensures FindFrom(m, needle, i).None?
    decreases |m.sourcesContent.value| - i
  {
    if i < |m.sourcesContent.value| {
      NothingBeyondNames(m, needle, i + 1);
    }
  }

  lemma {:induction false} NothingFoundFrom(m: CssSourceMap, needle: string, i: nat)
    requires m.sourcesContent.Some? && i <= |m.sourcesContent.value|
    requires FindFrom(m, needle, i).None?
    ensures forall k :: i <= k < |m.sourcesContent.value| ==> FindInSource(m, needle, k).None?
    decreases |m.sourcesContent.value| - i
  {
    if i < |m.sourcesContent.value| {
      NothingFoundFrom(m, needle, i + 1);
    }
  }

  /**
   * A found range is truthful. None is reported only when the map has no contents, the
   * selector has no needle, or no known content of a named source holds the needle in
   * front of '{' or ','.
   */
  lemma SearchIsExact(m: CssSourceMap, selector: string)
    ensures var needle := Selector.Needle(selector);
            match FindRange(m, selector)
            case Some(found) => needle != "" && Truthful(m, selector, found)
            case None =>
              || m.sourcesContent.None? || needle == ""
              || (forall i, k :: 0 <= i < |m.sourcesContent.value| && i < |m.sources| && m.sourcesContent.value[i].Some?
                                 && 0 <= k <= |m.sourcesContent.value[i].value|
                    ==> !MatchesAt(m.sourcesContent.value[i].value, needle, k))
  {
    hide Selector.Needle, Locates, Truthful, Lacks, MatchesAt, FindSelectorInContent;
    var needle := Selector.Needle(selector);
    if FindRange(m, selector).Some? {
      FoundFromIsTruthful(m, selector, 0);
    } else if m.sourcesContent.Some? && needle != "" {
      NothingFoundFrom(m, needle, 0);
      Selector.NeedleCharacters(selector);
      assert Selector.IsSeparator('\n');
      forall i, k | 0 <= i < |m.sourcesContent.value| && i < |m.sources| && m.sourcesContent.value[i].Some?
                    && 0 <= k <= |m.sourcesContent.value[i].value|
        ensures !MatchesAt(m.sourcesContent.value[i].value, needle, k)
      {
        assert FindInSource(m, needle, i).None?;
        FoundRangeSpells(m.sourcesContent.value[i].value, needle);
      }
    }
  }

  // ---------------------------------------------------------------- parsing

  /** What JSON parsing yields for an object; `None` stands for an entry that is not a string. */
  datatype RawMap = RawMap(
    version: int,
    mappings: Option<string>,
    sourceRoot: Option<string>,
    sources: seq<Option<string>>,
    sourcesContent: Option<seq<Option<string>>>)

  /** `filter` with the type test on strings. */
  function Strings(xs: seq<Option<string>>): (ys: seq<string>)
    ensures |ys| <= |xs|
  {
    if xs == [] then []
    else (if xs[0].Some? then [xs[0].value] else []) + Strings(xs[1..])
  }

  predicate IsLetter(c: char) {
    'a' <= c <= 'z' || 'A' <= c <= 'Z'
  }

  predicate IsSchemeChar(c: char) {
    IsLetter(c) || '0' <= c <= '9' || c == '+' || c == '.' || c == '-'
  }

  lemma SchemeCharsExactly(c: char)
    ensures IsLetter(c) <==> c in "abcdefghijklmnopqrstuvwxyz" || c in "ABCDEFGHIJKLMNOPQRSTUVWXYZ"
    ensures IsSchemeChar(c) <==> IsLetter(c) || c in "0123456789" || c == '+' || c == '.' || c == '-'
  {
    Text.LowercaseExactly(c);
    Text.UppercaseExactly(c);
    Text.DigitExactly(c);
  }

  /** The pattern `^[a-zA-Z][a-zA-Z0-9+.-]*:`. */
  predicate HasScheme(s: string) {
    var i := Text.FirstIndex(s, ':');
    0 < i < |s| && IsLetter(s[0]) && forall k :: 0 < k < i ==> IsSchemeChar(s[k])
  }

  function JoinSourceRoot(root: string, source: string): string {
    if HasScheme(source) then source
    else if "/" <= source then source
    else if root != "" && root[|root| - 1] == '/' then root + source
    else root + "/" + source
  }

  function SourceName(root: Option<string>, source: string): string {
    if root.GetOr("") == "" then source else JoinSourceRoot(root.value, source)
  }

  // ---------------------------------------------------------------- names, described

  /** Letters, digits, '+', '.' and '-' after a letter, up to a ':'. */
  ghost predicate StartsWithScheme(s: string) {
    exists scheme, rest ::
      && s == scheme + ":" + rest && scheme != "" && IsLetter(scheme[0])
      && forall k :: 0 <= k < |scheme| ==> IsSchemeChar(scheme[k])
  }

  /** A source that no root is put in front of. */
  ghost predicate IsAbsolute(source: string) {
    StartsWithScheme(source) || exists rest :: source == "/" + rest
  }

  /** The file a source stands for: itself, or itself in the directory that the root names with or without a final '/'. */
  ghost predicate IsNameOf(name: string, root: Option<string>, source: string) {
    if root.None? || root.value == "" || IsAbsolute(source) then name == source
    else
      exists directory ::
        && (root.value == directory + "/" || (root.value == directory && directory[|directory| - 1] != '/'))
        && name == directory + "/" + source
  }

  lemma SchemeExactly(s: string)
    ensures HasScheme(s) <==> StartsWithScheme(s)
  {
    var i := Text.FirstIndex(s, ':');
    if HasScheme(s) {
      var (scheme, rest) := (s[..i], s[i + 1..]);
      assert s == scheme + ":" + rest;
      assert forall k :: 0 <= k < |scheme| ==> scheme[k] == s[k];
    }
    if scheme, rest :| s == scheme + ":" + rest && scheme != "" && IsLetter(scheme[0])
                       && forall k :: 0 <= k < |scheme| ==> IsSchemeChar(scheme[k]) {
      assert s == scheme + ([':'] + rest);
      Text.FirstIndexOf(scheme, ':', rest);
      assert forall k :: 0 <= k < |scheme| ==> s[k] == scheme[k];
    }
  }

  /** The joined name is the described one and no other. */
  lemma SourceNameExactly(root: Option<string>, source: string, name: string)
    ensures SourceName(root, source) == name <==> IsNameOf(name, root, source)
  {
    SchemeExactly(source);
    hide HasScheme, StartsWithScheme;
    assert "/" <= source <==> exists rest :: source == "/" + rest by {
      if "/" <= source {
        assert source == "/" + source[1..];
      }
    }
    if root.Some? && root.value != "" && !IsAbsolute(source) {
      JoinedExactly(root.value, source, name);
    }
  }

  lemma JoinedExactly(root: string, source: string, name: string)
    requires root != "" && !HasScheme(source) && !("/" <= source)
    ensures JoinSourceRoot(root, source) == name <==>
              exists directory ::
                && (root == directory + "/" || (root == directory && directory[|directory| - 1] != '/'))
                && name == directory + "/" + source
  {
    hide HasScheme;
    var n := |root| - 1;
    var directory := if root[n] == '/' then root[..n] else root;
    if root[n] == '/' {
      assert root == directory + "/";
    }
    assert JoinSourceRoot(root, source) == directory + "/" + source;
    forall d | root == d + "/" || (root == d && d[|d| - 1] != '/')
      ensures d == directory
    {
      if root == d + "/" {
        assert root[n] == '/' && root[..n] == d;
      }
    }
  }

  /** A root names the same directory with and without its final '/'. */
  lemma FinalSlashIsOptional(directory: string, source: string)
    requires directory != "" && directory[|directory| - 1] != '/'
    ensures SourceName(Some(directory), source) == SourceName(Some(directory + "/"), source)
  {
    hide HasScheme;
    assert (directory + "/")[|directory|] == '/';
  }

  function ParseSourceMap(raw: RawMap): Option<CssSourceMap> {
    if raw.version != 3 || raw.mappings.None? then None
    else
      var names := Strings(raw.sources);
      Some(CssSourceMap(
        seq(|names|, i requires 0 <= i < |names| => SourceName(raw.sourceRoot, names[i])),
        Mappings.Decode(raw.mappings.value),
        raw.sourcesContent))
  }

  /** `ys` are the strings of `xs`, in order: `at` says where they stand, and no string stands elsewhere. */
  ghost predicate ListsStrings(at: seq<nat>, ys: seq<string>, xs: seq<Option<string>>) {
    && |at| == |ys|
    && (forall j, k :: 0 <= j < k < |at| ==> at[j] < at[k])
    && (forall k :: 0 <= k < |at| ==> at[k] < |xs| && xs[at[k]] == Some(ys[k]))
    && (forall i :: 0 <= i < |xs| && xs[i].Some? ==> i in at)
  }

  lemma {:induction false} StringsNext(xs: seq<Option<string>>, x: Option<string>)
    ensures Strings(xs + [x]) == Strings(xs) + if x.Some? then [x.value] else []
  {
    if xs == [] {
      assert xs + [x] == [x] && [x][1..] == [];
    } else {
      var first := if xs[0].Some? then [xs[0].value] else [];
      var last := if x.Some? then [x.value] else [];
      assert (xs + [x])[1..] == xs[1..] + [x] && (xs + [x])[0] == xs[0];
      StringsNext(xs[1..], x);
      assert Strings(xs + [x]) == first + (Strings(xs[1..]) + last);
      hide Strings;
      Regroup(first, Strings(xs[1..]), last);
    }
  }

  lemma ListsOneMore(at: seq<nat>, ys: seq<string>, xs: seq<Option<string>>, x: Option<string>)
    requires ListsStrings(at, ys, xs)
    ensures x.None? ==> ListsStrings(at, ys, xs + [x])
    ensures x.Some? ==> ListsStrings(at + [|xs|], ys + [x.value], xs + [x])
  {
    var n := |xs|;
    if x.Some? {
      var more := at + [n];
      assert more[|at|] == n;
      forall i | 0 <= i < n && xs[i].Some?
        ensures i in more
      {
        assert i in at;
      }
    }
  }

  lemma {:induction false} StringsInOrder(xs: seq<Option<string>>) returns (at: seq<nat>)
    ensures ListsStrings(at, Strings(xs), xs)
  {
    at := [];
    if xs != [] {
      hide ListsStrings;
      var n := |xs| - 1;
      var (init, last) := (xs[..n], xs[n]);
      assert xs == init + [last];
      var before := StringsInOrder(init);
      ListsOneMore(before, Strings(init), init, last);
      StringsNext(init, last);
      hide Strings;
      if last.Some? {
        at := before + [n];
      } else {
        at := before;
        assert Strings(init) + [] == Strings(init);
      }
    }
  }

  /** `m` is what a version 3 map says: the names of its strings in order, its decoded mappings, its contents. */
  ghost predicate Represents(m: CssSourceMap, raw: RawMap) {
    && raw.version == 3 && raw.mappings.Some?
    && m.segments == Mappings.Decode(raw.mappings.value)
    && m.sourcesContent == raw.sourcesContent
    && exists at, names :: ListsStrings(at, names, raw.sources) && |names| == |m.sources|
         && forall k :: 0 <= k < |names| ==> IsNameOf(m.sources[k], raw.sourceRoot, names[k])
  }

  lemma ParsedExactly(raw: RawMap)
    ensures match ParseSourceMap(raw)
            case None => raw.version != 3 || raw.mappings.None?
            case Some(m) => Represents(m, raw)
  {
    if ParseSourceMap(raw).Some? {
      var m := ParseSourceMap(raw).value;
      var names := Strings(raw.sources);
      var at := StringsInOrder(raw.sources);
      forall k | 0 <= k < |names|
        ensures IsNameOf(m.sources[k], raw.sourceRoot, names[k])
      {
        SourceNameExactly(raw.sourceRoot, names[k], m.sources[k]);
      }
      hide ListsStrings, IsNameOf;
    }
  }

  // ---------------------------------------------------------------- truth about the raw map

  /**
   * The range names an entry of the map's own `sources` whose own content, at the same index of
   * `sourcesContent`, spells the selector's needle there, followed by '{' or ','.
   */
  ghost predicate TruthfulTo(raw: RawMap, selector: string, found: ResolvedRange) {
    && raw.sourcesContent.Some?
    && exists i :: 0 <= i < |raw.sources| && i < |raw.sourcesContent.value|
         && raw.sources[i].Some? && IsNameOf(found.sourceFile, raw.sourceRoot, raw.sources[i].value)
         && raw.sourcesContent.value[i].Some?
         && Locates(raw.sourcesContent.value[i].value, found.range, Selector.Needle(selector))
  }

  /** All strings among the sources stand in front of the first entry that is not a string. */
  ghost predicate Aligned(sources: seq<Option<string>>) {
    forall j, k :: 0 <= j < k < |sources| && sources[k].Some? ==> sources[j].Some?
  }

  lemma {:induction false} StringsOfPrefix(xs: seq<Option<string>>)
    requires forall k :: 0 <= k < |Strings(xs)| ==> xs[k].Some?
    ensures forall k :: 0 <= k < |Strings(xs)| ==> xs[k] == Some(Strings(xs)[k])
  {
    if xs != [] && Strings(xs) != [] {
      assert xs[0].Some?;
      var ys := xs[1..];
      assert Strings(xs) == [xs[0].value] + Strings(ys);
      forall k | 0 <= k < |Strings(ys)|
        ensures ys[k].Some?
      {
        assert xs[k + 1].Some?;
      }
      StringsOfPrefix(ys);
      forall k | 0 <= k < |Strings(xs)|
        ensures xs[k] == Some(Strings(xs)[k])
      {
        if k > 0 {
          assert xs[k] == ys[k - 1];
        }
      }
    }
  }

  /** As many of the leading entries are strings as there are strings, or one of those is not a string. */
  lemma {:induction false} AlignedByCount(xs: seq<Option<string>>)
    ensures Aligned(xs) <==> forall k :: 0 <= k < |Strings(xs)| ==> xs[k].Some?
    ensures (exists k :: 0 <= k < |xs| && xs[k].Some?) <==> Strings(xs) != []
  {
    if xs != [] {
      var ys := xs[1..];
      AlignedByCount(ys);
      assert forall k :: 0 <= k < |ys| ==> ys[k] == xs[k + 1];
      assert forall k :: 0 < k < |xs| ==> xs[k] == ys[k - 1];
      assert Strings(xs) == (if xs[0].Some? then [xs[0].value] else []) + Strings(ys);
    }
  }

  /**
   * Dropping the entries of `sources` that are not strings keeps every kept name at its own
   * index exactly when all of them stand in front of the dropped ones. `sourcesContent` is
   * not filtered, so otherwise names and contents no longer belong together.
   */
  lemma NamesKeepTheirIndex(sources: seq<Option<string>>)
    ensures (forall k :: 0 <= k < |Strings(sources)| ==> sources[k] == Some(Strings(sources)[k])) <==> Aligned(sources)
  {
    AlignedByCount(sources);
    if Aligned(sources) {
      StringsOfPrefix(sources);
    }
  }

  /** With aligned sources, whatever is found is truthful about the map itself. */
  lemma AlignedIsTruthful(raw: RawMap, selector: string)
    requires Aligned(raw.sources) && ParseSourceMap(raw).Some?
    requires FindRange(ParseSourceMap(raw).value, selector).Some?
    ensures TruthfulTo(raw, selector, FindRange(ParseSourceMap(raw).value, selector).value)
  {
    var m := ParseSourceMap(raw).value;
    SearchIsExact(m, selector);
    NamesKeepTheirIndex(raw.sources);
    forall k | 0 <= k < |m.sources|
      ensures IsNameOf(m.sources[k], raw.sourceRoot, Strings(raw.sources)[k])
    {
      SourceNameExactly(raw.sourceRoot, Strings(raw.sources)[k], m.sources[k]);
    }
    hide Locates, Selector.Needle, FindRange, Strings, Mappings.Decode, SourceName, IsNameOf;
  }

  /** A text in which nothing but one class is declared, and the selector of that class. */
  const SNIPPET := ".x{"
  const CLASS := ".x"

  lemma SnippetIsFound()
    ensures Selector.Needle(CLASS) == CLASS && FindSelectorInContent(SNIPPET, CLASS).Some?
  {
    Selector.NeedleOfPlain(CLASS);
    hide Selector.Needle;
    assert SNIPPET[0..0 + |CLASS|] == CLASS && SNIPPET[0 + |CLASS|..] == "{";
    assert MatchesAt(SNIPPET, CLASS, 0);
  }

  /** The contents of a map in which only source `k` has one. */
  function OnlyContent(n: nat, k: nat): seq<Option<string>> {
    seq(n, i => if i == k then Some(SNIPPET) else None)
  }

  lemma {:induction false} OnlyContentIsSearched(m: CssSourceMap, n: nat, k: nat, i: nat)
    requires m.sourcesContent == Some(OnlyContent(n, k)) && i <= k < n && k < |m.sources|
    requires FindSelectorInContent(SNIPPET, CLASS).Some?
    ensures FindFrom(m, CLASS, i) == Some(ResolvedRange(m.sources[k], FindSelectorInContent(SNIPPET, CLASS).value))
    decreases k - i
  {
    hide FindSelectorInContent;
    if i < k {
      OnlyContentIsSearched(m, n, k, i + 1);
    }
  }

  /** Where the sources are not aligned, some contents make the search report a range under a wrong name. */
  lemma MisalignedIsUntruthful(raw: RawMap) returns (contents: seq<Option<string>>)
    requires !Aligned(raw.sources) && raw.version == 3 && raw.mappings.Some?
    ensures var bad := raw.(sourcesContent := Some(contents));
            && ParseSourceMap(bad).Some? && FindRange(ParseSourceMap(bad).value, CLASS).Some?
            && forall found :: !TruthfulTo(bad, CLASS, found)
  {
    AlignedByCount(raw.sources);
    var k: nat :| k < |Strings(raw.sources)| && raw.sources[k].None?;
    contents := OnlyContent(|raw.sources|, k);
    var bad := raw.(sourcesContent := Some(contents));
    var m := ParseSourceMap(bad).value;
    SnippetIsFound();
    OnlyContentIsSearched(m, |raw.sources|, k, 0);
    hide Locates, IsNameOf, Selector.Needle, FindFrom, FindSelectorInContent, Strings, Mappings.Decode, SourceName;
    assert FindRange(m, CLASS) == FindFrom(m, CLASS, 0);
  }

  /** Whatever contents and selector there are, what is found is truthful about the map. */
  ghost predicate AlwaysTruthful(raw: RawMap) {
    forall contents, selector ::
      var r := raw.(sourcesContent := contents);
      ParseSourceMap(r).Some? && FindRange(ParseSourceMap(r).value, selector).Some? ==>
        TruthfulTo(r, selector, FindRange(ParseSourceMap(r).value, selector).value)
  }

  /** The exact condition, on the `sources` of a version 3 map alone. */
  lemma TruthfulExactlyIfAligned(raw: RawMap)
    requires raw.version == 3 && raw.mappings.Some?
    ensures AlwaysTruthful(raw) <==> Aligned(raw.sources)
  {
    if Aligned(raw.sources) {
      forall contents, selector |
          var r := raw.(sourcesContent := contents);
          ParseSourceMap(r).Some? && FindRange(ParseSourceMap(r).value, selector).Some?
        ensures var r := raw.(sourcesContent := contents);
                TruthfulTo(r, selector, FindRange(ParseSourceMap(r).value, selector).value)
      {
        AlignedIsTruthful(raw.(sourcesContent := contents), selector);
      }
    } else {
      var contents := MisalignedIsUntruthful(raw);
      hide ParseSourceMap, FindRange, TruthfulTo, Aligned;
      assert raw.(sourcesContent := Some(contents)).sources == raw.sources;
    }
  }

  /**
   * With a leading entry that is not a string, whatever is found in that entry's content is
   * reported under the name of the next source.
   */
  lemma MisalignedNames(name: string, content: Option<string>, foreign: string, selector: string)
    requires Selector.Needle(selector) != ""
    requires FindSelectorInContent(foreign, Selector.Needle(selector)).Some?
    ensures var raw := RawMap(3, Some(""), None, [None, Some(name)], Some([Some(foreign), content]));
            var r := FindSelectorInContent(foreign, Selector.Needle(selector)).value;
            ParseSourceMap(raw).Some? && FindRange(ParseSourceMap(raw).value, selector) == Some(ResolvedRange(name, r))
  {
    hide Selector.Needle, FindSelectorInContent, Mappings.Decode;
    var sources := [None, Some(name)];
    assert sources[1..] == [Some(name)];
    assert [Some(name)][1..] == [];
    assert Strings(sources) == [name];
  }
}
