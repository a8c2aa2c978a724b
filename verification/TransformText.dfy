/**
 * Reading a CSS `transform`: the scan for function calls, the pattern `(\w+)\s*\(([^)]*)\)` matched
 * again and again, and the composition of the calls' matrices.
 */
module TransformText {
  import opened Prelude
  import opened Geometry
  import opened Text

  // ---------------------------------------------------------------- scan

  /** The class `\w`. */
  predicate IsWordChar(c: char) {
    'a' <= c <= 'z' || 'A' <= c <= 'Z' || '0' <= c <= '9' || c == '_'
  }

  lemma WordCharsExactly(c: char)
    ensures IsWordChar(c) <==>
              c in "abcdefghijklmnopqrstuvwxyz" || c in "ABCDEFGHIJKLMNOPQRSTUVWXYZ" || c in "0123456789" || c == '_'
  {
    LowercaseExactly(c);
    UppercaseExactly(c);
    DigitExactly(c);
  }

  /** One match, with the text skipped in front of it. */
  datatype Token = Token(gap: string, name: string, space: string, args: string)

  datatype Scanned = Scanned(tokens: seq<Token>, tail: string)

  function Braced(args: string): string {
    "(" + args + ")"
  }

  function CallText(t: Token): string {
    t.name + (t.space + Braced(t.args))
  }

  function TokenText(t: Token): string {
    t.gap + CallText(t)
  }

  ghost predicate IsWord(s: string) {
    forall c :: c in s ==> IsWordChar(c)
  }

  /** What the pattern matches. */
  ghost predicate IsMatch(t: Token) {
    t.name != "" && IsWord(t.name) && Blank(t.space) && ')' !in t.args
  }

  function WordRun(s: string): (n: nat)
    ensures n <= |s|
  {
    if s == [] || !IsWordChar(s[0]) then 0 else 1 + WordRun(s[1..])
  }

  function SpaceRun(s: string): (n: nat)
    ensures n <= |s|
  {
    if s == [] || !IsSpace(s[0]) then 0 else 1 + SpaceRun(s[1..])
  }

  /** What `\(([^)]*)\)` captures at the start of `s`. */
  function ArgsAt(s: string): Option<string> {
    if s == "" || s[0] != '(' then None
    else
      var close := FirstIndex(s[1..], ')');
      if close == |s[1..]| then None else Some(s[1..][..close])
  }

  /** The match that starts at the first character, if any: giving back characters of a run never helps. */
  function CallAt(s: string): Option<Token> {
    var n := WordRun(s);
    var k := SpaceRun(s[n..]);
    if n == 0 then None
    else
      match ArgsAt(s[n..][k..])
      case None => None
      case Some(args) => Some(Token("", s[..n], s[n..][..k], args))
  }

  /** The leftmost match. */
  function FindCall(s: string): (t: Option<Token>)
    ensures t.Some? ==> 0 < |TokenText(t.value)| <= |s|
  {
    if CallAt(s).Some? then
      CallIsPrefix(s);
      CallAt(s)
    else if s == [] then None
    else
      match FindCall(s[1..])
      case None => None
      case Some(t) => Some(t.(gap := [s[0]] + t.gap))
  }

  function Scan(s: string): Scanned
    decreases |s|
  {
    match FindCall(s)
    case None => Scanned([], s)
    case Some(t) =>
      var rest := Scan(s[|TokenText(t)|..]);
      Scanned([t] + rest.tokens, rest.tail)
  }

  function TextOf(tokens: seq<Token>): string {
    if tokens == [] then "" else TokenText(tokens[0]) + TextOf(tokens[1..])
  }

  // ---------------------------------------------------------------- the scan loses nothing

  lemma {:induction false} WordRunIsWord(s: string)
    ensures IsWord(s[..WordRun(s)])
  {
    if s != [] && IsWordChar(s[0]) {
      WordRunIsWord(s[1..]);
      assert s[..WordRun(s)] == [s[0]] + s[1..][..WordRun(s[1..])];
    }
  }

  lemma {:induction false} SpaceRunIsBlank(s: string)
    ensures Blank(s[..SpaceRun(s)])
  {
    if s != [] && IsSpace(s[0]) {
      SpaceRunIsBlank(s[1..]);
      assert s[..SpaceRun(s)] == [s[0]] + s[1..][..SpaceRun(s[1..])];
    }
  }

  lemma ArgsArePrefix(s: string)
    requires ArgsAt(s).Some?
    ensures ')' !in ArgsAt(s).value && Braced(ArgsAt(s).value) <= s
  {
    var close := FirstIndex(s[1..], ')');
    assert Braced(ArgsAt(s).value) == s[..close + 2];
  }

  lemma PrefixAfter(s: string, n: nat, t: string)
    requires n <= |s| && t <= s[n..]
    ensures s[..n] + t <= s
  {
    assert s == s[..n] + s[n..];
  }

  lemma CallIsPrefix(s: string)
    requires CallAt(s).Some?
    ensures IsMatch(CallAt(s).value) && CallAt(s).value.gap == ""
    ensures TokenText(CallAt(s).value) == CallText(CallAt(s).value) <= s && CallText(CallAt(s).value) != ""
  {
    var n := WordRun(s);
    var k := SpaceRun(s[n..]);
    WordRunIsWord(s);
    SpaceRunIsBlank(s[n..]);
    ArgsArePrefix(s[n..][k..]);
    hide WordRun, SpaceRun, ArgsAt, Braced;
    var t := CallAt(s).value;
    PrefixAfter(s[n..], k, Braced(t.args));
    PrefixAfter(s, n, t.space + Braced(t.args));
    assert "" + CallText(t) == CallText(t);
  }

  /** No match starts at any of the first `n` characters. */
  predicate NoCallWithin(s: string, n: nat)
    requires n <= |s|
  {
    n == 0 || (CallAt(s).None? && NoCallWithin(s[1..], n - 1))
  }

  /** `found` is the leftmost match in `s`, if there is one. */
  ghost predicate IsLeftmost(s: string, found: Option<Token>) {
    match found
    case None => NoCallWithin(s, |s|)
    case Some(t) => TokenText(t) <= s && IsMatch(t) && NoCallWithin(s, |t.gap|)
  }

  lemma {:induction false} FindCallIsLeftmost(s: string)
    ensures IsLeftmost(s, FindCall(s))
  {
    if CallAt(s).Some? {
      CallIsPrefix(s);
    } else if s != [] {
      hide CallAt, IsLeftmost;
      FindCallIsLeftmost(s[1..]);
      LeftmostAfterSkip(s);
    } else {
      assert NoCallWithin(s, 0);
    }
  }

  lemma LeftmostAfterSkip(s: string)
    requires s != [] && CallAt(s).None? && IsLeftmost(s[1..], FindCall(s[1..]))
    ensures IsLeftmost(s, FindCall(s))
  {
    hide CallAt;
    if FindCall(s[1..]).Some? {
      var t := FindCall(s[1..]).value;
      hide FindCall;
      TextAfterSkip(s[0], t);
      PrefixAfter(s, 1, TokenText(t));
      assert s[..1] == [s[0]];
      hide TokenText, IsMatch;
    }
  }

  lemma TextAfterSkip(c: char, t: Token)
    ensures var u := t.(gap := [c] + t.gap);
            TokenText(u) == [c] + TokenText(t) && (IsMatch(u) <==> IsMatch(t)) && |u.gap| == |t.gap| + 1
  {
  }

  /** The scan cuts the string into skipped text, calls and a tail without a call, and loses nothing. */
  lemma {:induction false} ScanIsExact(s: string)
    ensures TextOf(Scan(s).tokens) + Scan(s).tail == s
    ensures forall t :: t in Scan(s).tokens ==> IsMatch(t)
    ensures FindCall(Scan(s).tail).None?
    decreases |s|
  {
    FindCallIsLeftmost(s);
    hide FindCall, IsMatch, TokenText, NoCallWithin;
    if FindCall(s).Some? {
      var t := FindCall(s).value;
      var rest := s[|TokenText(t)|..];
      ScanIsExact(rest);
      TextOfCons(t, Scan(rest).tokens, Scan(rest).tail);
      assert s == TokenText(t) + rest;
    }
  }

  lemma TextOfCons(t: Token, tokens: seq<Token>, tail: string)
    ensures TextOf([t] + tokens) + tail == TokenText(t) + (TextOf(tokens) + tail)
  {
    assert ([t] + tokens)[1..] == tokens;
  }

  // ---------------------------------------------------------------- lists of calls

  /** How many arguments a function is given at most. */
  predicate Takes(name: string, n: nat) {
    if name == "translate" || name == "scale" then n <= 2
    else if name == "matrix" then n <= 6
    else if name == "matrix3d" then n <= 16
    else n <= 1
  }

  /**
   * Arguments as they are meant to be: no bracket opens within, none is blank between commas, and
   * there are no more than the function takes. A call may have none at all.
   */
  ghost predicate IsArgumentList(name: string, args: string) {
    && '(' !in args
    && (Blank(args) || forall piece :: piece in Split(args, ',') ==> !Blank(piece))
    && Takes(name, |Split(args, ',')|)
  }

  ghost predicate IsCall(t: Token) {
    IsMatch(t) && IsArgumentList(t.name, t.args)
  }

  /** Calls with nothing but white space in front of each, and a blank tail. */
  ghost predicate Spells(tokens: seq<Token>, tail: string, s: string) {
    && (forall t :: t in tokens ==> IsCall(t) && Blank(t.gap))
    && Blank(tail)
    && s == TextOf(tokens) + tail
  }

  ghost predicate IsCallList(s: string) {
    exists tokens, tail :: Spells(tokens, tail, s)
  }

  lemma {:induction false} WordRunOf(word: string, rest: string)
    requires IsWord(word) && (rest == "" || !IsWordChar(rest[0]))
    ensures WordRun(word + rest) == |word|
  {
    if word != "" {
      assert (word + rest)[1..] == word[1..] + rest;
      WordRunOf(word[1..], rest);
    } else {
      assert word + rest == rest;
    }
  }

  lemma {:induction false} SpaceRunOf(space: string, rest: string)
    requires Blank(space) && (rest == "" || !IsSpace(rest[0]))
    ensures SpaceRun(space + rest) == |space|
  {
    if space != "" {
      assert (space + rest)[1..] == space[1..] + rest;
      SpaceRunOf(space[1..], rest);
    } else {
      assert space + rest == rest;
    }
  }

  lemma ArgsOf(args: string, rest: string)
    requires ')' !in args
    ensures ArgsAt(Braced(args) + rest) == Some(args)
  {
    var s := Braced(args) + rest;
    assert s[1..] == args + ([')'] + rest);
    FirstIndexOf(args, ')', rest);
  }

  lemma NoWordAfter(space: string, inner: string)
    requires Blank(space) && inner != "" && !IsWordChar(inner[0])
    ensures space + inner != "" && !IsWordChar((space + inner)[0])
  {
    if space != "" {
      assert (space + inner)[0] == space[0] && space[0] in space;
    }
  }

  /** A call is matched where it stands, whatever follows. */
  lemma CallIsMatched(t: Token, rest: string)
    requires IsMatch(t)
    ensures CallAt(CallText(t) + rest) == Some(t.(gap := ""))
  {
    var s := CallText(t) + rest;
    var inner := Braced(t.args) + rest;
    var middle := t.space + inner;
    assert inner[0] == '(';
    NoWordAfter(t.space, inner);
    WordRunOf(t.name, middle);
    SpaceRunOf(t.space, inner);
    ArgsOf(t.args, rest);
    hide WordRun, SpaceRun, ArgsAt, Braced, IsMatch;
    assert s == t.name + middle;
    assert s[|t.name|..] == middle && middle[|t.space|..] == inner;
  }

  /** The leftmost match is the first after text in which none starts. */
  lemma {:induction false} FoundAfter(gap: string, at: string, t: Token)
    requires CallAt(at) == Some(t.(gap := "")) && NoCallWithin(gap + at, |gap|)
    ensures FindCall(gap + at) == Some(t.(gap := gap))
  {
    hide CallAt;
    if gap == "" {
      assert gap + at == at;
    } else {
      assert (gap + at)[1..] == gap[1..] + at;
      FoundAfter(gap[1..], at, t);
      assert [(gap + at)[0]] + gap[1..] == gap;
    }
  }

  lemma NoCallAtNonWord(s: string)
    requires s == "" || !IsWordChar(s[0])
    ensures CallAt(s).None?
  {
  }

  lemma {:induction false} NoCallInBlank(gap: string, rest: string)
    requires Blank(gap)
    ensures NoCallWithin(gap + rest, |gap|)
  {
    if gap != "" {
      assert (gap + rest)[1..] == gap[1..] + rest;
      NoCallInBlank(gap[1..], rest);
      assert (gap + rest)[0] == gap[0] && gap[0] in gap;
      NoCallAtNonWord(gap + rest);
      hide CallAt;
    }
  }

  lemma {:induction false} NothingFound(s: string)
    requires NoCallWithin(s, |s|)
    ensures FindCall(s).None?
  {
    if s != "" {
      hide CallAt;
      NothingFound(s[1..]);
    }
  }

  lemma FirstIsFound(t: Token, rest: string)
    requires IsMatch(t) && Blank(t.gap)
    ensures FindCall(TokenText(t) + rest) == Some(t)
  {
    NoCallInBlank(t.gap, CallText(t) + rest);
    CallIsMatched(t, rest);
    FoundAfter(t.gap, CallText(t) + rest, t);
    Regroup(t.gap, CallText(t), rest);
    hide CallAt, CallText, FindCall, NoCallWithin;
  }

  /** Scanning a list of calls finds exactly its calls. */
  lemma {:induction false} ScanOfCallList(tokens: seq<Token>, tail: string)
    requires Spells(tokens, tail, TextOf(tokens) + tail)
    ensures Scan(TextOf(tokens) + tail) == Scanned(tokens, tail)
  {
    if tokens == [] {
      assert TextOf(tokens) + tail == tail && tail + "" == tail;
      NoCallInBlank(tail, "");
      NothingFound(tail);
    } else {
      var (t, more) := (tokens[0], tokens[1..]);
      var rest := TextOf(more) + tail;
      assert [t] + more == tokens;
      ScanOfCallList(more, tail);
      assert IsCall(t);
      FirstIsFound(t, rest);
      TextOfCons(t, more, tail);
      hide TokenText, FindCall, IsMatch, TextOf;
      assert (TokenText(t) + rest)[|TokenText(t)|..] == rest;
    }
  }

  ghost predicate GapsAreBlank(tokens: seq<Token>) {
    forall t :: t in tokens ==> Blank(t.gap)
  }

  ghost predicate ArgumentsAreLists(tokens: seq<Token>) {
    forall t :: t in tokens ==> IsArgumentList(t.name, t.args)
  }

  /** A string is a list of calls exactly when the scan skips nothing but white space and finds proper arguments. */
  lemma CallListExactly(s: string)
    ensures IsCallList(s) <==> GapsAreBlank(Scan(s).tokens) && Blank(Scan(s).tail) && ArgumentsAreLists(Scan(s).tokens)
  {
    ScanIsExact(s);
    hide Scan, TextOf, FindCall, IsMatch, IsArgumentList;
    if tokens, tail :| Spells(tokens, tail, s) {
      ScanOfCallList(tokens, tail);
    }
    if GapsAreBlank(Scan(s).tokens) && Blank(Scan(s).tail) && ArgumentsAreLists(Scan(s).tokens) {
      assert Spells(Scan(s).tokens, Scan(s).tail, s);
    }
  }

  /** Trimming the whole string does not matter. */
  lemma CallListOfTrimmed(s: string)
    ensures IsCallList(Trim(s)) <==> IsCallList(s)
  {
    var lead, trail := TrimExactly(s);
    if tokens, tail :| Spells(tokens, tail, Trim(s)) {
      Widened(tokens, tail, lead, trail);
    }
    if tokens, tail :| Spells(tokens, tail, s) {
      Narrowed(tokens, tail);
    }
  }

  lemma GapMoves(t: Token, lead: string)
    ensures var u := t.(gap := lead + t.gap);
            TokenText(u) == lead + TokenText(t) && (IsCall(u) <==> IsCall(t))
    ensures TokenText(t.(gap := "")) == CallText(t) && (IsCall(t.(gap := "")) <==> IsCall(t))
  {
    hide IsArgumentList;
    Regroup(lead, t.gap, CallText(t));
  }

  lemma BlankJoin(a: string, b: string)
    requires Blank(a) && Blank(b)
    ensures Blank(a + b)
  {
  }

  lemma Widened(tokens: seq<Token>, tail: string, lead: string, trail: string)
    requires Spells(tokens, tail, TextOf(tokens) + tail) && Blank(lead) && Blank(trail)
    ensures IsCallList(lead + (TextOf(tokens) + tail) + trail)
  {
    var s := lead + (TextOf(tokens) + tail) + trail;
    if tokens == [] {
      assert lead + tail + trail == s;
      assert Spells([], lead + tail + trail, s);
    } else {
      var (t, more) := (tokens[0], tokens[1..]);
      var u := t.(gap := lead + t.gap);
      assert [t] + more == tokens;
      TextOfCons(t, more, tail);
      GapMoves(t, lead);
      BlankJoin(lead, t.gap);
      BlankJoin(tail, trail);
      hide IsCall, TokenText, TextOf, Blank;
      CallListOf(u, more, tail + trail);
      Reframed(lead, TokenText(t), TextOf(more), tail, trail);
    }
  }

  lemma CallListOf(u: Token, more: seq<Token>, tail: string)
    requires IsCall(u) && Blank(u.gap) && Blank(tail)
    requires forall t :: t in more ==> IsCall(t) && Blank(t.gap)
    ensures IsCallList(TokenText(u) + (TextOf(more) + tail))
  {
    TextOfCons(u, more, tail);
    hide IsCall, TokenText, TextOf, Blank;
    assert Spells([u] + more, tail, TokenText(u) + (TextOf(more) + tail));
  }

  lemma Reframed(lead: string, a: string, b: string, tail: string, trail: string)
    ensures lead + (a + (b + tail)) + trail == (lead + a) + (b + (tail + trail))
  {
    Regroup(lead, a, b + tail);
    Regroup(lead + a, b + tail, trail);
    Regroup(b, tail, trail);
  }

  lemma Narrowed(tokens: seq<Token>, tail: string)
    requires Spells(tokens, tail, TextOf(tokens) + tail)
    ensures IsCallList(Trim(TextOf(tokens) + tail))
  {
    if tokens == [] {
      assert TextOf(tokens) + tail == tail;
      TrimOfBlank(tail);
      assert Spells([], "", "");
    } else {
      var (t, more) := (tokens[0], tokens[1..]);
      assert [t] + more == tokens;
      assert forall x :: x in more ==> x in tokens;
      NarrowedCalls(t, more, tail);
    }
  }

  lemma NarrowedCalls(t: Token, more: seq<Token>, tail: string)
    requires IsCall(t) && Blank(t.gap) && Blank(tail)
    requires forall x :: x in more ==> IsCall(x) && Blank(x.gap)
    ensures IsCallList(Trim(TextOf([t] + more) + tail))
  {
    hide IsArgumentList, Trim;
    var u := t.(gap := "");
    GapMoves(t, "");
    TextOfCons(t, more, tail);
    TextOfCons(u, more, "");
    CoreEnds(u, more);
    CallListOf(u, more, "");
    var core := TextOf([u] + more) + "";
    hide IsCall, TextOf, CallText, Blank;
    assert TokenText(t) == t.gap + TokenText(u);
    hide TokenText;
    Unframed(t.gap, TokenText(u), TextOf(more), tail);
    TrimAround(t.gap, core, tail);
  }

  lemma Unframed(gap: string, a: string, b: string, tail: string)
    ensures (gap + a) + (b + tail) == gap + (a + (b + "")) + tail
  {
    assert b + "" == b;
    Regroup(gap, a, b + tail);
    Regroup(gap, a + b, tail);
    Regroup(a, b, tail);
  }

  /** A list of calls that starts with one and has no tail starts with a word character and ends with ')'. */
  lemma {:induction false} CoreEnds(u: Token, more: seq<Token>)
    requires IsMatch(u) && u.gap == ""
    ensures var core := TextOf([u] + more) + "";
            core != "" && !IsSpace(core[0]) && !IsSpace(core[|core| - 1])
  {
    TextOfCons(u, more, "");
    assert CallText(u)[0] == u.name[0] && u.name[0] in u.name;
    assert TokenText(u) == CallText(u);
    LastCloses([u] + more);
  }

  lemma {:induction false} LastCloses(tokens: seq<Token>)
    requires tokens != []
    ensures TextOf(tokens) != "" && TextOf(tokens)[|TextOf(tokens)| - 1] == ')'
  {
    var t := tokens[0];
    var text := TokenText(t);
    assert CallText(t)[|CallText(t)| - 1] == ')';
    assert text[|text| - 1] == ')';
    if |tokens| > 1 {
      LastCloses(tokens[1..]);
    } else {
      assert tokens[1..] == [];
    }
  }

  // ---------------------------------------------------------------- matrices

  predicate EndsWith(s: string, suffix: string) {
    |suffix| <= |s| && s[|s| - |suffix|..] == suffix
  }

  /** What reading a number gives. */
  datatype Number = Finite(value: real) | Infinite | NotANumber {
    function Negated(): Number {
      if Finite? then Finite(-value) else this
    }

    /** The product with a positive factor. */
    function Times(factor: real): Number {
      if Finite? then Finite(value * factor) else this
    }
  }

  /** How `parseFloat` reads text, and what the mathematical library knows. */
  datatype Reader = Reader(parseFloat: string -> Number, cos: real -> real, sin: real -> real, pi: real) {
    function Length(raw: string): Number {
      var text := Trim(raw);
      if EndsWith(text, "px") then parseFloat(text[..|text| - 2]) else parseFloat(text)
    }

    function Scalar(raw: string): Number {
      parseFloat(Trim(raw))
    }

    /** An angle in radians. */
    function Angle(raw: string): Number {
      var text := Trim(raw);
      if EndsWith(text, "deg") then parseFloat(text[..|text| - 3]).Times(pi / 180.0)
      else if EndsWith(text, "rad") then parseFloat(text[..|text| - 3])
      else if EndsWith(text, "grad") then parseFloat(text[..|text| - 4]).Times(pi / 200.0)
      else if EndsWith(text, "turn") then parseFloat(text[..|text| - 4]).Times(2.0 * pi)
      else parseFloat(text).Times(pi / 180.0)
    }

    function Cosine(angle: Number): Number {
      if angle.Finite? then Finite(cos(angle.value)) else NotANumber
    }

    function Sine(angle: Number): Number {
      if angle.Finite? then Finite(sin(angle.value)) else NotANumber
    }
  }

  datatype TransformError = Malformed | Unsupported(name: string)

  /**
   * A matrix of numbers, or `None` for one with an entry that is not finite. Such an entry makes
   * every product with the matrix have one: it stays not finite under any factor, zero included,
   * and in any sum.
   */
  type Numbers = Option<Matrix>

  function Entries(a: Number, b: Number, c: Number, d: Number, e: Number, f: Number): Numbers {
    if a.Finite? && b.Finite? && c.Finite? && d.Finite? && e.Finite? && f.Finite?
    then Some(Matrix(a.value, b.value, c.value, d.value, e.value, f.value)) else None
  }

  function Product(m: Numbers, n: Numbers): Numbers {
    if m.Some? && n.Some? then Some(Multiply(m.value, n.value)) else None
  }

  function TrimmedNonEmpty(parts: seq<string>): seq<string> {
    if parts == [] then []
    else (if Trim(parts[0]) != "" then [Trim(parts[0])] else []) + TrimmedNonEmpty(parts[1..])
  }

  function SplitArgs(args: string): seq<string> {
    TrimmedNonEmpty(Split(args, ','))
  }

  function Read(read: string -> Number, args: seq<string>, i: nat, default: Number): Number {
    if i < |args| then read(args[i]) else default
  }

  const ZERO := Finite(0.0)
  const ONE := Finite(1.0)

  /** Comparing something that is not a number with the tolerance is false. */
  predicate ExceedsTolerance(n: Number) {
    n.Infinite? || (n.Finite? && Abs(n.value) > TOLERANCE)
  }

  function FunctionMatrix(r: Reader, name: string, rawArgs: string): Result<Numbers, TransformError> {
    var args := SplitArgs(rawArgs);
    if name == "translate" then Ok(Entries(ONE, ZERO, ZERO, ONE, Read(r.Length, args, 0, ZERO), Read(r.Length, args, 1, ZERO)))
    else if name == "translateX" then Ok(Entries(ONE, ZERO, ZERO, ONE, Read(r.Length, args, 0, ZERO), ZERO))
    else if name == "translateY" then Ok(Entries(ONE, ZERO, ZERO, ONE, ZERO, Read(r.Length, args, 0, ZERO)))
    else if name == "scale" then
      var sx := Read(r.Scalar, args, 0, ONE);
      Ok(Entries(sx, ZERO, ZERO, Read(r.Scalar, args, 1, sx), ZERO, ZERO))
    else if name == "scaleX" then Ok(Entries(Read(r.Scalar, args, 0, ONE), ZERO, ZERO, ONE, ZERO, ZERO))
    else if name == "scaleY" then Ok(Entries(ONE, ZERO, ZERO, Read(r.Scalar, args, 0, ONE), ZERO, ZERO))
    else if name == "rotate" then
      var angle := Read(r.Angle, args, 0, ZERO);
      Ok(Entries(r.Cosine(angle), r.Sine(angle), r.Sine(angle).Negated(), r.Cosine(angle), ZERO, ZERO))
    else if name == "matrix" then
      if |args| != 6 then Err(Malformed)
      else
        Ok(Entries(r.Scalar(args[0]), r.Scalar(args[1]), r.Scalar(args[2]), r.Scalar(args[3]), r.Scalar(args[4]), r.Scalar(args[5])))
    else if name == "matrix3d" then
      if |args| != 16 then Err(Malformed)
      else if ExceedsTolerance(r.Scalar(args[14])) then Err(Unsupported("matrix3d with 3D translation"))
      else
        Ok(Entries(r.Scalar(args[0]), r.Scalar(args[1]), r.Scalar(args[4]), r.Scalar(args[5]), r.Scalar(args[12]), r.Scalar(args[13])))
    else Err(Unsupported(name))
  }

  function MatrixOf(r: Reader, t: Token): Result<Numbers, TransformError> {
    FunctionMatrix(r, t.name, t.args)
  }

  /** The first call that is refused, if any. */
  function FirstError(r: Reader, tokens: seq<Token>): Option<TransformError> {
    if tokens == [] then None
    else
      match MatrixOf(r, tokens[0])
      case Err(e) => Some(e)
      case Ok(_) => FirstError(r, tokens[1..])
  }

  /** Every call gives a matrix of numbers. */
  predicate AreNumbers(r: Reader, tokens: seq<Token>) {
    tokens == [] || (MatrixOf(r, tokens[0]).Ok? && MatrixOf(r, tokens[0]).value.Some? && AreNumbers(r, tokens[1..]))
  }

  /** Applying the calls one after the other, the last one first, as nested coordinate systems do. */
  function ApplyCalls(r: Reader, tokens: seq<Token>, p: Point): Point
    requires AreNumbers(r, tokens)
  {
    if tokens == [] then p else ApplyToPoint(MatrixOf(r, tokens[0]).value.value, ApplyCalls(r, tokens[1..], p))
  }

  /** `m` acts as the calls, if they give numbers, and otherwise is no matrix of numbers either. */
  ghost predicate Acts(r: Reader, m: Numbers, tokens: seq<Token>) {
    && (m.Some? <==> AreNumbers(r, tokens))
    && (m.Some? ==> forall p :: ApplyToPoint(m.value, p) == ApplyCalls(r, tokens, p))
  }

  /** `m` with what is still to come acts as all the calls. */
  ghost predicate ActsBefore(r: Reader, m: Numbers, rest: seq<Token>, tokens: seq<Token>) {
    && (m.Some? && AreNumbers(r, rest) <==> AreNumbers(r, tokens))
    && (AreNumbers(r, tokens) ==> forall p :: ApplyToPoint(m.value, ApplyCalls(r, rest, p)) == ApplyCalls(r, tokens, p))
  }

  lemma NextCall(r: Reader, m: Numbers, rest: seq<Token>, tokens: seq<Token>)
    requires rest != [] && MatrixOf(r, rest[0]).Ok? && ActsBefore(r, m, rest, tokens)
    ensures ActsBefore(r, Product(m, MatrixOf(r, rest[0]).value), rest[1..], tokens)
  {
    hide ApplyToPoint, Multiply, MatrixOf;
    var n := MatrixOf(r, rest[0]).value;
    assert AreNumbers(r, rest) <==> n.Some? && AreNumbers(r, rest[1..]);
    if AreNumbers(r, tokens) {
      forall p
        ensures ApplyToPoint(Multiply(m.value, n.value), ApplyCalls(r, rest[1..], p)) == ApplyCalls(r, tokens, p)
      {
        ApplyOfMultiply(m.value, n.value, ApplyCalls(r, rest[1..], p));
        assert ApplyToPoint(m.value, ApplyCalls(r, rest, p)) == ApplyCalls(r, tokens, p);
      }
    }
  }

  lemma IdentityActs(r: Reader, tokens: seq<Token>)
    ensures ActsBefore(r, Some(IDENTITY), tokens, tokens)
  {
    hide MatrixOf;
  }

  lemma NothingLeft(r: Reader, m: Numbers, tokens: seq<Token>)
    requires ActsBefore(r, m, [], tokens)
    ensures Acts(r, m, tokens)
  {
    hide ApplyToPoint, MatrixOf;
    if m.Some? {
      forall p
        ensures ApplyToPoint(m.value, p) == ApplyCalls(r, tokens, p)
      {
        assert ApplyCalls(r, [], p) == p;
      }
    }
  }

  /**
   * The first refused call is reported, or a tail that is not white space. Otherwise the composed
   * matrix has an entry that is not a finite number exactly if one of the calls' matrices has, and
   * else acts as the calls one after the other. Skipped text is not looked at.
   */
  method FromString(transformStr: string, r: Reader) returns (result: Result<Numbers, TransformError>)
    ensures var p := Scan(Trim(transformStr));
            match FirstError(r, p.tokens)
            case Some(e) => result == Err(e)
            case None => if Blank(p.tail) then result.Ok? && Acts(r, result.value, p.tokens) else result == Err(Malformed)
  {
    hide FunctionMatrix, FindCall, Product, Trim, ActsBefore, Acts, MatrixOf;
    var trimmed := Trim(transformStr);
    ghost var whole := Scan(trimmed);
    IdentityActs(r, whole.tokens);
    if |trimmed| == 0 {
      assert FindCall("").None? by { NothingFound(""); }
      NothingLeft(r, Some(IDENTITY), []);
      return Ok(Some(IDENTITY));
    }
    var m := Some(IDENTITY);
    var rest := trimmed;
    var found := FindCall(rest);
    while found.Some?
      invariant found == FindCall(rest)
      invariant Scan(rest).tail == whole.tail
      invariant FirstError(r, Scan(rest).tokens) == FirstError(r, whole.tokens)
      invariant ActsBefore(r, m, Scan(rest).tokens, whole.tokens)
      decreases |rest|
    {
      var t := found.value;
      ghost var now := Scan(rest).tokens;
      rest := rest[|TokenText(t)|..];
      assert now == [t] + Scan(rest).tokens && now[1..] == Scan(rest).tokens;
      var n := FunctionMatrix(r, t.name, t.args);
      assert n == MatrixOf(r, t) by { MatrixOfIs(r, t); }
      if n.Err? {
        return Err(n.error);
      }
      NextCall(r, m, now, whole.tokens);
      m := Product(m, n.value);
      found := FindCall(rest);
    }
    assert Scan(rest) == Scanned([], rest);
    TrimOfBlank(rest);
    if |Trim(rest)| > 0 {
      return Err(Malformed);
    }
    NothingLeft(r, m, whole.tokens);
    return Ok(m);
  }

  lemma MatrixOfIs(r: Reader, t: Token)
    ensures MatrixOf(r, t) == FunctionMatrix(r, t.name, t.args)
  {
  }

  // ---------------------------------------------------------------- what each call does, described

  /** `args` are the trimmed pieces between the commas, in order, without the blank ones. */
  ghost predicate AreArguments(args: seq<string>, raw: string) {
    exists at :: AreTrimmed(at, args, Split(raw, ','))
  }

  /** What is left of `s` without the white space around it, if anything. */
  ghost predicate IsTrimmed(part: string, s: string) {
    && part != "" && !IsSpace(part[0]) && !IsSpace(part[|part| - 1])
    && exists lead, trail :: Blank(lead) && Blank(trail) && s == lead + part + trail
  }

  lemma TrimmedExactly(s: string)
    ensures Blank(s) <==> Trim(s) == ""
    ensures !Blank(s) ==> IsTrimmed(Trim(s), s)
  {
    var lead, trail := TrimExactly(s);
    TrimOfBlank(s);
    TrimmedEnds(s);
    hide Trim, Blank;
  }

  lemma {:induction false} TrimmedNext(pieces: seq<string>, piece: string)
    ensures TrimmedNonEmpty(pieces + [piece]) == TrimmedNonEmpty(pieces) + if Trim(piece) != "" then [Trim(piece)] else []
  {
    hide Trim;
    if pieces == [] {
      assert pieces + [piece] == [piece] && [piece][1..] == [];
    } else {
      assert (pieces + [piece])[1..] == pieces[1..] + [piece];
      TrimmedNext(pieces[1..], piece);
      Regroup(if Trim(pieces[0]) != "" then [Trim(pieces[0])] else [], TrimmedNonEmpty(pieces[1..]),
              if Trim(piece) != "" then [Trim(piece)] else []);
    }
  }

  /** The places of the arguments among the pieces. */
  ghost predicate AreTrimmed(at: seq<nat>, args: seq<string>, pieces: seq<string>) {
    && |at| == |args|
    && (forall i, k :: 0 <= i < k < |at| ==> at[i] < at[k])
    && (forall i :: 0 <= i < |at| ==> at[i] < |pieces| && IsTrimmed(args[i], pieces[at[i]]))
    && (forall k :: 0 <= k < |pieces| && !Blank(pieces[k]) ==> k in at)
  }

  lemma OneMorePiece(at: seq<nat>, args: seq<string>, pieces: seq<string>, piece: string)
    requires AreTrimmed(at, args, pieces)
    ensures Trim(piece) == "" ==> AreTrimmed(at, args, pieces + [piece])
    ensures Trim(piece) != "" ==> AreTrimmed(at + [|pieces|], args + [Trim(piece)], pieces + [piece])
  {
    TrimmedExactly(piece);
    hide IsTrimmed, Blank, Trim;
  }

  lemma {:induction false} PiecesTrimmed(pieces: seq<string>) returns (at: seq<nat>)
    ensures AreTrimmed(at, TrimmedNonEmpty(pieces), pieces)
  {
    at := [];
    if pieces != [] {
      hide IsTrimmed, Blank, Trim, AreTrimmed;
      var n := |pieces| - 1;
      var (init, last) := (pieces[..n], pieces[n]);
      assert pieces == init + [last];
      at := PiecesTrimmed(init);
      TrimmedNext(init, last);
      OneMorePiece(at, TrimmedNonEmpty(init), init, last);
      assert TrimmedNonEmpty(init) + [] == TrimmedNonEmpty(init);
      at := if Trim(last) == "" then at else at + [n];
    }
  }

  lemma SplitArgsExactly(raw: string)
    ensures AreArguments(SplitArgs(raw), raw)
  {
    var at := PiecesTrimmed(Split(raw, ','));
    hide AreTrimmed;
  }

  /** Argument `i` reads as the finite number `v`; without one, `v` is the default. */
  ghost predicate Gives(read: string -> Number, args: seq<string>, i: nat, default: real, v: real) {
    if i < |args| then read(args[i]) == Finite(v) else v == default
  }

  /** The point moves by (x, y). */
  ghost predicate Shifts(x: real, y: real, p: Point, q: Point) {
    q.x == p.x + x && q.y == p.y + y
  }

  /** The point's coordinates are multiplied. */
  ghost predicate Stretches(x: real, y: real, p: Point, q: Point) {
    q.x == p.x * x && q.y == p.y * y
  }

  /** (1, 0) goes to (cos, sin), and (0, 1) a right angle further. */
  ghost predicate Turns(r: Reader, angle: real, p: Point, q: Point) {
    q.x == p.x * r.cos(angle) - p.y * r.sin(angle) && q.y == p.x * r.sin(angle) + p.y * r.cos(angle)
  }

  ghost predicate Translates(r: Reader, args: seq<string>, p: Point, q: Point) {
    exists x, y :: Gives(r.Length, args, 0, 0.0, x) && Gives(r.Length, args, 1, 0.0, y) && Shifts(x, y, p, q)
  }

  /** One argument serves both coordinates. */
  ghost predicate Scales(r: Reader, args: seq<string>, p: Point, q: Point) {
    exists x, y :: Gives(r.Scalar, args, 0, 1.0, x) && Gives(r.Scalar, args, 1, x, y) && Stretches(x, y, p, q)
  }

  /** The call moves the point `p` to `q`. */
  ghost predicate Sends(r: Reader, name: string, args: seq<string>, p: Point, q: Point) {
    if name == "translate" then Translates(r, args, p, q)
    else if name == "translateX" then exists x :: Gives(r.Length, args, 0, 0.0, x) && Shifts(x, 0.0, p, q)
    else if name == "translateY" then exists y :: Gives(r.Length, args, 0, 0.0, y) && Shifts(0.0, y, p, q)
    else if name == "scale" then Scales(r, args, p, q)
    else if name == "scaleX" then exists x :: Gives(r.Scalar, args, 0, 1.0, x) && Stretches(x, 1.0, p, q)
    else if name == "scaleY" then exists y :: Gives(r.Scalar, args, 0, 1.0, y) && Stretches(1.0, y, p, q)
    else if name == "rotate" then exists angle :: Gives(r.Angle, args, 0, 0.0, angle) && Turns(r, angle, p, q)
    else if name == "matrix" then
      |args| == 6 && Maps(r, args[0], args[1], args[2], args[3], args[4], args[5], p, q)
    else
      && name == "matrix3d" && |args| == 16 && !IsDeep(r, args[14])
      && Maps(r, args[0], args[1], args[4], args[5], args[12], args[13], p, q)
  }

  /** The unit points go to (a, b) and (c, d), moved with the origin to (e, f). */
  ghost predicate Maps(r: Reader, a: string, b: string, c: string, d: string, e: string, f: string, p: Point, q: Point) {
    exists va, vb, vc, vd, ve, vf ::
      && r.Scalar(a) == Finite(va) && r.Scalar(b) == Finite(vb) && r.Scalar(c) == Finite(vc)
      && r.Scalar(d) == Finite(vd) && r.Scalar(e) == Finite(ve) && r.Scalar(f) == Finite(vf)
      && MapsBy(va, vb, vc, vd, ve, vf, p, q)
  }

  ghost predicate MapsBy(a: real, b: real, c: real, d: real, e: real, f: real, p: Point, q: Point) {
    q.x == a * p.x + c * p.y + e && q.y == b * p.x + d * p.y + f
  }

  /** A translation along z further than a rounding error. */
  ghost predicate IsDeep(r: Reader, z: string) {
    || r.Scalar(z) == Infinite
    || exists v :: r.Scalar(z) == Finite(v) && (v > 0.000000000001 || v < -0.000000000001)
  }

  ghost predicate IsKnown(name: string) {
    || name == "translate" || name == "translateX" || name == "translateY"
    || name == "scale" || name == "scaleX" || name == "scaleY"
    || name == "rotate" || name == "matrix" || name == "matrix3d"
  }

  /** The call is refused with this error. */
  ghost predicate Refuses(r: Reader, name: string, args: seq<string>, e: TransformError) {
    || (e == Malformed && ((name == "matrix" && |args| != 6) || (name == "matrix3d" && |args| != 16)))
    || (e == Unsupported("matrix3d with 3D translation") && name == "matrix3d" && |args| == 16 && IsDeep(r, args[14]))
    || (e == Unsupported(name) && !IsKnown(name))
  }

  lemma CallIsRefusedExactly(r: Reader, t: Token, e: TransformError)
    ensures MatrixOf(r, t) == Err(e) <==> Refuses(r, t.name, SplitArgs(t.args), e)
  {
    hide SplitArgs, Entries;
  }

  /** The matrix of six numbers, if all are finite, sends `p` to `q`. */
  ghost predicate MovesTo(m: Numbers, p: Point, q: Point) {
    m.Some? && ApplyToPoint(m.value, p) == q
  }

  lemma ShiftEntries(x: Number, y: Number, p: Point, q: Point)
    ensures MovesTo(Entries(ONE, ZERO, ZERO, ONE, x, y), p, q) <==> x.Finite? && y.Finite? && Shifts(x.value, y.value, p, q)
  {
  }

  lemma StretchEntries(x: Number, y: Number, p: Point, q: Point)
    ensures MovesTo(Entries(x, ZERO, ZERO, y, ZERO, ZERO), p, q) <==> x.Finite? && y.Finite? && Stretches(x.value, y.value, p, q)
  {
    assert x.Finite? ==> x.value * p.x == p.x * x.value;
    assert y.Finite? ==> y.value * p.y == p.y * y.value;
  }

  lemma TurnEntries(r: Reader, angle: Number, p: Point, q: Point)
    ensures MovesTo(Entries(r.Cosine(angle), r.Sine(angle), r.Sine(angle).Negated(), r.Cosine(angle), ZERO, ZERO), p, q)
       <==> angle.Finite? && Turns(r, angle.value, p, q)
  {
    if angle.Finite? {
      var (c, s) := (r.cos(angle.value), r.sin(angle.value));
      assert c * p.x == p.x * c && s * p.x == p.x * s && c * p.y == p.y * c && -s * p.y == -(p.y * s);
    }
  }

  lemma GivesExactly(read: string -> Number, args: seq<string>, i: nat, default: Number, v: real)
    requires default.Finite?
    ensures Gives(read, args, i, default.value, v) <==> Read(read, args, i, default) == Finite(v)
  {
  }

  lemma TranslateSends(r: Reader, args: seq<string>, p: Point, q: Point)
    ensures MovesTo(Entries(ONE, ZERO, ZERO, ONE, Read(r.Length, args, 0, ZERO), Read(r.Length, args, 1, ZERO)), p, q)
       <==> Translates(r, args, p, q)
  {
    var x, y := Read(r.Length, args, 0, ZERO), Read(r.Length, args, 1, ZERO);
    ShiftEntries(x, y, p, q);
    forall v
      ensures Gives(r.Length, args, 0, 0.0, v) <==> x == Finite(v)
      ensures Gives(r.Length, args, 1, 0.0, v) <==> y == Finite(v)
    {
      GivesExactly(r.Length, args, 0, ZERO, v);
      GivesExactly(r.Length, args, 1, ZERO, v);
    }
    hide Gives, Shifts, Entries, MovesTo, Read;
    if x.Finite? && y.Finite? {
      assert Gives(r.Length, args, 0, 0.0, x.value) && Gives(r.Length, args, 1, 0.0, y.value);
    }
  }

  lemma ShiftSends(r: Reader, args: seq<string>, p: Point, q: Point)
    ensures MovesTo(Entries(ONE, ZERO, ZERO, ONE, Read(r.Length, args, 0, ZERO), ZERO), p, q)
       <==> exists x :: Gives(r.Length, args, 0, 0.0, x) && Shifts(x, 0.0, p, q)
    ensures MovesTo(Entries(ONE, ZERO, ZERO, ONE, ZERO, Read(r.Length, args, 0, ZERO)), p, q)
       <==> exists y :: Gives(r.Length, args, 0, 0.0, y) && Shifts(0.0, y, p, q)
  {
    var v := Read(r.Length, args, 0, ZERO);
    ShiftEntries(v, ZERO, p, q);
    ShiftEntries(ZERO, v, p, q);
    forall x
      ensures Gives(r.Length, args, 0, 0.0, x) <==> v == Finite(x)
    {
      GivesExactly(r.Length, args, 0, ZERO, x);
    }
    hide Gives, Shifts, Entries, MovesTo, Read;
    assert v.Finite? ==> Gives(r.Length, args, 0, 0.0, v.value);
  }

  lemma ScaleSends(r: Reader, args: seq<string>, p: Point, q: Point)
    ensures var x := Read(r.Scalar, args, 0, ONE);
            MovesTo(Entries(x, ZERO, ZERO, Read(r.Scalar, args, 1, x), ZERO, ZERO), p, q) <==> Scales(r, args, p, q)
  {
    var x := Read(r.Scalar, args, 0, ONE);
    var y := Read(r.Scalar, args, 1, x);
    StretchEntries(x, y, p, q);
    forall v
      ensures Gives(r.Scalar, args, 0, 1.0, v) <==> x == Finite(v)
      ensures x.Finite? ==> (Gives(r.Scalar, args, 1, x.value, v) <==> y == Finite(v))
    {
      GivesExactly(r.Scalar, args, 0, ONE, v);
      if x.Finite? {
        GivesExactly(r.Scalar, args, 1, x, v);
      }
    }
    hide Gives, Stretches, Entries, MovesTo, Read;
    if x.Finite? && y.Finite? {
      assert Gives(r.Scalar, args, 0, 1.0, x.value) && Gives(r.Scalar, args, 1, x.value, y.value);
    }
  }

  lemma StretchSends(r: Reader, args: seq<string>, p: Point, q: Point)
    ensures MovesTo(Entries(Read(r.Scalar, args, 0, ONE), ZERO, ZERO, ONE, ZERO, ZERO), p, q)
       <==> exists x :: Gives(r.Scalar, args, 0, 1.0, x) && Stretches(x, 1.0, p, q)
    ensures MovesTo(Entries(ONE, ZERO, ZERO, Read(r.Scalar, args, 0, ONE), ZERO, ZERO), p, q)
       <==> exists y :: Gives(r.Scalar, args, 0, 1.0, y) && Stretches(1.0, y, p, q)
  {
    var v := Read(r.Scalar, args, 0, ONE);
    StretchEntries(v, ONE, p, q);
    StretchEntries(ONE, v, p, q);
    forall x
      ensures Gives(r.Scalar, args, 0, 1.0, x) <==> v == Finite(x)
    {
      GivesExactly(r.Scalar, args, 0, ONE, x);
    }
    hide Gives, Stretches, Entries, MovesTo, Read;
    assert v.Finite? ==> Gives(r.Scalar, args, 0, 1.0, v.value);
  }

  lemma RotateSends(r: Reader, args: seq<string>, p: Point, q: Point)
    ensures var turn := Read(r.Angle, args, 0, ZERO);
            MovesTo(Entries(r.Cosine(turn), r.Sine(turn), r.Sine(turn).Negated(), r.Cosine(turn), ZERO, ZERO), p, q) <==>
              exists angle :: Gives(r.Angle, args, 0, 0.0, angle) && Turns(r, angle, p, q)
  {
    var angle := Read(r.Angle, args, 0, ZERO);
    TurnEntries(r, angle, p, q);
    forall x
      ensures Gives(r.Angle, args, 0, 0.0, x) <==> angle == Finite(x)
    {
      GivesExactly(r.Angle, args, 0, ZERO, x);
    }
    hide Gives, Turns, Entries, MovesTo, Read;
    assert angle.Finite? ==> Gives(r.Angle, args, 0, 0.0, angle.value);
  }

  lemma EntriesSend(a: Number, b: Number, c: Number, d: Number, e: Number, f: Number, p: Point, q: Point)
    ensures MovesTo(Entries(a, b, c, d, e, f), p, q) <==>
              && a.Finite? && b.Finite? && c.Finite? && d.Finite? && e.Finite? && f.Finite?
              && MapsBy(a.value, b.value, c.value, d.value, e.value, f.value, p, q)
  {
  }

  lemma MatrixSends(r: Reader, a: string, b: string, c: string, d: string, e: string, f: string, p: Point, q: Point)
    ensures MovesTo(Entries(r.Scalar(a), r.Scalar(b), r.Scalar(c), r.Scalar(d), r.Scalar(e), r.Scalar(f)), p, q)
       <==> Maps(r, a, b, c, d, e, f, p, q)
  {
    EntriesSend(r.Scalar(a), r.Scalar(b), r.Scalar(c), r.Scalar(d), r.Scalar(e), r.Scalar(f), p, q);
    hide Entries, MovesTo, MapsBy;
  }

  lemma DeepExactly(r: Reader, z: string)
    ensures ExceedsTolerance(r.Scalar(z)) <==> IsDeep(r, z)
  {
  }

  /** Where a call moves each point: nowhere exactly if it is refused or one of its numbers is not finite. */
  lemma CallSendsExactly(r: Reader, t: Token, p: Point, q: Point)
    ensures (MatrixOf(r, t).Ok? && MovesTo(MatrixOf(r, t).value, p, q)) <==> Sends(r, t.name, SplitArgs(t.args), p, q)
  {
    var (name, args) := (t.name, SplitArgs(t.args));
    hide Translates, Scales, Shifts, Stretches, Turns, Maps, IsDeep, Gives, Read, SplitArgs, Entries, MovesTo, ExceedsTolerance;
    if name == "translate" {
      TranslateSends(r, args, p, q);
    } else if name == "translateX" || name == "translateY" {
      ShiftSends(r, args, p, q);
    } else if name == "scale" {
      ScaleSends(r, args, p, q);
    } else if name == "scaleX" || name == "scaleY" {
      StretchSends(r, args, p, q);
    } else if name == "rotate" {
      RotateSends(r, args, p, q);
    } else if name == "matrix" && |args| == 6 {
      MatrixSends(r, args[0], args[1], args[2], args[3], args[4], args[5], p, q);
    } else if name == "matrix3d" && |args| == 16 {
      MatrixSends(r, args[0], args[1], args[4], args[5], args[12], args[13], p, q);
      DeepExactly(r, args[14]);
    }
  }

  /** The calls one after the other, the last one first, move `p` to `q`. */
  ghost predicate SendsAll(r: Reader, calls: seq<Token>, p: Point, q: Point) {
    if calls == [] then p == q
    else exists via :: SendsAll(r, calls[1..], p, via) && Sends(r, calls[0].name, SplitArgs(calls[0].args), via, q)
  }

  lemma {:induction false} CallsSendExactly(r: Reader, calls: seq<Token>, p: Point, q: Point)
    ensures (AreNumbers(r, calls) && ApplyCalls(r, calls, p) == q) <==> SendsAll(r, calls, p, q)
  {
    hide MatrixOf, Sends, SplitArgs, ApplyToPoint;
    if calls != [] {
      var (first, rest) := (calls[0], calls[1..]);
      if AreNumbers(r, calls) && ApplyCalls(r, calls, p) == q {
        var via := ApplyCalls(r, rest, p);
        CallsSendExactly(r, rest, p, via);
        CallSendsExactly(r, first, via, q);
      }
      if SendsAll(r, calls, p, q) {
        var via :| SendsAll(r, rest, p, via) && Sends(r, first.name, SplitArgs(first.args), via, q);
        CallsSendExactly(r, rest, p, via);
        CallSendsExactly(r, first, via, q);
      }
    }
  }

  /** A matrix that acts as the calls moves every point as they do; without one, they move no point anywhere. */
  lemma ActsMeansSends(r: Reader, m: Numbers, calls: seq<Token>)
    requires Acts(r, m, calls)
    ensures forall p, q :: SendsAll(r, calls, p, q) <==> MovesTo(m, p, q)
  {
    hide ApplyToPoint, ApplyCalls, AreNumbers, SendsAll;
    forall p, q
      ensures SendsAll(r, calls, p, q) <==> MovesTo(m, p, q)
    {
      CallsSendExactly(r, calls, p, q);
    }
  }

  ghost predicate RefusesCall(r: Reader, t: Token, e: TransformError) {
    Refuses(r, t.name, SplitArgs(t.args), e)
  }

  /** The error of the first refused call. */
  ghost predicate IsFirstError(r: Reader, calls: seq<Token>, e: TransformError) {
    exists i :: && 0 <= i < |calls| && RefusesCall(r, calls[i], e)
                && forall k :: 0 <= k < i ==> IsAllowed(r, calls[k])
  }

  ghost predicate IsAllowed(r: Reader, t: Token) {
    forall e :: !RefusesCall(r, t, e)
  }

  lemma {:induction false} FirstErrorExactly(r: Reader, calls: seq<Token>, e: TransformError)
    ensures FirstError(r, calls) == Some(e) <==> IsFirstError(r, calls, e)
    ensures FirstError(r, calls) == None <==> forall t :: t in calls ==> IsAllowed(r, t)
  {
    if calls != [] {
      var (first, rest) := (calls[0], calls[1..]);
      FirstErrorExactly(r, rest, e);
      forall x
        ensures MatrixOf(r, first) == Err(x) <==> RefusesCall(r, first, x)
      {
        CallIsRefusedExactly(r, first, x);
      }
      hide MatrixOf, RefusesCall;
      assert calls == [first] + rest;
      FirstErrorOfCons(r, first, rest, e);
      assert IsAllowed(r, first) <==> MatrixOf(r, first).Ok? by {
        if MatrixOf(r, first).Err? {
          assert RefusesCall(r, first, MatrixOf(r, first).error);
        }
      }
    }
  }

  lemma FirstErrorOfCons(r: Reader, first: Token, rest: seq<Token>, e: TransformError)
    ensures IsFirstError(r, [first] + rest, e) <==> RefusesCall(r, first, e) || (IsAllowed(r, first) && IsFirstError(r, rest, e))
  {
    hide RefusesCall, IsAllowed;
    var calls := [first] + rest;
    assert calls[0] == first && calls[1..] == rest;
    if i :| 0 <= i < |calls| && RefusesCall(r, calls[i], e) && forall k :: 0 <= k < i ==> IsAllowed(r, calls[k]) {
      ErrorAt(r, calls, e, i);
    }
    if RefusesCall(r, first, e) {
      assert IsFirstError(r, calls, e);
    } else if IsAllowed(r, first) && IsFirstError(r, rest, e) {
      LaterError(r, first, rest, e);
    }
  }

  lemma ErrorAt(r: Reader, calls: seq<Token>, e: TransformError, i: nat)
    requires i < |calls| && RefusesCall(r, calls[i], e) && forall k :: 0 <= k < i ==> IsAllowed(r, calls[k])
    ensures RefusesCall(r, calls[0], e) || (IsAllowed(r, calls[0]) && IsFirstError(r, calls[1..], e))
  {
    hide RefusesCall, IsAllowed;
    if i > 0 {
      var rest := calls[1..];
      assert RefusesCall(r, rest[i - 1], e);
      assert forall k :: 0 <= k < i - 1 ==> rest[k] == calls[k + 1];
    }
  }

  lemma LaterError(r: Reader, first: Token, rest: seq<Token>, e: TransformError)
    requires IsAllowed(r, first) && IsFirstError(r, rest, e)
    ensures IsFirstError(r, [first] + rest, e)
  {
    hide RefusesCall, IsAllowed;
    var calls := [first] + rest;
    var i :| 0 <= i < |rest| && RefusesCall(r, rest[i], e) && forall k :: 0 <= k < i ==> IsAllowed(r, rest[k]);
    assert calls[i + 1] == rest[i];
    forall k | 0 <= k < i + 1
      ensures IsAllowed(r, calls[k])
    {
      if k > 0 {
        assert calls[k] == rest[k - 1];
      }
    }
  }

  // ---------------------------------------------------------------- units

  /** The text without the white space around it is `number` with `unit` behind it. */
  ghost predicate IsMeasure(raw: string, number: string, unit: string) {
    Trim(raw) == number + unit
  }

  lemma EndOfSum(head: string, suffix: string)
    ensures var s := head + suffix; EndsWith(s, suffix) && s[..|s| - |suffix|] == head
  {
  }

  lemma UnitExactly(raw: string, unit: string)
    ensures EndsWith(Trim(raw), unit) <==> HasUnit(raw, unit)
    ensures forall number :: IsMeasure(raw, number, unit) ==> Trim(raw)[..|Trim(raw)| - |unit|] == number
  {
    hide Trim;
    var text := Trim(raw);
    if EndsWith(text, unit) {
      assert text == text[..|text| - |unit|] + unit;
      assert IsMeasure(raw, text[..|text| - |unit|], unit);
    }
    forall number | IsMeasure(raw, number, unit)
      ensures EndsWith(text, unit) && text[..|text| - |unit|] == number
    {
      EndOfSum(number, unit);
    }
  }

  /** The text without the white space around it ends with `unit`. */
  ghost predicate HasUnit(raw: string, unit: string) {
    exists number :: IsMeasure(raw, number, unit)
  }

  lemma LengthExactly(r: Reader, raw: string, number: string)
    ensures IsMeasure(raw, number, "px") ==> r.Length(raw) == r.parseFloat(number)
    ensures IsMeasure(raw, number, "") && !HasUnit(raw, "px") ==> r.Length(raw) == r.parseFloat(number)
  {
    UnitExactly(raw, "px");
    hide Trim, EndsWith;
    assert number + "" == number;
  }

  lemma UnitsDiffer(text: string)
    ensures EndsWith(text, "turn") ==> !EndsWith(text, "deg") && !EndsWith(text, "rad")
    ensures EndsWith(text, "rad") ==> !EndsWith(text, "deg")
    ensures EndsWith(text, "grad") ==> EndsWith(text, "rad") && text[..|text| - 3] == text[..|text| - 4] + "g"
  {
    var n := |text|;
    if EndsWith(text, "turn") {
      assert text[n - 1] == text[n - 4..][3] == 'n';
    }
    if EndsWith(text, "rad") {
      assert text[n - 1] == text[n - 3..][2] == 'd' && text[n - 3] == text[n - 3..][0] == 'r';
    }
    if EndsWith(text, "deg") {
      assert text[n - 1] == text[n - 3..][2] == 'g';
    }
    if EndsWith(text, "grad") {
      assert text[n - 3..] == text[n - 4..][1..] == "grad"[1..] == "rad";
      assert text[n - 4] == text[n - 4..][0] == 'g';
    }
  }

  /** Degrees, radians and turns are read as such, and a number without any of these units as degrees. */
  lemma AngleExactly(r: Reader, raw: string, number: string, v: real)
    requires r.parseFloat(number) == Finite(v)
    ensures IsMeasure(raw, number, "deg") ==> r.Angle(raw) == Finite(v * (r.pi / 180.0))
    ensures IsMeasure(raw, number, "rad") ==> r.Angle(raw) == Finite(v)
    ensures IsMeasure(raw, number, "turn") ==> r.Angle(raw) == Finite(v * (2.0 * r.pi))
    ensures IsMeasure(raw, number, "") && !HasUnit(raw, "deg") && !HasUnit(raw, "rad") && !HasUnit(raw, "turn") ==>
              r.Angle(raw) == Finite(v * (r.pi / 180.0))
  {
    UnitExactly(raw, "deg");
    UnitExactly(raw, "rad");
    UnitExactly(raw, "turn");
    UnitsDiffer(Trim(raw));
    hide Trim, EndsWith;
    assert number + "" == number;
  }

  /**
   * Gradians are never read as such: "rad" is looked for first, and what stands before it, the number with a
   * 'g' behind it, is read as a number of radians. `parseFloat` stops at the 'g', so the angle is right exactly
   * if it is zero, pi not being 200.
   */
  lemma GradiansAreReadAsRadians(r: Reader, raw: string, number: string, v: real)
    requires IsMeasure(raw, number, "grad")
    requires r.parseFloat(number) == r.parseFloat(number + "g") == Finite(v)
    ensures r.Angle(raw) == Finite(v)
    ensures r.pi != 200.0 ==> (r.Angle(raw) == Finite(v * (r.pi / 200.0)) <==> v == 0.0)
  {
    EndOfSum(number, "grad");
    UnitsDiffer(Trim(raw));
    hide Trim, EndsWith;
    if r.pi != 200.0 {
      var k := r.pi / 200.0;
      assert k != 1.0;
      assert v * k - v == v * (k - 1.0);
      assert v != 0.0 ==> v * (k - 1.0) != 0.0;
    }
  }

  // ---------------------------------------------------------------- how many arguments are read

  /** Numbers are as long as their text, and an angle is its own cosine and sine. */
  function LengthReader(): Reader {
    Reader(text => Finite(|text| as real), x => x, x => x, 180.0)
  }

  lemma LengthReads(text: string)
    requires text == "a" || text == "aa"
    ensures var r := LengthReader();
            r.Length(text) == r.Scalar(text) == r.Angle(text) == Finite(|text| as real)
  {
    assert text[0] == 'a' && text[|text| - 1] == 'a';
    assert Trim(text) == text;
    assert !EndsWith(text, "px") && !EndsWith(text, "deg") && !EndsWith(text, "rad");
  }

  ghost predicate ReadsTwo(name: string) {
    name == "translate" || name == "scale"
  }

  ghost predicate ReadsOne(name: string) {
    name == "translateX" || name == "translateY" || name == "scaleX" || name == "scaleY" || name == "rotate"
  }

  /** After `n` arguments another one makes no difference, however numbers are read. */
  ghost predicate MoreIsIgnored(name: string, n: nat) {
    forall r, args, more, p, q :: |args| == n ==> (Sends(r, name, args, p, q) <==> Sends(r, name, args + [more], p, q))
  }

  /** A point that the call moves elsewhere when the text "aa", as 2, is its first argument, and again when "a" is its second. */
  lemma SecondCounts(name: string)
    requires ReadsTwo(name)
    ensures !MoreIsIgnored(name, 1)
  {
    var r := LengthReader();
    LengthReads("a");
    LengthReads("aa");
    var args := ["aa", "a"];
    assert args == ["aa"] + ["a"];
    var p, q := Point(1.0, 1.0), if name == "scale" then Point(2.0, 1.0) else Point(3.0, 2.0);
    hide LengthReader, Reader.Length, Reader.Scalar, Reader.Angle;
    if name == "scale" {
      assert Gives(r.Scalar, args, 0, 1.0, 2.0) && Gives(r.Scalar, args, 1, 2.0, 1.0) && Stretches(2.0, 1.0, p, q);
      assert Scales(r, args, p, q) && !Scales(r, ["aa"], p, q);
    } else {
      assert Gives(r.Length, args, 0, 0.0, 2.0) && Gives(r.Length, args, 1, 0.0, 1.0) && Shifts(2.0, 1.0, p, q);
      assert Translates(r, args, p, q) && !Translates(r, ["aa"], p, q);
    }
    assert Sends(r, name, ["aa"] + ["a"], p, q) && !Sends(r, name, ["aa"], p, q);
  }

  lemma FirstCounts(name: string)
    requires ReadsOne(name) || ReadsTwo(name)
    ensures !MoreIsIgnored(name, 0)
  {
    var r := LengthReader();
    LengthReads("aa");
    var args := ["aa"];
    assert [] + ["aa"] == args;
    var p := Point(1.0, 1.0);
    var q := if name == "translate" || name == "translateX" then Point(3.0, 1.0)
             else if name == "translateY" then Point(1.0, 3.0)
             else if name == "scale" then Point(2.0, 2.0)
             else if name == "scaleX" then Point(2.0, 1.0)
             else if name == "scaleY" then Point(1.0, 2.0)
             else Point(0.0, 4.0);
    FirstMoves(r, name, p, q);
    hide *;
    assert Sends(r, name, [] + ["aa"], p, q) && !Sends(r, name, [], p, q);
    SomeMore(r, name, [], "aa", p, q);
  }

  lemma SomeMore(r: Reader, name: string, args: seq<string>, more: string, p: Point, q: Point)
    requires Sends(r, name, args + [more], p, q) && !Sends(r, name, args, p, q)
    ensures !MoreIsIgnored(name, |args|)
  {
    hide Sends;
  }

  lemma FirstMoves(r: Reader, name: string, p: Point, q: Point)
    requires r == LengthReader() && r.Length("aa") == r.Scalar("aa") == r.Angle("aa") == Finite(2.0)
    requires ReadsOne(name) || ReadsTwo(name)
    requires p == Point(1.0, 1.0)
    requires q == if name == "translate" || name == "translateX" then Point(3.0, 1.0)
                  else if name == "translateY" then Point(1.0, 3.0)
                  else if name == "scale" then Point(2.0, 2.0)
                  else if name == "scaleX" then Point(2.0, 1.0)
                  else if name == "scaleY" then Point(1.0, 2.0)
                  else Point(0.0, 4.0)
    ensures Sends(r, name, ["aa"], p, q) && !Sends(r, name, [], p, q)
  {
    hide Reader.Length, Reader.Scalar, Reader.Angle;
    var args := ["aa"];
    assert Gives(r.Length, args, 0, 0.0, 2.0) && Gives(r.Scalar, args, 0, 1.0, 2.0) && Gives(r.Angle, args, 0, 0.0, 2.0);
    if name == "translate" {
      assert Gives(r.Length, args, 1, 0.0, 0.0) && Shifts(2.0, 0.0, p, q);
    } else if name == "scale" {
      assert Gives(r.Scalar, args, 1, 2.0, 2.0) && Stretches(2.0, 2.0, p, q);
    }
  }

  lemma MoreThanTwo(name: string, n: nat)
    requires ReadsTwo(name) && n >= 2
    ensures MoreIsIgnored(name, n)
  {
    forall r, args, more, p, q | |args| == n
      ensures Sends(r, name, args, p, q) <==> Sends(r, name, args + [more], p, q)
    {
      var longer := args + [more];
      assert longer[0] == args[0] && longer[1] == args[1];
    }
  }

  lemma MoreThanOne(name: string, n: nat)
    requires ReadsOne(name) && n >= 1
    ensures MoreIsIgnored(name, n)
  {
    forall r, args, more, p, q | |args| == n
      ensures Sends(r, name, args, p, q) <==> Sends(r, name, args + [more], p, q)
    {
      assert (args + [more])[0] == args[0];
    }
  }

  /** A function takes one more argument exactly if it can make a difference. */
  lemma TakesExactly(name: string, n: nat)
    requires ReadsOne(name) || ReadsTwo(name)
    ensures Takes(name, n + 1) <==> !MoreIsIgnored(name, n)
  {
    hide MoreIsIgnored;
    if n == 0 {
      FirstCounts(name);
    } else if ReadsOne(name) {
      MoreThanOne(name, n);
    } else if n == 1 {
      SecondCounts(name);
    } else {
      MoreThanTwo(name, n);
    }
  }

  /** No call with this many arguments is refused for their number. */
  ghost predicate IsRightCount(name: string, n: nat) {
    forall r, args :: |args| == n ==> !Refuses(r, name, args, Malformed)
  }

  /** The two functions on matrices take as many arguments as some call that is not refused for their number has. */
  lemma MatrixTakesExactly(name: string, n: nat)
    requires name == "matrix" || name == "matrix3d"
    ensures Takes(name, n) <==> exists m :: n <= m && IsRightCount(name, m)
  {
    assert IsRightCount(name, if name == "matrix" then 6 else 16);
    forall m: nat | IsRightCount(name, m)
      ensures m == if name == "matrix" then 6 else 16
    {
      var args := seq(m, i => "");
      assert !Refuses(LengthReader(), name, args, Malformed);
    }
  }

  // ---------------------------------------------------------------- what is accepted

  ghost predicate Accepts(r: Reader, s: string) {
    FirstError(r, Scan(Trim(s)).tokens).None? && Blank(Scan(Trim(s)).tail)
  }

  ghost predicate CallsAreSupported(r: Reader, s: string) {
    FirstError(r, Scan(Trim(s)).tokens).None?
  }

  /**
   * A string whose calls are all supported is accepted exactly if nothing but white space follows
   * the last call. It is a list of calls exactly if, besides, nothing but white space is skipped and
   * all arguments are argument lists. So an accepted string is malformed exactly if some skipped
   * text is not blank, or some arguments hold a bracket, a blank piece, or a piece too many.
   */
  lemma MalformedIsAcceptedExactly(r: Reader, s: string)
    ensures CallsAreSupported(r, s) ==> (Accepts(r, s) <==> Blank(Scan(Trim(s)).tail))
    ensures Accepts(r, s) && !IsCallList(s)
       <==> && CallsAreSupported(r, s) && Blank(Scan(Trim(s)).tail)
            && (!GapsAreBlank(Scan(Trim(s)).tokens) || !ArgumentsAreLists(Scan(Trim(s)).tokens))
    ensures IsCallList(s) && CallsAreSupported(r, s) ==> Accepts(r, s)
  {
    CallListOfTrimmed(s);
    CallListExactly(Trim(s));
    hide Scan, IsCallList, GapsAreBlank, ArgumentsAreLists, Trim;
  }

  /** Where a well-formed call ends the string and no match starts before it, the scan finds it alone. */
  lemma ScanOfOneCall(gap: string, t: Token)
    requires IsMatch(t) && t.gap == "" && NoCallWithin(gap + CallText(t), |gap|)
    ensures Scan(gap + CallText(t)) == Scanned([t.(gap := gap)], "")
  {
    var u := t.(gap := gap);
    OneCallIsFound(gap, t);
    NothingFound("");
    assert Scan("") == Scanned([], "");
    assert TokenText(u) == gap + CallText(t);
    hide CallText, FindCall, TokenText, NoCallWithin, IsMatch;
    assert (gap + CallText(t))[|TokenText(u)|..] == "";
  }

  lemma OneCallIsFound(gap: string, t: Token)
    requires IsMatch(t) && t.gap == "" && NoCallWithin(gap + CallText(t), |gap|)
    ensures FindCall(gap + CallText(t)) == Some(t.(gap := gap))
  {
    CallIsMatched(t, "");
    hide CallText, FindCall, CallAt, NoCallWithin, IsMatch;
    assert CallText(t) + "" == CallText(t);
    FoundAfter(gap, CallText(t), t);
  }

  lemma OneCallIsSupported(r: Reader, t: Token)
    ensures FirstError(r, [t]).None? <==> MatrixOf(r, t).Ok?
  {
    assert [t][1..] == [];
  }

  /** A word and white space in front of a supported call are accepted. */
  lemma JunkIsAccepted(r: Reader, junk: string, space: string, t: Token)
    requires IsWord(junk) && junk != "" && Blank(space) && space != ""
    requires IsMatch(t) && t.gap == "" && MatrixOf(r, t).Ok?
    ensures var s := junk + space + CallText(t);
            Accepts(r, s) && !IsCallList(s)
  {
    var gap := junk + space;
    var s := gap + CallText(t);
    NoCallInJunk(junk, space, t);
    ScanOfOneCall(gap, t);
    var u := t.(gap := gap);
    OneCallIsSupported(r, u);
    assert MatrixOf(r, u) == MatrixOf(r, t);
    JunkIsTrimmed(junk, space, t);
    hide CallText, Scan, MatrixOf, Trim, IsCallList, FirstError, IsMatch, IsSpace;
    assert u in [u];
    MalformedIsAcceptedExactly(r, s);
  }

  lemma JunkIsTrimmed(junk: string, space: string, t: Token)
    requires IsWord(junk) && junk != ""
    ensures var s := junk + space + CallText(t);
            Trim(s) == s && !Blank(junk + space)
  {
    var s := junk + space + CallText(t);
    assert junk[0] in junk && s[0] == junk[0] && (junk + space)[0] == junk[0];
    assert CallText(t)[|CallText(t)| - 1] == ')';
    assert s[|s| - 1] == ')';
    hide CallText, Trim;
    assert "" + s + "" == s;
    TrimAround("", s, "");
  }

  lemma {:induction false} NoCallInJunk(junk: string, space: string, t: Token)
    requires IsWord(junk) && Blank(space) && space != "" && IsMatch(t)
    ensures NoCallWithin(junk + space + CallText(t), |junk + space|)
  {
    var s := junk + space + CallText(t);
    if junk == "" {
      assert junk + space == space;
      NoCallInBlank(space, CallText(t));
    } else {
      assert s[1..] == junk[1..] + space + CallText(t);
      NoCallInJunk(junk[1..], space, t);
      WordBeforeWord(junk, space, t);
      hide CallAt;
      assert |junk[1..] + space| == |junk + space| - 1;
    }
  }

  /** A word and white space, not followed by '(', are no call. */
  lemma WordBeforeWord(junk: string, space: string, t: Token)
    requires IsWord(junk) && junk != "" && Blank(space) && space != "" && IsMatch(t)
    ensures CallAt(junk + space + CallText(t)).None?
  {
    var text := CallText(t);
    assert text[0] == t.name[0] && t.name[0] in t.name;
    assert space[0] in space && (space + text)[0] == space[0];
    WordRunOf(junk, space + text);
    SpaceRunOf(space, text);
    var s := junk + space + text;
    assert s == junk + (space + text) && s[|junk|..] == space + text && s[|junk|..][|space|..] == text;
    hide CallText, IsMatch, WordRun, SpaceRun;
    assert ArgsAt(text).None?;
  }

  /** A single supported call is accepted, and is a list of calls only if its arguments are a list. */
  lemma OneCallIsAcceptedExactly(r: Reader, t: Token)
    requires IsMatch(t) && t.gap == "" && MatrixOf(r, t).Ok?
    ensures Accepts(r, CallText(t)) && (IsCallList(CallText(t)) <==> IsArgumentList(t.name, t.args))
  {
    OneCallIsTrimmed(t);
    hide CallText, MatrixOf, Trim, IsMatch, IsArgumentList;
    var s := CallText(t);
    assert "" + s == s && t.(gap := "") == t;
    ScanOfOneCall("", t);
    OneCallIsSupported(r, t);
    hide Scan, FirstError, IsCallList;
    assert t in [t];
    MalformedIsAcceptedExactly(r, s);
  }

  lemma OneCallIsTrimmed(t: Token)
    requires IsMatch(t)
    ensures Trim(CallText(t)) == CallText(t)
  {
    var s := CallText(t);
    assert s[0] == t.name[0] && t.name[0] in t.name && s[|s| - 1] == ')';
    WordIsNoSpace(s[0]);
    WordIsNoSpace(')');
    hide CallText, Trim, IsSpace;
    assert "" + s + "" == s;
    TrimAround("", s, "");
  }

  lemma WordIsNoSpace(c: char)
    ensures IsWordChar(c) || c == ')' ==> !IsSpace(c)
  {
  }

  lemma TranslateIsSupported(r: Reader, args: string)
    ensures MatrixOf(r, Token("", "translate", "", args)).Ok?
  {
    hide SplitArgs, Entries;
  }

  lemma TranslateIsWord()
    ensures IsWord("junk") && IsWord("translate") && ')' !in "1px" && ')' !in "(1px"
  {
  }

  lemma JunkSpelled()
    ensures "junk" + " " + ("translate" + ("" + Braced("1px"))) == "junk translate(1px)"
    ensures "translate" + ("" + Braced("(1px")) == "translate((1px)"
  {
  }

  lemma JunkTranslateIsAccepted(r: Reader)
    ensures Accepts(r, "junk translate(1px)") && !IsCallList("junk translate(1px)")
  {
    TranslateIsSupported(r, "1px");
    TranslateIsWord();
    JunkSpelled();
    hide FunctionMatrix, MatrixOf, IsWord, Accepts, IsCallList, Braced;
    JunkIsAccepted(r, "junk", " ", Token("", "translate", "", "1px"));
  }

  lemma OpenBracketIsAccepted(r: Reader)
    ensures Accepts(r, "translate((1px)") && !IsCallList("translate((1px)")
  {
    TranslateIsSupported(r, "(1px");
    TranslateIsWord();
    JunkSpelled();
    assert '(' in "(1px" by { assert "(1px"[0] == '('; }
    hide FunctionMatrix, MatrixOf, IsWord, Accepts, IsCallList, Braced;
    OneCallIsAcceptedExactly(r, Token("", "translate", "", "(1px"));
  }
}
