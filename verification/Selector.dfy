/**
 * From a CSS selector to the token that is searched for: trimming, the last
 * simple selector, and the removal of pseudo-classes and attribute tests.
 */
module Selector {
  import opened Prelude
  import opened Text

  /** White space or a combinator: the class `[\s>+~]`. */
  predicate IsSeparator(c: char) {
    IsSpace(c) || c == '>' || c == '+' || c == '~'
  }

  /** The class `[a-zA-Z0-9_-]`. */
  predicate IsNameChar(c: char) {
    'a' <= c <= 'z' || 'A' <= c <= 'Z' || '0' <= c <= '9' || c == '_' || c == '-'
  }

  lemma NameCharsExactly(c: char)
    ensures IsNameChar(c) <==>
              || c in "abcdefghijklmnopqrstuvwxyz" || c in "ABCDEFGHIJKLMNOPQRSTUVWXYZ" || c in "0123456789"
              || c == '_' || c == '-'
  {
    LowercaseExactly(c);
    UppercaseExactly(c);
    DigitExactly(c);
  }

  /** The last piece of `split(/[\s>+~]+/)`: everything after the last separator. */
  function LastToken(s: string): string {
    if s == [] || IsSeparator(s[|s| - 1]) then ""
    else LastToken(s[..|s| - 1]) + [s[|s| - 1]]
  }

  function NameRun(s: string): (n: nat)
    ensures n <= |s|
  {
    if s == [] || !IsNameChar(s[0]) then 0 else 1 + NameRun(s[1..])
  }

  /** How much of `s` the pattern `(\([^)]*\))?` matches at its start. */
  function ArgsLength(s: string): (n: nat)
    ensures n <= |s|
  {
    if s == [] || s[0] != '(' then 0
    else
      var close := FirstIndex(s[1..], ')');
      if 1 + close < |s| then close + 2 else 0
  }

  function Colons(s: string): (n: nat)
    ensures n <= |s|
  {
    if s == [] || s[0] != ':' then 0 else if |s| > 1 && s[1] == ':' then 2 else 1
  }

  /** How much of `s` the pattern `::?[a-zA-Z0-9_-]+(\([^)]*\))?` matches at its start; 0 for no match. */
  function PseudoLength(s: string): (n: nat)
    ensures n <= |s|
  {
    var colons := Colons(s);
    var name := NameRun(s[colons..]);
    if colons == 0 || name == 0 then 0
    else colons + name + ArgsLength(s[colons..][name..])
  }

  function StripPseudo(s: string): string
    decreases |s|
  {
    if s == [] then ""
    else
      var n := PseudoLength(s);
      if n > 0 then StripPseudo(s[n..]) else [s[0]] + StripPseudo(s[1..])
  }

  /** Removes every match of `\[[^\]]*]`. */
  function StripAttributes(s: string): string
    decreases |s|
  {
    if s == [] then ""
    else
      var close := FirstIndex(s, ']');
      if s[0] == '[' && close < |s| then StripAttributes(s[close + 1..])
      else [s[0]] + StripAttributes(s[1..])
  }

  function Needle(selector: string): string {
    var trimmed := Trim(selector);
    if trimmed == "" then ""
    else Trim(StripAttributes(StripPseudo(LastToken(trimmed))))
  }

  // ---------------------------------------------------------------- every step only removes characters

  ghost predicate AllIn(s: string, t: string) {
    forall c :: c in s ==> c in t
  }

  lemma {:induction false} TrimStartKeeps(s: string)
    ensures AllIn(TrimStart(s), s)
  {
    if s != [] && IsSpace(s[0]) {
      TrimStartKeeps(s[1..]);
    }
  }

  lemma {:induction false} TrimEndKeeps(s: string)
    ensures AllIn(TrimEnd(s), s)
  {
    if s != [] && IsSpace(s[|s| - 1]) {
      TrimEndKeeps(s[..|s| - 1]);
    }
  }

  lemma {:induction false} LastTokenKeeps(s: string)
    ensures forall c :: c in LastToken(s) ==> c in s && !IsSeparator(c)
  {
    if s != [] && !IsSeparator(s[|s| - 1]) {
      LastTokenKeeps(s[..|s| - 1]);
    }
  }

  lemma {:induction false} StripPseudoKeeps(s: string)
    ensures AllIn(StripPseudo(s), s)
    decreases |s|
  {
    if s != [] {
      var n := PseudoLength(s);
      StripPseudoKeeps(s[if n > 0 then n else 1..]);
    }
  }

  lemma {:induction false} StripAttributesKeeps(s: string)
    ensures AllIn(StripAttributes(s), s)
    decreases |s|
  {
    if s != [] {
      var close := FirstIndex(s, ']');
      StripAttributesKeeps(s[if s[0] == '[' && close < |s| then close + 1 else 1..]);
    }
  }

  /** The needle is made of the selector's own characters and holds neither white space nor a combinator. */
  lemma NeedleCharacters(selector: string)
    ensures forall c :: c in Needle(selector) ==> c in selector && !IsSeparator(c)
  {
    hide IsSeparator;
    var trimmed := Trim(selector);
    var token := LastToken(trimmed);
    var bare := StripPseudo(token);
    var plain := StripAttributes(bare);
    TrimStartKeeps(selector);
    TrimEndKeeps(TrimStart(selector));
    LastTokenKeeps(trimmed);
    StripPseudoKeeps(token);
    StripAttributesKeeps(bare);
    TrimStartKeeps(plain);
    TrimEndKeeps(TrimStart(plain));
  }

  // ---------------------------------------------------------------- what a compound selector reduces to

  /** A simple selector without pseudo-classes or attribute tests, such as `.btn`. */
  ghost predicate IsPlain(token: string) {
    token != "" && forall c :: c in token ==> !IsSeparator(c) && c != ':' && c != '['
  }

  ghost predicate IsName(name: string) {
    name != "" && forall c :: c in name ==> IsNameChar(c)
  }

  lemma {:induction false} NameRunOfName(name: string, rest: string)
    requires (forall c :: c in name ==> IsNameChar(c)) && (rest == "" || !IsNameChar(rest[0]))
    ensures NameRun(name + rest) == |name|
  {
    if name == [] {
      assert name + rest == rest;
    } else {
      assert (name + rest)[1..] == name[1..] + rest;
      NameRunOfName(name[1..], rest);
    }
  }

  lemma NoPseudoHere(s: string)
    requires s != "" && s[0] != ':'
    ensures PseudoLength(s) == 0
  {
  }

  lemma {:induction false} StripPseudoOfPlain(token: string, tail: string)
    requires ':' !in token
    ensures StripPseudo(token + tail) == token + StripPseudo(tail)
  {
    hide PseudoLength;
    if token == [] {
      assert token + tail == tail;
    } else {
      NoPseudoHere(token + tail);
      StripPseudoOfPlain(token[1..], tail);
      assert (token + tail)[1..] == token[1..] + tail;
      Regroup([token[0]], token[1..], StripPseudo(tail));
      assert [token[0]] + token[1..] == token;
    }
  }

  lemma {:induction false} StripAttributesOfPlain(token: string, tail: string)
    requires '[' !in token
    ensures StripAttributes(token + tail) == token + StripAttributes(tail)
  {
    if token == [] {
      assert token + tail == tail;
    } else {
      StripAttributesOfPlain(token[1..], tail);
      assert (token + tail)[1..] == token[1..] + tail;
      Regroup([token[0]], token[1..], StripAttributes(tail));
      assert [token[0]] + token[1..] == token;
    }
  }

  lemma {:induction false} TrimStartToSeparator(prefix: string, sep: char, rest: string)
    requires IsSeparator(sep)
    requires rest != [] && !IsSpace(rest[0])
    ensures exists p ::
              TrimStart(prefix + [sep] + rest) == p + rest && (p == "" || IsSeparator(p[|p| - 1]))
  {
    var s := prefix + [sep] + rest;
    if prefix == [] {
      assert s[1..] == rest;
      assert s == [sep] + rest && "" + rest == rest;
      assert TrimStart(rest) == rest;
    } else if IsSpace(prefix[0]) {
      assert s[1..] == prefix[1..] + [sep] + rest;
      TrimStartToSeparator(prefix[1..], sep, rest);
    } else {
      assert s == (prefix + [sep]) + rest;
    }
  }

  lemma {:induction false} LastTokenAfter(p: string, rest: string)
    requires p == "" || IsSeparator(p[|p| - 1])
    requires forall c :: c in rest ==> !IsSeparator(c)
    ensures LastToken(p + rest) == rest
  {
    if rest == [] {
      assert p + rest == p;
    } else {
      var n := |rest| - 1;
      assert (p + rest)[..|p + rest| - 1] == p + rest[..n];
      LastTokenAfter(p, rest[..n]);
      assert rest[..n] + [rest[n]] == rest;
    }
  }

  /** What can follow a simple selector: pseudo-classes and -elements, with or without arguments, and attribute tests. */
  datatype Decoration = Pseudo(element: bool, name: string, args: Option<string>) | Test(content: string)

  function Spelling(d: Decoration): string {
    match d
    case Pseudo(element, name, args) =>
      (if element then "::" else ":") + (name + ArgsText(args))
    case Test(content) => "[" + (content + "]")
  }

  function SpellingAll(ds: seq<Decoration>): string {
    if ds == [] then "" else Spelling(ds[0]) + SpellingAll(ds[1..])
  }

  /** Arguments without ')', tests without ']' and ':', and neither with white space or a combinator. */
  ghost predicate IsSimple(d: Decoration) {
    match d
    case Pseudo(_, name, args) => IsName(name) && (args.Some? ==> forall c :: c in args.value ==> c != ')' && !IsSeparator(c))
    case Test(content) => forall c :: c in content ==> c != ']' && c != ':' && !IsSeparator(c)
  }

  ghost predicate AllSimple(ds: seq<Decoration>) {
    forall d :: d in ds ==> IsSimple(d)
  }

  function Tests(ds: seq<Decoration>): seq<Decoration> {
    if ds == [] then [] else (if ds[0].Test? then [ds[0]] else []) + Tests(ds[1..])
  }

  lemma NextDecoration(ds: seq<Decoration>)
    ensures SpellingAll(ds) == "" || SpellingAll(ds)[0] == ':' || SpellingAll(ds)[0] == '['
  {
  }

  function ArgsText(args: Option<string>): string {
    if args.Some? then "(" + (args.value + ")") else ""
  }

  lemma ArgsAreMatched(args: Option<string>, rest: string)
    requires (args.Some? ==> ')' !in args.value) && (rest == "" || rest[0] != '(')
    ensures ArgsLength(ArgsText(args) + rest) == |ArgsText(args)|
    ensures ArgsText(args) + rest == "" || !IsNameChar((ArgsText(args) + rest)[0]) || (args.None? && IsNameChar(rest[0]))
  {
    var s := ArgsText(args) + rest;
    if args.Some? {
      assert s[1..] == args.value + ([')'] + rest);
      FirstIndexOf(args.value, ')', rest);
    } else {
      assert s == rest;
    }
  }

  /** A pseudo-class is matched whole, whatever decoration follows. */
  lemma PseudoIsMatched(d: Decoration, rest: string)
    requires d.Pseudo? && IsSimple(d) && (rest == "" || (!IsNameChar(rest[0]) && rest[0] != '('))
    ensures PseudoLength(Spelling(d) + rest) == |Spelling(d)|
  {
    var colons := if d.element then "::" else ":";
    var args := ArgsText(d.args);
    PseudoSpelled(d);
    ArgsAreMatched(d.args, rest);
    ColonsOf(d, args + rest);
    assert d.name[0] in d.name;
    NameRunOfName(d.name, args + rest);
    hide Colons, ArgsLength, NameRun, IsNameChar, ArgsText, IsSeparator, Spelling;
    Regroup(d.name, args, rest);
    Regroup(colons, d.name + args, rest);
    var s := colons + (d.name + (args + rest));
    assert s[|colons|..] == d.name + (args + rest);
    assert (d.name + (args + rest))[|d.name|..] == args + rest;
  }

  lemma PseudoSpelled(d: Decoration)
    requires d.Pseudo?
    ensures Spelling(d) == (if d.element then "::" else ":") + (d.name + ArgsText(d.args))
  {
  }

  lemma ColonsOf(d: Decoration, rest: string)
    requires d.Pseudo? && IsName(d.name)
    ensures Colons((if d.element then "::" else ":") + (d.name + rest)) == if d.element then 2 else 1
  {
    assert d.name[0] in d.name;
  }

  lemma TestHasNoColon(d: Decoration)
    requires d.Test? && IsSimple(d)
    ensures ':' !in Spelling(d)
  {
  }

  lemma SpellingAllOfCons(d: Decoration, ds: seq<Decoration>)
    ensures SpellingAll([d] + ds) == Spelling(d) + SpellingAll(ds)
  {
    assert ([d] + ds)[1..] == ds;
  }

  lemma {:induction false} StripPseudoOfAll(ds: seq<Decoration>)
    requires AllSimple(ds)
    ensures StripPseudo(SpellingAll(ds)) == SpellingAll(Tests(ds))
  {
    if ds != [] {
      var (d, rest) := (ds[0], SpellingAll(ds[1..]));
      StripPseudoOfAll(ds[1..]);
      NextDecoration(ds[1..]);
      SpellingAllOfCons(d, Tests(ds[1..]));
      assert IsSimple(d);
      hide StripPseudo, IsSimple, Spelling, AllSimple;
      if d.Test? {
        TestHasNoColon(d);
        StripPseudoOfPlain(Spelling(d), rest);
        assert Tests(ds) == [d] + Tests(ds[1..]);
      } else {
        PseudoIsStripped(d, rest);
        assert Tests(ds) == [] + Tests(ds[1..]) == Tests(ds[1..]);
      }
    } else {
      assert StripPseudo("") == "";
    }
  }

  lemma PseudoIsStripped(d: Decoration, rest: string)
    requires d.Pseudo? && IsSimple(d) && (rest == "" || (!IsNameChar(rest[0]) && rest[0] != '('))
    ensures StripPseudo(Spelling(d) + rest) == StripPseudo(rest)
  {
    PseudoIsMatched(d, rest);
    assert Spelling(d) != "";
    hide IsSimple, PseudoLength, Spelling;
    assert (Spelling(d) + rest)[|Spelling(d)|..] == rest;
  }

  lemma TestIsStripped(content: string, rest: string)
    requires ']' !in content
    ensures StripAttributes("[" + (content + "]") + rest) == StripAttributes(rest)
  {
    var s := "[" + (content + "]") + rest;
    var inner := "[" + content;
    assert s == inner + ([']'] + rest);
    FirstIndexOf(inner, ']', rest);
    assert s[|inner| + 1..] == rest;
  }

  lemma {:induction false} StripAttributesOfTests(ds: seq<Decoration>)
    requires AllSimple(ds)
    ensures StripAttributes(SpellingAll(Tests(ds))) == ""
  {
    if ds != [] {
      var d := ds[0];
      StripAttributesOfTests(ds[1..]);
      SpellingAllOfCons(d, Tests(ds[1..]));
      assert IsSimple(d);
      if d.Test? {
        assert ']' !in d.content;
        TestIsStripped(d.content, SpellingAll(Tests(ds[1..])));
        hide StripAttributes, IsSimple, AllSimple;
        assert Tests(ds) == [d] + Tests(ds[1..]);
      } else {
        hide StripAttributes, IsSimple, AllSimple;
        assert Tests(ds) == [] + Tests(ds[1..]) == Tests(ds[1..]);
      }
    }
  }

  lemma {:induction false} DecorationsAreSolid(ds: seq<Decoration>)
    requires AllSimple(ds)
    ensures forall c :: c in SpellingAll(ds) ==> !IsSeparator(c)
  {
    if ds != [] {
      DecorationsAreSolid(ds[1..]);
      DecorationIsSolid(ds[0]);
      hide IsSeparator, Spelling;
    }
  }

  lemma DecorationIsSolid(d: Decoration)
    requires IsSimple(d)
    ensures forall c :: c in Spelling(d) ==> !IsSeparator(c)
  {
  }

  lemma TrimEndOfSolid(s: string)
    requires s != "" && !IsSpace(s[|s| - 1])
    ensures TrimEnd(s) == s
  {
  }

  lemma TokenOfCompound(prefix: string, sep: char, last: string)
    requires IsSeparator(sep) && last != ""
    requires forall c :: c in last ==> !IsSeparator(c)
    ensures Trim(prefix + [sep] + last) != "" && LastToken(Trim(prefix + [sep] + last)) == last
  {
    hide IsSpace, LastToken, TrimStart, TrimEnd;
    assert last[0] in last && last[|last| - 1] in last;
    TrimStartToSeparator(prefix, sep, last);
    var p :| TrimStart(prefix + [sep] + last) == p + last && (p == "" || IsSeparator(p[|p| - 1]));
    TrimEndOfSolid(p + last);
    LastTokenAfter(p, last);
  }

  lemma TrimOfPlain(token: string)
    requires IsPlain(token)
    ensures Trim(token) == token
  {
    assert token[0] in token && token[|token| - 1] in token;
    TrimEndOfSolid(token);
  }

  /** A simple selector is looked up as itself. */
  lemma NeedleOfPlain(token: string)
    requires IsPlain(token)
    ensures Needle(token) == token
  {
    TrimOfPlain(token);
    LastTokenAfter("", token);
    StripPseudoOfPlain(token, "");
    StripAttributesOfPlain(token, "");
    assert "" + token == token && token + "" == token;
  }

  lemma StrippedOfDecorations(token: string, ds: seq<Decoration>)
    requires IsPlain(token) && AllSimple(ds)
    ensures StripAttributes(StripPseudo(token + SpellingAll(ds))) == token
  {
    hide IsSeparator;
    StripPseudoOfPlain(token, SpellingAll(ds));
    StripPseudoOfAll(ds);
    StripAttributesOfPlain(token, SpellingAll(Tests(ds)));
    StripAttributesOfTests(ds);
    assert token + "" == token;
  }

  /**
   * `div > .btn[type=submit]:not(.off)::before` is looked up as `.btn`: whatever stands before the
   * last combinator, and whatever decorations follow the simple selector.
   */
  lemma NeedleOfCompound(prefix: string, sep: char, token: string, ds: seq<Decoration>)
    requires IsSeparator(sep) && IsPlain(token) && AllSimple(ds)
    ensures Needle(prefix + [sep] + token + SpellingAll(ds)) == token
  {
    hide IsSpace, Trim, LastToken, StripPseudo, StripAttributes, SpellingAll, AllSimple;
    var last := token + SpellingAll(ds);
    assert prefix + [sep] + token + SpellingAll(ds) == prefix + [sep] + last;
    DecorationsAreSolid(ds);
    TokenOfCompound(prefix, sep, last);
    StrippedOfDecorations(token, ds);
    TrimOfPlain(token);
  }

  /**
   * Arguments that hold white space or a combinator are cut: what is looked up is the rest of them,
   * closing bracket included.
   */
  lemma NeedleOfCutArguments(compound: string, name: string, args: string, sep: char, last: string)
    requires IsSeparator(sep) && IsPlain(last + ")")
    ensures Needle(compound + ":" + name + "(" + args + [sep] + last + ")") == last + ")"
  {
    hide Needle, IsPlain, IsSeparator;
    var prefix := compound + ":" + name + "(" + args;
    NeedleOfCompound(prefix, sep, last + ")", []);
    assert prefix + [sep] + (last + ")") + SpellingAll([]) == prefix + [sep] + last + ")";
  }

  /** Of brackets within arguments, the first that closes ends them: the next one is looked up with the token. */
  lemma NeedleOfNestedArguments(prefix: string, sep: char, token: string, d: Decoration)
    requires IsSeparator(sep) && IsPlain(token) && d.Pseudo? && d.args.Some? && IsSimple(d)
    ensures Needle(prefix + [sep] + token + Spelling(d) + ")") == token + ")"
  {
    var last := token + (Spelling(d) + ")");
    StrippedOfNested(token, d);
    DecorationIsSolid(d);
    assert !IsSeparator(')');
    hide IsSpace, Trim, LastToken, StripPseudo, StripAttributes, Spelling, IsSeparator, IsSimple;
    Regroup(prefix + [sep] + token, Spelling(d), ")");
    Regroup(prefix + [sep], token, Spelling(d) + ")");
    TokenOfCompound(prefix, sep, last) by {
      assert forall c :: c in last ==> c in token || c in Spelling(d) || c == ')';
    }
    TrimOfPlain(token + ")");
  }

  lemma StrippedOfNested(token: string, d: Decoration)
    requires IsPlain(token) && d.Pseudo? && d.args.Some? && IsSimple(d)
    ensures StripAttributes(StripPseudo(token + (Spelling(d) + ")"))) == token + ")"
  {
    StripPseudoOfPlain(token, Spelling(d) + ")");
    PseudoIsStripped(d, ")");
    StripPseudoOfPlain(")", "");
    assert ")" + "" == ")";
    StripAttributesOfPlain(token + ")", "");
    hide Spelling, IsSimple, IsSeparator, StripPseudo, StripAttributes;
    assert token + ")" + "" == token + ")";
    assert StripPseudo("") == "" && StripAttributes("") == "" by { NothingToStrip(); }
  }

  lemma NothingToStrip()
    ensures StripPseudo("") == "" && StripAttributes("") == ""
  {
  }
}
