/**
 * JavaScript's `split` on one character with its inverse `join`, `indexOf` of a character, and
 * `includes`.
 */
module Text {

  /** Puts one more character in front of the first part. */
  function Push(c: char, xs: seq<string>): (zs: seq<string>)
    requires |xs| >= 1
    ensures |zs| == |xs| && zs[0] == [c] + xs[0] && zs[1..] == xs[1..]
  {
    [[c] + xs[0]] + xs[1..]
  }

  function Split(s: string, sep: char): (parts: seq<string>)
    ensures |parts| >= 1
    ensures forall k :: 0 <= k < |parts| ==> sep !in parts[k]
  {
    if s == [] then [""]
    else
      var rest := Split(s[1..], sep);
      if s[0] == sep then [""] + rest
      else Push(s[0], rest)
  }

  function Join(parts: seq<string>, sep: char): string {
    if |parts| == 0 then ""
    else if |parts| == 1 then parts[0]
    else parts[0] + [sep] + Join(parts[1..], sep)
  }

  /** `Split` peels off one separator-free part. */
  lemma {:induction false} SplitHead(a: string, rest: string, sep: char)
    requires sep !in a
    ensures Split(a, sep) == [a]
    ensures Split(a + [sep] + rest, sep) == [a] + Split(rest, sep)
  {
    if a == [] {
      assert a + [sep] + rest == [sep] + rest;
    } else {
      SplitHead(a[1..], rest, sep);
      assert (a + [sep] + rest)[1..] == a[1..] + [sep] + rest;
      assert [a[0]] + a[1..] == a;
    }
  }

  /** Splitting a join gives the parts back, as long as no part holds the separator. */
  lemma {:induction false} SplitOfJoin(parts: seq<string>, sep: char)
    requires |parts| >= 1
    requires forall k :: 0 <= k < |parts| ==> sep !in parts[k]
    ensures Split(Join(parts, sep), sep) == parts
  {
    if |parts| == 1 {
      SplitHead(parts[0], "", sep);
    } else {
      SplitOfJoin(parts[1..], sep);
      SplitHead(parts[0], Join(parts[1..], sep), sep);
    }
  }

  /** `Join` undoes `Split` on every string. */
  lemma {:induction false} JoinOfSplit(s: string, sep: char)
    ensures Join(Split(s, sep), sep) == s
  {
    if s != [] {
      JoinOfSplit(s[1..], sep);
      var rest := Split(s[1..], sep);
      if s[0] == sep {
        assert ([""] + rest)[1..] == rest;
      } else {
        assert Push(s[0], rest)[1..] == rest[1..];
      }
    }
  }

  /** Glues the last part of one split to the first part of another. */
  function Glue(xs: seq<string>, ys: seq<string>): (zs: seq<string>)
    requires |xs| >= 1 && |ys| >= 1
    ensures |zs| == |xs| + |ys| - 1
    ensures forall k :: 0 <= k < |xs| - 1 ==> zs[k] == xs[k]
    ensures zs[|xs| - 1] == xs[|xs| - 1] + ys[0]
  {
    xs[..|xs| - 1] + [xs[|xs| - 1] + ys[0]] + ys[1..]
  }

  lemma GlueOfPush(c: char, xs: seq<string>, ys: seq<string>)
    requires |xs| >= 1 && |ys| >= 1
    ensures Glue(Push(c, xs), ys) == Push(c, Glue(xs, ys))
  {
    var n := |xs| - 1;
    if n == 0 {
      assert [c] + (xs[0] + ys[0]) == [c] + xs[0] + ys[0];
    } else {
      var first := [c] + xs[0];
      assert Push(c, xs)[..n] == [first] + xs[1..][..n - 1] && Push(c, xs)[n] == xs[n];
      assert xs[..n] == [xs[0]] + xs[1..n] && xs[1..][..n - 1] == xs[1..n];
      assert Glue(xs, ys)[1..] == xs[1..n] + [xs[n] + ys[0]] + ys[1..];
    }
  }

  lemma GlueOfEmpty(ys: seq<string>)
    requires |ys| >= 1
    ensures Glue([""], ys) == ys
  {
    assert "" + ys[0] == ys[0];
  }

  lemma GlueOfCons(x: string, xs: seq<string>, ys: seq<string>)
    requires |xs| >= 1 && |ys| >= 1
    ensures Glue([x] + xs, ys) == [x] + Glue(xs, ys)
  {
    assert ([x] + xs)[..|xs|] == [x] + xs[..|xs| - 1];
  }

  lemma {:induction false} SplitOfAppend(a: string, b: string, sep: char)
    ensures Split(a + b, sep) == Glue(Split(a, sep), Split(b, sep))
  {
    if a == [] {
      assert a + b == b;
      GlueOfEmpty(Split(b, sep));
    } else {
      SplitOfAppend(a[1..], b, sep);
      assert (a + b)[0] == a[0] && (a + b)[1..] == a[1..] + b;
      if a[0] == sep {
        GlueOfCons("", Split(a[1..], sep), Split(b, sep));
      } else {
        GlueOfPush(a[0], Split(a[1..], sep), Split(b, sep));
      }
    }
  }

  // ---------------------------------------------------------------- searching

  /** The position of the first `c`, or the length when there is none. */
  function FirstIndex(s: string, c: char): (i: nat)
    ensures i <= |s|
    ensures i < |s| ==> s[i] == c
    ensures c !in s[..i]
  {
    if s == [] || s[0] == c then 0 else 1 + FirstIndex(s[1..], c)
  }

  lemma {:induction false} FirstIndexOf(s: string, c: char, rest: string)
    requires c !in s
    ensures FirstIndex(s + ([c] + rest), c) == |s|
  {
    if s != "" {
      assert (s + ([c] + rest))[1..] == s[1..] + ([c] + rest);
      FirstIndexOf(s[1..], c, rest);
    } else {
      assert s + ([c] + rest) == [c] + rest;
    }
  }

  predicate OccursAt(text: string, part: string, i: nat) {
    i + |part| <= |text| && text[i..i + |part|] == part
  }

  predicate Contains(text: string, part: string) {
    exists i | 0 <= i <= |text| :: OccursAt(text, part, i)
  }

  // ---------------------------------------------------------------- white space

  /** The characters `\s` and `trim` treat as white space in ECMAScript. */
  predicate IsSpace(c: char) {
    || c == '\t' || c == '\n' || c == '\U{000B}' || c == '\U{000C}' || c == '\r' || c == ' '
    || c == '\U{00A0}' || c == '\U{1680}' || '\U{2000}' <= c <= '\U{200A}'
    || c == '\U{2028}' || c == '\U{2029}' || c == '\U{202F}' || c == '\U{205F}'
    || c == '\U{3000}' || c == '\U{FEFF}'
  }

  function TrimStart(s: string): string {
    if s != [] && IsSpace(s[0]) then TrimStart(s[1..]) else s
  }

  function TrimEnd(s: string): string {
    if s != [] && IsSpace(s[|s| - 1]) then TrimEnd(s[..|s| - 1]) else s
  }

  function Trim(s: string): string {
    TrimEnd(TrimStart(s))
  }

  ghost predicate Blank(s: string) {
    forall c :: c in s ==> IsSpace(c)
  }

  lemma {:induction false} TrimStartOfBlank(lead: string, s: string)
    requires Blank(lead)
    ensures TrimStart(lead + s) == TrimStart(s)
  {
    if lead == [] {
      assert lead + s == s;
    } else {
      assert (lead + s)[1..] == lead[1..] + s;
      TrimStartOfBlank(lead[1..], s);
    }
  }

  lemma {:induction false} TrimEndOfBlank(s: string, trail: string)
    requires Blank(trail)
    ensures TrimEnd(s + trail) == TrimEnd(s)
  {
    if trail == [] {
      assert s + trail == s;
    } else {
      var n := |trail| - 1;
      assert (s + trail)[..|s + trail| - 1] == s + trail[..n];
      TrimEndOfBlank(s, trail[..n]);
    }
  }

  /** Trimming takes a blank piece off each end. */
  lemma {:induction false} TrimStartExactly(s: string) returns (lead: string)
    ensures Blank(lead) && s == lead + TrimStart(s)
    ensures TrimStart(s) == "" || !IsSpace(TrimStart(s)[0])
  {
    if s != [] && IsSpace(s[0]) {
      lead := TrimStartExactly(s[1..]);
      lead := [s[0]] + lead;
    } else {
      lead := "";
    }
  }

  lemma {:induction false} TrimEndExactly(s: string) returns (trail: string)
    ensures Blank(trail) && s == TrimEnd(s) + trail
    ensures TrimEnd(s) == "" || !IsSpace(TrimEnd(s)[|TrimEnd(s)| - 1])
  {
    if s != [] && IsSpace(s[|s| - 1]) {
      trail := TrimEndExactly(s[..|s| - 1]);
      trail := trail + [s[|s| - 1]];
    } else {
      trail := "";
    }
  }

  lemma TrimExactly(s: string) returns (lead: string, trail: string)
    ensures Blank(lead) && Blank(trail) && s == lead + Trim(s) + trail
  {
    lead := TrimStartExactly(s);
    trail := TrimEndExactly(TrimStart(s));
  }

  /** What is left starts and ends with something else. */
  lemma TrimmedEnds(s: string)
    ensures Trim(s) == "" || (!IsSpace(Trim(s)[0]) && !IsSpace(Trim(s)[|Trim(s)| - 1]))
  {
    var start := TrimStart(s);
    var lead := TrimStartExactly(s);
    var trail := TrimEndExactly(start);
    assert Trim(s) != "" ==> Trim(s)[0] == start[0];
  }

  lemma TrimOfBlank(s: string)
    ensures Trim(s) == "" <==> Blank(s)
  {
    var lead, trail := TrimExactly(s);
    if Blank(s) {
      TrimStartOfBlank(s, "");
      assert s + "" == s;
    }
  }

  /** What neither starts nor ends with white space is what trimming leaves between two blanks. */
  lemma TrimAround(lead: string, s: string, trail: string)
    requires Blank(lead) && Blank(trail) && s != "" && !IsSpace(s[0]) && !IsSpace(s[|s| - 1])
    ensures Trim(lead + s + trail) == s
  {
    assert lead + s + trail == lead + (s + trail);
    TrimStartOfBlank(lead, s + trail);
    TrimEndOfBlank(s, trail);
  }

  // ---------------------------------------------------------------- classes of characters

  lemma LowercaseExactly(c: char)
    ensures 'a' <= c <= 'z' <==> c in "abcdefghijklmnopqrstuvwxyz"
  {
    var letters := "abcdefghijklmnopqrstuvwxyz";
    if 'a' <= c <= 'z' {
      assert letters[c as int - 'a' as int] == c;
    }
  }

  lemma UppercaseExactly(c: char)
    ensures 'A' <= c <= 'Z' <==> c in "ABCDEFGHIJKLMNOPQRSTUVWXYZ"
  {
    var letters := "ABCDEFGHIJKLMNOPQRSTUVWXYZ";
    if 'A' <= c <= 'Z' {
      assert letters[c as int - 'A' as int] == c;
    }
  }

  lemma DigitExactly(c: char)
    ensures '0' <= c <= '9' <==> c in "0123456789"
  {
    var digits := "0123456789";
    if '0' <= c <= '9' {
      assert digits[c as int - '0' as int] == c;
    }
  }

  /** ECMAScript's white space and line terminators, one by one. */
  lemma SpacesExactly(c: char)
    ensures IsSpace(c) <==>
              || c in "\t\n\U{000B}\U{000C}\r \U{00A0}\U{1680}"
              || c in "\U{2000}\U{2001}\U{2002}\U{2003}\U{2004}\U{2005}\U{2006}\U{2007}\U{2008}\U{2009}\U{200A}"
              || c in "\U{2028}\U{2029}\U{202F}\U{205F}\U{3000}\U{FEFF}"
  {
    var blanks := "\U{2000}\U{2001}\U{2002}\U{2003}\U{2004}\U{2005}\U{2006}\U{2007}\U{2008}\U{2009}\U{200A}";
    if '\U{2000}' <= c <= '\U{200A}' {
      assert blanks[c as int - 0x2000] == c;
    }
    var s := "\t\n\U{000B}\U{000C}\r \U{00A0}\U{1680}";
    var t := "\U{2028}\U{2029}\U{202F}\U{205F}\U{3000}\U{FEFF}";
    assert s[0] == '\t' && s[1] == '\n' && s[2] == '\U{000B}' && s[3] == '\U{000C}' && s[4] == '\r' && s[5] == ' ';
    assert s[6] == '\U{00A0}' && s[7] == '\U{1680}';
    assert t[0] == '\U{2028}' && t[1] == '\U{2029}' && t[2] == '\U{202F}' && t[3] == '\U{205F}' && t[4] == '\U{3000}' && t[5] == '\U{FEFF}';
  }
}
