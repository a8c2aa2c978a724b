/**
 * Base64-VLQ decoding of one mappings segment (ECMA-426, "Base64 VLQ"), with
 * JavaScript's 32-bit shifts written out, against an encoder that serves as
 * its specification.
 */
module Vlq {
  import opened Prelude


  // Table 1 of RFC 4648, section 4, in three runs.
  const UPPER := "ABCDEFGHIJKLMNOPQRSTUVWXYZ"
  const LOWER := "abcdefghijklmnopqrstuvwxyz"
  const DIGITS := "0123456789+/"
  const BASE64_CHARS := UPPER + LOWER + DIGITS

  // The bound of the round trip: exactly the values below it in magnitude survive.
  const LIMIT := 0x4000_0000

  // ---------------------------------------------------------------- JavaScript integers

  /** The abstract operation ToInt32 of ECMAScript. */
  function ToInt32(x: int): (r: int)
    ensures -0x8000_0000 <= r < 0x8000_0000
    ensures (r - x) % 0x1_0000_0000 == 0
    ensures -0x8000_0000 <= x < 0x8000_0000 ==> r == x
  {
    (x + 0x8000_0000) % 0x1_0000_0000 - 0x8000_0000
  }

  function Pow2(n: nat): (r: nat)
    ensures r >= 1
  {
    if n == 0 then 1 else 2 * Pow2(n - 1)
  }

  /** `x << n`: the shift count is taken modulo 32. */
  function ShiftLeft(x: nat, n: nat): int {
    ToInt32(x * Pow2(n % 32))
  }

  // ---------------------------------------------------------------- alphabet

  /** The alphabet's character at position `k`, by ranges. */
  function Digit(k: nat): char
    requires k < 64
  {
    if k < 26 then (65 + k) as char
    else if k < 52 then (71 + k) as char
    else if k < 62 then (k - 4) as char
    else if k == 62 then '+' else '/'
  }

  /** `BASE64_CHARS.indexOf(c)`, by ranges. */
  function IndexOf(c: char): (idx: int)
    ensures -1 <= idx < 64
  {
    if 'A' <= c <= 'Z' then c as int - 65
    else if 'a' <= c <= 'z' then c as int - 71
    else if '0' <= c <= '9' then c as int + 4
    else if c == '+' then 62
    else if c == '/' then 63
    else -1
  }

  lemma IndexOfDigit(k: nat)
    requires k < 64
    ensures IndexOf(Digit(k)) == k
  {
  }

  lemma DigitOfTable(k: nat)
    requires k < 64
    ensures |BASE64_CHARS| == 64 && BASE64_CHARS[k] == Digit(k)
  {
    assert |UPPER| == 26 && |LOWER| == 26 && |DIGITS| == 12;
    if k < 26 {
      assert BASE64_CHARS[k] == UPPER[k];
    } else if k < 52 {
      assert BASE64_CHARS[k] == LOWER[k - 26];
    } else {
      assert BASE64_CHARS[k] == DIGITS[k - 52];
    }
  }

  /** `Digit` and `IndexOf` are the table and its `indexOf`: the only position of `c`, or -1 when it has none. */
  lemma IndexOfTable(c: char)
    ensures forall k :: 0 <= k < |BASE64_CHARS| ==> (BASE64_CHARS[k] == c <==> IndexOf(c) == k)
    ensures IndexOf(c) < 0 <==> c !in BASE64_CHARS
  {
    DigitOfTable(0);
    forall k | 0 <= k < |BASE64_CHARS|
      ensures BASE64_CHARS[k] == c <==> IndexOf(c) == k
    {
      DigitOfTable(k);
    }
    if IndexOf(c) >= 0 {
      assert BASE64_CHARS[IndexOf(c)] == c;
    }
  }

  // ---------------------------------------------------------------- decoder

  /** `negative ? -(result >> 1) : result >> 1`, with `&` and `>>` on 32-bit integers. */
  function Finish(result: int): (v: int)
    ensures -LIMIT <= v <= LIMIT
  {
    var r := ToInt32(result);
    if r % 2 != 0 then -(r / 2) else r / 2
  }

  datatype Group = BadDigit | Group(value: int, rest: string)

  /** One run of continuation digits; `result` and `shift` are what the run has built so far. */
  function DecodeGroup(s: string, result: int, shift: nat): (g: Group)
    requires s != []
    ensures g.Group? ==> |g.rest| < |s|
  {
    var idx := IndexOf(s[0]);
    if idx < 0 then BadDigit
    else
      var sum := result + ShiftLeft(idx % 0x20, shift);
      if idx / 0x20 % 2 != 0 && |s| > 1 then DecodeGroup(s[1..], sum, shift + 5)
      else Group(Finish(sum), s[1..])
  }

  /** The integers of one segment; a character outside the alphabet ends it. */
  function DecodeVlq(s: string): (values: seq<int>)
    decreases |s|
  {
    if s == [] then []
    else
      var g := DecodeGroup(s, 0, 0);
      if g.BadDigit? then [] else [g.value] + DecodeVlq(g.rest)
  }

  lemma DecodeOfEmpty()
    ensures DecodeVlq("") == []
  {
  }

  /** One digit of a group, at position `pos`. */
  lemma DigitStep(str: string, pos: nat, result: int, shift: nat)
    requires pos < |str|
    ensures var idx := IndexOf(str[pos]);
            var sum := result + ShiftLeft(idx % 0x20, shift);
            DecodeGroup(str[pos..], result, shift) ==
            if idx < 0 then BadDigit
            else if idx / 0x20 % 2 != 0 && pos + 1 < |str| then DecodeGroup(str[pos + 1..], sum, shift + 5)
            else Group(Finish(sum), str[pos + 1..])
  {
    hide IndexOf, ShiftLeft, Finish;
    assert str[pos..][1..] == str[pos + 1..] && str[pos..][0] == str[pos];
  }

  /** `values` are the integers in front of position `pos`. */
  ghost predicate ReadUpTo(str: string, pos: nat, values: seq<int>)
    requires pos <= |str|
  {
    DecodeVlq(str) == values + DecodeVlq(str[pos..])
  }

  /** The group that starts at `start` is read up to `pos`, and goes on there or is finished. */
  ghost predicate InGroup(str: string, start: nat, pos: nat, result: int, shift: nat, goesOn: bool)
    requires start < |str| && start <= pos <= |str| && (goesOn ==> pos < |str|)
  {
    if goesOn then DecodeGroup(str[start..], 0, 0) == DecodeGroup(str[pos..], result, shift)
    else DecodeGroup(str[start..], 0, 0) == Group(Finish(result), str[pos..])
  }

  lemma StartOfSegment(str: string)
    ensures ReadUpTo(str, 0, []) && (forall pos: nat :: pos < |str| ==> InGroup(str, pos, pos, 0, 0, true))
  {
    assert str[0..] == str;
  }

  lemma NextDigit(str: string, start: nat, pos: nat, result: int, shift: nat)
    requires start <= pos < |str| && InGroup(str, start, pos, result, shift, true)
    ensures var idx := IndexOf(str[pos]);
            if idx < 0 then DecodeGroup(str[start..], 0, 0).BadDigit?
            else InGroup(str, start, pos + 1, result + ShiftLeft(idx % 0x20, shift), shift + 5, idx / 0x20 % 2 != 0 && pos + 1 < |str|)
  {
    DigitStep(str, pos, result, shift);
    hide DecodeGroup, IndexOf, ShiftLeft, Finish;
  }

  /** One group after the integers read so far: a bad digit drops it and all that follows. */
  lemma NextGroup(str: string, start: nat, pos: nat, values: seq<int>, result: int, shift: nat)
    requires start < |str| && ReadUpTo(str, start, values)
    ensures DecodeGroup(str[start..], 0, 0).BadDigit? ==> DecodeVlq(str) == values
    ensures start <= pos <= |str| && InGroup(str, start, pos, result, shift, false) ==> ReadUpTo(str, pos, values + [Finish(result)])
  {
    hide DecodeGroup, Finish;
    var g := DecodeGroup(str[start..], 0, 0);
    if g.Group? {
      Regroup(values, [g.value], DecodeVlq(g.rest));
    } else {
      assert values + [] == values;
    }
  }

  lemma EndOfSegment(str: string, values: seq<int>)
    requires ReadUpTo(str, |str|, values)
    ensures values == DecodeVlq(str)
  {
    assert str[|str|..] == "" && values + [] == values;
  }

  method DecodeVlqSegment(str: string) returns (values: seq<int>)
    ensures values == DecodeVlq(str)
  {
    hide IndexOf, ShiftLeft, Finish, DecodeGroup, DecodeVlq, ReadUpTo, InGroup;
    values := [];
    var pos := 0;
    StartOfSegment(str);
    while pos < |str|
      invariant 0 <= pos <= |str| && ReadUpTo(str, pos, values)
    {
      ghost var start := pos;
      var result, shift := 0, 0;
      var continuation := true;
      while continuation && pos < |str|
        invariant start <= pos <= |str| && 0 <= shift
        invariant InGroup(str, start, pos, result, shift, continuation && pos < |str|)
        invariant !(continuation && pos < |str|) ==> start < pos
        decreases |str| - pos
      {
        NextDigit(str, start, pos, result, shift);
        var idx := IndexOf(str[pos]);
        pos := pos + 1;
        if idx < 0 {
          NextGroup(str, start, pos, values, result, shift);
          return;
        }
        continuation := idx / 0x20 % 2 != 0;
        result := result + ShiftLeft(idx % 0x20, shift);
        shift := shift + 5;
      }
      NextGroup(str, start, pos, values, result, shift);
      values := values + [Finish(result)];
    }
    EndOfSegment(str, values);
  }

  // ---------------------------------------------------------------- encoder (the specification)

  /** The sign goes into the lowest bit. */
  function ZigZag(n: int): nat {
    if n < 0 then -2 * n + 1 else 2 * n
  }

  /** Five bits a digit, lowest first; all digits but the last carry the continuation bit. */
  function EncodeDigits(u: nat): (s: string)
    ensures s != []
  {
    if u < 32 then [Digit(u)]
    else [Digit(32 + u % 32)] + EncodeDigits(u / 32)
  }

  function Encode(n: int): (s: string)
    ensures s != []
  {
    EncodeDigits(ZigZag(n))
  }

  function EncodeAll(ns: seq<int>): string {
    if ns == [] then "" else Encode(ns[0]) + EncodeAll(ns[1..])
  }

  // ---------------------------------------------------------------- what decoding an encoding gives

  /** The sum of the shifted digits of `u`, as the decoder adds them. */
  function ShiftedSum(u: nat, shift: nat): int {
    ShiftLeft(u % 32, shift) + if u < 32 then 0 else ShiftedSum(u / 32, shift + 5)
  }

  /** What the 32-bit decoder makes of the encoding of `n`. */
  function Wrapped(n: int): (v: int)
    ensures -LIMIT <= v <= LIMIT
  {
    Finish(ShiftedSum(ZigZag(n), 0))
  }

  function WrappedAll(ns: seq<int>): (vs: seq<int>)
    ensures |vs| == |ns|
    ensures forall k :: 0 <= k < |ns| ==> vs[k] == Wrapped(ns[k])
  {
    seq(|ns|, k requires 0 <= k < |ns| => Wrapped(ns[k]))
  }

  lemma {:induction false} GroupOfDigits(u: nat, tail: string, result: int, shift: nat)
    ensures DecodeGroup(EncodeDigits(u) + tail, result, shift)
         == Group(Finish(result + ShiftedSum(u, shift)), tail)
  {
    hide Finish, ShiftLeft, IndexOf, Digit;
    var s := EncodeDigits(u) + tail;
    if u < 32 {
      IndexOfDigit(u);
      assert s[1..] == tail;
    } else {
      IndexOfDigit(32 + u % 32);
      assert s[1..] == EncodeDigits(u / 32) + tail;
      GroupOfDigits(u / 32, tail, result + ShiftLeft(u % 32, shift), shift + 5);
    }
  }

  /** Decoding works through a concatenation of encodings one integer at a time. */
  lemma {:induction false} DecodeOfEncodings(ns: seq<int>, tail: string)
    ensures DecodeVlq(EncodeAll(ns) + tail) == WrappedAll(ns) + DecodeVlq(tail)
  {
    hide DecodeGroup, EncodeDigits, Finish, ShiftedSum;
    if ns == [] {
      assert EncodeAll(ns) + tail == tail;
    } else {
      var rest := EncodeAll(ns[1..]) + tail;
      assert EncodeAll(ns) + tail == EncodeDigits(ZigZag(ns[0])) + rest;
      GroupOfDigits(ZigZag(ns[0]), rest, 0, 0);
      DecodeOfEncodings(ns[1..], tail);
      assert WrappedAll(ns) == [Wrapped(ns[0])] + WrappedAll(ns[1..]);
    }
  }

  lemma {:induction false} Pow2Plus(m: nat, n: nat)
    ensures Pow2(m + n) == Pow2(m) * Pow2(n)
  {
    if m == 0 {
      assert Pow2(0) == 1;
    } else {
      Pow2Plus(m - 1, n);
      var (a, b) := (Pow2(m - 1), Pow2(n));
      assert Pow2(m) == 2 * a && Pow2(m + n) == 2 * Pow2(m - 1 + n);
      hide Pow2;
      assert 2 * (a * b) == 2 * a * b;
    }
  }

  lemma Pow2Values()
    ensures Pow2(5) == 32 && Pow2(30) == 0x4000_0000 && Pow2(31) == 0x8000_0000
  {
    assert Pow2(5) == 32;
    Pow2Plus(5, 5);
    Pow2Plus(10, 5);
    Pow2Plus(15, 15);
  }

  lemma {:induction false} Pow2Monotone(m: nat, n: nat)
    requires m <= n
    ensures Pow2(m) <= Pow2(n)
    decreases n - m
  {
    if m < n {
      Pow2Monotone(m + 1, n);
    }
  }

  lemma ShiftWithoutWrap(x: nat, shift: nat)
    requires shift < 32 && x * Pow2(shift) < 0x8000_0000
    ensures ShiftLeft(x, shift) == x * Pow2(shift)
  {
    hide Pow2, ToInt32;
    assert shift % 32 == shift;
    assert 0 <= x * Pow2(shift);
  }

  /** A number splits into its low digit and the rest, also after shifting. */
  lemma SplitShifted(u: nat, shift: nat)
    ensures u * Pow2(shift) == u % 32 * Pow2(shift) + u / 32 * Pow2(shift + 5)
  {
    hide Pow2;
    assert Pow2(shift + 5) == 32 * Pow2(shift) by {
      Pow2Values();
      Pow2Plus(5, shift);
    }
    var low, high, p := u % 32, u / 32, Pow2(shift);
    assert u == low + 32 * high;
    assert (low + 32 * high) * p == low * p + 32 * high * p;
    assert high * (32 * p) == 32 * high * p;
  }

  /** As long as the whole number fits in 31 bits, no shift wraps. */
  lemma {:induction false} SumWithoutWrap(u: nat, shift: nat)
    requires shift < 32 || u == 0
    requires u * Pow2(shift) < 0x8000_0000
    ensures ShiftedSum(u, shift) == u * Pow2(shift)
    decreases u
  {
    hide ShiftLeft, Pow2;
    var low, high := u % 32, u / 32;
    ShiftedParts(u, shift);
    if u == 0 {
      ShiftZero(shift);
    } else {
      ShiftWithoutWrap(low, shift);
      if u >= 32 {
        if shift + 5 >= 31 {
          LargeShift(high, shift + 5);
        }
        SumWithoutWrap(high, shift + 5);
      }
    }
  }

  /** Neither part of a shifted number exceeds the whole. */
  lemma ShiftedParts(u: nat, shift: nat)
    ensures u * Pow2(shift) == u % 32 * Pow2(shift) + u / 32 * Pow2(shift + 5)
    ensures 0 <= u % 32 * Pow2(shift) <= u * Pow2(shift) && 0 <= u / 32 * Pow2(shift + 5) <= u * Pow2(shift)
    ensures u < 32 ==> u / 32 * Pow2(shift + 5) == 0
  {
    SplitShifted(u, shift);
    var (p, q) := (Pow2(shift), Pow2(shift + 5));
    hide Pow2;
    assert u % 32 * p >= 0 && u / 32 * q >= 0;
  }

  lemma LargeShift(high: nat, shift: nat)
    requires high > 0 && shift >= 31
    ensures high * Pow2(shift) >= 0x8000_0000
  {
    var p := Pow2(shift);
    Pow2Values();
    Pow2Monotone(31, shift);
    hide Pow2;
    assert high * p >= p;
  }

  lemma ShiftZero(shift: nat)
    ensures ShiftLeft(0, shift) == 0
  {
  }

  /** The two values just outside the limit come back with the sign flipped. */
  lemma WrappedAtLimit()
    ensures Wrapped(LIMIT) == -LIMIT
    ensures Wrapped(-LIMIT) == LIMIT
  {
    hide ShiftedSum;
    SumAtLimit(0);
    SumAtLimit(1);
  }

  lemma ShiftOntoSign()
    ensures ShiftLeft(2, 30) == -0x8000_0000
  {
    hide Pow2;
    Pow2Values();
  }

  /** 2^31 and 2^31 + 1: the only set high digit is shifted onto the sign bit. */
  lemma SumAtLimit(low: nat)
    requires low <= 1
    ensures ShiftedSum(0x8000_0000 + low, 0) == -0x8000_0000 + low
  {
    hide ShiftLeft;
    ShiftOntoSign();
    SumOfZeros(0x2, 25);
    SumOfZeros(0x40, 20);
    SumOfZeros(0x800, 15);
    SumOfZeros(0x1_0000, 10);
    SumOfZeros(0x20_0000, 5);
    ShiftWithoutWrap(low, 0);
  }

  lemma SumOfZeros(u: nat, shift: nat)
    requires u > 0
    ensures ShiftedSum(32 * u, shift) == ShiftedSum(u, shift + 5)
  {
    hide ShiftLeft;
    ShiftZero(shift);
  }

  lemma SumBelow(u: nat)
    requires u < 0x8000_0000
    ensures ShiftedSum(u, 0) == u
  {
    hide ShiftedSum;
    SumWithoutWrap(u, 0);
  }

  lemma FinishOfZigZag(n: int)
    requires -LIMIT < n < LIMIT
    ensures Finish(ZigZag(n)) == n
  {
  }

  /** The tight bound: 32-bit decoding is exact below 2^30 in magnitude and nowhere else. */
  lemma WrappedExactlyBelowLimit(n: int)
    ensures Wrapped(n) == n <==> -LIMIT < n < LIMIT
  {
    hide ShiftedSum, Finish;
    if -LIMIT < n < LIMIT {
      FinishOfZigZag(n);
      SumBelow(ZigZag(n));
    } else if n == LIMIT || n == -LIMIT {
      WrappedAtLimit();
    }
  }

  ghost predicate Encodable(ns: seq<int>) {
    forall k :: 0 <= k < |ns| ==> -LIMIT < ns[k] < LIMIT
  }

  lemma WrappedAllExactly(ns: seq<int>)
    ensures WrappedAll(ns) == ns <==> Encodable(ns)
  {
    forall k | 0 <= k < |ns|
      ensures Wrapped(ns[k]) == ns[k] <==> -LIMIT < ns[k] < LIMIT
    {
      WrappedExactlyBelowLimit(ns[k]);
    }
    if !Encodable(ns) {
      var k :| 0 <= k < |ns| && !(-LIMIT < ns[k] < LIMIT);
      assert WrappedAll(ns)[k] != ns[k];
    }
  }

  /** Decoding the encoding of a list gives the list back exactly when every value is below the limit. */
  lemma VlqRoundTrip(ns: seq<int>)
    ensures DecodeVlq(EncodeAll(ns)) == WrappedAll(ns)
    ensures DecodeVlq(EncodeAll(ns)) == ns <==> Encodable(ns)
  {
    DecodeOfEncodings(ns, "");
    assert EncodeAll(ns) + "" == EncodeAll(ns);
    assert WrappedAll(ns) + [] == WrappedAll(ns);
    WrappedAllExactly(ns);
  }

  /** A character outside the alphabet keeps the integers before it and drops everything after it. */
  lemma VlqStopsAtBadCharacter(ns: seq<int>, bad: char, junk: string)
    requires Encodable(ns) && IndexOf(bad) < 0
    ensures DecodeVlq(EncodeAll(ns) + [bad] + junk) == ns
  {
    assert EncodeAll(ns) + [bad] + junk == EncodeAll(ns) + ([bad] + junk);
    DecodeOfEncodings(ns, [bad] + junk);
    assert ([bad] + junk)[0] == bad;
    WrappedAllExactly(ns);
  }

  lemma {:induction false} DigitsInAlphabet(u: nat)
    ensures forall k :: 0 <= k < |EncodeDigits(u)| ==> IndexOf(EncodeDigits(u)[k]) >= 0
  {
    if u >= 32 {
      DigitsInAlphabet(u / 32);
    }
  }

  lemma {:induction false} EncodingsInAlphabet(ns: seq<int>)
    ensures forall k :: 0 <= k < |EncodeAll(ns)| ==> IndexOf(EncodeAll(ns)[k]) >= 0
  {
    if ns != [] {
      DigitsInAlphabet(ZigZag(ns[0]));
      EncodingsInAlphabet(ns[1..]);
    }
  }
}
