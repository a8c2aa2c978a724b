/**
 * The `mappings` string of a version 3 source map (ECMA-426, "Mappings
 * structure"): ';' separates generated lines, ',' separates segments, and each
 * segment holds 1, 4 or 5 delta-coded VLQ fields.
 */
module Mappings {
  import Text
  import Vlq

  datatype Segment =
    | Generated(generatedLine: int, generatedColumn: int)
    | Sourced(generatedLine: int, generatedColumn: int,
              sourceIndex: int, sourceLine: int, sourceColumn: int)
    | Named(generatedLine: int, generatedColumn: int,
            sourceIndex: int, sourceLine: int, sourceColumn: int, nameIndex: int)

  /** The running totals that are carried from line to line. */
  datatype Totals = Totals(sourceIndex: int, sourceLine: int, sourceColumn: int, nameIndex: int)

  const ZERO := Totals(0, 0, 0, 0)

  datatype Decoded<T> = Decoded(items: T, totals: Totals)

  // ---------------------------------------------------------------- decoder

  /** Adds the deltas of one segment to the column and the totals. */
  function Advance(d: seq<int>, t: Totals): Totals {
    if |d| >= 5 then Totals(t.sourceIndex + d[1], t.sourceLine + d[2], t.sourceColumn + d[3], t.nameIndex + d[4])
    else if |d| >= 4 then Totals(t.sourceIndex + d[1], t.sourceLine + d[2], t.sourceColumn + d[3], t.nameIndex)
    else t
  }

  function SegmentAt(fields: nat, line: int, column: int, t: Totals): Segment {
    if fields >= 5 then Named(line, column, t.sourceIndex, t.sourceLine, t.sourceColumn, t.nameIndex)
    else if fields >= 4 then Sourced(line, column, t.sourceIndex, t.sourceLine, t.sourceColumn)
    else Generated(line, column)
  }

  /** The segments of one line, given the strings between its commas. */
  function DecodeSegments(strs: seq<string>, line: int, column: int, t: Totals): Decoded<seq<Segment>> {
    if strs == [] then Decoded([], t)
    else
      var d := Vlq.DecodeVlq(strs[0]);
      if d == [] then DecodeSegments(strs[1..], line, column, t)
      else
        var t' := Advance(d, t);
        var rest := DecodeSegments(strs[1..], line, column + d[0], t');
        Decoded([SegmentAt(|d|, line, column + d[0], t')] + rest.items, rest.totals)
  }

  /** The generated column starts again at 0 on every line; the totals do not. */
  function DecodeLines(lines: seq<string>, line: int, t: Totals): seq<seq<Segment>> {
    if lines == [] then []
    else
      var first := DecodeSegments(Text.Split(lines[0], ','), line, 0, t);
      [first.items] + DecodeLines(lines[1..], line + 1, first.totals)
  }

  function Decode(mappings: string): seq<seq<Segment>> {
    DecodeLines(Text.Split(mappings, ';'), 0, ZERO)
  }

  lemma DecodeBlankLine(line: int, t: Totals)
    ensures DecodeSegments(Text.Split("", ','), line, 0, t) == Decoded([], t)
  {
    assert Text.Split("", ',') == [""];
    assert [""][1..] == [];
  }

  /** One step of the inner loop, at string `i`, after `done` segments. */
  lemma DecodeStep(done: seq<Segment>, strs: seq<string>, i: nat, line: int, column: int, t: Totals)
    requires i < |strs|
    ensures var d := Vlq.DecodeVlq(strs[i]);
            var here := DecodeSegments(strs[i..], line, column, t);
            if d == [] then
              here == DecodeSegments(strs[i + 1..], line, column, t)
            else
              var t' := Advance(d, t);
              var rest := DecodeSegments(strs[i + 1..], line, column + d[0], t');
              && here.totals == rest.totals
              && done + here.items == done + [SegmentAt(|d|, line, column + d[0], t')] + rest.items
  {
    hide Vlq.DecodeVlq, Advance, SegmentAt;
    assert strs[i..][1..] == strs[i + 1..];
  }

  method DecodeMappings(mappings: string) returns (result: seq<seq<Segment>>)
    ensures result == Decode(mappings)
  {
    hide Vlq.DecodeVlq, Text.Split, DecodeSegments;
    var lines := Text.Split(mappings, ';');
    result := [];
    var t := ZERO;
    var line := 0;
    while line < |lines|
      invariant 0 <= line <= |lines|
      invariant Decode(mappings) == result + DecodeLines(lines[line..], line, t)
    {
      var lineStr := lines[line];
      assert lines[line..][1..] == lines[line + 1..];
      DecodeBlankLine(line, t);
      if lineStr == "" {
        result := result + [[]];
        line := line + 1;
        continue;
      }
      var segmentStrs := Text.Split(lineStr, ',');
      var lineSegments: seq<Segment> := [];
      var prevGeneratedColumn := 0;
      ghost var whole := DecodeSegments(segmentStrs, line, 0, t);
      var i := 0;
      assert segmentStrs[0..] == segmentStrs && [] + whole.items == whole.items;
      while i < |segmentStrs|
        invariant 0 <= i <= |segmentStrs|
        invariant whole.items
               == lineSegments + DecodeSegments(segmentStrs[i..], line, prevGeneratedColumn, t).items
        invariant whole.totals == DecodeSegments(segmentStrs[i..], line, prevGeneratedColumn, t).totals
      {
        var segStr := segmentStrs[i];
        DecodeStep(lineSegments, segmentStrs, i, line, prevGeneratedColumn, t);
        i := i + 1;
        if segStr == "" {
          Vlq.DecodeOfEmpty();
          continue;
        }
        var decoded := Vlq.DecodeVlqSegment(segStr);
        if |decoded| == 0 {
          continue;
        }
        prevGeneratedColumn := prevGeneratedColumn + decoded[0];
        if |decoded| >= 4 {
          t := t.(sourceIndex := t.sourceIndex + decoded[1],
                  sourceLine := t.sourceLine + decoded[2],
                  sourceColumn := t.sourceColumn + decoded[3]);
          if |decoded| >= 5 {
            t := t.(nameIndex := t.nameIndex + decoded[4]);
            lineSegments := lineSegments + [Named(line, prevGeneratedColumn, t.sourceIndex, t.sourceLine, t.sourceColumn, t.nameIndex)];
          } else {
            lineSegments := lineSegments + [Sourced(line, prevGeneratedColumn, t.sourceIndex, t.sourceLine, t.sourceColumn)];
          }
        } else {
          lineSegments := lineSegments + [Generated(line, prevGeneratedColumn)];
        }
      }
      DecodeNothing(line, prevGeneratedColumn, t);
      assert segmentStrs[i..] == [] && lineSegments + [] == lineSegments;
      result := result + [lineSegments];
      line := line + 1;
    }
  }

  lemma DecodeNothing(line: int, column: int, t: Totals)
    ensures DecodeSegments([], line, column, t) == Decoded([], t)
  {
  }

  // ---------------------------------------------------------------- encoder (the specification)

  /** The fields of a segment relative to the column and totals before it. */
  function Deltas(s: Segment, column: int, t: Totals): (d: seq<int>)
    ensures |d| == 1 || |d| == 4 || |d| == 5
  {
    match s
    case Generated(_, c) => [c - column]
    case Sourced(_, c, si, sl, sc) => [c - column, si - t.sourceIndex, sl - t.sourceLine, sc - t.sourceColumn]
    case Named(_, c, si, sl, sc, ni) =>
      [c - column, si - t.sourceIndex, sl - t.sourceLine, sc - t.sourceColumn, ni - t.nameIndex]
  }

  /** The totals after a segment. */
  function After(s: Segment, t: Totals): Totals {
    match s
    case Generated(_, _) => t
    case Sourced(_, _, si, sl, sc) => Totals(si, sl, sc, t.nameIndex)
    case Named(_, _, si, sl, sc, ni) => Totals(si, sl, sc, ni)
  }

  function AfterLine(segments: seq<Segment>, t: Totals): Totals {
    if segments == [] then t else AfterLine(segments[1..], After(segments[0], t))
  }

  function EncodeSegments(segments: seq<Segment>, column: int, t: Totals): (strs: seq<string>)
    ensures |strs| == |segments|
  {
    if segments == [] then []
    else
      var s := segments[0];
      [Vlq.EncodeAll(Deltas(s, column, t))] + EncodeSegments(segments[1..], s.generatedColumn, After(s, t))
  }

  function EncodeLines(lines: seq<seq<Segment>>, t: Totals): (strs: seq<string>)
    ensures |strs| == |lines|
  {
    if lines == [] then []
    else [Text.Join(EncodeSegments(lines[0], 0, t), ',')] + EncodeLines(lines[1..], AfterLine(lines[0], t))
  }

  function Encode(lines: seq<seq<Segment>>): string {
    Text.Join(EncodeLines(lines, ZERO), ';')
  }

  // ---------------------------------------------------------------- what can be encoded

  /** Every segment sits on its own line and every delta is below 2^30 in magnitude. */
  ghost predicate LineFits(segments: seq<Segment>, line: int, column: int, t: Totals) {
    segments == [] ||
    (var s := segments[0];
     && s.generatedLine == line
     && Vlq.Encodable(Deltas(s, column, t))
     && LineFits(segments[1..], line, s.generatedColumn, After(s, t)))
  }

  ghost predicate LinesFit(lines: seq<seq<Segment>>, line: int, t: Totals) {
    lines == [] || (LineFits(lines[0], line, 0, t) && LinesFit(lines[1..], line + 1, AfterLine(lines[0], t)))
  }

  // ---------------------------------------------------------------- round trip

  lemma SegmentRoundTrip(s: Segment, line: int, column: int, t: Totals)
    ensures var d := Vlq.WrappedAll(Deltas(s, column, t));
            SegmentAt(|d|, line, column + d[0], Advance(d, t)) == s
            <==> s.generatedLine == line && Vlq.Encodable(Deltas(s, column, t))
    ensures var d := Deltas(s, column, t);
            column + d[0] == s.generatedColumn && Advance(d, t) == After(s, t)
  {
    hide Vlq.Wrapped;
    var d := Deltas(s, column, t);
    Vlq.WrappedAllExactly(d);
    if Vlq.Encodable(d) {
      assert Vlq.WrappedAll(d) == d;
    } else {
      var k :| 0 <= k < |d| && !(-Vlq.LIMIT < d[k] < Vlq.LIMIT);
      Vlq.WrappedExactlyBelowLimit(d[k]);
    }
  }

  lemma {:induction false} LineRoundTrip(segments: seq<Segment>, line: int, column: int, t: Totals)
    ensures LineFits(segments, line, column, t)
            ==> DecodeSegments(EncodeSegments(segments, column, t), line, column, t)
                == Decoded(segments, AfterLine(segments, t))
    ensures DecodeSegments(EncodeSegments(segments, column, t), line, column, t).items == segments
            ==> LineFits(segments, line, column, t)
  {
    hide Vlq.DecodeVlq, Vlq.EncodeAll, Deltas, After, Advance, SegmentAt;
    if segments != [] {
      var s, rest := segments[0], segments[1..];
      var d := Deltas(s, column, t);
      var strs := EncodeSegments(segments, column, t);
      Vlq.VlqRoundTrip(d);
      Vlq.WrappedAllExactly(d);
      SegmentRoundTrip(s, line, column, t);
      assert strs[1..] == EncodeSegments(rest, s.generatedColumn, After(s, t));
      LineRoundTrip(rest, line, s.generatedColumn, After(s, t));
      assert segments == [s] + rest;
    }
  }

  /** Encoded text never holds a separator, so splitting finds the encoded pieces again. */
  lemma {:induction false} SegmentsHoldNoSeparator(segments: seq<Segment>, column: int, t: Totals)
    ensures forall k :: 0 <= k < |segments| ==>
              ',' !in EncodeSegments(segments, column, t)[k] && ';' !in EncodeSegments(segments, column, t)[k]
  {
    if segments != [] {
      var s := segments[0];
      Vlq.EncodingsInAlphabet(Deltas(s, column, t));
      SegmentsHoldNoSeparator(segments[1..], s.generatedColumn, After(s, t));
    }
  }

  lemma {:induction false} JoinHoldsNo(c: char, parts: seq<string>, sep: char)
    requires c != sep
    requires forall k :: 0 <= k < |parts| ==> c !in parts[k]
    ensures c !in Text.Join(parts, sep)
  {
    if |parts| > 1 {
      JoinHoldsNo(c, parts[1..], sep);
    }
  }

  lemma {:induction false} LinesHoldNoSemicolon(lines: seq<seq<Segment>>, t: Totals)
    ensures forall k :: 0 <= k < |lines| ==> ';' !in EncodeLines(lines, t)[k]
  {
    if lines != [] {
      SegmentsHoldNoSeparator(lines[0], 0, t);
      JoinHoldsNo(';', EncodeSegments(lines[0], 0, t), ',');
      LinesHoldNoSemicolon(lines[1..], AfterLine(lines[0], t));
    }
  }

  /** Splitting an encoded line at its commas gives its segments, or one empty string for an empty line. */
  lemma DecodeEncodedLine(segments: seq<Segment>, line: int, t: Totals)
    ensures DecodeSegments(Text.Split(Text.Join(EncodeSegments(segments, 0, t), ','), ','), line, 0, t)
         == DecodeSegments(EncodeSegments(segments, 0, t), line, 0, t)
  {
    if segments == [] {
      DecodeBlankLine(line, t);
      DecodeNothing(line, 0, t);
    } else {
      SegmentsHoldNoSeparator(segments, 0, t);
      Text.SplitOfJoin(EncodeSegments(segments, 0, t), ',');
    }
  }

  lemma {:induction false} LinesRoundTrip(lines: seq<seq<Segment>>, line: int, t: Totals)
    ensures DecodeLines(EncodeLines(lines, t), line, t) == lines <==> LinesFit(lines, line, t)
  {
    hide DecodeSegments, EncodeSegments, LineFits, AfterLine;
    if lines != [] {
      DecodeEncodedLine(lines[0], line, t);
      LineRoundTrip(lines[0], line, 0, t);
      LinesRoundTrip(lines[1..], line + 1, AfterLine(lines[0], t));
    }
  }

  /**
   * Decoding the encoding of a list of lines gives the lines back exactly when there is
   * at least one line, every segment carries its own line number, and every delta is
   * below 2^30 in magnitude.
   */
  lemma MappingsRoundTrip(lines: seq<seq<Segment>>)
    ensures Decode(Encode(lines)) == lines <==> lines != [] && LinesFit(lines, 0, ZERO)
  {
    hide DecodeLines, EncodeLines, LinesFit;
    LinesHoldNoSemicolon(lines, ZERO);
    LinesRoundTrip(lines, 0, ZERO);
    if lines == [] {
      DecodeNeverEmpty("");
    } else {
      Text.SplitOfJoin(EncodeLines(lines, ZERO), ';');
    }
  }

  lemma {:induction false} DecodeLinesLength(lines: seq<string>, line: int, t: Totals)
    ensures |DecodeLines(lines, line, t)| == |lines|
  {
    if lines != [] {
      DecodeLinesLength(lines[1..], line + 1, DecodeSegments(Text.Split(lines[0], ','), line, 0, t).totals);
    }
  }

  /** One decoded line per ';'-separated part, so never none. */
  lemma DecodeNeverEmpty(mappings: string)
    ensures |Decode(mappings)| == |Text.Split(mappings, ';')| >= 1
  {
    DecodeLinesLength(Text.Split(mappings, ';'), 0, ZERO);
  }
}
