/**
 * Rule-driven redaction of a projected target: an element's tag, attributes and text preview.
 * Which attribute names are sensitive is a parameter.
 */
module Redaction {
  import opened Prelude
  import opened Text

  const MARKER := "[REDACTED"
  const SENSITIVE_ATTRIBUTE := "sensitive-attribute"
  const SENSITIVE_DESCRIPTION := "Value of a credential-bearing DOM attribute was masked."

  datatype Entry = Entry(name: string, value: string)

  datatype Action = MaskValue | Exclude

  /** `attributes` pairs a name with the substring its value must contain. */
  datatype Descriptor = Descriptor(tagName: Option<string>, attributes: Option<seq<(string, string)>>, hasAttribute: Option<seq<string>>)

  datatype Rule = Rule(id: string, description: string, shape: Descriptor, action: Action)

  datatype Target = Target(tagName: string, text: string, attributes: seq<Entry>)

  datatype Notice = Notice(field: string, patternId: string, description: string)

  // ---------------------------------------------------------------- text

  function LowerChar(c: char): char {
    if 'A' <= c <= 'Z' then c - 'A' + 'a' else c
  }

  function Lower(s: string): string {
    seq(|s|, i requires 0 <= i < |s| => LowerChar(s[i]))
  }

  function Mask(id: string): string {
    MARKER + ":" + id + "]"
  }

  predicate AlreadyRedacted(value: string) {
    MARKER <= value
  }

  // ---------------------------------------------------------------- matching

  function FindAttribute(attributes: seq<Entry>, name: string): Option<Entry> {
    if attributes == [] then None
    else if Lower(attributes[0].name) == name then Some(attributes[0])
    else FindAttribute(attributes[1..], name)
  }

  predicate Holds(attributes: seq<Entry>, name: string, part: string) {
    var entry := FindAttribute(attributes, name);
    entry.Some? && Contains(Lower(entry.value.value), Lower(part))
  }

  predicate DescriptorMatches(tagName: string, attributes: seq<Entry>, d: Descriptor) {
    && (d.tagName.Some? ==> Lower(tagName) == d.tagName.value)
    && (d.hasAttribute.Some? ==> forall n :: n in d.hasAttribute.value ==> FindAttribute(attributes, n).Some?)
    && (d.attributes.Some? ==> forall p :: p in d.attributes.value ==> Holds(attributes, p.0, p.1))
  }

  predicate Matches(t: Target, rule: Rule) {
    DescriptorMatches(t.tagName, t.attributes, rule.shape)
  }

  function Matched(t: Target, rules: seq<Rule>): seq<Rule> {
    if rules == [] then []
    else if Matches(t, rules[0]) then [rules[0]] + Matched(t, rules[1..])
    else Matched(t, rules[1..])
  }

  // ---------------------------------------------------------------- redacting

  type Names = string -> bool

  predicate Exposed(entry: Entry, sensitive: Names) {
    sensitive(entry.name) && !AlreadyRedacted(entry.value)
  }

  function MaskEntry(entry: Entry, sensitive: Names): Entry {
    if Exposed(entry, sensitive) then Entry(entry.name, Mask(SENSITIVE_ATTRIBUTE)) else entry
  }

  function MaskSensitive(attributes: seq<Entry>, sensitive: Names): seq<Entry> {
    seq(|attributes|, i requires 0 <= i < |attributes| => MaskEntry(attributes[i], sensitive))
  }

  function SensitiveNotices(attributes: seq<Entry>, sensitive: Names): seq<Notice> {
    if attributes == [] then []
    else
      var last := attributes[|attributes| - 1];
      SensitiveNotices(attributes[..|attributes| - 1], sensitive)
      + if Exposed(last, sensitive)
        then [Notice("target.attributes." + last.name, SENSITIVE_ATTRIBUTE, SENSITIVE_DESCRIPTION)]
        else []
  }

  predicate IsValue(entry: Entry) {
    Lower(entry.name) == "value"
  }

  function MaskValues(attributes: seq<Entry>, masked: string): seq<Entry> {
    seq(|attributes|, i requires 0 <= i < |attributes| =>
      if IsValue(attributes[i]) then Entry(attributes[i].name, masked) else attributes[i])
  }

  function Drop(attributes: seq<Entry>, names: seq<string>): seq<Entry> {
    if attributes == [] then []
    else if Lower(attributes[0].name) in names then Drop(attributes[1..], names)
    else [attributes[0]] + Drop(attributes[1..], names)
  }

  function LowerAll(names: seq<string>): seq<string> {
    seq(|names|, i requires 0 <= i < |names| => Lower(names[i]))
  }

  function Keys(pairs: seq<(string, string)>): seq<string> {
    seq(|pairs|, i requires 0 <= i < |pairs| => pairs[i].0)
  }

  /** The attribute names an excluding rule drops: the required ones, or else those of the value conditions. */
  function Triggers(d: Descriptor): seq<string> {
    LowerAll(d.hasAttribute.GetOr(Keys(d.attributes.GetOr([]))))
  }

  /** The values the loop over the matched rules changes. */
  datatype State = State(attributes: seq<Entry>, text: string, notices: seq<Notice>)

  predicate ValueShows(attributes: seq<Entry>) {
    var entry := FindAttribute(attributes, "value");
    entry.Some? && !AlreadyRedacted(entry.value.value)
  }

  predicate TextShows(text: string) {
    |text| > 0 && !AlreadyRedacted(text)
  }

  function RedactText(s: State, rule: Rule): State {
    if TextShows(s.text) then
      State(s.attributes, Mask(rule.id), s.notices + [Notice("target.semantic.textContentPreview", rule.id, rule.description)])
    else s
  }

  function RedactValue(s: State, rule: Rule): State {
    if ValueShows(s.attributes) then
      State(MaskValues(s.attributes, Mask(rule.id)), s.text, s.notices + [Notice("target.attributes.value", rule.id, rule.description)])
    else s
  }

  function DropTriggers(s: State, rule: Rule): State {
    var kept := Drop(s.attributes, Triggers(rule.shape));
    State(kept, s.text,
          if |kept| != |s.attributes| then s.notices + [Notice("target.attributes", rule.id, rule.description)] else s.notices)
  }

  function Apply(s: State, rule: Rule): State {
    match rule.action
    case MaskValue => RedactText(RedactValue(s, rule), rule)
    case Exclude => RedactText(DropTriggers(s, rule), rule)
  }

  function ApplyAll(s: State, rules: seq<Rule>): State {
    if rules == [] then s
    else Apply(ApplyAll(s, rules[..|rules| - 1]), rules[|rules| - 1])
  }

  function Start(t: Target, sensitive: Names): State {
    State(MaskSensitive(t.attributes, sensitive), t.text, SensitiveNotices(t.attributes, sensitive))
  }

  function Final(t: Target, rules: seq<Rule>, sensitive: Names): State {
    ApplyAll(Start(t, sensitive), Matched(t, rules))
  }

  function Redacted(t: Target, rules: seq<Rule>, sensitive: Names): Target {
    var s := Final(t, rules, sensitive);
    Target(t.tagName, s.text, s.attributes)
  }

  function Notices(t: Target, rules: seq<Rule>, sensitive: Names): seq<Notice> {
    Final(t, rules, sensitive).notices
  }

  lemma MaskSensitiveNext(attributes: seq<Entry>, sensitive: Names, i: nat)
    requires i < |attributes|
    ensures MaskSensitive(attributes[..i + 1], sensitive) == MaskSensitive(attributes[..i], sensitive) + [MaskEntry(attributes[i], sensitive)]
    ensures SensitiveNotices(attributes[..i + 1], sensitive)
         == SensitiveNotices(attributes[..i], sensitive) + SensitiveNotices([attributes[i]], sensitive)
  {
    assert attributes[..i + 1][..i] == attributes[..i];
  }

  lemma {:induction false} NothingExposed(attributes: seq<Entry>, sensitive: Names)
    ensures SensitiveNotices(attributes, sensitive) == [] <==> forall e :: e in attributes ==> !Exposed(e, sensitive)
    ensures SensitiveNotices(attributes, sensitive) == [] ==> MaskSensitive(attributes, sensitive) == attributes
  {
    if attributes != [] {
      var init := attributes[..|attributes| - 1];
      NothingExposed(init, sensitive);
      assert attributes == init + [attributes[|attributes| - 1]];
    }
  }

  method RedactTarget(t: Target, rules: seq<Rule>, sensitive: Names) returns (target: Target, notices: seq<Notice>)
    ensures target == Redacted(t, rules, sensitive) && notices == Notices(t, rules, sensitive)
  {
    var matched := Matched(t, rules);
    var attributes := [];
    notices := [];
    for i := 0 to |t.attributes|
      invariant attributes == MaskSensitive(t.attributes[..i], sensitive)
      invariant notices == SensitiveNotices(t.attributes[..i], sensitive)
    {
      var entry := t.attributes[i];
      MaskSensitiveNext(t.attributes, sensitive, i);
      if Exposed(entry, sensitive) {
        notices := notices + [Notice("target.attributes." + entry.name, SENSITIVE_ATTRIBUTE, SENSITIVE_DESCRIPTION)];
        attributes := attributes + [Entry(entry.name, Mask(SENSITIVE_ATTRIBUTE))];
      } else {
        attributes := attributes + [entry];
      }
    }
    assert t.attributes[..|t.attributes|] == t.attributes;
    if matched == [] && notices == [] {
      NothingExposed(t.attributes, sensitive);
      return t, [];
    }
    var text := t.text;
    for i := 0 to |matched|
      invariant State(attributes, text, notices) == ApplyAll(Start(t, sensitive), matched[..i])
    {
      var rule := matched[i];
      assert matched[..i + 1][..i] == matched[..i];
      hide MaskSensitive, SensitiveNotices, FindAttribute, Drop, MaskValues, Triggers, ApplyAll;
      assert ApplyAll(Start(t, sensitive), matched[..i + 1]) == Apply(State(attributes, text, notices), rule) by {
        ApplyAllNext(Start(t, sensitive), matched, i);
      }
      if rule.action == MaskValue {
        var value := FindAttribute(attributes, "value");
        if value.Some? && !AlreadyRedacted(value.value.value) {
          attributes := MaskValues(attributes, Mask(rule.id));
          notices := notices + [Notice("target.attributes.value", rule.id, rule.description)];
        }
        if |text| > 0 && !AlreadyRedacted(text) {
          text := Mask(rule.id);
          notices := notices + [Notice("target.semantic.textContentPreview", rule.id, rule.description)];
        }
      } else {
        var before := |attributes|;
        attributes := Drop(attributes, Triggers(rule.shape));
        if |attributes| != before {
          notices := notices + [Notice("target.attributes", rule.id, rule.description)];
        }
        if |text| > 0 && !AlreadyRedacted(text) {
          text := Mask(rule.id);
          notices := notices + [Notice("target.semantic.textContentPreview", rule.id, rule.description)];
        }
      }
    }
    assert matched[..|matched|] == matched;
    target := Target(t.tagName, text, attributes);
  }

  lemma ApplyAllNext(s: State, rules: seq<Rule>, i: nat)
    requires i < |rules|
    ensures ApplyAll(s, rules[..i + 1]) == Apply(ApplyAll(s, rules[..i]), rules[i])
  {
    assert rules[..i + 1][..i] == rules[..i];
  }

  // ---------------------------------------------------------------- the result in closed form

  /** The first rule that masks the value is the one the mask names. */
  function FirstMasker(rules: seq<Rule>): Option<string> {
    if rules == [] then None
    else if rules[0].action == MaskValue then Some(rules[0].id)
    else FirstMasker(rules[1..])
  }

  function Excluded(rules: seq<Rule>): seq<string> {
    if rules == [] then []
    else if rules[0].action == Exclude then Triggers(rules[0].shape) + Excluded(rules[1..])
    else Excluded(rules[1..])
  }

  function ValuesMasked(attributes: seq<Entry>, masker: Option<string>): seq<Entry> {
    if masker.Some? && ValueShows(attributes) then MaskValues(attributes, Mask(masker.value)) else attributes
  }

  lemma {:induction false} FindInDrop(attributes: seq<Entry>, names: seq<string>, name: string)
    ensures FindAttribute(Drop(attributes, names), name) == if name in names then None else FindAttribute(attributes, name)
  {
    if attributes != [] {
      FindInDrop(attributes[1..], names, name);
      var rest := Drop(attributes[1..], names);
      if Lower(attributes[0].name) !in names {
        assert ([attributes[0]] + rest)[1..] == rest;
      }
    }
  }

  lemma {:induction false} FindInMaskValues(attributes: seq<Entry>, masked: string, name: string)
    ensures var found := FindAttribute(attributes, name);
            FindAttribute(MaskValues(attributes, masked), name)
            == if found.Some? && name == "value" then Some(Entry(found.value.name, masked)) else found
  {
    if attributes != [] {
      assert MaskValues(attributes, masked)[1..] == MaskValues(attributes[1..], masked);
      FindInMaskValues(attributes[1..], masked, name);
    }
  }

  lemma {:induction false} FindInMaskSensitive(attributes: seq<Entry>, sensitive: Names, name: string)
    ensures var found := FindAttribute(attributes, name);
            FindAttribute(MaskSensitive(attributes, sensitive), name)
            == if found.Some? then Some(MaskEntry(found.value, sensitive)) else None
  {
    if attributes != [] {
      assert MaskSensitive(attributes, sensitive)[1..] == MaskSensitive(attributes[1..], sensitive);
      FindInMaskSensitive(attributes[1..], sensitive, name);
    }
  }

  lemma {:induction false} DropOfMaskValues(attributes: seq<Entry>, names: seq<string>, masked: string)
    ensures Drop(MaskValues(attributes, masked), names) == MaskValues(Drop(attributes, names), masked)
  {
    if attributes != [] {
      assert MaskValues(attributes, masked)[1..] == MaskValues(attributes[1..], masked);
      DropOfMaskValues(attributes[1..], names, masked);
    }
  }

  lemma {:induction false} DropOfDrop(attributes: seq<Entry>, names: seq<string>, more: seq<string>)
    ensures Drop(Drop(attributes, names), more) == Drop(attributes, names + more)
  {
    if attributes != [] {
      DropOfDrop(attributes[1..], names, more);
      var rest := Drop(attributes[1..], names);
      if Lower(attributes[0].name) !in names {
        assert ([attributes[0]] + rest)[1..] == rest;
      }
    }
  }

  lemma {:induction false} DroppedNames(attributes: seq<Entry>, names: seq<string>)
    ensures forall e :: e in Drop(attributes, names) <==> e in attributes && Lower(e.name) !in names
    ensures |Drop(attributes, names)| <= |attributes|
    ensures |Drop(attributes, names)| == |attributes| <==> forall e :: e in attributes ==> Lower(e.name) !in names
    ensures |Drop(attributes, names)| == |attributes| ==> Drop(attributes, names) == attributes
  {
    if attributes != [] {
      DroppedNames(attributes[1..], names);
      assert attributes == [attributes[0]] + attributes[1..];
    }
  }

  lemma {:induction false} FirstMaskerNext(rules: seq<Rule>, rule: Rule)
    ensures FirstMasker(rules + [rule])
         == if FirstMasker(rules).Some? then FirstMasker(rules)
            else if rule.action == MaskValue then Some(rule.id) else None
    ensures Excluded(rules + [rule]) == Excluded(rules) + if rule.action == Exclude then Triggers(rule.shape) else []
  {
    if rules != [] {
      assert (rules + [rule])[1..] == rules[1..] + [rule];
      FirstMaskerNext(rules[1..], rule);
    } else {
      assert rules + [rule] == [rule] && [rule][1..] == [];
    }
  }

  lemma MaskingTwice(attributes: seq<Entry>, names: seq<string>, id: string)
    ensures ValuesMasked(Drop(attributes, names), Some(id)) == Drop(ValuesMasked(attributes, Some(id)), names)
  {
    FindInDrop(attributes, names, "value");
    DropOfMaskValues(attributes, names, Mask(id));
    if "value" in names {
      DroppedNames(attributes, names);
    }
  }

  lemma MaskedOnce(attributes: seq<Entry>, names: seq<string>, first: string)
    ensures !ValueShows(Drop(ValuesMasked(attributes, Some(first)), names))
  {
    FindInMaskValues(attributes, Mask(first), "value");
    FindInDrop(ValuesMasked(attributes, Some(first)), names, "value");
  }

  lemma ApplyExactly(s: State, rule: Rule)
    ensures Apply(s, rule).attributes
         == if rule.action == Exclude then Drop(s.attributes, Triggers(rule.shape)) else ValuesMasked(s.attributes, Some(rule.id))
    ensures Apply(s, rule).text == if TextShows(s.text) then Mask(rule.id) else s.text
  {
  }

  lemma MaskHides(id: string)
    ensures AlreadyRedacted(Mask(id)) && !TextShows(Mask(id))
  {
  }

  lemma {:induction false} TextExactly(s: State, rules: seq<Rule>)
    ensures ApplyAll(s, rules).text == if rules != [] && TextShows(s.text) then Mask(rules[0].id) else s.text
  {
    if rules != [] {
      var init, last := rules[..|rules| - 1], rules[|rules| - 1];
      TextExactly(s, init);
      ApplyExactly(ApplyAll(s, init), last);
      MaskHides(rules[0].id);
      hide Apply, Mask, TextShows;
    }
  }

  lemma {:induction false} AttributesExactly(s: State, rules: seq<Rule>)
    ensures ApplyAll(s, rules).attributes == Drop(ValuesMasked(s.attributes, FirstMasker(rules)), Excluded(rules))
  {
    if rules == [] {
      DroppedNames(s.attributes, []);
    } else {
      var init, last := rules[..|rules| - 1], rules[|rules| - 1];
      assert rules == init + [last];
      AttributesExactly(s, init);
      FirstMaskerNext(init, last);
      ApplyExactly(ApplyAll(s, init), last);
      hide Drop, FindAttribute, Triggers, Apply, FirstMasker, Excluded;
      if last.action == Exclude {
        DropOfDrop(ValuesMasked(s.attributes, FirstMasker(init)), Excluded(init), Triggers(last.shape));
      } else if FirstMasker(init).Some? {
        MaskedOnce(s.attributes, Excluded(init), FirstMasker(init).value);
        assert Excluded(init) + [] == Excluded(init);
      } else {
        MaskingTwice(s.attributes, Excluded(init), last.id);
        assert Excluded(init) + [] == Excluded(init);
      }
    }
  }

  /**
   * The redacted target: sensitive attributes are masked, the value attributes carry the mask of
   * the first matched masking rule if the first of them still showed, the attributes that trigger
   * a matched excluding rule are gone, and the text carries the mask of the first matched rule.
   */
  lemma RedactedExactly(t: Target, rules: seq<Rule>, sensitive: Names)
    ensures var matched := Matched(t, rules);
            Redacted(t, rules, sensitive)
            == Target(t.tagName,
                      if matched != [] && TextShows(t.text) then Mask(matched[0].id) else t.text,
                      Drop(ValuesMasked(MaskSensitive(t.attributes, sensitive), FirstMasker(matched)), Excluded(matched)))
  {
    TextExactly(Start(t, sensitive), Matched(t, rules));
    AttributesExactly(Start(t, sensitive), Matched(t, rules));
  }

  // ---------------------------------------------------------------- completeness

  lemma {:induction false} MatchedHolds(t: Target, rules: seq<Rule>)
    ensures forall r :: r in Matched(t, rules) <==> r in rules && Matches(t, r)
  {
    if rules != [] {
      MatchedHolds(t, rules[1..]);
    }
  }

  lemma {:induction false} MaskerAmong(rules: seq<Rule>, rule: Rule)
    requires rule in rules
    ensures rule.action == MaskValue ==> FirstMasker(rules).Some?
    ensures rule.action == Exclude ==> forall n :: n in Triggers(rule.shape) ==> n in Excluded(rules)
  {
    if rule != rules[0] {
      MaskerAmong(rules[1..], rule);
    }
  }

  /** Whatever the other rules are, a matching rule leaves nothing of what it is meant to hide. */
  lemma MatchingRuleHides(t: Target, rules: seq<Rule>, sensitive: Names, rule: Rule)
    requires rule in rules && Matches(t, rule)
    ensures Settled(Redacted(t, rules, sensitive), rule)
  {
    var matched := Matched(t, rules);
    var shown := MaskSensitive(t.attributes, sensitive);
    MatchedHolds(t, rules);
    MaskerAmong(matched, rule);
    RedactedExactly(t, rules, sensitive);
    hide Drop, MaskValues, MaskSensitive, FindAttribute, Triggers, Matched, Redacted;
    if rule.action == MaskValue {
      MaskedOnce(shown, Excluded(matched), FirstMasker(matched).value);
    } else {
      DroppedNames(ValuesMasked(shown, FirstMasker(matched)), Excluded(matched));
    }
  }

  /** What `rule` is meant to hide is hidden. */
  ghost predicate Settled(t: Target, rule: Rule) {
    && !TextShows(t.text)
    && (rule.action == MaskValue ==> !ValueShows(t.attributes))
    && (rule.action == Exclude ==> forall e :: e in t.attributes ==> Lower(e.name) !in Triggers(rule.shape))
  }

  /** No sensitive attribute shows, and no attribute that no part of the redaction names has changed. */
  lemma AttributesAreMaskedOrKept(t: Target, rules: seq<Rule>, sensitive: Names, e: Entry)
    ensures e in Redacted(t, rules, sensitive).attributes ==> !Exposed(e, sensitive)
    ensures !sensitive(e.name) && !IsValue(e) && Lower(e.name) !in Excluded(Matched(t, rules))
        ==> (e in Redacted(t, rules, sensitive).attributes <==> e in t.attributes)
  {
    var matched := Matched(t, rules);
    var shown := MaskSensitive(t.attributes, sensitive);
    RedactedExactly(t, rules, sensitive);
    DroppedNames(ValuesMasked(shown, FirstMasker(matched)), Excluded(matched));
    hide Drop, Matched, Redacted, FindAttribute, Excluded;
    if e in t.attributes {
      var i :| 0 <= i < |t.attributes| && t.attributes[i] == e;
      assert shown[i] == MaskEntry(e, sensitive);
      var mask := Mask(FirstMasker(matched).GetOr(""));
      assert MaskValues(shown, mask)[i] == if IsValue(shown[i]) then Entry(shown[i].name, mask) else shown[i];
    }
  }

  // ---------------------------------------------------------------- what is reported

  function Showing(attributes: seq<Entry>): nat {
    if attributes == [] then 0
    else Showing(attributes[1..]) + if AlreadyRedacted(attributes[0].value) then 1 else 2
  }

  /** How much there is left to hide. */
  function Exposure(attributes: seq<Entry>, text: string): nat {
    Showing(attributes) + if TextShows(text) then 1 else 0
  }

  lemma {:induction false} ShowingAfterMaskValues(attributes: seq<Entry>, id: string)
    ensures Showing(MaskValues(attributes, Mask(id))) <= Showing(attributes)
    ensures ValueShows(attributes) ==> Showing(MaskValues(attributes, Mask(id))) < Showing(attributes)
  {
    MaskHides(id);
    if attributes != [] {
      assert MaskValues(attributes, Mask(id))[1..] == MaskValues(attributes[1..], Mask(id));
      ShowingAfterMaskValues(attributes[1..], id);
      hide Mask;
    }
  }

  lemma {:induction false} ShowingAfterDrop(attributes: seq<Entry>, names: seq<string>)
    ensures Showing(Drop(attributes, names)) + |attributes| - |Drop(attributes, names)| <= Showing(attributes)
  {
    if attributes != [] {
      ShowingAfterDrop(attributes[1..], names);
      var rest := Drop(attributes[1..], names);
      assert ([attributes[0]] + rest)[1..] == rest;
    }
  }

  lemma {:induction false} ShowingOfAppend(a: seq<Entry>, b: seq<Entry>)
    ensures Showing(a + b) == Showing(a) + Showing(b)
  {
    if a == [] {
      assert a + b == b;
    } else {
      assert (a + b)[1..] == a[1..] + b;
      ShowingOfAppend(a[1..], b);
    }
  }

  lemma {:induction false} SensitiveNoticesCount(attributes: seq<Entry>, sensitive: Names)
    ensures |SensitiveNotices(attributes, sensitive)| + Showing(MaskSensitive(attributes, sensitive)) == Showing(attributes)
  {
    if attributes != [] {
      var n := |attributes| - 1;
      var (init, last) := (attributes[..n], attributes[n]);
      SensitiveNoticesCount(init, sensitive);
      assert attributes == init + [last];
      assert MaskSensitive(attributes, sensitive) == MaskSensitive(init, sensitive) + [MaskEntry(last, sensitive)];
      ShowingOfAppend(init, [last]);
      ShowingOfAppend(MaskSensitive(init, sensitive), [MaskEntry(last, sensitive)]);
      MaskHides(SENSITIVE_ATTRIBUTE);
      hide MaskSensitive, Mask;
      assert [last][1..] == [];
    }
  }

  /** Every notice stands for something that was hidden, and where there is none nothing has changed. */
  lemma ApplyNotices(s: State, rule: Rule)
    ensures var after := Apply(s, rule);
            && s.notices <= after.notices
            && |after.notices| - |s.notices| + Exposure(after.attributes, after.text) <= Exposure(s.attributes, s.text)
    ensures |Apply(s, rule).notices| == |s.notices| <==> Settled(Target("", s.text, s.attributes), rule)
    ensures |Apply(s, rule).notices| == |s.notices| ==> Apply(s, rule) == s
  {
    ShowingAfterMaskValues(s.attributes, rule.id);
    ShowingAfterDrop(s.attributes, Triggers(rule.shape));
    DroppedNames(s.attributes, Triggers(rule.shape));
    MaskHides(rule.id);
    hide Drop, MaskValues, Mask, Triggers, FindAttribute, Showing, AlreadyRedacted;
  }

  lemma {:induction false} ApplyAllNotices(s: State, rules: seq<Rule>)
    ensures var after := ApplyAll(s, rules);
            && s.notices <= after.notices
            && |after.notices| - |s.notices| + Exposure(after.attributes, after.text) <= Exposure(s.attributes, s.text)
    ensures |ApplyAll(s, rules).notices| == |s.notices|
       <==> forall r :: r in rules ==> Settled(Target("", s.text, s.attributes), r)
    ensures |ApplyAll(s, rules).notices| == |s.notices| ==> ApplyAll(s, rules) == s
  {
    if rules != [] {
      var init, last := rules[..|rules| - 1], rules[|rules| - 1];
      assert rules == init + [last];
      ApplyAllNotices(s, init);
      ApplyNotices(ApplyAll(s, init), last);
      hide Apply, Settled, Exposure;
    }
  }

  /** A report is empty exactly when the target is unchanged, and it names no more than there was to hide. */
  lemma ReportIsEmptyExactly(t: Target, rules: seq<Rule>, sensitive: Names)
    ensures Notices(t, rules, sensitive) == [] <==> Redacted(t, rules, sensitive) == t
    ensures var r := Redacted(t, rules, sensitive);
            |Notices(t, rules, sensitive)| + Exposure(r.attributes, r.text) <= Exposure(t.attributes, t.text)
  {
    SensitiveNoticesCount(t.attributes, sensitive);
    NothingExposed(t.attributes, sensitive);
    ApplyAllNotices(Start(t, sensitive), Matched(t, rules));
    hide MaskSensitive, SensitiveNotices, ApplyAll, Showing, Matched, Settled;
  }

  /** A pass finds nothing to do exactly when nothing sensitive shows and every matching rule is settled. */
  lemma NothingToDoExactly(t: Target, rules: seq<Rule>, sensitive: Names)
    ensures Notices(t, rules, sensitive) == []
       <==> && (forall e :: e in t.attributes ==> !Exposed(e, sensitive))
            && (forall r :: r in rules && Matches(t, r) ==> Settled(t, r))
  {
    var s := Start(t, sensitive);
    NothingExposed(t.attributes, sensitive);
    MatchedHolds(t, rules);
    ApplyAllNotices(s, Matched(t, rules));
    hide MaskSensitive, SensitiveNotices, ApplyAll, Matched, Matches, TextShows, ValueShows, Triggers;
    if SensitiveNotices(t.attributes, sensitive) == [] {
      assert forall r :: Settled(Target("", s.text, s.attributes), r) <==> Settled(t, r);
    }
  }

  // ---------------------------------------------------------------- idempotence

  /** A second pass neither changes nor reports anything. */
  ghost predicate Idempotent(t: Target, rules: seq<Rule>, sensitive: Names) {
    var once := Redacted(t, rules, sensitive);
    Redacted(once, rules, sensitive) == once && Notices(once, rules, sensitive) == []
  }

  /** Only a rule that a mask itself has made match can undo idempotence. */
  lemma IdempotentByNewMatches(t: Target, rules: seq<Rule>, sensitive: Names)
    ensures Idempotent(t, rules, sensitive)
       <==> var once := Redacted(t, rules, sensitive);
            forall r :: r in rules && !Matches(t, r) && Matches(once, r) ==> Settled(once, r)
  {
    var once := Redacted(t, rules, sensitive);
    ReportIsEmptyExactly(once, rules, sensitive);
    NothingToDoExactly(once, rules, sensitive);
    forall e | e in once.attributes
      ensures !Exposed(e, sensitive)
    {
      AttributesAreMaskedOrKept(t, rules, sensitive, e);
    }
    forall r | r in rules && Matches(t, r)
      ensures Settled(once, r)
    {
      MatchingRuleHides(t, rules, sensitive, r);
    }
    hide Redacted, Notices, Matches, Settled, Exposed;
  }

  /** The first attribute of this name after redaction, read off the target. */
  function AttributeOnce(t: Target, rules: seq<Rule>, sensitive: Names, name: string): Option<Entry> {
    var matched := Matched(t, rules);
    var found := FindAttribute(t.attributes, name);
    if found.None? || name in Excluded(matched) then None
    else
      var e := found.value;
      if name == "value" && FirstMasker(matched).Some? && !sensitive(e.name) && !AlreadyRedacted(e.value)
      then Some(Entry(e.name, Mask(FirstMasker(matched).value)))
      else Some(MaskEntry(e, sensitive))
  }

  lemma AttributeOnceExactly(t: Target, rules: seq<Rule>, sensitive: Names, name: string)
    ensures FindAttribute(Redacted(t, rules, sensitive).attributes, name) == AttributeOnce(t, rules, sensitive, name)
  {
    var matched := Matched(t, rules);
    var shown := MaskSensitive(t.attributes, sensitive);
    var masker := FirstMasker(matched);
    RedactedExactly(t, rules, sensitive);
    FindInDrop(ValuesMasked(shown, masker), Excluded(matched), name);
    FindInMaskSensitive(t.attributes, sensitive, name);
    FindInMaskSensitive(t.attributes, sensitive, "value");
    FindInMaskValues(shown, Mask(masker.GetOr("")), name);
    MaskHides(SENSITIVE_ATTRIBUTE);
    hide Drop, MaskValues, MaskSensitive, Matched, Redacted, FindAttribute, Excluded, FirstMasker, Mask;
  }

  /** Will the rule match after redaction? */
  predicate MatchesOnce(t: Target, rules: seq<Rule>, sensitive: Names, rule: Rule) {
    var d := rule.shape;
    && (d.tagName.Some? ==> Lower(t.tagName) == d.tagName.value)
    && (d.hasAttribute.Some? ==> forall n :: n in d.hasAttribute.value ==> AttributeOnce(t, rules, sensitive, n).Some?)
    && (d.attributes.Some? ==> forall p :: p in d.attributes.value ==>
          var e := AttributeOnce(t, rules, sensitive, p.0);
          e.Some? && Contains(Lower(e.value.value), Lower(p.1)))
  }

  /** Will there be nothing left for the rule to hide? */
  predicate SettledOnce(t: Target, rules: seq<Rule>, sensitive: Names, rule: Rule) {
    && (TextShows(t.text) ==> Matched(t, rules) != [])
    && (rule.action == MaskValue ==>
          var e := AttributeOnce(t, rules, sensitive, "value");
          e.None? || AlreadyRedacted(e.value.value))
    && (rule.action == Exclude ==> forall n :: n in Triggers(rule.shape) ==> AttributeOnce(t, rules, sensitive, n).None?)
  }

  lemma MatchesOnceExactly(t: Target, rules: seq<Rule>, sensitive: Names, rule: Rule)
    ensures Matches(Redacted(t, rules, sensitive), rule) <==> MatchesOnce(t, rules, sensitive, rule)
  {
    var once := Redacted(t, rules, sensitive);
    assert once.tagName == t.tagName;
    forall n
      ensures FindAttribute(once.attributes, n) == AttributeOnce(t, rules, sensitive, n)
    {
      AttributeOnceExactly(t, rules, sensitive, n);
    }
    hide Redacted, FindAttribute, AttributeOnce, Lower, Contains;
  }

  lemma {:induction false} FindAttributeExactly(attributes: seq<Entry>, name: string)
    ensures FindAttribute(attributes, name).Some? <==> exists e :: e in attributes && Lower(e.name) == name
  {
    if attributes != [] {
      FindAttributeExactly(attributes[1..], name);
      assert attributes == [attributes[0]] + attributes[1..];
    }
  }

  lemma SettledOnceExactly(t: Target, rules: seq<Rule>, sensitive: Names, rule: Rule)
    ensures Settled(Redacted(t, rules, sensitive), rule) <==> SettledOnce(t, rules, sensitive, rule)
  {
    var once := Redacted(t, rules, sensitive);
    var matched := Matched(t, rules);
    RedactedExactly(t, rules, sensitive);
    if matched != [] {
      MaskHides(matched[0].id);
    }
    AttributeOnceExactly(t, rules, sensitive, "value");
    forall n
      ensures AttributeOnce(t, rules, sensitive, n).Some? <==> exists e :: e in once.attributes && Lower(e.name) == n
    {
      AttributeOnceExactly(t, rules, sensitive, n);
      FindAttributeExactly(once.attributes, n);
    }
    hide Redacted, FindAttribute, AttributeOnce, Lower, Triggers, Mask, Matched;
  }

  /**
   * The condition for one target, read off the target before any pass: every rule that does not
   * match yet but will match after the first pass has nothing left to hide then.
   */
  lemma IdempotentExactly(t: Target, rules: seq<Rule>, sensitive: Names)
    ensures Idempotent(t, rules, sensitive)
       <==> forall r :: r in rules && !Matches(t, r) && MatchesOnce(t, rules, sensitive, r) ==> SettledOnce(t, rules, sensitive, r)
  {
    IdempotentByNewMatches(t, rules, sensitive);
    forall r
      ensures Matches(Redacted(t, rules, sensitive), r) <==> MatchesOnce(t, rules, sensitive, r)
      ensures Settled(Redacted(t, rules, sensitive), r) <==> SettledOnce(t, rules, sensitive, r)
    {
      MatchesOnceExactly(t, rules, sensitive, r);
      SettledOnceExactly(t, rules, sensitive, r);
    }
    hide Redacted, Matches, MatchesOnce, Settled, SettledOnce, Idempotent;
  }

  /** No mask that these rules can write contains what `rule` looks for in the same attribute. */
  ghost predicate Deaf(rule: Rule, rules: seq<Rule>) {
    rule.shape.attributes.Some? ==>
      forall p :: p in rule.shape.attributes.value ==> p.1 == "" || !Echoes(p.0, p.1, rules)
  }

  ghost predicate Echoes(name: string, part: string, rules: seq<Rule>) {
    || Contains(Lower(Mask(SENSITIVE_ATTRIBUTE)), Lower(part))
    || (name == "value" && exists q :: q in rules && Contains(Lower(Mask(q.id)), Lower(part)))
  }

  lemma {:induction false} FirstMaskerIsARule(rules: seq<Rule>)
    ensures FirstMasker(rules).Some? ==> exists q :: q in rules && q.id == FirstMasker(rules).value
  {
    if rules != [] {
      if rules[0].action == MaskValue {
        assert rules[0] in rules;
      } else {
        FirstMaskerIsARule(rules[1..]);
      }
    }
  }

  lemma EmptyPartIsContained(text: string)
    ensures Contains(text, "")
  {
    assert OccursAt(text, "", 0);
  }

  /** An attribute of the redacted target is the original one, or carries a mask. */
  lemma AttributeAfter(t: Target, rules: seq<Rule>, sensitive: Names, name: string)
    ensures var before := FindAttribute(t.attributes, name);
            var after := FindAttribute(Redacted(t, rules, sensitive).attributes, name);
            after.Some? ==>
              && before.Some?
              && (|| after.value.value == before.value.value
                  || (sensitive(before.value.name) && after.value.value == Mask(SENSITIVE_ATTRIBUTE))
                  || (name == "value" && exists q :: q in rules && Matches(t, q) && after.value.value == Mask(q.id)))
  {
    var matched := Matched(t, rules);
    var shown := MaskSensitive(t.attributes, sensitive);
    var masker := FirstMasker(matched);
    RedactedExactly(t, rules, sensitive);
    FindInDrop(ValuesMasked(shown, masker), Excluded(matched), name);
    FindInMaskSensitive(t.attributes, sensitive, name);
    FindInMaskValues(shown, Mask(masker.GetOr("")), name);
    FirstMaskerIsARule(matched);
    MatchedHolds(t, rules);
    hide Drop, MaskValues, MaskSensitive, Matched, Redacted, FindAttribute, Excluded, FirstMasker, Mask;
  }

  lemma HoldsBefore(t: Target, rules: seq<Rule>, sensitive: Names, name: string, part: string)
    requires Holds(Redacted(t, rules, sensitive).attributes, name, part)
    requires part == "" || !Echoes(name, part, rules)
    ensures Holds(t.attributes, name, part)
  {
    AttributeAfter(t, rules, sensitive, name);
    var before := FindAttribute(t.attributes, name);
    if part == "" {
      assert Lower(part) == "";
      EmptyPartIsContained(Lower(before.value.value));
    }
    hide Redacted, FindAttribute, Mask, Lower, Contains, Matches;
  }

  /** Deaf rules match the redacted target only if they matched the target, so redaction is idempotent. */
  lemma DeafRulesAreIdempotent(t: Target, rules: seq<Rule>, sensitive: Names)
    requires forall r :: r in rules ==> Deaf(r, rules)
    ensures forall r :: r in rules && Matches(Redacted(t, rules, sensitive), r) ==> Matches(t, r)
    ensures Idempotent(t, rules, sensitive)
  {
    var once := Redacted(t, rules, sensitive);
    forall r | r in rules && Matches(once, r)
      ensures Matches(t, r)
    {
      DeafRuleMatchedBefore(t, rules, sensitive, r);
    }
    IdempotentByNewMatches(t, rules, sensitive);
    hide Redacted, Matches, Idempotent, Deaf;
  }

  lemma DeafRuleMatchedBefore(t: Target, rules: seq<Rule>, sensitive: Names, rule: Rule)
    requires Deaf(rule, rules) && Matches(Redacted(t, rules, sensitive), rule)
    ensures Matches(t, rule)
  {
    var once := Redacted(t, rules, sensitive);
    assert once.tagName == t.tagName;
    hide Redacted, Holds, Echoes, FindAttribute, Lower;
    if rule.shape.hasAttribute.Some? {
      forall n | n in rule.shape.hasAttribute.value
        ensures FindAttribute(t.attributes, n).Some?
      {
        AttributeAfter(t, rules, sensitive, n);
      }
    }
    if rule.shape.attributes.Some? {
      forall p | p in rule.shape.attributes.value
        ensures Holds(t.attributes, p.0, p.1)
      {
        HoldsBefore(t, rules, sensitive, p.0, p.1);
      }
    }
  }

  lemma LowerOfAppend(x: string, y: string)
    ensures Lower(x + y) == Lower(x) + Lower(y)
  {
  }

  lemma ForeignLetter(text: string, part: string, i: nat)
    requires i < |part| && part[i] !in text
    ensures !Contains(text, part)
  {
    forall at: nat
      ensures !OccursAt(text, part, at)
    {
      if at + |part| <= |text| {
        assert text[at..at + |part|][i] in text;
      }
    }
  }

  lemma {:induction false} MatchedOfAppend(t: Target, rules: seq<Rule>, more: seq<Rule>)
    ensures Matched(t, rules + more) == Matched(t, rules) + Matched(t, more)
  {
    if rules == [] {
      assert rules + more == more;
    } else {
      assert (rules + more)[1..] == rules[1..] + more;
      MatchedOfAppend(t, rules[1..], more);
    }
  }

  lemma NameMustBeLower(attributes: seq<Entry>, name: string)
    ensures FindAttribute(attributes, name).Some? ==> Lower(name) == name
  {
    if attributes != [] {
      NameMustBeLower(attributes[1..], name);
    }
  }
}
