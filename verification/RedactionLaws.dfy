/**
 * What a redaction pass does to each attribute and to the text, and what it reports, described on
 * the target as it was before: no masks, no lists of dropped names and no intermediate states.
 */
module RedactionLaws {
  import opened Prelude
  import opened Text
  import opened Redaction
  import opened RedactionRules

  // ---------------------------------------------------------------- the vocabulary

  /** Capital letters of the Latin alphabet, and nothing else, are folded. */
  lemma LowerCharExactly(c: char)
    ensures forall k :: 0 <= k < 26 && c == "ABCDEFGHIJKLMNOPQRSTUVWXYZ"[k] ==> LowerChar(c) == "abcdefghijklmnopqrstuvwxyz"[k]
    ensures c !in "ABCDEFGHIJKLMNOPQRSTUVWXYZ" ==> LowerChar(c) == c
  {
    UppercaseExactly(c);
    LowercaseExactly(LowerChar(c));
  }

  ghost predicate IsMarked(value: string) {
    exists rest :: value == "[REDACTED" + rest
  }

  lemma MarkedExactly(value: string)
    ensures AlreadyRedacted(value) <==> IsMarked(value)
  {
    if AlreadyRedacted(value) {
      assert value == MARKER + value[|MARKER|..];
    }
  }

  /** The first attribute of this name, which is compared in lower case. */
  ghost predicate IsFirstNamed(attributes: seq<Entry>, name: string, e: Entry) {
    exists k :: 0 <= k < |attributes| && attributes[k] == e && Lower(e.name) == name
      && forall i :: 0 <= i < k ==> Lower(attributes[i].name) != name
  }

  ghost predicate Includes(text: string, part: string) {
    exists a, b :: text == a + part + b
  }

  /** Every condition of the rule holds of the target. */
  ghost predicate IsMatch(t: Target, rule: Rule) {
    var d := rule.shape;
    && (d.tagName.Some? ==> Lower(t.tagName) == d.tagName.value)
    && (d.hasAttribute.Some? ==> forall n :: n in d.hasAttribute.value ==> exists e :: e in t.attributes && Lower(e.name) == n)
    && (d.attributes.Some? ==> forall p :: p in d.attributes.value ==>
          exists e :: IsFirstNamed(t.attributes, p.0, e) && Includes(Lower(e.value), Lower(p.1)))
  }

  /** An excluding rule drops attributes of this name: one of those it requires, or else of those whose value it tests. */
  ghost predicate Drops(rule: Rule, name: string) {
    && rule.action == Exclude
    && if rule.shape.hasAttribute.Some?
       then exists n :: n in rule.shape.hasAttribute.value && Lower(n) == Lower(name)
       else rule.shape.attributes.Some? && exists p :: p in rule.shape.attributes.value && Lower(p.0) == Lower(name)
  }

  // ---------------------------------------------------------------- the vocabulary is the model's

  lemma {:induction false} FoundIsFirst(attributes: seq<Entry>, name: string)
    ensures FindAttribute(attributes, name).Some? ==> IsFirstNamed(attributes, name, FindAttribute(attributes, name).value)
    ensures forall e :: IsFirstNamed(attributes, name, e) ==> FindAttribute(attributes, name) == Some(e)
  {
    hide Lower;
    if attributes != [] {
      var rest := attributes[1..];
      FoundIsFirst(rest, name);
      if Lower(attributes[0].name) == name {
        assert IsFirstNamed(attributes, name, attributes[0]);
      } else {
        forall e
          ensures IsFirstNamed(rest, name, e) <==> IsFirstNamed(attributes, name, e)
        {
          FirstNamedLater(attributes[0], rest, name, e);
          assert attributes == [attributes[0]] + rest;
        }
      }
    }
  }

  lemma FirstNamedLater(first: Entry, rest: seq<Entry>, name: string, e: Entry)
    requires Lower(first.name) != name
    ensures IsFirstNamed(rest, name, e) <==> IsFirstNamed([first] + rest, name, e)
  {
    hide Lower;
    var all := [first] + rest;
    if k :| 0 <= k < |all| && all[k] == e && Lower(e.name) == name && forall i :: 0 <= i < k ==> Lower(all[i].name) != name {
      assert rest[k - 1] == e;
      assert forall i :: 0 <= i < k - 1 ==> rest[i] == all[i + 1];
    }
    if k :| 0 <= k < |rest| && rest[k] == e && Lower(e.name) == name && forall i :: 0 <= i < k ==> Lower(rest[i].name) != name {
      assert all[k + 1] == e;
      assert forall i :: 0 < i < k + 1 ==> all[i] == rest[i - 1];
    }
  }

  lemma IncludesExactly(text: string, part: string)
    ensures Contains(text, part) <==> Includes(text, part)
  {
    if i :| 0 <= i <= |text| && OccursAt(text, part, i) {
      assert text == text[..i] + part + text[i + |part|..];
    }
    if a, b :| text == a + part + b {
      assert text[|a|..|a| + |part|] == part;
      assert OccursAt(text, part, |a|);
    }
  }

  lemma MatchExactly(t: Target, rule: Rule)
    ensures Matches(t, rule) <==> IsMatch(t, rule)
  {
    var d := rule.shape;
    forall n
      ensures FindAttribute(t.attributes, n).Some? <==> exists e :: e in t.attributes && Lower(e.name) == n
    {
      FindAttributeExactly(t.attributes, n);
    }
    forall name, part
      ensures Holds(t.attributes, name, part) <==>
                exists e :: IsFirstNamed(t.attributes, name, e) && Includes(Lower(e.value), Lower(part))
    {
      HoldsExactly(t.attributes, name, part);
    }
    hide Holds, Lower, FindAttribute, IsFirstNamed, Includes;
  }

  lemma HoldsExactly(attributes: seq<Entry>, name: string, part: string)
    ensures Holds(attributes, name, part) <==>
              exists e :: IsFirstNamed(attributes, name, e) && Includes(Lower(e.value), Lower(part))
  {
    FoundIsFirst(attributes, name);
    forall e: Entry
      ensures Contains(Lower(e.value), Lower(part)) <==> Includes(Lower(e.value), Lower(part))
    {
      IncludesExactly(Lower(e.value), Lower(part));
    }
    hide Lower, FindAttribute, IsFirstNamed, Includes, Contains;
  }

  lemma DropsExactly(rule: Rule, name: string)
    ensures Drops(rule, name) <==> rule.action == Exclude && Lower(name) in Triggers(rule.shape)
  {
    hide Lower;
    var d := rule.shape;
    var names := d.hasAttribute.GetOr(Keys(d.attributes.GetOr([])));
    var lowered := Triggers(d);
    assert lowered == LowerAll(names);
    if Lower(name) in lowered {
      var k :| 0 <= k < |lowered| && lowered[k] == Lower(name);
      assert names[k] in names && Lower(names[k]) == Lower(name);
      if d.hasAttribute.None? && d.attributes.Some? {
        assert d.attributes.value[k] in d.attributes.value;
      }
    }
    if n :| n in names && Lower(n) == Lower(name) {
      var k :| 0 <= k < |names| && names[k] == n;
      assert lowered[k] == Lower(name);
    }
    if d.hasAttribute.None? && d.attributes.Some? {
      if p :| p in d.attributes.value && Lower(p.0) == Lower(name) {
        var k :| 0 <= k < |d.attributes.value| && d.attributes.value[k] == p;
        assert names[k] == p.0 && lowered[k] == Lower(name);
      }
    }
  }

  /** The rules a pass applies: the matching ones, in their order. */
  lemma {:induction false} MatchedPicks(t: Target, rules: seq<Rule>) returns (at: seq<nat>)
    ensures Picks(at, Matched(t, rules), rules)
    ensures forall k :: 0 <= k < |rules| ==> (k in at <==> IsMatch(t, rules[k]))
  {
    at := [];
    if rules != [] {
      var n := |rules| - 1;
      var (init, last) := (rules[..n], rules[n]);
      assert rules == init + [last];
      at := MatchedPicks(t, init);
      MatchExactly(t, last);
      MatchedOfAppend(t, init, [last]);
      PicksOneMore(at, Matched(t, init), init, last);
      OneRule(t, last);
      hide Matches, IsMatch, Matched, Picks;
      assert Matched(t, init) + [] == Matched(t, init);
      if Matches(t, last) {
        at := at + [n];
      }
    }
  }

  lemma OneRule(t: Target, rule: Rule)
    ensures Matched(t, [rule]) == if Matches(t, rule) then [rule] else []
  {
    assert [rule][1..] == [];
  }

  // ---------------------------------------------------------------- which rules come first

  /** The rule counts: it matches, and masks values if only such rules are asked for. */
  ghost predicate Counts(t: Target, rule: Rule, masking: bool) {
    IsMatch(t, rule) && (masking ==> rule.action == MaskValue)
  }

  ghost predicate IsFirstRule(t: Target, rules: seq<Rule>, masking: bool, rule: Rule) {
    exists k :: 0 <= k < |rules| && rules[k] == rule && Counts(t, rule, masking)
      && forall i :: 0 <= i < k ==> !Counts(t, rules[i], masking)
  }

  lemma FirstRuleLater(t: Target, first: Rule, rest: seq<Rule>, masking: bool, rule: Rule)
    requires !Counts(t, first, masking) && IsFirstRule(t, rest, masking, rule)
    ensures IsFirstRule(t, [first] + rest, masking, rule)
  {
    hide Counts;
    var all := [first] + rest;
    var k :| 0 <= k < |rest| && rest[k] == rule && Counts(t, rule, masking)
      && forall i :: 0 <= i < k ==> !Counts(t, rest[i], masking);
    assert all[k + 1] == rule;
    assert forall i :: 0 < i < k + 1 ==> all[i] == rest[i - 1];
  }

  lemma {:induction false} FirstMatchedExactly(t: Target, rules: seq<Rule>)
    ensures var matched := Matched(t, rules);
            if matched == [] then forall r :: r in rules ==> !Counts(t, r, false) else IsFirstRule(t, rules, false, matched[0])
  {
    hide Matches, IsFirstRule;
    if rules != [] {
      var (r, rest) := (rules[0], rules[1..]);
      FirstMatchedExactly(t, rest);
      MatchExactly(t, r);
      assert rules == [r] + rest;
      if Matches(t, r) {
        FirstRuleHere(t, rules, false);
      } else if Matched(t, rest) != [] {
        FirstRuleLater(t, r, rest, false, Matched(t, rest)[0]);
      }
    }
  }

  lemma FirstRuleHere(t: Target, rules: seq<Rule>, masking: bool)
    requires rules != [] && Counts(t, rules[0], masking)
    ensures IsFirstRule(t, rules, masking, rules[0])
  {
  }

  lemma {:induction false} FirstMaskerExactly(t: Target, rules: seq<Rule>)
    ensures match FirstMasker(Matched(t, rules))
            case None => forall r :: r in rules ==> !Counts(t, r, true)
            case Some(id) => exists r :: IsFirstRule(t, rules, true, r) && r.id == id
  {
    hide Matches, IsFirstRule, IsMatch;
    if rules != [] {
      var (r, rest) := (rules[0], rules[1..]);
      FirstMaskerExactly(t, rest);
      MatchExactly(t, r);
      assert rules == [r] + rest;
      assert Matches(t, r) ==> Matched(t, rules)[1..] == Matched(t, rest);
      if Counts(t, r, true) {
        FirstRuleHere(t, rules, true);
      } else if FirstMasker(Matched(t, rest)).Some? {
        var q :| IsFirstRule(t, rest, true, q) && q.id == FirstMasker(Matched(t, rest)).value;
        FirstRuleLater(t, r, rest, true, q);
      }
    }
  }

  // ---------------------------------------------------------------- every attribute

  /** The attribute is dropped by a matching rule. */
  ghost predicate IsDropped(t: Target, rules: seq<Rule>, e: Entry) {
    exists r :: r in rules && IsMatch(t, r) && Drops(r, e.name)
  }

  /** The first attribute "value" shows something that is not sensitive, and a matching rule masks values. */
  ghost predicate ValueGetsMasked(t: Target, rules: seq<Rule>, sensitive: Names) {
    && (exists r :: r in rules && Counts(t, r, true))
    && exists e :: IsFirstNamed(t.attributes, "value", e) && !sensitive(e.name) && !IsMarked(e.value)
  }

  /** What becomes of a kept attribute: its name stays, and its value does unless it has to be hidden. */
  ghost predicate Becomes(t: Target, rules: seq<Rule>, sensitive: Names, before: Entry, after: Entry) {
    && after.name == before.name
    && if Lower(before.name) == "value" && ValueGetsMasked(t, rules, sensitive)
       then exists r :: IsFirstRule(t, rules, true, r) && after.value == "[REDACTED:" + r.id + "]"
       else if sensitive(before.name) && !IsMarked(before.value) then after.value == "[REDACTED:sensitive-attribute]"
       else after.value == before.value
  }

  lemma DropNext(attributes: seq<Entry>, last: Entry, names: seq<string>)
    ensures Drop(attributes + [last], names) == Drop(attributes, names) + if Lower(last.name) in names then [] else [last]
  {
    if attributes == [] {
      assert attributes + [last] == [last] && [last][1..] == [];
    } else {
      assert (attributes + [last])[1..] == attributes[1..] + [last];
      DropNext(attributes[1..], last, names);
    }
  }

  lemma {:induction false} DropPicks(attributes: seq<Entry>, names: seq<string>) returns (at: seq<nat>)
    ensures Picks(at, Drop(attributes, names), attributes)
    ensures forall k :: 0 <= k < |attributes| ==> (k in at <==> Lower(attributes[k].name) !in names)
  {
    at := [];
    if attributes != [] {
      var n := |attributes| - 1;
      var (init, last) := (attributes[..n], attributes[n]);
      assert attributes == init + [last];
      at := DropPicks(init, names);
      DropNext(init, last, names);
      PicksOneMore(at, Drop(init, names), init, last);
      hide Lower, Drop, Picks;
      if Lower(last.name) !in names {
        at := at + [n];
      }
    }
  }

  lemma {:induction false} ExcludedExactly(t: Target, rules: seq<Rule>, name: string)
    ensures Lower(name) in Excluded(Matched(t, rules)) <==> exists r :: r in rules && IsMatch(t, r) && Drops(r, name)
  {
    hide Lower, Matches, IsMatch, Triggers, Drops;
    if rules != [] {
      var (r, rest) := (rules[0], rules[1..]);
      assert rules == [r] + rest;
      ExcludedExactly(t, rest, name);
      MatchExactly(t, r);
      DropsExactly(r, name);
      assert Matches(t, r) ==> Matched(t, rules)[1..] == Matched(t, rest);
    }
  }

  lemma ValueShowsExactly(attributes: seq<Entry>, sensitive: Names)
    ensures ValueShows(MaskSensitive(attributes, sensitive))
       <==> exists e :: IsFirstNamed(attributes, "value", e) && !sensitive(e.name) && !IsMarked(e.value)
  {
    FindInMaskSensitive(attributes, sensitive, "value");
    FoundIsFirst(attributes, "value");
    var found := FindAttribute(attributes, "value");
    if found.Some? {
      MarkedExactly(found.value.value);
    }
    MaskHides(SENSITIVE_ATTRIBUTE);
    hide FindAttribute, MaskSensitive, IsFirstNamed, Mask, IsMarked, AlreadyRedacted;
  }

  lemma MaskSpelled(id: string)
    ensures Mask(id) == "[REDACTED:" + id + "]" && Mask(SENSITIVE_ATTRIBUTE) == "[REDACTED:sensitive-attribute]"
  {
    assert MARKER + ":" == "[REDACTED:";
    assert "[REDACTED:" + SENSITIVE_ATTRIBUTE + "]" == "[REDACTED:sensitive-attribute]";
  }

  lemma EntryBecomes(t: Target, rules: seq<Rule>, sensitive: Names, k: nat)
    requires k < |t.attributes|
    ensures var shown := ValuesMasked(MaskSensitive(t.attributes, sensitive), FirstMasker(Matched(t, rules)));
            |shown| == |t.attributes| && Becomes(t, rules, sensitive, t.attributes[k], shown[k])
  {
    var e := t.attributes[k];
    FirstMaskerExactly(t, rules);
    ValueShowsExactly(t.attributes, sensitive);
    MarkedExactly(e.value);
    MaskSpelled(FirstMasker(Matched(t, rules)).GetOr(""));
    hide Lower, Matched, FirstMasker, IsFirstRule, IsFirstNamed, IsMarked, ValueShows, AlreadyRedacted, Mask, IsMatch;
    if r :| IsFirstRule(t, rules, true, r) {
      FirstRuleCounts(t, rules, r);
    }
  }

  lemma FirstRuleCounts(t: Target, rules: seq<Rule>, rule: Rule)
    requires IsFirstRule(t, rules, true, rule)
    ensures rule in rules && Counts(t, rule, true)
  {
  }

  /** The text is covered by the first matching rule, if there is one, unless it is empty or covered already. */
  ghost predicate TextBecomes(t: Target, rules: seq<Rule>, after: string) {
    if t.text == "" || IsMarked(t.text) || forall r :: r in rules ==> !IsMatch(t, r) then after == t.text
    else exists r :: IsFirstRule(t, rules, false, r) && after == "[REDACTED:" + r.id + "]"
  }

  /** The kept attributes, which stood at `at`, and what they have become. */
  ghost predicate AreKept(t: Target, rules: seq<Rule>, sensitive: Names, at: seq<nat>, after: seq<Entry>) {
    && |at| == |after|
    && (forall i, k :: 0 <= i < k < |at| ==> at[i] < at[k])
    && (forall k :: 0 <= k < |t.attributes| ==> (k in at <==> !IsDropped(t, rules, t.attributes[k])))
    && (forall i :: 0 <= i < |at| ==>
          at[i] < |t.attributes| && Becomes(t, rules, sensitive, t.attributes[at[i]], after[i]))
  }

  lemma KeptFromPicks(t: Target, rules: seq<Rule>, sensitive: Names, shown: seq<Entry>, at: seq<nat>, after: seq<Entry>)
    requires |shown| == |t.attributes| && Picks(at, after, shown)
    requires forall k :: 0 <= k < |t.attributes| ==> Becomes(t, rules, sensitive, t.attributes[k], shown[k])
    requires forall k :: 0 <= k < |t.attributes| ==> (k in at <==> !IsDropped(t, rules, t.attributes[k]))
    ensures AreKept(t, rules, sensitive, at, after)
  {
    hide Becomes, IsDropped;
  }

  lemma AttributesByEntry(t: Target, rules: seq<Rule>, sensitive: Names) returns (at: seq<nat>)
    ensures var shown := ValuesMasked(MaskSensitive(t.attributes, sensitive), FirstMasker(Matched(t, rules)));
            AreKept(t, rules, sensitive, at, Drop(shown, Excluded(Matched(t, rules))))
  {
    var matched := Matched(t, rules);
    var shown := ValuesMasked(MaskSensitive(t.attributes, sensitive), FirstMasker(matched));
    assert |shown| == |t.attributes| && forall k :: 0 <= k < |shown| ==> shown[k].name == t.attributes[k].name;
    at := DropPicks(shown, Excluded(matched));
    hide MaskSensitive, ValuesMasked, Matched, Excluded, Drop, Becomes, IsMatch, Drops, Lower, FirstMasker, Picks, AreKept;
    forall k | 0 <= k < |t.attributes|
      ensures Becomes(t, rules, sensitive, t.attributes[k], shown[k])
      ensures k in at <==> !IsDropped(t, rules, t.attributes[k])
    {
      EntryBecomes(t, rules, sensitive, k);
      ExcludedExactly(t, rules, t.attributes[k].name);
    }
    hide IsDropped;
    KeptFromPicks(t, rules, sensitive, shown, at, Drop(shown, Excluded(matched)));
  }

  /**
   * A whole pass, attribute by attribute: exactly those that a matching rule names are dropped, the
   * others stay in their order and become what the rules make of them, and the text is covered.
   */
  lemma RedactedByEntry(t: Target, rules: seq<Rule>, sensitive: Names) returns (at: seq<nat>)
    ensures var after := Redacted(t, rules, sensitive);
            && AreKept(t, rules, sensitive, at, after.attributes)
            && after.tagName == t.tagName && TextBecomes(t, rules, after.text)
  {
    RedactedExactly(t, rules, sensitive);
    TextIsCovered(t, rules);
    at := AttributesByEntry(t, rules, sensitive);
    hide MaskSensitive, ValuesMasked, Matched, Excluded, Drop, Redacted, AreKept, TextBecomes, FirstMasker, TextShows, Mask;
  }

  lemma TextIsCovered(t: Target, rules: seq<Rule>)
    ensures var matched := Matched(t, rules);
            TextBecomes(t, rules, if matched != [] && TextShows(t.text) then Mask(matched[0].id) else t.text)
  {
    FirstMatchedExactly(t, rules);
    MatchedHolds(t, rules);
    MarkedExactly(t.text);
    var matched := Matched(t, rules);
    if matched != [] {
      MaskSpelled(matched[0].id);
      MatchExactly(t, matched[0]);
      assert matched[0] in rules;
    }
    hide Matched, Mask, IsFirstRule, IsMatch, IsMarked, Matches, AlreadyRedacted;
  }

  // ---------------------------------------------------------------- every notice

  /** The notice of an attribute that was masked for its name. */
  ghost predicate IsSensitiveNotice(n: Notice, e: Entry) {
    && n.field == "target.attributes." + e.name && n.patternId == "sensitive-attribute"
    && n.description == "Value of a credential-bearing DOM attribute was masked."
  }

  /** One notice for each exposed sensitive attribute, in their order. */
  ghost predicate TellSensitive(notices: seq<Notice>, attributes: seq<Entry>, sensitive: Names, at: seq<nat>) {
    && |at| == |notices|
    && (forall i, k :: 0 <= i < k < |at| ==> at[i] < at[k])
    && (forall i :: 0 <= i < |at| ==> at[i] < |attributes| && IsSensitiveNotice(notices[i], attributes[at[i]]))
    && (forall k :: 0 <= k < |attributes| ==>
          (k in at <==> sensitive(attributes[k].name) && !IsMarked(attributes[k].value)))
  }

  lemma TellOneMore(notices: seq<Notice>, attributes: seq<Entry>, sensitive: Names, at: seq<nat>, e: Entry)
    requires TellSensitive(notices, attributes, sensitive, at)
    ensures !Exposed(e, sensitive) ==> TellSensitive(notices, attributes + [e], sensitive, at)
    ensures var n := Notice("target.attributes." + e.name, SENSITIVE_ATTRIBUTE, SENSITIVE_DESCRIPTION);
            Exposed(e, sensitive) ==> TellSensitive(notices + [n], attributes + [e], sensitive, at + [|attributes|])
  {
    MarkedExactly(e.value);
    hide IsMarked, AlreadyRedacted;
    assert forall i :: 0 <= i < |at| ==> at[i] < |attributes|;
  }

  lemma {:induction false} SensitiveNoticesExactly(attributes: seq<Entry>, sensitive: Names) returns (at: seq<nat>)
    ensures TellSensitive(SensitiveNotices(attributes, sensitive), attributes, sensitive, at)
  {
    at := [];
    if attributes != [] {
      hide TellSensitive, Exposed;
      var n := |attributes| - 1;
      var (init, last) := (attributes[..n], attributes[n]);
      assert attributes == init + [last];
      at := SensitiveNoticesExactly(init, sensitive);
      TellOneMore(SensitiveNotices(init, sensitive), init, sensitive, at, last);
      assert SensitiveNotices(init, sensitive) + [] == SensitiveNotices(init, sensitive);
      if Exposed(last, sensitive) {
        at := at + [n];
      }
    }
  }

  /** Rule `i` of the matching ones is the first to hide attributes that are still there. */
  ghost predicate HidesAttributes(t: Target, matched: seq<Rule>, sensitive: Names, i: nat)
    requires i < |matched|
  {
    if matched[i].action == MaskValue then
      && (exists e :: IsFirstNamed(t.attributes, "value", e) && !sensitive(e.name) && !IsMarked(e.value))
      && forall k :: 0 <= k < i ==> matched[k].action != MaskValue && !Drops(matched[k], "value")
    else
      exists e :: e in t.attributes && Drops(matched[i], e.name) && forall k :: 0 <= k < i ==> !Drops(matched[k], e.name)
  }

  ghost function NoticesOf(t: Target, matched: seq<Rule>, sensitive: Names, i: nat): seq<Notice>
    requires i < |matched|
  {
    var (id, why) := (matched[i].id, matched[i].description);
    (if !HidesAttributes(t, matched, sensitive, i) then []
     else [Notice(if matched[i].action == MaskValue then "target.attributes.value" else "target.attributes", id, why)])
    + (if i == 0 && t.text != "" && !IsMarked(t.text) then [Notice("target.semantic.textContentPreview", id, why)] else [])
  }

  ghost function NoticesOfFirst(t: Target, matched: seq<Rule>, sensitive: Names, n: nat): seq<Notice>
    requires n <= |matched|
  {
    if n == 0 then [] else NoticesOfFirst(t, matched, sensitive, n - 1) + NoticesOf(t, matched, sensitive, n - 1)
  }

  lemma {:induction false} ExcludedByFirst(matched: seq<Rule>, name: string)
    ensures Lower(name) in Excluded(matched) <==> exists k :: 0 <= k < |matched| && Drops(matched[k], name)
  {
    hide Lower, Triggers, Drops;
    if matched != [] {
      ExcludedByFirst(matched[1..], name);
      DropsExactly(matched[0], name);
      if k :| 0 <= k < |matched[1..]| && Drops(matched[1..][k], name) {
        assert Drops(matched[k + 1], name);
      }
      if k :| 0 <= k < |matched| && Drops(matched[k], name) {
        assert k > 0 ==> Drops(matched[1..][k - 1], name);
      }
    }
  }

  lemma {:induction false} MaskerByFirst(matched: seq<Rule>)
    ensures FirstMasker(matched).Some? <==> exists k :: 0 <= k < |matched| && matched[k].action == MaskValue
  {
    if matched != [] {
      MaskerByFirst(matched[1..]);
      if k :| 0 <= k < |matched[1..]| && matched[1..][k].action == MaskValue {
        assert matched[k + 1].action == MaskValue;
      }
      if k :| 0 <= k < |matched| && matched[k].action == MaskValue {
        assert k > 0 ==> matched[1..][k - 1].action == MaskValue;
      }
    }
  }

  lemma ValueIsLower()
    ensures Lower("value") == "value"
  {
  }

  lemma NextMasks(t: Target, matched: seq<Rule>, sensitive: Names, i: nat)
    requires i < |matched| && matched[i].action == MaskValue
    ensures var shown := ValuesMasked(MaskSensitive(t.attributes, sensitive), FirstMasker(matched[..i]));
            HidesAttributes(t, matched, sensitive, i) <==> ValueShows(Drop(shown, Excluded(matched[..i])))
  {
    var before := matched[..i];
    var shown := MaskSensitive(t.attributes, sensitive);
    ExcludedByFirst(before, "value");
    MaskerByFirst(before);
    ValueIsLower();
    ValueShowsExactly(t.attributes, sensitive);
    FindInDrop(shown, Excluded(before), "value");
    if FirstMasker(before).Some? {
      MaskedOnce(shown, Excluded(before), FirstMasker(before).value);
    }
    hide Lower, Drop, MaskSensitive, FindAttribute, FirstMasker, Excluded, Drops, IsFirstNamed, IsMarked, MaskValues;
    assert forall k :: 0 <= k < i ==> before[k] == matched[k];
  }

  /** Dropping does something exactly if one of the names belongs to an attribute that is still there. */
  lemma DropsSomething(attributes: seq<Entry>, shown: seq<Entry>, gone: seq<string>, names: seq<string>)
    requires |shown| == |attributes| && forall k :: 0 <= k < |shown| ==> shown[k].name == attributes[k].name
    ensures var left := Drop(shown, gone);
            |Drop(left, names)| != |left| <==>
              exists e :: e in attributes && Lower(e.name) in names && Lower(e.name) !in gone
  {
    var left := Drop(shown, gone);
    DroppedNames(shown, gone);
    DroppedNames(left, names);
    hide Lower, Drop;
    if e :| e in attributes && Lower(e.name) in names && Lower(e.name) !in gone {
      var k :| 0 <= k < |attributes| && attributes[k] == e;
      assert shown[k] in left;
    }
    if e :| e in left && Lower(e.name) in names {
      var k :| 0 <= k < |shown| && shown[k] == e;
      assert attributes[k] in attributes;
    }
  }

  lemma NextDrops(t: Target, matched: seq<Rule>, sensitive: Names, i: nat)
    requires i < |matched| && matched[i].action == Exclude
    ensures var shown := ValuesMasked(MaskSensitive(t.attributes, sensitive), FirstMasker(matched[..i]));
            var left := Drop(shown, Excluded(matched[..i]));
            HidesAttributes(t, matched, sensitive, i) <==> |Drop(left, Triggers(matched[i].shape))| != |left|
  {
    var before := matched[..i];
    var shown := ValuesMasked(MaskSensitive(t.attributes, sensitive), FirstMasker(before));
    assert |shown| == |t.attributes| && forall k :: 0 <= k < |shown| ==> shown[k].name == t.attributes[k].name;
    DropsSomething(t.attributes, shown, Excluded(before), Triggers(matched[i].shape));
    hide Lower, Drop, MaskSensitive, ValuesMasked, FirstMasker, Excluded, Drops, Triggers;
    forall e: Entry
      ensures Lower(e.name) in Excluded(before) <==> exists k :: 0 <= k < i && Drops(matched[k], e.name)
      ensures Drops(matched[i], e.name) <==> Lower(e.name) in Triggers(matched[i].shape)
    {
      ExcludedByFirst(before, e.name);
      DropsExactly(matched[i], e.name);
      assert forall k :: 0 <= k < i ==> before[k] == matched[k];
    }
  }

  lemma ApplyReports(s: State, rule: Rule)
    ensures var hides := if rule.action == MaskValue then ValueShows(s.attributes)
                         else |Drop(s.attributes, Triggers(rule.shape))| != |s.attributes|;
            var field := if rule.action == MaskValue then "target.attributes.value" else "target.attributes";
            Apply(s, rule).notices
            == s.notices
               + ((if hides then [Notice(field, rule.id, rule.description)] else [])
                  + (if TextShows(s.text) then [Notice("target.semantic.textContentPreview", rule.id, rule.description)] else []))
  {
    hide Drop, Triggers, MaskValues, FindAttribute;
  }

  lemma {:induction false} NoticesOfRules(t: Target, matched: seq<Rule>, sensitive: Names, n: nat)
    requires n <= |matched|
    ensures ApplyAll(Start(t, sensitive), matched[..n]).notices
         == SensitiveNotices(t.attributes, sensitive) + NoticesOfFirst(t, matched, sensitive, n)
  {
    var start := Start(t, sensitive);
    if n == 0 {
      assert matched[..0] == [];
    } else {
      var i := n - 1;
      var s := ApplyAll(start, matched[..i]);
      NoticesOfRules(t, matched, sensitive, i);
      ApplyAllNext(start, matched, i);
      ApplyReports(s, matched[i]);
      AttributesExactly(start, matched[..i]);
      TextExactly(start, matched[..i]);
      MaskHides(matched[0].id);
      MarkedExactly(t.text);
      if matched[i].action == MaskValue {
        NextMasks(t, matched, sensitive, i);
      } else {
        NextDrops(t, matched, sensitive, i);
      }
      hide ApplyAll, Apply, HidesAttributes, SensitiveNotices, Drop, ValueShows, Triggers, Mask, MaskSensitive, IsMarked, AlreadyRedacted;
      assert i > 0 ==> matched[..i][0] == matched[0];
      Regroup(SensitiveNotices(t.attributes, sensitive), NoticesOfFirst(t, matched, sensitive, i), NoticesOf(t, matched, sensitive, i));
    }
  }

  /**
   * The report of a whole pass, notice by notice: the exposed sensitive attributes, and then, rule by rule
   * of the matching ones, what each is the first to hide.
   */
  lemma NoticesExactly(t: Target, rules: seq<Rule>, sensitive: Names) returns (told: seq<Notice>, at: seq<nat>)
    ensures var matched := Matched(t, rules);
            Notices(t, rules, sensitive) == told + NoticesOfFirst(t, matched, sensitive, |matched|)
    ensures TellSensitive(told, t.attributes, sensitive, at)
  {
    var matched := Matched(t, rules);
    told := SensitiveNotices(t.attributes, sensitive);
    at := SensitiveNoticesExactly(t.attributes, sensitive);
    NoticesOfRules(t, matched, sensitive, |matched|);
    assert matched[..|matched|] == matched;
  }

  // ---------------------------------------------------------------- what the defaults protect

  /** The first attribute of this name contains the word, in whatever case. */
  ghost predicate Tells(t: Target, name: string, word: string) {
    exists e :: IsFirstNamed(t.attributes, name, e) && Includes(Lower(e.value), word)
  }

  ghost predicate IsCredentialField(t: Target) {
    && Lower(t.tagName) == "input"
    && (|| Tells(t, "type", "password") || Tells(t, "type", "hidden")
        || Tells(t, "autocomplete", "username") || Tells(t, "autocomplete", "current-password")
        || Tells(t, "autocomplete", "new-password") || Tells(t, "autocomplete", "password"))
  }

  ghost predicate IsPrivate(t: Target) {
    exists e :: e in t.attributes && Lower(e.name) == "data-private"
  }

  lemma WordIsLower(i: nat)
    ensures Lower(MaskerPart(i)) == MaskerPart(i)
  {
  }

  lemma FieldMatches(t: Target, i: nat)
    requires i < MASKERS && Lower(t.tagName) == "input" && Tells(t, MaskerName(i), MaskerPart(i))
    ensures Matches(t, DefaultRule(i)) && DefaultRule(i).action == MaskValue
  {
    WordIsLower(i);
    HoldsExactly(t.attributes, MaskerName(i), MaskerPart(i));
    hide Lower, IsFirstNamed, Includes, MaskerName, MaskerPart, MaskerId, MaskerReason, Holds;
  }

  lemma WhichField(t: Target) returns (i: nat)
    requires IsCredentialField(t)
    ensures i < MASKERS && Tells(t, MaskerName(i), MaskerPart(i))
  {
    hide Tells, Lower;
    i := if Tells(t, "type", "password") then 0 else if Tells(t, "autocomplete", "username") then 1
         else if Tells(t, "autocomplete", "current-password") then 2 else if Tells(t, "autocomplete", "new-password") then 3
         else if Tells(t, "autocomplete", "password") then 4 else 5;
  }

  lemma NoValueShows(attributes: seq<Entry>)
    requires !ValueShows(attributes)
    ensures forall e :: IsFirstNamed(attributes, "value", e) ==> IsMarked(e.value)
  {
    FoundIsFirst(attributes, "value");
    hide IsFirstNamed, FindAttribute, IsMarked;
    forall e | IsFirstNamed(attributes, "value", e)
      ensures IsMarked(e.value)
    {
      MarkedExactly(e.value);
    }
  }

  /** Under every configuration the value and the text of a credential field are masked or absent. */
  lemma CredentialFieldsAreMasked(t: Target, config: Option<seq<Rule>>, sensitive: Names)
    requires IsCredentialField(t)
    ensures var after := Redacted(t, ResolveSelectorRules(config), sensitive);
            && (after.text == "" || IsMarked(after.text))
            && forall e :: IsFirstNamed(after.attributes, "value", e) ==> IsMarked(e.value)
  {
    var after := Redacted(t, ResolveSelectorRules(config), sensitive);
    var i := WhichField(t);
    FieldMatches(t, i);
    hide IsCredentialField, Tells, MaskerName, MaskerPart, Lower;
    DefaultsStayInForce(t, config, sensitive, i);
    hide Matches, DefaultRule, Redacted, ResolveSelectorRules;
    MarkedExactly(after.text);
    NoValueShows(after.attributes);
  }

  /** Under every configuration a private element loses the attribute that says so, and its text is masked or absent. */
  lemma PrivateElementsAreMasked(t: Target, config: Option<seq<Rule>>, sensitive: Names)
    requires IsPrivate(t)
    ensures var after := Redacted(t, ResolveSelectorRules(config), sensitive);
            (after.text == "" || IsMarked(after.text)) && !IsPrivate(after)
  {
    var after := Redacted(t, ResolveSelectorRules(config), sensitive);
    PrivateRuleIsListed();
    PrivateMatches(t);
    DefaultsStayInForce(t, config, sensitive, 6);
    MarkedExactly(after.text);
    PrivateIsTriggered();
    hide Matches, DefaultRule, Redacted, ResolveSelectorRules, Lower, Triggers;
  }

  lemma PrivateMatches(t: Target)
    requires IsPrivate(t)
    ensures Matches(t, DefaultRule(6))
  {
    PrivateRuleIsListed();
    MatchExactly(t, DefaultRule(6));
    hide DefaultRule, Lower, Matches;
  }

  lemma PrivateIsTriggered()
    ensures "data-private" in Triggers(DefaultRule(6).shape)
  {
    PrivateRuleIsListed();
    hide DefaultRule;
    var d := Descriptor(None, None, Some(["data-private"]));
    assert Lower("data-private") == "data-private";
    assert LowerAll(["data-private"])[0] == "data-private";
  }
}
