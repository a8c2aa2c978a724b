/**
 * One configured redaction rule, of any shape, behind the default rules: the exact condition on
 * the rule under which redaction is idempotent for every target.
 */
module ConfiguredRule {
  import opened Prelude
  import opened Text
  import opened Redaction
  import opened RedactionRules

  /** The list the callers pass when one rule is configured. */
  function WithDefaults(rule: Rule): seq<Rule> {
    ResolveSelectorRules(Some([rule]))
  }

  function Conditions(rule: Rule): seq<(string, string)> {
    rule.shape.attributes.GetOr([])
  }

  function Required(rule: Rule): seq<string> {
    rule.shape.hasAttribute.GetOr([])
  }

  // ---------------------------------------------------------------- what the defaults do

  lemma MaskerMatches(t: Target, i: nat)
    requires i < MASKERS
    ensures Matches(t, DefaultRule(i)) <==> Lower(t.tagName) == "input" && Holds(t.attributes, MaskerName(i), MaskerPart(i))
  {
    var r := DefaultRule(i);
    hide MaskerName, MaskerPart, MaskerId, MaskerReason, Holds, Lower;
    assert r.shape.attributes.value == [(MaskerName(i), MaskerPart(i))];
    assert (MaskerName(i), MaskerPart(i)) in r.shape.attributes.value;
  }

  lemma PrivateMatches(t: Target)
    ensures Matches(t, DefaultRule(MASKERS)) <==> FindAttribute(t.attributes, "data-private").Some?
  {
    hide FindAttribute;
    assert "data-private" in DefaultRule(MASKERS).shape.hasAttribute.value;
  }

  lemma Actions(i: nat)
    ensures DefaultRule(i).action == if i < MASKERS then MaskValue else Exclude
    ensures i < MASKERS ==> DefaultRule(i).id == MaskerId(i)
  {
    hide MaskerName, MaskerPart, MaskerId, MaskerReason;
  }

  lemma PrivateTrigger()
    ensures Triggers(DefaultRule(MASKERS).shape) == ["data-private"]
  {
    assert Lower("data-private") == "data-private";
    assert LowerAll(["data-private"]) == ["data-private"];
  }

  /** The first masking rule that matches gives the mask its id. */
  lemma {:induction false} FirstMatchedMasker(t: Target, rules: seq<Rule>) returns (i: nat)
    ensures FirstMasker(Matched(t, rules)).None? ==> forall r :: r in rules && Matches(t, r) ==> r.action != MaskValue
    ensures FirstMasker(Matched(t, rules)).Some? ==>
              && i < |rules| && Matches(t, rules[i]) && rules[i].action == MaskValue
              && FirstMasker(Matched(t, rules)) == Some(rules[i].id)
              && forall j :: 0 <= j < i ==> !(Matches(t, rules[j]) && rules[j].action == MaskValue)
  {
    hide Matches;
    i := 0;
    if rules != [] {
      var tail := Matched(t, rules[1..]);
      assert ([rules[0]] + tail)[1..] == tail;
      if !(Matches(t, rules[0]) && rules[0].action == MaskValue) {
        var k := FirstMatchedMasker(t, rules[1..]);
        i := k + 1;
      }
    }
  }

  lemma {:induction false} ExcludedByARule(rules: seq<Rule>, n: string)
    requires n in Excluded(rules)
    ensures exists r :: r in rules && r.action == Exclude && n in Triggers(r.shape)
  {
    if !(rules[0].action == Exclude && n in Triggers(rules[0].shape)) {
      ExcludedByARule(rules[1..], n);
    }
  }

  lemma MatchedWithDefaults(t: Target, rule: Rule) returns (defaults: seq<Rule>)
    requires !Matches(t, rule)
    ensures AreDefaults(defaults) && Matched(t, WithDefaults(rule)) == Matched(t, defaults)
  {
    hide DefaultRule, DefaultsUpTo, Matches;
    defaults := ResolvedExactly(Some([rule]));
    hide ResolveSelectorRules;
    MatchedOfAppend(t, defaults, [rule]);
    assert [rule][1..] == [];
    assert Matched(t, [rule]) == [];
  }

  /** Which masking default gives the value its mask. */
  lemma DefaultsMask(t: Target, rule: Rule) returns (i: nat)
    requires !Matches(t, rule)
    ensures var masker := FirstMasker(Matched(t, WithDefaults(rule)));
            && (masker.None? ==> forall j: nat :: j < MASKERS ==> !Matches(t, DefaultRule(j)))
            && (masker.Some? ==>
                  && i < MASKERS && Matches(t, DefaultRule(i)) && masker == Some(MaskerId(i))
                  && forall j: nat :: j < i ==> !Matches(t, DefaultRule(j)))
  {
    hide DefaultRule, WithDefaults, Matches, MaskerId;
    var defaults := MatchedWithDefaults(t, rule);
    i := FirstMatchedMasker(t, defaults);
    forall j: nat | j <= MASKERS
      ensures defaults[j] == DefaultRule(j) && DefaultRule(j) in defaults
      ensures DefaultRule(j).action == if j < MASKERS then MaskValue else Exclude
      ensures j < MASKERS ==> DefaultRule(j).id == MaskerId(j)
    {
      Actions(j);
    }
    hide Matched, FirstMasker;
  }

  /** Nothing but what marks private data is dropped. */
  lemma DefaultsExclude(t: Target, rule: Rule, n: string)
    requires !Matches(t, rule) && n in Excluded(Matched(t, WithDefaults(rule)))
    ensures n == "data-private" && FindAttribute(t.attributes, "data-private").Some?
  {
    hide DefaultRule, WithDefaults, Matches, FindAttribute, Triggers;
    var defaults := MatchedWithDefaults(t, rule);
    ExcludedByARule(Matched(t, defaults), n);
    MatchedHolds(t, defaults);
    var r :| r in Matched(t, defaults) && r.action == Exclude && n in Triggers(r.shape);
    var k :| 0 <= k < |defaults| && defaults[k] == r;
    Actions(k);
    PrivateMatches(t);
    PrivateTrigger();
  }

  lemma DefaultsMatchNothing(t: Target, rule: Rule)
    requires !Matches(t, rule)
    ensures Matched(t, WithDefaults(rule)) == [] <==> forall j: nat :: j <= MASKERS ==> !Matches(t, DefaultRule(j))
  {
    hide DefaultRule, WithDefaults, Matches;
    var defaults := MatchedWithDefaults(t, rule);
    MatchedHolds(t, defaults);
    hide Matched;
    assert forall j: nat :: j <= MASKERS ==> defaults[j] == DefaultRule(j) && DefaultRule(j) in defaults;
    if Matched(t, defaults) != [] {
      assert Matched(t, defaults)[0] in Matched(t, defaults);
    }
  }

  // ---------------------------------------------------------------- the condition

  predicate InMask(id: string, part: string) {
    Contains(Lower(Mask(id)), Lower(part))
  }

  /** The rule asks for a tag or a name that is never found, or for the attribute that is dropped. */
  predicate NeverWakes(rule: Rule) {
    || (rule.shape.tagName.Some? && Lower(rule.shape.tagName.value) != rule.shape.tagName.value)
    || (exists n :: n in Required(rule) && (Lower(n) != n || n == "data-private"))
    || (exists p :: p in Conditions(rule) && (Lower(p.0) != p.0 || p.0 == "data-private"))
  }

  /** Whatever meets the rule's conditions meets the condition of the `i`-th masking default. */
  predicate Forces(rule: Rule, i: nat) {
    exists p :: p in Conditions(rule) && p.0 == MaskerName(i) && Contains(Lower(p.1), Lower(MaskerPart(i)))
  }

  /** A match of the rule always comes with a match of a masking default. */
  predicate ComesWithAMasker(rule: Rule) {
    rule.shape.tagName == Some("input") && exists i: nat | i < MASKERS :: Forces(rule, i)
  }

  /** An excluding rule that drops something whenever it matches. */
  predicate AlwaysDrops(rule: Rule) {
    rule.action == Exclude && rule.shape.hasAttribute != Some([])
  }

  /** Some attribute is looked up under this name and is sensitive, or is not. */
  ghost predicate CanBe(sensitive: Names, name: string, yes: bool) {
    exists alias :: Lower(alias) == name && sensitive(alias) == yes
  }

  /** The mask of sensitive attributes can make the rule match, with something left for it to hide. */
  ghost predicate WokenBySensitiveMask(rule: Rule, sensitive: Names) {
    && (exists p :: p in Conditions(rule) && p.1 != "" && InMask(SENSITIVE_ATTRIBUTE, p.1) && CanBe(sensitive, p.0, true))
    && (ComesWithAMasker(rule) ==> AlwaysDrops(rule))
  }

  /** So can the mask which the `i`-th default writes over the value. */
  predicate WokenByMasker(rule: Rule, i: nat) {
    && (exists p :: p in Conditions(rule) && p.0 == "value" && p.1 != "" && InMask(MaskerId(i), p.1))
    && (rule.shape.tagName.Some? ==> rule.shape.tagName.value == "input")
    && AlwaysDrops(rule)
    && forall j: nat | j < i :: !Forces(rule, j)
  }

  /** Given which names are sensitive, a mask can wake the rule. */
  ghost predicate CanWake(rule: Rule, sensitive: Names) {
    && !NeverWakes(rule)
    && (|| WokenBySensitiveMask(rule, sensitive)
        || (CanBe(sensitive, "value", false) && exists i: nat | i < MASKERS :: WokenByMasker(rule, i)))
  }

  /** Under some notion of sensitive names, a mask can wake the rule. */
  predicate CanWakeSomehow(rule: Rule) {
    && !NeverWakes(rule)
    && (|| ((exists p :: p in Conditions(rule) && p.1 != "" && InMask(SENSITIVE_ATTRIBUTE, p.1))
            && (ComesWithAMasker(rule) ==> AlwaysDrops(rule)))
        || exists i: nat | i < MASKERS :: WokenByMasker(rule, i))
  }

  // ---------------------------------------------------------------- text

  lemma ContainsAround(x: string, part: string, y: string)
    ensures Contains(x + part + y, part)
  {
    assert (x + part + y)[|x|..|x| + |part|] == part;
    assert OccursAt(x + part + y, part, |x|);
  }

  lemma ContainsTransitive(a: string, b: string, c: string)
    requires Contains(a, b) && Contains(b, c)
    ensures Contains(a, c)
  {
    var i: nat :| i <= |a| && OccursAt(a, b, i);
    var j: nat :| j <= |b| && OccursAt(b, c, j);
    forall k | 0 <= k < |c|
      ensures a[i + j + k] == c[k]
    {
      assert a[i..i + |b|][j + k] == b[j + k] && b[j..j + |c|][k] == c[k];
    }
    assert a[i + j..i + j + |c|] == c;
    assert OccursAt(a, c, i + j);
  }

  /** A word without a space lies on one side of a space. */
  lemma ContainsAcrossSpace(x: string, y: string, part: string)
    requires Contains(x + " " + y, part) && ' ' !in part
    ensures Contains(x, part) || Contains(y, part)
  {
    var s := x + " " + y;
    var i: nat :| i <= |s| && OccursAt(s, part, i);
    forall k | i <= k < i + |part|
      ensures s[k] != ' '
    {
      assert s[k] == s[i..i + |part|][k - i];
    }
    assert s[|x|] == ' ';
    if i + |part| <= |x| {
      assert x[i..i + |part|] == s[i..i + |part|];
      assert OccursAt(x, part, i);
    } else {
      var k := i - |x| - 1;
      assert y[k..k + |part|] == s[i..i + |part|];
      assert OccursAt(y, part, k);
    }
  }

  // ---------------------------------------------------------------- a rule that cannot wake

  lemma RulesWithDefaults(rule: Rule, r: Rule)
    ensures r in WithDefaults(rule) <==> r == rule || exists i: nat | i <= MASKERS :: r == DefaultRule(i)
  {
    var defaults := ResolvedExactly(Some([rule]));
    hide DefaultRule, DefaultsUpTo, ResolveSelectorRules;
    assert forall i: nat | i <= MASKERS :: DefaultRule(i) == defaults[i];
  }

  /** A default rule matches after redaction only if it matched before. */
  lemma DefaultMatchedBefore(t: Target, rule: Rule, sensitive: Names, i: nat)
    requires i <= MASKERS && Matches(Redacted(t, WithDefaults(rule), sensitive), DefaultRule(i))
    ensures Matches(t, DefaultRule(i))
  {
    DefaultRuleIsDeaf(i, WithDefaults(rule));
    hide DefaultRule, Deaf, Redacted, WithDefaults;
    DeafRuleMatchedBefore(t, WithDefaults(rule), sensitive, DefaultRule(i));
  }

  /** And where it matched, it has nothing left to hide. */
  lemma DefaultIsSettled(t: Target, rule: Rule, sensitive: Names, i: nat)
    requires i <= MASKERS && Matches(t, DefaultRule(i))
    ensures Settled(Redacted(t, WithDefaults(rule), sensitive), DefaultRule(i))
  {
    RulesWithDefaults(rule, DefaultRule(i));
    hide DefaultRule, WithDefaults, Settled;
    MatchingRuleHides(t, WithDefaults(rule), sensitive, DefaultRule(i));
  }

  /** No attribute that marks private data is left. */
  lemma NoPrivateLeft(t: Target, rule: Rule, sensitive: Names)
    ensures FindAttribute(Redacted(t, WithDefaults(rule), sensitive).attributes, "data-private").None?
  {
    var once := Redacted(t, WithDefaults(rule), sensitive);
    PrivateMatches(once);
    PrivateTrigger();
    Actions(MASKERS);
    FindAttributeExactly(once.attributes, "data-private");
    hide DefaultRule, WithDefaults, Redacted, Matches, FindAttribute, Triggers, Lower;
    if Matches(once, DefaultRule(MASKERS)) {
      DefaultMatchedBefore(t, rule, sensitive, MASKERS);
      DefaultIsSettled(t, rule, sensitive, MASKERS);
    }
  }

  lemma LowerTwice(s: string)
    ensures Lower(Lower(s)) == Lower(s)
  {
  }

  /** A rule that matches the redacted target asks only for names that can be found there. */
  lemma MatchingNamesAreFound(t: Target, rule: Rule, sensitive: Names)
    requires Matches(Redacted(t, WithDefaults(rule), sensitive), rule)
    ensures !NeverWakes(rule)
  {
    hide WithDefaults;
    var once := Redacted(t, WithDefaults(rule), sensitive);
    LowerTwice(once.tagName);
    NoPrivateLeft(t, rule, sensitive);
    hide Redacted, WithDefaults, FindAttribute, Contains, Lower;
    forall n
      ensures FindAttribute(once.attributes, n).Some? ==> Lower(n) == n && n != "data-private"
    {
      NameMustBeLower(once.attributes, n);
    }
  }

  lemma PresenceIsNotNew(t: Target, rules: seq<Rule>, sensitive: Names, name: string)
    ensures FindAttribute(Redacted(t, rules, sensitive).attributes, name).Some? ==> FindAttribute(t.attributes, name).Some?
  {
    AttributeAfter(t, rules, sensitive, name);
    hide Redacted, FindAttribute, Mask, Matches;
  }

  /** Some condition that the target does not meet is met after redaction. */
  lemma NewlyMetCondition(t: Target, rule: Rule, sensitive: Names) returns (p: (string, string))
    requires var once := Redacted(t, WithDefaults(rule), sensitive); !Matches(t, rule) && Matches(once, rule)
    ensures p in Conditions(rule) && !Holds(t.attributes, p.0, p.1)
    ensures Holds(Redacted(t, WithDefaults(rule), sensitive).attributes, p.0, p.1)
  {
    hide WithDefaults, FindAttribute, Holds, Lower;
    var once := Redacted(t, WithDefaults(rule), sensitive);
    assert once.tagName == t.tagName;
    hide Redacted;
    forall n
      ensures FindAttribute(once.attributes, n).Some? ==> FindAttribute(t.attributes, n).Some?
    {
      PresenceIsNotNew(t, WithDefaults(rule), sensitive, n);
    }
    p :| p in Conditions(rule) && !Holds(t.attributes, p.0, p.1);
  }

  lemma HoldsMore(attributes: seq<Entry>, name: string, part: string, within: string)
    requires Holds(attributes, name, part) && Contains(Lower(part), Lower(within))
    ensures Holds(attributes, name, within)
  {
    var value := FindAttribute(attributes, name).value.value;
    hide Lower, Contains, FindAttribute;
    ContainsTransitive(Lower(value), Lower(part), Lower(within));
  }

  /** Conditions of the rule that force a default make the default match wherever the rule does. */
  lemma ForcedDefaultMatches(t: Target, rule: Rule, i: nat)
    requires i < MASKERS && Forces(rule, i) && Matches(t, rule) && Lower(t.tagName) == "input"
    ensures Matches(t, DefaultRule(i))
  {
    MaskerMatches(t, i);
    hide DefaultRule, MaskerName, MaskerPart, Lower, Contains, Holds;
    var p :| p in Conditions(rule) && p.0 == MaskerName(i) && Contains(Lower(p.1), Lower(MaskerPart(i)));
    assert Holds(t.attributes, p.0, p.1);
    HoldsMore(t.attributes, p.0, p.1, MaskerPart(i));
  }

  lemma NoTriggers(d: Descriptor)
    ensures d.hasAttribute == Some([]) ==> Triggers(d) == []
  {
  }

  /** Where a masking default is settled, only an excluding rule can have something left to hide. */
  lemma UnsettledMustDrop(once: Target, rule: Rule, i: nat)
    requires i < MASKERS && Settled(once, DefaultRule(i)) && !Settled(once, rule)
    ensures AlwaysDrops(rule)
  {
    Actions(i);
    NoTriggers(rule.shape);
    hide DefaultRule, FindAttribute, Triggers, TextShows, ValueShows;
  }

  lemma EmptyConditionHolds(attributes: seq<Entry>, name: string)
    ensures FindAttribute(attributes, name).Some? ==> Holds(attributes, name, "")
  {
    if FindAttribute(attributes, name).Some? {
      EmptyPartIsContained(Lower(FindAttribute(attributes, name).value.value));
      assert Lower("") == "";
    }
  }

  lemma SensitiveMaskWakes(t: Target, rule: Rule, sensitive: Names)
    requires var once := Redacted(t, WithDefaults(rule), sensitive);
             Matches(once, rule) && !Settled(once, rule)
    ensures ComesWithAMasker(rule) ==> AlwaysDrops(rule)
  {
    hide WithDefaults, DefaultRule;
    var once := Redacted(t, WithDefaults(rule), sensitive);
    if ComesWithAMasker(rule) {
      assert Lower(once.tagName) == "input";
      hide Redacted, WithDefaults, Settled, Matches, DefaultRule, Forces, Lower, AlwaysDrops;
      var i: nat :| i < MASKERS && Forces(rule, i);
      ForcedDefaultMatches(once, rule, i);
      DefaultMatchedBefore(t, rule, sensitive, i);
      DefaultIsSettled(t, rule, sensitive, i);
      UnsettledMustDrop(once, rule, i);
    }
  }

  lemma FoundName(attributes: seq<Entry>, name: string)
    ensures FindAttribute(attributes, name).Some? ==> Lower(FindAttribute(attributes, name).value.name) == name
  {
    hide Lower;
    if attributes != [] {
      FoundName(attributes[1..], name);
    }
  }

  /** A condition newly met by an attribute that is sensitive is met by that mask. */
  lemma NewlyMetBySensitiveMask(t: Target, rule: Rule, sensitive: Names, p: (string, string))
    requires FindAttribute(t.attributes, p.0).Some? && Exposed(FindAttribute(t.attributes, p.0).value, sensitive)
    requires Holds(Redacted(t, WithDefaults(rule), sensitive).attributes, p.0, p.1)
    ensures InMask(SENSITIVE_ATTRIBUTE, p.1) && CanBe(sensitive, p.0, true)
  {
    hide WithDefaults, DefaultRule;
    FoundName(t.attributes, p.0);
    AttributeOnceExactly(t, WithDefaults(rule), sensitive, p.0);
    hide Redacted, FindAttribute, Contains, Lower, Mask, Matched, FirstMasker, Excluded;
  }

  /** A condition newly met by an attribute that is not is met by a default's mask over the value. */
  lemma NewlyMetByMasker(t: Target, rule: Rule, sensitive: Names, p: (string, string)) returns (i: nat)
    requires FindAttribute(t.attributes, p.0).Some? && !Exposed(FindAttribute(t.attributes, p.0).value, sensitive)
    requires !Matches(t, rule) && !Holds(t.attributes, p.0, p.1)
    requires Holds(Redacted(t, WithDefaults(rule), sensitive).attributes, p.0, p.1)
    ensures p.0 == "value" && i < MASKERS && InMask(MaskerId(i), p.1) && CanBe(sensitive, "value", false)
    ensures Matches(t, DefaultRule(i)) && forall j: nat :: j < i ==> !Matches(t, DefaultRule(j))
  {
    hide WithDefaults, DefaultRule;
    i := DefaultsMask(t, rule);
    FoundName(t.attributes, p.0);
    AttributeOnceExactly(t, WithDefaults(rule), sensitive, p.0);
    hide Redacted, Matches, FindAttribute, Contains, Lower, Mask, Matched, FirstMasker, Excluded, MaskerId;
  }

  lemma MaskerWakes(t: Target, rule: Rule, sensitive: Names, p: (string, string))
    requires var once := Redacted(t, WithDefaults(rule), sensitive);
             !Matches(t, rule) && Matches(once, rule) && !Settled(once, rule)
    requires FindAttribute(t.attributes, p.0).Some? && !Exposed(FindAttribute(t.attributes, p.0).value, sensitive)
    requires p in Conditions(rule) && p.1 != "" && !Holds(t.attributes, p.0, p.1)
    requires Holds(Redacted(t, WithDefaults(rule), sensitive).attributes, p.0, p.1)
    ensures CanBe(sensitive, "value", false) && exists i: nat | i < MASKERS :: WokenByMasker(rule, i)
  {
    hide WithDefaults, DefaultRule, CanBe;
    var once := Redacted(t, WithDefaults(rule), sensitive);
    assert once.tagName == t.tagName;
    var i := NewlyMetByMasker(t, rule, sensitive, p);
    MaskerMatches(t, i);
    TagOfMatch(once, rule);
    hide Redacted, Settled, Matches, Holds, Lower, InMask, Forces, AlwaysDrops, MaskerId, FindAttribute, Exposed;
    DefaultIsSettled(t, rule, sensitive, i);
    UnsettledMustDrop(once, rule, i);
    forall j: nat | j < i
      ensures !Forces(rule, j)
    {
      ForcedMatchedBefore(t, rule, sensitive, j);
    }
    assert WokenByMasker(rule, i);
  }

  lemma TagOfMatch(t: Target, rule: Rule)
    requires Matches(t, rule)
    ensures rule.shape.tagName.Some? ==> rule.shape.tagName.value == Lower(t.tagName)
  {
  }

  lemma ForcedMatchedBefore(t: Target, rule: Rule, sensitive: Names, j: nat)
    requires j < MASKERS && Matches(Redacted(t, WithDefaults(rule), sensitive), rule) && Lower(t.tagName) == "input"
    ensures Forces(rule, j) ==> Matches(t, DefaultRule(j))
  {
    hide WithDefaults, DefaultRule, Matches, Forces, Lower;
    var once := Redacted(t, WithDefaults(rule), sensitive);
    assert once.tagName == t.tagName;
    hide Redacted;
    if Forces(rule, j) {
      ForcedDefaultMatches(once, rule, j);
      DefaultMatchedBefore(t, rule, sensitive, j);
    }
  }

  /** Why a rule wakes: by the mask of a sensitive attribute, or by that of a masking default. */
  lemma WokenBecause(t: Target, rule: Rule, sensitive: Names)
    requires var once := Redacted(t, WithDefaults(rule), sensitive);
             !Matches(t, rule) && Matches(once, rule) && !Settled(once, rule)
    ensures CanWake(rule, sensitive)
  {
    hide WithDefaults, DefaultRule;
    MatchingNamesAreFound(t, rule, sensitive);
    var p := NewlyMetCondition(t, rule, sensitive);
    AttributeAfterIsThere(t, WithDefaults(rule), sensitive, p.0, p.1);
    EmptyConditionHolds(t.attributes, p.0);
    hide Redacted, Settled, Matches, NeverWakes, Holds, InMask, ComesWithAMasker, AlwaysDrops, WokenByMasker, CanBe, Exposed, FindAttribute;
    if Exposed(FindAttribute(t.attributes, p.0).value, sensitive) {
      NewlyMetBySensitiveMask(t, rule, sensitive, p);
      SensitiveMaskWakes(t, rule, sensitive);
    } else {
      MaskerWakes(t, rule, sensitive, p);
    }
  }

  lemma AttributeAfterIsThere(t: Target, rules: seq<Rule>, sensitive: Names, name: string, part: string)
    requires Holds(Redacted(t, rules, sensitive).attributes, name, part)
    ensures FindAttribute(t.attributes, name).Some?
  {
    PresenceIsNotNew(t, rules, sensitive, name);
    hide Redacted, Contains, Lower, FindAttribute;
  }

  lemma CannotWakeIsIdempotent(t: Target, rule: Rule, sensitive: Names)
    requires !CanWake(rule, sensitive)
    ensures Idempotent(t, WithDefaults(rule), sensitive)
  {
    var rules := WithDefaults(rule);
    var once := Redacted(t, rules, sensitive);
    IdempotentByNewMatches(t, rules, sensitive);
    hide Redacted, WithDefaults, Settled, Matches, DefaultRule, Idempotent, CanWake;
    forall r | r in rules && !Matches(t, r) && Matches(once, r)
      ensures Settled(once, r)
    {
      RulesWithDefaults(rule, r);
      if i: nat :| i <= MASKERS && r == DefaultRule(i) {
        DefaultMatchedBefore(t, rule, sensitive, i);
      } else if !Settled(once, r) {
        WokenBecause(t, rule, sensitive);
      }
    }
  }

  // ---------------------------------------------------------------- a rule that can wake

  /** The names are as attribute names are looked up, and none of them marks private data. */
  ghost predicate CanBeFound(rule: Rule) {
    && (forall n :: n in Required(rule) ==> Lower(n) == n && n != "data-private")
    && (forall p :: p in Conditions(rule) ==> Lower(p.0) == p.0 && p.0 != "data-private")
  }

  /** The conditions come from a record, whose keys are distinct. */
  ghost predicate IsRecord(ps: seq<(string, string)>) {
    forall i, j :: 0 <= i < j < |ps| ==> ps[i].0 != ps[j].0
  }

  /**
   * A value that meets a condition, but for the attribute called `alias`, which is empty. It looks
   * redacted already, so that no mask is written over it; the attribute of `extra` gets a word more.
   */
  function Worn(p: (string, string), alias: string, extra: Option<(string, string)>): string {
    if p.0 == Lower(alias) then "" else MARKER + " " + Worded(p, extra)
  }

  function Worded(p: (string, string), extra: Option<(string, string)>): string {
    if extra.Some? && p.0 == extra.value.0 then p.1 + " " + extra.value.1 else p.1
  }

  function WornName(name: string, alias: string): string {
    if name == Lower(alias) then alias else name
  }

  function Dress(ps: seq<(string, string)>, alias: string, extra: Option<(string, string)>): seq<Entry> {
    if ps == [] then [] else [Entry(WornName(ps[0].0, alias), Worn(ps[0], alias, extra))] + Dress(ps[1..], alias, extra)
  }

  function Blanks(names: seq<string>): seq<Entry> {
    if names == [] then [] else [Entry(names[0], "")] + Blanks(names[1..])
  }

  function ExtraEntry(extra: Option<(string, string)>): seq<Entry> {
    if extra.Some? then [Entry(extra.value.0, extra.value.1)] else []
  }

  /** Attributes that meet everything the rule asks for, except for the one called `alias`. */
  function Outfit(rule: Rule, alias: string, extra: Option<(string, string)>): seq<Entry> {
    Dress(Conditions(rule), alias, extra) + (ExtraEntry(extra) + Blanks(Required(rule)))
  }

  lemma {:induction false} FindInAppend(a: seq<Entry>, b: seq<Entry>, n: string)
    ensures FindAttribute(a + b, n) == if FindAttribute(a, n).Some? then FindAttribute(a, n) else FindAttribute(b, n)
  {
    if a == [] {
      assert a + b == b;
    } else {
      assert (a + b)[1..] == a[1..] + b;
      FindInAppend(a[1..], b, n);
    }
  }

  lemma {:induction false} FindInDress(ps: seq<(string, string)>, alias: string, extra: Option<(string, string)>, n: string)
    requires forall p :: p in ps ==> Lower(p.0) == p.0
    ensures var found := FindAttribute(Dress(ps, alias, extra), n);
            && (found.None? ==> forall p :: p in ps ==> p.0 != n)
            && (found.Some? ==> exists p :: p in ps && p.0 == n && found.value == Entry(WornName(n, alias), Worn(p, alias, extra)))
  {
    hide Lower, Worn;
    if ps != [] {
      FindInDress(ps[1..], alias, extra, n);
      assert ps == [ps[0]] + ps[1..];
      var tail := Dress(ps[1..], alias, extra);
      assert Lower(WornName(ps[0].0, alias)) == ps[0].0;
      assert ([Entry(WornName(ps[0].0, alias), Worn(ps[0], alias, extra))] + tail)[1..] == tail;
    }
  }

  lemma {:induction false} FindInBlanks(names: seq<string>, n: string)
    requires forall m :: m in names ==> Lower(m) == m
    ensures FindAttribute(Blanks(names), n) == if n in names then Some(Entry(n, "")) else None
  {
    hide Lower;
    if names != [] {
      FindInBlanks(names[1..], n);
      assert names == [names[0]] + names[1..];
      var tail := Blanks(names[1..]);
      assert ([Entry(names[0], "")] + tail)[1..] == tail;
    }
  }

  lemma FindInExtra(extra: Option<(string, string)>, n: string)
    requires extra.Some? ==> Lower(extra.value.0) == extra.value.0
    ensures FindAttribute(ExtraEntry(extra), n)
         == if extra.Some? && n == extra.value.0 then Some(Entry(n, extra.value.1)) else None
  {
    hide Lower;
    if extra.Some? {
      assert ExtraEntry(extra)[1..] == [];
    }
  }

  lemma OneConditionPerName(ps: seq<(string, string)>, p: (string, string), q: (string, string))
    requires IsRecord(ps) && p in ps && q in ps && p.0 == q.0
    ensures p == q
  {
  }

  /** What is found of a condition, of a required name, and of anything else. */
  lemma FindInOutfit(rule: Rule, alias: string, extra: Option<(string, string)>, n: string)
    requires CanBeFound(rule) && (extra.Some? ==> Lower(extra.value.0) == extra.value.0)
    ensures var found := FindAttribute(Outfit(rule, alias, extra), n);
            && (found.None? ==> (forall p :: p in Conditions(rule) ==> p.0 != n) && n !in Required(rule) && (extra.Some? ==> n != extra.value.0))
            && (found.Some? ==>
                  || (exists p :: p in Conditions(rule) && p.0 == n && found.value == Entry(WornName(n, alias), Worn(p, alias, extra)))
                  || ((forall p :: p in Conditions(rule) ==> p.0 != n) && extra.Some? && n == extra.value.0
                      && found.value == Entry(n, extra.value.1))
                  || ((forall p :: p in Conditions(rule) ==> p.0 != n) && (extra.Some? ==> n != extra.value.0)
                      && n in Required(rule) && found.value == Entry(n, "")))
  {
    FindInDress(Conditions(rule), alias, extra, n);
    FindInBlanks(Required(rule), n);
    FindInExtra(extra, n);
    FindInAppend(ExtraEntry(extra), Blanks(Required(rule)), n);
    FindInAppend(Dress(Conditions(rule), alias, extra), ExtraEntry(extra) + Blanks(Required(rule)), n);
    hide Lower, Worn, WornName, Dress, Blanks, ExtraEntry, FindAttribute, CanBeFound;
    var worn := FindAttribute(Dress(Conditions(rule), alias, extra), n);
    if worn.Some? {
      var p :| p in Conditions(rule) && p.0 == n && worn.value == Entry(WornName(n, alias), Worn(p, alias, extra));
      assert FindAttribute(Outfit(rule, alias, extra), n) == worn;
    }
  }

  lemma FindCondition(rule: Rule, alias: string, extra: Option<(string, string)>, p: (string, string))
    requires CanBeFound(rule) && (extra.Some? ==> Lower(extra.value.0) == extra.value.0)
    requires IsRecord(Conditions(rule)) && p in Conditions(rule)
    ensures FindAttribute(Outfit(rule, alias, extra), p.0) == Some(Entry(WornName(p.0, alias), Worn(p, alias, extra)))
  {
    FindInOutfit(rule, alias, extra, p.0);
    hide Lower, Worn, WornName, Outfit, FindAttribute, IsRecord;
    forall q | q in Conditions(rule) && q.0 == p.0
      ensures q == p
    {
      OneConditionPerName(Conditions(rule), p, q);
    }
  }

  /** Where no attribute marks private data, what is found stays, perhaps under a mask. */
  lemma NothingIsDropped(t: Target, rule: Rule, sensitive: Names, n: string)
    requires !Matches(t, rule) && FindAttribute(t.attributes, "data-private").None? && FindAttribute(t.attributes, n).Some?
    ensures var e := FindAttribute(t.attributes, n).value;
            var masker := FirstMasker(Matched(t, WithDefaults(rule)));
            AttributeOnce(t, WithDefaults(rule), sensitive, n)
            == if n == "value" && masker.Some? && !sensitive(e.name) && !AlreadyRedacted(e.value)
               then Some(Entry(e.name, Mask(masker.value))) else Some(MaskEntry(e, sensitive))
  {
    hide WithDefaults, FindAttribute, Matches, Matched, FirstMasker, Excluded, Mask;
    if n in Excluded(Matched(t, WithDefaults(rule))) {
      DefaultsExclude(t, rule, n);
    }
  }

  /** The rule drops an attribute it has asked for. */
  lemma SomethingToDrop(rule: Rule) returns (n: string)
    requires AlwaysDrops(rule) && CanBeFound(rule) && Conditions(rule) != []
    ensures n in Triggers(rule.shape) && (n in Required(rule) || exists p :: p in Conditions(rule) && p.0 == n)
  {
    hide Lower;
    if rule.shape.hasAttribute.Some? {
      n := rule.shape.hasAttribute.value[0];
      assert n in Required(rule);
      assert Triggers(rule.shape)[0] == n;
    } else {
      var p := Conditions(rule)[0];
      n := p.0;
      assert p in Conditions(rule);
      assert Triggers(rule.shape)[0] == n;
    }
  }

  /** What all lemmas about an outfit ask for: `p` is the condition that is not met. */
  ghost predicate Wears(t: Target, rule: Rule, p: (string, string), alias: string, extra: Option<(string, string)>) {
    && CanBeFound(rule) && IsRecord(Conditions(rule)) && p in Conditions(rule) && p.1 != "" && Lower(alias) == p.0
    && (extra.Some? ==> Lower(extra.value.0) == extra.value.0 && extra.value.0 != "data-private")
    && t.attributes == Outfit(rule, alias, extra)
  }

  lemma OutfitDoesNotMatch(t: Target, rule: Rule, p: (string, string), alias: string, extra: Option<(string, string)>)
    requires Wears(t, rule, p, alias, extra)
    ensures !Matches(t, rule)
    ensures FindAttribute(t.attributes, p.0) == Some(Entry(alias, ""))
  {
    FindCondition(rule, alias, extra, p);
    EmptyContainsNothing(p.1);
    hide Outfit, FindAttribute, Lower, Contains;
    assert !Holds(t.attributes, p.0, p.1);
  }

  lemma EmptyContainsNothing(part: string)
    requires part != ""
    ensures !Contains(Lower(""), Lower(part))
  {
    assert |Lower(part)| == |part| && |Lower("")| == 0;
  }

  lemma NoPrivateInOutfit(rule: Rule, alias: string, extra: Option<(string, string)>)
    requires CanBeFound(rule)
    requires extra.Some? ==> Lower(extra.value.0) == extra.value.0 && extra.value.0 != "data-private"
    ensures FindAttribute(Outfit(rule, alias, extra), "data-private").None?
  {
    FindInOutfit(rule, alias, extra, "data-private");
    hide Outfit, FindAttribute, Lower, Worn, WornName;
  }

  /** A worn value other than the empty one meets its condition and looks redacted. */
  lemma WornMeets(p: (string, string), alias: string, extra: Option<(string, string)>)
    requires p.0 != Lower(alias)
    ensures Contains(Lower(Worn(p, alias, extra)), Lower(p.1)) && AlreadyRedacted(Worn(p, alias, extra))
  {
    var (head, rest) := (MARKER + " ", if extra.Some? && p.0 == extra.value.0 then " " + extra.value.1 else "");
    assert Worded(p, extra) == p.1 + rest;
    assert Worn(p, alias, extra) == head + (p.1 + rest);
    LowerOfAppend(head, p.1 + rest);
    LowerOfAppend(p.1, rest);
    hide Lower, Contains;
    Regroup(Lower(head), Lower(p.1), Lower(rest));
    ContainsAround(Lower(head), Lower(p.1), Lower(rest));
  }

  /**
   * A target in the outfit of a rule wakes it, if the empty value comes back under a mask that meets
   * its condition and something is left for the rule to hide.
   */
  lemma OutfitWakes(t: Target, rule: Rule, sensitive: Names, p: (string, string), alias: string, extra: Option<(string, string)>,
                    masked: string)
    requires Wears(t, rule, p, alias, extra)
    requires rule.shape.tagName.Some? ==> Lower(t.tagName) == rule.shape.tagName.value
    requires AttributeOnce(t, WithDefaults(rule), sensitive, p.0) == Some(Entry(alias, masked)) && Contains(Lower(masked), Lower(p.1))
    requires AlwaysDrops(rule) || (TextShows(t.text) && Matched(t, WithDefaults(rule)) == [])
    ensures !Idempotent(t, WithDefaults(rule), sensitive)
  {
    hide WithDefaults, DefaultRule, Wears;
    var rules := WithDefaults(rule);
    OutfitDoesNotMatch(t, rule, p, alias, extra);
    RulesWithDefaults(rule, rule);
    IdempotentExactly(t, rules, sensitive);
    hide Idempotent, Matches, Matched;
    forall q | q in Conditions(rule)
      ensures var e := AttributeOnce(t, rules, sensitive, q.0); e.Some? && Contains(Lower(e.value.value), Lower(q.1))
    {
      ConditionIsMetOnce(t, rule, sensitive, p, alias, extra, masked, q);
    }
    forall n | n in Required(rule)
      ensures AttributeOnce(t, rules, sensitive, n).Some?
    {
      RequiredIsThereOnce(t, rule, sensitive, p, alias, extra, n);
    }
    assert MatchesOnce(t, rules, sensitive, rule) by {
      hide AttributeOnce, Lower, Contains;
    }
    if AlwaysDrops(rule) {
      assert CanBeFound(rule) && Conditions(rule) != [] by { WearsConditions(t, rule, p, alias, extra); }
      var n := SomethingToDrop(rule);
      hide AttributeOnce, Lower, Contains, MatchesOnce, Triggers;
      assert AttributeOnce(t, rules, sensitive, n).Some?;
      assert !SettledOnce(t, rules, sensitive, rule);
    } else {
      hide AttributeOnce, Lower, Contains, MatchesOnce, Triggers;
      assert !SettledOnce(t, rules, sensitive, rule);
    }
  }

  lemma WearsConditions(t: Target, rule: Rule, p: (string, string), alias: string, extra: Option<(string, string)>)
    requires Wears(t, rule, p, alias, extra)
    ensures CanBeFound(rule) && Conditions(rule) != []
  {
  }

  lemma ConditionIsMetOnce(t: Target, rule: Rule, sensitive: Names, p: (string, string), alias: string,
                           extra: Option<(string, string)>, masked: string, q: (string, string))
    requires Wears(t, rule, p, alias, extra) && q in Conditions(rule)
    requires AttributeOnce(t, WithDefaults(rule), sensitive, p.0) == Some(Entry(alias, masked)) && Contains(Lower(masked), Lower(p.1))
    ensures var e := AttributeOnce(t, WithDefaults(rule), sensitive, q.0); e.Some? && Contains(Lower(e.value.value), Lower(q.1))
  {
    hide WithDefaults, DefaultRule;
    if q.0 == p.0 {
      OneConditionPerName(Conditions(rule), p, q);
      hide AttributeOnce, Lower, Contains;
    } else {
      OutfitDoesNotMatch(t, rule, p, alias, extra);
      NoPrivateInOutfit(rule, alias, extra);
      FindCondition(rule, alias, extra, q);
      WornMeets(q, alias, extra);
      hide AttributeOnce, Lower, Contains, Outfit, FindAttribute, Worn, Matches, Mask, FirstMasker, Matched, AlreadyRedacted;
      NothingIsDropped(t, rule, sensitive, q.0);
    }
  }

  lemma RequiredIsThereOnce(t: Target, rule: Rule, sensitive: Names, p: (string, string), alias: string,
                            extra: Option<(string, string)>, n: string)
    requires Wears(t, rule, p, alias, extra) && n in Required(rule)
    ensures AttributeOnce(t, WithDefaults(rule), sensitive, n).Some?
  {
    hide WithDefaults, DefaultRule;
    OutfitDoesNotMatch(t, rule, p, alias, extra);
    NoPrivateInOutfit(rule, alias, extra);
    FindInOutfit(rule, alias, extra, n);
    hide AttributeOnce, Lower, Contains, Outfit, FindAttribute, Worn, WornName, Matches, Mask, FirstMasker, Matched;
    NothingIsDropped(t, rule, sensitive, n);
  }

  // ---------------------------------------------------------------- the two ways of waking

  /** The table of the masking defaults, as far as the outfits need it. */
  lemma MaskerTable(i: nat)
    requires i < MASKERS
    ensures Lower(MaskerName(i)) == MaskerName(i) && MaskerName(i) != "value" && MaskerName(i) != "data-private"
    ensures MaskerPart(i) != ""
  {
  }

  lemma PartsArePlain(i: nat)
    requires i < MASKERS
    ensures ' ' !in Lower(MaskerPart(i))
  {
  }

  /** No default is forced by a later one on the same attribute. */
  lemma LaterDoesNotForce(i: nat, j: nat)
    requires j < i < MASKERS && MaskerName(i) == MaskerName(j)
    ensures !Contains(Lower(MaskerPart(i)), Lower(MaskerPart(j)))
  {
    var part := MaskerPart(j);
    if i == 5 {
      OtherLetter("hidden", part, 0);
    } else if i == 4 {
      OtherLetter("password", part, 0);
    } else if i == 3 {
      OtherLetter("new-password", part, 0);
    } else {
      OtherLetter("current-password", part, 6);
    }
  }

  lemma OtherLetter(text: string, part: string, k: nat)
    requires k < |part| && LowerChar(part[k]) !in Lower(text)
    ensures !Contains(Lower(text), Lower(part))
  {
    assert Lower(part)[k] == LowerChar(part[k]);
    ForeignLetter(Lower(text), Lower(part), k);
  }

  /** Over an outfit, a default is met only by a condition that forces it or by the extra word. */
  lemma MetByOutfit(rule: Rule, alias: string, extra: Option<(string, string)>, j: nat)
    requires CanBeFound(rule) && j < MASKERS
    requires extra.Some? ==> Lower(extra.value.0) == extra.value.0
    requires extra.Some? && extra.value.0 == MaskerName(j) ==> !Contains(Lower(extra.value.1), Lower(MaskerPart(j)))
    requires Holds(Outfit(rule, alias, extra), MaskerName(j), MaskerPart(j))
    ensures Forces(rule, j)
  {
    FindInOutfit(rule, alias, extra, MaskerName(j));
    MaskerTable(j);
    EmptyContainsNothing(MaskerPart(j));
    var value := FindAttribute(Outfit(rule, alias, extra), MaskerName(j)).value;
    hide Outfit, FindAttribute, Lower, Contains, Worn, WornName, MaskerName, MaskerPart, CanBeFound;
    assert exists p :: p in Conditions(rule) && p.0 == MaskerName(j) && value.value == Worn(p, alias, extra);
    var p :| p in Conditions(rule) && p.0 == MaskerName(j) && value.value == Worn(p, alias, extra);
    WornForces(p, alias, extra, j);
  }

  /** The marker itself meets no default. */
  lemma MarkerMeetsNothing(j: nat)
    ensures !Contains(Lower(MARKER), Lower(MaskerPart(j)))
  {
    NotInSensitiveMask(j);
    var rest := ":" + SENSITIVE_ATTRIBUTE + "]";
    assert Mask(SENSITIVE_ATTRIBUTE) == MARKER + rest;
    LowerOfAppend(MARKER, rest);
    ContainsAround("", Lower(MARKER), Lower(rest));
    hide Lower, MaskerPart, Mask, Contains;
    assert "" + Lower(MARKER) + Lower(rest) == Lower(MARKER) + Lower(rest);
    if Contains(Lower(MARKER), Lower(MaskerPart(j))) {
      ContainsTransitive(Lower(Mask(SENSITIVE_ATTRIBUTE)), Lower(MARKER), Lower(MaskerPart(j)));
    }
  }

  lemma LowerAcrossSpace(x: string, y: string)
    ensures Lower(x + " " + y) == Lower(x) + " " + Lower(y)
  {
    LowerOfAppend(x + " ", y);
    LowerOfAppend(x, " ");
    assert Lower(" ") == " ";
  }

  /** The worn value of a condition contains a default's word only if the condition or the extra word does. */
  lemma WornForces(p: (string, string), alias: string, extra: Option<(string, string)>, j: nat)
    requires j < MASKERS && p.0 == MaskerName(j)
    requires extra.Some? && extra.value.0 == MaskerName(j) ==> !Contains(Lower(extra.value.1), Lower(MaskerPart(j)))
    requires Contains(Lower(Worn(p, alias, extra)), Lower(MaskerPart(j)))
    ensures Contains(Lower(p.1), Lower(MaskerPart(j)))
  {
    MaskerTable(j);
    PartsArePlain(j);
    EmptyContainsNothing(MaskerPart(j));
    MarkerMeetsNothing(j);
    hide MaskerName, MaskerPart, Contains, Lower;
    LowerAcrossSpace(MARKER, Worded(p, extra));
    assert Worn(p, alias, extra) == MARKER + " " + Worded(p, extra);
    ContainsAcrossSpace(Lower(MARKER), Lower(Worded(p, extra)), Lower(MaskerPart(j)));
    if extra.Some? && p.0 == extra.value.0 {
      LowerAcrossSpace(p.1, extra.value.1);
      ContainsAcrossSpace(Lower(p.1), Lower(extra.value.1), Lower(MaskerPart(j)));
    }
  }

  /** Waking by the mask of a sensitive attribute: that attribute is empty, and the text shows. */
  lemma WakeBySensitiveMask(rule: Rule, sensitive: Names, p: (string, string), alias: string) returns (t: Target)
    requires CanBeFound(rule) && IsRecord(Conditions(rule)) && p in Conditions(rule) && p.1 != ""
    requires Lower(alias) == p.0 && sensitive(alias)
    requires rule.shape.tagName.Some? ==> Lower(rule.shape.tagName.value) == rule.shape.tagName.value
    requires InMask(SENSITIVE_ATTRIBUTE, p.1) && (ComesWithAMasker(rule) ==> AlwaysDrops(rule))
    ensures !Idempotent(t, WithDefaults(rule), sensitive)
  {
    hide WithDefaults, DefaultRule;
    t := Target(rule.shape.tagName.GetOr("div"), "x", Outfit(rule, alias, None));
    OutfitDoesNotMatch(t, rule, p, alias, None);
    NoPrivateInOutfit(rule, alias, None);
    NothingIsDropped(t, rule, sensitive, p.0);
    assert !AlreadyRedacted("");
    assert TextShows("x");
    if !ComesWithAMasker(rule) {
      NothingElseMatches(t, rule, alias);
    }
    hide Matches, Outfit, FindAttribute, Lower, Contains, AttributeOnce, Matched, FirstMasker, Idempotent, ComesWithAMasker, AlwaysDrops, Mask;
    OutfitWakes(t, rule, sensitive, p, alias, None, Mask(SENSITIVE_ATTRIBUTE));
  }

  lemma NothingElseMatches(t: Target, rule: Rule, alias: string)
    requires CanBeFound(rule) && !ComesWithAMasker(rule) && !Matches(t, rule)
    requires t.tagName == rule.shape.tagName.GetOr("div") && t.attributes == Outfit(rule, alias, None)
    requires rule.shape.tagName.Some? ==> Lower(rule.shape.tagName.value) == rule.shape.tagName.value
    ensures Matched(t, WithDefaults(rule)) == []
  {
    hide WithDefaults, DefaultRule;
    assert Lower("div") != "input";
    forall j: nat | j <= MASKERS
      ensures !Matches(t, DefaultRule(j))
    {
      hide Matches, Outfit, Forces, Holds;
      if j == MASKERS {
        PrivateMatches(t);
        NoPrivateInOutfit(rule, alias, None);
      } else {
        MaskerMatches(t, j);
        if Lower(t.tagName) == "input" && Holds(t.attributes, MaskerName(j), MaskerPart(j)) {
          MetByOutfit(rule, alias, None, j);
        }
      }
    }
    hide Matches, Matched;
    DefaultsMatchNothing(t, rule);
  }

  /** Waking by the mask of the `i`-th default: the value is empty and not sensitive, and the target matches that default first. */
  lemma WakeByMasker(rule: Rule, sensitive: Names, i: nat, p: (string, string), alias: string) returns (t: Target)
    requires CanBeFound(rule) && IsRecord(Conditions(rule)) && p in Conditions(rule) && p.1 != ""
    requires Lower(alias) == "value" && !sensitive(alias)
    requires i < MASKERS && WokenByMasker(rule, i) && p.0 == "value" && InMask(MaskerId(i), p.1)
    ensures !Idempotent(t, WithDefaults(rule), sensitive)
  {
    hide WithDefaults, DefaultRule;
    var extra := Some((MaskerName(i), MaskerPart(i)));
    t := Target("input", "x", Outfit(rule, alias, extra));
    assert Lower("input") == "input";
    MaskerTable(i);
    hide MaskerName, MaskerPart, MaskerId;
    OutfitDoesNotMatch(t, rule, p, alias, extra);
    NoPrivateInOutfit(rule, alias, extra);
    NothingIsDropped(t, rule, sensitive, "value");
    FirstMaskerOfOutfit(t, rule, i, alias);
    assert !AlreadyRedacted("");
    hide Matches, Outfit, FindAttribute, Lower, Contains, AttributeOnce, Matched, FirstMasker, Idempotent, AlwaysDrops, Mask, Forces;
    OutfitWakes(t, rule, sensitive, p, alias, extra, Mask(MaskerId(i)));
  }

  lemma FirstMaskerOfOutfit(t: Target, rule: Rule, i: nat, alias: string)
    requires CanBeFound(rule) && i < MASKERS && !Matches(t, rule) && forall j: nat :: j < i ==> !Forces(rule, j)
    requires Lower(alias) == "value"
    requires t.tagName == "input" && t.attributes == Outfit(rule, alias, Some((MaskerName(i), MaskerPart(i))))
    ensures FirstMasker(Matched(t, WithDefaults(rule))) == Some(MaskerId(i))
  {
    hide WithDefaults, DefaultRule, Outfit, Forces;
    assert Lower(t.tagName) == "input";
    var extra := Some((MaskerName(i), MaskerPart(i)));
    MaskerTable(i);
    MaskerMatches(t, i);
    ExtraMeets(rule, i, alias);
    hide MaskerName, MaskerPart, MaskerId, Matches, Holds, Matched, FirstMasker, Lower;
    forall j: nat | j < i
      ensures !Matches(t, DefaultRule(j))
    {
      MaskerMatches(t, j);
      if Holds(t.attributes, MaskerName(j), MaskerPart(j)) {
        if MaskerName(i) == MaskerName(j) {
          LaterDoesNotForce(i, j);
        }
        MetByOutfit(rule, alias, extra, j);
      }
    }
    var k := DefaultsMask(t, rule);
  }

  /** The outfit meets the default of the extra word. */
  lemma ExtraMeets(rule: Rule, i: nat, alias: string)
    requires CanBeFound(rule) && i < MASKERS && Lower(alias) == "value"
    ensures Holds(Outfit(rule, alias, Some((MaskerName(i), MaskerPart(i)))), MaskerName(i), MaskerPart(i))
  {
    var (name, part) := (MaskerName(i), MaskerPart(i));
    var extra := Some((name, part));
    MaskerTable(i);
    hide MaskerName, MaskerPart;
    FindInOutfit(rule, alias, extra, name);
    ContainsAround("", Lower(part), "");
    assert "" + Lower(part) + "" == Lower(part);
    var found := FindAttribute(Outfit(rule, alias, extra), name);
    if p :| p in Conditions(rule) && p.0 == name && found == Some(Entry(WornName(name, alias), Worn(p, alias, extra))) {
      WornHasExtra(p, alias, extra.value);
      hide Lower, Contains, Outfit, FindAttribute, Worn;
    } else {
      hide Lower, Contains, Outfit, FindAttribute, Worn;
    }
  }

  lemma WornHasExtra(p: (string, string), alias: string, extra: (string, string))
    requires p.0 == extra.0 != Lower(alias)
    ensures Contains(Lower(Worn(p, alias, Some(extra))), Lower(extra.1))
  {
    var head := MARKER + " " + p.1 + " ";
    assert Worn(p, alias, Some(extra)) == head + extra.1;
    LowerOfAppend(head, extra.1);
    ContainsAround(Lower(head), Lower(extra.1), "");
    assert Lower(head) + Lower(extra.1) + "" == Lower(head) + Lower(extra.1);
  }

  // ---------------------------------------------------------------- the exact condition

  lemma CanWakeIsNotIdempotent(rule: Rule, sensitive: Names) returns (t: Target)
    requires IsRecord(Conditions(rule)) && CanWake(rule, sensitive)
    ensures !Idempotent(t, WithDefaults(rule), sensitive)
  {
    assert CanBeFound(rule);
    hide CanBeFound, IsRecord, InMask, AlwaysDrops, ComesWithAMasker, Idempotent, WithDefaults, Forces, MaskerId, Lower;
    if WokenBySensitiveMask(rule, sensitive) {
      var p :| p in Conditions(rule) && p.1 != "" && InMask(SENSITIVE_ATTRIBUTE, p.1) && CanBe(sensitive, p.0, true);
      var alias :| Lower(alias) == p.0 && sensitive(alias) == true;
      t := WakeBySensitiveMask(rule, sensitive, p, alias);
    } else {
      var i: nat :| i < MASKERS && WokenByMasker(rule, i);
      var p :| p in Conditions(rule) && p.0 == "value" && p.1 != "" && InMask(MaskerId(i), p.1);
      var alias :| Lower(alias) == "value" && sensitive(alias) == false;
      t := WakeByMasker(rule, sensitive, i, p, alias);
    }
  }

  /**
   * One configured rule of any shape, behind the defaults, with whatever names are sensitive:
   * redaction is idempotent for every target exactly when no mask can wake the rule.
   */
  lemma ConfiguredRuleIdempotentExactly(rule: Rule, sensitive: Names)
    requires IsRecord(Conditions(rule))
    ensures (forall t :: Idempotent(t, WithDefaults(rule), sensitive)) <==> !CanWake(rule, sensitive)
  {
    hide Idempotent, CanWake, WithDefaults, IsRecord;
    if CanWake(rule, sensitive) {
      var t := CanWakeIsNotIdempotent(rule, sensitive);
    } else {
      forall t
        ensures Idempotent(t, WithDefaults(rule), sensitive)
      {
        CannotWakeIsIdempotent(t, rule, sensitive);
      }
    }
  }

  lemma CanBeEither(name: string)
    requires Lower(name) == name
    ensures CanBe(n => n == name, name, true) && CanBe(_ => false, name, false)
  {
    hide Lower;
    var one: Names := n => n == name;
    var none: Names := _ => false;
    assert one(name) == true && none(name) == false;
  }

  /** Some notion of sensitive names lets a mask wake the rule. */
  lemma WakesUnderSomeNames(rule: Rule) returns (sensitive: Names)
    requires CanWakeSomehow(rule)
    ensures CanWake(rule, sensitive)
  {
    assert Lower("value") == "value";
    hide InMask, WokenByMasker, ComesWithAMasker, AlwaysDrops, Lower, CanBe;
    if i: nat :| i < MASKERS && WokenByMasker(rule, i) {
      CanBeEither("value");
      sensitive := _ => false;
    } else {
      var p :| p in Conditions(rule) && p.1 != "" && InMask(SENSITIVE_ATTRIBUTE, p.1);
      CanBeEither(p.0);
      sensitive := n => n == p.0;
    }
  }

  /** Whether there is such a notion can be read off the rule alone. */
  lemma WakesSomehowExactly(rule: Rule)
    ensures CanWakeSomehow(rule) <==> exists sensitive :: CanWake(rule, sensitive)
  {
    hide InMask, WokenByMasker, ComesWithAMasker, AlwaysDrops, CanBe, NeverWakes;
    if CanWakeSomehow(rule) {
      var sensitive := WakesUnderSomeNames(rule);
    }
  }

  /** And so can whether redaction is idempotent under every notion of sensitive names. */
  lemma IdempotentForAllNamesExactly(rule: Rule)
    requires IsRecord(Conditions(rule))
    ensures (forall t, sensitive :: Idempotent(t, WithDefaults(rule), sensitive)) <==> !CanWakeSomehow(rule)
  {
    WakesSomehowExactly(rule);
    hide Idempotent, CanWake, CanWakeSomehow, WithDefaults, IsRecord;
    if CanWakeSomehow(rule) {
      var sensitive :| CanWake(rule, sensitive);
      var t := CanWakeIsNotIdempotent(rule, sensitive);
    } else {
      forall t, sensitive
        ensures Idempotent(t, WithDefaults(rule), sensitive)
      {
        CannotWakeIsIdempotent(t, rule, sensitive);
      }
    }
  }

  /** A family of rules that wake: they drop every value in which they find a word of the password mask. */
  function DroppingRule(part: string): Rule {
    Rule("r", "d", Descriptor(None, Some([("value", part)]), None), Exclude)
  }

  lemma DroppingRuleExactly(t: Target, rules: seq<Rule>, sensitive: Names, part: string)
    ensures var rule := DroppingRule(part);
            && (Matches(t, rule) <==> Holds(t.attributes, "value", part))
            && (MatchesOnce(t, rules, sensitive, rule) <==>
                  var e := AttributeOnce(t, rules, sensitive, "value");
                  e.Some? && Contains(Lower(e.value.value), Lower(part)))
            && (AttributeOnce(t, rules, sensitive, "value").Some? ==> !SettledOnce(t, rules, sensitive, rule))
  {
    var rule := DroppingRule(part);
    assert rule.shape.attributes.value == [("value", part)];
    assert ("value", part) in rule.shape.attributes.value;
    assert Triggers(rule.shape)[0] == "value" by { assert Lower("value") == "value"; }
    hide AttributeOnce, Holds, Contains, Lower, Triggers;
  }

  /** On a password field with a value of its own, the second pass drops the value which the first one masked. */
  lemma PasswordMaskWakesDroppingRule(part: string, secret: string)
    requires part != "" && InMask("password-input", part)
    requires !Contains(Lower(secret), Lower(part)) && !AlreadyRedacted(secret)
    ensures !Idempotent(Target("input", "", [Entry("type", "password"), Entry("value", secret)]), WithDefaults(DroppingRule(part)), _ => false)
  {
    hide WithDefaults, DefaultRule, Idempotent, Triggers;
    var rule := DroppingRule(part);
    var sensitive: Names := _ => false;
    var t := Target("input", "", [Entry("type", "password"), Entry("value", secret)]);
    PasswordField(secret);
    assert !Holds(t.attributes, "value", part);
    assert Lower("input") == "input" && MaskerName(0) == "type" && MaskerPart(0) == "password" && MaskerId(0) == "password-input";
    hide FindAttribute, Contains, Lower, AlreadyRedacted, Mask, MaskerName, MaskerPart, MaskerId;
    MaskerMatches(t, 0);
    DroppingRuleExactly(t, WithDefaults(rule), sensitive, part);
    hide Holds, Matches, MatchesOnce, SettledOnce, Matched, FirstMasker;
    RulesWithDefaults(rule, rule);
    IdempotentExactly(t, WithDefaults(rule), sensitive);
    var i := DefaultsMask(t, rule);
    NothingIsDropped(t, rule, sensitive, "value");
  }

  lemma PasswordField(secret: string)
    ensures var attributes := [Entry("type", "password"), Entry("value", secret)];
            && FindAttribute(attributes, "value") == Some(Entry("value", secret))
            && FindAttribute(attributes, "data-private").None?
            && Holds(attributes, "type", "password")
  {
    var attributes := [Entry("type", "password"), Entry("value", secret)];
    var tail := [Entry("value", secret)];
    assert attributes[1..] == tail && tail[1..] == [];
    assert Lower("type") == "type" && Lower("value") == "value";
    assert "type"[0] != "value"[0] && |"data-private"| == 12;
    assert FindAttribute(tail, "data-private") == FindAttribute([], "data-private") == None;
    assert FindAttribute(tail, "value") == Some(tail[0]);
    assert FindAttribute(attributes, "data-private") == FindAttribute(tail, "data-private");
    assert FindAttribute(attributes, "value") == FindAttribute(tail, "value");
    ContainsAround("", Lower("password"), "");
    assert "" + Lower("password") + "" == Lower("password");
  }

  lemma PasswordIsInItsMask()
    ensures InMask("password-input", "password")
  {
    assert Mask("password-input") == "[REDACTED:" + ("password" + "-input]");
    LowerOfAppend("[REDACTED:", "password" + "-input]");
    LowerOfAppend("password", "-input]");
    var (a, b, c) := (Lower("[REDACTED:"), Lower("password"), Lower("-input]"));
    ContainsAround(a, b, c);
    hide Lower, Mask, Contains;
    assert a + b + c == a + (b + c);
  }

  /** For instance, the rule that drops values containing "password". */
  lemma PasswordRuleIsNotIdempotent()
    ensures !Idempotent(Target("input", "", [Entry("type", "password"), Entry("value", "x")]), WithDefaults(DroppingRule("password")), _ => false)
  {
    PasswordIsInItsMask();
    assert |Lower("x")| == 1 && |Lower("password")| == 8;
    assert !AlreadyRedacted("x");
    hide InMask, Idempotent, WithDefaults;
    PasswordMaskWakesDroppingRule("password", "x");
  }
}
