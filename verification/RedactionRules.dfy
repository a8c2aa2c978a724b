/**
 * The default redaction rules, and lists with configured rules behind them.
 */
module RedactionRules {
  import opened Prelude
  import opened Text
  import opened Redaction

  /** The masking defaults come first; the rule on private data is the last one. */
  const MASKERS: nat := 6

  function MaskerName(i: nat): string {
    if i == 0 || i == 5 then "type" else "autocomplete"
  }

  function MaskerPart(i: nat): string {
    if i == 0 || i == 4 then "password"
    else if i == 1 then "username"
    else if i == 2 then "current-password"
    else if i == 3 then "new-password"
    else "hidden"
  }

  function MaskerId(i: nat): string {
    if i == 0 then "password-input" else if i == 5 then "hidden-form-field" else "autocomplete-" + MaskerPart(i)
  }

  function MaskerReason(i: nat): string {
    if i == 0 then "input[type=password] value masked (PRD \U{A7}27.2)."
    else if i == 5 then "input[type=hidden] value masked (PRD \U{A7}16.3 hidden form value)."
    else "input[autocomplete~=" + MaskerPart(i) + "] value masked (PRD \U{A7}27.2 credential field)."
  }

  function DefaultRule(i: nat): Rule {
    if i < MASKERS then
      Rule(MaskerId(i), MaskerReason(i), Descriptor(Some("input"), Some([(MaskerName(i), MaskerPart(i))]), None), MaskValue)
    else
      Rule("data-private",
           "[data-private] element content excluded: triggering attribute dropped and text masked (PRD \U{A7}27.2).",
           Descriptor(None, None, Some(["data-private"])), Exclude)
  }

  function DefaultsUpTo(n: nat): (rules: seq<Rule>)
    ensures |rules| == n
  {
    if n == 0 then [] else DefaultsUpTo(n - 1) + [DefaultRule(n - 1)]
  }

  /** The rules as they are listed: a field of this type or with this token in `autocomplete` has its value masked. */
  lemma FieldRulesAreListed()
    ensures DefaultRule(0) == Rule("password-input", "input[type=password] value masked (PRD \U{A7}27.2).",
                                   Descriptor(Some("input"), Some([("type", "password")]), None), MaskValue)
    ensures DefaultRule(5) == Rule("hidden-form-field", "input[type=hidden] value masked (PRD \U{A7}16.3 hidden form value).",
                                   Descriptor(Some("input"), Some([("type", "hidden")]), None), MaskValue)
  {
  }

  lemma TokenRuleIsListed(i: nat, token: string)
    requires 1 <= i <= 4
    requires token == ["username", "current-password", "new-password", "password"][i - 1]
    ensures DefaultRule(i) == Rule("autocomplete-" + token,
                                   "input[autocomplete~=" + token + "] value masked (PRD \U{A7}27.2 credential field).",
                                   Descriptor(Some("input"), Some([("autocomplete", token)]), None), MaskValue)
  {
    assert token == MaskerPart(i);
  }

  lemma PrivateRuleIsListed()
    ensures DefaultRule(6).id == "data-private" && DefaultRule(6).action == Exclude
    ensures DefaultRule(6).shape == Descriptor(None, None, Some(["data-private"]))
    ensures DefaultRule(6).description
         == "[data-private] element content excluded: triggering attribute dropped and text masked (PRD \U{A7}27.2)."
  {
  }

  /** The defaults; a configuration appends to them. */
  function ResolveSelectorRules(config: Option<seq<Rule>>): seq<Rule> {
    if config.Some? && |config.value| > 0 then DefaultsUpTo(MASKERS + 1) + config.value else DefaultsUpTo(MASKERS + 1)
  }

  /** `rules` stands for the defaults where nothing else about the list matters. */
  ghost predicate AreDefaults(rules: seq<Rule>) {
    |rules| == MASKERS + 1 && forall i :: 0 <= i <= MASKERS ==> rules[i] == DefaultRule(i)
  }

  lemma {:induction false} DefaultsInOrder(n: nat)
    ensures forall i :: 0 <= i < n ==> DefaultsUpTo(n)[i] == DefaultRule(i)
  {
    hide DefaultRule;
    if n > 0 {
      DefaultsInOrder(n - 1);
    }
  }

  lemma ResolvedExactly(config: Option<seq<Rule>>) returns (defaults: seq<Rule>)
    ensures AreDefaults(defaults) && ResolveSelectorRules(config) == defaults + config.GetOr([])
    ensures defaults == ResolveSelectorRules(None)
  {
    DefaultsInOrder(MASKERS + 1);
    hide DefaultsUpTo, DefaultRule;
    defaults := DefaultsUpTo(MASKERS + 1);
  }

  // ---------------------------------------------------------------- the defaults are deaf

  ghost predicate Lacks(text: string) {
    forall c :: c in Lower(text) ==> c !in "wmh"
  }

  lemma MarkerLacks()
    ensures Lacks(MARKER) && Lacks(":")
  {
    assert Lower(MARKER) == "[redacted";
  }

  lemma NameLacks()
    ensures Lacks(SENSITIVE_ATTRIBUTE) && Lacks("]")
  {
    assert Lower(SENSITIVE_ATTRIBUTE) == "sensitive-attribute";
  }

  lemma AppendLacks(x: string, y: string)
    requires Lacks(x) && Lacks(y)
    ensures Lacks(x + y)
  {
    LowerOfAppend(x, y);
    hide Lower;
  }

  /** The mask over a sensitive attribute has none of three letters. */
  lemma SensitiveMaskLacks()
    ensures Lacks(Mask(SENSITIVE_ATTRIBUTE))
  {
    MarkerLacks();
    NameLacks();
    hide Lacks;
    AppendLacks(MARKER, ":");
    AppendLacks(MARKER + ":", SENSITIVE_ATTRIBUTE);
    AppendLacks(MARKER + ":" + SENSITIVE_ATTRIBUTE, "]");
  }

  /** What a masking default looks for has a letter that no mask over a sensitive attribute has. */
  lemma TellingLetter(i: nat) returns (k: nat)
    ensures k < |MaskerPart(i)| && LowerChar(MaskerPart(i)[k]) in "wmh"
    ensures MaskerName(i) != "value"
  {
    k := if i == 0 || i == 4 then 4 else if i == 1 then 6 else if i == 2 then 12 else if i == 3 then 2 else 0;
  }

  lemma NotInSensitiveMask(i: nat)
    ensures !Contains(Lower(Mask(SENSITIVE_ATTRIBUTE)), Lower(MaskerPart(i)))
  {
    SensitiveMaskLacks();
    var k := TellingLetter(i);
    hide Mask, Contains, MaskerPart, MaskerName;
    assert Lower(MaskerPart(i))[k] == LowerChar(MaskerPart(i)[k]);
    hide Lower;
    ForeignLetter(Lower(Mask(SENSITIVE_ATTRIBUTE)), Lower(MaskerPart(i)), k);
  }

  lemma NoMaskEchoes(i: nat, rules: seq<Rule>)
    ensures !Echoes(MaskerName(i), MaskerPart(i), rules)
  {
    NotInSensitiveMask(i);
    var k := TellingLetter(i);
    hide Lower, Mask, Contains, MaskerPart, MaskerName;
  }

  lemma DefaultRuleIsDeaf(i: nat, rules: seq<Rule>)
    ensures Deaf(DefaultRule(i), rules)
  {
    NoMaskEchoes(i, rules);
    hide Echoes, MaskerPart, MaskerName, MaskerId, MaskerReason;
  }

  /** Redaction is idempotent under the default rules, and under configured ones that are deaf. */
  lemma ConfiguredRulesAreIdempotent(t: Target, config: Option<seq<Rule>>, sensitive: Names)
    requires forall r :: r in config.GetOr([]) ==> Deaf(r, ResolveSelectorRules(config))
    ensures Idempotent(t, ResolveSelectorRules(config), sensitive)
  {
    var rules := ResolveSelectorRules(config);
    var defaults := ResolvedExactly(config);
    hide Deaf, DefaultsUpTo, DefaultRule, ResolveSelectorRules, Idempotent;
    forall r | r in rules
      ensures Deaf(r, rules)
    {
      if r in defaults {
        var i :| 0 <= i < |defaults| && defaults[i] == r;
        DefaultRuleIsDeaf(i, rules);
      }
    }
    DeafRulesAreIdempotent(t, rules, sensitive);
  }

  /**
   * No configuration switches a default rule off: it hides what it is meant to hide, and what masks
   * a showing text is a default rule.
   */
  lemma DefaultsStayInForce(t: Target, config: Option<seq<Rule>>, sensitive: Names, i: nat)
    requires i <= MASKERS && Matches(t, DefaultRule(i))
    ensures var redacted := Redacted(t, ResolveSelectorRules(config), sensitive);
            && Settled(redacted, DefaultRule(i))
            && redacted.text == Redacted(t, ResolveSelectorRules(None), sensitive).text
  {
    var rules := ResolveSelectorRules(config);
    var defaults := ResolvedExactly(config);
    hide DefaultRule, DefaultsUpTo, ResolveSelectorRules;
    assert defaults[i] == DefaultRule(i);
    MatchingRuleHides(t, rules, sensitive, DefaultRule(i));
    RedactedExactly(t, rules, sensitive);
    RedactedExactly(t, defaults, sensitive);
    MatchedOfAppend(t, defaults, config.GetOr([]));
    MatchedHolds(t, defaults);
    hide Redacted, Settled, Matches, Matched;
  }
}
