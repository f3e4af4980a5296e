/** Exactly when the generated policy covers what a rule reads. */
module CoverageExact {
  import opened Text
  import opened Glob
  import opened Template
  import opened Braces
  import opened Config
  import opened Policy
  import opened Resolver
  import opened Coverage
  import opened Wildcards

  /** The rule writes the pinned {prefix} into a segment it emits as text. */
  predicate SpellsPinnedPrefix(rule: Rule) {
    exists seg :: seg in Split(ReadTemplate(rule)) && Contains(seg, PREFIX) && !HasPlaceholder(Expand(Pinned(rule), seg))
  }

  /** The policy path covers what the rule expands to for every request it matches, even a path
      that Plan refuses. */
  ghost predicate CoversAllItsReads(rule: Rule) {
    forall req :: IsRequest(req) && RuleMatches(rule, req) ==> Covers(PolicyPathText(rule), ReadPath(RefOf(rule, req)))
  }

  lemma SegmentWithoutPrefix(rule: Rule, req: Request, seg: string)
    requires IsRequest(req) && RuleMatches(rule, req)
    requires !Contains(seg, PREFIX) && !HasPlaceholder(Expand(Pinned(rule), seg))
    ensures Expand(Values(req), seg) == Expand(Pinned(rule), seg)
  {
    PlaceholdersAreTokens();
    var rest := Pinned(rule) - {PREFIX};
    UnmentionedValue(PLACEHOLDERS, Pinned(rule), seg, PREFIX);
    forall p | p in rest ensures p in Values(req) && rest[p] == Values(req)[p] {
      PinnedButPrefixHolds(rule.unit, rule.credential, req.unit, req.credential, p);
    }
    PartialIsFinal(PLACEHOLDERS, rest, Values(req), seg);
  }

  lemma UnspelledPrefixIsCovered(rule: Rule, req: Request)
    requires ValidRule(rule) && !SpellsPinnedPrefix(rule) && IsRequest(req) && RuleMatches(rule, req)
    ensures Covers(PolicyPathText(rule), ReadPath(RefOf(rule, req)))
  {
    ValidRuleFacts(rule);
    PolicySegments(rule, req);
    ReadSegments(rule, req);
    var template := Split(ReadTemplate(rule));
    forall i | 0 <= i < |template|
      ensures EmittedSegments(rule)[i] == "+" || EmittedSegments(rule)[i] == Expand(Values(req), template[i])
    {
      if !HasPlaceholder(Expand(Pinned(rule), template[i])) {
        SegmentWithoutPrefix(rule, req, template[i]);
      }
    }
  }

  /** A request that contradicts the pinned {prefix} reads past the path that spells it. */
  lemma ContradictionIsUncovered(rule: Rule, req: Request)
    requires ValidRule(rule) && SpellsPinnedPrefix(rule) && IsRequest(req) && RuleMatches(rule, req)
    requires Pins(rule.unit, "", PREFIX) && |UnitPrefix(rule.unit)| != |UnitPrefix(req.unit)|
    ensures !Covers(PolicyPathText(rule), ReadPath(RefOf(rule, req)))
  {
    ValidRuleFacts(rule);
    PolicySegments(rule, req);
    ReadSegments(rule, req);
    var template := Split(ReadTemplate(rule));
    var i :| 0 <= i < |template| && Contains(template[i], PREFIX) && !HasPlaceholder(Expand(Pinned(rule), template[i]));
    NoPinnedPlus(rule, template[i]);
    PinnedPrefixText(rule.unit, rule.credential);
    PlaceholderValuesAt(req.unit, req.credential);
    forall p | p in Pinned(rule) && p != PREFIX ensures p in Values(req) && Pinned(rule)[p] == Values(req)[p] {
      PinnedButPrefixHolds(rule.unit, rule.credential, req.unit, req.credential, p);
    }
    PlaceholdersAreTokens();
    LengthTellsValuesApart(PLACEHOLDERS, Pinned(rule), Values(req), template[i], PREFIX,
      |UnitPrefix(rule.unit)| < |UnitPrefix(req.unit)|);
    assert EmittedSegments(rule)[i] != Expand(Values(req), template[i]);
  }

  lemma SpelledPrefixIsPinned(rule: Rule)
    requires SpellsPinnedPrefix(rule)
    ensures Pins(rule.unit, "", PREFIX)
  {
    var seg :| seg in Split(ReadTemplate(rule)) && Contains(seg, PREFIX) && !HasPlaceholder(Expand(Pinned(rule), seg));
    hide *;
    if PREFIX !in Pinned(rule) {
      FreePrefixIsLeft(Pinned(rule), seg);
    }
    PinnedPrefixIsPinned(rule.unit, rule.credential);
    PinnedIs(rule);
  }

  lemma PinnedIs(rule: Rule)
    ensures Pinned(rule) == PinnedValues(rule.unit, rule.credential)
  {
  }

  lemma FreePrefixIsLeft(values: map<string, string>, seg: string)
    requires PREFIX !in values && Contains(seg, PREFIX)
    ensures HasPlaceholder(Expand(values, seg))
  {
    PlaceholdersAreTokens();
    assert PLACEHOLDERS[2] == PREFIX;
    hide PLACEHOLDERS, Substitute, IsToken, Contains;
    FreeTokenIsContained(PLACEHOLDERS, values, seg, PREFIX);
  }

  lemma PinnedPrefixIsPinned(unitGlob: string, credentialGlob: string)
    requires PREFIX in PinnedValues(unitGlob, credentialGlob)
    ensures Pins(unitGlob, "", PREFIX)
  {
    assert |PREFIX| == 8 && |CREDENTIAL| == 12;
    hide PlaceholderValues, CutAt, IsLiteralGlob;
  }

  /** The pinned {prefix} and that of a matching unit are the same or differ in length. */
  lemma PrefixLengthsTell(unitGlob: string, unit: string)
    requires Pins(unitGlob, "", PREFIX) && IsName(unit) && MatchGlob(unitGlob, unit) == Some(true)
    ensures UnitPrefix(unitGlob) != UnitPrefix(unit) ==> |UnitPrefix(unitGlob)| != |UnitPrefix(unit)|
  {
    if IsLiteralGlob(unitGlob) {
      LiteralGlobMatchesItself(unitGlob, unit);
    } else {
      hide UnitPrefix, MatchGlob;
      var head, rest, tail := SplitMatchedUnit(unitGlob, unit);
      PrefixOfTemplate(head, rest);
      PrefixOfTemplate(head, tail);
    }
  }

  lemma SamePrefixAgrees(rule: Rule, req: Request)
    requires IsRequest(req) && RuleMatches(rule, req)
    requires Pins(rule.unit, "", PREFIX) && UnitPrefix(rule.unit) == UnitPrefix(req.unit)
    ensures Agrees(Pinned(rule), Values(req))
  {
    PinnedPrefixText(rule.unit, rule.credential);
    PlaceholderValuesAt(req.unit, req.credential);
    forall p | p in Pinned(rule) ensures p in Values(req) && Pinned(rule)[p] == Values(req)[p] {
      if p != PREFIX {
        PinnedButPrefixHolds(rule.unit, rule.credential, req.unit, req.credential, p);
      }
    }
  }

  /** The coverage of one read, exactly: the policy path of a valid rule covers what the rule reads
      for a request if and only if no segment spells the pinned {prefix} out, or the request's
      {prefix} is the pinned one. */
  lemma ReadCoverageExact(rule: Rule, req: Request)
    requires ValidRule(rule) && IsRequest(req) && RuleMatches(rule, req)
    ensures Covers(PolicyPathText(rule), ReadPath(RefOf(rule, req))) <==>
            !SpellsPinnedPrefix(rule) || UnitPrefix(rule.unit) == UnitPrefix(req.unit)
  {
    if !SpellsPinnedPrefix(rule) {
      UnspelledPrefixIsCovered(rule, req);
    } else {
      SpelledPrefixIsPinned(rule);
      hide Covers, SpellsPinnedPrefix, ValidRule, Pins, UnitPrefix;
      if UnitPrefix(rule.unit) == UnitPrefix(req.unit) {
        SamePrefixAgrees(rule, req);
        AgreeingReadIsCovered(rule, req);
      } else {
        PrefixLengthsTell(rule.unit, req.unit);
        ContradictionIsUncovered(rule, req);
      }
    }
  }

  /** The policy covers a read exactly when the path of one of its rules does. */
  lemma GrantedExact(rules: seq<Rule>, out: seq<Grant>, read: string)
    requires GrantsFor(AsksOf(rules), out)
    ensures (exists g :: g in out && Covers(g.path, read)) <==> exists r :: r in rules && Covers(PolicyPathText(r), read)
  {
    var asks := AsksOf(rules);
    if r :| r in rules && Covers(PolicyPathText(r), read) {
      var k :| 0 <= k < |rules| && rules[k] == r;
      hide GrantsFor, Covers;
      var n := AskIsGranted(asks, out, k);
      assert out[n] in out;
    }
    if g :| g in out && Covers(g.path, read) {
      hide Covers, PolicyPathText, Widens;
      var firsts: seq<nat> :| GrantsAre(asks, out, firsts);
      var n :| 0 <= n < |out| && out[n] == g;
      assert FirstAsk(asks, firsts[n]) && GrantIs(asks, out[n], asks[firsts[n]].path);
      assert rules[firsts[n]] in rules;
    }
  }

  /** What the grant of a rule does for one read of it: it covers the read exactly when the rule
      spells no pinned {prefix} out or the request has the {prefix} it pins. */
  ghost predicate ServedByGrant(out: seq<Grant>, rule: Rule, req: Request, ref: SecretRef) {
    exists g :: g in out && g.path == PolicyPathText(rule)
                && (Covers(g.path, ReadPath(ref)) <==>
                    !SpellsPinnedPrefix(rule) || UnitPrefix(rule.unit) == UnitPrefix(req.unit))
  }

  /** Of a planned read this decides whether the rule that serves it is granted it. */
  lemma PlannedReadGrantExact(rules: seq<Rule>, req: Request, i: nat, out: seq<Grant>)
    requires forall r :: r in rules ==> ValidRule(r)
    requires IsRequest(req) && FirstMatch(rules, req, i) && CleanRef(RefOf(rules[i], req))
    requires GrantsFor(AsksOf(rules), out)
    ensures ServedByGrant(out, rules[i], req, RefOf(rules[i], req))
  {
    MatchesAtFirst(rules, req, i);
    hide Covers, ValidRule, GrantsFor, CleanRef, RefOf, RuleMatches, CleanSegments, FirstMatch;
    hide SpellsPinnedPrefix, UnitPrefix, PolicyPathText;
    var n := AskIsGranted(AsksOf(rules), out, i);
    assert out[n] in out;
    ReadCoverageExact(rules[i], req);
  }

  /** The policy generated and the read planned, from one rule list. */
  method PlanUnderPolicy(rules: seq<Rule>, req: Request) returns (r: PlanResult, out: seq<Grant>)
    requires (forall rule :: rule in rules ==> ValidRule(rule)) && IsRequest(req)
    ensures r.Planned? ==>
              && 1 <= r.plan.ruleIndex <= |rules| && r.plan.rule == rules[r.plan.ruleIndex - 1]
              && FirstMatch(rules, req, r.plan.ruleIndex - 1)
              && ServedByGrant(out, r.plan.rule, req, r.plan.ref)
              && (PrefixIsPinnable(r.plan.rule.unit) ==> exists g :: g in out && Covers(g.path, ReadPath(r.plan.ref)))
  {
    hide Covers, ValidRule, GrantsFor, CleanRef, RefOf, RuleMatches, CleanSegments, PrefixIsPinnable, ServedByGrant;
    out := Grants(rules);
    r := PlanRead(rules, req);
    if r.Planned? {
      ghost var i := MatchedRule(rules, req);
      PlannedReadGrantExact(rules, req, i, out);
      if PrefixIsPinnable(rules[i].unit) {
        PolicyCoversEveryPlannedRead(rules, req, i, out);
      }
    }
  }

  lemma MatchesAtFirst(rules: seq<Rule>, req: Request, i: nat)
    requires FirstMatch(rules, req, i)
    ensures RuleMatches(rules[i], req) && rules[i] in rules
  {
  }

  /** All that a valid rule expands to, whether Plan lets the read through or refuses it: the policy
      path covers it for every request if and only if the rule's {prefix} is pinnable, or no
      segment spells the pinned {prefix} out, or no credential ID matches at all. Of the reads
      that are planned this makes a sufficient condition. ReadCoverageExact has the exact one. */
  lemma RuleCoverageExact(rule: Rule)
    requires ValidRule(rule)
    ensures CoversAllItsReads(rule) <==>
            PrefixIsPinnable(rule.unit) || !SpellsPinnedPrefix(rule) || !Matchable(rule.credential)
  {
    hide Covers;
    hide SpellsPinnedPrefix;
    hide PrefixIsPinnable;
    hide Validate;
    hide RuleMatches;
    MatchableExact(rule.credential);
    if PrefixIsPinnable(rule.unit) || !SpellsPinnedPrefix(rule) || !Matchable(rule.credential) {
      forall req | IsRequest(req) && RuleMatches(rule, req)
        ensures Covers(PolicyPathText(rule), ReadPath(RefOf(rule, req)))
      {
        CoveredWhenExpected(rule, req);
      }
    } else {
      var req := UncoveredRequest(rule);
    }
  }

  lemma CoveredWhenExpected(rule: Rule, req: Request)
    requires ValidRule(rule) && IsRequest(req) && RuleMatches(rule, req)
    requires PrefixIsPinnable(rule.unit) || !SpellsPinnedPrefix(rule) || !Matchable(rule.credential)
    ensures Covers(PolicyPathText(rule), ReadPath(RefOf(rule, req)))
  {
    hide Covers;
    MatchableExact(rule.credential);
    assert IsName(req.credential);
    if PrefixIsPinnable(rule.unit) {
      RuleCoversItsReads(rule, req);
    } else {
      UnspelledPrefixIsCovered(rule, req);
    }
  }

  lemma UncoveredRequest(rule: Rule) returns (req: Request)
    requires ValidRule(rule) && !PrefixIsPinnable(rule.unit) && SpellsPinnedPrefix(rule) && Matchable(rule.credential)
    ensures IsRequest(req) && RuleMatches(rule, req) && !Covers(PolicyPathText(rule), ReadPath(RefOf(rule, req)))
  {
    hide Covers;
    hide SpellsPinnedPrefix;
    hide Validate;
    var unit := ContradictingUnit(rule.unit);
    MatchableExact(rule.credential);
    var credential :| IsName(credential) && MatchGlob(rule.credential, credential) == Some(true);
    req := Request(unit, credential);
    ContradictionIsUncovered(rule, req);
  }
}
