/** Pinned text that reads as a placeholder: exactly when a path's own braces close around it, and
    what that does to the policy and to expanding twice. */
module JoinedPlaceholders {
  import opened Text
  import opened Glob
  import opened Template
  import opened Braces
  import opened Config
  import opened Policy
  import opened Resolver
  import opened Coverage
  import opened Wildcards

  /** A brace pair of the text that is no placeholder encloses text that expands to the name of one. */
  ghost predicate JoinsPlaceholder(values: map<string, string>, s: string) {
    exists p :: p in PLACEHOLDERS && JoinsTo(PLACEHOLDERS, values, s, p)
  }

  /** The text mentions a placeholder without a value. */
  predicate MentionsFree(values: map<string, string>, s: string) {
    exists p :: p in PLACEHOLDERS && p !in values && Contains(s, p)
  }

  /** What is left after expansion, told from the text before it. */
  lemma HasPlaceholderExact(values: map<string, string>, s: string)
    requires BraceFreeValues(values)
    ensures HasPlaceholder(Expand(values, s)) <==> MentionsFree(values, s) || JoinsPlaceholder(values, s)
  {
    PlaceholdersAreTokens();
    hide PLACEHOLDERS;
    forall p | p in PLACEHOLDERS
      ensures Contains(Expand(values, s), p) <==>
              JoinsTo(PLACEHOLDERS, values, s, p) || (p !in values && Contains(s, p))
    {
      ExpansionContainsExact(PLACEHOLDERS, values, s, p);
    }
    hide Contains, JoinsTo, Substitute;
  }

  /** Validation keeps braces out of the globs, so no pinned value has one. */
  lemma PinnedBraceFree(rule: Rule)
    requires ValidRule(rule)
    ensures BraceFreeValues(Pinned(rule))
  {
    GlobsBraceFree(rule);
    UnitValuesWithout(rule.unit, rule.credential, '{');
    UnitValuesWithout(rule.unit, rule.credential, '}');
    PlaceholderValuesAt(rule.unit, rule.credential);
    hide PlaceholderValues;
  }

  lemma GlobsBraceFree(rule: Rule)
    requires ValidRule(rule)
    ensures BraceFree(rule.unit) && BraceFree(rule.credential)
  {
    hide PathError, BackendError, FormatError, GlobBackslashError;
    assert CheckGlob(rule.unit).None? && CheckGlob(rule.credential).None?;
  }

  // ----- The policy -----

  /** An emitted segment is a wildcard exactly when the segment mentions a placeholder the globs leave
      free, or joins one. */
  lemma PlusSegmentExact(rule: Rule, i: nat)
    requires ValidRule(rule) && i < |EmittedSegments(rule)|
    ensures var seg := Split(ReadTemplate(rule))[i];
            EmittedSegments(rule)[i] == "+" <==> MentionsFree(Pinned(rule), seg) || JoinsPlaceholder(Pinned(rule), seg)
  {
    PinnedBraceFree(rule);
    HasPlaceholderExact(Pinned(rule), Split(ReadTemplate(rule))[i]);
    hide HasPlaceholder, MentionsFree, JoinsPlaceholder, ValidRule, Pinned, Split;
    PlusIsFreePlaceholder(rule, i);
  }

  /** The globs leave free no placeholder that the rule's read mentions. */
  predicate FullyDetermined(rule: Rule) {
    forall seg :: seg in Split(ReadTemplate(rule)) ==> !MentionsFree(Pinned(rule), seg)
  }

  ghost predicate JoinsInASegment(rule: Rule) {
    exists seg :: seg in Split(ReadTemplate(rule)) && JoinsPlaceholder(Pinned(rule), seg)
  }

  /** The policy path has a wildcard exactly when the read mentions a free placeholder or a segment
      of it joins one. */
  lemma WildcardPathExact(rule: Rule)
    requires ValidRule(rule)
    ensures "+" in Split(PolicyPathText(rule)) <==> !FullyDetermined(rule) || JoinsInASegment(rule)
  {
    PinnedBraceFree(rule);
    forall seg | seg in Split(ReadTemplate(rule))
      ensures HasPlaceholder(Expand(Pinned(rule), seg)) <==>
              MentionsFree(Pinned(rule), seg) || JoinsPlaceholder(Pinned(rule), seg)
    {
      HasPlaceholderExact(Pinned(rule), seg);
    }
    hide HasPlaceholder, MentionsFree, JoinsPlaceholder, ValidRule, Pinned, Split, ReadTemplate, Expand, PolicyPathText;
    PolicyPathHasPlusIff(rule);
  }

  /** A rule whose globs determine the whole read is granted that one read exactly when no segment
      joins a placeholder. */
  lemma DeterminedPathExact(rule: Rule, req: Request)
    requires ValidRule(rule) && PrefixIsPinnable(rule.unit) && FullyDetermined(rule)
    requires IsRequest(req) && RuleMatches(rule, req)
    ensures PolicyPathText(rule) == ReadPath(RefOf(rule, req)) <==> !JoinsInASegment(rule)
  {
    hide JoinsInASegment, FullyDetermined;
    WildcardPathExact(rule);
    if JoinsInASegment(rule) {
      NoPlusInDeterminedRead(rule, req);
    } else {
      hide HasPlaceholder, Pinned, Split, ReadTemplate, Expand, PolicyPathText, ValidRule, PrefixIsPinnable, RefOf;
      PolicyPathHasPlusIff(rule);
      PathWithoutPlusIsTheRead(rule, req);
    }
  }

  /** What a determined rule reads is what its globs expand it to, which validation keeps free of
      "+" segments. */
  lemma NoPlusInDeterminedRead(rule: Rule, req: Request)
    requires ValidRule(rule) && PrefixIsPinnable(rule.unit) && FullyDetermined(rule)
    requires IsRequest(req) && RuleMatches(rule, req)
    ensures "+" !in Split(ReadPath(RefOf(rule, req)))
  {
    ValidRuleFacts(rule);
    hide *;
    DeterminedSegments(rule, req);
    ReadSegments(rule, req);
    var segs := Split(ReadTemplate(rule));
    var read := SubstituteAll(PLACEHOLDERS, Values(req), segs);
    forall i | 0 <= i < |segs| ensures read[i] != "+" {
      NoPinnedPlus(rule, segs[i]);
      ExpandIsSubstitute(Values(req), segs[i]);
    }
  }

  lemma ExpandIsSubstitute(values: map<string, string>, s: string)
    ensures Expand(values, s) == Substitute(PLACEHOLDERS, values, s)
  {
  }

  lemma DeterminedSegments(rule: Rule, req: Request)
    requires ValidRule(rule) && PrefixIsPinnable(rule.unit) && FullyDetermined(rule)
    requires IsRequest(req) && RuleMatches(rule, req)
    ensures forall seg :: seg in Split(ReadTemplate(rule)) ==> Expand(Values(req), seg) == Expand(Pinned(rule), seg)
  {
    PinnedValuesSound(rule.unit, rule.credential, req.unit, req.credential);
    PlaceholdersAreTokens();
    hide PLACEHOLDERS, ValidRule, PinnedValues, PrefixIsPinnable, Split, ReadTemplate, PlaceholderValues, Contains;
    forall seg | seg in Split(ReadTemplate(rule)) ensures Expand(Values(req), seg) == Expand(Pinned(rule), seg) {
      UnmentionedValues(PLACEHOLDERS, Pinned(rule), Values(req), seg);
    }
  }

  /** A rule with plain globs matches one request. Its policy path has a wildcard exactly when a
      segment joins a placeholder under that request's own values, and is otherwise the one path
      that request reads. */
  lemma LiteralRuleExact(rule: Rule)
    requires ValidRule(rule) && NoSyntax(rule.unit) && NoSyntax(rule.credential)
    ensures var req := Request(rule.unit, rule.credential);
            && (forall other :: RuleMatches(rule, other) <==> other == req)
            && ("+" in Split(PolicyPathText(rule)) <==>
                exists seg :: seg in Split(ReadTemplate(rule)) && JoinsPlaceholder(Values(req), seg))
            && ("+" !in Split(PolicyPathText(rule)) ==> PolicyPathText(rule) == ReadPath(RefOf(rule, req)))
  {
    var req := Request(rule.unit, rule.credential);
    LiteralIsNoSyntax(rule.unit);
    LiteralIsNoSyntax(rule.credential);
    LiteralGlobsPinAll(rule.unit, rule.credential);
    EveryPlaceholderHasAValue(req);
    WildcardPathExact(rule);
    ValidRuleFacts(rule);
    forall other ensures RuleMatches(rule, other) <==> other == req {
      LiteralGlobMatchesItself(rule.unit, other.unit);
      LiteralGlobMatchesItself(rule.credential, other.credential);
    }
    assert Pinned(rule) == Values(req);
    hide ValidRule, PlaceholderValues, PinnedValues, Expand, Split, ReadTemplate, JoinsPlaceholder, PolicyPathText, RefOf;
    hide RuleMatches, IsLiteralGlob, NoSyntax;
    assert FullyDetermined(rule);
    if "+" !in Split(PolicyPathText(rule)) {
      PolicyPathHasPlusIff(rule);
      FullyPinnedPath(rule);
      ReadIsExpandedTemplate(rule, req);
    }
  }

  // ----- Expanding again -----

  /** Expanding the pinned path for the request, instead of the rule's own path, reads the same path
      exactly when no brace pair joins a placeholder. */
  lemma ExpandPinnedAgainExact(rule: Rule, req: Request, s: string)
    requires ValidRule(rule) && PrefixIsPinnable(rule.unit)
    requires IsRequest(req) && RuleMatches(rule, req) && BraceFree(req.unit) && BraceFree(req.credential)
    ensures Expand(Values(req), Expand(Pinned(rule), s)) == Expand(Values(req), s) <==> !JoinsPlaceholder(Pinned(rule), s)
  {
    PinnedValuesSound(rule.unit, rule.credential, req.unit, req.credential);
    RequestBraceFree(req);
    PlaceholdersAreTokens();
    EveryPlaceholderHasAValue(req);
    hide PLACEHOLDERS, ValidRule, PinnedValues, PrefixIsPinnable, Values, Substitute, RuleMatches;
    TwoStagesExact(PLACEHOLDERS, Pinned(rule), Values(req), s);
  }

  /** Without such a pair it does for every request, whatever characters its names have. */
  lemma ExpandPinnedAgain(rule: Rule, req: Request, s: string)
    requires ValidRule(rule) && PrefixIsPinnable(rule.unit) && IsRequest(req) && RuleMatches(rule, req)
    requires !JoinsPlaceholder(Pinned(rule), s)
    ensures Expand(Values(req), Expand(Pinned(rule), s)) == Expand(Values(req), s)
  {
    PinnedValuesSound(rule.unit, rule.credential, req.unit, req.credential);
    PinnedBraceFree(rule);
    PlaceholdersAreTokens();
    hide PLACEHOLDERS, ValidRule, PinnedValues, PrefixIsPinnable, Values, Substitute, RuleMatches;
    TwoStages(PLACEHOLDERS, Pinned(rule), Values(req), s);
  }

  lemma EveryPlaceholderHasAValue(req: Request)
    ensures forall p :: p in PLACEHOLDERS ==> p in Values(req)
  {
    hide UnitName, CutAt;
  }

  lemma RequestBraceFree(req: Request)
    requires BraceFree(req.unit) && BraceFree(req.credential)
    ensures BraceFreeValues(Values(req))
  {
    UnitValuesWithout(req.unit, req.credential, '{');
    UnitValuesWithout(req.unit, req.credential, '}');
    PlaceholderValuesAt(req.unit, req.credential);
    hide PlaceholderValues;
  }

  /** For one table of values, expanding twice is expanding once exactly when no brace pair joins a
      placeholder that has a value. */
  lemma ExpandTwiceExact(values: map<string, string>, s: string)
    requires BraceFreeValues(values)
    ensures Expand(values, Expand(values, s)) == Expand(values, s) <==> !JoinsAny(PLACEHOLDERS, values, values, s)
  {
    PlaceholdersAreTokens();
    IdempotentExact(PLACEHOLDERS, values, s);
  }
}
