/** The generated policy against the reads the resolver plans: the policy splits the template and
    expands each segment with what the globs pin, the resolver expands the whole template with
    what the request has. */
module Coverage {
  import opened Text
  import opened Glob
  import opened Template
  import opened Config
  import opened Policy
  import opened Resolver

  /** The API path of a read: KV v2 data lives below MOUNT/data. */
  function ReadPath(ref: SecretRef): string {
    if ref.raw then ref.path else ref.mount + "/data/" + ref.path
  }

  /** OpenBao's matching for "+": it stands for any one segment. */
  predicate Covers(policyPath: string, read: string) {
    var want, have := Split(read), Split(policyPath);
    |have| == |want| && forall i :: 0 <= i < |have| ==> have[i] == "+" || have[i] == want[i]
  }

  predicate KnownBackend(rule: Rule) {
    rule.backend == BACKEND_KV || rule.backend == BACKEND_RAW
  }

  lemma ExpandData(values: map<string, string>)
    ensures Expand(values, "data") == "data"
  {
    PlaceholdersAreTokens();
    SubstituteCopies(PLACEHOLDERS, values, "data", "");
    assert "data" + "" == "data";
  }

  /** MOUNT/data/PATH expands part by part. */
  lemma ExpandReadTemplate(values: map<string, string>, rule: Rule)
    ensures Expand(values, ReadTemplate(rule)) ==
            if rule.backend == BACKEND_KV then Expand(values, rule.mount) + "/data/" + Expand(values, rule.path)
            else Expand(values, rule.path)
  {
    hide Substitute;
    if rule.backend == BACKEND_KV {
      PlaceholdersAreTokens();
      var below := "data" + "/" + rule.path;
      assert ReadTemplate(rule) == rule.mount + "/" + below;
      SubstituteAcrossSlash(PLACEHOLDERS, values, rule.mount, below);
      SubstituteAcrossSlash(PLACEHOLDERS, values, "data", rule.path);
      ExpandData(values);
      var m, p := Expand(values, rule.mount), Expand(values, rule.path);
      assert Expand(values, below) == "data" + "/" + p;
      assert m + "/" + ("data" + "/" + p) == m + "/data/" + p;
    }
  }

  /** The planned read is the whole read template, expanded for the request. */
  lemma ReadIsExpandedTemplate(rule: Rule, req: Request)
    requires KnownBackend(rule)
    ensures ReadPath(RefOf(rule, req)) == Expand(Values(req), ReadTemplate(rule))
  {
    ExpandReadTemplate(Values(req), rule);
  }

  /** The segments of the planned read are the expanded segments of the template. */
  lemma ReadSegments(rule: Rule, req: Request)
    requires KnownBackend(rule) && IsRequest(req)
    ensures Split(ReadPath(RefOf(rule, req))) == SubstituteAll(PLACEHOLDERS, Values(req), Split(ReadTemplate(rule)))
  {
    ReadIsExpandedTemplate(rule, req);
    RequestValuesSlashFree(req.unit, req.credential);
    PlaceholdersAreTokens();
    SubstituteCommutesWithSplit(PLACEHOLDERS, Values(req), ReadTemplate(rule));
  }

  /** No "/" reaches the policy from the globs of a rule some request matches. */
  lemma PinnedSlashFree(rule: Rule, req: Request)
    requires IsRequest(req) && RuleMatches(rule, req) && '/' !in rule.unit
    ensures SlashFree(Pinned(rule))
  {
    UnitValuesWithout(rule.unit, rule.credential, '/');
    PlaceholderValuesAt(rule.unit, rule.credential);
    hide PlaceholderValues;
    if CREDENTIAL in Pinned(rule) {
      LiteralGlobMatchesItself(rule.credential, req.credential);
    }
  }

  lemma ValidRuleFacts(rule: Rule)
    requires ValidRule(rule)
    ensures KnownBackend(rule) && '/' !in rule.unit
    ensures rule.backend == BACKEND_KV ==> CheckLiteral(Expand(Pinned(rule), rule.mount)).None?
    ensures CheckLiteral(Expand(Pinned(rule), rule.path)).None?
    ensures rule.backend == BACKEND_RAW ==> rule.mount == ""
  {
    hide CheckLiteral;
    hide CheckGlob;
    hide Pinned;
    hide Expand;
    hide FormatError;
    hide UnitGlobChar;
    assert PathError(rule).None? && BackendError(rule).None?;
    SlashIsInNoUnitGlob();
  }

  lemma SlashIsInNoUnitGlob()
    ensures !UnitGlobChar('/')
  {
  }

  /** The segments of the policy path are the emitted ones. */
  lemma PolicySegments(rule: Rule, req: Request)
    requires IsRequest(req) && RuleMatches(rule, req) && '/' !in rule.unit
    ensures Split(PolicyPathText(rule)) == EmittedSegments(rule)
  {
    var segs := EmittedSegments(rule);
    PinnedSlashFree(rule, req);
    forall seg | seg in segs ensures '/' !in seg {
      var i :| 0 <= i < |segs| && segs[i] == seg;
      SubstituteSlashFree(PLACEHOLDERS, Pinned(rule), Split(ReadTemplate(rule))[i]);
    }
    SplitJoin(segs);
  }

  /** One emitted segment covers what the request reads there. */
  lemma SegmentCovered(pinned: map<string, string>, values: map<string, string>, seg: string)
    requires Agrees(pinned, values)
    ensures EmitSegment(pinned, seg) == "+" || EmitSegment(pinned, seg) == Expand(values, seg)
  {
    if !HasPlaceholder(Expand(pinned, seg)) {
      PlaceholdersAreTokens();
      PartialIsFinal(PLACEHOLDERS, pinned, values, seg);
    }
  }

  /** A valid rule's policy path covers the read of a request that has the values the rule pins. */
  lemma AgreeingReadIsCovered(rule: Rule, req: Request)
    requires ValidRule(rule) && IsRequest(req) && RuleMatches(rule, req)
    requires Agrees(Pinned(rule), Values(req))
    ensures Covers(PolicyPathText(rule), ReadPath(RefOf(rule, req)))
  {
    ValidRuleFacts(rule);
    PolicySegments(rule, req);
    ReadSegments(rule, req);
    var template := Split(ReadTemplate(rule));
    forall i | 0 <= i < |template|
      ensures EmittedSegments(rule)[i] == "+" || EmittedSegments(rule)[i] == Expand(Values(req), template[i])
    {
      SegmentCovered(Pinned(rule), Values(req), template[i]);
    }
  }

  /** The policy path of a valid rule covers every read the rule expands to, for any request its
      globs match, when its {prefix} is pinnable. */
  lemma RuleCoversItsReads(rule: Rule, req: Request)
    requires ValidRule(rule) && PrefixIsPinnable(rule.unit)
    requires IsRequest(req) && RuleMatches(rule, req)
    ensures Covers(PolicyPathText(rule), ReadPath(RefOf(rule, req)))
  {
    PinnedValuesSound(rule.unit, rule.credential, req.unit, req.credential);
    hide Covers, ValidRule, Agrees, PinnedValues;
    AgreeingReadIsCovered(rule, req);
  }

  /** Policy coverage: for every validated rule list and every request, the read Plan plans is
      covered by a path the generated policy grants, provided the {prefix} of the rule that
      serves it is pinnable. */
  lemma PolicyCoversEveryPlannedRead(rules: seq<Rule>, req: Request, i: nat, out: seq<Grant>)
    requires forall r :: r in rules ==> ValidRule(r)
    requires IsRequest(req) && FirstMatch(rules, req, i) && CleanRef(RefOf(rules[i], req))
    requires GrantsFor(AsksOf(rules), out) && PrefixIsPinnable(rules[i].unit)
    ensures exists g :: g in out && g.capabilities == ["read"] && Covers(g.path, ReadPath(RefOf(rules[i], req)))
  {
    RuleCoversItsReads(rules[i], req);
    var n := AskIsGranted(AsksOf(rules), out, i);
    assert out[n] in out;
  }

  lemma MatchedRule(rules: seq<Rule>, req: Request) returns (i: nat)
    requires exists rule :: rule in rules && RuleMatches(rule, req)
    ensures FirstMatch(rules, req, i)
  {
    hide RuleMatches;
    i := 0;
    while !RuleMatches(rules[i], req)
      invariant i < |rules| && forall j :: 0 <= j < i ==> !RuleMatches(rules[j], req)
      decreases |rules| - i
    {
      assert exists j :: 0 <= j < |rules| && RuleMatches(rules[j], req);
      i := i + 1;
    }
  }
}
