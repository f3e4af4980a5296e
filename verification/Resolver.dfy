/** Packages credserver and secrets up to the read: the request shape, first-match rule
    selection, and the plan of one read. */
module Resolver {
  import opened Text
  import opened Glob
  import opened Template
  import opened NormalPaths
  import opened Config

  datatype Request = Request(unit: string, credential: string)

  /** credserver.NewRequest. */
  function NewRequest(unit: string, credential: string): Option<Request> {
    if unit == "" || '/' in unit then None
    else if credential == "" || '/' in credential then None
    else Some(Request(unit, credential))
  }

  predicate IsRequest(req: Request) {
    NewRequest(req.unit, req.credential) == Some(req)
  }

  /** A request is accepted exactly when both parts are names a glob can be matched with. */
  lemma NewRequestExact(unit: string, credential: string)
    ensures NewRequest(unit, credential) == if IsName(unit) && IsName(credential) then Some(Request(unit, credential)) else None
  {
  }

  datatype Plan = Plan(ruleIndex: nat, rule: Rule, ref: SecretRef, field: string)

  datatype PlanResult = Planned(plan: Plan) | NoRuleMatches | BadPath | BadMount

  /** A glob that does not parse matches nothing. */
  predicate RuleMatches(rule: Rule, req: Request) {
    MatchGlob(rule.unit, req.unit) == Some(true) && MatchGlob(rule.credential, req.credential) == Some(true)
  }

  predicate FirstMatch(rules: seq<Rule>, req: Request, i: nat) {
    i < |rules| && RuleMatches(rules[i], req) && forall j :: 0 <= j < i ==> !RuleMatches(rules[j], req)
  }

  /** Resolver.match. */
  method Match(rules: seq<Rule>, req: Request) returns (found: Option<nat>)
    ensures match found
            case Some(i) =>
              && FirstMatch(rules, req, i)
              && MatchGlob(rules[i].unit, req.unit) == Some(true)
              && MatchGlob(rules[i].credential, req.credential) == Some(true)
              && (forall j :: 0 <= j < i ==>
                    MatchGlob(rules[j].unit, req.unit) != Some(true)
                    || MatchGlob(rules[j].credential, req.credential) != Some(true))
            case None => forall r :: r in rules ==> !RuleMatches(r, req)
  {
    for i := 0 to |rules|
      invariant forall j :: 0 <= j < i ==> !RuleMatches(rules[j], req)
    {
      if RuleMatches(rules[i], req) {
        return Some(i);
      }
    }
    return None;
  }

  function Values(req: Request): map<string, string> {
    PlaceholderValues(req.unit, req.credential)
  }

  /** What the matched rule reads for the request. */
  function RefOf(rule: Rule, req: Request): SecretRef {
    var raw := rule.backend == BACKEND_RAW;
    SecretRef(raw, if raw then "" else Expand(Values(req), rule.mount), Expand(Values(req), rule.path))
  }

  /** Whether the read is one Plan lets through. */
  predicate CleanRef(ref: SecretRef) {
    CleanSegments(ref.path) && (ref.raw || CleanSegments(ref.mount))
  }

  /** The plan for a request the rule at i serves: the read the rule expands to, unless one of
      its segments is refused, the path before the mount. */
  predicate PlanIs(rule: Rule, i: nat, req: Request, r: PlanResult) {
    var ref := RefOf(rule, req);
    if !CleanSegments(ref.path) then r == BadPath
    else if !CleanRef(ref) then r == BadMount
    else r == Planned(Plan(i + 1, rule, ref, if rule.format == FORMAT_FIELD then Expand(Values(req), rule.field) else ""))
  }

  /** What a plan promises, with nothing but the text of the rule and of the request: no segment of
      a planned read is one that normalization takes for a directory step, and a refused read has
      one. */
  lemma PlanMeaning(rule: Rule, i: nat, req: Request, r: PlanResult)
    requires PlanIs(rule, i, req, r)
    ensures var ref := RefOf(rule, req);
            && !r.NoRuleMatches?
            && (r.BadPath? <==> "" in Split(ref.path) || "." in Split(ref.path) || ".." in Split(ref.path))
            && (r.BadMount? <==> !r.BadPath? && rule.backend != "raw"
                                 && ("" in Split(ref.mount) || "." in Split(ref.mount) || ".." in Split(ref.mount)))
            && (r.Planned? ==> r.plan.ruleIndex == i + 1 && r.plan.rule == rule && r.plan.ref == ref)
            && (r.Planned? ==> IsNormal(ref.path) && (rule.backend != "raw" ==> IsNormal(ref.mount)))
  {
    var ref := RefOf(rule, req);
    CleanSegmentsExact(ref.path);
    CleanSegmentsExact(ref.mount);
    hide Split, Expand, CleanSegments, IsNormal, PlaceholderValues;
  }

  /** The field a plan serves: the rule's own text when it has no placeholder, the credential ID by
      default, and none for the whole secret as JSON. */
  lemma PlannedField(rule: Rule, i: nat, req: Request, plan: Plan)
    requires PlanIs(rule, i, req, Planned(plan))
    ensures rule.format == "json" ==> plan.field == ""
    ensures rule.format == "field" && '{' !in rule.field ==> plan.field == rule.field
    ensures rule.format == "field" && rule.field == "{credential}" ==> plan.field == req.credential
  {
    hide *;
    PlannedFieldIs(rule, i, req, plan);
    if rule.format == "field" && '{' !in rule.field {
      ExpandPlain(Values(req), rule.field);
    }
    if rule.field == "{credential}" {
      PlaceholdersExpand(req.unit, req.credential);
      ValuesAre(req);
    }
  }

  lemma ValuesAre(req: Request)
    ensures Values(req) == PlaceholderValues(req.unit, req.credential)
  {
  }

  lemma PlannedFieldIs(rule: Rule, i: nat, req: Request, plan: Plan)
    requires PlanIs(rule, i, req, Planned(plan))
    ensures plan.field == if rule.format == "field" then Expand(Values(req), rule.field) else ""
    ensures "json" != "field"
  {
    hide Expand, Values, CleanRef, CleanSegments;
    assert "json"[0] != "field"[0];
  }

  /** Resolver.Plan. */
  method PlanRead(rules: seq<Rule>, req: Request) returns (r: PlanResult)
    ensures r.NoRuleMatches? <==> forall rule :: rule in rules ==> !RuleMatches(rule, req)
    ensures forall i: nat :: FirstMatch(rules, req, i) ==> PlanIs(rules[i], i, req, r)
    ensures r.Planned? ==>
              && "" !in Split(r.plan.ref.path) && "." !in Split(r.plan.ref.path) && ".." !in Split(r.plan.ref.path)
              && (!r.plan.ref.raw ==>
                    "" !in Split(r.plan.ref.mount) && "." !in Split(r.plan.ref.mount) && ".." !in Split(r.plan.ref.mount))
    ensures r.BadPath? ==> exists i: nat :: FirstMatch(rules, req, i) && !IsNormal(RefOf(rules[i], req).path)
  {
    hide RefOf, PlanIs, IsNormal, Split, RuleMatches;
    var found := Match(rules, req);
    if found.None? {
      return NoRuleMatches;
    }
    var i := found.value;
    forall k: nat | FirstMatch(rules, req, k) ensures k == i {
      FirstMatchIsUnique(rules, req, i, k);
    }
    r := PlanRule(rules[i], i, req);
    PlanPromises(rules[i], i, req, r);
  }

  lemma PlanPromises(rule: Rule, i: nat, req: Request, r: PlanResult)
    requires PlanIs(rule, i, req, r)
    ensures !r.NoRuleMatches?
    ensures r.Planned? ==>
              && "" !in Split(r.plan.ref.path) && "." !in Split(r.plan.ref.path) && ".." !in Split(r.plan.ref.path)
              && (!r.plan.ref.raw ==>
                    "" !in Split(r.plan.ref.mount) && "." !in Split(r.plan.ref.mount) && ".." !in Split(r.plan.ref.mount))
    ensures r.BadPath? ==> !IsNormal(RefOf(rule, req).path)
  {
    CleanSegmentsExact(RefOf(rule, req).path);
    CleanSegmentsExact(RefOf(rule, req).mount);
    hide Split, Expand, IsNormal, PlaceholderValues, CleanSegments;
  }

  /** Resolver.Plan past the match. */
  method PlanRule(rule: Rule, i: nat, req: Request) returns (r: PlanResult)
    ensures PlanIs(rule, i, req, r)
  {
    hide PlaceholderValues, Expand, CleanSegments, Split, IsNormal;
    var pairs := Replacer(Values(req));
    ReplaceIsExpand(pairs, Values(req), rule.path);
    ReplaceIsExpand(pairs, Values(req), rule.mount);
    ReplaceIsExpand(pairs, Values(req), rule.field);
    var ref := SecretRef(rule.backend == BACKEND_RAW, "", Replace(pairs, rule.path));
    CleanSegmentsExact(ref.path);
    var ok := CheckSegments(ref.path);
    if !ok {
      return BadPath;
    }
    if !ref.raw {
      ref := ref.(mount := Replace(pairs, rule.mount));
      CleanSegmentsExact(ref.mount);
      ok := CheckSegments(ref.mount);
      if !ok {
        return BadMount;
      }
    }
    var plan := Plan(i + 1, rule, ref, "");
    if rule.format == FORMAT_FIELD {
      plan := plan.(field := Replace(pairs, rule.field));
    }
    return Planned(plan);
  }

  lemma FirstMatchIsUnique(rules: seq<Rule>, req: Request, i: nat, j: nat)
    requires FirstMatch(rules, req, i) && FirstMatch(rules, req, j)
    ensures i == j
  {
  }
}
