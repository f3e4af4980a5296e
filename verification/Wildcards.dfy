/** What the policy path of a validated rule looks like: where its wildcards are, and what it is
    when it has none. */
module Wildcards {
  import opened Text
  import opened Glob
  import opened Template
  import opened NormalPaths
  import opened Config
  import opened Policy
  import opened Resolver
  import opened Coverage

  // ----- "+" stands only for placeholders -----

  lemma SplitReadTemplate(rule: Rule)
    ensures Split(ReadTemplate(rule)) ==
            if rule.backend == BACKEND_KV then Split(rule.mount) + ["data"] + Split(rule.path) else Split(rule.path)
  {
    SplitMountDataPath(rule.mount, rule.path);
  }

  lemma SplitData()
    ensures Split("data") == ["data"]
  {
  }

  lemma SplitMountDataPath(mount: string, path: string)
    ensures Split(mount + "/data/" + path) == Split(mount) + ["data"] + Split(path)
  {
    var below := "data" + "/" + path;
    SplitData();
    hide Split;
    hide CutAt;
    assert mount + "/data/" + path == mount + "/" + below;
    SplitConcat(mount, below);
    SplitConcat("data", path);
  }

  /** A segment of the template that expands to slash-free text is a segment of the expansion. */
  lemma ExpandedSegment(values: map<string, string>, template: string, seg: string)
    requires seg in Split(template) && '/' !in Expand(values, seg)
    ensures Expand(values, seg) in Split(Expand(values, template))
  {
    PlaceholdersAreTokens();
    var segs := Split(template);
    var r := SubstituteAll(PLACEHOLDERS, values, segs);
    JoinSplit(template);
    SubstituteCommutesWithJoin(PLACEHOLDERS, values, segs);
    var i :| 0 <= i < |segs| && segs[i] == seg;
    assert r[i] in r;
    SegmentOfJoin(r, Expand(values, seg));
  }

  /** No literal segment of a valid rule expands to "+". */
  lemma NoPinnedPlus(rule: Rule, seg: string)
    requires ValidRule(rule) && seg in Split(ReadTemplate(rule))
    ensures Expand(Pinned(rule), seg) != "+"
  {
    ValidRuleFacts(rule);
    SplitReadTemplate(rule);
    ExpandData(Pinned(rule));
    hide Pinned;
    hide Substitute;
    if Expand(Pinned(rule), seg) == "+" {
      if seg in Split(rule.path) {
        ExpandedSegment(Pinned(rule), rule.path, seg);
      } else {
        ExpandedSegment(Pinned(rule), rule.mount, seg);
      }
    }
  }

  /** An emitted segment is "+" exactly when a placeholder is left after pinning. */
  lemma PlusIsFreePlaceholder(rule: Rule, i: nat)
    requires ValidRule(rule) && i < |EmittedSegments(rule)|
    ensures EmittedSegments(rule)[i] == "+" <==> HasPlaceholder(Expand(Pinned(rule), Split(ReadTemplate(rule))[i]))
  {
    NoPinnedPlus(rule, Split(ReadTemplate(rule))[i]);
  }

  /** Some segment of the read keeps a placeholder after pinning. */
  predicate LeavesPlaceholder(rule: Rule) {
    exists seg :: seg in Split(ReadTemplate(rule)) && HasPlaceholder(Expand(Pinned(rule), seg))
  }

  lemma FullyPinnedPath(rule: Rule)
    requires !LeavesPlaceholder(rule)
    ensures PolicyPathText(rule) == Expand(Pinned(rule), ReadTemplate(rule))
  {
    var segs := Split(ReadTemplate(rule));
    assert EmittedSegments(rule) == SubstituteAll(PLACEHOLDERS, Pinned(rule), segs);
    PlaceholdersAreTokens();
    JoinSplit(ReadTemplate(rule));
    SubstituteCommutesWithJoin(PLACEHOLDERS, Pinned(rule), segs);
  }

  lemma NoPlusInPinnedRead(rule: Rule)
    requires ValidRule(rule)
    ensures "+" !in Split(Expand(Pinned(rule), ReadTemplate(rule)))
  {
    ValidRuleFacts(rule);
    ExpandReadTemplate(Pinned(rule), rule);
    hide Pinned;
    hide Substitute;
    SplitMountDataPath(Expand(Pinned(rule), rule.mount), Expand(Pinned(rule), rule.path));
  }

  /** The emitted path has a "+" segment exactly when a placeholder is left after pinning. */
  lemma PolicyPathHasPlusIff(rule: Rule)
    requires ValidRule(rule)
    ensures "+" in Split(PolicyPathText(rule)) <==> LeavesPlaceholder(rule)
  {
    if LeavesPlaceholder(rule) {
      var template := Split(ReadTemplate(rule));
      var i :| 0 <= i < |template| && HasPlaceholder(Expand(Pinned(rule), template[i]));
      assert EmittedSegments(rule)[i] == "+";
      SegmentOfJoin(EmittedSegments(rule), "+");
    } else {
      FullyPinnedPath(rule);
      NoPlusInPinnedRead(rule);
    }
  }

  lemma LastSegment(rule: Rule)
    ensures var t, p := Split(ReadTemplate(rule)), Split(rule.path); t[|t| - 1] == p[|p| - 1]
  {
    hide Split, ReadTemplate;
    SplitReadTemplate(rule);
    if rule.backend == BACKEND_KV {
      EndOfConcat(Split(rule.mount) + ["data"], Split(rule.path));
    }
  }

  lemma EndOfConcat(xs: seq<string>, ys: seq<string>)
    requires |ys| >= 1
    ensures (xs + ys)[|xs + ys| - 1] == ys[|ys| - 1]
  {
  }

  /** Text that passes checkLiteral ends with a segment that is not empty and not starred. */
  lemma LiteralEnd(values: map<string, string>, template: string)
    requires CheckLiteral(Expand(values, template)).None?
    ensures !StarEnded(Expand(values, Split(template)[|Split(template)| - 1]))
  {
    PlaceholdersAreTokens();
    hide Split;
    hide Join;
    hide Substitute;
    hide PLACEHOLDERS;
    var segs := Split(template);
    var r := SubstituteAll(PLACEHOLDERS, values, segs);
    SubstituteCommutesWithJoin(PLACEHOLDERS, values, segs);
    JoinSplit(template);
    var front := JoinEnd(r);
    var last := r[|r| - 1];
    assert Expand(values, template) == front + last;
    if last == "" {
      SegmentOfJoin(r, "");
    }
  }

  predicate StarEnded(s: string) {
    s == "" || s[|s| - 1] == '*'
  }

  lemma EmittedEnd(rule: Rule)
    requires ValidRule(rule)
    ensures !StarEnded(EmittedSegments(rule)[|EmittedSegments(rule)| - 1])
  {
    hide *;
    var template, names := Split(ReadTemplate(rule)), Split(rule.path);
    PinnedPathIsLiteral(rule);
    LastSegment(rule);
    LiteralEnd(Pinned(rule), rule.path);
    EmitEnd(Pinned(rule), template[|template| - 1]);
  }

  lemma PinnedPathIsLiteral(rule: Rule)
    requires ValidRule(rule)
    ensures CheckLiteral(Expand(Pinned(rule), rule.path)).None?
  {
    ValidRuleFacts(rule);
  }

  lemma EmitEnd(pinned: map<string, string>, seg: string)
    requires !StarEnded(Expand(pinned, seg))
    ensures !StarEnded(EmitSegment(pinned, seg))
  {
    hide Expand;
    hide HasPlaceholder;
  }

  lemma EndOfJoin(segs: seq<string>)
    requires |segs| >= 1 && !StarEnded(segs[|segs| - 1])
    ensures !StarEnded(Join(segs))
  {
    hide Join;
    var front := JoinEnd(segs);
    var last := segs[|segs| - 1];
    assert (front + last)[|front + last| - 1] == last[|last| - 1];
  }

  lemma PathIsJoin(rule: Rule)
    ensures PolicyPathText(rule) == Join(EmittedSegments(rule))
  {
  }

  /** The emitted path is not empty and never ends in "*", which would grant every longer path. */
  lemma PolicyPathHasNoTrailingStar(rule: Rule)
    requires ValidRule(rule)
    ensures !StarEnded(PolicyPathText(rule))
  {
    hide *;
    EmittedEnd(rule);
    EndOfJoin(EmittedSegments(rule));
    PathIsJoin(rule);
  }

  // ----- A path without "+" is the one path the rule reads -----

  /** When nothing is left to a wildcard, every request the rule serves reads the policy path. */
  lemma PathWithoutPlusIsTheRead(rule: Rule, req: Request)
    requires ValidRule(rule) && PrefixIsPinnable(rule.unit) && !LeavesPlaceholder(rule)
    requires IsRequest(req) && RuleMatches(rule, req)
    ensures ReadPath(RefOf(rule, req)) == PolicyPathText(rule)
  {
    RuleCoversItsReads(rule, req);
    PolicyPathHasPlusIff(rule);
    var have, want := Split(PolicyPathText(rule)), Split(ReadPath(RefOf(rule, req)));
    assert forall i :: 0 <= i < |have| ==> have[i] in have;
    assert have == want;
    JoinSplit(PolicyPathText(rule));
    JoinSplit(ReadPath(RefOf(rule, req)));
  }

  /** Validation predicts Plan: with nothing left free in path and mount, no request the rule
      serves is refused over a segment. */
  lemma ValidationPredictsPlan(rule: Rule, req: Request)
    requires ValidRule(rule) && PrefixIsPinnable(rule.unit)
    requires !HasPlaceholder(Expand(Pinned(rule), rule.path))
    requires rule.backend == BACKEND_KV ==> !HasPlaceholder(Expand(Pinned(rule), rule.mount))
    requires IsRequest(req) && RuleMatches(rule, req)
    ensures CleanRef(RefOf(rule, req))
  {
    ValidRuleFacts(rule);
    PinnedValuesSound(rule.unit, rule.credential, req.unit, req.credential);
    PlaceholdersAreTokens();
    hide PinnedValues;
    hide PlaceholderValues;
    hide Substitute;
    PartialIsFinal(PLACEHOLDERS, Pinned(rule), Values(req), rule.path);
    if rule.backend == BACKEND_KV {
      PartialIsFinal(PLACEHOLDERS, Pinned(rule), Values(req), rule.mount);
    }
  }

  // ----- Paths a policy and a server take as they are -----

  lemma {:induction false} SegmentsOfJoin(segs: seq<string>, x: string)
    requires |segs| >= 1
    ensures x in Split(Join(segs)) <==> exists seg :: seg in segs && x in Split(seg)
    decreases |segs|
  {
    if |segs| == 1 {
      assert segs[0] in segs;
    } else {
      SplitConcat(segs[0], Join(segs[1..]));
      SegmentsOfJoin(segs[1..], x);
      assert forall seg :: seg in segs <==> seg == segs[0] || seg in segs[1..];
      assert Join(segs) == segs[0] + "/" + Join(segs[1..]);
    }
  }

  /** The segments of an expansion are those of the expanded segments. */
  lemma ExpandedSegments(values: map<string, string>, template: string, x: string)
    ensures x in Split(Expand(values, template)) <==> exists seg :: seg in Split(template) && x in Split(Expand(values, seg))
  {
    PlaceholdersAreTokens();
    hide PLACEHOLDERS;
    var segs := Split(template);
    var r := SubstituteAll(PLACEHOLDERS, values, segs);
    JoinSplit(template);
    SubstituteCommutesWithJoin(PLACEHOLDERS, values, segs);
    SegmentsOfJoin(r, x);
    hide Split, Substitute;
    if y :| y in r && x in Split(y) {
      var i :| 0 <= i < |r| && r[i] == y;
      assert segs[i] in segs && Expand(values, segs[i]) == y;
    }
    if seg :| seg in segs && x in Split(Expand(values, seg)) {
      var i :| 0 <= i < |segs| && segs[i] == seg;
      assert r[i] in r;
    }
  }

  /** A segment of the policy path is a wildcard or a segment of the pinned read. */
  lemma PolicyPathSegments(rule: Rule, x: string)
    requires x in Split(PolicyPathText(rule)) && x != "+"
    ensures x in Split(Expand(Pinned(rule), ReadTemplate(rule)))
  {
    var segs, template := EmittedSegments(rule), Split(ReadTemplate(rule));
    SegmentsOfJoin(segs, x);
    var y :| y in segs && x in Split(y);
    var i :| 0 <= i < |segs| && segs[i] == y;
    SplitPlus();
    hide Split, Pinned, Expand, HasPlaceholder, ReadTemplate;
    assert y == EmitSegment(Pinned(rule), template[i]);
    assert y != "+" && y == Expand(Pinned(rule), template[i]);
    assert template[i] in template;
    ExpandedSegments(Pinned(rule), ReadTemplate(rule), x);
  }

  lemma SplitPlus()
    ensures Split("+") == ["+"]
  {
    assert "+"[0] != '/' && "+"[1..] == "";
    assert '/' !in "+";
  }

  lemma PinnedReadSegments(rule: Rule, x: string)
    requires ValidRule(rule) && x in Split(Expand(Pinned(rule), ReadTemplate(rule)))
    ensures x == "data" || x in Split(Expand(Pinned(rule), rule.path))
            || (rule.backend == BACKEND_KV && x in Split(Expand(Pinned(rule), rule.mount)))
  {
    ExpandReadTemplate(Pinned(rule), rule);
    hide Split, Expand, Pinned, ValidRule, ReadTemplate;
    if rule.backend == BACKEND_KV {
      SplitMountDataPath(Expand(Pinned(rule), rule.mount), Expand(Pinned(rule), rule.path));
    }
  }

  /** The policy path of a valid rule has no empty, "." or ".." segment and no control character. */
  lemma PolicyPathIsGrantable(rule: Rule)
    requires ValidRule(rule)
    ensures "" !in Split(PolicyPathText(rule)) && "." !in Split(PolicyPathText(rule)) && ".." !in Split(PolicyPathText(rule))
    ensures forall c :: c in PolicyPathText(rule) ==> ' ' <= c < '\U{7F}' || '\U{9F}' < c
  {
    ValidRuleFacts(rule);
    hide ValidRule, Split, Pinned, Expand, CheckLiteral, PolicyPathText;
    forall x | x in Split(PolicyPathText(rule)) ensures GoodSegment(x) {
      if x == "+" {
        PlainSegment(x);
      } else {
        PolicyPathSegments(rule, x);
        PinnedReadSegments(rule, x);
        if x == "data" {
          PlainSegment(x);
        } else if x in Split(Expand(Pinned(rule), rule.path)) {
          SegmentOfLiteral(Expand(Pinned(rule), rule.path), x);
        } else {
          SegmentOfLiteral(Expand(Pinned(rule), rule.mount), x);
        }
      }
    }
    CharsOfSegments(PolicyPathText(rule));
  }

  predicate GoodSegment(x: string) {
    x != "" && x != "." && x != ".." && forall c :: c in x ==> ' ' <= c < '\U{7F}' || '\U{9F}' < c
  }

  lemma PlainSegment(x: string)
    requires x == "+" || x == "data"
    ensures GoodSegment(x)
  {
  }

  lemma SegmentOfLiteral(p: string, x: string)
    requires CheckLiteral(p).None? && x in Split(p)
    ensures GoodSegment(x)
  {
    assert !IsBadSegment(x);
    SegmentChars(p, x);
    assert ' ' == '\U{20}';
    hide Split;
    forall c | c in x ensures ' ' <= c < '\U{7F}' || '\U{9F}' < c {
      assert c in p && !IsControl(c);
    }
  }

  lemma {:induction false} SegmentChars(p: string, x: string)
    requires x in Split(p)
    ensures forall c :: c in x ==> c in p
    decreases |p|
  {
    var cut := CutAt(p, '/');
    if cut.found && x != cut.before {
      assert x in Split(cut.after);
      SegmentChars(cut.after, x);
    }
  }

  lemma {:induction false} CharsOfSegments(p: string)
    requires forall x :: x in Split(p) ==> GoodSegment(x)
    ensures forall c :: c in p ==> ' ' <= c < '\U{7F}' || '\U{9F}' < c
    decreases |p|
  {
    var cut := CutAt(p, '/');
    if cut.found {
      assert Split(p) == [cut.before] + Split(cut.after);
      assert cut.before in Split(p);
      CharsOfSegments(cut.after);
      assert p == cut.before + ['/'] + cut.after;
    } else {
      assert Split(p) == [p] && p in Split(p);
    }
  }

  /** A planned read is a path that normalization leaves alone, and one that is refused is not. */
  lemma ReadIsNormalExact(ref: SecretRef)
    ensures CleanRef(ref) <==> IsNormal(ReadPath(ref))
  {
    CleanSegmentsExact(ReadPath(ref));
    if !ref.raw {
      SplitMountDataPath(ref.mount, ref.path);
    }
    hide Split, IsNormal;
    assert !IsBadSegment("data");
    var m, d, p := Split(ref.mount), ["data"], Split(ref.path);
    assert forall x :: x in m + d + p <==> x in m || x == "data" || x in p;
  }
}
