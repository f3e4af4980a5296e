/** Package policy: the paths the generated OpenBao policy grants for a rule list. */
module Policy {
  import opened Text
  import opened Template
  import opened Config

  datatype Grant = Grant(path: string, capabilities: seq<string>, widened: bool)

  /** What a rule reads, with its placeholders still in it. */
  function ReadTemplate(r: Rule): string {
    if r.backend == BACKEND_KV then r.mount + "/data/" + r.path else r.path
  }

  /** How one segment of the read appears in the policy. */
  function EmitSegment(pinned: map<string, string>, seg: string): string {
    if HasPlaceholder(Expand(pinned, seg)) then "+" else Expand(pinned, seg)
  }

  /** A segment that is more than one placeholder becomes a wildcard wider than itself. */
  predicate WidensSegment(pinned: map<string, string>, seg: string) {
    HasPlaceholder(Expand(pinned, seg)) && Expand(pinned, seg) !in PLACEHOLDERS
  }

  /** Widening is exactly a placeholder that shares its segment with other text. */
  lemma WidenedExact(pinned: map<string, string>, seg: string)
    ensures WidensSegment(pinned, seg) <==>
            exists p, a, b :: p in PLACEHOLDERS && a + b != "" && Expand(pinned, seg) == a + p + b
  {
    var e := Expand(pinned, seg);
    hide Expand, PLACEHOLDERS, HasPlaceholder;
    if WidensSegment(pinned, seg) {
      var p, a, b := PlaceholderInText(e);
      assert a + b == "" ==> a + p + b == p;
    }
    if p, a, b :| p in PLACEHOLDERS && a + b != "" && e == a + p + b {
      SharedTextIsNoPlaceholder(p, a, b);
    }
  }

  lemma PlaceholderInText(e: string) returns (p: string, a: string, b: string)
    requires HasPlaceholder(e)
    ensures p in PLACEHOLDERS && e == a + p + b
  {
    hide PLACEHOLDERS;
    p :| p in PLACEHOLDERS && Contains(e, p);
    var i :| 0 <= i <= |e| && p <= e[i..];
    a, b := e[..i], e[i + |p|..];
  }

  lemma SharedTextIsNoPlaceholder(p: string, a: string, b: string)
    requires p in PLACEHOLDERS && a + b != ""
    ensures HasPlaceholder(a + p + b) && a + p + b !in PLACEHOLDERS
  {
    PlaceholdersAreTokens();
    hide PLACEHOLDERS;
    var e := a + p + b;
    assert e[|a|..] == p + b;
    assert Contains(e, p);
    if e in PLACEHOLDERS {
      TokenInToken(p, a, b);
    }
  }

  lemma TokenInToken(p: string, a: string, b: string)
    requires IsToken(p) && IsToken(a + p + b)
    ensures a + b == ""
  {
    var e := a + p + b;
    assert e[|a|] == p[0] == '{';
    assert e[|a| + |p| - 1] == p[|p| - 1] == '}';
  }

  function EmittedSegments(r: Rule): (segs: seq<string>)
    ensures |segs| == |Split(ReadTemplate(r))|
    ensures forall i :: 0 <= i < |segs| ==> segs[i] == EmitSegment(Pinned(r), Split(ReadTemplate(r))[i])
  {
    var template := Split(ReadTemplate(r));
    seq(|template|, i requires 0 <= i < |template| => EmitSegment(Pinned(r), template[i]))
  }

  function PolicyPathText(r: Rule): string {
    Join(EmittedSegments(r))
  }

  predicate WidensAny(pinned: map<string, string>, segs: seq<string>) {
    exists seg :: seg in segs && WidensSegment(pinned, seg)
  }

  lemma WidensAnyMore(pinned: map<string, string>, segs: seq<string>, seg: string)
    ensures WidensAny(pinned, segs + [seg]) <==> WidensAny(pinned, segs) || WidensSegment(pinned, seg)
  {
    var more := segs + [seg];
    assert forall t :: t in more <==> t in segs || t == seg;
    assert seg in more;
  }

  predicate Widens(r: Rule) {
    WidensAny(Pinned(r), Split(ReadTemplate(r)))
  }

  /** policyPath. */
  method PolicyPath(r: Rule) returns (path: string, widened: bool)
    ensures path == PolicyPathText(r) && (widened <==> Widens(r))
  {
    var read := r.path;
    if r.backend == BACKEND_KV {
      read := r.mount + "/data/" + r.path;
    }
    var template := Split(read);
    var segments := new string[|template|](i requires 0 <= i < |template| => template[i]);
    assert segments[..] == template;
    widened := EmitInPlace(Pinned(r), segments);
    assert segments[..] == EmittedSegments(r);
    path := Join(segments[..]);
  }

  /** The loop of policyPath, which rewrites the segments where they are. */
  method EmitInPlace(pinned: map<string, string>, segments: array<string>) returns (widened: bool)
    modifies segments
    ensures forall i :: 0 <= i < segments.Length ==> segments[i] == EmitSegment(pinned, old(segments[i]))
    ensures widened <==> WidensAny(pinned, old(segments[..]))
  {
    var pairs := Replacer(pinned);
    ghost var template := segments[..];
    widened := false;
    for i := 0 to segments.Length
      invariant forall j :: 0 <= j < i ==> segments[j] == EmitSegment(pinned, template[j])
      invariant forall j :: i <= j < segments.Length ==> segments[j] == template[j]
      invariant widened <==> WidensAny(pinned, template[..i])
    {
      ReplaceIsExpand(pairs, pinned, segments[i]);
      var seg := Replace(pairs, segments[i]);
      segments[i] := seg;
      assert template[..i + 1] == template[..i] + [template[i]];
      WidensAnyMore(pinned, template[..i], template[i]);
      if HasPlaceholder(seg) {
        widened := widened || seg !in PLACEHOLDERS;
        segments[i] := "+";
      }
    }
    assert template[..segments.Length] == template;
  }

  // ----- Grants -----

  /** What one rule asks of the policy. */
  datatype Ask = Ask(path: string, widened: bool)

  function AskOf(r: Rule): Ask {
    Ask(PolicyPathText(r), Widens(r))
  }

  function AsksOf(rules: seq<Rule>): (asks: seq<Ask>)
    ensures |asks| == |rules|
    ensures forall k :: 0 <= k < |rules| ==> asks[k] == AskOf(rules[k])
  {
    seq(|rules|, k requires 0 <= k < |rules| => AskOf(rules[k]))
  }

  /** Ask k is the first for its path. */
  ghost predicate FirstAsk(asks: seq<Ask>, k: nat) {
    k < |asks| && forall j :: 0 <= j < k ==> asks[j].path != asks[k].path
  }

  ghost predicate GrantIs(asks: seq<Ask>, g: Grant, path: string) {
    && g.path == path && g.capabilities == ["read"]
    && (g.widened <==> exists a :: a in asks && a.path == path && a.widened)
  }

  /** The grants a rule list needs. Grant n answers ask firsts[n]: the first asks, in order, and
      no others. It is widened when any ask for its path is. */
  ghost predicate GrantsAre(asks: seq<Ask>, out: seq<Grant>, firsts: seq<nat>) {
    && |firsts| == |out|
    && Increasing(firsts)
    && (forall n :: 0 <= n < |firsts| ==> FirstAsk(asks, firsts[n]))
    && (forall k :: 0 <= k < |asks| && FirstAsk(asks, k) ==> k in firsts)
    && (forall n :: 0 <= n < |out| ==> GrantIs(asks, out[n], asks[firsts[n]].path))
  }

  /** at finds the grant a path already has. */
  ghost predicate IndexedGrants(asks: seq<Ask>, out: seq<Grant>, firsts: seq<nat>, at: map<string, nat>) {
    && GrantsAre(asks, out, firsts)
    && (forall n :: 0 <= n < |out| ==> out[n].path in at && at[out[n].path] == n)
    && (forall p :: p in at ==> at[p] < |out| && out[at[p]].path == p)
    && (forall a :: a in asks ==> a.path in at)
  }

  /** The grants for the asks: GrantsAre for some list of first asks. */
  ghost predicate GrantsFor(asks: seq<Ask>, out: seq<Grant>) {
    exists firsts :: GrantsAre(asks, out, firsts)
  }

  ghost predicate GrantsIndexed(asks: seq<Ask>, out: seq<Grant>, at: map<string, nat>) {
    exists firsts :: IndexedGrants(asks, out, firsts, at)
  }

  /** Grants. */
  method Grants(rules: seq<Rule>) returns (out: seq<Grant>)
    ensures GrantsFor(AsksOf(rules), out)
    ensures forall m, n :: 0 <= m < n < |out| ==> out[m].path != out[n].path
  {
    hide PolicyPathText, Widens, GrantsIndexed, GrantsFor;
    ghost var asks := AsksOf(rules);
    var at: map<string, nat> := map[];
    out := [];
    NothingIndexed();
    for k := 0 to |rules|
      invariant GrantsIndexed(asks[..k], out, at)
    {
      assert asks[..k + 1] == asks[..k] + [asks[k]];
      out, at := AddRule(asks[..k], rules[k], out, at);
    }
    assert asks[..|rules|] == asks;
    GrantsOfIndexed(asks, out, at);
  }

  lemma NothingIndexed()
    ensures GrantsIndexed([], [], map[])
  {
    assert IndexedGrants([], [], [], map[]);
  }

  lemma GrantsOfIndexed(asks: seq<Ask>, out: seq<Grant>, at: map<string, nat>)
    requires GrantsIndexed(asks, out, at)
    ensures GrantsFor(asks, out)
    ensures forall m, n :: 0 <= m < n < |out| ==> out[m].path != out[n].path
  {
    var firsts: seq<nat> :| IndexedGrants(asks, out, firsts, at);
    assert GrantsAre(asks, out, firsts);
    hide GrantsAre, IndexedGrants;
    forall m, n | 0 <= m < n < |out| ensures out[m].path != out[n].path {
      DistinctGrants(asks, out, firsts, m, n);
    }
  }

  /** The loop body of Grants. */
  method AddRule(ghost asks: seq<Ask>, r: Rule, grants: seq<Grant>, index: map<string, nat>)
    returns (out: seq<Grant>, at: map<string, nat>)
    requires GrantsIndexed(asks, grants, index)
    ensures GrantsIndexed(asks + [AskOf(r)], out, at)
  {
    var p, widened := PolicyPath(r);
    out, at := AddGrant(asks, p, widened, grants, index);
  }

  /** Adds one ask: to the grant its path has, or as a new grant. */
  method AddGrant(ghost asks: seq<Ask>, p: string, widened: bool, grants: seq<Grant>, index: map<string, nat>)
    returns (out: seq<Grant>, at: map<string, nat>)
    requires GrantsIndexed(asks, grants, index)
    ensures GrantsIndexed(asks + [Ask(p, widened)], out, at)
  {
    hide IndexedGrants, GrantsAre, GrantIs, FirstAsk;
    ghost var asked: seq<nat> :| IndexedGrants(asks, grants, asked, index);
    IndexFinds(asks, grants, asked, index, p);
    if p in index {
      var i := index[p];
      IndexedAgain(asks, Ask(p, widened), grants, asked, index);
      out, at := grants[i := grants[i].(widened := grants[i].widened || widened)], index;
    } else {
      IndexedFirst(asks, Ask(p, widened), grants, asked, index);
      out, at := grants + [Grant(p, ["read"], widened)], index[p := |grants|];
    }
  }

  lemma IndexFinds(asks: seq<Ask>, out: seq<Grant>, firsts: seq<nat>, at: map<string, nat>, p: string)
    requires IndexedGrants(asks, out, firsts, at)
    ensures p in at ==> at[p] < |out| && out[at[p]].path == p
    ensures p !in at ==> forall k :: 0 <= k < |asks| ==> asks[k].path != p
  {
    assert forall k :: 0 <= k < |asks| ==> asks[k] in asks;
  }

  lemma IndexedAgain(asks: seq<Ask>, a: Ask, out: seq<Grant>, firsts: seq<nat>, at: map<string, nat>)
    requires IndexedGrants(asks, out, firsts, at) && a.path in at
    ensures at[a.path] < |out|
    ensures var i := at[a.path];
            IndexedGrants(asks + [a], out[i := out[i].(widened := out[i].widened || a.widened)], firsts, at)
  {
    hide GrantsAre;
    AskedAgain(asks, a, out, firsts, at[a.path]);
  }

  lemma IndexedFirst(asks: seq<Ask>, a: Ask, out: seq<Grant>, firsts: seq<nat>, at: map<string, nat>)
    requires IndexedGrants(asks, out, firsts, at) && a.path !in at
    ensures IndexedGrants(asks + [a], out + [Grant(a.path, ["read"], a.widened)], firsts + [|asks|], at[a.path := |out|])
  {
    IndexFinds(asks, out, firsts, at, a.path);
    hide GrantsAre;
    AskedFirst(asks, a, out, firsts);
  }

  lemma StillGranted(asks: seq<Ask>, a: Ask, g: Grant, path: string)
    requires GrantIs(asks, g, path)
    ensures GrantIs(asks + [a], g.(widened := g.widened || (a.path == path && a.widened)), path)
  {
    var all := asks + [a];
    assert forall x :: x in all <==> x in asks || x == a;
  }

  lemma FirstAskBefore(asks: seq<Ask>, a: Ask, k: nat)
    requires k < |asks|
    ensures FirstAsk(asks + [a], k) <==> FirstAsk(asks, k)
  {
    var all := asks + [a];
    assert forall j :: 0 <= j < |asks| ==> all[j] == asks[j];
  }

  lemma AskedAgain(asks: seq<Ask>, a: Ask, out: seq<Grant>, firsts: seq<nat>, i: nat)
    requires GrantsAre(asks, out, firsts) && i < |out| && out[i].path == a.path
    ensures GrantsAre(asks + [a], out[i := out[i].(widened := out[i].widened || a.widened)], firsts)
  {
    var all := asks + [a];
    var out' := out[i := out[i].(widened := out[i].widened || a.widened)];
    forall n | 0 <= n < |out|
      ensures FirstAsk(all, firsts[n]) && GrantIs(all, out'[n], all[firsts[n]].path)
    {
      FirstAskBefore(asks, a, firsts[n]);
      StillGranted(asks, a, out[n], asks[firsts[n]].path);
      if n != i {
        DistinctGrants(asks, out, firsts, n, i);
        assert out[n].(widened := out[n].widened || false) == out[n];
      }
    }
    assert all[firsts[i]].path == a.path && all[|asks|] == a;
    forall k | 0 <= k < |all| && FirstAsk(all, k) ensures k in firsts {
      if k < |asks| {
        FirstAskBefore(asks, a, k);
      }
    }
  }

  lemma AskedFirst(asks: seq<Ask>, a: Ask, out: seq<Grant>, firsts: seq<nat>)
    requires GrantsAre(asks, out, firsts)
    requires forall k :: 0 <= k < |asks| ==> asks[k].path != a.path
    ensures GrantsAre(asks + [a], out + [Grant(a.path, ["read"], a.widened)], firsts + [|asks|])
  {
    var all := asks + [a];
    forall n | 0 <= n < |out|
      ensures FirstAsk(all, firsts[n]) && GrantIs(all, out[n], all[firsts[n]].path)
    {
      FirstAskBefore(asks, a, firsts[n]);
      StillGranted(asks, a, out[n], asks[firsts[n]].path);
      assert out[n].(widened := out[n].widened || false) == out[n];
    }
    assert all[|asks|] == a && a in all;
    assert FirstAsk(all, |asks|);
    forall k | 0 <= k < |all| && FirstAsk(all, k) ensures k in firsts + [|asks|] {
      if k < |asks| {
        FirstAskBefore(asks, a, k);
      }
    }
  }

  /** No path is granted twice. */
  lemma DistinctGrants(asks: seq<Ask>, out: seq<Grant>, firsts: seq<nat>, m: nat, n: nat)
    requires GrantsAre(asks, out, firsts) && m < |out| && n < |out| && m != n
    ensures out[m].path != out[n].path
  {
    assert FirstAsk(asks, firsts[m]) && FirstAsk(asks, firsts[n]);
  }

  /** Every path asked for is granted. */
  lemma AskIsGranted(asks: seq<Ask>, out: seq<Grant>, k: nat) returns (n: nat)
    requires GrantsFor(asks, out) && k < |asks|
    ensures n < |out| && out[n].path == asks[k].path
  {
    hide GrantsAre;
    var firsts: seq<nat> :| GrantsAre(asks, out, firsts);
    n := AskIsAnswered(asks, out, firsts, k);
  }

  lemma {:induction false} AskIsAnswered(asks: seq<Ask>, out: seq<Grant>, firsts: seq<nat>, k: nat) returns (n: nat)
    requires GrantsAre(asks, out, firsts) && k < |asks|
    ensures n < |out| && out[n].path == asks[k].path
    decreases k
  {
    if FirstAsk(asks, k) {
      n :| n < |firsts| && firsts[n] == k;
    } else {
      var j :| 0 <= j < k && asks[j].path == asks[k].path;
      n := AskIsAnswered(asks, out, firsts, j);
    }
  }

  /** The description of the grants leaves no choice. */
  lemma GrantsAreUnique(asks: seq<Ask>, a: seq<Grant>, b: seq<Grant>)
    requires GrantsFor(asks, a) && GrantsFor(asks, b)
    ensures a == b
  {
    hide GrantsAre;
    var f: seq<nat> :| GrantsAre(asks, a, f);
    var g: seq<nat> :| GrantsAre(asks, b, g);
    SameGrants(asks, a, f, b, g);
  }

  lemma SameGrants(asks: seq<Ask>, a: seq<Grant>, f: seq<nat>, b: seq<Grant>, g: seq<nat>)
    requires GrantsAre(asks, a, f) && GrantsAre(asks, b, g)
    ensures a == b
  {
    forall k: nat ensures k in f <==> k in g {
      if k in f {
        assert FirstAsk(asks, k);
      }
      if k in g {
        assert FirstAsk(asks, k);
      }
    }
    assert Increasing(f) && Increasing(g) && SameElements(f, g);
    IncreasingWithSameElements(f, g);
    assert forall n :: 0 <= n < |a| ==> a[n] == b[n];
  }

  ghost predicate Increasing(f: seq<nat>) {
    forall m, n :: 0 <= m < n < |f| ==> f[m] < f[n]
  }

  ghost predicate SameElements(f: seq<nat>, g: seq<nat>) {
    forall k: nat :: k in f <==> k in g
  }

  lemma {:induction false} IncreasingWithSameElements(f: seq<nat>, g: seq<nat>)
    requires Increasing(f) && Increasing(g) && SameElements(f, g)
    ensures f == g
    decreases |f|
  {
    if f == [] || g == [] {
      EmptyTogether(f, g);
    } else {
      SameLast(f, g);
      WithoutLast(f, g);
      IncreasingWithSameElements(f[..|f| - 1], g[..|g| - 1]);
      assert f == f[..|f| - 1] + [f[|f| - 1]];
      assert g == g[..|g| - 1] + [g[|g| - 1]];
    }
  }

  lemma EmptyTogether(f: seq<nat>, g: seq<nat>)
    requires SameElements(f, g)
    ensures f == [] <==> g == []
  {
    assert f != [] ==> f[0] in f;
    assert g != [] ==> g[0] in g;
  }

  lemma SameLast(f: seq<nat>, g: seq<nat>)
    requires f != [] && g != [] && Increasing(f) && Increasing(g) && SameElements(f, g)
    ensures f[|f| - 1] == g[|g| - 1]
  {
    assert f[|f| - 1] in g && g[|g| - 1] in f;
  }

  lemma WithoutLast(f: seq<nat>, g: seq<nat>)
    requires f != [] && g != [] && Increasing(f) && Increasing(g) && SameElements(f, g)
    requires f[|f| - 1] == g[|g| - 1]
    ensures Increasing(f[..|f| - 1]) && Increasing(g[..|g| - 1])
    ensures SameElements(f[..|f| - 1], g[..|g| - 1])
  {
    var f0, g0 := f[..|f| - 1], g[..|g| - 1];
    forall k: nat ensures k in f0 <==> k in g0 {
      DropLast(f, k);
      DropLast(g, k);
    }
  }

  lemma DropLast(f: seq<nat>, k: nat)
    requires f != [] && Increasing(f)
    ensures k in f[..|f| - 1] <==> k in f && k != f[|f| - 1]
  {
    assert f == f[..|f| - 1] + [f[|f| - 1]];
  }
}
