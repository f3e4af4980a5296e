/** Single-pass text substitution, as strings.Replacer does it, for tokens of the shape "{...}".
    Nothing here depends on which tokens there are. */
module Template {
  import opened Text

  /** A token opens with its only "{" and closes with its only "}", and has no "/". */
  predicate IsToken(t: string) {
    && |t| >= 2 && t[0] == '{' && t[|t| - 1] == '}' && '/' !in t
    && (forall i :: 0 < i < |t| ==> t[i] != '{')
    && (forall i :: 0 <= i < |t| - 1 ==> t[i] != '}')
  }

  predicate Tokens(tokens: seq<string>) {
    forall t :: t in tokens ==> IsToken(t)
  }

  /** So no two tokens start at the same position. */
  lemma TokenAtPositionIsUnique(t: string, u: string, s: string)
    requires IsToken(t) && IsToken(u) && t <= s && u <= s
    ensures t == u
  {
    assert s[|t| - 1] == '}' && s[|u| - 1] == '}';
    assert |t| == |u|;
    assert t == s[..|t|] == u;
  }

  /** The token s starts with. */
  function TokenAt(tokens: seq<string>, s: string): (r: Option<string>)
    ensures r.Some? ==> r.value in tokens && r.value <= s
    ensures r.None? ==> forall t :: t in tokens ==> !(t <= s)
  {
    if tokens == [] then None
    else if tokens[0] <= s then Some(tokens[0])
    else
      assert forall t :: t in tokens ==> t == tokens[0] || t in tokens[1..];
      TokenAt(tokens[1..], s)
  }

  lemma TokenAtIs(tokens: seq<string>, t: string, s: string)
    requires Tokens(tokens) && t in tokens && t <= s
    ensures TokenAt(tokens, s) == Some(t)
  {
    TokenAtPositionIsUnique(t, TokenAt(tokens, s).value, s);
  }

  predicate Replaceable(tokens: seq<string>, values: map<string, string>, s: string) {
    var t := TokenAt(tokens, s);
    t.Some? && t.value in values && t.value != ""
  }

  /** Every token with a value is replaced, once, and all other text stays. */
  function Substitute(tokens: seq<string>, values: map<string, string>, s: string): string
    decreases |s|
  {
    if s == "" then ""
    else if Replaceable(tokens, values, s) then
      var t := TokenAt(tokens, s).value;
      values[t] + Substitute(tokens, values, s[|t|..])
    else [s[0]] + Substitute(tokens, values, s[1..])
  }

  lemma CopiedChar(tokens: seq<string>, values: map<string, string>, s: string)
    requires s != "" && !Replaceable(tokens, values, s)
    ensures Substitute(tokens, values, s) == [s[0]] + Substitute(tokens, values, s[1..])
  {
  }

  // ----- strings.Replacer -----

  /** The first pair, in argument order, whose key s starts with. */
  function PairAt(pairs: seq<(string, string)>, s: string): (r: Option<(string, string)>)
    ensures r.Some? ==> r.value in pairs && r.value.0 <= s
    ensures r.None? ==> forall kv :: kv in pairs ==> !(kv.0 <= s)
  {
    if pairs == [] then None
    else if pairs[0].0 <= s then Some(pairs[0])
    else PairAt(pairs[1..], s)
  }

  predicate NonEmptyKeys(pairs: seq<(string, string)>) {
    forall kv :: kv in pairs ==> kv.0 != ""
  }

  /** strings.NewReplacer(pairs).Replace(s): at each position the first pair that fits, in
      argument order, and never inside text already replaced. */
  function Replace(pairs: seq<(string, string)>, s: string): string
    requires NonEmptyKeys(pairs)
    decreases |s|
  {
    if s == "" then ""
    else
      match PairAt(pairs, s)
      case Some(kv) => kv.1 + Replace(pairs, s[|kv.0|..])
      case None => [s[0]] + Replace(pairs, s[1..])
  }

  /** pairs lists the tokens that have a value, each with its value, in some order. */
  predicate PairsOf(tokens: seq<string>, pairs: seq<(string, string)>, values: map<string, string>) {
    && (forall kv :: kv in pairs ==> kv.0 in tokens && kv.0 in values && kv.1 == values[kv.0])
    && (forall t :: t in tokens && t in values ==> (t, values[t]) in pairs)
  }

  lemma PairAtIsToken(tokens: seq<string>, pairs: seq<(string, string)>, values: map<string, string>, s: string)
    requires Tokens(tokens) && PairsOf(tokens, pairs, values)
    ensures Replaceable(tokens, values, s) <==> PairAt(pairs, s).Some?
    ensures PairAt(pairs, s).Some? ==>
              && TokenAt(tokens, s) == Some(PairAt(pairs, s).value.0)
              && PairAt(pairs, s).value.1 == values[PairAt(pairs, s).value.0]
  {
    var t := TokenAt(tokens, s);
    if Replaceable(tokens, values, s) {
      assert (t.value, values[t.value]) in pairs;
    }
    match PairAt(pairs, s)
    case None =>
    case Some(kv) => TokenAtIs(tokens, kv.0, s);
  }

  lemma {:induction false} ReplaceIsSubstitute(tokens: seq<string>, pairs: seq<(string, string)>,
      values: map<string, string>, s: string)
    requires Tokens(tokens) && PairsOf(tokens, pairs, values)
    ensures NonEmptyKeys(pairs) && Replace(pairs, s) == Substitute(tokens, values, s)
    decreases |s|
  {
    assert NonEmptyKeys(pairs) by {
      assert forall kv :: kv in pairs ==> IsToken(kv.0);
    }
    if s != "" {
      PairAtIsToken(tokens, pairs, values, s);
      match PairAt(pairs, s)
      case Some(kv) => ReplaceIsSubstitute(tokens, pairs, values, s[|kv.0|..]);
      case None => ReplaceIsSubstitute(tokens, pairs, values, s[1..]);
    }
  }

  // ----- Substitution and segments -----

  lemma TokenAtBeforeSlash(tokens: seq<string>, values: map<string, string>, a: string, b: string)
    requires Tokens(tokens) && a != ""
    ensures TokenAt(tokens, a + ("/" + b)) == TokenAt(tokens, a)
    ensures Replaceable(tokens, values, a + ("/" + b)) == Replaceable(tokens, values, a)
  {
    var s := a + ("/" + b);
    match TokenAt(tokens, s)
    case Some(t) =>
      assert s[|a|] == '/';
      assert t <= a;
      TokenAtIs(tokens, t, a);
    case None =>
      assert forall t :: t in tokens && t <= a ==> t <= s;
  }

  lemma SlashStartsNoToken(tokens: seq<string>, s: string)
    requires Tokens(tokens) && s != "" && s[0] == '/'
    ensures TokenAt(tokens, s).None?
  {
  }

  /** When what follows a does not change how a starts, a step of a is a step of both. */
  lemma StepAlike(tokens: seq<string>, values: map<string, string>, a: string, b: string) returns (out: string, rest: string)
    requires a != "" && Replaceable(tokens, values, a + b) == Replaceable(tokens, values, a)
    requires Replaceable(tokens, values, a) ==> TokenAt(tokens, a + b) == TokenAt(tokens, a)
    ensures |rest| < |a| && Substitute(tokens, values, a) == out + Substitute(tokens, values, rest)
    ensures Substitute(tokens, values, a + b) == out + Substitute(tokens, values, rest + b)
  {
    hide TokenAt;
    if Replaceable(tokens, values, a) {
      var t := TokenAt(tokens, a).value;
      out, rest := values[t], a[|t|..];
      assert (a + b)[|t|..] == rest + b;
    } else {
      out, rest := [a[0]], a[1..];
      assert (a + b)[1..] == rest + b;
    }
  }

  lemma {:induction false} SubstituteAcrossSlash(tokens: seq<string>, values: map<string, string>, a: string, b: string)
    requires Tokens(tokens)
    ensures Substitute(tokens, values, a + "/" + b) == Substitute(tokens, values, a) + "/" + Substitute(tokens, values, b)
    decreases |a|
  {
    ConcatAssociates(a, "/", b);
    if a == "" {
      var s := "/" + b;
      assert a + s == s && s[0] == '/' && s[1..] == b;
      SlashStartsNoToken(tokens, s);
    } else {
      hide *;
      TokenAtBeforeSlash(tokens, values, a, b);
      var out, rest := StepAlike(tokens, values, a, "/" + b);
      ConcatAssociates(rest, "/", b);
      SubstituteAcrossSlash(tokens, values, rest, b);
      var x, y := Substitute(tokens, values, rest), Substitute(tokens, values, b);
      ConcatAssociates(x, "/", y);
      ConcatAssociates(out, x, "/" + y);
      ConcatAssociates(out + x, "/", y);
    }
  }

  function SubstituteAll(tokens: seq<string>, values: map<string, string>, segs: seq<string>): (r: seq<string>)
    ensures |r| == |segs|
    ensures forall i :: 0 <= i < |segs| ==> r[i] == Substitute(tokens, values, segs[i])
  {
    seq(|segs|, i requires 0 <= i < |segs| => Substitute(tokens, values, segs[i]))
  }

  /** Joining the segments after substitution is substituting in the whole text, whatever the
      values are. */
  lemma {:induction false} SubstituteCommutesWithJoin(tokens: seq<string>, values: map<string, string>, segs: seq<string>)
    requires Tokens(tokens) && |segs| >= 1
    ensures Join(SubstituteAll(tokens, values, segs)) == Substitute(tokens, values, Join(segs))
    decreases |segs|
  {
    var r := SubstituteAll(tokens, values, segs);
    if |segs| > 1 {
      SubstituteCommutesWithJoin(tokens, values, segs[1..]);
      SubstituteAcrossSlash(tokens, values, segs[0], Join(segs[1..]));
      assert r[1..] == SubstituteAll(tokens, values, segs[1..]);
    }
  }

  predicate SlashFree(values: map<string, string>) {
    forall p :: p in values ==> '/' !in values[p]
  }

  lemma {:induction false} SubstituteSlashFree(tokens: seq<string>, values: map<string, string>, s: string)
    requires SlashFree(values) && '/' !in s
    ensures '/' !in Substitute(tokens, values, s)
    decreases |s|
  {
    if s != "" {
      if Replaceable(tokens, values, s) {
        SubstituteSlashFree(tokens, values, s[|TokenAt(tokens, s).value|..]);
      } else {
        SubstituteSlashFree(tokens, values, s[1..]);
      }
    }
  }

  /** Splitting after substitution is substituting in each segment, when no value has a "/". */
  lemma SubstituteCommutesWithSplit(tokens: seq<string>, values: map<string, string>, s: string)
    requires Tokens(tokens) && SlashFree(values)
    ensures Split(Substitute(tokens, values, s)) == SubstituteAll(tokens, values, Split(s))
  {
    var r := SubstituteAll(tokens, values, Split(s));
    SubstituteCommutesWithJoin(tokens, values, Split(s));
    JoinSplit(s);
    forall seg | seg in r ensures '/' !in seg {
      var i :| 0 <= i < |r| && r[i] == seg;
      SubstituteSlashFree(tokens, values, Split(s)[i]);
    }
    SplitJoin(r);
  }

  // ----- Partial substitution -----

  predicate HasToken(tokens: seq<string>, s: string) {
    exists t :: t in tokens && Contains(s, t)
  }

  lemma HasTokenSuffix(tokens: seq<string>, a: string, b: string)
    requires HasToken(tokens, b)
    ensures HasToken(tokens, a + b)
  {
    var t :| t in tokens && Contains(b, t);
    ContainsSuffix(a, b, t);
  }

  /** Text without "{" is copied. */
  lemma {:induction false} SubstituteCopies(tokens: seq<string>, values: map<string, string>, t: string, rest: string)
    requires Tokens(tokens) && '{' !in t
    ensures Substitute(tokens, values, t + rest) == t + Substitute(tokens, values, rest)
    decreases |t|
  {
    if t == "" {
      assert t + rest == rest;
    } else {
      var s := t + rest;
      assert s[0] == t[0] && s[1..] == t[1..] + rest;
      assert !Replaceable(tokens, values, s);
      SubstituteCopies(tokens, values, t[1..], rest);
    }
  }

  /** A token without a value survives. */
  lemma FreeTokenSurvives(tokens: seq<string>, values: map<string, string>, t: string, rest: string)
    requires Tokens(tokens) && t in tokens && t !in values
    ensures Substitute(tokens, values, t + rest) == t + Substitute(tokens, values, rest)
    ensures HasToken(tokens, Substitute(tokens, values, t + rest))
  {
    var s := t + rest;
    assert IsToken(t) && s[0] == t[0];
    TokenAtIs(tokens, t, s);
    assert s[1..] == t[1..] + rest;
    SubstituteCopies(tokens, values, t[1..], rest);
    CopiedChar(tokens, values, s);
    hide Substitute, Tokens, IsToken, TokenAt;
    var e := Substitute(tokens, values, rest);
    assert [t[0]] + (t[1..] + e) == t + e;
    assert (t + e)[0..] == t + e;
    assert Contains(t + e, t);
  }

  /** sub gives no token another value than all does. */
  predicate Agrees(sub: map<string, string>, all: map<string, string>) {
    forall p :: p in sub ==> p in all && sub[p] == all[p]
  }

  /** One step of Substitute, as a split of the text: what is consumed and what it becomes. */
  function Step(tokens: seq<string>, values: map<string, string>, s: string): (r: (string, string))
    requires s != ""
    ensures |r.1| < |s| && Substitute(tokens, values, s) == r.0 + Substitute(tokens, values, r.1)
  {
    if Replaceable(tokens, values, s) then
      var t := TokenAt(tokens, s).value;
      (values[t], s[|t|..])
    else ([s[0]], s[1..])
  }

  /** Text that has no token left after a partial substitution is already what the full
      substitution makes of it. */
  lemma {:induction false} PartialIsFinal(tokens: seq<string>, sub: map<string, string>, all: map<string, string>, s: string)
    requires Tokens(tokens) && Agrees(sub, all) && !HasToken(tokens, Substitute(tokens, sub, s))
    ensures Substitute(tokens, all, s) == Substitute(tokens, sub, s)
    decreases |s|
  {
    if s != "" {
      var (out, rest) := Step(tokens, sub, s);
      if HasToken(tokens, Substitute(tokens, sub, rest)) {
        HasTokenSuffix(tokens, out, Substitute(tokens, sub, rest));
      }
      var t := TokenAt(tokens, s);
      if t.Some? && t.value !in sub {
        assert s == t.value + s[|t.value|..];
        FreeTokenSurvives(tokens, sub, t.value, s[|t.value|..]);
      }
      PartialIsFinal(tokens, sub, all, rest);
    }
  }

  lemma ContainsPastToken(tokens: seq<string>, s: string, t: string)
    requires Tokens(tokens) && t in tokens && s != "" && Contains(s, t) && TokenAt(tokens, s) != Some(t)
    ensures match TokenAt(tokens, s)
            case None => Contains(s[1..], t)
            case Some(u) => Contains(s[|u|..], t)
  {
    var i :| 0 <= i <= |s| && t <= s[i..];
    if i == 0 {
      TokenAtIs(tokens, t, s);
      assert false;
    }
    assert s[i] == t[0] == '{';
    match TokenAt(tokens, s)
    case None =>
      assert s[1..][i - 1..] == s[i..];
    case Some(u) =>
      assert IsToken(u) && s[..|u|] == u;
      assert i >= |u|;
      assert s[|u|..][i - |u|..] == s[i..];
  }

  /** Two value tables that differ in the value of t only, by length: what they make of a text
      that mentions t differs by length in the same direction. */
  lemma {:induction false} LengthTellsValuesApart(tokens: seq<string>, v: map<string, string>, w: map<string, string>,
      s: string, t: string, longer: bool)
    requires Tokens(tokens) && t in tokens && t in v && t in w
    requires forall p :: p in v && p != t ==> p in w && v[p] == w[p]
    requires if longer then |v[t]| < |w[t]| else |w[t]| < |v[t]|
    requires !HasToken(tokens, Substitute(tokens, v, s))
    ensures var a, b, gap := |Substitute(tokens, v, s)|, |Substitute(tokens, w, s)|, if Contains(s, t) then 1 else 0;
            if longer then a + gap <= b else b + gap <= a
    decreases |s|
  {
    if s == "" {
      assert IsToken(t);
    } else {
      var (out, rest) := Step(tokens, v, s);
      if HasToken(tokens, Substitute(tokens, v, rest)) {
        HasTokenSuffix(tokens, out, Substitute(tokens, v, rest));
      }
      var u := TokenAt(tokens, s);
      if u.Some? && u.value !in v {
        assert s == u.value + s[|u.value|..];
        FreeTokenSurvives(tokens, v, u.value, s[|u.value|..]);
      }
      LengthTellsValuesApart(tokens, v, w, rest, t, longer);
      if u != Some(t) && Contains(s, t) {
        ContainsPastToken(tokens, s, t);
      }
    }
  }

  /** A value for a token the text does not mention changes nothing. */
  lemma {:induction false} UnmentionedValue(tokens: seq<string>, values: map<string, string>, s: string, t: string)
    requires Tokens(tokens) && t in tokens && !Contains(s, t)
    ensures Substitute(tokens, values - {t}, s) == Substitute(tokens, values, s)
    decreases |s|
  {
    if s != "" {
      assert s[0..] == s;
      assert TokenAt(tokens, s) != Some(t);
      var (out, rest) := Step(tokens, values, s);
      var k := |s| - |rest|;
      assert rest == s[k..];
      assert forall i :: 0 <= i <= |rest| ==> rest[i..] == s[k + i..];
      UnmentionedValue(tokens, values, rest, t);
    }
  }
}
