/** When expanded text holds a token that the template does not: a pair of literal braces closes
    around text that expands to a token's name. */
module Braces {
  import opened Text
  import opened Template

  predicate BraceFree(s: string) {
    '{' !in s && '}' !in s
  }

  predicate BraceFreeValues(values: map<string, string>) {
    forall p :: p in values ==> BraceFree(values[p])
  }

  /** The braces at i and j are no token and enclose text that expands to the name of t. */
  predicate Joins(tokens: seq<string>, values: map<string, string>, s: string, i: nat, j: nat, t: string) {
    && i < j < |s| && s[i] == '{' && s[j] == '}' && s[i..j + 1] !in tokens
    && "{" + Substitute(tokens, values, s[i + 1..j]) + "}" == t
  }

  ghost predicate JoinsTo(tokens: seq<string>, values: map<string, string>, s: string, t: string) {
    exists i: nat, j: nat :: Joins(tokens, values, s, i, j, t)
  }

  // ----- Substitution around a brace -----

  lemma PrefixIsReplaceable(tokens: seq<string>, values: map<string, string>, s: string, n: nat)
    requires Tokens(tokens) && n <= |s| && Replaceable(tokens, values, s[..n])
    ensures Replaceable(tokens, values, s) && TokenAt(tokens, s) == TokenAt(tokens, s[..n])
  {
    TokenAtIs(tokens, TokenAt(tokens, s[..n]).value, s);
  }

  lemma SubstituteToken(tokens: seq<string>, values: map<string, string>, t: string, rest: string)
    requires Tokens(tokens) && t in tokens && t in values
    ensures Substitute(tokens, values, t + rest) == values[t] + Substitute(tokens, values, rest)
    ensures Replaceable(tokens, values, t + rest)
  {
    assert IsToken(t);
    TokenAtIs(tokens, t, t + rest);
    assert (t + rest)[|t|..] == rest;
  }

  /** A "{" is never inside a token. */
  lemma TokenBeforeOpen(tokens: seq<string>, values: map<string, string>, a: string, b: string)
    requires Tokens(tokens) && a != "" && b != "" && b[0] == '{'
    ensures TokenAt(tokens, a + b) == TokenAt(tokens, a)
    ensures Replaceable(tokens, values, a + b) == Replaceable(tokens, values, a)
  {
    match TokenAt(tokens, a + b)
    case Some(t) =>
      assert IsToken(t) && (a + b)[|a|] == '{';
      assert t <= a;
      TokenAtIs(tokens, t, a);
    case None =>
      assert forall t :: t in tokens && t <= a ==> t <= a + b;
  }

  lemma {:induction false} SubstituteBeforeOpen(tokens: seq<string>, values: map<string, string>, a: string, b: string)
    requires Tokens(tokens) && b != "" && b[0] == '{'
    ensures Substitute(tokens, values, a + b) == Substitute(tokens, values, a) + Substitute(tokens, values, b)
    decreases |a|
  {
    if a == "" {
      assert a + b == b;
    } else {
      hide *;
      TokenBeforeOpen(tokens, values, a, b);
      var out, rest := StepAlike(tokens, values, a, b);
      SubstituteBeforeOpen(tokens, values, rest, b);
      ConcatAssociates(out, Substitute(tokens, values, rest), Substitute(tokens, values, b));
    }
  }

  /** A token that starts in a and ends past it leaves a "{" of a open. */
  lemma TokenReachesPast(tokens: seq<string>, values: map<string, string>, a: string, b: string)
    requires Tokens(tokens) && a != "" && !Replaceable(tokens, values, a) && Replaceable(tokens, values, a + b)
    ensures '{' in Substitute(tokens, values, a)
  {
    var t := TokenAt(tokens, a + b).value;
    assert IsToken(t) && (a + b)[0] == a[0];
    if t <= a {
      TokenAtIs(tokens, t, a);
    }
    assert Substitute(tokens, values, a)[0] == '{';
  }

  /** When nothing opened in a is still open at the "}", a token ends before it. */
  lemma TokenBeforeClose(tokens: seq<string>, values: map<string, string>, a: string, b: string)
    requires Tokens(tokens) && a != "" && '{' !in Substitute(tokens, values, a)
    ensures Replaceable(tokens, values, a + b) == Replaceable(tokens, values, a)
    ensures Replaceable(tokens, values, a) ==> TokenAt(tokens, a + b) == TokenAt(tokens, a)
  {
    assert (a + b)[..|a|] == a;
    if Replaceable(tokens, values, a) {
      PrefixIsReplaceable(tokens, values, a + b, |a|);
    } else if Replaceable(tokens, values, a + b) {
      TokenReachesPast(tokens, values, a, b);
    }
  }

  lemma {:induction false} SubstituteBeforeClose(tokens: seq<string>, values: map<string, string>, a: string, b: string)
    requires Tokens(tokens) && '{' !in Substitute(tokens, values, a)
    ensures Substitute(tokens, values, a + b) == Substitute(tokens, values, a) + Substitute(tokens, values, b)
    decreases |a|
  {
    if a == "" {
      assert a + b == b;
    } else {
      hide *;
      TokenBeforeClose(tokens, values, a, b);
      var out, rest := StepAlike(tokens, values, a, b);
      NotInEnd(out, Substitute(tokens, values, rest), '{');
      SubstituteBeforeClose(tokens, values, rest, b);
      ConcatAssociates(out, Substitute(tokens, values, rest), Substitute(tokens, values, b));
    }
  }

  lemma NotInEnd(a: string, b: string, c: char)
    requires c !in a + b
    ensures c !in b
  {
    assert forall k :: 0 <= k < |b| ==> (a + b)[|a| + k] == b[k];
  }

  // ----- A joined token is in the expansion -----

  /** No token starts where a pair that joins does. */
  lemma JoinIsNoToken(tokens: seq<string>, values: map<string, string>, s: string, j: nat, t: string)
    requires Tokens(tokens) && t in tokens && Joins(tokens, values, s, 0, j, t)
    ensures TokenAt(tokens, s) == None
  {
    if TokenAt(tokens, s).Some? {
      var u := TokenAt(tokens, s).value;
      assert IsToken(u) && IsToken(t);
      var n := |u| - 1;
      assert u == s[..n + 1] && s[n] == '}';
      assert u[..n][..n] == u[..n];
      if n < j {
        TokenInsidePair(tokens, values, s, j, t, u);
      }
    }
  }

  lemma TokenInsidePair(tokens: seq<string>, values: map<string, string>, s: string, j: nat, t: string, u: string)
    requires Tokens(tokens) && t in tokens && u in tokens && u <= s && |u| <= j < |s|
    ensures "{" + Substitute(tokens, values, s[1..j]) + "}" != t
  {
    assert IsToken(u) && IsToken(t);
    var inner, n := s[1..j], |u| - 1;
    var head := inner[..n];
    assert head == u[1..] && head[n - 1] == '}';
    assert inner == head + inner[n..];
    SubstituteCopies(tokens, values, head, inner[n..]);
    var whole := "{" + Substitute(tokens, values, inner) + "}";
    assert whole[n] == '}' && n < |whole| - 1;
  }

  lemma JoinStartsToken(tokens: seq<string>, values: map<string, string>, s: string, j: nat, t: string)
    requires Tokens(tokens) && t in tokens && Joins(tokens, values, s, 0, j, t)
    ensures t + Substitute(tokens, values, s[j + 1..]) == Substitute(tokens, values, s)
  {
    JoinIsNoToken(tokens, values, s, j, t);
    hide IsToken, TokenAt, Substitute;
    var inner, rest := s[1..j], s[j + 1..];
    var name := NameOf(tokens, t);
    SameName(Substitute(tokens, values, inner), name);
    hide Joins, Tokens;
    PairParts(s, j);
    CopiedChar(tokens, values, s);
    SubstituteBeforeClose(tokens, values, inner, "}" + rest);
    SubstituteCopies(tokens, values, "}", rest);
    PairText(name, Substitute(tokens, values, rest));
  }

  lemma PairParts(s: string, j: nat)
    requires 0 < j < |s| && s[0] == '{' && s[j] == '}'
    ensures s[1..] == s[1..j] + ("}" + s[j + 1..])
  {
  }

  lemma PairText(name: string, rest: string)
    ensures ("{" + (name + "}")) + rest == ['{'] + (name + ("}" + rest))
  {
  }

  lemma SameName(a: string, b: string)
    requires "{" + a + "}" == "{" + (b + "}")
    ensures a == b
  {
    var x, y := "{" + a + "}", "{" + (b + "}");
    assert |x| == |y| && x[1..|x| - 1] == a && y[1..|y| - 1] == b;
  }

  lemma JoinedIsContained(tokens: seq<string>, values: map<string, string>, s: string, i: nat, j: nat, t: string)
    requires Tokens(tokens) && t in tokens && Joins(tokens, values, s, i, j, t)
    ensures Contains(Substitute(tokens, values, s), t)
  {
    var front, back := s[..i], s[i..];
    assert s == front + back && back[0] == '{';
    assert back[0..j - i + 1] == s[i..j + 1] && back[1..j - i] == s[i + 1..j];
    JoinStartsToken(tokens, values, back, j - i, t);
    SubstituteBeforeOpen(tokens, values, front, back);
    ContainedAt(Substitute(tokens, values, front), t, Substitute(tokens, values, back[j - i + 1..]), Substitute(tokens, values, s));
  }

  lemma ContainedAt(a: string, t: string, b: string, s: string)
    requires s == a + (t + b)
    ensures Contains(s, t)
  {
    assert s[|a|..] == t + b;
  }

  lemma FreeTokenIsContained(tokens: seq<string>, values: map<string, string>, s: string, t: string)
    requires Tokens(tokens) && t in tokens && t !in values && Contains(s, t)
    ensures Contains(Substitute(tokens, values, s), t)
  {
    var i :| 0 <= i <= |s| && t <= s[i..];
    var rest := s[i + |t|..];
    assert IsToken(t) && s[i..] == t + rest && s == s[..i] + s[i..];
    FreeTokenSurvives(tokens, values, t, rest);
    SubstituteBeforeOpen(tokens, values, s[..i], s[i..]);
    ContainedAt(Substitute(tokens, values, s[..i]), t, Substitute(tokens, values, rest), Substitute(tokens, values, s));
  }

  // ----- A token in the expansion is a free one or a joined one -----

  /** Where the "}" comes from that closes a name in the expansion. */
  lemma {:induction false} FindClose(tokens: seq<string>, values: map<string, string>, s: string, name: string) returns (j: nat)
    requires Tokens(tokens) && BraceFreeValues(values) && BraceFree(name)
    requires name + "}" <= Substitute(tokens, values, s)
    ensures j < |s| && s[j] == '}' && Substitute(tokens, values, s[..j]) == name
    decreases |s|
  {
    var (out, rest) := Step(tokens, values, s);
    var e := Substitute(tokens, values, s);
    assert e[|name|] == '}';
    if Replaceable(tokens, values, s) {
      var t := TokenAt(tokens, s).value;
      NameAfter(name, out, Substitute(tokens, values, rest));
      hide TokenAt, IsToken, Tokens, Substitute;
      var n := FindClose(tokens, values, rest, name[|out|..]);
      j := |t| + n;
      assert s[..j] == t + rest[..n];
      SubstituteToken(tokens, values, t, rest[..n]);
      assert name == out + name[|out|..];
    } else if name == "" {
      j := 0;
      assert s[..0] == "";
    } else {
      assert e[0] == (name + "}")[0] == name[0] && name[0] in name;
      assert out == [s[0]] && s[0] == e[0];
      NameAfter(name, out, Substitute(tokens, values, rest));
      hide TokenAt, IsToken, Tokens, Substitute;
      var n := FindClose(tokens, values, rest, name[1..]);
      j := n + 1;
      assert s[..j][1..] == rest[..n];
      if Replaceable(tokens, values, s[..j]) {
        PrefixIsReplaceable(tokens, values, s, j);
      }
      CopiedChar(tokens, values, s[..j]);
      assert name == out + name[1..];
    }
  }

  lemma NameAfter(name: string, out: string, e: string)
    requires name + "}" <= out + e && '}' !in out && BraceFree(name)
    ensures |out| <= |name| && out == name[..|out|]
    ensures BraceFree(name[|out|..]) && name[|out|..] + "}" <= e
  {
    var whole := out + e;
    assert whole[|name|] == '}';
    assert |out| <= |name|;
    assert out == whole[..|out|] == name[..|out|];
    assert whole[|out|..] == e;
  }

  lemma OpenStartsToken(tokens: seq<string>, values: map<string, string>, s: string, t: string)
    requires Tokens(tokens) && BraceFreeValues(values) && t in tokens
    requires s != "" && !Replaceable(tokens, values, s) && t <= Substitute(tokens, values, s)
    ensures (t !in values && t <= s) || exists j: nat :: Joins(tokens, values, s, 0, j, t)
  {
    var name := NameOf(tokens, t);
    var e := Substitute(tokens, values, s[1..]);
    assert Substitute(tokens, values, s) == [s[0]] + e;
    TailOfPrefix('{', name + "}", s[0], e);
    var n := FindClose(tokens, values, s[1..], name);
    OpenedAndClosed(tokens, values, s, n, t);
  }

  lemma TailOfPrefix(c: char, tail: string, d: char, e: string)
    requires [c] + tail <= [d] + e
    ensures c == d && tail <= e
  {
    var x, y := [c] + tail, [d] + e;
    assert x[0] == y[0] && x[1..] == tail && y[1..] == e;
  }

  lemma OpenedAndClosed(tokens: seq<string>, values: map<string, string>, s: string, n: nat, t: string)
    requires Tokens(tokens) && t in tokens && n + 1 < |s| && s[0] == '{' && s[n + 1] == '}'
    requires !Replaceable(tokens, values, s) && "{" + (Substitute(tokens, values, s[1..][..n]) + "}") == t
    ensures (t !in values && t <= s) || exists j: nat :: Joins(tokens, values, s, 0, j, t)
  {
    var inner, u := s[1..][..n], s[..n + 2];
    assert s[1..n + 1] == inner && u == "{" + inner + "}" && s[0..n + 2] == u;
    hide Substitute, TokenAt, IsToken;
    if u in tokens {
      InnerIsName(tokens, values, inner, u);
      TokenAtIs(tokens, u, s);
      assert u == t;
    } else {
      assert Joins(tokens, values, s, 0, n + 1, t);
    }
  }

  lemma NameOf(tokens: seq<string>, t: string) returns (name: string)
    requires Tokens(tokens) && t in tokens
    ensures t == "{" + (name + "}") && BraceFree(name)
  {
    assert IsToken(t);
    name := t[1..|t| - 1];
  }

  lemma InnerIsName(tokens: seq<string>, values: map<string, string>, inner: string, u: string)
    requires Tokens(tokens) && u in tokens && u == "{" + inner + "}"
    ensures Substitute(tokens, values, inner) == inner
  {
    assert IsToken(u) && forall k :: 0 <= k < |inner| ==> inner[k] == u[k + 1];
    SubstituteCopies(tokens, values, inner, "");
    assert inner + "" == inner;
  }

  lemma JoinsShifted(tokens: seq<string>, values: map<string, string>, s: string, k: nat, i: nat, j: nat, t: string)
    requires k <= i && Joins(tokens, values, s, i, j, t)
    ensures JoinsTo(tokens, values, s[k..], t)
  {
    hide Substitute;
    var rest := s[k..];
    assert rest[i - k..j - k + 1] == s[i..j + 1];
    assert rest[i - k + 1..j - k] == s[i + 1..j];
    assert Joins(tokens, values, rest, i - k, j - k, t);
  }

  lemma JoinsLater(tokens: seq<string>, values: map<string, string>, s: string, k: nat, t: string)
    requires k <= |s| && JoinsTo(tokens, values, s[k..], t)
    ensures JoinsTo(tokens, values, s, t)
  {
    var i: nat, j: nat :| Joins(tokens, values, s[k..], i, j, t);
    assert s[k..][i..j + 1] == s[i + k..j + k + 1] && s[k..][i + 1..j] == s[i + k + 1..j + k];
    assert Joins(tokens, values, s, i + k, j + k, t);
  }

  lemma ContainsLater(s: string, k: nat, t: string)
    requires k <= |s| && Contains(s[k..], t)
    ensures Contains(s, t)
  {
    ContainsSuffix(s[..k], s[k..], t);
    assert s == s[..k] + s[k..];
  }

  lemma NotContainedLater(s: string, k: nat, t: string)
    requires k <= |s| && !Contains(s, t)
    ensures !Contains(s[k..], t)
  {
    if Contains(s[k..], t) {
      ContainsLater(s, k, t);
    }
  }

  lemma {:induction false} ContainedIsJoinedOrFree(tokens: seq<string>, values: map<string, string>, s: string, t: string)
    requires Tokens(tokens) && BraceFreeValues(values) && t in tokens
    requires Contains(Substitute(tokens, values, s), t)
    ensures JoinsTo(tokens, values, s, t) || (t !in values && Contains(s, t))
    decreases |s|
  {
    var (out, rest) := Step(tokens, values, s);
    var k := |s| - |rest|;
    ContainedNowOrLater(tokens, values, s, t);
    hide IsToken, TokenAt, Contains, Substitute;
    if Contains(Substitute(tokens, values, rest), t) {
      assert rest == s[k..];
      ContainedIsJoinedOrFree(tokens, values, rest, t);
      if JoinsTo(tokens, values, rest, t) {
        JoinsLater(tokens, values, s, k, t);
      } else {
        ContainsLater(s, k, t);
      }
    } else {
      OpenStartsToken(tokens, values, s, t);
      if t <= s {
        ContainedAt("", t, s[|t|..], s);
      }
    }
  }

  lemma ContainedNowOrLater(tokens: seq<string>, values: map<string, string>, s: string, t: string)
    requires Tokens(tokens) && BraceFreeValues(values) && t in tokens
    requires Contains(Substitute(tokens, values, s), t)
    ensures s != ""
    ensures Contains(Substitute(tokens, values, Step(tokens, values, s).1), t) ||
            (!Replaceable(tokens, values, s) && t <= Substitute(tokens, values, s))
  {
    assert IsToken(t);
    var (out, rest) := Step(tokens, values, s);
    hide IsToken, TokenAt, Substitute, Tokens;
    var e := Substitute(tokens, values, rest);
    var p :| 0 <= p <= |out + e| && t <= (out + e)[p..];
    if p < |out| {
      assert (out + e)[p] == out[p] == t[0];
      assert p == 0;
      assert (out + e)[0..] == out + e;
    } else {
      assert (out + e)[p..] == e[p - |out|..];
    }
  }

  /** What tokens an expansion has, when no value has a brace: those the template has and that have
      no value, and those a brace pair of the template that is no token joins to. */
  lemma ExpansionContainsExact(tokens: seq<string>, values: map<string, string>, s: string, t: string)
    requires Tokens(tokens) && BraceFreeValues(values) && t in tokens
    ensures Contains(Substitute(tokens, values, s), t) <==>
            JoinsTo(tokens, values, s, t) || (t !in values && Contains(s, t))
  {
    if Contains(Substitute(tokens, values, s), t) {
      ContainedIsJoinedOrFree(tokens, values, s, t);
    } else if JoinsTo(tokens, values, s, t) {
      var i: nat, j: nat :| Joins(tokens, values, s, i, j, t);
      JoinedIsContained(tokens, values, s, i, j, t);
    } else if t !in values && Contains(s, t) {
      FreeTokenIsContained(tokens, values, s, t);
    }
  }

  // ----- Expanding in two stages -----

  /** A brace pair joins to a token that all has a value for. */
  ghost predicate JoinsAny(tokens: seq<string>, sub: map<string, string>, all: map<string, string>, s: string) {
    exists t :: t in tokens && t in all && JoinsTo(tokens, sub, s, t)
  }

  lemma JoinsAnyLater(tokens: seq<string>, sub: map<string, string>, all: map<string, string>, s: string, k: nat)
    requires k <= |s| && JoinsAny(tokens, sub, all, s[k..])
    ensures JoinsAny(tokens, sub, all, s)
  {
    var t :| t in tokens && t in all && JoinsTo(tokens, sub, s[k..], t);
    JoinsLater(tokens, sub, s, k, t);
  }

  /** Text that sub copies at its start and that all does not replace there: the two-stage
      expansion copies it too, unless a brace pair joins. */
  lemma CopiedTwice(tokens: seq<string>, sub: map<string, string>, all: map<string, string>, s: string)
    requires Tokens(tokens) && BraceFreeValues(sub) && s != ""
    requires !Replaceable(tokens, sub, s) && !Replaceable(tokens, all, s)
    requires Replaceable(tokens, all, Substitute(tokens, sub, s))
    ensures exists t, j: nat :: t in tokens && t in all && Joins(tokens, sub, s, 0, j, t)
  {
    var t := TokenAt(tokens, Substitute(tokens, sub, s)).value;
    OpenStartsToken(tokens, sub, s, t);
    if t <= s {
      TokenAtIs(tokens, t, s);
    }
  }

  lemma {:induction false} TwoStages(tokens: seq<string>, sub: map<string, string>, all: map<string, string>, s: string)
    requires Tokens(tokens) && Agrees(sub, all) && BraceFreeValues(sub) && !JoinsAny(tokens, sub, all, s)
    ensures Substitute(tokens, all, Substitute(tokens, sub, s)) == Substitute(tokens, all, s)
    decreases |s|
  {
    if s != "" {
      var k := if Replaceable(tokens, all, s) then |TokenAt(tokens, s).value| else 1;
      var rest := s[k..];
      if JoinsAny(tokens, sub, all, rest) {
        JoinsAnyLater(tokens, sub, all, s, k);
      }
      TwoStages(tokens, sub, all, rest);
      var e := Substitute(tokens, sub, rest);
      if Replaceable(tokens, all, s) {
        var t := TokenAt(tokens, s).value;
        assert s == t + rest;
        if t in sub {
          SubstituteToken(tokens, sub, t, rest);
          SubstituteCopies(tokens, all, sub[t], e);
        } else {
          FreeTokenSurvives(tokens, sub, t, rest);
          SubstituteToken(tokens, all, t, e);
        }
      } else {
        assert Substitute(tokens, sub, s) == [s[0]] + e;
        if Replaceable(tokens, all, [s[0]] + e) {
          CopiedTwice(tokens, sub, all, s);
        }
        assert ([s[0]] + e)[1..] == e;
      }
    }
  }

  /** More values, for tokens the text does not mention, change nothing. */
  lemma {:induction false} UnmentionedValues(tokens: seq<string>, sub: map<string, string>, all: map<string, string>, s: string)
    requires Tokens(tokens) && Agrees(sub, all)
    requires forall t :: t in tokens && t !in sub ==> !Contains(s, t)
    ensures Substitute(tokens, all, s) == Substitute(tokens, sub, s)
    decreases |s|
  {
    if s != "" {
      assert s[0..] == s;
      var (out, rest) := Step(tokens, sub, s);
      var k := |s| - |rest|;
      assert rest == s[k..];
      forall t | t in tokens && t !in sub ensures !Contains(rest, t) {
        NotContainedLater(s, k, t);
      }
      UnmentionedValues(tokens, sub, all, rest);
    }
  }

  // ----- Counting what is left open -----

  function Opens(s: string): nat {
    if s == "" then 0 else (if s[0] == '{' then 1 else 0) + Opens(s[1..])
  }

  /** How many tokens with a value s has. */
  function Hits(tokens: seq<string>, values: map<string, string>, s: string): nat {
    if s == "" then 0 else (if Replaceable(tokens, values, s) then 1 else 0) + Hits(tokens, values, s[1..])
  }

  lemma {:induction false} CountsPast(tokens: seq<string>, values: map<string, string>, a: string, b: string)
    requires Tokens(tokens) && '{' !in a
    ensures Opens(a + b) == Opens(b) && Hits(tokens, values, a + b) == Hits(tokens, values, b)
    decreases |a|
  {
    if a == "" {
      assert a + b == b;
    } else {
      assert (a + b)[1..] == a[1..] + b;
      CountsPast(tokens, values, a[1..], b);
    }
  }

  lemma CountsToken(tokens: seq<string>, values: map<string, string>, t: string, rest: string)
    requires Tokens(tokens) && t in tokens
    ensures Opens(t + rest) == 1 + Opens(rest)
    ensures Hits(tokens, values, t + rest) == (if t in values then 1 else 0) + Hits(tokens, values, rest)
  {
    assert IsToken(t);
    assert (t + rest)[1..] == t[1..] + rest;
    TokenAtIs(tokens, t, t + rest);
    CountsPast(tokens, values, t[1..], rest);
  }

  lemma {:induction false} OpensLeft(tokens: seq<string>, values: map<string, string>, s: string)
    requires Tokens(tokens) && BraceFreeValues(values)
    ensures Opens(Substitute(tokens, values, s)) == Opens(s) - Hits(tokens, values, s)
    decreases |s|
  {
    if s != "" {
      var (out, rest) := Step(tokens, values, s);
      OpensLeft(tokens, values, rest);
      hide TokenAt, IsToken, Tokens, Substitute;
      var e := Substitute(tokens, values, rest);
      if Replaceable(tokens, values, s) {
        var t := TokenAt(tokens, s).value;
        assert s == t + rest;
        CountsToken(tokens, values, t, rest);
        CountsPast(tokens, values, out, e);
      } else {
        assert (out + e)[1..] == e;
      }
    }
  }

  /** Expanding with sub takes no more values from all than it gives, and takes fewer when a brace
      pair joins. */
  lemma {:induction false} HitsLeft(tokens: seq<string>, sub: map<string, string>, all: map<string, string>, s: string)
    requires Tokens(tokens) && Agrees(sub, all) && BraceFreeValues(sub)
    ensures var e := Substitute(tokens, sub, s);
            Hits(tokens, all, e) + Hits(tokens, sub, s) >= Hits(tokens, all, s) + if JoinsAny(tokens, sub, all, s) then 1 else 0
    decreases |s|
  {
    if s != "" {
      var k := if Replaceable(tokens, all, s) then |TokenAt(tokens, s).value| else 1;
      var rest := s[k..];
      HitsLeft(tokens, sub, all, rest);
      var e := Substitute(tokens, sub, rest);
      if Replaceable(tokens, all, s) {
        var t := TokenAt(tokens, s).value;
        assert s == t + rest;
        if JoinsAny(tokens, sub, all, s) {
          TokenJoinsLater(tokens, sub, all, t, rest);
        }
        CountsToken(tokens, all, t, rest);
        CountsToken(tokens, sub, t, rest);
        if t in sub {
          SubstituteToken(tokens, sub, t, rest);
          CountsPast(tokens, all, sub[t], e);
        } else {
          FreeTokenSurvives(tokens, sub, t, rest);
          CountsToken(tokens, all, t, e);
        }
      } else {
        assert Substitute(tokens, sub, s) == [s[0]] + e;
        assert ([s[0]] + e)[1..] == e;
        if JoinsAny(tokens, sub, all, s) {
          JoinsNowOrLater(tokens, sub, all, s);
        }
      }
    }
  }

  /** A pair that joins starts outside every token. */
  lemma TokenJoinsLater(tokens: seq<string>, sub: map<string, string>, all: map<string, string>, t: string, rest: string)
    requires Tokens(tokens) && t in tokens && JoinsAny(tokens, sub, all, t + rest)
    ensures JoinsAny(tokens, sub, all, rest)
  {
    var u :| u in tokens && u in all && JoinsTo(tokens, sub, t + rest, u);
    var i: nat, j: nat :| Joins(tokens, sub, t + rest, i, j, u);
    PairPastToken(tokens, sub, t, rest, i, j, u);
  }

  lemma PairPastToken(tokens: seq<string>, values: map<string, string>, t: string, rest: string, i: nat, j: nat, u: string)
    requires Tokens(tokens) && t in tokens && u in tokens && Joins(tokens, values, t + rest, i, j, u)
    ensures JoinsTo(tokens, values, rest, u)
  {
    var s, n := t + rest, |t|;
    if i < n {
      assert IsToken(t) && s[i] == t[i];
      TokenAtIs(tokens, t, s);
      JoinIsNoToken(tokens, values, s, j, u);
    } else {
      hide IsToken;
      assert rest == s[n..];
      JoinsShifted(tokens, values, s, n, i, j, u);
    }
  }

  lemma JoinsNowOrLater(tokens: seq<string>, sub: map<string, string>, all: map<string, string>, s: string)
    requires Tokens(tokens) && s != "" && JoinsAny(tokens, sub, all, s)
    ensures JoinsAny(tokens, sub, all, s[1..]) || Replaceable(tokens, all, Substitute(tokens, sub, s))
  {
    var t :| t in tokens && t in all && JoinsTo(tokens, sub, s, t);
    var i: nat, j: nat :| Joins(tokens, sub, s, i, j, t);
    if i > 0 {
      JoinsShifted(tokens, sub, s, 1, i, j, t);
    } else {
      JoinStartsToken(tokens, sub, s, j, t);
      TokenAtIs(tokens, t, Substitute(tokens, sub, s));
    }
  }

  /** Expanding with some of the values first changes nothing exactly when no brace pair joins to a
      token there is a value for. Where none does, the values may have braces of their own. */
  lemma TwoStagesExact(tokens: seq<string>, sub: map<string, string>, all: map<string, string>, s: string)
    requires Tokens(tokens) && Agrees(sub, all) && BraceFreeValues(all)
    ensures Substitute(tokens, all, Substitute(tokens, sub, s)) == Substitute(tokens, all, s) <==>
            !JoinsAny(tokens, sub, all, s)
  {
    assert BraceFreeValues(sub);
    if JoinsAny(tokens, sub, all, s) {
      OpensLeft(tokens, all, Substitute(tokens, sub, s));
      OpensLeft(tokens, sub, s);
      OpensLeft(tokens, all, s);
      HitsLeft(tokens, sub, all, s);
    } else {
      TwoStages(tokens, sub, all, s);
    }
  }

  /** So expanding twice is expanding once exactly when no brace pair joins. */
  lemma IdempotentExact(tokens: seq<string>, values: map<string, string>, s: string)
    requires Tokens(tokens) && BraceFreeValues(values)
    ensures Substitute(tokens, values, Substitute(tokens, values, s)) == Substitute(tokens, values, s) <==>
            !JoinsAny(tokens, values, values, s)
  {
    TwoStagesExact(tokens, values, values, s);
  }
}
