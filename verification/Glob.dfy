/** Go's path.Match as the relation its documentation describes, and config.MatchGlob, which
    runs it on the pattern with every backslash doubled. */
module Glob {
  import opened Text

  datatype Range = Range(lo: char, hi: char)

  /** One term of a pattern. */
  datatype Elem = Lit(c: char) | AnyOne | Star | Class(negated: bool, ranges: seq<Range>)

  predicate InRanges(ranges: seq<Range>, c: char) {
    exists r :: r in ranges && r.lo <= c <= r.hi
  }

  /** Whether a term that stands for a single character accepts c. A class, unlike "?",
      is not kept from matching "/". */
  predicate Accepts(e: Elem, c: char) {
    match e
    case Lit(d) => c == d
    case AnyOne => c != '/'
    case Star => false
    case Class(negated, ranges) => InRanges(ranges, c) != negated
  }

  /** The terms match all of name, not just a part of it. */
  predicate Matches(es: seq<Elem>, name: string)
    decreases |es|
  {
    if es == [] then name == ""
    else if es[0].Star? then
      exists k :: 0 <= k <= |name| && '/' !in name[..k] && Matches(es[1..], name[k..])
    else
      name != "" && Accepts(es[0], name[0]) && Matches(es[1..], name[1..])
  }

  /** One possibly escaped character of a class. At least one character must follow it. */
  function ClassChar(escapes: bool, s: string): (r: Option<(char, string)>)
    ensures r.Some? ==> 0 < |r.value.1| < |s|
  {
    if s == "" || s[0] == '-' || s[0] == ']' then None
    else if escapes && s[0] == '\\' then
      if |s| <= 2 then None else Some((s[1], s[2..]))
    else
      if |s| == 1 then None else Some((s[0], s[1..]))
  }

  /** The ranges of a class up to its "]", and what follows it. A "]" before the first range
      is an error, as is a class that is never closed. */
  function ParseRanges(escapes: bool, s: string, started: bool): (r: Option<(seq<Range>, string)>)
    ensures r.Some? ==> |r.value.1| < |s|
    decreases |s|
  {
    if started && s != "" && s[0] == ']' then Some(([], s[1..]))
    else
      match ClassChar(escapes, s)
      case None => None
      case Some((lo, t)) =>
        var hi := if t[0] == '-' then ClassChar(escapes, t[1..]) else Some((lo, t));
        match hi
        case None => None
        case Some((h, u)) =>
          match ParseRanges(escapes, u, true)
          case None => None
          case Some((rs, rest)) => Some(([Range(lo, h)] + rs, rest))
  }

  predicate NegatedClass(s: string) {
    |s| > 1 && s[1] == '^'
  }

  function ClassBody(s: string): (b: string)
    requires s != ""
    ensures |b| < |s|
  {
    if NegatedClass(s) then s[2..] else s[1..]
  }

  /** The first term of a non-empty pattern and what follows it. */
  function Term(escapes: bool, s: string): (r: Option<(Elem, string)>)
    requires s != ""
    ensures r.Some? ==> |r.value.1| < |s|
  {
    if s[0] == '*' then Some((Star, s[1..]))
    else if s[0] == '?' then Some((AnyOne, s[1..]))
    else if s[0] == '[' then
      match ParseRanges(escapes, ClassBody(s), false)
      case None => None
      case Some((rs, rest)) => Some((Class(NegatedClass(s), rs), rest))
    else if escapes && s[0] == '\\' then
      if |s| == 1 then None else Some((Lit(s[1]), s[2..]))
    else Some((Lit(s[0]), s[1..]))
  }

  /** The pattern grammar. With escapes a backslash quotes the next character, which is
      path.Match's own syntax. Without, it is an ordinary character everywhere. None is
      path.ErrBadPattern. */
  function Parse(escapes: bool, s: string): Option<seq<Elem>>
    decreases |s|
  {
    if s == "" then Some([])
    else
      match Term(escapes, s)
      case None => None
      case Some((e, rest)) =>
        match Parse(escapes, rest)
        case None => None
        case Some(es) => Some([e] + es)
  }

  /** path.Match. */
  function PathMatch(pattern: string, name: string): Option<bool> {
    match Parse(true, pattern)
    case None => None
    case Some(es) => Some(Matches(es, name))
  }

  /** strings.ReplaceAll(s, `\`, `\\`). */
  function DoubleBackslashes(s: string): string {
    if s == "" then ""
    else (if s[0] == '\\' then "\\\\" else [s[0]]) + DoubleBackslashes(s[1..])
  }

  /** config.MatchGlob. */
  function MatchGlob(pattern: string, name: string): Option<bool> {
    PathMatch(DoubleBackslashes(pattern), name)
  }

  predicate IsLiteralGlob(glob: string) {
    '*' !in glob && '?' !in glob && '[' !in glob
  }

  // ----- The doubled backslash is an ordinary backslash -----

  lemma ClassCharDoubled(s: string)
    ensures ClassChar(true, DoubleBackslashes(s)) ==
            match ClassChar(false, s)
            case None => None
            case Some((c, t)) => Some((c, DoubleBackslashes(t)))
  {
    if s != "" {
      var d, tail := DoubleBackslashes(s), DoubleBackslashes(s[1..]);
      DoubledEmpty(s[1..]);
      if s[0] == '\\' {
        assert d == "\\\\" + tail;
        assert d[2..] == tail;
      } else {
        assert d == [s[0]] + tail;
        assert d[1..] == tail;
      }
    }
  }

  lemma DoubledEmpty(s: string)
    ensures DoubleBackslashes(s) == "" <==> s == ""
    ensures s != "" ==> DoubleBackslashes(s)[0] == s[0]
    ensures s != "" && s[0] != '\\' ==> DoubleBackslashes(s)[1..] == DoubleBackslashes(s[1..])
  {
  }

  lemma {:induction false} ParseRangesDoubled(s: string, started: bool)
    ensures ParseRanges(true, DoubleBackslashes(s), started) ==
            match ParseRanges(false, s, started)
            case None => None
            case Some((rs, rest)) => Some((rs, DoubleBackslashes(rest)))
    decreases |s|
  {
    DoubledEmpty(s);
    if started && s != "" && s[0] == ']' {
    } else {
      ClassCharDoubled(s);
      match ClassChar(false, s)
      case None =>
      case Some((lo, t)) =>
        DoubledEmpty(t);
        if t[0] == '-' {
          ClassCharDoubled(t[1..]);
          match ClassChar(false, t[1..])
          case None =>
          case Some((hi, u)) => ParseRangesDoubled(u, true);
        } else {
          ParseRangesDoubled(t, true);
        }
    }
  }

  lemma ClassBodyDoubled(s: string)
    requires s != "" && s[0] == '['
    ensures var d := DoubleBackslashes(s);
            d != "" && NegatedClass(d) == NegatedClass(s) && ClassBody(d) == DoubleBackslashes(ClassBody(s))
  {
    DoubledEmpty(s);
    DoubledEmpty(s[1..]);
    var d := DoubleBackslashes(s);
    if NegatedClass(s) {
      assert s[1..][1..] == s[2..];
      assert d[1..][1..] == d[2..];
    }
  }

  lemma TermDoubled(s: string)
    requires s != ""
    ensures DoubleBackslashes(s) != ""
    ensures Term(true, DoubleBackslashes(s)) ==
            match Term(false, s)
            case None => None
            case Some((e, rest)) => Some((e, DoubleBackslashes(rest)))
  {
    var d := DoubleBackslashes(s);
    DoubledEmpty(s);
    if s[0] == '[' {
      ClassBodyDoubled(s);
      ParseRangesDoubled(ClassBody(s), false);
    } else if s[0] == '\\' {
      assert d[2..] == DoubleBackslashes(s[1..]);
    }
  }

  lemma {:induction false} ParseDoubled(s: string)
    ensures Parse(true, DoubleBackslashes(s)) == Parse(false, s)
    decreases |s|
  {
    if s != "" {
      TermDoubled(s);
      match Term(false, s)
      case None =>
      case Some((e, rest)) => ParseDoubled(rest);
    }
  }

  /** MatchGlob is the glob semantics in which backslash is an ordinary character, inside
      classes and outside, for every pattern and every name. */
  lemma MatchGlobBackslashIsOrdinary(pattern: string, name: string)
    ensures MatchGlob(pattern, name) ==
            match Parse(false, pattern)
            case None => None
            case Some(es) => Some(Matches(es, name))
  {
    ParseDoubled(pattern);
  }

  // ----- Literal globs and literal heads -----

  function Lits(s: string): seq<Elem> {
    seq(|s|, i requires 0 <= i < |s| => Lit(s[i]))
  }

  /** A literal head parses to its characters. */
  lemma {:induction false} ParseLiteralHead(head: string, rest: string)
    requires IsLiteralGlob(head)
    ensures Parse(false, head + rest) ==
            match Parse(false, rest)
            case None => None
            case Some(es) => Some(Lits(head) + es)
    decreases |head|
  {
    if head == "" {
      assert head + rest == rest;
      assert forall es: seq<Elem> :: Lits("") + es == es;
    } else {
      var all := head + rest;
      assert all[1..] == head[1..] + rest;
      assert Term(false, all) == Some((Lit(head[0]), head[1..] + rest));
      ParseLiteralHead(head[1..], rest);
      assert Lits(head) == [Lit(head[0])] + Lits(head[1..]);
      match Parse(false, rest)
      case None =>
      case Some(es) => assert [Lit(head[0])] + (Lits(head[1..]) + es) == Lits(head) + es;
    }
  }

  lemma {:induction false} MatchesLiteralHead(head: string, es: seq<Elem>, name: string)
    ensures Matches(Lits(head) + es, name) <==> head <= name && Matches(es, name[|head|..])
    decreases |head|
  {
    if head == "" {
      assert Lits(head) + es == es;
      assert name[|head|..] == name;
    } else {
      assert (Lits(head) + es)[1..] == Lits(head[1..]) + es;
      if name != "" {
        MatchesLiteralHead(head[1..], es, name[1..]);
        assert name == [name[0]] + name[1..] && head == [head[0]] + head[1..];
        if |head| <= |name| {
          assert name[1..][|head[1..]|..] == name[|head|..];
        }
      }
    }
  }

  /** A glob without "*", "?" or "[" is valid and matches exactly itself. */
  lemma LiteralGlobMatchesItself(glob: string, name: string)
    requires IsLiteralGlob(glob)
    ensures MatchGlob(glob, name) == Some(name == glob)
  {
    MatchGlobBackslashIsOrdinary(glob, name);
    ParseLiteralHead(glob, "");
    assert glob + "" == glob;
    assert Lits(glob) + [] == Lits(glob);
    MatchesLiteralHead(glob, [], name);
    assert glob <= name ==> name == glob + name[|glob|..];
  }

  lemma {:induction false} ParseRangesMore(s: string, more: string, started: bool)
    requires ParseRanges(false, s, started).Some?
    ensures ParseRanges(false, s + more, started) ==
            var r := ParseRanges(false, s, started).value; Some((r.0, r.1 + more))
    decreases |s|
  {
    var all := s + more;
    if started && s != "" && s[0] == ']' {
      assert all[1..] == s[1..] + more;
    } else {
      var (lo, t) := ClassChar(false, s).value;
      assert all[1..] == t + more;
      if t[0] == '-' {
        var (hi, u) := ClassChar(false, t[1..]).value;
        assert (t + more)[1..] == t[1..] + more;
        assert (t[1..] + more)[1..] == u + more;
        ParseRangesMore(u, more, true);
      } else {
        ParseRangesMore(t, more, true);
      }
    }
  }

  lemma TermMore(s: string, more: string)
    requires s != "" && Term(false, s).Some?
    ensures Term(false, s + more) == Some((Term(false, s).value.0, Term(false, s).value.1 + more))
  {
    var all := s + more;
    assert all[0] == s[0] && all[1..] == s[1..] + more;
    if s[0] == '[' {
      assert |s| > 1;
      assert ClassBody(all) == ClassBody(s) + more;
      ParseRangesMore(ClassBody(s), more, false);
    }
  }

  /** A glob that parses keeps its terms whatever is appended. */
  lemma {:induction false} ParseMore(s: string, more: string)
    requires Parse(false, s).Some? && Parse(false, more).Some?
    ensures Parse(false, s + more) == Some(Parse(false, s).value + Parse(false, more).value)
    decreases |s|
  {
    hide Term;
    if s == "" {
      assert s + more == more && Parse(false, s).value == [];
      assert [] + Parse(false, more).value == Parse(false, more).value;
    } else {
      TermMore(s, more);
      var (e, rest) := Term(false, s).value;
      ParseMore(rest, more);
      assert [e] + (Parse(false, rest).value + Parse(false, more).value) ==
             ([e] + Parse(false, rest).value) + Parse(false, more).value;
    }
  }

  // ----- Which names a glob can match -----

  /** What NewRequest accepts as a unit name or a credential ID. */
  predicate IsName(s: string) {
    s != "" && '/' !in s
  }

  /** Every term can stand for some text without "/". */
  ghost predicate Satisfiable(es: seq<Elem>) {
    forall i :: 0 <= i < |es| && !es[i].Star? ==> exists c :: c != '/' && Accepts(es[i], c)
  }

  /** Some term can only ever stand for the character c. */
  ghost predicate Forces(es: seq<Elem>, c: char) {
    exists i :: 0 <= i < |es| && !es[i].Star? && forall d :: d != '/' && Accepts(es[i], d) ==> d == c
  }

  /** Some term can stand for text with the character c. */
  ghost predicate Permits(es: seq<Elem>, c: char) {
    exists i :: 0 <= i < |es| && (es[i].Star? || Accepts(es[i], c))
  }

  lemma {:induction false} MatchedIsSatisfiable(es: seq<Elem>, name: string)
    requires Matches(es, name) && '/' !in name
    ensures Satisfiable(es)
    decreases |es|
  {
    if es != [] {
      if es[0].Star? {
        var k :| 0 <= k <= |name| && '/' !in name[..k] && Matches(es[1..], name[k..]);
        MatchedIsSatisfiable(es[1..], name[k..]);
      } else {
        MatchedIsSatisfiable(es[1..], name[1..]);
        assert name[0] != '/' && Accepts(es[0], name[0]);
      }
      assert forall i :: 0 < i < |es| ==> es[i] == es[1..][i - 1];
    }
  }

  lemma {:induction false} ForcedCharIsMatched(es: seq<Elem>, name: string, c: char)
    requires Matches(es, name) && '/' !in name && Forces(es, c)
    ensures c in name
    decreases |es|
  {
    var i :| 0 <= i < |es| && !es[i].Star? && forall d :: d != '/' && Accepts(es[i], d) ==> d == c;
    if i == 0 {
      assert name[0] == c;
    } else {
      assert es[1..][i - 1] == es[i];
      assert Forces(es[1..], c);
      if es[0].Star? {
        var k :| 0 <= k <= |name| && '/' !in name[..k] && Matches(es[1..], name[k..]);
        ForcedCharIsMatched(es[1..], name[k..], c);
      } else {
        ForcedCharIsMatched(es[1..], name[1..], c);
      }
    }
  }

  lemma {:induction false} MatchedCharIsPermitted(es: seq<Elem>, name: string, c: char)
    requires Matches(es, name) && c in name
    ensures Permits(es, c)
    decreases |es|
  {
    if !es[0].Star? && name[0] != c {
      MatchedCharIsPermitted(es[1..], name[1..], c);
      var i :| 0 <= i < |es[1..]| && (es[1..][i].Star? || Accepts(es[1..][i], c));
      assert es[i + 1] == es[1..][i];
    }
  }

  /** A satisfiable glob that never forces c matches a name without c. */
  lemma {:induction false} NameWithout(es: seq<Elem>, c: char) returns (name: string)
    requires Satisfiable(es) && !Forces(es, c)
    ensures Matches(es, name) && '/' !in name && c !in name
    decreases |es|
  {
    if es == [] {
      name := "";
    } else {
      assert forall i :: 0 <= i < |es[1..]| ==> es[1..][i] == es[i + 1];
      var rest := NameWithout(es[1..], c);
      if es[0].Star? {
        name := rest;
        assert rest[..0] == "" && rest[0..] == rest;
      } else {
        var d :| d != '/' && Accepts(es[0], d) && d != c;
        name := [d] + rest;
      }
    }
  }

  lemma {:induction false} SomeName(es: seq<Elem>) returns (name: string)
    requires Satisfiable(es)
    ensures Matches(es, name) && '/' !in name
    decreases |es|
  {
    if es == [] {
      name := "";
    } else {
      assert forall i :: 0 <= i < |es[1..]| ==> es[1..][i] == es[i + 1];
      var rest := SomeName(es[1..]);
      if es[0].Star? {
        name := rest;
        assert rest[..0] == "" && rest[0..] == rest;
      } else {
        var d :| d != '/' && Accepts(es[0], d);
        name := [d] + rest;
      }
    }
  }

  /** A satisfiable glob that permits c matches a name with c. */
  lemma {:induction false} NameWith(es: seq<Elem>, c: char) returns (name: string)
    requires Satisfiable(es) && Permits(es, c) && c != '/'
    ensures Matches(es, name) && '/' !in name && c in name
    decreases |es|
  {
    assert forall i :: 0 <= i < |es[1..]| ==> es[1..][i] == es[i + 1];
    if es[0].Star? {
      var rest := SomeName(es[1..]);
      name := [c] + rest;
      assert name[..1] == [c] && name[1..] == rest;
    } else if Accepts(es[0], c) {
      var rest := SomeName(es[1..]);
      name := [c] + rest;
    } else {
      var i :| 0 <= i < |es| && (es[i].Star? || Accepts(es[i], c));
      assert es[1..][i - 1] == es[i];
      var rest := NameWith(es[1..], c);
      var d :| d != '/' && Accepts(es[0], d);
      name := [d] + rest;
    }
  }

  /** Some request could match the glob. */
  ghost predicate Matchable(glob: string) {
    match Parse(false, glob)
    case None => false
    case Some(es) => es != [] && Satisfiable(es)
  }

  /** Matchable is exactly "some name matches". */
  lemma MatchableExact(glob: string)
    ensures Matchable(glob) <==> exists name :: IsName(name) && MatchGlob(glob, name) == Some(true)
  {
    MatchGlobBackslashIsOrdinary(glob, "");
    if exists name :: IsName(name) && MatchGlob(glob, name) == Some(true) {
      var name :| IsName(name) && MatchGlob(glob, name) == Some(true);
      MatchGlobBackslashIsOrdinary(glob, name);
      MatchedIsSatisfiable(Parse(false, glob).value, name);
    }
    if Matchable(glob) {
      var name := NonEmptyName(Parse(false, glob).value);
      MatchGlobBackslashIsOrdinary(glob, name);
    }
  }

  lemma NonEmptyName(es: seq<Elem>) returns (name: string)
    requires es != [] && Satisfiable(es)
    ensures Matches(es, name) && IsName(name)
  {
    if es[0].Star? {
      assert Permits(es, 'a');
      name := NameWith(es, 'a');
    } else {
      name := SomeName(es);
    }
  }
}
