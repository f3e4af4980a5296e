/** What the usual forms of glob match, in terms of names alone. */
module GlobForms {
  import opened Text
  import opened Glob

  /** The terms of HEAD and TAIL around one term. */
  lemma ParseAround(head: string, term: string, e: Elem, tail: string)
    requires IsLiteralGlob(head) && IsLiteralGlob(tail) && term != ""
    requires Term(false, term + tail) == Some((e, tail))
    ensures Parse(false, head + (term + tail)) == Some(Lits(head) + ([e] + Lits(tail)))
  {
    ParseLiteralHead(tail, "");
    assert tail + "" == tail && Lits(tail) + [] == Lits(tail);
    assert Parse(false, "") == Some([]);
    ParseFirst(term + tail, e, tail);
    hide Parse;
    ParseLiteralHead(head, term + tail);
  }

  lemma ParseFirst(s: string, e: Elem, rest: string)
    requires s != "" && Term(false, s) == Some((e, rest))
    ensures Parse(false, s) == match Parse(false, rest)
                               case None => None
                               case Some(es) => Some([e] + es)
  {
  }

  lemma MatchesLits(s: string, name: string)
    ensures Matches(Lits(s), name) <==> name == s
  {
    MatchesLiteralHead(s, [], name);
    assert Lits(s) + [] == Lits(s);
    assert s <= name ==> name == s + name[|s|..];
  }

  /** One term for one character between literal texts. */
  lemma OneTermGlob(head: string, term: string, e: Elem, tail: string, name: string)
    requires IsLiteralGlob(head) && IsLiteralGlob(tail) && term != "" && !e.Star?
    requires Term(false, term + tail) == Some((e, tail))
    ensures MatchGlob(head + (term + tail), name) == Some(exists c :: Accepts(e, c) && name == head + ([c] + tail))
  {
    ParseAround(head, term, e, tail);
    MatchGlobBackslashIsOrdinary(head + (term + tail), name);
    MatchesLiteralHead(head, [e] + Lits(tail), name);
    hide Parse, MatchGlob, Accepts;
    if head <= name {
      OneTermMatches(e, tail, name[|head|..]);
      assert name == head + name[|head|..];
    }
    forall c | Accepts(e, c) && name == head + ([c] + tail) ensures head <= name && name[|head|..] == [c] + tail {
    }
  }

  lemma OneTermMatches(e: Elem, tail: string, name: string)
    requires !e.Star?
    ensures Matches([e] + Lits(tail), name) <==> exists c :: Accepts(e, c) && name == [c] + tail
  {
    hide Accepts, Lits;
    var es := [e] + Lits(tail);
    assert es[1..] == Lits(tail);
    if name != "" {
      MatchesLits(tail, name[1..]);
      assert name == [name[0]] + name[1..];
    }
  }

  /** HEAD?TAIL matches one character, not a slash, between them. */
  lemma QuestionGlob(head: string, tail: string, name: string)
    requires IsLiteralGlob(head) && IsLiteralGlob(tail)
    ensures MatchGlob(head + ("?" + tail), name) == Some(exists c :: c != '/' && name == head + ([c] + tail))
  {
    assert ("?" + tail)[1..] == tail;
    OneTermGlob(head, "?", AnyOne, tail, name);
  }

  /** HEAD*TAIL matches every name that starts with the one and ends with the other, without a slash
      between them. */
  lemma StarGlob(head: string, tail: string, name: string)
    requires IsLiteralGlob(head) && IsLiteralGlob(tail)
    ensures MatchGlob(head + ("*" + tail), name) == Some(exists mid :: '/' !in mid && name == head + (mid + tail))
  {
    assert ("*" + tail)[1..] == tail;
    ParseAround(head, "*", Star, tail);
    MatchGlobBackslashIsOrdinary(head + ("*" + tail), name);
    MatchesLiteralHead(head, [Star] + Lits(tail), name);
    hide Parse, MatchGlob;
    if head <= name {
      StarMatches(tail, name[|head|..]);
      assert name == head + name[|head|..];
    }
    forall mid | '/' !in mid && name == head + (mid + tail) ensures head <= name && name[|head|..] == mid + tail {
    }
  }

  lemma StarMatches(tail: string, name: string)
    ensures Matches([Star] + Lits(tail), name) <==> exists mid :: '/' !in mid && name == mid + tail
  {
    var es := [Star] + Lits(tail);
    assert es[1..] == Lits(tail);
    if Matches(es, name) {
      var k :| 0 <= k <= |name| && '/' !in name[..k] && Matches(es[1..], name[k..]);
      MatchesLits(tail, name[k..]);
      assert name == name[..k] + tail;
    }
    if mid :| '/' !in mid && name == mid + tail {
      StarTakes(mid, tail);
    }
  }

  lemma StarTakes(mid: string, tail: string)
    requires '/' !in mid
    ensures Matches([Star] + Lits(tail), mid + tail)
  {
    var es, name, k := [Star] + Lits(tail), mid + tail, |mid|;
    assert es[1..] == Lits(tail) && es[0].Star?;
    assert name[..k] == mid && name[k..] == tail;
    MatchesLits(tail, tail);
    hide Lits;
  }

  // ----- Classes -----

  predicate PlainInClass(c: char) {
    c != '-' && c != ']'
  }

  /** The text of a class body: LO-HI for each range. */
  function ClassText(ranges: seq<Range>): string {
    if ranges == [] then "" else [ranges[0].lo] + "-" + [ranges[0].hi] + ClassText(ranges[1..])
  }

  predicate PlainRanges(ranges: seq<Range>) {
    forall r :: r in ranges ==> PlainInClass(r.lo) && PlainInClass(r.hi)
  }

  lemma {:induction false} ParseClassText(ranges: seq<Range>, rest: string, started: bool)
    requires PlainRanges(ranges) && (started || ranges != [])
    ensures ParseRanges(false, ClassText(ranges) + ("]" + rest), started) == Some((ranges, rest))
    decreases |ranges|
  {
    var s := ClassText(ranges) + ("]" + rest);
    if ranges == [] {
      assert s == "]" + rest && s[1..] == rest;
    } else {
      var r, more := ranges[0], ClassText(ranges[1..]) + ("]" + rest);
      assert s == [r.lo] + ("-" + ([r.hi] + more));
      assert r in ranges && |more| > 0;
      assert s[0] == r.lo && s[1..] == "-" + ([r.hi] + more);
      assert s[1..][1..] == [r.hi] + more && ([r.hi] + more)[1..] == more;
      assert ClassChar(false, s) == Some((r.lo, s[1..]));
      assert ClassChar(false, s[1..][1..]) == Some((r.hi, more));
      ParseClassText(ranges[1..], rest, true);
      assert [r] + ranges[1..] == ranges;
    }
  }

  /** HEAD[LO-HI...]TAIL, and with "^" first: one character that is in one of the ranges, or in none. */
  lemma ClassGlob(head: string, negated: bool, ranges: seq<Range>, tail: string, name: string)
    requires IsLiteralGlob(head) && IsLiteralGlob(tail) && PlainRanges(ranges) && ranges != []
    requires ranges[0].lo != '^'
    ensures var term := (if negated then "[^" else "[") + ClassText(ranges) + "]";
            MatchGlob(head + (term + tail), name) ==
            Some(exists c :: (exists r :: r in ranges && r.lo <= c <= r.hi) != negated && name == head + ([c] + tail))
  {
    var open := if negated then "[^" else "[";
    var term, e := open + ClassText(ranges) + "]", Class(negated, ranges);
    ClassTerm(negated, ranges, tail);
    hide ParseRanges, ClassBody, NegatedClass, ClassText, Term, MatchGlob, PlainRanges, IsLiteralGlob;
    OneTermGlob(head, term, e, tail, name);
    forall c ensures Accepts(e, c) <==> (exists r :: r in ranges && r.lo <= c <= r.hi) != negated {
      ClassAccepts(negated, ranges, c);
    }
    hide Accepts;
  }

  lemma ClassAccepts(negated: bool, ranges: seq<Range>, c: char)
    ensures Accepts(Class(negated, ranges), c) <==> (exists r :: r in ranges && r.lo <= c <= r.hi) != negated
  {
  }

  lemma ClassTerm(negated: bool, ranges: seq<Range>, tail: string)
    requires PlainRanges(ranges) && ranges != [] && ranges[0].lo != '^'
    ensures var term := (if negated then "[^" else "[") + ClassText(ranges) + "]";
            Term(false, term + tail) == Some((Class(negated, ranges), tail))
  {
    var open := if negated then "[^" else "[";
    var text := ClassText(ranges);
    var s, body := open + text + "]" + tail, text + ("]" + tail);
    ConcatAssociates(open + text, "]", tail);
    ConcatAssociates(open, text, "]" + tail);
    assert s == open + body;
    ParseClassText(ranges, tail, false);
    assert text[0] == ranges[0].lo;
    hide ParseRanges, ClassText, PlainRanges;
    assert body[0] == ranges[0].lo && s[0] == '[';
    assert negated ==> s[1] == '^' && s[2..] == body;
    assert !negated ==> s[1] == body[0] && s[1..] == body;
  }

  /** A class that is never closed makes the glob malformed. */
  lemma UnclosedGlob(head: string, body: string, name: string)
    requires IsLiteralGlob(head) && ']' !in body
    ensures MatchGlob(head + ("[" + body), name) == None
  {
    var s := "[" + body;
    UnclosedRanges(ClassBody(s), false);
    assert Term(false, s) == None;
    assert Parse(false, s) == None;
    ParseLiteralHead(head, s);
    MatchGlobBackslashIsOrdinary(head + s, name);
  }

  lemma {:induction false} UnclosedRanges(s: string, started: bool)
    requires ']' !in s
    ensures ParseRanges(false, s, started) == None
    decreases |s|
  {
    match ClassChar(false, s)
    case None =>
    case Some((lo, t)) =>
      assert forall c :: c in t ==> c in s;
      if t[0] == '-' {
        assert forall c :: c in t[1..] ==> c in s;
        match ClassChar(false, t[1..])
        case None =>
        case Some((hi, u)) =>
          assert forall c :: c in u ==> c in t[1..];
          UnclosedRanges(u, true);
      } else {
        UnclosedRanges(t, true);
      }
  }

  /** A character outside any class that is no syntax is in every name the glob matches. A glob with
      one that no unit name has matches no unit. */
  lemma LiteralCharIsMatched(before: string, c: char, after: string, name: string)
    requires Parse(false, before).Some? && Parse(false, after).Some?
    requires c != '*' && c != '?' && c != '[' && '/' !in name
    requires MatchGlob(before + ([c] + after), name) == Some(true)
    ensures c in name
  {
    var rest := [c] + after;
    assert rest[1..] == after;
    ParseFirst(rest, Lit(c), after);
    hide Parse;
    ParseMore(before, rest);
    MatchGlobBackslashIsOrdinary(before + rest, name);
    var es := Parse(false, before).value + ([Lit(c)] + Parse(false, after).value);
    assert es[|Parse(false, before).value|] == Lit(c);
    ForcedCharIsMatched(es, name, c);
  }
}
