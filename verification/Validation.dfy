/** What validation accepts, in terms of the rule's text. */
module Validation {
  import opened Text
  import opened Glob
  import opened Template
  import opened NormalPaths
  import opened Config

  // ----- Characters of a unit glob -----

  /** What systemd writes unit names with, the backslash of its own escapes included. */
  predicate UnitNameChar(c: char) {
    'a' <= c <= 'z' || 'A' <= c <= 'Z' || '0' <= c <= '9' || c in ":-_.\\@"
  }

  lemma UnitGlobCharExact(c: char)
    ensures UnitGlobChar(c) <==> UnitNameChar(c) || c in "*?[]^"
  {
    var s, t := ":-_.\\@", "*?[]^";
    assert s[0] == ':' && s[1] == '-' && s[2] == '_' && s[3] == '.' && s[4] == '\\' && s[5] == '@';
    assert t[0] == '*' && t[1] == '?' && t[2] == '[' && t[3] == ']' && t[4] == '^';
  }

  // ----- Backslashes in classes -----

  predicate BackslashRange(rs: seq<Range>) {
    exists r :: r in rs && (r.lo == '\\' || r.hi == '\\')
  }

  predicate BackslashClass(es: seq<Elem>) {
    exists e :: e in es && e.Class? && BackslashRange(e.ranges)
  }

  /** The text of a class body: it has no "]", and its backslashes are range ends. */
  lemma {:induction false} RangesText(s: string, started: bool) returns (body: string)
    requires ParseRanges(false, s, started).Some?
    ensures s == body + ("]" + ParseRanges(false, s, started).value.1) && ']' !in body
    ensures '\\' in body <==> BackslashRange(ParseRanges(false, s, started).value.0)
    decreases |s|
  {
    if started && s != "" && s[0] == ']' {
      body := "";
      assert s == "]" + s[1..];
    } else {
      var head, u, r := FirstRange(s, started);
      hide ParseRanges, BackslashRange;
      var more := RangesText(u, true);
      var (rs, rest) := ParseRanges(false, u, true).value;
      RangeAdded(r, rs);
      body := head + more;
      NotInConcat(head, more, ']');
      InConcat(head, more, '\\');
      ConcatAssociates(head, more, "]" + rest);
    }
  }

  lemma NotInConcat(a: string, b: string, c: char)
    requires c !in a && c !in b
    ensures c !in a + b
  {
  }

  lemma InConcat(a: string, b: string, c: char)
    ensures c in a + b <==> c in a || c in b
  {
  }

  /** The first range of a class body and the text after it. */
  lemma FirstRange(s: string, started: bool) returns (head: string, u: string, r: Range)
    requires ParseRanges(false, s, started).Some? && !(started && s != "" && s[0] == ']')
    ensures s == head + u && |u| < |s| && ']' !in head
    ensures '\\' in head <==> r.lo == '\\' || r.hi == '\\'
    ensures ParseRanges(false, u, true).Some?
    ensures ParseRanges(false, s, started) ==
            Some(([r] + ParseRanges(false, u, true).value.0, ParseRanges(false, u, true).value.1))
  {
    var (lo, t) := ClassChar(false, s).value;
    assert s == [lo] + t;
    if t[0] == '-' {
      var (hi, v) := ClassChar(false, t[1..]).value;
      head, u, r := [lo] + "-" + [hi], v, Range(lo, hi);
      assert t == "-" + ([hi] + u);
    } else {
      head, u, r := [lo], t, Range(lo, lo);
    }
  }

  lemma RangeAdded(r: Range, rs: seq<Range>)
    ensures BackslashRange([r] + rs) <==> r.lo == '\\' || r.hi == '\\' || BackslashRange(rs)
  {
    var all := [r] + rs;
    assert all[0] == r;
    assert forall x :: x in all <==> x == r || x in rs;
  }

  lemma BackslashClassAdded(e: Elem, es: seq<Elem>)
    ensures BackslashClass([e] + es) <==> (e.Class? && BackslashRange(e.ranges)) || BackslashClass(es)
  {
    var all := [e] + es;
    assert all[0] == e;
    assert forall x :: x in all <==> x == e || x in es;
  }

  lemma ClassBackslashShifted(s: string, k: nat, i: nat, j: nat)
    requires k <= j < i < |s| && s[i] == '\\' && s[j] == '[' && ']' !in s[j..i]
    ensures HasClassBackslash(s[k..])
  {
    var t := s[k..];
    assert t[j - k] == '[' && t[j - k..i - k] == s[j..i];
    assert IsClassBackslash(t, i - k);
  }

  lemma ClassBackslashLater(s: string, k: nat)
    requires k <= |s| && HasClassBackslash(s[k..])
    ensures HasClassBackslash(s)
  {
    var t := s[k..];
    var i :| 0 <= i < |t| && IsClassBackslash(t, i);
    var j :| 0 <= j < i && t[j] == '[' && ']' !in t[j..i];
    assert s[j + k..i + k] == t[j..i];
    assert IsClassBackslash(s, i + k);
  }

  /** Text that opens no class has none of its backslashes in one. */
  lemma PlainHead(s: string)
    requires s != "" && s[0] != '['
    ensures HasClassBackslash(s) <==> HasClassBackslash(s[1..])
  {
    if HasClassBackslash(s) {
      var i :| 0 <= i < |s| && IsClassBackslash(s, i);
      var j :| 0 <= j < i && s[j] == '[' && ']' !in s[j..i];
      ClassBackslashShifted(s, 1, i, j);
    } else if HasClassBackslash(s[1..]) {
      ClassBackslashLater(s, 1);
    }
  }

  lemma InSlice(s: string, j: nat, k: nat, i: nat)
    requires j <= k < i <= |s|
    ensures s[k] in s[j..i]
  {
    assert s[j..i][k - j] == s[k];
  }

  lemma ClassHead(body: string, rest: string)
    requires ']' !in body
    ensures HasClassBackslash("[" + (body + ("]" + rest))) <==> '\\' in body || HasClassBackslash(rest)
  {
    var s := "[" + (body + ("]" + rest));
    ClassHeadParts(body, rest);
    hide HasClassBackslash;
    if HasClassBackslash(s) {
      InClassOrAfter(s, |body| + 1);
    }
    if '\\' in body {
      BackslashInOpenClass(body, "]" + rest);
    }
    if HasClassBackslash(rest) {
      ClassBackslashLater(s, |body| + 2);
    }
  }

  lemma ClassHeadParts(body: string, rest: string)
    ensures var s := "[" + (body + ("]" + rest));
            |s| >= |body| + 2 && s[|body| + 1] == ']' && s[1..|body| + 1] == body && s[|body| + 2..] == rest && s[0] == '['
  {
  }

  lemma InClassOrAfter(s: string, close: nat)
    requires 0 < close < |s| && s[0] == '[' && s[close] == ']' && HasClassBackslash(s)
    ensures '\\' in s[1..close] || HasClassBackslash(s[close + 1..])
  {
    var i :| 0 <= i < |s| && IsClassBackslash(s, i);
    var j :| 0 <= j < i && s[j] == '[' && ']' !in s[j..i];
    hide HasClassBackslash, IsClassBackslash;
    if i < close {
      InSlice(s, 1, i, close);
    } else {
      if j <= close {
        InSlice(s, j, close, i);
      }
      ClassBackslashShifted(s, close + 1, i, j);
    }
  }

  lemma BackslashInOpenClass(body: string, rest: string)
    requires ']' !in body && '\\' in body
    ensures HasClassBackslash("[" + (body + rest))
  {
    var s := "[" + (body + rest);
    var n :| 0 <= n < |body| && body[n] == '\\';
    assert s[n + 1] == '\\' && s[0..n + 1] == "[" + body[..n];
    assert IsClassBackslash(s, n + 1);
  }

  lemma ClassHeadOf(s: string)
    requires s != "" && s[0] == '[' && ParseRanges(false, ClassBody(s), false).Some?
    ensures var (rs, rest) := ParseRanges(false, ClassBody(s), false).value;
            HasClassBackslash(s) <==> BackslashRange(rs) || HasClassBackslash(rest)
  {
    var (rs, rest) := ParseRanges(false, ClassBody(s), false).value;
    var body := RangesText(ClassBody(s), false);
    hide ParseRanges, HasClassBackslash, BackslashRange;
    if NegatedClass(s) {
      assert s == "[" + (("^" + body) + ("]" + rest));
      ClassHead("^" + body, rest);
    } else {
      assert s == "[" + (body + ("]" + rest));
      ClassHead(body, rest);
    }
  }

  /** In a well-formed glob, the scan with one flag finds a backslash in a class exactly when a class
      of the glob has one as the end of a range. */
  lemma {:induction false} ClassBackslashExact(glob: string)
    requires Parse(false, glob).Some?
    ensures HasClassBackslash(glob) <==> BackslashClass(Parse(false, glob).value)
    decreases |glob|
  {
    if glob != "" {
      var (e, rest) := Term(false, glob).value;
      ClassBackslashExact(rest);
      BackslashClassAdded(e, Parse(false, rest).value);
      if glob[0] == '[' {
        ClassHeadOf(glob);
      } else {
        PlainHead(glob);
      }
    }
  }

  // ----- Rules -----

  /** The text of a path or mount a policy can hold: no segment that is a step or a wildcard, no "*"
      at the end, no control character. */
  predicate GoodText(p: string) {
    && "" !in Split(p) && "." !in Split(p) && ".." !in Split(p) && "+" !in Split(p)
    && (p == "" || p[|p| - 1] != '*')
    && (forall c :: c in p ==> ' ' <= c < '\U{7F}' || '\U{9F}' < c)
  }

  lemma CheckLiteralExact(p: string)
    ensures CheckLiteral(p).None? <==> GoodText(p)
  {
    CleanSegmentsExact(p);
    hide Split, CleanSegments;
    assert ' ' == '\U{20}';
  }

  /** A glob with no doubled backslash, none in a class, and no brace. */
  predicate GoodGlob(glob: string) {
    && Parse(false, glob).Some? && !BackslashClass(Parse(false, glob).value)
    && !Contains(glob, "\\\\") && '{' !in glob && '}' !in glob
  }

  lemma CheckGlobExact(glob: string)
    ensures CheckGlob(glob).None? <==> GoodGlob(glob)
  {
    MatchGlobBackslashIsOrdinary(glob, "probe");
    hide Parse, MatchGlob, HasClassBackslash, BackslashClass, Contains;
    if Parse(false, glob).Some? {
      ClassBackslashExact(glob);
    }
  }

  /** Credential.validate accepts exactly the rules with well-formed globs of the allowed characters,
      a path and mount fit for a policy both as written and with what the globs pin, and a
      consistent backend and format. */
  lemma ValidRuleExact(r: Rule)
    ensures ValidRule(r) <==>
            && r.unit != "" && GoodGlob(r.unit) && GoodGlob(r.credential)
            && (forall c :: c in r.unit ==> UnitNameChar(c) || c in "*?[]^")
            && ((r.backend == "kv" && GoodText(r.mount) && GoodText(Expand(Pinned(r), r.mount)))
                || (r.backend == "raw" && r.mount == ""))
            && GoodText(r.path) && GoodText(Expand(Pinned(r), r.path))
            && ((r.format == "field" && (r.encoding == "none" || r.encoding == "base64"))
                || (r.format == "json" && r.field == "" && r.encoding == ""))
  {
    CheckGlobExact(r.unit);
    CheckGlobExact(r.credential);
    CheckLiteralExact(r.mount);
    CheckLiteralExact(Expand(Pinned(r), r.mount));
    CheckLiteralExact(r.path);
    CheckLiteralExact(Expand(Pinned(r), r.path));
    EmptyTextIsBad();
    NamesDiffer();
    forall c ensures UnitGlobChar(c) <==> UnitNameChar(c) || c in "*?[]^" {
      UnitGlobCharExact(c);
    }
    hide GoodGlob, GoodText, CheckGlob, CheckLiteral, Expand, Pinned, UnitGlobChar, UnitNameChar;
  }

  lemma EmptyTextIsBad()
    ensures !GoodText("")
  {
    assert Split("") == [""];
  }

  lemma NamesDiffer()
    ensures "kv" != "raw" && "field" != "json"
  {
    assert |"kv"| == 2 && |"raw"| == 3 && |"field"| == 5 && |"json"| == 4;
  }
}
