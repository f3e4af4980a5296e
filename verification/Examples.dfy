/** Concrete rules behind the side conditions of the general results. */
module Examples {
  import opened Text
  import opened Glob
  import opened Template
  import opened Braces
  import opened Config
  import opened Policy
  import opened Resolver
  import opened Coverage
  import opened Wildcards

  lemma SplitTwo(a: string, b: string)
    requires '/' !in a && '/' !in b
    ensures Split(a + "/" + b) == [a, b]
  {
    CutUnique(a, '/', b);
    assert a + "/" + b == a + ['/'] + b;
  }

  lemma TwoSegmentLiteral(a: string, b: string)
    requires '/' !in a && '/' !in b && !IsBadSegment(a) && !IsBadSegment(b) && a != "+" && b != "+"
    requires b[|b| - 1] != '*' && forall c :: c in a || c in b ==> !IsControl(c)
    ensures CheckLiteral(a + "/" + b).None?
  {
    SplitTwo(a, b);
    var p := a + "/" + b;
    assert forall c :: c in p ==> c in a || c in b || c == '/';
  }

  /** "x/" stays in front of what follows it. */
  lemma ExpandAfterX(values: map<string, string>, t: string)
    ensures Expand(values, "x/" + t) == "x/" + Expand(values, t)
  {
    PlaceholdersAreTokens();
    hide PLACEHOLDERS;
    SubstituteCopies(PLACEHOLDERS, values, "x/", t);
  }

  // ----- The pinned {prefix} of a dotted template -----

  /** unit = "a.b@*", path = "x/{prefix}". */
  const DOTTED := Rule("a.b@*", "c", BACKEND_RAW, "", "x/{prefix}", FORMAT_JSON, "", "")

  lemma StarParses()
    ensures Parse(false, "*") == Some([Star])
  {
    assert "*"[1..] == "";
    assert Parse(false, "") == Some([]);
    assert [Star] + [] == [Star];
  }

  lemma DottedGlobMatches(tail: string)
    requires '/' !in tail
    ensures MatchGlob("a.b@*", "a.b@" + tail) == Some(true)
    ensures Parse(false, "a.b@*") == Some(Lits("a.b@") + [Star])
  {
    StarParses();
    ParseLiteralHead("a.b@", "*");
    assert "a.b@" + "*" == "a.b@*";
    var name := "a.b@" + tail;
    MatchesLiteralHead("a.b@", [Star], name);
    assert name[|"a.b@"|..] == tail;
    assert tail[..|tail|] == tail && tail[|tail|..] == "";
    MatchGlobBackslashIsOrdinary("a.b@*", name);
  }

  /** {prefix} of NAME.SUFFIX@TAIL. */
  lemma PrefixOfSuffixedHead(name: string, suffix: string, tail: string)
    requires name != "" && '@' !in name && '@' !in suffix && '.' !in suffix
    ensures var head := name + ['.'] + suffix;
            UnitPrefix(head + "@" + tail) == if '.' in tail then head else name
  {
    var head := name + ['.'] + suffix;
    LastIndexUnique(name, '.', suffix);
    PrefixOfTemplate(head, tail);
    assert head[..|name|] == name;
  }

  lemma DottedPrefixes()
    ensures UnitPrefix("a.b@*") == "a" && UnitPrefix("a.b@x.service") == "a.b"
  {
    hide *;
    PrefixOfSuffixedHead("a", "b", "*");
    PrefixOfSuffixedHead("a", "b", "x.service");
    assert "a" + ['.'] + "b" + "@" + "*" == "a.b@*";
    assert "a" + ['.'] + "b" + "@" + "x.service" == "a.b@x.service";
    assert "a" + ['.'] + "b" == "a.b";
    assert "x.service"[1] == '.';
  }

  /** A glob with a literal head before its "@" pins {prefix}. */
  lemma LiteralHeadPins(head: string, tail: string, credentialGlob: string)
    requires IsLiteralGlob(head) && '@' !in head
    ensures Pins(head + ['@'] + tail, credentialGlob, PREFIX)
    ensures PREFIX in PinnedValues(head + ['@'] + tail, credentialGlob)
    ensures PinnedValues(head + ['@'] + tail, credentialGlob)[PREFIX] == UnitPrefix(head + ['@'] + tail)
  {
    CutUnique(head, '@', tail);
    PinnedPrefixText(head + ['@'] + tail, credentialGlob);
  }

  lemma DottedExpansion()
    ensures Expand(Pinned(DOTTED), "x/{prefix}") == "x/a"
  {
    hide CutAt, PinnedValues, PlaceholderValues, UnitPrefix, Expand, PLACEHOLDERS;
    LiteralHeadPins("a.b", "*", "c");
    assert "a.b" + ['@'] + "*" == "a.b@*";
    DottedPrefixes();
    PrefixIsPlaceholder();
    ExpandAfterX(Pinned(DOTTED), PREFIX);
    ExpandOnly(Pinned(DOTTED), PREFIX);
    assert "x/" + PREFIX == "x/{prefix}";
  }

  lemma PrefixIsPlaceholder()
    ensures PREFIX in PLACEHOLDERS
  {
    assert PLACEHOLDERS[2] == PREFIX;
  }

  lemma DottedPathChecks()
    ensures CheckLiteral("x/{prefix}").None? && CheckLiteral("x/a").None?
  {
    hide CheckLiteral;
    TwoSegmentLiteral("x", "{prefix}");
    TwoSegmentLiteral("x", "a");
    assert "x" + "/" + "{prefix}" == "x/{prefix}" && "x" + "/" + "a" == "x/a";
  }

  /** A glob without "\", "{" and "}" passes the glob checks when it parses. */
  lemma PlainGlobPasses(glob: string)
    requires MatchGlob(glob, "probe").Some? && '\\' !in glob && '{' !in glob && '}' !in glob
    ensures CheckGlob(glob).None?
  {
    forall i | 0 <= i <= |glob| ensures !("\\\\" <= glob[i..]) {
      assert forall c :: c in glob[i..] ==> c in glob;
      assert "\\\\"[0] == '\\';
    }
  }

  lemma DottedGlobChecks()
    ensures CheckGlob("a.b@*").None? && CheckGlob("c").None?
  {
    hide *;
    DottedGlobMatches("");
    MatchGlobBackslashIsOrdinary("a.b@*", "probe");
    LiteralGlobMatchesItself("c", "probe") by { IsLiteralC(); }
    PlainGlobPasses("a.b@*");
    PlainGlobPasses("c");
  }

  lemma IsLiteralC()
    ensures IsLiteralGlob("c")
  {
  }

  lemma DottedIsValid()
    ensures ValidRule(DOTTED)
  {
    DottedGlobChecks();
    DottedPathChecks();
    DottedExpansion();
    hide CheckGlob, CheckLiteral, Expand, Pinned;
    assert PathError(DOTTED).None?;
  }

  lemma TwoFixedSegments(rule: Rule, a: string, b: string)
    requires Split(ReadTemplate(rule)) == [a, b]
    requires !HasPlaceholder(Expand(Pinned(rule), a)) && !HasPlaceholder(Expand(Pinned(rule), b))
    ensures PolicyPathText(rule) == Expand(Pinned(rule), ReadTemplate(rule))
  {
    hide Split, Pinned, Expand, HasPlaceholder, ReadTemplate, PolicyPathText;
    FullyPinnedPath(rule);
  }

  lemma DottedTemplate()
    ensures ReadTemplate(DOTTED) == "x/{prefix}" && Split(ReadTemplate(DOTTED)) == ["x", "{prefix}"]
  {
    hide Split;
    SplitTwo("x", "{prefix}");
    assert "x" + "/" + "{prefix}" == "x/{prefix}";
  }

  lemma DottedPrefixPinned()
    ensures Expand(Pinned(DOTTED), "{prefix}") == "a"
  {
    hide PLACEHOLDERS, Expand, PinnedValues, PlaceholderValues, CutAt, UnitPrefix;
    LiteralHeadPins("a.b", "*", "c");
    assert "a.b" + ['@'] + "*" == "a.b@*";
    DottedPrefixes();
    PrefixIsPlaceholder();
    ExpandOnly(Pinned(DOTTED), PREFIX);
  }

  lemma DottedPolicyPath()
    ensures PolicyPathText(DOTTED) == "x/a"
  {
    hide *;
    DottedTemplate();
    DottedPrefixPinned();
    ExpandPlain(Pinned(DOTTED), "x");
    NoBraceNoPlaceholder("a");
    TwoFixedSegments(DOTTED, "x", "{prefix}");
    DottedExpansion();
  }

  lemma DottedValues(req: Request)
    requires req == Request("a.b@x.service", "c")
    ensures Expand(Values(req), "x/{prefix}") == "x/a.b"
  {
    hide PLACEHOLDERS, Expand, PlaceholderValues, UnitPrefix, UnitName, CutAt;
    PlaceholderValuesAt(req.unit, req.credential);
    DottedPrefixes();
    PrefixIsPlaceholder();
    ExpandAfterX(Values(req), PREFIX);
    ExpandOnly(Values(req), PREFIX);
    assert "x/" + PREFIX == "x/{prefix}";
    assert "x/" + "a.b" == "x/a.b";
  }

  lemma DottedRead(req: Request)
    requires req == Request("a.b@x.service", "c")
    ensures ReadPath(RefOf(DOTTED, req)) == "x/a.b" && CleanRef(RefOf(DOTTED, req))
  {
    hide Expand, Values, CleanSegments;
    DottedValues(req);
    CleanTwo("x", "a.b");
    assert "x" + "/" + "a.b" == "x/a.b";
  }

  lemma CleanTwo(a: string, b: string)
    requires '/' !in a && '/' !in b && !IsBadSegment(a) && !IsBadSegment(b)
    ensures CleanSegments(a + "/" + b)
  {
    SplitTwo(a, b);
  }

  lemma DottedMatches(req: Request)
    requires req == Request("a.b@x.service", "c")
    ensures IsRequest(req) && FirstMatch([DOTTED], req, 0)
  {
    hide MatchGlob, Parse, Lits;
    DottedGlobMatches("x.service");
    assert "a.b@" + "x.service" == "a.b@x.service";
    IsLiteralC();
    LiteralGlobMatchesItself("c", "c");
  }

  lemma NotCovered(p: string, read: string)
    requires '+' !in p && p != read
    ensures !Covers(p, read)
  {
    var have, want := Split(p), Split(read);
    forall i | 0 <= i < |have| ensures have[i] != "+" {
      if have[i] == "+" {
        SplitKeepsChars(p, have[i], '+');
      }
    }
    JoinSplit(p);
    JoinSplit(read);
    assert have != want;
    hide Split;
  }

  lemma {:induction false} SplitKeepsChars(s: string, seg: string, c: char)
    requires seg in Split(s) && c in seg
    ensures c in s
    decreases |s|
  {
    var cut := CutAt(s, '/');
    if cut.found && seg != cut.before {
      SplitKeepsChars(cut.after, seg, c);
    }
  }

  /** Without the side condition coverage fails: a validated rule whose unit glob is "a.b@*"
      serves a.b@x.service from x/a.b, and the policy grants x/a alone. */
  lemma CoverageNeedsPinnablePrefix(out: seq<Grant>)
    requires GrantsFor(AsksOf([DOTTED]), out)
    ensures ValidRule(DOTTED)
    ensures var req := Request("a.b@x.service", "c");
            && IsRequest(req) && FirstMatch([DOTTED], req, 0) && CleanRef(RefOf(DOTTED, req))
            && forall g :: g in out ==> !Covers(g.path, ReadPath(RefOf(DOTTED, req)))
  {
    hide Covers, CleanRef, FirstMatch, Validate, PolicyPathText, RefOf, Widens;
    var req := Request("a.b@x.service", "c");
    DottedIsValid();
    DottedMatches(req);
    DottedRead(req);
    DottedPolicyPath();
    NotCovered("x/a", "x/a.b");
    var firsts: seq<nat> :| GrantsAre(AsksOf([DOTTED]), out, firsts);
    forall g | g in out ensures g.path == "x/a" {
      var n :| 0 <= n < |out| && out[n] == g;
      assert FirstAsk(AsksOf([DOTTED]), firsts[n]);
    }
  }

  // ----- Pinned text that spells a placeholder -----

  /** unit = "*", credential = "nit", path = "x/{u{credential}}". */
  const BRACED := Rule("*", "nit", BACKEND_RAW, "", "x/{u{credential}}", FORMAT_JSON, "", "")

  lemma NestedBraceStartsNoToken(tokens: seq<string>, s: string)
    requires Tokens(tokens) && |s| > 2 && s[1] == 'u' && s[2] == '{'
    ensures TokenAt(tokens, s).None?
  {
  }

  /** A "{" and a "u" in front of a token are text. */
  lemma SubstituteInsideBraces(tokens: seq<string>, values: map<string, string>, p: string)
    requires Tokens(tokens) && p in tokens && p in values
    ensures Substitute(tokens, values, "{u" + p + "}") == "{u" + values[p] + "}"
  {
    assert IsToken(p) && p != "" && (p + "}")[0] == '{';
    hide *;
    ConcatAssociates("{u", p, "}");
    ConcatAssociates("{u", values[p], "}");
    OpenIsCopied(tokens, values, p + "}");
    CloseIsCopied(tokens, values, p);
  }

  lemma OpenIsCopied(tokens: seq<string>, values: map<string, string>, rest: string)
    requires Tokens(tokens) && rest != "" && rest[0] == '{'
    ensures Substitute(tokens, values, "{u" + rest) == "{u" + Substitute(tokens, values, rest)
  {
    var s := "{u" + rest;
    assert s[0] == '{' && s[1] == 'u' && s[2] == '{' && s[1..] == "u" + rest;
    NestedBraceStartsNoToken(tokens, s);
    CopiedChar(tokens, values, s);
    hide Tokens, IsToken, TokenAt, Substitute;
    SubstituteCopies(tokens, values, "u", rest);
    var e := Substitute(tokens, values, rest);
    assert ['{'] + ("u" + e) == "{u" + e;
  }

  lemma CloseIsCopied(tokens: seq<string>, values: map<string, string>, p: string)
    requires Tokens(tokens) && p in tokens && p in values
    ensures Substitute(tokens, values, p + "}") == values[p] + "}"
  {
    SubstituteToken(tokens, values, p, "}");
    SubstituteCopies(tokens, values, "}", "");
    assert Substitute(tokens, values, "") == "";
    assert "}" + "" == "}";
  }

  lemma CredentialIsPlaceholder()
    ensures CREDENTIAL in PLACEHOLDERS && UNIT in PLACEHOLDERS
  {
    assert PLACEHOLDERS[4] == CREDENTIAL && PLACEHOLDERS[0] == UNIT;
  }

  /** Every table that gives {credential} the value "nit" makes {unit} of the segment. */
  lemma BracedSegment(values: map<string, string>)
    requires CREDENTIAL in values && values[CREDENTIAL] == "nit"
    ensures Expand(values, "{u{credential}}") == "{unit}"
    ensures Expand(values, "x/{u{credential}}") == "x/{unit}"
  {
    CredentialIsPlaceholder();
    PlaceholdersAreTokens();
    hide PLACEHOLDERS, Substitute;
    SubstituteInsideBraces(PLACEHOLDERS, values, CREDENTIAL);
    assert "{u" + CREDENTIAL + "}" == "{u{credential}}" && "{u" + "nit" + "}" == "{unit}";
    ExpandAfterX(values, "{u{credential}}");
    assert "x/" + "{u{credential}}" == "x/{u{credential}}" && "x/" + "{unit}" == "x/{unit}";
  }

  lemma BracedPins()
    ensures CREDENTIAL in Pinned(BRACED) && Pinned(BRACED)[CREDENTIAL] == "nit"
    ensures UNIT !in Pinned(BRACED)
  {
    hide UnitPrefix, CutAt, UnitName;
    PlaceholderValuesAt("*", "nit");
    assert IsLiteralGlob("nit");
    assert "*"[0] == '*';
    assert |CREDENTIAL| == 12 && |UNIT| == 6 && |PREFIX| == 8;
  }

  lemma StarMatches(name: string)
    requires '/' !in name
    ensures MatchGlob("*", name) == Some(true)
  {
    StarParses();
    MatchGlobBackslashIsOrdinary("*", name);
    hide MatchGlob;
    assert name[..|name|] == name && name[|name|..] == "";
    assert Matches([], "");
  }

  lemma BracedGlobChecks()
    ensures CheckGlob("*").None? && CheckGlob("nit").None?
  {
    hide *;
    StarMatches("probe");
    LiteralNit();
    LiteralGlobMatchesItself("nit", "probe");
    PlainGlobPasses("*");
    PlainGlobPasses("nit");
  }

  lemma BracedPathChecks()
    ensures CheckLiteral("x/{u{credential}}").None? && CheckLiteral("x/{unit}").None?
  {
    hide CheckLiteral;
    TwoSegmentLiteral("x", "{u{credential}}");
    TwoSegmentLiteral("x", "{unit}");
    assert "x" + "/" + "{u{credential}}" == "x/{u{credential}}" && "x" + "/" + "{unit}" == "x/{unit}";
  }

  lemma BracedIsValid()
    ensures ValidRule(BRACED)
  {
    hide CheckGlob, CheckLiteral, Expand, Pinned;
    BracedPins();
    BracedSegment(Pinned(BRACED));
    BracedGlobChecks();
    BracedPathChecks();
    assert PathError(BRACED).None?;
  }

  lemma LiteralNit()
    ensures IsLiteralGlob("nit")
  {
  }

  /** Pinned text can spell a placeholder. The rule reads x/{unit} for every request, one path
      with literal braces, but the policy grants a wildcard for it, and expanding the pinned
      path again for the request would read another path. */
  lemma PinnedTextCanSpellAPlaceholder(req: Request)
    requires IsRequest(req) && req.credential == "nit"
    ensures ValidRule(BRACED) && RuleMatches(BRACED, req) && LeavesPlaceholder(BRACED)
    ensures ReadPath(RefOf(BRACED, req)) == "x/{unit}" && PolicyPathText(BRACED) == "x/+"
    ensures Expand(Values(req), Expand(Pinned(BRACED), BRACED.path)) == "x/" + req.unit
  {
    hide PLACEHOLDERS, Expand, Pinned, Validate, MatchGlob, PlaceholderValues, HasPlaceholder;
    BracedIsValid();
    StarMatches(req.unit);
    LiteralNit();
    LiteralGlobMatchesItself("nit", "nit");
    BracedPins();
    PlaceholderValuesAt(req.unit, req.credential);
    BracedSegment(Values(req));
    BracedSegment(Pinned(BRACED));
    CredentialIsPlaceholder();
    ExpandAfterX(Values(req), UNIT);
    ExpandOnly(Values(req), UNIT);
    assert "x/" + UNIT == "x/{unit}";
    BracedLeavesPlaceholder();
    BracedPolicyPath();
  }

  lemma BracedPolicyPath()
    ensures PolicyPathText(BRACED) == "x/+"
  {
    hide *;
    BracedTemplate();
    BracedPins();
    BracedSegment(Pinned(BRACED));
    UnitIsPlaceholder();
    assert '{' !in "x";
    ExpandPlain(Pinned(BRACED), "x");
    EmitIs(Pinned(BRACED), "x");
    EmitIs(Pinned(BRACED), "{u{credential}}");
    TwoEmitted(BRACED, "x", "{u{credential}}");
    assert "x" + "/" + "+" == "x/+";
  }

  lemma EmitIs(pinned: map<string, string>, seg: string)
    ensures EmitSegment(pinned, seg) == if HasPlaceholder(Expand(pinned, seg)) then "+" else Expand(pinned, seg)
  {
  }

  lemma TwoEmitted(rule: Rule, a: string, b: string)
    requires Split(ReadTemplate(rule)) == [a, b]
    ensures PolicyPathText(rule) == EmitSegment(Pinned(rule), a) + "/" + EmitSegment(Pinned(rule), b)
  {
    hide Split, Pinned, EmitSegment, ReadTemplate;
    var x, y := EmitSegment(Pinned(rule), a), EmitSegment(Pinned(rule), b);
    assert EmittedSegments(rule) == [x, y] && [x, y][1..] == [y];
    assert Join([y]) == y && Join([x, y]) == x + "/" + Join([y]);
  }

  lemma BracedTemplate()
    ensures Split(ReadTemplate(BRACED)) == ["x", "{u{credential}}"]
  {
    hide Split;
    SplitTwo("x", "{u{credential}}");
    assert "x" + "/" + "{u{credential}}" == "x/{u{credential}}";
  }

  lemma UnitIsPlaceholder()
    ensures HasPlaceholder("{unit}")
  {
    CredentialIsPlaceholder();
    assert "{unit}"[0..] == UNIT;
    assert Contains("{unit}", UNIT);
  }

  lemma BracedLeavesPlaceholder()
    ensures LeavesPlaceholder(BRACED)
  {
    hide Split, ReadTemplate, Pinned, Expand, HasPlaceholder;
    BracedTemplate();
    BracedPins();
    BracedSegment(Pinned(BRACED));
    UnitIsPlaceholder();
    assert "{u{credential}}" in Split(ReadTemplate(BRACED));
  }
}
