/** Package config: the request placeholders, what a rule's globs pin of them, single-pass
    replacement, and the validation of one credential rule. */
module Config {
  import opened Text
  import opened Glob
  import opened Template
  import opened NormalPaths

  // ----- Placeholders -----

  const UNIT := "{unit}"
  const UNIT_NAME := "{unit_name}"
  const PREFIX := "{prefix}"
  const INSTANCE := "{instance}"
  const CREDENTIAL := "{credential}"

  const PLACEHOLDERS: seq<string> := [UNIT, UNIT_NAME, PREFIX, INSTANCE, CREDENTIAL]

  /** The unit name without its type suffix. A dot that starts the name is no suffix. */
  function UnitName(unit: string): string {
    var i := LastIndex(unit, '.');
    if i > 0 then unit[..i] else unit
  }

  function PlaceholderValues(unit: string, credential: string): map<string, string> {
    var unitName := UnitName(unit);
    var cut := CutAt(unitName, '@');
    map[UNIT := unit, UNIT_NAME := unitName, PREFIX := cut.before, INSTANCE := cut.after,
        CREDENTIAL := credential]
  }

  /** The text {prefix} stands for. */
  function UnitPrefix(unit: string): string {
    CutAt(UnitName(unit), '@').before
  }

  lemma PlaceholderValuesAt(unit: string, credential: string)
    ensures var v, cut := PlaceholderValues(unit, credential), CutAt(UnitName(unit), '@');
            && v.Keys == {UNIT, UNIT_NAME, PREFIX, INSTANCE, CREDENTIAL}
            && v[UNIT] == unit && v[UNIT_NAME] == UnitName(unit) && v[CREDENTIAL] == credential
            && v[PREFIX] == UnitPrefix(unit) && v[INSTANCE] == cut.after
  {
    assert |UNIT| == 6 && |UNIT_NAME| == 11 && |PREFIX| == 8 && |INSTANCE| == 10 && |CREDENTIAL| == 12;
  }

  /** Whether the globs leave one value for the placeholder, as PinnedValues decides it. */
  predicate Pins(unitGlob: string, credentialGlob: string, placeholder: string) {
    var head := CutAt(unitGlob, '@');
    if placeholder == CREDENTIAL then IsLiteralGlob(credentialGlob)
    else if placeholder == PREFIX then
      IsLiteralGlob(unitGlob) || (head.found && IsLiteralGlob(head.before))
    else IsLiteralGlob(unitGlob)
  }

  /** PlaceholderValues of the glob texts themselves, without the placeholders left free. */
  function PinnedValues(unitGlob: string, credentialGlob: string): map<string, string> {
    var values := PlaceholderValues(unitGlob, credentialGlob);
    map p | p in values && Pins(unitGlob, credentialGlob, p) :: values[p]
  }

  /** What the five values mean, read off the shape of the unit name: NAME.TYPE, and
      PREFIX@INSTANCE inside the name. */
  lemma PlaceholderValuesMeaning(name: string, dotType: string, credential: string)
    requires name != "" && (dotType == "" ==> LastIndex(name, '.') <= 0)
    requires dotType != "" ==> dotType[0] == '.' && '.' !in dotType[1..]
    ensures var v := PlaceholderValues(name + dotType, credential);
            && v.Keys == {UNIT, UNIT_NAME, PREFIX, INSTANCE, CREDENTIAL}
            && v[UNIT] == name + dotType && v[UNIT_NAME] == name && v[CREDENTIAL] == credential
            && '@' !in v[PREFIX]
            && (if '@' in name then name == v[PREFIX] + "@" + v[INSTANCE]
                else v[PREFIX] == name && v[INSTANCE] == "")
  {
    if dotType == "" {
      assert name + dotType == name;
    } else {
      assert name + dotType == name + ['.'] + dotType[1..];
      UnitNameCutsSuffix(name, dotType[1..]);
    }
    PlaceholderValuesAt(name + dotType, credential);
  }

  lemma UnitNameCutsSuffix(name: string, suffix: string)
    requires '.' !in suffix
    ensures UnitName(name + ['.'] + suffix) == if name == "" then ['.'] + suffix else name
  {
    LastIndexUnique(name, '.', suffix);
    assert (name + ['.'] + suffix)[..|name|] == name;
  }

  // ----- Replacement -----

  lemma PlaceholdersAreTokens()
    ensures Tokens(PLACEHOLDERS)
  {
  }

  /** Every placeholder values has an entry for is replaced, once, and all other text stays. */
  function Expand(values: map<string, string>, s: string): string {
    Substitute(PLACEHOLDERS, values, s)
  }

  predicate HasPlaceholder(s: string) {
    HasToken(PLACEHOLDERS, s)
  }

  /** config.Replacer. PairsOf leaves its order open, which ReplaceIsExpand shows not to matter. */
  method Replacer(values: map<string, string>) returns (pairs: seq<(string, string)>)
    ensures PairsOf(PLACEHOLDERS, pairs, values)
  {
    pairs := [];
    for i := 0 to |PLACEHOLDERS|
      invariant forall kv :: kv in pairs ==> kv.0 in PLACEHOLDERS && kv.0 in values && kv.1 == values[kv.0]
      invariant forall p :: p in PLACEHOLDERS[..i] && p in values ==> (p, values[p]) in pairs
    {
      var p := PLACEHOLDERS[i];
      assert PLACEHOLDERS[..i + 1] == PLACEHOLDERS[..i] + [p];
      if p in values {
        pairs := pairs + [(p, values[p])];
      }
    }
    assert PLACEHOLDERS[..|PLACEHOLDERS|] == PLACEHOLDERS;
  }

  /** A replacer for the values expands the placeholders, whatever order its pairs are in. */
  lemma ReplaceIsExpand(pairs: seq<(string, string)>, values: map<string, string>, s: string)
    requires PairsOf(PLACEHOLDERS, pairs, values)
    ensures NonEmptyKeys(pairs) && Replace(pairs, s) == Expand(values, s)
  {
    PlaceholdersAreTokens();
    ReplaceIsSubstitute(PLACEHOLDERS, pairs, values, s);
  }

  /** Text without "{" is all text. */
  lemma ExpandPlain(values: map<string, string>, t: string)
    requires '{' !in t
    ensures Expand(values, t) == t && !HasPlaceholder(t)
  {
    PlaceholdersAreTokens();
    hide PLACEHOLDERS;
    SubstituteCopies(PLACEHOLDERS, values, t, "");
    assert t + "" == t;
    NoBraceNoPlaceholder(t);
  }

  lemma NoBraceNoPlaceholder(t: string)
    requires '{' !in t
    ensures !HasPlaceholder(t)
  {
    PlaceholdersAreTokens();
    hide PLACEHOLDERS;
    forall p, i | p in PLACEHOLDERS && 0 <= i <= |t| ensures !(p <= t[i..]) {
      assert IsToken(p) && p[0] == '{';
      assert forall c :: c in t[i..] ==> c in t;
    }
  }

  /** A placeholder with a value expands to it. */
  lemma ExpandOnly(values: map<string, string>, p: string)
    requires p in PLACEHOLDERS && p in values
    ensures Expand(values, p) == values[p]
  {
    PlaceholdersAreTokens();
    hide PLACEHOLDERS;
    TokenAtIs(PLACEHOLDERS, p, p);
    assert p[|p|..] == "";
    assert Substitute(PLACEHOLDERS, values, "") == "";
    assert Substitute(PLACEHOLDERS, values, p) == values[p] + "";
  }

  /** The five placeholders, and what each expands to for a request. */
  lemma PlaceholdersExpand(unit: string, credential: string)
    ensures var v := PlaceholderValues(unit, credential); var cut := CutAt(UnitName(unit), '@');
            && Expand(v, "{unit}") == unit && Expand(v, "{credential}") == credential
            && Expand(v, "{unit_name}") == UnitName(unit)
            && Expand(v, "{prefix}") == cut.before && Expand(v, "{instance}") == cut.after
  {
    PlaceholderValuesAt(unit, credential);
    FivePlaceholders();
    hide UnitName, CutAt, Expand, PLACEHOLDERS, PlaceholderValues;
    var v := PlaceholderValues(unit, credential);
    ExpandOnly(v, UNIT);
    ExpandOnly(v, UNIT_NAME);
    ExpandOnly(v, PREFIX);
    ExpandOnly(v, INSTANCE);
    ExpandOnly(v, CREDENTIAL);
  }

  lemma FivePlaceholders()
    ensures UNIT in PLACEHOLDERS && UNIT_NAME in PLACEHOLDERS && PREFIX in PLACEHOLDERS
    ensures INSTANCE in PLACEHOLDERS && CREDENTIAL in PLACEHOLDERS
  {
    assert PLACEHOLDERS[0] == UNIT && PLACEHOLDERS[1] == UNIT_NAME && PLACEHOLDERS[2] == PREFIX;
    assert PLACEHOLDERS[3] == INSTANCE && PLACEHOLDERS[4] == CREDENTIAL;
  }

  // ----- What the globs pin is what the request has -----

  /** {prefix} of HEAD@TAIL: the whole head when the tail has a dot, else the head without the
      suffix its own last dot starts. */
  lemma PrefixOfTemplate(head: string, tail: string)
    requires '@' !in head
    ensures UnitPrefix(head + "@" + tail) ==
            if '.' in tail || LastIndex(head, '.') <= 0 then head else head[..LastIndex(head, '.')]
  {
    if '.' in tail {
      UnitNameOfSuffixedTail(head, tail);
      CutUnique(head, '@', tail[..LastIndex(tail, '.')]);
    } else {
      UnitNameOfPlainTail(head, tail);
      CutUnique(head, '@', tail);
    }
  }

  lemma UnitNameOfSuffixedTail(head: string, tail: string)
    requires '.' in tail
    ensures UnitName(head + ['@'] + tail) == head + ['@'] + tail[..LastIndex(tail, '.')]
  {
    hide LastIndex, UnitName;
    var j := LastIndex(tail, '.');
    var before, after := tail[..j], tail[j + 1..];
    assert tail == before + ['.'] + after;
    assert head + ['@'] + tail == (head + ['@'] + before) + ['.'] + after;
    UnitNameCutsSuffix(head + ['@'] + before, after);
  }

  lemma UnitNameOfPlainTail(head: string, tail: string)
    requires '.' !in tail
    ensures UnitName(head + ['@'] + tail) ==
            if LastIndex(head, '.') > 0 then head[..LastIndex(head, '.')] else head + ['@'] + tail
  {
    var i := LastIndex(head, '.');
    if 0 <= i {
      SuffixBeforeTail(head, i, tail);
    } else {
      assert '.' !in head + ['@'] + tail;
    }
  }

  lemma SuffixBeforeTail(head: string, i: nat, tail: string)
    requires i < |head| && head[i] == '.' && '.' !in head[i + 1..] && '.' !in tail
    ensures UnitName(head + ['@'] + tail) == if i > 0 then head[..i] else head + ['@'] + tail
  {
    var before, after := head[..i], head[i + 1..];
    var suffix := after + ['@'] + tail;
    assert '.' !in suffix;
    assert head + ['@'] + tail == before + ['.'] + suffix;
    UnitNameCutsSuffix(before, suffix);
  }

  /** The glob's text before its first "@" decides {prefix} for every unit the glob matches.
      It does not when that text has a suffix of its own and a dot in the rest of the glob's
      text does not mean a dot in the rest of every name, or the reverse. */
  ghost predicate PrefixIsPinnable(unitGlob: string) {
    var cut := CutAt(unitGlob, '@');
    Pins(unitGlob, "", PREFIX) && !IsLiteralGlob(unitGlob) && LastIndex(cut.before, '.') > 0 && Matchable(unitGlob)
    ==> DotsAreDecided(cut.after)
  }

  /** The glob text has a dot exactly when every name it matches has one, and otherwise none has. */
  ghost predicate DotsAreDecided(glob: string) {
    match Parse(false, glob)
    case None => true
    case Some(es) => if '.' in glob then Forces(es, '.') else !Permits(es, '.')
  }

  /** PinnedValues keeps no {prefix} that some matching unit contradicts. */
  ghost predicate PinnedPrefixHolds(unitGlob: string) {
    forall unit, credential, credentialGlob ::
      IsName(unit) && MatchGlob(unitGlob, unit) == Some(true) && PREFIX in PinnedValues(unitGlob, credentialGlob)
      ==> PinnedValues(unitGlob, credentialGlob)[PREFIX] == PlaceholderValues(unit, credential)[PREFIX]
  }

  lemma TemplateGlob(unitGlob: string) returns (head: string, rest: string)
    requires Pins(unitGlob, "", PREFIX) && !IsLiteralGlob(unitGlob)
    ensures unitGlob == head + "@" + rest && '@' !in head && IsLiteralGlob(head)
    ensures CutAt(unitGlob, '@') == Cut(head, rest, true)
    ensures Parse(false, unitGlob) == match Parse(false, rest)
                                      case None => None
                                      case Some(es) => Some(Lits(head + "@") + es)
  {
    var cut := CutAt(unitGlob, '@');
    head, rest := cut.before, cut.after;
    assert head + "@" + rest == (head + "@") + rest;
    ParseLiteralHead(head + "@", rest);
  }

  lemma SplitMatchedUnit(unitGlob: string, unit: string) returns (head: string, rest: string, tail: string)
    requires Pins(unitGlob, "", PREFIX) && !IsLiteralGlob(unitGlob)
    requires IsName(unit) && MatchGlob(unitGlob, unit) == Some(true)
    ensures CutAt(unitGlob, '@') == Cut(head, rest, true) && unitGlob == head + "@" + rest
    ensures '@' !in head && unit == head + "@" + tail && '/' !in tail
    ensures Parse(false, rest).Some? && Matches(Parse(false, rest).value, tail)
  {
    hide *;
    head, rest := TemplateGlob(unitGlob);
    MatchGlobBackslashIsOrdinary(unitGlob, unit);
    tail := TailOfMatch(head + "@", Parse(false, rest).value, unit);
  }

  lemma TailOfMatch(head: string, es: seq<Elem>, unit: string) returns (tail: string)
    requires Matches(Lits(head) + es, unit) && IsName(unit)
    ensures unit == head + tail && '/' !in tail && Matches(es, tail)
  {
    MatchesLiteralHead(head, es, unit);
    hide Matches, Lits;
    tail := unit[|head|..];
  }

  /** The usual template glob is pinnable: a dot past its first "@" and outside any class is one
      every unit name the glob matches has. */
  lemma DotOutsideClassIsPinnable(unitGlob: string, before: string, after: string)
    requires CutAt(unitGlob, '@').after == before + "." + after
    requires Parse(false, before).Some? && Parse(false, after).Some?
    ensures PrefixIsPinnable(unitGlob)
  {
    hide *;
    DotOutsideClassDecides(before, after);
    PinnableWhenDecided(unitGlob);
  }

  lemma PinnableWhenDecided(unitGlob: string)
    requires DotsAreDecided(CutAt(unitGlob, '@').after)
    ensures PrefixIsPinnable(unitGlob)
  {
    hide DotsAreDecided, CutAt, Pins, IsLiteralGlob, LastIndex, Matchable;
  }

  lemma DotOutsideClassDecides(before: string, after: string)
    requires Parse(false, before).Some? && Parse(false, after).Some?
    ensures DotsAreDecided(before + "." + after)
  {
    hide Parse, Forces, Permits;
    var dotted := "." + after;
    DottedParse(after);
    ParseMore(before, dotted);
    assert before + "." + after == before + dotted;
    DotIsForced(Parse(false, before).value, Parse(false, after).value);
    assert '.' in before + dotted;
  }

  lemma DotIsForced(before: seq<Elem>, after: seq<Elem>)
    ensures Forces(before + ([Lit('.')] + after), '.')
  {
    var es := before + ([Lit('.')] + after);
    assert es[|before|] == Lit('.');
  }

  lemma DottedParse(after: string)
    requires Parse(false, after).Some?
    ensures Parse(false, "." + after) == Some([Lit('.')] + Parse(false, after).value)
  {
    assert ("." + after)[1..] == after;
    assert Term(false, "." + after) == Some((Lit('.'), after));
  }

  lemma PinnablePrefixHolds(unitGlob: string, unit: string, credentialGlob: string, credential: string)
    requires PrefixIsPinnable(unitGlob)
    requires IsName(unit) && MatchGlob(unitGlob, unit) == Some(true)
    requires PREFIX in PinnedValues(unitGlob, credentialGlob)
    ensures PinnedValues(unitGlob, credentialGlob)[PREFIX] == PlaceholderValues(unit, credential)[PREFIX]
  {
    PlaceholderValuesAt(unitGlob, credentialGlob);
    PlaceholderValuesAt(unit, credential);
    if IsLiteralGlob(unitGlob) {
      LiteralGlobMatchesItself(unitGlob, unit);
    } else {
      var head, rest, tail := SplitMatchedUnit(unitGlob, unit);
      PrefixOfTemplate(head, rest);
      PrefixOfTemplate(head, tail);
      MatchableExact(unitGlob);
      if LastIndex(head, '.') > 0 {
        var es := Parse(false, rest).value;
        if '.' in rest {
          ForcedCharIsMatched(es, tail, '.');
        } else if '.' in tail {
          MatchedCharIsPermitted(es, tail, '.');
        }
      }
    }
  }

  lemma SatisfiableParts(head: string, es: seq<Elem>)
    requires Satisfiable(Lits(head) + es)
    ensures Satisfiable(es) && '/' !in head
  {
    var whole := Lits(head) + es;
    forall i | 0 <= i < |es| && !es[i].Star? ensures exists c :: c != '/' && Accepts(es[i], c) {
      assert whole[|head| + i] == es[i];
    }
    forall i | 0 <= i < |head| ensures head[i] != '/' {
      assert whole[i] == Lit(head[i]);
    }
  }

  lemma TailAgainstTheText(rest: string, es: seq<Elem>) returns (tail: string)
    requires Satisfiable(es)
    requires if '.' in rest then !Forces(es, '.') else Permits(es, '.')
    ensures Matches(es, tail) && '/' !in tail && ('.' in tail <==> '.' !in rest)
  {
    if '.' in rest {
      tail := NameWithout(es, '.');
    } else {
      tail := NameWith(es, '.');
    }
  }

  lemma TemplateMatches(unitGlob: string, head: string, es: seq<Elem>, tail: string)
    requires Parse(false, unitGlob) == Some(Lits(head + "@") + es) && Matches(es, tail)
    ensures MatchGlob(unitGlob, head + "@" + tail) == Some(true)
  {
    var unit := (head + "@") + tail;
    assert unit[|head + "@"|..] == tail && head + "@" <= unit;
    MatchesLiteralHead(head + "@", es, unit);
    MatchGlobBackslashIsOrdinary(unitGlob, unit);
  }

  lemma PinnedPrefixText(unitGlob: string, credentialGlob: string)
    requires Pins(unitGlob, "", PREFIX)
    ensures PREFIX in PinnedValues(unitGlob, credentialGlob)
    ensures PinnedValues(unitGlob, credentialGlob)[PREFIX] == UnitPrefix(unitGlob)
  {
    PlaceholderValuesAt(unitGlob, credentialGlob);
  }

  /** A unit the glob matches whose {prefix} is not the pinned one. */
  lemma ContradictingUnit(unitGlob: string) returns (unit: string)
    requires !PrefixIsPinnable(unitGlob)
    ensures IsName(unit) && MatchGlob(unitGlob, unit) == Some(true)
    ensures Pins(unitGlob, "", PREFIX) && |UnitPrefix(unitGlob)| != |UnitPrefix(unit)|
  {
    var head, rest := TemplateGlob(unitGlob);
    var es := Parse(false, rest).value;
    SatisfiableParts(head + "@", es);
    var tail := TailAgainstTheText(rest, es);
    unit := head + "@" + tail;
    TemplateMatches(unitGlob, head, es, tail);
    PrefixOfTemplate(head, rest);
    PrefixOfTemplate(head, tail);
  }

  /** The pinned {prefix} is right for every unit the glob matches exactly when the glob is
      pinnable. */
  lemma PinnedPrefixExact(unitGlob: string)
    ensures PinnedPrefixHolds(unitGlob) <==> PrefixIsPinnable(unitGlob)
  {
    if PrefixIsPinnable(unitGlob) {
      forall unit, credential, credentialGlob |
        IsName(unit) && MatchGlob(unitGlob, unit) == Some(true) && PREFIX in PinnedValues(unitGlob, credentialGlob)
        ensures PinnedValues(unitGlob, credentialGlob)[PREFIX] == PlaceholderValues(unit, credential)[PREFIX]
      {
        PinnablePrefixHolds(unitGlob, unit, credentialGlob, credential);
      }
    } else {
      var unit := ContradictingUnit(unitGlob);
      PinnedPrefixText(unitGlob, "*");
      PlaceholderValuesAt(unit, "c");
    }
  }

  /** Apart from {prefix}, what the globs pin is what every matching request has. */
  lemma PinnedButPrefixHolds(unitGlob: string, credentialGlob: string, unit: string, credential: string, p: string)
    requires IsName(unit) && MatchGlob(unitGlob, unit) == Some(true)
    requires IsName(credential) && MatchGlob(credentialGlob, credential) == Some(true)
    requires p in PinnedValues(unitGlob, credentialGlob) && p != PREFIX
    ensures p in PlaceholderValues(unit, credential)
    ensures PinnedValues(unitGlob, credentialGlob)[p] == PlaceholderValues(unit, credential)[p]
  {
    if p == CREDENTIAL {
      LiteralGlobMatchesItself(credentialGlob, credential);
    } else {
      LiteralGlobMatchesItself(unitGlob, unit);
    }
  }

  /** PinnedValues is sound: every value it keeps is the value of every matching request. */
  lemma PinnedValuesSound(unitGlob: string, credentialGlob: string, unit: string, credential: string)
    requires PrefixIsPinnable(unitGlob)
    requires IsName(unit) && MatchGlob(unitGlob, unit) == Some(true)
    requires IsName(credential) && MatchGlob(credentialGlob, credential) == Some(true)
    ensures Agrees(PinnedValues(unitGlob, credentialGlob), PlaceholderValues(unit, credential))
  {
    var pinned := PinnedValues(unitGlob, credentialGlob);
    forall p | p in pinned
      ensures p in PlaceholderValues(unit, credential) && pinned[p] == PlaceholderValues(unit, credential)[p]
    {
      if p == PREFIX {
        PinnablePrefixHolds(unitGlob, unit, credentialGlob, credential);
      } else {
        PinnedButPrefixHolds(unitGlob, credentialGlob, unit, credential, p);
      }
    }
  }

  /** A glob text without path.Match syntax. */
  predicate NoSyntax(s: string) {
    forall c :: c in s ==> c != '*' && c != '?' && c != '['
  }

  /** Which placeholders the globs pin: {credential} when the credential glob is plain text, {prefix}
      when the unit glob or what precedes its first "@" is, and the other three when the unit
      glob is. Nothing that could be pinned so is left out. */
  lemma PinnedExact(unitGlob: string, credentialGlob: string, before: string, after: string)
    requires '@' !in before && ('@' in unitGlob ==> unitGlob == before + "@" + after)
    ensures var pinned := PinnedValues(unitGlob, credentialGlob);
            && (CREDENTIAL in pinned <==> NoSyntax(credentialGlob))
            && (PREFIX in pinned <==> NoSyntax(unitGlob) || ('@' in unitGlob && NoSyntax(before)))
            && (UNIT in pinned <==> NoSyntax(unitGlob)) && (UNIT_NAME in pinned <==> NoSyntax(unitGlob))
            && (INSTANCE in pinned <==> NoSyntax(unitGlob))
  {
    PlaceholderValuesAt(unitGlob, credentialGlob);
    assert |UNIT| == 6 && |UNIT_NAME| == 11 && |PREFIX| == 8 && |INSTANCE| == 10 && |CREDENTIAL| == 12;
    if '@' in unitGlob {
      CutUnique(before, '@', after);
    }
    LiteralIsNoSyntax(unitGlob);
    LiteralIsNoSyntax(before);
    LiteralIsNoSyntax(credentialGlob);
    hide PlaceholderValues, IsLiteralGlob, NoSyntax;
  }

  lemma LiteralIsNoSyntax(glob: string)
    ensures IsLiteralGlob(glob) <==> NoSyntax(glob)
  {
  }

  /** Plain globs pin all five placeholders to what they are for the one request they match. */
  lemma LiteralGlobsPinAll(unitGlob: string, credentialGlob: string)
    requires NoSyntax(unitGlob) && NoSyntax(credentialGlob)
    ensures PinnedValues(unitGlob, credentialGlob) == PlaceholderValues(unitGlob, credentialGlob)
  {
    LiteralIsNoSyntax(unitGlob);
    LiteralIsNoSyntax(credentialGlob);
    hide IsLiteralGlob, NoSyntax, PlaceholderValues;
  }

  /** A template glob with plain text before its first "@" pins {prefix} to that text, when the text
      has no suffix of its own or the rest has a dot. */
  lemma TemplateGlobPinsPrefix(before: string, after: string, credentialGlob: string)
    requires NoSyntax(before) && '@' !in before && ('.' !in before || '.' in after)
    ensures PREFIX in PinnedValues(before + "@" + after, credentialGlob)
    ensures PinnedValues(before + "@" + after, credentialGlob)[PREFIX] == before
  {
    PrefixOfTemplate(before, after);
    CutUnique(before, '@', after);
    LiteralIsNoSyntax(before);
    hide UnitPrefix, PinnedValues;
    PinnedPrefixText(before + "@" + after, credentialGlob);
  }

  /** The values a unit name gives are made of its own characters. */
  lemma UnitValuesWithout(unit: string, credential: string, c: char)
    requires c !in unit
    ensures var v := PlaceholderValues(unit, credential);
            forall p :: p in v && p != CREDENTIAL ==> c !in v[p]
  {
    hide LastIndex, CutAt;
    PlaceholderValuesAt(unit, credential);
    var n := UnitName(unit);
    NameWithoutChar(unit, c);
    CutWithout(n, '@', c);
  }

  lemma NameWithoutChar(unit: string, c: char)
    requires c !in unit
    ensures c !in UnitName(unit)
  {
    hide LastIndex;
    assert forall x :: x in UnitName(unit) ==> x in unit;
  }

  lemma CutWithout(s: string, sep: char, c: char)
    requires c !in s
    ensures c !in CutAt(s, sep).before && c !in CutAt(s, sep).after
  {
    var cut := CutAt(s, sep);
    hide CutAt;
    if cut.found {
      assert s == cut.before + [sep] + cut.after;
    }
  }

  lemma RequestValuesSlashFree(unit: string, credential: string)
    requires IsName(unit) && IsName(credential)
    ensures SlashFree(PlaceholderValues(unit, credential))
  {
    UnitValuesWithout(unit, credential, '/');
    PlaceholderValuesAt(unit, credential);
  }

  // ----- Path checks -----

  predicate IsBadSegment(seg: string) {
    seg == "" || seg == "." || seg == ".."
  }

  predicate CleanSegments(p: string) {
    forall seg :: seg in Split(p) ==> !IsBadSegment(seg)
  }

  /** The paths without a bad segment are those that normalization leaves alone. */
  lemma CleanSegmentsExact(p: string)
    ensures CleanSegments(p) <==> "" !in Split(p) && "." !in Split(p) && ".." !in Split(p)
    ensures CleanSegments(p) <==> IsNormal(p)
  {
    NormalizeExact(Split(p));
    hide Split, Normalize;
  }

  /** config.CheckSegments. */
  method CheckSegments(p: string) returns (ok: bool)
    ensures ok <==> "" !in Split(p) && "." !in Split(p) && ".." !in Split(p)
    ensures ok <==> IsNormal(p)
  {
    var segs := Split(p);
    NormalizeExact(segs);
    for i := 0 to |segs|
      invariant forall j :: 0 <= j < i ==> segs[j] != "" && segs[j] != "." && segs[j] != ".."
    {
      var seg := segs[i];
      if seg == "" || seg == "." || seg == ".." {
        assert seg in segs;
        return false;
      }
    }
    return true;
  }

  /** unicode.IsControl: the category Cc. */
  predicate IsControl(c: char) {
    c <= '\U{1F}' || '\U{7F}' <= c <= '\U{9F}'
  }

  /** An OpenBao policy reads a trailing "*" and a segment "+" as wildcards. */
  predicate HasPolicyWildcard(p: string) {
    (p != "" && p[|p| - 1] == '*') || "+" in Split(p)
  }

  datatype LiteralError = BadSegment | ControlCharacter | PolicyWildcard

  /** config.checkLiteral. */
  function CheckLiteral(p: string): Option<LiteralError> {
    if !CleanSegments(p) then Some(BadSegment)
    else if exists c :: c in p && IsControl(c) then Some(ControlCharacter)
    else if HasPolicyWildcard(p) then Some(PolicyWildcard)
    else None
  }

  // ----- Glob checks -----

  datatype GlobError = InvalidGlob | DoubledBackslash | BackslashInClass | Brace | CharacterInNoUnitName

  /** The backslash at i comes after a "[" that no "]" has closed yet. */
  predicate IsClassBackslash(glob: string, i: nat) {
    i < |glob| && glob[i] == '\\' && exists j :: 0 <= j < i && glob[j] == '[' && ']' !in glob[j..i]
  }

  predicate HasClassBackslash(glob: string) {
    exists i :: 0 <= i < |glob| && IsClassBackslash(glob, i)
  }

  function GlobBackslashError(glob: string): Option<GlobError> {
    if Contains(glob, "\\\\") then Some(DoubledBackslash)
    else if HasClassBackslash(glob) then Some(BackslashInClass)
    else None
  }

  /** config.checkGlobBackslash, which tracks with one flag whether it is inside "[...]". */
  method CheckGlobBackslash(glob: string) returns (err: Option<GlobError>)
    ensures err == GlobBackslashError(glob)
  {
    if Contains(glob, "\\\\") {
      return Some(DoubledBackslash);
    }
    var inClass := false;
    for i := 0 to |glob|
      invariant inClass <==> exists j :: 0 <= j < i && glob[j] == '[' && ']' !in glob[j..i]
      invariant forall k :: 0 <= k < i ==> !IsClassBackslash(glob, k)
    {
      var r := glob[i];
      assert forall j :: 0 <= j <= i ==> glob[j..i + 1] == glob[j..i] + [r];
      assert glob[i..i + 1] == [r];
      if r == '[' {
        inClass := true;
      } else if r == ']' {
        inClass := false;
      } else if r == '\\' && inClass {
        assert IsClassBackslash(glob, i);
        return Some(BackslashInClass);
      }
    }
    return None;
  }

  /** The characters systemd allows in a unit name, and those path.Match reads as syntax. */
  predicate UnitGlobChar(c: char) {
    || 'a' <= c <= 'z' || 'A' <= c <= 'Z' || '0' <= c <= '9'
    || c == ':' || c == '-' || c == '_' || c == '.' || c == '\\' || c == '@'
    || c == '*' || c == '?' || c == '[' || c == ']' || c == '^'
  }

  function CheckGlob(glob: string): Option<GlobError> {
    if MatchGlob(glob, "probe").None? then Some(InvalidGlob)
    else if GlobBackslashError(glob).Some? then GlobBackslashError(glob)
    else if '{' in glob || '}' in glob then Some(Brace)
    else None
  }

  // ----- Credential rules -----

  const BACKEND_KV := "kv"
  const BACKEND_RAW := "raw"
  const FORMAT_FIELD := "field"
  const FORMAT_JSON := "json"
  const ENCODING_NONE := "none"
  const ENCODING_BASE64 := "base64"

  datatype Rule = Rule(unit: string, credential: string, backend: string, mount: string, path: string,
                       format: string, field: string, encoding: string)

  datatype RuleError =
    | UnitRequired
    | UnitGlob(glob: GlobError)
    | CredentialGlob(glob: GlobError)
    | Mount(literal: LiteralError)
    | MountWithRaw
    | UnknownBackend
    | PathRequired
    | Path(literal: LiteralError)
    | PinnedPath(literal: LiteralError)
    | PinnedMount(literal: LiteralError)
    | UnknownEncoding
    | FieldWithJson
    | EncodingWithJson
    | UnknownFormat

  /** One secret to read. The mount is empty when raw. */
  datatype SecretRef = SecretRef(raw: bool, mount: string, path: string)

  function Pinned(r: Rule): map<string, string> {
    PinnedValues(r.unit, r.credential)
  }

  function FormatError(r: Rule): Option<RuleError> {
    if r.format == FORMAT_FIELD then
      if r.encoding == ENCODING_NONE || r.encoding == ENCODING_BASE64 then None else Some(UnknownEncoding)
    else if r.format == FORMAT_JSON then
      if r.field != "" then Some(FieldWithJson)
      else if r.encoding != "" then Some(EncodingWithJson)
      else None
    else Some(UnknownFormat)
  }

  function PathError(r: Rule): Option<RuleError> {
    if r.path == "" then Some(PathRequired)
    else if CheckLiteral(r.path).Some? then Some(Path(CheckLiteral(r.path).value))
    else if CheckLiteral(Expand(Pinned(r), r.path)).Some? then
      Some(PinnedPath(CheckLiteral(Expand(Pinned(r), r.path)).value))
    else if r.backend == BACKEND_KV && CheckLiteral(Expand(Pinned(r), r.mount)).Some? then
      Some(PinnedMount(CheckLiteral(Expand(Pinned(r), r.mount)).value))
    else if exists c :: c in r.unit && !UnitGlobChar(c) then Some(UnitGlob(CharacterInNoUnitName))
    else None
  }

  function BackendError(r: Rule): Option<RuleError> {
    if r.backend == BACKEND_KV then
      if CheckLiteral(r.mount).Some? then Some(Mount(CheckLiteral(r.mount).value)) else None
    else if r.backend == BACKEND_RAW then
      if r.mount != "" then Some(MountWithRaw) else None
    else Some(UnknownBackend)
  }

  /** Credential.validate: the first check that fails, in the source's order. */
  function Validate(r: Rule): Option<RuleError> {
    if r.unit == "" then Some(UnitRequired)
    else if CheckGlob(r.unit).Some? then Some(UnitGlob(CheckGlob(r.unit).value))
    else if CheckGlob(r.credential).Some? then Some(CredentialGlob(CheckGlob(r.credential).value))
    else if BackendError(r).Some? then BackendError(r)
    else if PathError(r).Some? then PathError(r)
    else FormatError(r)
  }

  predicate ValidRule(r: Rule) {
    Validate(r).None?
  }
}
