/** The string operations of Go's standard library that the rule engine is written with,
    on sequences of code points: cutting at a separator, the last index of a character,
    splitting and joining at "/", and containment. */
module Text {

  datatype Option<+T> = None | Some(value: T)

  datatype Cut = Cut(before: string, after: string, found: bool)

  /** strings.Cut for a one-character separator. The contract determines the result. */
  function CutAt(s: string, sep: char): (r: Cut)
    ensures sep !in r.before
    ensures r.found <==> sep in s
    ensures if r.found then s == r.before + [sep] + r.after else r.before == s && r.after == ""
  {
    if s == "" then Cut("", "", false)
    else if s[0] == sep then Cut("", s[1..], true)
    else
      var r := CutAt(s[1..], sep);
      assert s == [s[0]] + s[1..];
      Cut([s[0]] + r.before, r.after, r.found)
  }

  lemma CutUnique(a: string, sep: char, b: string)
    requires sep !in a
    ensures CutAt(a + [sep] + b, sep) == Cut(a, b, true)
  {
    var s := a + [sep] + b;
    var r := CutAt(s, sep);
    assert s[|a|] == sep;
    assert s == r.before + [sep] + r.after;
    assert s[|r.before|] == sep;
    assert |r.before| == |a|;
    assert r.before == s[..|r.before|] == a;
    assert r.after == s[|a| + 1..] == b;
  }

  /** strings.LastIndex for one character, -1 when it is absent. */
  function LastIndex(s: string, c: char): (i: int)
    ensures -1 <= i < |s|
    ensures i == -1 <==> c !in s
    ensures 0 <= i ==> s[i] == c && c !in s[i + 1..]
  {
    if s == "" then -1
    else if s[|s| - 1] == c then |s| - 1
    else
      var i := LastIndex(s[..|s| - 1], c);
      assert s == s[..|s| - 1] + [s[|s| - 1]];
      assert 0 <= i ==> s[i + 1..] == s[..|s| - 1][i + 1..] + [s[|s| - 1]];
      i
  }

  lemma LastIndexUnique(a: string, c: char, b: string)
    requires c !in b
    ensures LastIndex(a + [c] + b, c) == |a|
  {
    var s := a + [c] + b;
    var i := LastIndex(s, c);
    assert s[|a|] == c && c in s;
    assert s[|a| + 1..] == b;
  }

  /** strings.Split(s, "/"): never empty, Split("") is one empty segment. */
  function Split(s: string): (segs: seq<string>)
    ensures |segs| >= 1
    ensures forall seg :: seg in segs ==> '/' !in seg
    decreases |s|
  {
    var c := CutAt(s, '/');
    if c.found then [c.before] + Split(c.after) else [s]
  }

  /** strings.Join(segs, "/"). */
  function Join(segs: seq<string>): string
  {
    if segs == [] then ""
    else if |segs| == 1 then segs[0]
    else segs[0] + "/" + Join(segs[1..])
  }

  lemma {:induction false} SplitConcat(a: string, b: string)
    ensures Split(a + "/" + b) == Split(a) + Split(b)
    decreases |a|
  {
    var c := CutAt(a, '/');
    if c.found {
      assert a + "/" + b == c.before + ['/'] + (c.after + "/" + b);
      CutUnique(c.before, '/', c.after + "/" + b);
      SplitConcat(c.after, b);
    } else {
      CutUnique(a, '/', b);
    }
  }

  lemma {:induction false} JoinSplit(s: string)
    ensures Join(Split(s)) == s
    decreases |s|
  {
    var c := CutAt(s, '/');
    if c.found {
      JoinSplit(c.after);
      assert Split(s)[1..] == Split(c.after);
    }
  }

  lemma {:induction false} SplitJoin(segs: seq<string>)
    requires |segs| >= 1
    requires forall seg :: seg in segs ==> '/' !in seg
    ensures Split(Join(segs)) == segs
    decreases |segs|
  {
    if |segs| > 1 {
      SplitJoin(segs[1..]);
      CutUnique(segs[0], '/', Join(segs[1..]));
      assert segs[0] + "/" + Join(segs[1..]) == segs[0] + ['/'] + Join(segs[1..]);
      assert segs == [segs[0]] + segs[1..];
    }
  }

  /** Joining a list that continues is joining its parts. */
  lemma {:induction false} JoinConcat(xs: seq<string>, ys: seq<string>)
    requires |xs| >= 1 && |ys| >= 1
    ensures Join(xs + ys) == Join(xs) + "/" + Join(ys)
    decreases |xs|
  {
    if |xs| == 1 {
      assert (xs + ys)[1..] == ys;
    } else {
      assert (xs + ys)[1..] == xs[1..] + ys;
      JoinConcat(xs[1..], ys);
    }
  }

  lemma ConcatAssociates(a: string, b: string, c: string)
    ensures (a + b) + c == a + (b + c)
  {
  }

  /** strings.Contains. */
  predicate Contains(s: string, t: string)
  {
    exists i :: 0 <= i <= |s| && t <= s[i..]
  }

  lemma ContainsSuffix(a: string, b: string, t: string)
    requires Contains(b, t)
    ensures Contains(a + b, t)
  {
    var i :| 0 <= i <= |b| && t <= b[i..];
    assert (a + b)[|a| + i..] == b[i..];
  }

  /** A slash-free segment of a list is a segment of its join. */
  lemma {:induction false} SegmentOfJoin(segs: seq<string>, seg: string)
    requires seg in segs && '/' !in seg
    ensures seg in Split(Join(segs))
    decreases |segs|
  {
    if |segs| == 1 {
    } else {
      SplitConcat(segs[0], Join(segs[1..]));
      if seg != segs[0] {
        assert seg in segs[1..];
        SegmentOfJoin(segs[1..], seg);
      }
    }
  }

  /** A join ends with its last segment. */
  lemma {:induction false} JoinEnd(segs: seq<string>) returns (front: string)
    requires |segs| >= 1
    ensures Join(segs) == front + segs[|segs| - 1]
    decreases |segs|
  {
    if |segs| == 1 {
      front := "";
    } else {
      var f := JoinEnd(segs[1..]);
      front := segs[0] + "/" + f;
    }
  }
}
