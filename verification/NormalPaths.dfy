/** The normalization of a URL path, by which a server drops empty and "." segments and lets ".."
    take the segment before it away, and the paths it leaves alone. */
module NormalPaths {
  import opened Text

  /** The segments after normalization. */
  function Normalize(segs: seq<string>): (r: seq<string>)
    ensures |r| <= |segs|
  {
    if segs == [] then []
    else
      var front, last := Normalize(segs[..|segs| - 1]), segs[|segs| - 1];
      if last == "" || last == "." then front
      else if last == ".." then
        if front == [] then [] else front[..|front| - 1]
      else front + [last]
  }

  predicate IsNormal(path: string) {
    Normalize(Split(path)) == Split(path)
  }

  predicate NoDotSegments(segs: seq<string>) {
    "" !in segs && "." !in segs && ".." !in segs
  }

  /** Normalization changes every list that has an empty, "." or ".." segment, and no other. */
  lemma {:induction false} NormalizeExact(segs: seq<string>)
    ensures Normalize(segs) == segs <==> NoDotSegments(segs)
    decreases |segs|
  {
    if segs != [] {
      var front, last := segs[..|segs| - 1], segs[|segs| - 1];
      NormalizeExact(front);
      assert segs == front + [last];
      assert forall seg :: seg in segs <==> seg in front || seg == last;
      if Normalize(segs) == segs {
        LongEnough(segs);
      }
    }
  }

  lemma LongEnough(segs: seq<string>)
    requires segs != [] && Normalize(segs) == segs
    ensures var front, last := segs[..|segs| - 1], segs[|segs| - 1];
            last != "" && last != "." && last != ".." && Normalize(front) == front
  {
    var front, last := segs[..|segs| - 1], segs[|segs| - 1];
    assert |Normalize(front)| <= |front|;
    if last != "" && last != "." && last != ".." {
      assert segs == Normalize(front) + [last];
      assert segs[..|segs| - 1] == Normalize(front);
    }
  }
}
