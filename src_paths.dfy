/** Anchoring of a configured component path under `/src`, the step that the
    frontier plugin's `normalize` and the server's `normalizeComponentPath`
    both take after trimming. */
module SrcPaths {
  import opened Strings

  /** `p.replace(/^\.?\/?/, '')`: drops one leading `.`, then one leading `/`. */
  function StripDotSlash(p: string): (r: string)
    ensures |r| <= |p| && r == p[|p| - |r|..]
    ensures |p| - |r| <= 2
  {
    var t := if StartsWith(p, ".") then p[1..] else p;
    if StartsWith(t, "/") then t[1..] else t
  }

  /** An absolute path is kept, `src/...` gets a leading `/`, anything else is
      put under `/src/` without its leading `./`. */
  function AnchorInSrc(p: string): (r: string)
    ensures StartsWith(r, "/")
    ensures StartsWith(p, "/") <==> r == p
    ensures !StartsWith(p, "/") ==> StartsWith(r, "/src/")
  {
    if StartsWith(p, "/") then p
    else if StartsWith(p, "src/") then
      assert ("/" + p)[..5] == "/" + p[..4];
      "/" + p
    else "/src/" + StripDotSlash(p)
  }

  /** What the anchoring does to a relative path, case by case. */
  lemma AnchorInSrcCases(p: string)
    ensures !StartsWith(p, "/") && StartsWith(p, "src/") ==> AnchorInSrc(p) == "/" + p
    ensures !StartsWith(p, "/") && !StartsWith(p, "src/") ==>
              AnchorInSrc(p) == "/src/" + StripDotSlash(p)
    ensures !StartsWith(p, "/") && !StartsWith(p, "src/") && StartsWith(p, "./") ==>
              AnchorInSrc(p) == "/src/" + p[2..]
  {
    if StartsWith(p, "./") {
      assert p[0] == '.' && p[1..][0] == '/';
    }
  }

  /** Anchoring an anchored path changes nothing. */
  lemma AnchorInSrcIdempotent(p: string)
    ensures AnchorInSrc(AnchorInSrc(p)) == AnchorInSrc(p)
  {
  }

  /** Neither end of the text is whitespace. */
  predicate NoEdgeSpace(s: string) {
    |s| > 0 ==> !IsJsWhitespace(s[0]) && !IsJsWhitespace(s[|s| - 1])
  }

  /** Anchoring adds no whitespace at either end. */
  lemma AnchorKeepsEdges(p: string)
    requires NoEdgeSpace(p)
    ensures NoEdgeSpace(AnchorInSrc(p))
  {
    var r := AnchorInSrc(p);
    if !StartsWith(p, "/") {
      if StartsWith(p, "src/") {
        assert r == "/" + p;
        assert r[|r| - 1] == p[|p| - 1];
      } else {
        var t := StripDotSlash(p);
        assert r == "/src/" + t;
        if |t| > 0 {
          assert r[|r| - 1] == t[|t| - 1] == p[|p| - 1];
        }
      }
    }
  }

  /** Anchoring adds no character other than those of `/src/`. */
  lemma AnchorAddsNo(p: string, c: char)
    requires c !in p && c !in "/src/"
    ensures c !in AnchorInSrc(p)
  {
    var r := AnchorInSrc(p);
    if !StartsWith(p, "/") && !StartsWith(p, "src/") {
      var t := StripDotSlash(p);
      assert r == "/src/" + t;
      assert forall k :: 0 <= k < |t| ==> t[k] == p[|p| - |t| + k];
      assert forall k :: 0 <= k < |r| ==> r[k] in p || r[k] in "/src/";
    }
  }

  /** Replacing a character by one that is not whitespace keeps the ends
      free of whitespace. */
  lemma ReplaceKeepsEdges(t: string, x: char, y: char)
    requires NoEdgeSpace(t) && !IsJsWhitespace(y)
    ensures NoEdgeSpace(ReplaceChar(t, x, y))
  {
    var r := ReplaceChar(t, x, y);
    if |r| > 0 {
      assert r[0] == (if t[0] == x then y else t[0]);
      assert r[|r| - 1] == (if t[|t| - 1] == x then y else t[|t| - 1]);
    }
  }

  lemma TrimHasNoEdgeSpace(s: string)
    ensures NoEdgeSpace(Trim(s))
  {
  }
}
