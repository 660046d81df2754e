/** The server's view of the frontier configuration: the route segment each
    configured entrypoint serves, and which entry or component a request
    path selects.

    The configuration file is an input; of the request URL only its
    `pathname` is, `None` when `new URL(...)` throws. */
module Entries {
  import opened Wrappers
  import opened Strings
  import opened SrcPaths
  import opened FrontierConfig

  /** What `readFrontierConfig` returns when the file has an `entrypoints` array. */
  datatype Config = Config(name: ConfigValue, entrypoints: seq<ConfigValue>)

  /** `readFrontierConfig`: nothing without the file or without an
      `entrypoints` array; the name becomes `default` only when it is absent
      or `null`, and any other value, string or not, is kept. */
  function ReadFrontierConfig(file: ConfigFile): (r: Option<Config>)
    ensures r.Some? <==> file.Parsed? && file.entrypoints.Some?
    ensures r.Some? ==> r.value.entrypoints == file.entrypoints.value
    ensures r.Some? && file.name.None? ==> r.value.name == Str("default")
    ensures r.Some? && file.name.Some? ==> r.value.name == file.name.value
  {
    if file.Missing? || file.entrypoints.None? then None
    else Some(Config(if file.name.Some? then file.name.value else Str("default"), file.entrypoints.value))
  }

  /** `normalizeComponentPath`: the trimmed path anchored under `/src`. */
  function NormalizeComponentPath(rawPath: string): (r: string)
    ensures StartsWith(r, "/")
    ensures NoEdgeSpace(r)
  {
    TrimHasNoEdgeSpace(rawPath);
    AnchorKeepsEdges(Trim(rawPath));
    AnchorInSrc(Trim(rawPath))
  }

  /** The three cases of `normalizeComponentPath`. */
  lemma NormalizeComponentPathCases(rawPath: string)
    ensures var p := Trim(rawPath);
            && (StartsWith(p, "/") ==> NormalizeComponentPath(rawPath) == p)
            && (!StartsWith(p, "/") && StartsWith(p, "src/") ==> NormalizeComponentPath(rawPath) == "/" + p)
            && (!StartsWith(p, "/") && !StartsWith(p, "src/") ==>
                  NormalizeComponentPath(rawPath) == "/src/" + StripDotSlash(p))
            && (!StartsWith(p, "/") && !StartsWith(p, "src/") && StartsWith(p, "./") ==>
                  NormalizeComponentPath(rawPath) == "/src/" + p[2..])
  {
    AnchorInSrcCases(Trim(rawPath));
  }

  /** A normalized path normalizes to itself. */
  lemma NormalizeComponentPathIdempotent(rawPath: string)
    ensures NormalizeComponentPath(NormalizeComponentPath(rawPath)) == NormalizeComponentPath(rawPath)
  {
    TrimNoEdges(NormalizeComponentPath(rawPath));
  }

  /** The longest prefix without `/`. */
  function SegmentOf(s: string): (r: string)
    ensures '/' !in r && StartsWith(s, r)
    ensures |r| < |s| ==> s[|r|] == '/'
  {
    var i := IndexOf(s, '/');
    if i == -1 then s else s[..i]
  }

  const EntriesDir := "/src/entries/"

  /** The match of `/\/src\/entries\/([^/]+)/`: the segment after the first
      `/src/entries/` that is followed by something other than `/`. */
  function EntriesMatch(p: string): (r: Option<string>)
    ensures r.Some? ==> r.value != "" && '/' !in r.value && Contains(p, EntriesDir + r.value)
    decreases |p|
  {
    if StartsWith(p, EntriesDir) && |p| > |EntriesDir| && p[|EntriesDir|] != '/' then
      var seg := SegmentOf(p[|EntriesDir|..]);
      assert p[..|EntriesDir| + |seg|] == EntriesDir + seg;
      Some(seg)
    else if |p| == 0 then None
    else EntriesMatch(p[1..])
  }

  /** The match finds a segment whenever one is there. */
  lemma {:induction false} EntriesMatchComplete(p: string, c: char)
    requires c != '/' && Contains(p, EntriesDir + [c])
    ensures EntriesMatch(p).Some?
    decreases |p|
  {
    if StartsWith(p, EntriesDir + [c]) {
      assert p[..|EntriesDir|] == (EntriesDir + [c])[..|EntriesDir|];
      assert p[|EntriesDir|] == c;
    } else {
      EntriesMatchComplete(p[1..], c);
    }
  }

  /** The pattern `/src/entries/` occurs at `i`, followed by a character
      other than `/`. */
  predicate MatchAt(p: string, i: int) {
    0 <= i && i + |EntriesDir| < |p| && StartsWith(p[i..], EntriesDir) && p[i + |EntriesDir|] != '/'
  }

  lemma MatchAtShift(p: string, j: int)
    requires |p| > 0 && 0 <= j
    ensures MatchAt(p, j + 1) <==> MatchAt(p[1..], j)
  {
    if j + 1 + |EntriesDir| < |p| {
      assert p[1..][j..] == p[j + 1..];
    }
  }

  /** Without a match at the front, the pattern occurs nowhere before
      `n + 1` in `p` exactly when it occurs nowhere before `n` in `p[1..]`. */
  lemma NoMatchBefore(p: string, n: int)
    requires |p| > 0 && !MatchAt(p, 0) && 0 <= n
    requires forall j :: 0 <= j < n ==> !MatchAt(p[1..], j)
    ensures forall j :: 0 <= j < n + 1 ==> !MatchAt(p, j)
  {
    forall j | 0 < j < n + 1 ensures !MatchAt(p, j) {
      MatchAtShift(p, j - 1);
    }
  }

  /** The match is the whole segment after the FIRST occurrence of the
      pattern, and there is none exactly when the pattern never occurs. */
  lemma {:induction false} EntriesMatchFirst(p: string)
    ensures EntriesMatch(p).Some? ==>
              exists i :: && MatchAt(p, i)
                          && (forall j :: 0 <= j < i ==> !MatchAt(p, j))
                          && EntriesMatch(p).value == SegmentOf(p[i + |EntriesDir|..])
    ensures EntriesMatch(p).None? ==> forall j :: !MatchAt(p, j)
    decreases |p|
  {
    assert p[0..] == p;
    if MatchAt(p, 0) {
    } else if |p| == 0 {
    } else {
      assert EntriesMatch(p) == EntriesMatch(p[1..]);
      EntriesMatchFirst(p[1..]);
      if EntriesMatch(p[1..]).Some? {
        var i :| && MatchAt(p[1..], i)
                 && (forall j :: 0 <= j < i ==> !MatchAt(p[1..], j))
                 && EntriesMatch(p[1..]).value == SegmentOf(p[1..][i + |EntriesDir|..]);
        MatchAtShift(p, i);
        assert p[1..][i + |EntriesDir|..] == p[i + 1 + |EntriesDir|..];
        NoMatchBefore(p, i);
      } else {
        forall j ensures !MatchAt(p, j) {
          if j > 0 { MatchAtShift(p, j - 1); }
        }
      }
    }
  }

  /** The first non-empty part, `parts.filter(Boolean)[0]`. */
  function FirstNonEmpty(parts: seq<string>): (r: Option<string>)
    ensures r.Some? ==> r.value != "" && r.value in parts
    ensures r.Some? ==> exists k :: && 0 <= k < |parts| && parts[k] == r.value
                                    && (forall j :: 0 <= j < k ==> parts[j] == "")
    ensures r.None? <==> forall k :: 0 <= k < |parts| ==> parts[k] == ""
    decreases |parts|
  {
    if |parts| == 0 then None
    else if parts[0] != "" then Some(parts[0])
    else
      var r := FirstNonEmpty(parts[1..]);
      assert forall k :: 1 <= k < |parts| ==> parts[k] == parts[1..][k - 1];
      r
  }

  /** The first non-empty `/`-separated segment of a path. */
  function FirstSegment(path: string): (r: Option<string>)
    ensures r.Some? ==> r.value != "" && '/' !in r.value
  {
    SplitPartsFree(path, '/');
    FirstNonEmpty(Split(path, '/'))
  }

  /** `deriveRouteSegmentFromPath`: the segment after `/src/entries/` when
      there is one; else the first segment after a leading `/src/`; else
      `main`. */
  function DeriveRouteSegmentFromPath(rawPath: string): (r: string)
    ensures r != "" && '/' !in r
    ensures EntriesMatch(NormalizeComponentPath(rawPath)).Some? ==>
              r == EntriesMatch(NormalizeComponentPath(rawPath)).value
  {
    var p := NormalizeComponentPath(rawPath);
    match EntriesMatch(p)
    case Some(seg) => seg
    case None => FallbackSegment(p)
  }

  /** The first segment after a leading `/src/`, or `main` when there is none. */
  function FallbackSegment(p: string): (r: string)
    ensures r != "" && '/' !in r
  {
    var rest := if StartsWith(p, "/src/") then p[5..] else p;
    var first := FirstSegment(rest);
    if first.Some? then first.value else MainSegment()
  }

  function MainSegment(): (r: string)
    ensures r == "main" && '/' !in r
  {
    assert "main" == ['m', 'a', 'i', 'n'];
    "main"
  }

  /** Without an `/src/entries/<segment>`, the route is the first segment
      after `/src/`, or `main` when there is none. */
  lemma DeriveRouteFallback(rawPath: string)
    requires EntriesMatch(NormalizeComponentPath(rawPath)).None?
    ensures var p := NormalizeComponentPath(rawPath);
            var rest := if StartsWith(p, "/src/") then p[5..] else p;
            && (FirstSegment(rest).Some? ==> DeriveRouteSegmentFromPath(rawPath) == FirstSegment(rest).value)
            && (FirstSegment(rest).None? ==> DeriveRouteSegmentFromPath(rawPath) == "main")
  {
  }

  /** With `/src/entries/` first occurring at `i` before a non-`/`
      character, the route is the whole segment that follows it. */
  lemma DeriveRouteEntriesSegment(rawPath: string, i: int)
    requires MatchAt(NormalizeComponentPath(rawPath), i)
    requires forall j :: 0 <= j < i ==> !MatchAt(NormalizeComponentPath(rawPath), j)
    ensures var p := NormalizeComponentPath(rawPath);
            DeriveRouteSegmentFromPath(rawPath) == SegmentOf(p[i + |EntriesDir|..])
  {
    var p := NormalizeComponentPath(rawPath);
    EntriesMatchAt(p, i);
  }

  /** The same fact about the match alone. */
  lemma EntriesMatchAt(p: string, i: int)
    requires MatchAt(p, i)
    requires forall j :: 0 <= j < i ==> !MatchAt(p, j)
    ensures EntriesMatch(p) == Some(SegmentOf(p[i + |EntriesDir|..]))
  {
    EntriesMatchFirst(p);
    var i' :| && MatchAt(p, i')
              && (forall j :: 0 <= j < i' ==> !MatchAt(p, j))
              && EntriesMatch(p).value == SegmentOf(p[i' + |EntriesDir|..]);
    assert i' == i;
  }

  /** `route` applied to every entrypoint, all strings, in order. */
  function RoutesBy(es: seq<ConfigValue>, route: string -> string): (rs: seq<string>)
    requires AllStrings(es)
    ensures |rs| == |es|
    ensures forall k {:trigger rs[k]} :: 0 <= k < |es| ==> rs[k] == route(es[k].s)
    decreases |es|
  {
    if |es| == 0 then []
    else
      var rest := es[1..];
      assert forall k :: 0 <= k < |rest| ==> rest[k] == es[k + 1];
      [route(es[0].s)] + RoutesBy(rest, route)
  }

  /** The routes of a list of entrypoints, all strings. */
  function Routes(es: seq<ConfigValue>): (rs: seq<string>)
    requires AllStrings(es)
    ensures |rs| == |es|
    ensures forall k {:trigger rs[k]} :: 0 <= k < |es| ==> rs[k] == DeriveRouteSegmentFromPath(es[k].s)
  {
    RoutesBy(es, DeriveRouteSegmentFromPath)
  }

  /** `.filter(Boolean)` on strings. */
  function NonEmptyOnly(xs: seq<string>): (r: seq<string>)
    ensures |r| <= |xs|
    ensures forall k :: 0 <= k < |r| ==> r[k] != ""
    decreases |xs|
  {
    if |xs| == 0 then []
    else (if xs[0] != "" then [xs[0]] else []) + NonEmptyOnly(xs[1..])
  }

  /** `listAvailableEntries`: the route of every entrypoint, nothing without
      a configuration; a non-string entrypoint makes `trim` throw. */
  function ListAvailableEntries(file: ConfigFile): (r: Result<seq<string>>)
    ensures ReadFrontierConfig(file).None? ==> r == Success([])
    ensures r.Failure? <==> ReadFrontierConfig(file).Some? && !AllStrings(ReadFrontierConfig(file).value.entrypoints)
    ensures r.Success? ==> forall k :: 0 <= k < |r.value| ==> r.value[k] != ""
  {
    match ReadFrontierConfig(file)
    case None => Success([])
    case Some(config) =>
      if !AllStrings(config.entrypoints) then Failure("TypeError")
      else Success(NonEmptyOnly(Routes(config.entrypoints)))
  }

  lemma {:induction false} NonEmptyOnlyKeeps(xs: seq<string>)
    requires forall k :: 0 <= k < |xs| ==> xs[k] != ""
    ensures NonEmptyOnly(xs) == xs
    decreases |xs|
  {
    if |xs| > 0 {
      NonEmptyOnlyKeeps(xs[1..]);
    }
  }

  /** The filter drops nothing, since no route is empty: one route per
      entrypoint, in order. */
  lemma ListedRoutes(file: ConfigFile)
    requires ReadFrontierConfig(file).Some? && AllStrings(ReadFrontierConfig(file).value.entrypoints)
    ensures ListAvailableEntries(file) == Success(Routes(ReadFrontierConfig(file).value.entrypoints))
  {
    NonEmptyOnlyKeeps(Routes(ReadFrontierConfig(file).value.entrypoints));
  }

  /** `resolveEntryNameFromUrl`: the first path segment when it is a listed
      route; `main` otherwise, and whenever the URL or the configuration
      throws. */
  function ResolveEntryNameFromUrl(file: ConfigFile, pathname: Option<string>): (r: string)
    ensures r != "main" ==>
              && pathname.Some? && FirstSegment(pathname.value) == Some(r)
              && ListAvailableEntries(file).Success? && r in ListAvailableEntries(file).value
  {
    if pathname.None? then "main"
    else
      var first := FirstSegment(pathname.value);
      match ListAvailableEntries(file)
      case Failure(_) => "main"
      case Success(entries) =>
        if first.Some? && first.value in entries then first.value else "main"
  }

  /** The loop of `resolveComponentPathFromUrl` for a route and a
      normalization: the first string entrypoint whose route is `first`,
      normalized; nothing when none matches, and nothing when a non-string is
      reached first (`trim` throws and the exception is caught). */
  function FindBy(es: seq<ConfigValue>, first: string, route: string -> string, norm: string -> string): Option<string>
    decreases |es|
  {
    if |es| == 0 then None
    else if es[0].NonString? then None
    else if route(es[0].s) == first then Some(norm(es[0].s))
    else FindBy(es[1..], first, route, norm)
  }

  /** The search of `resolveComponentPathFromUrl`: a result is the normalized
      path of an entrypoint whose route is `first`. */
  function FindComponent(es: seq<ConfigValue>, first: string): (r: Option<string>)
    ensures r.Some? ==> exists k :: 0 <= k < |es| && es[k].Str? && DeriveRouteSegmentFromPath(es[k].s) == first
                                    && r.value == NormalizeComponentPath(es[k].s)
  {
    FindByWitness(es, first, DeriveRouteSegmentFromPath, NormalizeComponentPath);
    FindBy(es, first, DeriveRouteSegmentFromPath, NormalizeComponentPath)
  }

  lemma {:induction false} FindByWitness(es: seq<ConfigValue>, first: string, route: string -> string,
                                         norm: string -> string)
    ensures FindBy(es, first, route, norm).Some? ==>
              exists k :: 0 <= k < |es| && es[k].Str? && route(es[k].s) == first
                          && FindBy(es, first, route, norm).value == norm(es[k].s)
    decreases |es|
  {
    if |es| > 0 && es[0].Str? && route(es[0].s) != first {
      var rest := es[1..];
      FindByWitness(rest, first, route, norm);
      if FindBy(rest, first, route, norm).Some? {
        var k :| 0 <= k < |rest| && rest[k].Str? && route(rest[k].s) == first
                 && FindBy(rest, first, route, norm).value == norm(rest[k].s);
        assert es[k + 1] == rest[k];
      }
    }
  }

  /** `resolveComponentPathFromUrl`. */
  function ResolveComponentPathFromUrl(file: ConfigFile, pathname: Option<string>): (r: Option<string>)
    ensures r.Some? ==>
              && ReadFrontierConfig(file).Some? && pathname.Some? && FirstSegment(pathname.value).Some?
              && var es := ReadFrontierConfig(file).value.entrypoints;
                 exists k :: 0 <= k < |es| && es[k].Str?
                             && DeriveRouteSegmentFromPath(es[k].s) == FirstSegment(pathname.value).value
                             && r.value == NormalizeComponentPath(es[k].s)
  {
    match ReadFrontierConfig(file)
    case None => None
    case Some(config) =>
      if |config.entrypoints| == 0 || pathname.None? then None
      else
        var first := FirstSegment(pathname.value);
        if first.None? then None else FindComponent(config.entrypoints, first.value)
  }

  lemma {:induction false} FindByFirst(es: seq<ConfigValue>, first: string, route: string -> string,
                                       norm: string -> string, k: nat)
    requires k < |es| && forall j :: 0 <= j <= k ==> es[j].Str?
    requires forall j {:trigger route(es[j].s)} :: 0 <= j < k ==> route(es[j].s) != first
    requires route(es[k].s) == first
    ensures FindBy(es, first, route, norm) == Some(norm(es[k].s))
    decreases k
  {
    if k > 0 {
      assert route(es[0].s) != first;
      var rest := es[1..];
      forall j | 0 <= j <= k - 1 ensures rest[j].Str? {
        assert rest[j] == es[j + 1];
      }
      forall j | 0 <= j < k - 1 ensures route(rest[j].s) != first {
        assert rest[j] == es[j + 1];
        assert route(es[j + 1].s) != first;
      }
      assert rest[k - 1] == es[k];
      FindByFirst(rest, first, route, norm, k - 1);
    }
  }

  lemma {:induction false} FindByNone(es: seq<ConfigValue>, first: string, route: string -> string,
                                      norm: string -> string)
    requires AllStrings(es)
    ensures FindBy(es, first, route, norm).None? <==> first !in RoutesBy(es, route)
    decreases |es|
  {
    if |es| > 0 {
      var rest := es[1..];
      assert forall k :: 0 <= k < |rest| ==> rest[k] == es[k + 1];
      FindByNone(rest, first, route, norm);
      assert RoutesBy(es, route) == [route(es[0].s)] + RoutesBy(rest, route);
    }
  }

  /** The search returns the normalized path of the first entrypoint whose
      route matches, and only that. */
  lemma FindComponentFirst(es: seq<ConfigValue>, first: string, k: nat)
    requires k < |es| && forall j :: 0 <= j <= k ==> es[j].Str?
    requires forall j {:trigger DeriveRouteSegmentFromPath(es[j].s)} :: 0 <= j < k ==> DeriveRouteSegmentFromPath(es[j].s) != first
    requires DeriveRouteSegmentFromPath(es[k].s) == first
    ensures FindComponent(es, first) == Some(NormalizeComponentPath(es[k].s))
  {
    FindByFirst(es, first, DeriveRouteSegmentFromPath, NormalizeComponentPath, k);
  }

  /** With string entrypoints only, nothing is found exactly when no route
      matches. */
  lemma FindComponentNone(es: seq<ConfigValue>, first: string)
    requires AllStrings(es)
    ensures FindComponent(es, first).None? <==> first !in Routes(es)
  {
    FindByNone(es, first, DeriveRouteSegmentFromPath, NormalizeComponentPath);
  }

  /** With string entrypoints only, the component is found exactly when the
      entry name is the first segment rather than `main`'s fallback: the
      server renders a component for a request precisely when it picks that
      request's own entry. */
  lemma ComponentIffEntry(file: ConfigFile, pathname: string)
    requires ReadFrontierConfig(file).Some? && AllStrings(ReadFrontierConfig(file).value.entrypoints)
    ensures var first := FirstSegment(pathname);
            && (ResolveComponentPathFromUrl(file, Some(pathname)).Some? <==>
                  first.Some? && first.value in Routes(ReadFrontierConfig(file).value.entrypoints))
            && (ResolveComponentPathFromUrl(file, Some(pathname)).Some? ==>
                  ResolveEntryNameFromUrl(file, Some(pathname)) == first.value)
            && (ResolveComponentPathFromUrl(file, Some(pathname)).None? ==>
                  ResolveEntryNameFromUrl(file, Some(pathname)) == "main")
  {
    var es := ReadFrontierConfig(file).value.entrypoints;
    ListedRoutes(file);
    var first := FirstSegment(pathname);
    if first.Some? {
      FindComponentNone(es, first.value);
    }
  }
}
