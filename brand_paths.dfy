/** The module-level helpers of the brand-overlay plugin: ids and their brand
    annotations, the project path of an id, and the overlay path of a module
    for a brand.

    Paths use `/` as the separator. `path.join` is modelled for normalized
    segments only (see `PathJoin`), and `encodeURIComponent` of a brand name is
    the identity. */
module BrandPaths {
  import opened Wrappers
  import opened Strings
  import opened Query

  // ---- Ids, queries and brand annotations ----

  /** `stripQuery`: the id up to, not including, its first `?`. */
  function StripQuery(id: string): (r: string)
    ensures '?' !in r
    ensures StartsWith(id, r)
    ensures '?' !in id ==> r == id
    ensures '?' in id ==> id[|r|] == '?'
  {
    var q := IndexOf(id, '?');
    if q == -1 then id else id[..q]
  }

  /** The parameters after the first `?` of an id, as `new URLSearchParams`
      of that text reads them; `None` when the id has no `?`. */
  function IdParams(id: string): Option<seq<Param>> {
    match QueryText(id)
    case None => None
    case Some(t) => Some(SearchParams(t))
  }

  /** The text after the first `?` of an id; `None` when it has no `?`. */
  function QueryText(id: string): (r: Option<string>)
    ensures r.None? <==> '?' !in id
  {
    var q := IndexOf(id, '?');
    if q == -1 then None else Some(id[q + 1..])
  }

  /** A parameter's value, with the empty string counting as absent (the
      `||` of the source). */
  function NonEmpty(v: Option<string>): (r: Option<string>)
    ensures r.Some? ==> r.value != "" && r == v
    ensures v.Some? && v.value != "" ==> r == v
  {
    if v.Some? && v.value != "" then v else None
  }

  /** `tryGetBrandFromId`: a non-empty `brand` parameter, else a non-empty
      `__brand` parameter, else nothing; nothing at all without a `?`. */
  function TryGetBrandFromId(id: string): (r: Option<string>)
    ensures '?' !in id ==> r.None?
    ensures r.Some? ==> r.value != ""
    ensures r.Some? ==> IdParams(id).Some?
  {
    match IdParams(id)
    case None => None
    case Some(ps) =>
      var brand := NonEmpty(Get(ps, "brand"));
      if brand.Some? then brand else NonEmpty(Get(ps, "__brand"))
  }

  /** An id with a brand has a query. */
  lemma HasQuery(id: string)
    requires TryGetBrandFromId(id).Some?
    ensures '?' in id
  {
  }

  /** `getBrandForImporter`: only an explicit query on the importer counts. */
  function BrandForImporter(importer: Option<string>): (r: Option<string>)
    ensures importer.None? ==> r.None?
    ensures importer.Some? ==> r == TryGetBrandFromId(importer.value)
  {
    if importer.None? || importer.value == "" then None
    else TryGetBrandFromId(importer.value)
  }

  /** `normalizeFsPath`: drops the dev server's `/@fs` prefix. */
  function NormalizeFsPath(p: string): (r: string)
    ensures StartsWith(p, "/@fs/") ==> "/@fs" + r == p && StartsWith(r, "/")
    ensures !StartsWith(p, "/@fs/") ==> r == p
  {
    if StartsWith(p, "/@fs/") then
      assert p == "/@fs" + p[4..];
      assert p[4..][..1] == "/";
      p[4..]
    else p
  }

  /** `path.join(a, b)` for normalized segments: one separator between them.
      The removal of empty, `.` and `..` segments is not modelled. */
  function PathJoin(a: string, b: string): (r: string)
    ensures a == "" ==> r == b
    ensures a != "" && EndsWith(a, "/") ==> r == a + b
    ensures a != "" && !EndsWith(a, "/") ==> r == a + "/" + b
  {
    if a == "" then b else if EndsWith(a, "/") then a + b else a + "/" + b
  }

  /** Joining a normalized directory and a normalized relative path gives a
      normalized path: the directory, one separator, then the path. */
  lemma PathJoinNormalized(a: string, b: string)
    requires a != "" && b != "" && b[0] != '/'
    requires NoDoubleSlash(a) && NoDoubleSlash(b)
    ensures var r := PathJoin(a, b);
            && StartsWith(r, a) && EndsWith(r, "/" + b) && |r| <= |a| + 1 + |b|
            && NoDoubleSlash(r)
  {
    var r := PathJoin(a, b);
    if EndsWith(a, "/") {
      assert r == a + b;
      assert a[|a| - 1] == '/';
      assert r[|r| - |b| - 1..] == "/" + b;
      forall k | 0 <= k < |r| - 1
        ensures r[k] != '/' || r[k + 1] != '/'
      {
        if k < |a| - 1 {
          assert r[k] == a[k] && r[k + 1] == a[k + 1];
        } else if k == |a| - 1 {
          assert r[k + 1] == b[0];
        } else {
          assert r[k] == b[k - |a|] && r[k + 1] == b[k + 1 - |a|];
        }
      }
    } else {
      assert r == a + "/" + b;
      assert a[|a| - 1] != '/' by {
        assert a[|a| - 1..] == [a[|a| - 1]];
      }
      assert r[|r| - |b| - 1..] == "/" + b;
      forall k | 0 <= k < |r| - 1
        ensures r[k] != '/' || r[k + 1] != '/'
      {
        if k < |a| - 1 {
          assert r[k] == a[k] && r[k + 1] == a[k + 1];
        } else if k == |a| - 1 {
          assert r[k] == a[|a| - 1];
        } else if k == |a| {
          assert r[k + 1] == b[0];
        } else {
          assert r[k] == b[k - |a| - 1] && r[k + 1] == b[k - |a|];
        }
      }
    }
  }

  /** `toProjectFsPath`: an id without its query, with a `/src/...` id of the
      dev server mapped under the project root. */
  function ToProjectFsPath(id: string, root: string): (r: string)
    ensures '?' !in root ==> '?' !in r
  {
    var s := StripQuery(NormalizeFsPath(id));
    if StartsWith(s, "/src/") then
      var r := PathJoin(root, s[1..]);
      assert '?' !in root ==> '?' !in r by {
        if '?' !in root {
          assert forall k :: 0 <= k < |r| ==> r[k] in root || r[k] == '/' || r[k] in s[1..];
        }
      }
      r
    else s
  }

  /** `stripQuery` and `normalizeFsPath` commute: the dev-server prefix holds
      no `?`. */
  lemma StripNormalizeCommute(id: string)
    ensures StripQuery(NormalizeFsPath(id)) == NormalizeFsPath(StripQuery(id))
  {
    var p := StripQuery(id);
    if '?' !in id {
      NoQueryNormalized(id);
    } else {
      var q := IndexOf(id, '?');
      assert p == id[..q];
      if StartsWith(id, "/@fs/") {
        assert q >= 5;
        assert p[..5] == id[..5];
        var t := id[4..];
        assert t[q - 4] == '?';
        assert t[..q - 4] == id[4..q];
        IndexOfUnique(t, '?', q - 4);
        assert p[4..] == id[4..q];
      } else {
        assert !StartsWith(p, "/@fs/") by {
          if |p| >= 5 { assert p[..5] == id[..5]; }
        }
      }
    }
  }

  lemma NoQueryNormalized(p: string)
    requires '?' !in p
    ensures StripQuery(NormalizeFsPath(p)) == NormalizeFsPath(p)
  {
    if StartsWith(p, "/@fs/") {
      assert forall k :: 0 <= k < |p[4..]| ==> p[4..][k] == p[k + 4];
    }
  }

  /** The query of an id plays no part in its project path. */
  lemma ToProjectFsPathQueryFree(id: string, root: string)
    ensures ToProjectFsPath(id, root) == ToProjectFsPath(StripQuery(id), root)
  {
    var p := StripQuery(id);
    StripNormalizeCommute(id);
    NoQueryNormalized(p);
  }

  /** A dev-server `/src/...` path lies under the root: `<root>/src/...`, for
      a root without a trailing separator. */
  lemma ToProjectFsPathDevSrc(p: string, root: string)
    requires '?' !in p && StartsWith(p, "/src/")
    requires root != "" && !EndsWith(root, "/")
    ensures ToProjectFsPath(p, root) == root + p
  {
    assert p[1] == 's';
    assert NormalizeFsPath(p) == p;
    assert root + "/" + p[1..] == root + p by {
      assert p == "/" + p[1..];
    }
  }

  /** A `/@fs/...` id of a file outside the project is that file's path. */
  lemma ToProjectFsPathFs(p: string, root: string)
    requires '?' !in p && StartsWith(p, "/") && !StartsWith(p, "/src/")
    ensures ToProjectFsPath("/@fs" + p, root) == p
  {
    var id := "/@fs" + p;
    assert id[..5] == "/@fs/";
    assert id[4..] == p;
    assert '?' !in id by {
      assert forall k :: 0 <= k < |id| ==> id[k] in "/@fs" || id[k] in p;
    }
  }

  /** `path.resolve(root, 'src')` for an absolute, normalized root. */
  function SrcDir(root: string): string {
    PathJoin(root, "src")
  }

  /** `isInsideSrc`: the project path lies strictly below `<root>/src`. */
  predicate IsInsideSrc(resolvedId: string, root: string) {
    StartsWith(ToProjectFsPath(resolvedId, root), SrcDir(root) + "/")
  }

  // ---- Overlay paths ----

  /** The directory part of a path including its final separator (empty for a
      path without `/`); the path is this prefix followed by its base name. */
  function DirPrefix(s: string): (d: string)
    ensures StartsWith(s, d)
    ensures d == "" || EndsWith(d, "/")
    ensures '/' !in s[|d|..]
  {
    var k := LastIndexOf(s, '/');
    if k == -1 then
      assert s[0..] == s;
      ""
    else
      SlashEnds(s, k);
      s[..k + 1]
  }

  lemma SlashEnds(s: string, k: nat)
    requires k < |s| && s[k] == '/'
    ensures EndsWith(s[..k + 1], "/")
  {
    assert s[..k + 1][k..] == [s[k]];
  }

  /** `path.parse(s).base` */
  function BaseName(s: string): (b: string)
    ensures DirPrefix(s) + b == s
    ensures '/' !in b
  {
    s[|DirPrefix(s)|..]
  }

  /** `path.parse(s).dir`: the directory part without its final separator,
      except for a file directly under `/`. */
  function ParsedDir(s: string): (dir: string)
    ensures DirPrefix(s) == "" ==> dir == ""
    ensures DirPrefix(s) == "/" ==> dir == "/"
    ensures |DirPrefix(s)| > 1 ==> dir + "/" == DirPrefix(s)
  {
    var d := DirPrefix(s);
    if |d| <= 1 then d
    else
      assert d == d[..|d| - 1] + "/";
      d[..|d| - 1]
  }

  /** The segment `/brands/<brand>/` that marks a brand-scoped path. */
  function BrandSegment(brand: string): string {
    "/brands/" + brand + "/"
  }

  /** `path.join(dir, 'brands', brand, base)` */
  function OverlayJoin(dir: string, brand: string, base: string): string {
    PathJoin(PathJoin(PathJoin(dir, "brands"), brand), base)
  }

  /** The brand-scope test and overlay of `computeOverlayPath` as the source
      writes them, on a project path: it looks for `/brands/<brand>/` in
      `path.parse(...).dir`, which carries no trailing separator, so a file
      directly inside `brands/<brand>/` is not seen as brand-scoped. See
      `OverlayAsWrittenDoubleNests`. */
  function OverlayOfAsWritten(s: string, brand: string): (r: string)
    ensures Contains(ParsedDir(s), BrandSegment(brand)) ==> r == s
    ensures BaseName(r) == BaseName(s)
  {
    var dir := ParsedDir(s);
    if Contains(dir, BrandSegment(brand)) then s
    else
      OverlayKeepsBase(dir, brand, BaseName(s));
      OverlayJoin(dir, brand, BaseName(s))
  }

  /** `computeOverlayPath` as the source writes it: the file's project path
      when its directory is seen as brand-scoped, otherwise the same file
      name inside `brands/<brand>` of its directory. */
  function ComputeOverlayPathAsWritten(resolvedFile: string, brand: string, root: string): (r: string)
    ensures var s := ToProjectFsPath(resolvedFile, root);
            && BaseName(r) == BaseName(s)
            && (Contains(ParsedDir(s), BrandSegment(brand)) ==> r == s)
  {
    OverlayOfAsWritten(ToProjectFsPath(resolvedFile, root), brand)
  }

  /** `path.join` keeps the last piece as the base name. */
  lemma JoinKeepsBase(a: string, b: string)
    requires '/' !in b
    ensures BaseName(PathJoin(a, b)) == b
  {
    if a == "" {
      DirPrefixOf("", b);
    } else if EndsWith(a, "/") {
      DirPrefixOf(a, b);
    } else {
      assert PathJoin(a, b) == (a + "/") + b;
      assert EndsWith(a + "/", "/");
      DirPrefixOf(a + "/", b);
    }
  }

  lemma OverlayKeepsBase(dir: string, brand: string, base: string)
    requires '/' !in base
    ensures BaseName(OverlayJoin(dir, brand, base)) == base
  {
    JoinKeepsBase(PathJoin(PathJoin(dir, "brands"), brand), base);
  }

  /** The overlay of a project path with the brand-scope test applied to the
      directory including its separator, as the comment in the source intends:
      a path already under `brands/<brand>/` is returned unchanged, any other
      gets `brands/<brand>` inserted before its base name. */
  function OverlayOf(s: string, brand: string): (r: string)
    ensures Contains(DirPrefix(s), BrandSegment(brand)) ==> r == s
    ensures BaseName(r) == BaseName(s)
  {
    if Contains(DirPrefix(s), BrandSegment(brand)) then s
    else
      OverlayKeepsBase(ParsedDir(s), brand, BaseName(s));
      OverlayJoin(ParsedDir(s), brand, BaseName(s))
  }

  /** `computeOverlayPath` with the corrected brand-scope test (see
      `OverlayOf`): the same file name, inside `brands/<brand>` unless it
      already is. */
  function ComputeOverlayPath(resolvedFile: string, brand: string, root: string): (r: string)
    ensures var s := ToProjectFsPath(resolvedFile, root);
            && BaseName(r) == BaseName(s)
            && (Contains(DirPrefix(s), BrandSegment(brand)) ==> r == s)
  {
    OverlayOf(ToProjectFsPath(resolvedFile, root), brand)
  }

  // ---- Properties of the overlay path ----

  /** No two separators in a row. */
  predicate NoDoubleSlash(s: string) {
    forall k :: 0 <= k < |s| - 1 ==> s[k] != '/' || s[k + 1] != '/'
  }

  /** A path that `toProjectFsPath` leaves alone and whose segments are
      normalized: absolute, no query, no dev-server prefix, no `//`. */
  predicate IsProjectPath(p: string) {
    StartsWith(p, "/") && '?' !in p && !StartsWith(p, "/@fs/") && !StartsWith(p, "/src/")
    && NoDoubleSlash(p)
  }

  lemma ProjectPathFixed(p: string, root: string)
    requires IsProjectPath(p)
    ensures ToProjectFsPath(p, root) == p
  {
  }

  /** The base name follows the last separator. */
  lemma DirPrefixOf(d: string, b: string)
    requires d == "" || EndsWith(d, "/")
    requires '/' !in b
    ensures DirPrefix(d + b) == d && BaseName(d + b) == b
  {
    var s := d + b;
    var k := LastIndexOf(s, '/');
    if d == "" {
      assert s == b;
    } else {
      assert s[|d| - 1] == '/';
      assert s[|d|..] == b;
      assert s[..k + 1] == d;
    }
  }

  /** `path.join` after a segment that does not end in a separator adds one. */
  lemma JoinAfterSegment(a: string, b: string)
    requires a != "" && a[|a| - 1] != '/'
    ensures PathJoin(a, b) == a + "/" + b
  {
    assert !EndsWith(a, "/") by {
      assert a[|a| - 1..] == [a[|a| - 1]];
    }
  }

  /** Joining `brands` to the parsed directory of a normalized path appends it
      to the directory prefix. */
  lemma JoinBrandsToDir(s: string)
    requires NoDoubleSlash(s)
    ensures PathJoin(ParsedDir(s), "brands") == DirPrefix(s) + "brands"
  {
    var d := DirPrefix(s);
    var dir := ParsedDir(s);
    if |d| > 1 {
      assert s[|d| - 1] == '/';
      assert dir[|dir| - 1] == s[|d| - 2];
      JoinAfterSegment(dir, "brands");
    }
  }

  /** `path.join(dir, 'brands', brand, base)` on a normalized path is its
      directory prefix, then `brands/<brand>/`, then its base name. */
  lemma OverlayJoinShape(s: string, brand: string)
    requires brand != "" && '/' !in brand
    requires NoDoubleSlash(s)
    ensures OverlayJoin(ParsedDir(s), brand, BaseName(s))
            == DirPrefix(s) + "brands/" + brand + "/" + BaseName(s)
  {
    var d := DirPrefix(s);
    var base := BaseName(s);
    JoinBrandsToDir(s);
    var j1 := d + "brands";
    JoinAfterSegment(j1, brand);
    var j2 := j1 + "/" + brand;
    assert PathJoin(PathJoin(ParsedDir(s), "brands"), brand) == j2;
    assert brand[|brand| - 1] in brand;
    assert j2[|j2| - 1] == brand[|brand| - 1];
    JoinAfterSegment(j2, base);
    assert OverlayJoin(ParsedDir(s), brand, base) == j2 + "/" + base;
    RegroupBrands(d, brand, base);
  }

  lemma RegroupBrands(d: string, brand: string, base: string)
    ensures (d + "brands") + "/" + brand + "/" + base == d + "brands/" + brand + "/" + base
  {
    assert "brands" + "/" == "brands/";
  }

  /** The overlay path puts `brands/<brand>/` between the directory and the
      base name, which it keeps; so it differs from the project path. */
  lemma OverlayInsertsBrandDir(s: string, brand: string)
    requires brand != "" && '/' !in brand
    requires NoDoubleSlash(s)
    requires !Contains(DirPrefix(s), BrandSegment(brand))
    ensures var r := OverlayOf(s, brand);
            && r == DirPrefix(s) + "brands/" + brand + "/" + BaseName(s)
            && DirPrefix(r) == DirPrefix(s) + "brands/" + brand + "/"
            && BaseName(r) == BaseName(s)
            && r != s
  {
    var d, base := DirPrefix(s), BaseName(s);
    OverlayJoinShape(s, brand);
    assert d + "brands/" + brand + "/" + base == (d + "brands/" + brand + "/") + base;
    DirPrefixOf(d + "brands/" + brand + "/", base);
    assert |d + "brands/" + brand + "/" + base| > |d + base|;
  }

  /** An id without a query and without either dev-server prefix is already a
      project path. */
  lemma ToProjectFixed(r: string, root: string)
    requires '?' !in r && !StartsWith(r, "/@fs/") && !StartsWith(r, "/src/")
    ensures ToProjectFsPath(r, root) == r
  {
  }

  /** Inserting `brands/` after a separator cannot create the `/@fs/` or
      `/src/` prefix. */
  lemma InsertKeepsPrefixFree(d: string, t: string, u: string, pre: string)
    requires pre == "/@fs/" || pre == "/src/"
    requires |d| >= 1 && EndsWith(d, "/")
    requires !StartsWith(d + u, pre)
    ensures !StartsWith(d + "brands/" + t, pre)
  {
    var r := d + "brands/" + t;
    if |d| >= 5 {
      assert r[..5] == d[..5] == (d + u)[..5];
    } else {
      assert r[|d| - 1] == '/' && r[|d|] == 'b';
    }
  }

  lemma NoQueryInserted(d: string, brand: string, base: string)
    requires '?' !in d && '?' !in brand && '?' !in base
    ensures '?' !in d + "brands/" + brand + "/" + base
  {
    var r := d + "brands/" + brand + "/" + base;
    assert forall k :: 0 <= k < |r| ==>
      r[k] in d || r[k] in "brands/" || r[k] in brand || r[k] in base;
  }

  /** The inserted directory is brand-scoped. */
  lemma InsertedIsScoped(d: string, brand: string)
    requires |d| >= 1 && EndsWith(d, "/")
    ensures Contains(d + "brands/" + brand + "/", BrandSegment(brand))
  {
    var pre := d[..|d| - 1];
    assert d == pre + "/";
    assert d + "brands/" + brand + "/" == pre + BrandSegment(brand) + "";
    ContainsMiddle(pre, BrandSegment(brand), "");
  }

  lemma AbsoluteHasDir(p: string)
    requires StartsWith(p, "/")
    ensures DirPrefix(p) != "" && EndsWith(DirPrefix(p), "/")
  {
    assert p[0] == '/';
    assert p[|DirPrefix(p)|..] != p;
  }

  /** The path with `brands/<brand>/` inserted into a project path is left
      alone by `toProjectFsPath`. */
  lemma InsertedStaysProjectPath(p: string, brand: string, root: string)
    requires IsProjectPath(p)
    requires brand != "" && '/' !in brand && '?' !in brand
    ensures var r := DirPrefix(p) + "brands/" + brand + "/" + BaseName(p);
            ToProjectFsPath(r, root) == r
  {
    var r := DirPrefix(p) + "brands/" + brand + "/" + BaseName(p);
    InsertedNoQuery(p, brand);
    InsertedPrefixFree(p, brand);
    ToProjectFixed(r, root);
  }

  lemma InsertedNoQuery(p: string, brand: string)
    requires '?' !in p && '?' !in brand
    ensures '?' !in DirPrefix(p) + "brands/" + brand + "/" + BaseName(p)
  {
    var d, base := DirPrefix(p), BaseName(p);
    assert d + base == p;
    assert '?' !in d && '?' !in base;
    NoQueryInserted(d, brand, base);
  }

  lemma InsertedStartsWithSlash(p: string, brand: string)
    requires StartsWith(p, "/")
    ensures var r := DirPrefix(p) + "brands/" + brand + "/" + BaseName(p);
            |r| > 0 && r[0] == '/'
  {
    AbsoluteHasDir(p);
    assert DirPrefix(p)[0] == p[0];
  }

  lemma InsertedPrefixFree(p: string, brand: string)
    requires IsProjectPath(p)
    ensures var r := DirPrefix(p) + "brands/" + brand + "/" + BaseName(p);
            !StartsWith(r, "/@fs/") && !StartsWith(r, "/src/")
  {
    var d, base := DirPrefix(p), BaseName(p);
    AbsoluteHasDir(p);
    assert d + base == p;
    assert d + "brands/" + brand + "/" + base == d + "brands/" + (brand + "/" + base);
    InsertKeepsPrefixFree(d, brand + "/" + base, base, "/@fs/");
    InsertKeepsPrefixFree(d, brand + "/" + base, base, "/src/");
  }

  /** Computing the overlay of an overlay changes nothing: no path is nested
      into `brands/<brand>/` twice. */
  lemma OverlayIdempotent(p: string, brand: string, root: string)
    requires IsProjectPath(p)
    requires brand != "" && '/' !in brand && '?' !in brand
    ensures var r := ComputeOverlayPath(p, brand, root);
            ComputeOverlayPath(r, brand, root) == r
  {
    ProjectPathFixed(p, root);
    var d := DirPrefix(p);
    if !Contains(d, BrandSegment(brand)) {
      OverlayInsertsBrandDir(p, brand);
      InsertedStaysProjectPath(p, brand, root);
      AbsoluteHasDir(p);
      InsertedIsScoped(d, brand);
    }
  }

  // ---- The brand-scope test as written misses files directly in brands/<brand>/ ----

  /** `/app/src/components/brands/purple/OverloadButton.tsx`, a file directly
      inside a brand directory, with its pieces. */
  const ExamplePre := "/app/src/components"
  const ExampleDir := ExamplePre + "/brands/purple"
  const ExampleBase := "OverloadButton.tsx"
  const ExamplePath := ExampleDir + "/" + ExampleBase

  /** Its overlay as the source computes it. */
  const ExampleNested := ExampleDir + "/brands/purple/" + ExampleBase

  /** The example lies under `/app/src` and is not a virtual module. */
  lemma ExampleInsideSrc()
    ensures IsInsideSrc(ExamplePath, "/app")
    ensures !IsVirtual(ExamplePath)
  {
    ExampleIsProjectPath();
    ExampleNoQuery();
    AppSrcDir();
    ExampleUnderAppSrc();
    SlashPathNotVirtual(ExamplePath);
  }

  lemma AppSrcDir()
    ensures SrcDir("/app") + "/" == "/app/src/"
  {
    JoinAfterSegment("/app", "src");
  }

  lemma ExampleUnderAppSrc()
    ensures StartsWith(ExamplePath, "/app/src/")
  {
    var pre, rest := ExamplePre, "/brands/purple" + "/" + ExampleBase;
    assert pre[..9] == "/app/src/";
    assert ExamplePath == pre + rest;
    PrefixExtends(pre, rest, "/app/src/");
  }

  lemma PrefixExtends(a: string, b: string, p: string)
    requires StartsWith(a, p)
    ensures StartsWith(a + b, p)
  {
    assert (a + b)[..|p|] == a[..|p|];
  }

  lemma ExampleIsProjectPath()
    ensures ToProjectFsPath(ExamplePath, "/app") == ExamplePath
  {
    ExampleNoQuery();
    ExampleNotPrefixed();
    ToProjectFixed(ExamplePath, "/app");
  }

  lemma ExampleNoQuery()
    ensures '?' !in ExamplePath
  {
    var p := ExamplePath;
    assert p == ExamplePre + "/brands/purple" + "/" + ExampleBase;
    assert '?' !in ExamplePre && '?' !in "/brands/purple" && '?' !in ExampleBase;
  }

  lemma ExampleNotPrefixed()
    ensures !StartsWith(ExamplePath, "/@fs/") && !StartsWith(ExamplePath, "/src/")
  {
    assert ExamplePath[1] == 'a';
  }

  lemma ExampleParts()
    ensures DirPrefix(ExamplePath) == ExampleDir + "/"
    ensures BaseName(ExamplePath) == ExampleBase
    ensures ParsedDir(ExamplePath) == ExampleDir
  {
    assert ExamplePath == (ExampleDir + "/") + ExampleBase;
    assert '/' !in ExampleBase;
    DirPrefixOf(ExampleDir + "/", ExampleBase);
  }

  lemma ExampleDirSlashes()
    ensures forall k :: 0 <= k < |ExampleDir| && ExampleDir[k] == '/' ==>
      k == 0 || k == 4 || k == 8 || k == 19 || k == 26
  {
    var dir := ExampleDir;
    assert dir == "/app/src" + "/components" + "/brands/purple";
    assert |dir| == 33;
    SlashesInPiece("/app/src", 0, 4, 8, 8);
    SlashesInPiece("/components", 0, 0, 0, 11);
    SlashesInPiece("/brands/purple", 0, 7, 7, 14);
    PieceSlashes("/app/src", "/components" + "/brands/purple");
    PieceSlashes("/app/src" + "/components", "/brands/purple");
    PieceSlashes("/app/src", "/components");
  }

  /** The slashes of a piece with slashes only at `a`, `b` and `c`. */
  lemma SlashesInPiece(s: string, a: nat, b: nat, c: nat, n: nat)
    requires |s| == n
    requires forall k :: 0 <= k < n && k != a && k != b && k != c ==> s[k] != '/'
    ensures forall k :: 0 <= k < |s| && s[k] == '/' ==> k == a || k == b || k == c
  {
  }

  lemma PieceSlashes(s: string, t: string)
    ensures forall k :: 0 <= k < |s| ==> (s + t)[k] == s[k]
    ensures forall k :: 0 <= k < |t| ==> (s + t)[|s| + k] == t[k]
  {
  }

  lemma BrandSegmentSlashes(brand: string)
    ensures |BrandSegment(brand)| == |brand| + 9
    ensures BrandSegment(brand)[0] == '/' && BrandSegment(brand)[7] == '/'
    ensures BrandSegment(brand)[|brand| + 8] == '/'
  {
  }

  /** A match of `p` at `i` places the characters of `p` there. */
  lemma MatchChars(s: string, p: string, i: nat)
    requires i + |p| <= |s| && s[i..i + |p|] == p
    ensures forall k :: 0 <= k < |p| ==> s[i + k] == p[k]
  {
    forall k | 0 <= k < |p| ensures s[i + k] == p[k] {
      assert s[i..i + |p|][k] == s[i + k];
    }
  }

  lemma ExampleDirLacksSegment()
    ensures !Contains(ExampleDir, BrandSegment("purple"))
    ensures Contains(ExampleDir + "/", BrandSegment("purple"))
  {
    var dir, seg := ExampleDir, BrandSegment("purple");
    if Contains(dir, seg) {
      var i := ContainsWitness(dir, seg);
      MatchChars(dir, seg, i);
      BrandSegmentSlashes("purple");
      ExampleDirSlashes();
      assert false;
    }
    assert ExampleDir + "/" == ExamplePre + seg + "";
    ContainsMiddle(ExamplePre, seg, "");
  }

  lemma ExampleOverlayJoin()
    ensures OverlayJoin(ExampleDir, "purple", ExampleBase)
            == ExampleDir + "/brands/purple/" + ExampleBase
  {
    var dir, base := ExampleDir, ExampleBase;
    JoinAfterSegment(dir, "brands");
    JoinAfterSegment(dir + "/brands", "purple");
    JoinAfterSegment(dir + "/brands/purple", base);
  }

  /** The source's test misses a file directly inside `brands/<brand>/`: the
      path `/app/src/components/brands/purple/OverloadButton.tsx` already holds
      `/brands/purple/`, yet the result nests it again, while the corrected
      test leaves the path alone. */
  lemma OverlayAsWrittenDoubleNests()
    ensures Contains(ExamplePath, BrandSegment("purple"))
    ensures ComputeOverlayPathAsWritten(ExamplePath, "purple", "/app")
            == ExampleDir + "/brands/purple/" + ExampleBase
    ensures ComputeOverlayPath(ExamplePath, "purple", "/app") == ExamplePath
  {
    ExampleIsProjectPath();
    ExampleParts();
    ExampleDirLacksSegment();
    ExampleOverlayJoin();
    assert ExamplePath == (ExampleDir + "/") + ExampleBase;
    ContainsPrefix(ExampleDir + "/", ExampleBase, BrandSegment("purple"));
  }

  // ---- Properties of ids and brand annotations ----

  lemma StripQueryIdempotent(id: string)
    ensures StripQuery(StripQuery(id)) == StripQuery(id)
  {
  }

  /** The pairs after the first `?` of an id, none when it has no `?`. */
  function ParamsOf(id: string): (ps: seq<Param>)
    ensures IdParams(id).Some? ==> ps == IdParams(id).value
    ensures IdParams(id).None? ==> ps == []
  {
    match IdParams(id)
    case None => []
    case Some(ps) => ps
  }

  /** A non-empty `brand` parameter wins over `__brand`; an empty or missing
      `brand` lets a non-empty `__brand` through; empty values count as
      missing. */
  lemma BrandPrecedence(id: string)
    requires '?' in id
    ensures var ps := ParamsOf(id);
            && (NonEmpty(Get(ps, "brand")).Some? ==> TryGetBrandFromId(id) == Get(ps, "brand"))
            && (NonEmpty(Get(ps, "brand")).None? ==> TryGetBrandFromId(id) == NonEmpty(Get(ps, "__brand")))
  {
  }

  /** Appending a brand annotation to a resolved id, as `resolveId` does:
      `&__brand=<brand>` after an existing query, `?__brand=<brand>` otherwise. */
  function AddBrandParam(id: string, brand: string): (r: string)
    ensures StartsWith(r, id) && EndsWith(r, "__brand=" + brand)
    ensures |r| == |id| + 1 + |"__brand=" + brand|
    ensures r[|id|] == (if '?' in id then '&' else '?')
  {
    id + (if '?' in id then "&" else "?") + "__brand=" + brand
  }

  /** The annotation leaves the file path of the id alone. */
  lemma AddBrandParamKeepsPath(id: string, brand: string)
    ensures StripQuery(AddBrandParam(id, brand)) == StripQuery(id)
  {
    var r := AddBrandParam(id, brand);
    if '?' in id {
      var q := IndexOf(id, '?');
      assert r[..q] == id[..q];
      IndexOfUnique(r, '?', q);
    } else {
      assert r[..|id|] == id;
      IndexOfUnique(r, '?', |id|);
    }
  }

  lemma IdParamsAfterQuestion(id: string, x: string)
    requires '?' !in id
    ensures IdParams(id + "?" + x) == Some(SearchParams(x))
  {
    QuestionStartsQuery(id, x);
  }

  lemma QuestionStartsQuery(id: string, x: string)
    requires '?' !in id
    ensures QueryText(id + "?" + x) == Some(x)
  {
    var r := id + "?" + x;
    assert r[..|id|] == id;
    IndexOfUnique(r, '?', |id|);
    assert r[|id| + 1..] == x;
  }

  lemma IdParamsAfterAmpersand(id: string, x: string)
    requires '?' in id
    ensures IdParams(id + "&" + x) == Some(ParamsOf(id) + ParseForm(x))
  {
    AmpersandInQuery(id, x);
    SearchParamsAppend(QueryText(id).value, x);
  }

  /** Text appended after a query stays in the query. */
  lemma AmpersandInQuery(id: string, x: string)
    requires '?' in id
    ensures QueryText(id + "&" + x) == Some(QueryText(id).value + "&" + x)
  {
    var r, q := id + "&" + x, IndexOf(id, '?');
    assert r == id + ("&" + x);
    IndexOfAppended(id, "&" + x, '?');
    assert r[q + 1..] == id[q + 1..] + "&" + x;
  }

  lemma BrandPiece(brand: string)
    requires '&' !in brand
    ensures ParseForm("__brand=" + brand) == [Param("__brand", brand)]
    ensures SearchParams("__brand=" + brand) == [Param("__brand", brand)]
  {
    assert "__brand" + "=" == "__brand=";
    SearchParamsSingle("__brand", brand);
  }

  /** The annotation adds exactly one pair, `__brand=<brand>`, after the pairs
      the id already had. */
  lemma AddBrandParamPairs(id: string, brand: string)
    requires '&' !in brand
    ensures IdParams(AddBrandParam(id, brand)) == Some(ParamsOf(id) + [Param("__brand", brand)])
  {
    if '?' in id {
      AddBrandParamAfterQuery(id, brand);
    } else {
      AddBrandParamStartsQuery(id, brand);
      NoQueryNoPairs(id, [Param("__brand", brand)]);
    }
  }

  lemma NoQueryNoPairs(id: string, extra: seq<Param>)
    requires '?' !in id
    ensures ParamsOf(id) + extra == extra
  {
  }

  lemma AddBrandParamStartsQuery(id: string, brand: string)
    requires '&' !in brand && '?' !in id
    ensures IdParams(AddBrandParam(id, brand)) == Some([Param("__brand", brand)])
  {
    var x := "__brand=" + brand;
    assert AddBrandParam(id, brand) == id + "?" + x;
    IdParamsAfterQuestion(id, x);
    BrandPiece(brand);
  }

  lemma AddBrandParamAfterQuery(id: string, brand: string)
    requires '&' !in brand && '?' in id
    ensures IdParams(AddBrandParam(id, brand)) == Some(ParamsOf(id) + [Param("__brand", brand)])
  {
    var x := "__brand=" + brand;
    assert AddBrandParam(id, brand) == id + "&" + x;
    IdParamsAfterAmpersand(id, x);
    BrandPiece(brand);
  }

  /** An id that carries no brand of its own reads back the brand the
      annotation adds. */
  lemma AddBrandParamReadsBack(id: string, brand: string)
    requires brand != "" && '&' !in brand
    requires NonEmpty(Get(ParamsOf(id), "brand")).None?
    requires Get(ParamsOf(id), "__brand").None?
    ensures TryGetBrandFromId(AddBrandParam(id, brand)) == Some(brand)
  {
    var ps := ParamsOf(id);
    var extra := [Param("__brand", brand)];
    AddBrandParamPairs(id, brand);
    GetAppend(ps, extra, "brand");
    GetAppend(ps, extra, "__brand");
  }

  /** An id that already carries a brand keeps it: the annotation comes after. */
  lemma AddBrandParamKeepsBrand(id: string, brand: string)
    requires '&' !in brand
    requires TryGetBrandFromId(id).Some?
    ensures TryGetBrandFromId(AddBrandParam(id, brand)) == TryGetBrandFromId(id)
  {
    var ps := ParamsOf(id);
    var extra := [Param("__brand", brand)];
    AddBrandParamPairs(id, brand);
    GetAppend(ps, extra, "brand");
    GetAppend(ps, extra, "__brand");
  }

  /** An id that names a virtual module: its path starts with `\0` or
      `virtual:`. */
  predicate IsVirtual(id: string) {
    StartsWith(StripQuery(id), "\0") || StartsWith(StripQuery(id), "virtual:")
  }

  /** A plain absolute path is not a virtual id. */
  lemma SlashPathNotVirtual(id: string)
    requires '?' !in id && |id| > 0 && id[0] == '/'
    ensures !IsVirtual(id)
  {
    assert StripQuery(id) == id;
    assert id[0] != "\0"[0] && id[0] != "virtual:"[0];
  }

  /** A prefix without `?` survives `stripQuery`. */
  lemma StripQueryKeepsPrefix(id: string, p: string)
    requires StartsWith(id, p) && '?' !in p
    ensures StartsWith(StripQuery(id), p)
  {
    var q := IndexOf(id, '?');
    if q != -1 {
      assert forall k :: 0 <= k < |p| ==> id[k] == p[k];
      assert q >= |p|;
      assert StripQuery(id)[..|p|] == id[..|p|];
    }
  }

  /** A dev-server id under `/src/` is inside the source directory, whatever
      the root. */
  lemma DevSrcIdInsideSrc(id: string, root: string)
    requires StartsWith(id, "/src/")
    ensures IsInsideSrc(id, root)
  {
    var t := DevSrcToProject(id, root);
    JoinUnderSrc(root, t);
  }

  /** A `/src/` id maps to the root joined with its path without the leading
      separator. */
  lemma DevSrcToProject(id: string, root: string) returns (t: string)
    requires StartsWith(id, "/src/")
    ensures StartsWith(t, "src/")
    ensures ToProjectFsPath(id, root) == PathJoin(root, t)
  {
    assert id[1] == 's';
    assert NormalizeFsPath(id) == id;
    var s := StripQuery(id);
    StripQueryKeepsPrefix(id, "/src/");
    assert s[..5] == "/src/";
    t := s[1..];
    assert t[..4] == "src/";
  }

  /** A path starting with `src/` joined to the root lies below `<root>/src`. */
  lemma JoinUnderSrc(root: string, t: string)
    requires StartsWith(t, "src/")
    ensures StartsWith(PathJoin(root, t), SrcDir(root) + "/")
  {
    var r := PathJoin(root, t);
    if root == "" {
      assert SrcDir(root) + "/" == "src/";
    } else if EndsWith(root, "/") {
      assert r == root + t && SrcDir(root) + "/" == root + "src/";
      assert r[..|root| + 4] == root + t[..4];
    } else {
      assert r == root + "/" + t && SrcDir(root) + "/" == root + "/src/";
      assert r[..|root| + 5] == root + "/" + t[..4];
    }
  }

  // ---- Brand client entries ----

  /** The virtual client entry of a brand, `/src/__brand__/<brand>/entry-client.ts`. */
  function BrandEntryId(brand: string): string {
    "/src/__brand__/" + brand + "/entry-client.ts"
  }

  /** The match of `^/src/__brand__/([^/]+)/entry-client\.ts$`: the captured
      brand, or nothing. */
  function MatchBrandEntry(s: string): (r: Option<string>)
    ensures r.Some? ==> s == BrandEntryId(r.value) && r.value != "" && '/' !in r.value
  {
    if |s| >= 32 && StartsWith(s, "/src/__brand__/") && EndsWith(s, "/entry-client.ts")
       && '/' !in s[15..|s| - 16]
    then
      BetweenAffixes(s, "/src/__brand__/", "/entry-client.ts");
      Some(s[15..|s| - 16])
    else None
  }

  /** A text with a given start and end is that start, the middle and that end. */
  lemma BetweenAffixes(s: string, pre: string, suf: string)
    requires |pre| + |suf| <= |s| && StartsWith(s, pre) && EndsWith(s, suf)
    ensures s == pre + s[|pre|..|s| - |suf|] + suf
  {
    assert s == s[..|pre|] + s[|pre|..|s| - |suf|] + s[|s| - |suf|..];
  }

  /** Every brand name without a separator is matched back from its entry. */
  lemma MatchBrandEntryOf(brand: string)
    requires brand != "" && '/' !in brand
    ensures MatchBrandEntry(BrandEntryId(brand)) == Some(brand)
  {
    var s := BrandEntryId(brand);
    assert s[..15] == "/src/__brand__/";
    assert s[|s| - 16..] == "/entry-client.ts";
    assert s[15..|s| - 16] == brand;
  }
}
