/** The `virtual:frontier` module: its id mapping, and the `componentLoaders`
    table it generates from the configured entrypoints and the brands found
    under `src`.

    The configuration file, the tree under `src` and `process.cwd()` are
    inputs of `Load`; `addWatchFile` is not modelled. */
module FrontierEntrypoints {
  import opened Wrappers
  import opened Strings
  import opened Seqs
  import opened Query
  import opened DirTree
  import opened BrandScan
  import opened BrandPaths
  import opened SrcPaths
  import opened FrontierConfig
  import BrandOverrides

  const VirtualId := "virtual:frontier"

  /** `resolveId`: the bare virtual id and the virtual id with a query are
      marked internal with a leading `\0`, the query kept as it is; any other
      id is not this plugin's. */
  function ResolveId(id: string): (r: Option<string>)
    ensures r.Some? <==> id == VirtualId || StartsWith(id, VirtualId + "?")
    ensures r.Some? ==> r.value == "\0" + id
  {
    if id == VirtualId then Some("\0" + VirtualId)
    else if StartsWith(id, VirtualId + "?") then
      assert id == VirtualId + id[|VirtualId|..] by {
        assert id[..|VirtualId|] == (VirtualId + "?")[..|VirtualId|];
      }
      Some("\0" + VirtualId + id[|VirtualId|..])
    else None
  }

  /** The brand a module id asks for: the value of the first `brand`
      parameter after the first `?`, when it is not empty. A `__brand`
      annotation is not read here (see `LoadBrandIgnoresAnnotation`). */
  function LoadBrand(id: string): (r: Option<string>)
    ensures r.Some? ==> r.value != ""
    ensures '?' !in id ==> r.None?
    ensures IdParams(id).Some? ==> r == NonEmpty(Get(IdParams(id).value, "brand"))
  {
    match IdParams(id)
    case None => None
    case Some(ps) => NonEmpty(Get(ps, "brand"))
  }

  /** An id whose only brand is the overlay plugin's `__brand` annotation
      loads the unscoped table. */
  lemma LoadBrandIgnoresAnnotation(path: string, brand: string)
    requires '?' !in path && '&' !in brand
    ensures LoadBrand(AddBrandParam(path, brand)) == None
  {
    AddBrandParamStartsQuery(path, brand);
    assert Get([Param("__brand", brand)], "brand") == None;
  }

  /** The text of an entry, trimmed and with `\` turned into `/`; a
      non-string is the empty text. */
  function Cleaned(v: ConfigValue): (s: string)
    ensures NoEdgeSpace(s) && '\\' !in s
  {
    var t := Trim(if v.Str? then v.s else "");
    TrimHasNoEdgeSpace(if v.Str? then v.s else "");
    ReplaceKeepsEdges(t, '\\', '/');
    ReplaceChar(t, '\\', '/')
  }

  /** `normalize`: the cleaned text anchored under `/src`. */
  function Normalize(v: ConfigValue): (r: string)
    ensures StartsWith(r, "/")
    ensures '\\' !in r
    ensures NoEdgeSpace(r)
  {
    NoBackslashInSrc();
    AnchorKeepsEdges(Cleaned(v));
    AnchorAddsNo(Cleaned(v), '\\');
    AnchorInSrc(Cleaned(v))
  }

  lemma NoBackslashInSrc()
    ensures '\\' !in "/src/"
  {
    assert "/src/" == ['/', 's', 'r', 'c', '/'];
  }

  /** The entrypoints of the configuration: `[]` when the file is missing or
      `entrypoints` is not an array. */
  function Entrypoints(cfg: ConfigFile): seq<ConfigValue> {
    if cfg.Parsed? && cfg.entrypoints.Some? then cfg.entrypoints.value else []
  }

  /** `entrypoints.map(normalize)`. */
  function Imports(cfg: ConfigFile): (imports: seq<string>)
    ensures |imports| == |Entrypoints(cfg)|
    ensures forall k :: 0 <= k < |imports| ==> imports[k] == Normalize(Entrypoints(cfg)[k])
    ensures forall k :: 0 <= k < |imports| ==>
              StartsWith(imports[k], "/") && '\\' !in imports[k] && NoEdgeSpace(imports[k])
  {
    var es := Entrypoints(cfg);
    seq(|es|, k requires 0 <= k < |es| => Normalize(es[k]))
  }

  /** One row of the loader table: the key and the module specifier. */
  datatype Pair = Pair(key: string, spec: string)

  /** The entry path with a brand query. */
  function Branded(p: string, brand: string): string {
    p + "?brand=" + brand
  }

  /** The brand variants of one entry, in the order of `brands`. */
  function Variants(p: string, brands: seq<string>): (vs: seq<Pair>)
    ensures |vs| == |brands|
    ensures forall k :: 0 <= k < |vs| ==> vs[k] == Pair(Branded(p, brands[k]), Branded(p, brands[k]))
  {
    seq(|brands|, k requires 0 <= k < |brands| => Pair(Branded(p, brands[k]), Branded(p, brands[k])))
  }

  /** The rows one entry contributes: only its variant for the requested
      brand, or the entry itself followed by its variant for every brand. */
  function PairsFor(p: string, brand: Option<string>, brands: seq<string>): seq<Pair> {
    if brand.Some? then [Pair(Branded(p, brand.value), Branded(p, brand.value))]
    else [Pair(p, p)] + Variants(p, brands)
  }

  /** The rows of all entries, entry by entry. */
  function Pairs(imports: seq<string>, brand: Option<string>, brands: seq<string>): seq<Pair> {
    FlatMap(imports, p => PairsFor(p, brand, brands))
  }

  /** The number of rows per entry. */
  function RowsPerEntry(brand: Option<string>, brands: seq<string>): nat {
    if brand.Some? then 1 else 1 + |brands|
  }

  /** The `pairs` loops of `load`. */
  method BuildPairs(imports: seq<string>, brand: Option<string>, brands: seq<string>) returns (pairs: seq<Pair>)
    ensures pairs == Pairs(imports, brand, brands)
  {
    pairs := [];
    for i := 0 to |imports|
      invariant pairs == Pairs(imports[..i], brand, brands)
    {
      PairsStep(imports, i, brand, brands);
      var p := imports[i];
      if brand.Some? {
        var key := p + "?brand=" + brand.value;
        var spec := p + "?brand=" + brand.value;
        pairs := pairs + [Pair(key, spec)];
      } else {
        pairs := pairs + [Pair(p, p)];
        pairs := AddVariants(pairs, p, brands);
      }
    }
    assert imports[..|imports|] == imports;
  }

  /** The inner loop of `load` for an unscoped id: one variant per brand, in
      order, after the rows already built. */
  method AddVariants(init: seq<Pair>, p: string, brands: seq<string>) returns (pairs: seq<Pair>)
    ensures pairs == init + Variants(p, brands)
  {
    pairs := init;
    for j := 0 to |brands|
      invariant pairs == init + Variants(p, brands[..j])
    {
      VariantsStep(p, brands, j);
      var b := brands[j];
      var key := p + "?brand=" + b;
      var spec := p + "?brand=" + b;
      pairs := pairs + [Pair(key, spec)];
    }
    assert brands[..|brands|] == brands;
  }

  lemma PairsStep(imports: seq<string>, i: nat, brand: Option<string>, brands: seq<string>)
    requires i < |imports|
    ensures Pairs(imports[..i + 1], brand, brands) == Pairs(imports[..i], brand, brands) + PairsFor(imports[i], brand, brands)
  {
    FlatMapStep(imports, i, p => PairsFor(p, brand, brands));
  }

  lemma VariantsStep(p: string, brands: seq<string>, j: nat)
    requires j < |brands|
    ensures Variants(p, brands[..j + 1]) == Variants(p, brands[..j]) + [Pair(Branded(p, brands[j]), Branded(p, brands[j]))]
  {
  }

  /** Each entry contributes `RowsPerEntry` rows. */
  lemma {:induction false} PairsLength(imports: seq<string>, brand: Option<string>, brands: seq<string>)
    ensures |Pairs(imports, brand, brands)| == |imports| * RowsPerEntry(brand, brands)
    decreases |imports|
  {
    var n, w := |imports|, RowsPerEntry(brand, brands);
    if n > 0 {
      var init := imports[..n - 1];
      PairsLength(init, brand, brands);
      FlatMapStep(imports, n - 1, p => PairsFor(p, brand, brands));
      assert imports[..n] == imports;
      assert |PairsFor(imports[n - 1], brand, brands)| == w;
      MulSucc(n - 1, w);
    }
  }

  lemma MulSucc(m: nat, w: nat)
    ensures (m + 1) * w == m * w + w
  {
  }

  /** The rows of two lists of entries are the rows of the first, then those
      of the second; a single entry contributes its own block. So the table
      keeps entry order, block by block. */
  lemma PairsConcat(a: seq<string>, b: seq<string>, brand: Option<string>, brands: seq<string>)
    ensures Pairs(a + b, brand, brands) == Pairs(a, brand, brands) + Pairs(b, brand, brands)
    ensures |a| == 1 ==> Pairs(a, brand, brands) == PairsFor(a[0], brand, brands)
  {
    FlatMapConcat(a, b, p => PairsFor(p, brand, brands));
    if |a| == 1 {
      assert a[..0] == [];
    }
  }

  /** In every row the key is the module specifier. */
  lemma PairsKeyIsSpec(imports: seq<string>, brand: Option<string>, brands: seq<string>)
    ensures forall pr :: pr in Pairs(imports, brand, brands) ==> pr.key == pr.spec
  {
    forall pr | pr in Pairs(imports, brand, brands)
      ensures pr.key == pr.spec
    {
      FlatMapFrom(imports, p => PairsFor(p, brand, brands), pr);
    }
  }

  /** With a brand in the id there is exactly one row per entry, in entry
      order, asking for that brand: the module of a brand never loads an
      unbranded entry or another brand's. */
  lemma {:induction false} BrandedRowsOnly(imports: seq<string>, brand: string, brands: seq<string>)
    ensures |Pairs(imports, Some(brand), brands)| == |imports|
    ensures forall k :: 0 <= k < |imports| ==>
              Pairs(imports, Some(brand), brands)[k] == Pair(Branded(imports[k], brand), Branded(imports[k], brand))
    decreases |imports|
  {
    var n := |imports|;
    if n > 0 {
      var init := imports[..n - 1];
      BrandedRowsOnly(init, brand, brands);
      FlatMapStep(imports, n - 1, p => PairsFor(p, Some(brand), brands));
      assert imports[..n] == imports;
      assert forall k :: 0 <= k < n - 1 ==> init[k] == imports[k];
    }
  }

  /** Without a brand, the block of an entry is the entry itself, then its
      variant for each brand in brand order. */
  lemma UnbrandedBlock(p: string, brands: seq<string>)
    ensures |PairsFor(p, None, brands)| == 1 + |brands|
    ensures PairsFor(p, None, brands)[0] == Pair(p, p)
    ensures forall k :: 0 <= k < |brands| ==>
              PairsFor(p, None, brands)[k + 1] == Pair(Branded(p, brands[k]), Branded(p, brands[k]))
  {
    var vs := Variants(p, brands);
    assert PairsFor(p, None, brands) == [Pair(p, p)] + vs;
    forall k | 0 <= k < |brands|
      ensures PairsFor(p, None, brands)[k + 1] == Pair(Branded(p, brands[k]), Branded(p, brands[k]))
    {
      assert ([Pair(p, p)] + vs)[k + 1] == vs[k];
    }
  }

  /** A branded row of an entry without a query reads back its brand, as the
      brand-overlay plugin reads ids. */
  lemma BrandedRowCarriesBrand(p: string, brand: string)
    requires '?' !in p && brand != "" && '&' !in brand
    ensures TryGetBrandFromId(Branded(p, brand)) == Some(brand)
    ensures LoadBrand(Branded(p, brand)) == Some(brand)
  {
    BrandOverrides.BrandQueryReadsBack(p, brand);
  }

  // ---- The generated source text ----

  /** One line of the loader table. */
  function EntryLine(pr: Pair): string {
    "  '" + pr.key + "': () => import('" + pr.spec + "')"
  }

  function EntryLines(pairs: seq<Pair>): (lines: seq<string>)
    ensures |lines| == |pairs|
    ensures forall k :: 0 <= k < |pairs| ==> lines[k] == EntryLine(pairs[k])
  {
    seq(|pairs|, k requires 0 <= k < |pairs| => EntryLine(pairs[k]))
  }

  const Header := "export const componentLoaders = {\n"
  const Footer := "\n}\n"

  /** The module body: the table's lines separated by `,\n` inside
      `export const componentLoaders = { ... }`. */
  function Body(pairs: seq<Pair>): string {
    Header + Join(EntryLines(pairs), ",\n") + Footer
  }

  /** The body opens with the declaration, closes the object, and has a line
      for every row. */
  lemma BodyLists(pairs: seq<Pair>)
    ensures StartsWith(Body(pairs), Header)
    ensures EndsWith(Body(pairs), Footer)
    ensures forall k :: 0 <= k < |pairs| ==> Contains(Body(pairs), EntryLine(pairs[k]))
  {
    var j := Join(EntryLines(pairs), ",\n");
    assert Body(pairs)[..|Header|] == Header;
    assert Body(pairs)[|Body(pairs)| - |Footer|..] == Footer;
    forall k | 0 <= k < |pairs|
      ensures Contains(Body(pairs), EntryLine(pairs[k]))
    {
      JoinContainsElement(EntryLines(pairs), k, ",\n");
      ContainsExtend(Header, j, EntryLine(pairs[k]));
      ContainsPrefix(Header + j, Footer, EntryLine(pairs[k]));
    }
  }

  /** Adding an entry extends the table by that entry's lines after a
      separator. */
  lemma BodyAppend(imports: seq<string>, p: string, brand: Option<string>, brands: seq<string>)
    requires |imports| > 0
    ensures Join(EntryLines(Pairs(imports + [p], brand, brands)), ",\n")
            == Join(EntryLines(Pairs(imports, brand, brands)), ",\n") + ",\n"
               + Join(EntryLines(PairsFor(p, brand, brands)), ",\n")
  {
    var a, b := Pairs(imports, brand, brands), PairsFor(p, brand, brands);
    assert (imports + [p])[..|imports|] == imports;
    assert Pairs(imports + [p], brand, brands) == a + b;
    assert |a| > 0 by {
      assert |PairsFor(imports[|imports| - 1], brand, brands)| >= 1;
    }
    assert EntryLines(a + b) == EntryLines(a) + EntryLines(b);
    JoinSplitAt(EntryLines(a + b), |a|, ",\n");
    assert EntryLines(a + b)[..|a|] == EntryLines(a);
    assert EntryLines(a + b)[|a|..] == EntryLines(b);
  }

  /** `load`: nothing for an id that is not the internal virtual id;
      otherwise the body built from the configured entrypoints, the brand the
      id asks for, and the brands found under `src` (duplicate-free, in the
      scan's order). */
  method Load(id: string, cfg: ConfigFile, srcTree: Node) returns (r: Option<string>)
    ensures !StartsWith(id, "\0" + VirtualId) ==> r.None?
    ensures StartsWith(id, "\0" + VirtualId) ==>
              r.Some? && exists brands :: NoDup(brands) && Elems(brands) == Scan(srcTree)
                                     && r.value == Body(Pairs(Imports(cfg), LoadBrand(id), brands))
  {
    if !StartsWith(id, "\0" + VirtualId) {
      return None;
    }
    var brand := LoadBrand(id);
    var imports := Imports(cfg);
    var brands := FindBrands(srcTree);
    var pairs := BuildPairs(imports, brand, brands);
    r := Some(Body(pairs));
  }

  /** The brand-overlay plugin's scoped id for a brand maps to the internal
      virtual module of that brand. */
  lemma ScopedFrontierLoadsBrand(brand: string)
    requires brand != "" && '&' !in brand
    ensures ResolveId(BrandOverrides.FrontierFor(brand)) == Some("\0" + BrandOverrides.FrontierFor(brand))
    ensures StartsWith("\0" + BrandOverrides.FrontierFor(brand), "\0" + VirtualId)
    ensures LoadBrand("\0" + BrandOverrides.FrontierFor(brand)) == Some(brand)
  {
    var f := BrandOverrides.FrontierFor(brand);
    assert f == VirtualId + "?" + ("brand=" + brand);
    assert f[..|VirtualId| + 1] == VirtualId + "?";
    var id := "\0" + f;
    assert id == ("\0" + VirtualId) + "?brand=" + brand;
    assert id[..|"\0" + VirtualId|] == "\0" + VirtualId;
    assert '?' !in "\0" + VirtualId;
    BrandOverrides.BrandQueryReadsBack("\0" + VirtualId, brand);
  }

  /** `normalize` is idempotent: a normalized entry normalizes to itself. */
  lemma NormalizeIdempotent(v: ConfigValue)
    ensures Normalize(Str(Normalize(v))) == Normalize(v)
  {
    var r := Normalize(v);
    CleanedFixed(r);
    NormalizeIs(Str(r));
  }

  /** A text without edge whitespace or backslashes is already clean. */
  lemma CleanedFixed(r: string)
    requires NoEdgeSpace(r) && '\\' !in r
    ensures Cleaned(Str(r)) == r
  {
    TrimNoEdges(r);
    ReplaceCharAbsent(r, '\\', '/');
  }

  lemma NormalizeIs(v: ConfigValue)
    ensures Normalize(v) == AnchorInSrc(Cleaned(v))
  {
  }

  /** What `normalize` does to a string entry, case by case. */
  lemma NormalizeCases(s: string)
    ensures var t := ReplaceChar(Trim(s), '\\', '/');
            && (StartsWith(t, "/") ==> Normalize(Str(s)) == t)
            && (!StartsWith(t, "/") && StartsWith(t, "src/") ==> Normalize(Str(s)) == "/" + t)
            && (!StartsWith(t, "/") && !StartsWith(t, "src/") ==> Normalize(Str(s)) == "/src/" + StripDotSlash(t))
  {
    AnchorInSrcCases(Cleaned(Str(s)));
  }

  /** A non-string entry becomes `/src/`. */
  lemma NormalizeNonString()
    ensures Normalize(NonString) == "/src/"
  {
    assert Trim("") == "";
    assert Cleaned(NonString) == "";
  }
}
