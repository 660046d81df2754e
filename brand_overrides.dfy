/** The brand-overlay plugin object: the brands it knows, its build inputs,
    and its `transformIndexHtml`, `resolveId` and `load` hooks.

    The bundler's own resolver (`this.resolve`), `fs.existsSync` and the
    parsing of the page URL are parameters of the hooks that use them; a
    directory tree stands for the file system under `src`. */
module BrandOverrides {
  import opened Wrappers
  import opened Strings
  import opened Seqs
  import opened Query
  import opened DirTree
  import opened BrandScan
  import opened BrandPaths

  /** What `resolveId` hands back to the bundler. */
  datatype Resolution =
    | PassThrough           // `null`: the next resolver decides
    | Id(id: string)        // a module id of its own making
    | Resolved(id: string)  // the result of `this.resolve`, unchanged

  /** The parts of the HTML transform context the hook reads. */
  datatype HtmlContext = HtmlContext(originalUrl: Option<string>, server: bool)

  /** The id the bundler is asked to resolve for `virtual:frontier` imported
      from a brand-scoped module. */
  function FrontierFor(brand: string): string {
    "virtual:frontier?brand=" + brand
  }

  /** The main client entry with a brand, as the dev page and a brand's entry
      import it. */
  function BrandedClientEntry(brand: string): string {
    ClientEntry + "?brand=" + brand
  }

  /** The main client entry of the dev page. */
  const ClientEntry := "/src/entry-client.tsx"

  /** The body `load` serves for the client entry of a brand. */
  function BrandEntryModule(brand: string): string {
    "import '" + BrandedClientEntry(brand) + "'\n"
  }

  /** The script tag of the index page, with whitespace as the page has it. */
  const ClientEntryTag := "<script type=\"module\" src=\"/src/entry-client.tsx\"></script>"

  function BrandedClientEntryTag(brand: string): string {
    "<script type=\"module\" src=\"" + BrandedClientEntry(brand) + "\"></script>"
  }

  // ---- Build inputs ----

  /** A build's inputs: the base entry, then one entry per brand in order,
      keyed `<keyPrefix><brand>` with value `<valuePrefix><brand><valueSuffix>`. */
  function Inputs(baseKey: string, baseValue: string, keyPrefix: string,
                  valuePrefix: string, valueSuffix: string, brands: seq<string>): map<string, string>
    decreases |brands|
  {
    if |brands| == 0 then map[baseKey := baseValue]
    else
      var b := brands[|brands| - 1];
      Inputs(baseKey, baseValue, keyPrefix, valuePrefix, valueSuffix, brands[..|brands| - 1])
        [keyPrefix + b := valuePrefix + b + valueSuffix]
  }

  /** The client inputs: `main` and `brand-<b>` for the entry of each brand. */
  function ClientInputs(brands: seq<string>): map<string, string> {
    Inputs("main", "/src/entry-client.tsx", "brand-", "/src/__brand__/", "/entry-client.ts", brands)
  }

  /** The SSR inputs: `entry-server` and `entry-server-<b>` for the server
      entry with the brand in its query. */
  function SsrInputs(brands: seq<string>): map<string, string> {
    Inputs("entry-server", "/src/entry-server.tsx", "entry-server-", "/src/entry-server.tsx?brand=", "", brands)
  }

  lemma {:induction false} InputsKeys(baseKey: string, baseValue: string, keyPrefix: string,
                                      valuePrefix: string, valueSuffix: string, brands: seq<string>)
    ensures Inputs(baseKey, baseValue, keyPrefix, valuePrefix, valueSuffix, brands).Keys
            == {baseKey} + (set b | b in brands :: keyPrefix + b)
    decreases |brands|
  {
    if |brands| > 0 {
      var init := brands[..|brands| - 1];
      InputsKeys(baseKey, baseValue, keyPrefix, valuePrefix, valueSuffix, init);
      assert brands == init + [brands[|brands| - 1]];
      assert (set b | b in brands :: keyPrefix + b)
             == (set b | b in init :: keyPrefix + b) + {keyPrefix + brands[|brands| - 1]};
    }
  }

  /** One more brand adds its key and value to the inputs. */
  lemma InputsStep(baseKey: string, baseValue: string, keyPrefix: string,
                   valuePrefix: string, valueSuffix: string, brands: seq<string>, i: nat)
    requires i < |brands|
    ensures Inputs(baseKey, baseValue, keyPrefix, valuePrefix, valueSuffix, brands[..i + 1])
            == Inputs(baseKey, baseValue, keyPrefix, valuePrefix, valueSuffix, brands[..i])
                 [keyPrefix + brands[i] := valuePrefix + brands[i] + valueSuffix]
  {
    assert brands[..i + 1][..i] == brands[..i];
  }

  /** Distinct brands give distinct keys. */
  lemma PrefixInjective(prefix: string, a: string, b: string)
    requires prefix + a == prefix + b
    ensures a == b
  {
    assert a == (prefix + a)[|prefix|..];
    assert b == (prefix + b)[|prefix|..];
  }

  lemma {:induction false} InputsValues(baseKey: string, baseValue: string, keyPrefix: string,
                                        valuePrefix: string, valueSuffix: string, brands: seq<string>)
    requires !StartsWith(baseKey, keyPrefix)
    ensures var m := Inputs(baseKey, baseValue, keyPrefix, valuePrefix, valueSuffix, brands);
            && baseKey in m && m[baseKey] == baseValue
            && forall b :: b in brands ==> keyPrefix + b in m && m[keyPrefix + b] == valuePrefix + b + valueSuffix
    decreases |brands|
  {
    if |brands| > 0 {
      var init := brands[..|brands| - 1];
      var last := brands[|brands| - 1];
      InputsValues(baseKey, baseValue, keyPrefix, valuePrefix, valueSuffix, init);
      assert brands == init + [last];
      assert (keyPrefix + last)[..|keyPrefix|] == keyPrefix;
      forall b | b in brands && keyPrefix + b == keyPrefix + last
        ensures b == last
      {
        PrefixInjective(keyPrefix, b, last);
      }
    }
  }

  // ---- The plugin object ----

  class Plugin {
    /** The brands found under `<root>/src` when the configuration was resolved. */
    var knownBrands: set<string>
    /** `config.root` of the resolved configuration. */
    var root: string

    /** `brandOverrides()`: no brands are known until the configuration is
        resolved. */
    constructor()
      ensures knownBrands == {} && root == ""
    {
      knownBrands := {};
      root := "";
    }

    /** `configResolved`: records the root and scans its `src` directory. */
    method ConfigResolved(resolvedRoot: string, srcTree: Node)
      modifies this
      ensures root == resolvedRoot
      ensures knownBrands == Scan(srcTree)
    {
      root := resolvedRoot;
      var brands := FindBrands(srcTree);
      knownBrands := Elems(brands);
    }

    /** `config`: the client and SSR inputs for the brands under `src` of the
        working directory, `cwdSrcTree`. */
    method Config(cwdSrcTree: Node) returns (clientInputs: map<string, string>, ssrInputs: map<string, string>)
      ensures clientInputs.Keys == {"main"} + (set b | b in Scan(cwdSrcTree) :: "brand-" + b)
      ensures clientInputs["main"] == "/src/entry-client.tsx"
      ensures forall b :: b in Scan(cwdSrcTree) ==> clientInputs["brand-" + b] == BrandEntryId(b)
      ensures ssrInputs.Keys == {"entry-server"} + (set b | b in Scan(cwdSrcTree) :: "entry-server-" + b)
      ensures ssrInputs["entry-server"] == "/src/entry-server.tsx"
      ensures forall b :: b in Scan(cwdSrcTree) ==>
                ssrInputs["entry-server-" + b] == "/src/entry-server.tsx?brand=" + b
    {
      var brands := FindBrands(cwdSrcTree);
      clientInputs := map["main" := "/src/entry-client.tsx"];
      for i := 0 to |brands|
        invariant clientInputs == ClientInputs(brands[..i])
      {
        var b := brands[i];
        InputsStep("main", "/src/entry-client.tsx", "brand-", "/src/__brand__/", "/entry-client.ts", brands, i);
        clientInputs := clientInputs["brand-" + b := "/src/__brand__/" + b + "/entry-client.ts"];
      }
      ssrInputs := map["entry-server" := "/src/entry-server.tsx"];
      for i := 0 to |brands|
        invariant ssrInputs == SsrInputs(brands[..i])
      {
        var b := brands[i];
        InputsStep("entry-server", "/src/entry-server.tsx", "entry-server-", "/src/entry-server.tsx?brand=", "", brands, i);
        assert "/src/entry-server.tsx?brand=" + b + "" == "/src/entry-server.tsx?brand=" + b;
        ssrInputs := ssrInputs["entry-server-" + b := "/src/entry-server.tsx?brand=" + b];
      }
      assert brands[..|brands|] == brands;
      ConfigFacts(brands, Scan(cwdSrcTree));
    }

    /** `transformIndexHtml`: on the dev server, a page requested with a known
        `brand` parameter gets the main client entry tag rewritten to carry
        that brand. `search` stands for `new URL(originalUrl, ...).search`,
        `None` when the URL does not parse. */
    function TransformIndexHtml(html: string, ctx: Option<HtmlContext>,
                                search: string -> Option<string>): (r: string)
      reads this
      ensures r != html ==>
                && ctx.Some? && ctx.value.server
                && ctx.value.originalUrl.Some? && ctx.value.originalUrl.value != ""
                && search(ctx.value.originalUrl.value).Some?
                && var brand := NonEmpty(Get(SearchParams(search(ctx.value.originalUrl.value).value), "brand"));
                   brand.Some? && brand.value in knownBrands && Contains(html, ClientEntryTag)
    {
      if ctx.None? || ctx.value.originalUrl.None? || ctx.value.originalUrl.value == "" then html
      else if !ctx.value.server then html
      else
        match search(ctx.value.originalUrl.value)
        case None => html
        case Some(q) =>
          var brand := NonEmpty(Get(SearchParams(q), "brand"));
          if brand.None? || brand.value !in knownBrands then html
          else ReplaceFirst(html, ClientEntryTag, BrandedClientEntryTag(brand.value))
    }

    /** `resolveId`. `resolve(id, importer)` stands for `this.resolve(...)`
        and gives the resolved id or `None`; `fileExists` stands for
        `fs.existsSync`. A brand entry of a known brand is kept; a known brand
        in the id's own query comes first and brands the resolved id; then a
        known brand of the importer selects the overlay file when there is one
        and brands the result; anything else passes through. Without a known
        brand on the id or on its importer the id is left to the next
        resolver -- except `virtual:frontier` imported from a module that
        carries some brand, which is always scoped to that brand. */
    function ResolveId(source: string, importer: Option<string>,
                       resolve: (string, Option<string>) -> Option<string>,
                       fileExists: string -> bool): (r: Resolution)
      reads this
      ensures && !(source == "virtual:frontier" && BrandForImporter(importer).Some?)
              && (MatchBrandEntry(source).None? || MatchBrandEntry(source).value !in knownBrands)
              && (TryGetBrandFromId(source).None? || TryGetBrandFromId(source).value !in knownBrands)
              && (BrandForImporter(importer).None? || BrandForImporter(importer).value !in knownBrands)
              ==> r == PassThrough
    {
      var importerBrand := BrandForImporter(importer);
      if source == "virtual:frontier" && importerBrand.Some? then
        match resolve(FrontierFor(importerBrand.value), importer)
        case Some(rid) => Resolved(rid)
        case None => Id(FrontierFor(importerBrand.value))
      else if MatchBrandEntry(source).Some? && MatchBrandEntry(source).value in knownBrands then
        Id(source)
      else if TryGetBrandFromId(source).Some? && TryGetBrandFromId(source).value in knownBrands then
        ByIdBrand(source, TryGetBrandFromId(source).value, importer, resolve)
      else if importerBrand.None? || importerBrand.value !in knownBrands then
        PassThrough
      else
        ByImporterBrand(source, importerBrand.value, importer, resolve, fileExists)
    }

    /** The step of `resolveId` for an id whose own query names a known brand:
        a module under `src` comes back annotated with that brand, with its
        file path kept; anything else resolved comes back as it is. */
    function ByIdBrand(source: string, idBrand: string, importer: Option<string>,
                       resolve: (string, Option<string>) -> Option<string>): (r: Resolution)
      reads this
      ensures resolve(source, importer).None? <==> r == PassThrough
      ensures r.Resolved? ==> resolve(source, importer) == Some(r.id)
      ensures r.Id? ==> StripQuery(r.id) == StripQuery(resolve(source, importer).value)
                        && EndsWith(r.id, "__brand=" + idBrand)
    {
      match resolve(source, importer)
      case None => PassThrough
      case Some(rid) =>
        if !IsVirtual(rid) && IsInsideSrc(rid, root) then
          AddBrandParamKeepsPath(rid, idBrand);
          Id(AddBrandParam(rid, idBrand))
        else Resolved(rid)
    }

    /** The step of `resolveId` for an importer with a known brand: only a
        module under `src` is considered for an overlay, and every id of the
        plugin's own making carries the brand. */
    function ByImporterBrand(source: string, brand: string, importer: Option<string>,
                             resolve: (string, Option<string>) -> Option<string>,
                             fileExists: string -> bool): (r: Resolution)
      reads this
      ensures resolve(source, importer).None? <==> r == PassThrough
      ensures r.Id? ==> EndsWith(r.id, "__brand=" + brand)
      ensures resolve(source, importer).Some? ==>
                var rid := resolve(source, importer).value;
                IsVirtual(rid) || !IsInsideSrc(rid, root) ==> r == Resolved(rid)
    {
      match resolve(source, importer)
      case None => PassThrough
      case Some(rid) =>
        if IsVirtual(rid) then Resolved(rid)
        else if !IsInsideSrc(rid, root) then Resolved(rid)
        else Overlay(rid, brand, importer, resolve, fileExists)
    }

    /** The end of `resolveId` for a module under `src` imported from a brand,
        with the source's `computeOverlayPath`: the overlay file when it
        differs from the module, exists and resolves; otherwise the module
        itself. An id of the plugin's own making carries the brand; a result
        of the resolver is handed back only for a virtual module. */
    function Overlay(rid: string, brand: string, importer: Option<string>,
                     resolve: (string, Option<string>) -> Option<string>,
                     fileExists: string -> bool): (r: Resolution)
      reads this
      ensures r != PassThrough
      ensures r.Id? ==> EndsWith(r.id, "__brand=" + brand)
      ensures r.Resolved? ==> IsVirtual(r.id)
    {
      OverlayAt(ComputeOverlayPathAsWritten(rid, brand, root), rid, brand, importer, resolve, fileExists)
    }

    /** The same step with the corrected overlay path (see `OverlayOf`), as
        the comment in the source intends. */
    function OverlayIntended(rid: string, brand: string, importer: Option<string>,
                             resolve: (string, Option<string>) -> Option<string>,
                             fileExists: string -> bool): (r: Resolution)
      reads this
      ensures r != PassThrough
      ensures r.Id? ==> EndsWith(r.id, "__brand=" + brand)
      ensures r.Resolved? ==> IsVirtual(r.id)
    {
      OverlayAt(ComputeOverlayPath(rid, brand, root), rid, brand, importer, resolve, fileExists)
    }

    /** The overlay step for a given candidate path. */
    function OverlayAt(candidate: string, rid: string, brand: string, importer: Option<string>,
                       resolve: (string, Option<string>) -> Option<string>,
                       fileExists: string -> bool): (r: Resolution)
      ensures r != PassThrough
      ensures r.Id? ==> EndsWith(r.id, "__brand=" + brand)
      ensures r.Resolved? ==> IsVirtual(r.id)
    {
      var overlay := if candidate != StripQuery(rid) && fileExists(candidate) then resolve(candidate, importer) else None;
      match overlay
      case Some(oid) =>
        if !IsVirtual(oid) then Id(AddBrandParam(oid, brand)) else Resolved(oid)
      case None =>
        if !IsVirtual(rid) then Id(AddBrandParam(rid, brand)) else Resolved(rid)
    }

    /** `load`: the client entry of a brand imports the main client entry
        with that brand; every other id is left to the next plugin. */
    function Load(id: string): (r: Option<string>)
      ensures MatchBrandEntry(id).None? <==> r.None?
      ensures MatchBrandEntry(id).Some? ==> r == Some(BrandEntryModule(MatchBrandEntry(id).value))
    {
      match MatchBrandEntry(id)
      case Some(b) => Some(BrandEntryModule(b))
      case None => None
    }

    // ---- What the hooks promise ----

    /** On such a page the first client entry tag is replaced by one whose
        script carries the brand, and the rest of the page is kept. */
    lemma TransformBrandsEntry(html: string, url: string, search: string -> Option<string>, brand: string)
      requires url != "" && search(url).Some?
      requires NonEmpty(Get(SearchParams(search(url).value), "brand")) == Some(brand)
      requires brand in knownBrands && '&' !in brand
      requires Contains(html, ClientEntryTag)
      ensures var r := TransformIndexHtml(html, Some(HtmlContext(Some(url), true)), search);
              var i := IndexOfString(html, ClientEntryTag);
              && r == html[..i] + BrandedClientEntryTag(brand) + html[i + |ClientEntryTag|..]
              && Contains(r, BrandedClientEntryTag(brand))
              && TryGetBrandFromId(BrandedClientEntry(brand)) == Some(brand)
    {
      TransformReplaces(html, url, search, brand);
      ReplaceFirstPuts(html, ClientEntryTag, BrandedClientEntryTag(brand));
      BrandedEntryCarriesBrand(brand);
    }

    lemma TransformReplaces(html: string, url: string, search: string -> Option<string>, brand: string)
      requires url != "" && search(url).Some?
      requires NonEmpty(Get(SearchParams(search(url).value), "brand")) == Some(brand)
      requires brand in knownBrands
      ensures TransformIndexHtml(html, Some(HtmlContext(Some(url), true)), search)
              == ReplaceFirst(html, ClientEntryTag, BrandedClientEntryTag(brand))
    {
    }

    /** The client entry of a known brand is kept as it is, and `load` serves
        for it an import of the main client entry that carries the brand. */
    lemma BrandEntryChain(brand: string, importer: Option<string>,
                          resolve: (string, Option<string>) -> Option<string>,
                          fileExists: string -> bool)
      requires brand in knownBrands && brand != "" && '/' !in brand && '&' !in brand
      ensures ResolveId(BrandEntryId(brand), importer, resolve, fileExists) == Id(BrandEntryId(brand))
      ensures Load(BrandEntryId(brand)) == Some(BrandEntryModule(brand))
      ensures TryGetBrandFromId(BrandedClientEntry(brand)) == Some(brand)
    {
      KnownBrandEntryKept(brand, importer, resolve, fileExists);
      MatchBrandEntryOf(brand);
      BrandedEntryCarriesBrand(brand);
    }

    lemma KnownBrandEntryKept(brand: string, importer: Option<string>,
                              resolve: (string, Option<string>) -> Option<string>,
                              fileExists: string -> bool)
      requires brand in knownBrands && brand != "" && '/' !in brand
      ensures ResolveId(BrandEntryId(brand), importer, resolve, fileExists) == Id(BrandEntryId(brand))
    {
      MatchBrandEntryOf(brand);
      BrandEntryNotFrontier(brand);
    }

    /** `virtual:frontier` from a module with a brand, known or not, becomes
        that brand's view of the module, resolved or as an id of its own. */
    lemma FrontierScopedToImporter(importer: Option<string>,
                                   resolve: (string, Option<string>) -> Option<string>,
                                   fileExists: string -> bool)
      requires BrandForImporter(importer).Some?
      ensures var scoped := FrontierFor(BrandForImporter(importer).value);
              var r := ResolveId("virtual:frontier", importer, resolve, fileExists);
              && (resolve(scoped, importer).None? ==> r == Id(scoped))
              && (resolve(scoped, importer).Some? ==> r == Resolved(resolve(scoped, importer).value))
    {
    }

    /** A known brand in the id's own query decides: the importer's brand and
        the file system play no part, only what the id resolves to. */
    lemma SourceBrandFirst(source: string, importer: Option<string>, otherImporter: Option<string>,
                           resolve: (string, Option<string>) -> Option<string>,
                           otherResolve: (string, Option<string>) -> Option<string>,
                           fileExists: string -> bool, otherExists: string -> bool)
      requires TryGetBrandFromId(source).Some? && TryGetBrandFromId(source).value in knownBrands
      requires otherResolve(source, otherImporter) == resolve(source, importer)
      ensures ResolveId(source, importer, resolve, fileExists)
              == ResolveId(source, otherImporter, otherResolve, otherExists)
    {
      HasQuery(source);
      QueryIsNotFrontier(source);
      if MatchBrandEntry(source).Some? && MatchBrandEntry(source).value in knownBrands {
        KnownEntryStep(source, importer, resolve, fileExists);
        KnownEntryStep(source, otherImporter, otherResolve, otherExists);
      } else {
        IdBrandStep(source, importer, resolve, fileExists);
        IdBrandStep(source, otherImporter, otherResolve, otherExists);
        ByIdBrandResolvedOnly(source, TryGetBrandFromId(source).value, importer, resolve, otherImporter, otherResolve);
      }
    }

    /** The id-brand step depends only on what the id resolves to. */
    lemma ByIdBrandResolvedOnly(source: string, idBrand: string,
                                importer: Option<string>, resolve: (string, Option<string>) -> Option<string>,
                                otherImporter: Option<string>, otherResolve: (string, Option<string>) -> Option<string>)
      requires otherResolve(source, otherImporter) == resolve(source, importer)
      ensures ByIdBrand(source, idBrand, importer, resolve) == ByIdBrand(source, idBrand, otherImporter, otherResolve)
    {
    }

    /** Apart from the frontier case, a known brand's entry is kept. */
    lemma KnownEntryStep(source: string, importer: Option<string>,
                         resolve: (string, Option<string>) -> Option<string>,
                         fileExists: string -> bool)
      requires source != "virtual:frontier"
      requires MatchBrandEntry(source).Some? && MatchBrandEntry(source).value in knownBrands
      ensures ResolveId(source, importer, resolve, fileExists) == Id(source)
    {
    }

    /** With a known brand in the id's query, `resolveId` takes the id-brand step. */
    lemma IdBrandStep(source: string, importer: Option<string>,
                      resolve: (string, Option<string>) -> Option<string>,
                      fileExists: string -> bool)
      requires MatchBrandEntry(source).None? || MatchBrandEntry(source).value !in knownBrands
      requires TryGetBrandFromId(source).Some? && TryGetBrandFromId(source).value in knownBrands
      ensures ResolveId(source, importer, resolve, fileExists)
              == ByIdBrand(source, TryGetBrandFromId(source).value, importer, resolve)
    {
      HasQuery(source);
      QueryIsNotFrontier(source);
    }

    /** With a known brand in the id's query, a module under `src` comes back
        with `__brand=<brand>` appended after its own parameters and its file
        path unchanged; anything else comes back as resolved. */
    lemma SourceBrandAnnotates(source: string, importer: Option<string>, rid: string,
                               resolve: (string, Option<string>) -> Option<string>,
                               fileExists: string -> bool)
      requires MatchBrandEntry(source).None? || MatchBrandEntry(source).value !in knownBrands
      requires TryGetBrandFromId(source).Some? && TryGetBrandFromId(source).value in knownBrands
      requires '&' !in TryGetBrandFromId(source).value
      requires resolve(source, importer) == Some(rid)
      ensures var r := ResolveId(source, importer, resolve, fileExists);
              && (!IsVirtual(rid) && IsInsideSrc(rid, root) ==>
                    r.Id? && StripQuery(r.id) == StripQuery(rid)
                    && IdParams(r.id) == Some(ParamsOf(rid) + [Param("__brand", TryGetBrandFromId(source).value)]))
              && (IsVirtual(rid) || !IsInsideSrc(rid, root) ==> r == Resolved(rid))
    {
      var b := TryGetBrandFromId(source).value;
      IdBrandStep(source, importer, resolve, fileExists);
      AddBrandParamKeepsPath(rid, b);
      AddBrandParamPairs(rid, b);
    }

    /** With only the importer's known brand, a virtual module or one outside
        `src` comes back as resolved, an unresolved id passes through, and a
        module under `src` goes to the overlay step. */
    lemma ImporterBrandSelects(source: string, importer: Option<string>,
                               resolve: (string, Option<string>) -> Option<string>,
                               fileExists: string -> bool)
      requires source != "virtual:frontier"
      requires MatchBrandEntry(source).None? || MatchBrandEntry(source).value !in knownBrands
      requires TryGetBrandFromId(source).None? || TryGetBrandFromId(source).value !in knownBrands
      requires BrandForImporter(importer).Some? && BrandForImporter(importer).value in knownBrands
      ensures var r := ResolveId(source, importer, resolve, fileExists);
              && (resolve(source, importer).None? ==> r == PassThrough)
              && (resolve(source, importer).Some? ==>
                    var rid := resolve(source, importer).value;
                    && (IsVirtual(rid) || !IsInsideSrc(rid, root) ==> r == Resolved(rid))
                    && (!IsVirtual(rid) && IsInsideSrc(rid, root) ==>
                          r == Overlay(rid, BrandForImporter(importer).value, importer, resolve, fileExists)))
    {
      ImporterStep(source, importer, resolve, fileExists);
    }

    /** With only the importer's known brand, `resolveId` takes the importer step. */
    lemma ImporterStep(source: string, importer: Option<string>,
                       resolve: (string, Option<string>) -> Option<string>,
                       fileExists: string -> bool)
      requires source != "virtual:frontier"
      requires MatchBrandEntry(source).None? || MatchBrandEntry(source).value !in knownBrands
      requires TryGetBrandFromId(source).None? || TryGetBrandFromId(source).value !in knownBrands
      requires BrandForImporter(importer).Some? && BrandForImporter(importer).value in knownBrands
      ensures ResolveId(source, importer, resolve, fileExists)
              == ByImporterBrand(source, BrandForImporter(importer).value, importer, resolve, fileExists)
    {
    }

    /** Without an overlay that differs from the module, exists and resolves,
        the module itself is used, branded -- with the source's overlay path
        and with the corrected one alike. */
    lemma OverlayFallsBack(rid: string, brand: string, importer: Option<string>,
                           resolve: (string, Option<string>) -> Option<string>,
                           fileExists: string -> bool)
      requires !IsVirtual(rid)
      ensures var c := ComputeOverlayPathAsWritten(rid, brand, root);
              c == StripQuery(rid) || !fileExists(c) || resolve(c, importer).None? ==>
                Overlay(rid, brand, importer, resolve, fileExists) == Id(AddBrandParam(rid, brand))
      ensures var c := ComputeOverlayPath(rid, brand, root);
              c == StripQuery(rid) || !fileExists(c) || resolve(c, importer).None? ==>
                OverlayIntended(rid, brand, importer, resolve, fileExists) == Id(AddBrandParam(rid, brand))
    {
    }

    /** An overlay that differs from the module, exists and resolves is used
        in its place: branded, or as resolved when it is virtual -- with the
        source's overlay path and with the corrected one alike. */
    lemma OverlayPreferred(rid: string, brand: string, importer: Option<string>, overlayId: string,
                           resolve: (string, Option<string>) -> Option<string>,
                           fileExists: string -> bool)
      ensures var c := ComputeOverlayPathAsWritten(rid, brand, root);
              c != StripQuery(rid) && fileExists(c) && resolve(c, importer) == Some(overlayId) ==>
                Overlay(rid, brand, importer, resolve, fileExists)
                == if IsVirtual(overlayId) then Resolved(overlayId) else Id(AddBrandParam(overlayId, brand))
      ensures var c := ComputeOverlayPath(rid, brand, root);
              c != StripQuery(rid) && fileExists(c) && resolve(c, importer) == Some(overlayId) ==>
                OverlayIntended(rid, brand, importer, resolve, fileExists)
                == if IsVirtual(overlayId) then Resolved(overlayId) else Id(AddBrandParam(overlayId, brand))
    {
      var c := ComputeOverlayPathAsWritten(rid, brand, root);
      if c != StripQuery(rid) && fileExists(c) && resolve(c, importer) == Some(overlayId) {
        OverlayAtPreferred(c, rid, brand, importer, overlayId, resolve, fileExists);
      }
      var c' := ComputeOverlayPath(rid, brand, root);
      if c' != StripQuery(rid) && fileExists(c') && resolve(c', importer) == Some(overlayId) {
        OverlayAtPreferred(c', rid, brand, importer, overlayId, resolve, fileExists);
      }
    }

    /** The overlay step for a given candidate path prefers that path when
        it differs from the module, exists and resolves. */
    lemma OverlayAtPreferred(c: string, rid: string, brand: string, importer: Option<string>, overlayId: string,
                             resolve: (string, Option<string>) -> Option<string>,
                             fileExists: string -> bool)
      requires c != StripQuery(rid) && fileExists(c) && resolve(c, importer) == Some(overlayId)
      ensures OverlayAt(c, rid, brand, importer, resolve, fileExists)
              == if IsVirtual(overlayId) then Resolved(overlayId) else Id(AddBrandParam(overlayId, brand))
    {
    }

    /** With the corrected overlay path, a module that already is the overlay
        of a project path for the brand is used as it is, branded, without
        looking for an overlay of it. The source's hook does not have this
        property: see `ResolveIdNestsTwice`. */
    lemma OverlayNotNestedTwice(p: string, brand: string, importer: Option<string>,
                                resolve: (string, Option<string>) -> Option<string>,
                                fileExists: string -> bool)
      requires IsProjectPath(p)
      requires brand != "" && '/' !in brand && '?' !in brand
      ensures var rid := ComputeOverlayPath(p, brand, root);
              OverlayIntended(rid, brand, importer, resolve, fileExists) == Id(AddBrandParam(rid, brand))
    {
      OverlayIdempotent(p, brand, root);
      OverlayIsPlainPath(p, brand, root);
      FixedPointNotOverlaid(ComputeOverlayPath(p, brand, root), brand, importer, resolve, fileExists);
    }

    lemma FixedPointNotOverlaid(rid: string, brand: string, importer: Option<string>,
                                resolve: (string, Option<string>) -> Option<string>,
                                fileExists: string -> bool)
      requires ComputeOverlayPath(rid, brand, root) == rid
      requires '?' !in rid && |rid| > 0 && rid[0] == '/'
      ensures OverlayIntended(rid, brand, importer, resolve, fileExists) == Id(AddBrandParam(rid, brand))
    {
      SlashPathNotVirtual(rid);
      assert StripQuery(rid) == rid;
    }

    /** The source's hook on the example of `OverlayAsWrittenDoubleNests`:
        under root `/app`, a module resolved to
        `/app/src/components/brands/purple/OverloadButton.tsx` and imported
        from a `purple` module makes `resolveId` look up
        `.../brands/purple/brands/purple/OverloadButton.tsx` and, when that
        file exists and resolves, answer with it; the corrected step answers
        with the module itself. */
    lemma ResolveIdNestsTwice(source: string, importer: Option<string>, overlayId: string,
                              resolve: (string, Option<string>) -> Option<string>,
                              fileExists: string -> bool)
      requires root == "/app" && "purple" in knownBrands
      requires source != "virtual:frontier"
      requires MatchBrandEntry(source).None? || MatchBrandEntry(source).value !in knownBrands
      requires TryGetBrandFromId(source).None? || TryGetBrandFromId(source).value !in knownBrands
      requires BrandForImporter(importer) == Some("purple")
      requires resolve(source, importer) == Some(ExamplePath)
      requires fileExists(ExampleNested) && resolve(ExampleNested, importer) == Some(overlayId)
      requires !IsVirtual(overlayId)
      ensures ResolveId(source, importer, resolve, fileExists) == Id(AddBrandParam(overlayId, "purple"))
      ensures OverlayIntended(ExamplePath, "purple", importer, resolve, fileExists)
              == Id(AddBrandParam(ExamplePath, "purple"))
    {
      ExampleInsideSrc();
      ExampleNoQuery();
      ImporterBrandSelects(source, importer, resolve, fileExists);
      OverlayAsWrittenDoubleNests();
      assert StripQuery(ExamplePath) == ExamplePath;
      assert ExampleNested != ExamplePath by {
        assert |ExampleNested| != |ExamplePath|;
      }
    }
  }

  /** The inputs built for a listing of the brands `found`. */
  lemma ConfigFacts(brands: seq<string>, found: set<string>)
    requires Elems(brands) == found
    ensures ClientInputs(brands).Keys == {"main"} + (set b | b in found :: "brand-" + b)
    ensures ClientInputs(brands)["main"] == "/src/entry-client.tsx"
    ensures forall b :: b in found ==> ClientInputs(brands)["brand-" + b] == BrandEntryId(b)
    ensures SsrInputs(brands).Keys == {"entry-server"} + (set b | b in found :: "entry-server-" + b)
    ensures SsrInputs(brands)["entry-server"] == "/src/entry-server.tsx"
    ensures forall b :: b in found ==> SsrInputs(brands)["entry-server-" + b] == "/src/entry-server.tsx?brand=" + b
  {
    InputsKeys("main", "/src/entry-client.tsx", "brand-", "/src/__brand__/", "/entry-client.ts", brands);
    assert !StartsWith("main", "brand-") by { assert |"main"| < |"brand-"|; }
    InputsValues("main", "/src/entry-client.tsx", "brand-", "/src/__brand__/", "/entry-client.ts", brands);
    InputsKeys("entry-server", "/src/entry-server.tsx", "entry-server-", "/src/entry-server.tsx?brand=", "", brands);
    InputsValues("entry-server", "/src/entry-server.tsx", "entry-server-", "/src/entry-server.tsx?brand=", "", brands);
    PrefixedSame(brands, found, "brand-");
    PrefixedSame(brands, found, "entry-server-");
  }

  lemma PrefixedSame(brands: seq<string>, found: set<string>, prefix: string)
    requires Elems(brands) == found
    ensures (set b | b in brands :: prefix + b) == (set b | b in found :: prefix + b)
  {
    assert forall b :: b in brands <==> b in Elems(brands);
  }

  /** A path without `?` followed by `?brand=<brand>` reads back the brand. */
  lemma BrandQueryReadsBack(path: string, brand: string)
    requires '?' !in path && brand != "" && '&' !in brand
    ensures IdParams(path + "?brand=" + brand) == Some([Param("brand", brand)])
    ensures TryGetBrandFromId(path + "?brand=" + brand) == Some(brand)
  {
    var x := "brand" + "=" + brand;
    BrandQueryShape(path, brand);
    IdParamsAfterQuestion(path, x);
    BrandNameWellFormed();
    SearchParamsSingle("brand", brand);
    BrandOfSingleParam(path + "?brand=" + brand, brand);
  }

  lemma BrandQueryShape(path: string, brand: string)
    ensures path + "?brand=" + brand == path + "?" + ("brand" + "=" + brand)
  {
  }

  lemma BrandNameWellFormed()
    ensures "brand" != "" && "brand"[0] != '?' && '=' !in "brand" && '&' !in "brand"
  {
  }

  /** An id whose only parameter is a non-empty `brand` names that brand. */
  lemma BrandOfSingleParam(id: string, brand: string)
    requires brand != "" && IdParams(id) == Some([Param("brand", brand)])
    ensures TryGetBrandFromId(id) == Some(brand)
  {
    assert Get([Param("brand", brand)], "brand") == Some(brand);
  }

  /** The main client entry with a brand reads back that brand. */
  lemma BrandedEntryCarriesBrand(brand: string)
    requires brand != "" && '&' !in brand
    ensures TryGetBrandFromId(BrandedClientEntry(brand)) == Some(brand)
  {
    assert '?' !in ClientEntry;
    BrandQueryReadsBack(ClientEntry, brand);
  }

  /** An id with a query is not the bare frontier id. */
  lemma QueryIsNotFrontier(source: string)
    requires '?' in source
    ensures source != "virtual:frontier"
  {
  }

  lemma BrandEntryNotFrontier(brand: string)
    ensures BrandEntryId(brand) != "virtual:frontier"
  {
    assert BrandEntryId(brand)[0] == '/';
  }

  /** The overlay of a project path is an absolute path without a query,
      both as the source computes it and as corrected. */
  lemma OverlayIsPlainPath(p: string, brand: string, root: string)
    requires IsProjectPath(p)
    requires brand != "" && '/' !in brand && '?' !in brand
    ensures var r := ComputeOverlayPath(p, brand, root);
            '?' !in r && |r| > 0 && r[0] == '/'
    ensures var r := ComputeOverlayPathAsWritten(p, brand, root);
            '?' !in r && |r| > 0 && r[0] == '/'
  {
    ProjectPathFixed(p, root);
    if !Contains(DirPrefix(p), BrandSegment(brand)) {
      InsertedIsPlainPath(p, brand);
      OverlayInsertsBrandDir(p, brand);
    }
    if !Contains(ParsedDir(p), BrandSegment(brand)) {
      InsertedIsPlainPath(p, brand);
      OverlayJoinShape(p, brand);
    }
  }

  /** The path with `brands/<brand>/` inserted is absolute and has no query. */
  lemma InsertedIsPlainPath(p: string, brand: string)
    requires IsProjectPath(p)
    requires '?' !in brand
    ensures var r := DirPrefix(p) + "brands/" + brand + "/" + BaseName(p);
            '?' !in r && |r| > 0 && r[0] == '/'
  {
    InsertedNoQuery(p, brand);
    InsertedStartsWithSlash(p, brand);
  }
}
