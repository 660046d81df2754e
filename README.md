# Brand overlays for a Vite application, in Dafny

This project models the brand-overlay layer of a Vite/React application
that serves several *brands* from one code base, and proves properties of
that model. A brand is a directory `brands/<name>/` under `src`. Inside a
brand, a file overrides the file with the same name one level up. The
layer has four parts, and each Dafny module follows one of them:

- **The `brand-overrides` Vite plugin** (`BrandPaths`, `BrandScan`,
  `BrandOverrides`):
  - It finds the brands by a breadth-first scan of `src`.
  - It adds one client build input and one SSR build input per brand.
  - On the dev server, it rewrites the page's client entry tag to carry
    `?brand=`.
  - It serves a virtual client entry per brand (`/src/__brand__/<b>/entry-client.ts`).
  - In `resolveId`, it decides whether a module is swapped for its brand
    overlay, annotated with `__brand=`, left as resolved, or passed on.
    `resolveId` is modelled with `computeOverlayPath` as the code writes
    it, defect included (see "## Findings"); the corrected overlay step
    is modelled beside it.

  The plugin object is the class `BrandOverrides.Plugin`. Its fields are
  `knownBrands` and `root`, which `configResolved` sets.
- **The `get-frontier-entrypoints` Vite plugin** (`FrontierConfig`,
  `FrontierEntrypoints`):
  - It resolves `virtual:frontier` and its brand-scoped form.
  - It loads the module as a `componentLoaders` table.
  - The table has one lazy import per configured entrypoint. Each import
    is either unbranded with one variant per brand, or, for a brand-scoped
    id, that brand's variant only.
- **Server entry helpers** (`Entries`, `SrcPaths`):
  - They read `frontier.config.yaml`.
  - They turn each configured entrypoint into a route segment.
  - For a request URL, they pick the entry name and the component path.
- **Manifest helpers** (`Manifest`): the script tags and the deduplicated
  style tags come from the client build's manifest.

Support modules:
- `Wrappers`: `Option`/`Result`.
- `Seqs`: no-duplicates, `FlatMap`, ordered dedup.
- `Strings`: JavaScript string operations on `seq<char>`.
- `Query`: `URLSearchParams` parsing.
- `DirTree`: a directory tree standing for the file system under `src`, and
  an independent description of what the brand scan finds.

Denotations of the environment:
- `this.resolve` is a function parameter `(id, importer) -> Option<id>`.
- `fs.existsSync` is a predicate parameter.
- `new URL(...)` is either a parameter (the page's search string) or its
  result (the request's pathname, `None` when the URL throws).
- `fs.readdirSync` is the `DirTree.Node` tree, where `readable == false`
  means the listing throws.
- The YAML configuration is `FrontierConfig.ConfigFile`: `Missing`, or the
  parsed `name` and `entrypoints`, where a non-string name or entrypoint
  is `NonString`.
- The JSON manifest is an optional sequence of keyed chunks in property
  order.

The code keeps no cache of brands or of path existence, and its
`handleHotUpdate` is a no-op. It has no bridge between base and overlay
style modules and no function from an overlay path back to its base path.
A module's brand comes only from an explicit `brand`/`__brand` query on
the id or on the importer, never from a `brands/<b>/` segment in a path.

## Model

| member | source | states |
|---|---|---|
| BrandPaths.StripQuery | plugins/brand-overrides.ts:7-10 | the result has no `?`, is a prefix of the id, is the whole id when there is no `?`, and is followed in the id by the first `?` otherwise |
| BrandPaths.StripQueryIdempotent | plugins/brand-overrides.ts:7-10 | stripping the query twice is the same as stripping it once |
| BrandPaths.TryGetBrandFromId | plugins/brand-overrides.ts:12-18 | an id without `?` has no brand; a brand found is never empty and comes from the id's query |
| BrandPaths.BrandPrecedence | plugins/brand-overrides.ts:12-18 | a non-empty `brand` parameter wins; otherwise a non-empty `__brand`; empty values count as missing |
| BrandPaths.BrandForImporter | plugins/brand-overrides.ts:91-97 | without an importer there is no brand; with one, the brand is the importer's own query brand and nothing else |
| BrandPaths.NormalizeFsPath | plugins/brand-overrides.ts:20-23 | an id under `/@fs/` loses exactly the `/@fs` prefix and stays absolute; any other id is unchanged |
| BrandPaths.PathJoinNormalized | plugins/brand-overrides.ts:27 | joining a non-empty directory and a relative path, both without `//`, gives a path without `//` that starts with the directory and ends with one separator followed by the relative path |
| BrandPaths.ToProjectFsPathQueryFree | plugins/brand-overrides.ts:25-29 | the project path of an id is that of the id without its query: the query plays no part |
| BrandPaths.ToProjectFsPathDevSrc | plugins/brand-overrides.ts:25-29 | a dev-server path `/src/...` maps to `<root>/src/...` for a root without a trailing separator |
| BrandPaths.ToProjectFsPathFs | plugins/brand-overrides.ts:20-29 | an id `/@fs/<p>` of a file outside `/src/` maps to the file's own path `/<p>` |
| BrandPaths.ProjectPathFixed | plugins/brand-overrides.ts:25-29 | an absolute path without a query and not under `/@fs/` or `/src/` is its own project path |
| BrandPaths.DevSrcIdInsideSrc | plugins/brand-overrides.ts:25-35 | a dev-server id under `/src/` is inside the project's source directory, whatever the root |
| BrandPaths.ParsedDir | plugins/brand-overrides.ts:39 | `path.parse(...).dir` is the directory without its final separator, except for `/` itself |
| BrandPaths.OverlayOf | plugins/brand-overrides.ts:37-44 | the corrected test: a path whose directory already contains `/brands/<brand>/` is returned unchanged; any result keeps the file name |
| BrandPaths.ComputeOverlayPath | plugins/brand-overrides.ts:37-44 | the corrected overlay of a module keeps its file name, and is the module's own project path when that is already under `brands/<brand>/` |
| BrandPaths.ComputeOverlayPathAsWritten | plugins/brand-overrides.ts:37-44 | the source's overlay of a module keeps its file name, and is the module's own project path when `parsed.dir` contains `/brands/<brand>/` |
| BrandPaths.OverlayInsertsBrandDir | plugins/brand-overrides.ts:37-44 | any other path gets exactly `brands/<brand>/` inserted between its directory and its base name |
| BrandPaths.InsertedStaysProjectPath | plugins/brand-overrides.ts:37-44 | the inserted path is again a project path, so the overlay step reads it back unchanged |
| BrandPaths.OverlayIdempotent | plugins/brand-overrides.ts:37-44 | computing the overlay of an overlay gives the same path: nothing is nested into `brands/<brand>/` twice |
| BrandPaths.OverlayOfAsWritten | plugins/brand-overrides.ts:37-44 | the source's test on `parsed.dir`: a directory containing `/brands/<brand>/` keeps the path; any result keeps the file name |
| BrandPaths.OverlayAsWrittenDoubleNests | plugins/brand-overrides.ts:37-44 | for a file directly in `brands/purple/`, the source's function nests it a second time, while the corrected one keeps it |
| BrandPaths.AddBrandParam | plugins/brand-overrides.ts:184-186 | the annotated id is the id, then `&` when it already has a query and `?` otherwise, then `__brand=<brand>` |
| BrandPaths.AddBrandParamKeepsPath | plugins/brand-overrides.ts:184-186 | the `__brand` annotation leaves the id's file path alone |
| BrandPaths.AddBrandParamPairs | plugins/brand-overrides.ts:184-186 | the annotation adds exactly one parameter, `__brand=<brand>`, after the id's own parameters |
| BrandPaths.AddBrandParamReadsBack | plugins/brand-overrides.ts:218-222 | an id without a brand of its own reads back the brand it was annotated with |
| BrandPaths.AddBrandParamKeepsBrand | plugins/brand-overrides.ts:218-222 | an id that already carries a brand keeps that brand after annotation |
| BrandPaths.MatchBrandEntry | plugins/brand-overrides.ts:174-176 | a match gives a non-empty brand without `/` whose entry id is exactly the matched id |
| BrandPaths.MatchBrandEntryOf | plugins/brand-overrides.ts:174-176 | every brand without `/` is matched back from its own entry id |
| Query.ParsePiece | plugins/brand-overrides.ts:15-16 | a parameter splits at its first `=`; a piece without `=` has an empty value |
| Query.Get | plugins/brand-overrides.ts:16 | `get` gives `None` exactly when no parameter has that name |
| Query.GetFirst | plugins/brand-overrides.ts:16 | a value `get` finds belongs to the first parameter with that name |
| Query.GetAppend | plugins/brand-overrides.ts:16 | appended parameters are seen only when the earlier ones lack the name |
| Query.SearchParamsAppend | plugins/brand-overrides.ts:15 | text appended after `&` adds its parameters after the others |
| DirTree.ScanFindsExactly | plugins/brand-overrides.ts:52-85 | a name is found exactly when it is a subdirectory of a readable `brands` directory inside a directory reached only through readable, non-ignored, non-`brands` directories |
| BrandScan.FindBrands | plugins/brand-overrides.ts:52-85 | the breadth-first loop returns each brand of the tree once, and exactly the brands `ScanFindsExactly` describes |
| BrandScan.VisitListing | plugins/brand-overrides.ts:64-82 | one listing adds the names under its `brands` directories, queues its entered directories, and leaves what remains to be found unchanged |
| BrandScan.AddBrandDirs | plugins/brand-overrides.ts:76-78 | adding a `brands` listing adds exactly its subdirectory names, with no duplicates |
| BrandOverrides.InputsKeys | plugins/brand-overrides.ts:108-120 | the input keys are the base key plus one prefixed key per brand |
| BrandOverrides.InputsValues | plugins/brand-overrides.ts:108-120 | the base key maps to the base entry, and each brand's key maps to that brand's entry |
| BrandOverrides.ConfigFacts | plugins/brand-overrides.ts:108-120 | client inputs are `main` plus `brand-<b>` → `/src/__brand__/<b>/entry-client.ts`; SSR inputs are `entry-server` plus `entry-server-<b>` → `/src/entry-server.tsx?brand=<b>` |
| BrandOverrides.Plugin.Config | plugins/brand-overrides.ts:103-136 | the loops build exactly those inputs, for exactly the brands the scan finds |
| BrandOverrides.Plugin.constructor | plugins/brand-overrides.ts:87-89 | a new plugin knows no brands |
| BrandOverrides.Plugin.ConfigResolved | plugins/brand-overrides.ts:138-142 | after `configResolved`, the root is recorded and the known brands are exactly what the scan finds |
| BrandOverrides.Plugin.TransformIndexHtml | plugins/brand-overrides.ts:145-159 | the page changes only on the dev server, for a URL whose `brand` parameter is a known brand, and only when the page has the client entry tag |
| BrandOverrides.Plugin.TransformBrandsEntry | plugins/brand-overrides.ts:150-155 | on such a page, the first entry tag is replaced by one whose script reads back the brand; the rest of the page is kept |
| BrandOverrides.Plugin.ResolveId | plugins/brand-overrides.ts:161-224 | without a known brand on the entry, the id or the importer, and apart from the frontier case, the request passes through |
| BrandOverrides.Plugin.FrontierScopedToImporter | plugins/brand-overrides.ts:163-170 | `virtual:frontier` from an importer with any brand becomes that brand's scoped id, resolved when possible and as an id of its own otherwise |
| BrandOverrides.Plugin.KnownBrandEntryKept | plugins/brand-overrides.ts:174-178 | a known brand's virtual entry is returned as it is |
| BrandOverrides.Plugin.BrandEntryChain | plugins/brand-overrides.ts:174-178 | a known brand's entry is kept by `resolveId`; `load` serves it as an import of the main client entry that reads back the brand |
| BrandOverrides.Plugin.SourceBrandFirst | plugins/brand-overrides.ts:180-189 | with a known brand in the id's own query, the importer and the file system play no part in the result |
| BrandOverrides.Plugin.ByIdBrand | plugins/brand-overrides.ts:182-188 | an unresolved id passes through; an id of the plugin's making keeps the resolved file path and ends with `__brand=<brand>`; otherwise the resolver's result comes back unchanged |
| BrandOverrides.Plugin.SourceBrandAnnotates | plugins/brand-overrides.ts:180-189 | for such an id, a non-virtual module under `src` keeps its path and gains `__brand=<brand>` after its own parameters; a virtual module or one outside `src` is returned as resolved |
| BrandOverrides.Plugin.ImporterBrandSelects | plugins/brand-overrides.ts:191-203 | with only the importer's known brand: an unresolved id passes through, a virtual module or one outside `src` is returned as resolved, and a module under `src` goes to the overlay step |
| BrandOverrides.Plugin.ByImporterBrand | plugins/brand-overrides.ts:195-223 | an unresolved id passes through; a virtual module or one outside `src` comes back as resolved; every id of the plugin's making ends with `__brand=<brand>` |
| BrandOverrides.Plugin.Overlay | plugins/brand-overrides.ts:205-223 | with the source's overlay path: the step never passes through, every id it makes ends with `__brand=<brand>`, and a resolver's result comes back unchanged only for a virtual module |
| BrandOverrides.Plugin.OverlayIntended | plugins/brand-overrides.ts:205-223 | the same three facts for the step with the corrected overlay path |
| BrandOverrides.Plugin.OverlayPreferred | plugins/brand-overrides.ts:205-216 | an overlay that differs from the module, exists and resolves is used instead: annotated with the brand, or as resolved when virtual; for the source's and the corrected overlay path alike |
| BrandOverrides.Plugin.OverlayAtPreferred | plugins/brand-overrides.ts:205-216 | for any candidate path, the overlay step uses the candidate when it differs from the module, exists and resolves |
| BrandOverrides.Plugin.OverlayFallsBack | plugins/brand-overrides.ts:218-223 | without such an overlay, a non-virtual module itself is used, annotated with the brand; for the source's and the corrected overlay path alike |
| BrandOverrides.Plugin.OverlayNotNestedTwice | plugins/brand-overrides.ts:205-223 | with the corrected overlay path, a module that already is an overlay is used as it is, branded, and its own overlay is never looked up |
| BrandOverrides.Plugin.ResolveIdNestsTwice | plugins/brand-overrides.ts:195-216 | with the source's overlay path, a module directly in `brands/purple/` imported from a `purple` module is answered with the double-nested `brands/purple/brands/purple/` file when that exists and resolves; the corrected step answers with the module itself |
| BrandOverrides.OverlayIsPlainPath | plugins/brand-overrides.ts:37-44 | the overlay of a project path is absolute and has no query, both with the source's test and with the corrected one |
| BrandOverrides.Plugin.Load | plugins/brand-overrides.ts:226-232 | `load` answers exactly for brand entry ids, with an import of the client entry carrying that brand |
| BrandOverrides.BrandQueryReadsBack | plugins/brand-overrides.ts:119 | a path followed by `?brand=<b>` has exactly that one parameter and reads back brand `b` |
| BrandOverrides.BrandedEntryCarriesBrand | plugins/brand-overrides.ts:230 | the client entry imported for a brand reads back that brand |
| FrontierEntrypoints.ResolveId | plugins/get-frontier-entrypoints.ts:9-12 | exactly `virtual:frontier` and its `?`-forms resolve, each to `\0` followed by the id |
| FrontierEntrypoints.LoadBrand | plugins/get-frontier-entrypoints.ts:15-20 | there is no brand without a `?`; otherwise the brand is the value of the first `brand` parameter when that is not empty, and none otherwise |
| FrontierEntrypoints.LoadBrandIgnoresAnnotation | plugins/get-frontier-entrypoints.ts:15-20 | an id whose only brand is a `__brand` annotation loads no brand |
| FrontierEntrypoints.ScopedFrontierLoadsBrand | plugins/get-frontier-entrypoints.ts:9-20 | the brand-scoped frontier id of the overlay plugin resolves here and loads that brand's table |
| FrontierEntrypoints.Normalize | plugins/get-frontier-entrypoints.ts:28-32 | a normalized entrypoint is absolute, has no backslash and no edge whitespace |
| FrontierEntrypoints.NormalizeCases | plugins/get-frontier-entrypoints.ts:28-32 | after trimming and slash conversion, an absolute path is kept, `src/...` gets a leading `/`, and anything else goes under `/src/` without its `./` |
| FrontierEntrypoints.NormalizeIdempotent | plugins/get-frontier-entrypoints.ts:28-32 | normalizing a normalized entrypoint changes nothing |
| FrontierEntrypoints.NormalizeNonString | plugins/get-frontier-entrypoints.ts:29 | a non-string entrypoint becomes `/src/` |
| FrontierEntrypoints.Imports | plugins/get-frontier-entrypoints.ts:21-33 | one import per configured entrypoint, in order; every import is absolute and has no backslash and no edge whitespace |
| FrontierEntrypoints.BuildPairs | plugins/get-frontier-entrypoints.ts:69-84 | the nested loops build exactly the table `Pairs` describes |
| FrontierEntrypoints.AddVariants | plugins/get-frontier-entrypoints.ts:78-82 | the inner loop appends one variant per brand, in brand order, after the rows already built |
| FrontierEntrypoints.PairsLength | plugins/get-frontier-entrypoints.ts:69-84 | the table has one row per import for a scoped id, and `1 + brands` rows per import otherwise |
| FrontierEntrypoints.PairsKeyIsSpec | plugins/get-frontier-entrypoints.ts:72-81 | every row's key equals its import specifier |
| FrontierEntrypoints.BrandedRowsOnly | plugins/get-frontier-entrypoints.ts:71-74 | for a scoped id, row `k` is import `k` with `?brand=<brand>` |
| FrontierEntrypoints.UnbrandedBlock | plugins/get-frontier-entrypoints.ts:76-82 | unscoped, each import contributes itself and then one variant per brand, in brand order |
| FrontierEntrypoints.BrandedRowCarriesBrand | plugins/get-frontier-entrypoints.ts:72-80 | a branded variant reads back its brand, both for the overlay plugin and for this loader |
| FrontierEntrypoints.BodyLists | plugins/get-frontier-entrypoints.ts:86-90 | the body opens the `componentLoaders` object, closes it, and contains every row's loader line `'<key>': () => import('<spec>')` |
| FrontierEntrypoints.Load | plugins/get-frontier-entrypoints.ts:13-91 | only frontier ids load; a frontier id loads the body for the configured imports, its brand and the brands found under `src` |
| Entries.ReadFrontierConfig | server/utils/entries.ts:14-21 | a configuration exists exactly when the file parses with an `entrypoints` array; it keeps the entrypoints, keeps a name that is present and not `null`, string or not, and an absent or `null` name becomes `default` |
| Entries.NormalizeComponentPath | server/utils/entries.ts:53-63 | a component path is absolute and has no edge whitespace |
| Entries.NormalizeComponentPathCases | server/utils/entries.ts:53-63 | the trimmed path is kept when absolute, gets `/` before `src/...`, and otherwise goes under `/src/` without its `./` |
| Entries.NormalizeComponentPathIdempotent | server/utils/entries.ts:53-63 | normalizing twice is normalizing once |
| SrcPaths.AnchorInSrc | server/utils/entries.ts:55-61 | the result is absolute, equals the input exactly when the input is absolute, and is under `/src/` otherwise |
| SrcPaths.AnchorInSrcIdempotent | server/utils/entries.ts:55-61 | anchoring twice is anchoring once |
| Entries.EntriesMatch | server/utils/entries.ts:68-69 | a match is a non-empty segment without `/` that follows `/src/entries/` in the path |
| Entries.EntriesMatchFirst | server/utils/entries.ts:68-69 | a match is the whole segment after the first `/src/entries/` that a non-`/` character follows, and there is no match exactly when the pattern occurs nowhere |
| Entries.EntriesMatchComplete | server/utils/entries.ts:68-69 | a path with `/src/entries/` followed by a non-`/` character always matches |
| Entries.DeriveRouteSegmentFromPath | server/utils/entries.ts:65-74 | a route is non-empty, has no `/`, and is the `/src/entries/` segment whenever there is one |
| Entries.DeriveRouteEntriesSegment | server/utils/entries.ts:66-69 | when `/src/entries/` first occurs before a non-`/` character at some position of the normalized path, the route is the whole segment that follows it |
| Entries.FirstNonEmpty | server/utils/entries.ts:72 | the first non-empty part: every earlier part is empty, and there is none exactly when every part is empty |
| Entries.DeriveRouteFallback | server/utils/entries.ts:71-73 | otherwise the route is the first non-empty segment after `/src/`, or `main` when there is none |
| Entries.Routes | server/utils/entries.ts:26 | one route per entrypoint, in order |
| Entries.ListAvailableEntries | server/utils/entries.ts:23-27 | no configuration lists nothing; the listing fails exactly when a configured entrypoint is not a string; no listed entry is empty |
| Entries.ListedRoutes | server/utils/entries.ts:23-27 | with string entrypoints, the listed entries are exactly their routes: the filter drops nothing |
| Entries.ResolveEntryNameFromUrl | server/utils/entries.ts:29-39 | a name other than `main` is the URL's first segment and is a listed entry |
| Entries.FindComponent | server/utils/entries.ts:83-88 | a found path is the normalized path of an entrypoint whose route is the first segment |
| Entries.FindComponentFirst | server/utils/entries.ts:83-87 | the search returns the normalized path of the first entrypoint whose route matches |
| Entries.FindComponentNone | server/utils/entries.ts:83-88 | with string entrypoints, nothing is found exactly when no route matches |
| Entries.ResolveComponentPathFromUrl | server/utils/entries.ts:76-92 | a component path needs a configuration and a first segment, and is the normalized path of an entrypoint whose route is that segment |
| Entries.ComponentIffEntry | server/utils/entries.ts:76-92 | a component is found exactly when the first segment is a route; the entry name is then that segment, and `main` otherwise |
| Manifest.Lookup | server/utils/manifest.ts:28 | a found chunk belongs to that key in the manifest; `None` means no entry has the key |
| Manifest.MainEntry | server/utils/manifest.ts:20-21 | the main entry is the chunk of `src/entry-client.tsx` or of `main`; it is that of `src/entry-client.tsx` whenever that key is present, and there is none exactly when neither key is |
| Manifest.ImportScript | server/utils/manifest.ts:28-31 | an import key adds at most one script, exactly when its chunk exists with a file, and that script is `/` followed by the chunk's file |
| Manifest.GetScriptsFromManifest | server/utils/manifest.ts:10-41 | the method returns exactly `Scripts`: the imports' files in `imports` order, then the entry's own file |
| Manifest.ScriptsShape | server/utils/manifest.ts:10-41 | no scripts without a manifest or a main entry; at most one per import plus one; the entry's own file last; every script absolute |
| Manifest.ScriptsEndWithEntry | server/utils/manifest.ts:20-38 | the last script is the file of `src/entry-client.tsx` when that chunk exists and has a file, and without that chunk the file of `main` |
| Manifest.ScriptsListImports | server/utils/manifest.ts:26-33 | every import of the main entry whose chunk has a file contributes that file's script |
| Manifest.ImportScriptsOrder | server/utils/manifest.ts:26-33 | the scripts of two runs of imports are those of the first, then those of the second |
| Manifest.ImportScriptsBound | server/utils/manifest.ts:26-33 | there is at most one script per import key |
| Manifest.GetStylesFromManifest | server/utils/manifest.ts:43-65 | the nested loops return exactly `Styles`, the ordered dedup of every chunk's style paths |
| Manifest.StylesSpec | server/utils/manifest.ts:43-65 | the styles have no duplicates, are exactly the manifest's style paths, and keep first-appearance order |
| Manifest.EveryCssListed | server/utils/manifest.ts:54-62 | every css file of every chunk appears among the styles, as `/` followed by the file |
| Seqs.DedupSet | server/utils/manifest.ts:57-59 | the `includes` test keeps each element once and loses none |
| Seqs.DedupOrder | server/utils/manifest.ts:57-59 | kept elements appear in the order of their first occurrence |

## Left out

- `handleHotUpdate` is a no-op in the code and has no model.
- `this.addWatchFile` has no model, since it only registers a file with the watcher.
- `this.resolve`'s options object and `skipSelf` are not modelled. `resolve` is a parameter and stands for the whole chain of other resolvers.
- `process.cwd()`, `config.root` and `path.resolve` are fixed inputs. The trees that stand for `<cwd>/src` and `<root>/src` are parameters.
- Reading the YAML and JSON files, and parse errors, are not modelled. A parsed file is an input, and a file that does not parse has no counterpart. In `get-frontier-entrypoints`, a missing file and one without an `entrypoints` array both give no entrypoints.
- The configuration's `name` field is read but never used by the core, so it is kept only in `Entries.ReadFrontierConfig`. A name that is not a string is kept as a non-string value, without its contents.
- `encodeURIComponent` of a brand is the identity, and `URLSearchParams` does no percent or `+` decoding. The lemmas about brand annotations require that a brand contains no `&`, which holds for directory names in practice but is not checked by the source.
- `path.join` and `path.parse` are modelled for normalized `/`-separated paths. Removal of `.` and `..` segments and Windows separators are not modelled; the overlay lemmas require a path without `//`.
- `new URL(...)` is not modelled. Its result is either an input (the page's search string, `None` when parsing throws) or the request's pathname.
- BrandOverrides.Plugin.TransformBrandsEntry: the brand is spliced into the tag literally. The source passes `$1$2?brand=<brand>$3` to `String.replace`, which would expand `$&`, `$1`, `$$`, `` $` `` and `$'` inside a brand name containing `$`; such a brand is not modelled.
- BrandOverrides.Plugin.OverlayNotNestedTwice: proved of the corrected step `OverlayIntended`, not of the source's hook. `ResolveId` uses the source's overlay path, and `ResolveIdNestsTwice` shows the source looking up the double-nested path.
- BrandOverrides.Plugin.TransformIndexHtml: the source's regular expression allows any whitespace between the tag's attributes. The model matches the tag with exactly the single spaces the index page has.
- BrandScan.FindBrands: the ensures state no duplicates and exactly the brands of the tree, not the order in which the source's insertion-ordered `Set` lists them.
- FrontierEntrypoints.Load: for the same reason, the body is stated for some duplicate-free listing of the found brands, not for one fixed order.
- BrandOverrides.Plugin.ResolveId: `async`/`await` is not modelled; the hook is a function of its inputs and the plugin's state.

## Findings

| source | as written | input that shows it | evidently intended | confidence | as-written member | corrected member |
|---|---|---|---|---|---|---|
| plugins/brand-overrides.ts:37-44 | `computeOverlayPath` tests for `/brands/<brand>/` in `path.parse(...).dir`, which has no trailing separator, so a file directly inside `brands/<brand>/` is not recognised as brand-scoped and is nested once more | `/app/src/components/brands/purple/OverloadButton.tsx` with brand `purple` gives `/app/src/components/brands/purple/brands/purple/OverloadButton.tsx` | a path already under `brands/<brand>/` is returned unchanged, as the comment on line 40 says | not executed | BrandOverrides.Plugin.ResolveIdNestsTwice | BrandPaths.OverlayIdempotent |
