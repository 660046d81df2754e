/** The script and style tags the server takes from the client build's
    manifest. The manifest file is an input: `None` when it does not exist,
    otherwise its entries in property order (a parsed JSON object has each
    key once). JSON parsing and reading the file are not modelled. */
module Manifest {
  import opened Wrappers
  import opened Seqs

  /** The fields of a manifest chunk the server reads, each `None` when absent. */
  datatype Chunk = Chunk(file: Option<string>, imports: Option<seq<string>>, css: Option<seq<string>>)

  datatype Entry = Entry(key: string, chunk: Chunk)

  /** `manifest[key]`. */
  function Lookup(m: seq<Entry>, key: string): (r: Option<Chunk>)
    ensures r.Some? ==> Entry(key, r.value) in m
    ensures r.None? ==> forall k :: 0 <= k < |m| ==> m[k].key != key
    decreases |m|
  {
    if |m| == 0 then None
    else if m[0].key == key then Some(m[0].chunk)
    else
      var r := Lookup(m[1..], key);
      assert forall k :: 1 <= k < |m| ==> m[k] == m[1..][k - 1];
      r
  }

  /** A chunk's `file` when it is a non-empty string (JavaScript truthiness). */
  function FileOf(c: Chunk): Option<string> {
    if c.file.Some? && c.file.value != "" then c.file else None
  }

  /** The script path of a file: `/<file>`. */
  function ScriptPath(file: string): (r: string)
    ensures |r| > 0 && r[0] == '/' && r[1..] == file
  {
    "/" + file
  }

  /** The entry the client starts from: `src/entry-client.tsx`, else `main`. */
  function MainEntry(m: seq<Entry>): (r: Option<Chunk>)
    ensures r.Some? ==> Entry("src/entry-client.tsx", r.value) in m || Entry("main", r.value) in m
    ensures r.None? <==> forall k :: 0 <= k < |m| ==> m[k].key != "src/entry-client.tsx" && m[k].key != "main"
    ensures (exists k :: 0 <= k < |m| && m[k].key == "src/entry-client.tsx") ==>
              r.Some? && Entry("src/entry-client.tsx", r.value) in m
  {
    if Lookup(m, "src/entry-client.tsx").Some? then Lookup(m, "src/entry-client.tsx") else Lookup(m, "main")
  }

  /** What one `imports` key adds: the chunk's script, when the chunk exists
      and has a file. */
  function ImportScript(m: seq<Entry>, key: string): (r: seq<string>)
    ensures |r| <= 1
    ensures r != [] <==> exists k :: 0 <= k < |m| && m[k].key == key && FileOf(Lookup(m, key).value).Some?
    ensures r != [] ==> && Entry(key, Lookup(m, key).value) in m
                        && |r[0]| > 1 && r[0][0] == '/'
                        && Lookup(m, key).value.file == Some(r[0][1..])
  {
    match Lookup(m, key)
    case None => []
    case Some(c) => if FileOf(c).Some? then [ScriptPath(FileOf(c).value)] else []
  }

  /** The scripts of the main entry: its imports' files in `imports` order,
      then its own file. */
  function Scripts(manifest: Option<seq<Entry>>): seq<string> {
    if manifest.None? then []
    else
      var m := manifest.value;
      match MainEntry(m)
      case None => []
      case Some(main) =>
        FlatMap(if main.imports.Some? then main.imports.value else [], k => ImportScript(m, k))
        + (if FileOf(main).Some? then [ScriptPath(FileOf(main).value)] else [])
  }

  /** `getScriptsFromManifest`. */
  method GetScriptsFromManifest(manifest: Option<seq<Entry>>) returns (scripts: seq<string>)
    ensures scripts == Scripts(manifest)
  {
    if manifest.None? {
      return [];
    }
    var m := manifest.value;
    var mainEntry := if Lookup(m, "src/entry-client.tsx").Some? then Lookup(m, "src/entry-client.tsx") else Lookup(m, "main");
    if mainEntry.None? {
      return [];
    }
    var main := mainEntry.value;
    scripts := [];
    ghost var keys := if main.imports.Some? then main.imports.value else [];
    if main.imports.Some? {
      var imports := main.imports.value;
      for i := 0 to |imports|
        invariant scripts == FlatMap(imports[..i], k => ImportScript(m, k))
      {
        FlatMapStep(imports, i, k => ImportScript(m, k));
        var chunk := Lookup(m, imports[i]);
        if chunk.Some? && chunk.value.file.Some? && chunk.value.file.value != "" {
          scripts := scripts + ["/" + chunk.value.file.value];
        }
      }
      assert imports[..|imports|] == imports;
    }
    assert scripts == FlatMap(keys, k => ImportScript(m, k));
    if main.file.Some? && main.file.value != "" {
      scripts := scripts + ["/" + main.file.value];
    }
  }

  lemma {:induction false} ImportScriptsBound(m: seq<Entry>, keys: seq<string>)
    ensures |FlatMap(keys, k => ImportScript(m, k))| <= |keys|
    decreases |keys|
  {
    if |keys| > 0 {
      ImportScriptsBound(m, keys[..|keys| - 1]);
    }
  }

  /** The last script is the file of `src/entry-client.tsx` when the
      manifest has that chunk and it has a file; without that chunk, it is
      the file of `main`. */
  lemma ScriptsEndWithEntry(m: seq<Entry>)
    ensures var e := Lookup(m, "src/entry-client.tsx");
            e.Some? && FileOf(e.value).Some? ==>
              Scripts(Some(m)) != [] && Scripts(Some(m))[|Scripts(Some(m))| - 1] == ScriptPath(FileOf(e.value).value)
    ensures var e, main := Lookup(m, "src/entry-client.tsx"), Lookup(m, "main");
            e.None? && main.Some? && FileOf(main.value).Some? ==>
              Scripts(Some(m)) != [] && Scripts(Some(m))[|Scripts(Some(m))| - 1] == ScriptPath(FileOf(main.value).value)
  {
  }

  /** At most one script per import plus the entry's own, each an absolute
      path; the entry's own file comes last; nothing without a manifest or a
      main entry. */
  lemma ScriptsShape(manifest: Option<seq<Entry>>)
    ensures manifest.None? || MainEntry(manifest.value).None? ==> Scripts(manifest) == []
    ensures manifest.Some? && MainEntry(manifest.value).Some? ==>
              var main := MainEntry(manifest.value).value;
              var keys := if main.imports.Some? then main.imports.value else [];
              && |Scripts(manifest)| <= |keys| + 1
              && (FileOf(main).Some? ==> Scripts(manifest)[|Scripts(manifest)| - 1] == ScriptPath(FileOf(main).value))
    ensures forall s :: s in Scripts(manifest) ==> |s| > 0 && s[0] == '/'
  {
    if manifest.Some? && MainEntry(manifest.value).Some? {
      var m := manifest.value;
      var main := MainEntry(m).value;
      var keys := if main.imports.Some? then main.imports.value else [];
      var f := k => ImportScript(m, k);
      ImportScriptsBound(m, keys);
      forall s | s in FlatMap(keys, f)
        ensures |s| > 0 && s[0] == '/'
      {
        FlatMapFrom(keys, f, s);
      }
    }
  }

  /** Every import of the main entry whose chunk has a file contributes that
      file's script. */
  lemma ScriptsListImports(m: seq<Entry>, i: nat)
    requires MainEntry(m).Some? && MainEntry(m).value.imports.Some?
    requires var keys := MainEntry(m).value.imports.value;
             i < |keys| && Lookup(m, keys[i]).Some? && FileOf(Lookup(m, keys[i]).value).Some?
    ensures var key := MainEntry(m).value.imports.value[i];
            ScriptPath(FileOf(Lookup(m, key).value).value) in Scripts(Some(m))
  {
    var keys := MainEntry(m).value.imports.value;
    var y := ScriptPath(FileOf(Lookup(m, keys[i]).value).value);
    assert ImportScript(m, keys[i]) == [y];
    FlatMapHas(keys, k => ImportScript(m, k), i, y);
  }

  /** The scripts of the imports come in `imports` order: the scripts of a
      prefix of the keys come first. */
  lemma ImportScriptsOrder(m: seq<Entry>, a: seq<string>, b: seq<string>)
    ensures FlatMap(a + b, k => ImportScript(m, k))
            == FlatMap(a, k => ImportScript(m, k)) + FlatMap(b, k => ImportScript(m, k))
  {
    FlatMapConcat(a, b, k => ImportScript(m, k));
  }

  // ---- Styles ----

  /** The style paths of one chunk, in its `css` order. */
  function CssOf(c: Chunk): (r: seq<string>)
    ensures c.css.None? ==> r == []
    ensures c.css.Some? ==> |r| == |c.css.value|
                            && forall k :: 0 <= k < |r| ==> r[k] == ScriptPath(c.css.value[k])
  {
    if c.css.None? then []
    else seq(|c.css.value|, k requires 0 <= k < |c.css.value| => ScriptPath(c.css.value[k]))
  }

  /** All style paths of the manifest, entry by entry. */
  function AllCss(m: seq<Entry>): seq<string> {
    FlatMap(m, (e: Entry) => CssOf(e.chunk))
  }

  /** `getStylesFromManifest`: every style path once, in order of first
      occurrence. */
  function Styles(manifest: Option<seq<Entry>>): seq<string> {
    if manifest.None? then [] else Dedup(AllCss(manifest.value))
  }

  /** `getStylesFromManifest`. */
  method GetStylesFromManifest(manifest: Option<seq<Entry>>) returns (styles: seq<string>)
    ensures styles == Styles(manifest)
  {
    if manifest.None? {
      return [];
    }
    var m := manifest.value;
    styles := [];
    for i := 0 to |m|
      invariant styles == Dedup(AllCss(m[..i]))
    {
      FlatMapStep(m, i, (e: Entry) => CssOf(e.chunk));
      var entry := m[i];
      if entry.chunk.css.Some? {
        var css := entry.chunk.css.value;
        ghost var done, paths := AllCss(m[..i]), CssOf(entry.chunk);
        assert done + paths[..0] == done;
        for j := 0 to |css|
          invariant styles == Dedup(done + paths[..j])
        {
          DedupExtend(done, paths, j);
          var path := "/" + css[j];
          assert path == paths[j];
          if path !in styles {
            styles := styles + [path];
          }
        }
        assert paths[..|css|] == paths;
      } else {
        assert AllCss(m[..i]) + [] == AllCss(m[..i]);
      }
    }
    assert m[..|m|] == m;
  }

  /** The styles have no duplicates, are exactly the manifest's style paths,
      and keep the order in which each first appears. */
  lemma StylesSpec(manifest: Option<seq<Entry>>)
    ensures NoDup(Styles(manifest))
    ensures manifest.Some? ==> Elems(Styles(manifest)) == Elems(AllCss(manifest.value))
    ensures manifest.Some? ==>
              var all, d := AllCss(manifest.value), Styles(manifest);
              forall i, j :: 0 <= i < j < |d| ==> d[i] in all && d[j] in all && FirstIndex(all, d[i]) < FirstIndex(all, d[j])
  {
    if manifest.Some? {
      DedupSet(AllCss(manifest.value));
      DedupOrder(AllCss(manifest.value));
    }
  }

  /** Every style of every entry is among the styles. */
  lemma EveryCssListed(m: seq<Entry>, i: nat, css: string)
    requires i < |m| && m[i].chunk.css.Some? && css in m[i].chunk.css.value
    ensures ScriptPath(css) in Styles(Some(m))
  {
    var k :| 0 <= k < |m[i].chunk.css.value| && m[i].chunk.css.value[k] == css;
    assert ScriptPath(css) == CssOf(m[i].chunk)[k];
    FlatMapHas(m, (e: Entry) => CssOf(e.chunk), i, ScriptPath(css));
    DedupSet(AllCss(m));
    assert ScriptPath(css) in Elems(Dedup(AllCss(m)));
  }
}
