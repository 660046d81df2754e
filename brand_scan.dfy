/** The breadth-first brand scan (`findBrands`). Both plugins carry a copy of
    the same loop; the plugin keeps its result as a `Set`, the virtual module
    turns it into an array in insertion order, which is what this method
    returns. */
module BrandScan {
  import opened Strings
  import opened Seqs
  import opened DirTree

  /** Lists `srcRoot`, enters every directory that is not ignored and not
      named `brands`, and collects the names of the subdirectories of every
      `brands` directory it meets; a listing that fails counts as empty. The
      result is exactly `Scan(srcRoot)`, without repetitions. */
  method FindBrands(srcRoot: Node) returns (brands: seq<string>)
    ensures NoDup(brands)
    ensures Elems(brands) == Scan(srcRoot)
  {
    brands := [];
    var queue := [srcRoot];
    while |queue| > 0
      invariant NoDup(brands)
      invariant Elems(brands) + ScanQueue(queue) == Scan(srcRoot)
      decreases SizeQueue(queue)
    {
      var current := queue[0];
      queue := queue[1..];
      if !(current.Directory? && current.readable) {
        continue;
      }
      brands, queue := VisitListing(brands, queue, current.children);
    }
  }

  /** The loop over one listing: `brands` directories add their subdirectory
      names, entered directories join the end of the queue, and everything
      else is skipped. What is still to be found is unchanged, and the queue
      grows by less than the listing's size. */
  method VisitListing(brands: seq<string>, queue: seq<Node>, entries: seq<Node>)
    returns (brands': seq<string>, queue': seq<Node>)
    requires NoDup(brands)
    ensures NoDup(brands')
    ensures Elems(brands') + ScanQueue(queue') == Elems(brands) + ScanQueue(queue) + ScanEntries(entries)
    ensures SizeQueue(queue') <= SizeQueue(queue) + SizeEntries(entries)
  {
    brands', queue' := brands, queue;
    for i := 0 to |entries|
      invariant NoDup(brands')
      invariant Elems(brands') + ScanQueue(queue') + ScanEntries(entries[i..])
                == Elems(brands) + ScanQueue(queue) + ScanEntries(entries)
      invariant SizeQueue(queue') + SizeEntries(entries[i..]) <= SizeQueue(queue) + SizeEntries(entries)
    {
      var entry := entries[i];
      ScanEntriesStep(entries, i);
      if !entry.Directory? {
        continue;
      }
      if entry.name == "node_modules" || StartsWith(entry.name, ".") {
        IgnoredNotBrands(entry.name);
        continue;
      }
      if entry.name == "brands" {
        var brandDirs := if entry.readable then entry.children else [];
        assert brandDirs == Listing(entry);
        brands' := AddBrandDirs(brands', brandDirs);
      } else {
        ScanQueueAppend(queue', entry);
        SizeQueueAppend(queue', entry);
        queue' := queue' + [entry];
      }
    }
    assert entries[0..] == entries;
  }

  /** The inner loop over a `brands` directory: every subdirectory name is
      added to the ordered set. */
  method AddBrandDirs(brands: seq<string>, brandDirs: seq<Node>) returns (r: seq<string>)
    requires NoDup(brands)
    ensures NoDup(r)
    ensures Elems(r) == Elems(brands) + SubdirNames(brandDirs)
  {
    r := brands;
    for j := 0 to |brandDirs|
      invariant NoDup(r)
      invariant Elems(r) == Elems(brands) + SubdirNames(brandDirs[..j])
    {
      SubdirNamesStep(brandDirs, j);
      if brandDirs[j].Directory? {
        r := AddOrdered(r, brandDirs[j].name);
      }
    }
    assert brandDirs[..|brandDirs|] == brandDirs;
  }

  /** An ignored name is never `brands`. */
  lemma IgnoredNotBrands(name: string)
    requires Ignored(name)
    ensures name != "brands"
  {
    assert "brands"[..1][0] == 'b';
  }
}
