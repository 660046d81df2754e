/** The directory tree that the brand scan reads, and what the scan is meant
    to find in it.

    A `Node` is one directory entry as `fs.readdirSync(dir, { withFileTypes: true })`
    reports it: something that is not a directory, or a directory together with
    its own listing. `readable` is false when listing that directory throws
    (permissions, a race with deletion); the scan then treats it as empty. */
module DirTree {
  import opened Strings

  datatype Node =
    | File(name: string)
    | Directory(name: string, readable: bool, children: seq<Node>)

  /** Directory names the scan never enters: `node_modules` and dot-directories. */
  predicate Ignored(name: string) {
    name == "node_modules" || StartsWith(name, ".")
  }

  /** A directory the scan queues for a later visit: not ignored and not a
      `brands` directory (whose children are brand names, not visited). */
  predicate Entered(c: Node) {
    c.Directory? && !Ignored(c.name) && c.name != "brands"
  }

  /** A `brands` directory whose subdirectory names are collected. */
  predicate IsBrandsDir(c: Node) {
    c.Directory? && c.name == "brands"
  }

  /** The listing of `n`, or nothing when `n` cannot be listed. */
  function Listing(n: Node): seq<Node> {
    if n.Directory? && n.readable then n.children else []
  }

  /** Names of the subdirectories in a listing. */
  function SubdirNames(entries: seq<Node>): set<string> {
    set k | 0 <= k < |entries| && entries[k].Directory? :: entries[k].name
  }

  /** Everything the scan collects once `n` has been taken off its queue:
      brand names found under `n`, through entered directories only. */
  function Scan(n: Node): set<string>
    decreases n
  {
    if n.Directory? && n.readable then ScanEntries(n.children) else {}
  }

  /** What the entries of one listing contribute, in listing order. */
  function ScanEntries(es: seq<Node>): set<string>
    decreases es
  {
    if |es| == 0 then {}
    else
      (if IsBrandsDir(es[0]) then SubdirNames(Listing(es[0]))
       else if Entered(es[0]) then Scan(es[0])
       else {})
      + ScanEntries(es[1..])
  }

  /** The brands found from every directory still waiting in a queue. */
  function ScanQueue(q: seq<Node>): set<string>
    decreases |q|
  {
    if |q| == 0 then {} else Scan(q[0]) + ScanQueue(q[1..])
  }

  /** Number of entries in a subtree; it bounds the scan's remaining work. */
  function Size(n: Node): nat
    decreases n
  {
    if n.Directory? then 1 + SizeEntries(n.children) else 1
  }

  function SizeEntries(es: seq<Node>): nat
    decreases es
  {
    if |es| == 0 then 0 else Size(es[0]) + SizeEntries(es[1..])
  }

  // ---- An independent description of what the scan finds ----

  /** `m` is a directory the scan lists, reached from `n` through readable
      directories that are neither ignored nor named `brands`. */
  ghost predicate Visits(n: Node, m: Node)
    decreases n
  {
    m == n
    || (n.Directory? && n.readable
        && exists c :: c in n.children && Entered(c) && Visits(c, m))
  }

  /** `m` can be listed and holds a readable `brands` directory that has a
      subdirectory named `b`. */
  ghost predicate HoldsBrand(m: Node, b: string) {
    m.Directory? && m.readable
    && exists d :: d in m.children && IsBrandsDir(d) && d.readable
                   && exists e :: e in d.children && e.Directory? && e.name == b
  }

  /** The scan finds exactly the names of directories that sit directly in a
      readable `brands` directory of a directory it lists; it lists only
      directories reached through entered ones, so it never looks inside a
      `brands` subtree, a `node_modules` or a dot-directory, and it skips
      whatever cannot be listed. */
  lemma ScanFindsExactly(root: Node, b: string)
    ensures b in Scan(root) <==> exists m :: Visits(root, m) && HoldsBrand(m, b)
  {
    if b in Scan(root) {
      var m := ScanSound(root, b);
    }
    if exists m :: Visits(root, m) && HoldsBrand(m, b) {
      var m :| Visits(root, m) && HoldsBrand(m, b);
      ScanComplete(root, m, b);
    }
  }

  lemma {:induction false} ScanSound(n: Node, b: string) returns (m: Node)
    requires b in Scan(n)
    ensures Visits(n, m) && HoldsBrand(m, b)
    decreases n
  {
    var es := Listing(n);
    var k := EntryOf(es, b);
    var c := es[k];
    assert c in n.children;
    if IsBrandsDir(c) {
      var j :| 0 <= j < |Listing(c)| && Listing(c)[j].Directory? && Listing(c)[j].name == b;
      assert Listing(c)[j] in c.children;
      m := n;
    } else {
      m := ScanSound(c, b);
    }
  }

  /** The entry of a listing that contributes `b`. */
  lemma {:induction false} EntryOf(es: seq<Node>, b: string) returns (k: nat)
    requires b in ScanEntries(es)
    ensures k < |es|
    ensures (IsBrandsDir(es[k]) && b in SubdirNames(Listing(es[k])))
            || (!IsBrandsDir(es[k]) && Entered(es[k]) && b in Scan(es[k]))
    decreases |es|
  {
    if IsBrandsDir(es[0]) && b in SubdirNames(Listing(es[0])) {
      k := 0;
    } else if !IsBrandsDir(es[0]) && Entered(es[0]) && b in Scan(es[0]) {
      k := 0;
    } else {
      var k' := EntryOf(es[1..], b);
      k := k' + 1;
    }
  }

  /** What one entry contributes is part of what its listing contributes. */
  lemma {:induction false} EntryContributes(es: seq<Node>, k: nat, b: string)
    requires k < |es|
    requires (IsBrandsDir(es[k]) && b in SubdirNames(Listing(es[k])))
             || (Entered(es[k]) && b in Scan(es[k]))
    ensures b in ScanEntries(es)
    decreases k
  {
    if k > 0 {
      EntryContributes(es[1..], k - 1, b);
    }
  }

  lemma {:induction false} ScanComplete(n: Node, m: Node, b: string)
    requires Visits(n, m) && HoldsBrand(m, b)
    ensures b in Scan(n)
    decreases n
  {
    if m == n {
      var d :| d in m.children && IsBrandsDir(d) && d.readable
               && exists e :: e in d.children && e.Directory? && e.name == b;
      var e :| e in d.children && e.Directory? && e.name == b;
      var j :| 0 <= j < |d.children| && d.children[j] == e;
      assert b in SubdirNames(Listing(d));
      var k :| 0 <= k < |n.children| && n.children[k] == d;
      EntryContributes(n.children, k, b);
    } else {
      var c :| c in n.children && Entered(c) && Visits(c, m);
      ScanComplete(c, m, b);
      var k :| 0 <= k < |n.children| && n.children[k] == c;
      EntryContributes(n.children, k, b);
    }
  }

  // ---- Facts the breadth-first loops use ----

  lemma {:induction false} ScanQueueAppend(q: seq<Node>, x: Node)
    ensures ScanQueue(q + [x]) == ScanQueue(q) + Scan(x)
    decreases |q|
  {
    if |q| == 0 {
      assert q + [x] == [x];
    } else {
      assert (q + [x])[1..] == q[1..] + [x];
      ScanQueueAppend(q[1..], x);
    }
  }

  function SizeQueue(q: seq<Node>): nat
    decreases |q|
  {
    if |q| == 0 then 0 else Size(q[0]) + SizeQueue(q[1..])
  }

  lemma {:induction false} SizeQueueAppend(q: seq<Node>, x: Node)
    ensures SizeQueue(q + [x]) == SizeQueue(q) + Size(x)
    decreases |q|
  {
    if |q| == 0 {
      assert q + [x] == [x];
    } else {
      assert (q + [x])[1..] == q[1..] + [x];
      SizeQueueAppend(q[1..], x);
    }
  }

  /** One step of a loop over a listing: the entry at `i` and the rest. */
  lemma ScanEntriesStep(es: seq<Node>, i: nat)
    requires i < |es|
    ensures ScanEntries(es[i..]) ==
      (if IsBrandsDir(es[i]) then SubdirNames(Listing(es[i]))
       else if Entered(es[i]) then Scan(es[i])
       else {})
      + ScanEntries(es[i + 1..])
    ensures SizeEntries(es[i..]) == Size(es[i]) + SizeEntries(es[i + 1..])
  {
    assert es[i..][1..] == es[i + 1..];
  }

  lemma SubdirNamesStep(es: seq<Node>, j: nat)
    requires j < |es|
    ensures SubdirNames(es[..j + 1]) ==
      SubdirNames(es[..j]) + (if es[j].Directory? then {es[j].name} else {})
  {
    var a, b := es[..j + 1], es[..j];
    forall x | x in SubdirNames(a)
      ensures x in SubdirNames(b) + (if es[j].Directory? then {es[j].name} else {})
    {
      var k :| 0 <= k < |a| && a[k].Directory? && a[k].name == x;
      if k < j { assert b[k] == a[k]; }
    }
    forall x | x in SubdirNames(b) ensures x in SubdirNames(a) {
      var k :| 0 <= k < |b| && b[k].Directory? && b[k].name == x;
      assert a[k] == b[k];
    }
    if es[j].Directory? {
      assert a[j] == es[j];
    }
  }
}
