/** Facts about sequences used as arrays and ordered sets. */
module Seqs {

  /** No element occurs twice. */
  predicate NoDup<T(==)>(s: seq<T>) {
    forall i, j :: 0 <= i < j < |s| ==> s[i] != s[j]
  }

  /** The elements of a sequence, as `new Set(array)` collects them. */
  function Elems<T>(s: seq<T>): set<T> {
    set x | x in s
  }

  /** `set.add(x)` on a `Set` kept with its insertion order: a new element goes
      to the end, a present one changes nothing. */
  function AddOrdered<T(==)>(s: seq<T>, x: T): (r: seq<T>)
    ensures NoDup(s) ==> NoDup(r)
    ensures Elems(r) == Elems(s) + {x}
  {
    if x in s then s else s + [x]
  }

  /** The blocks `f(x)` of the elements in order, concatenated. */
  function FlatMap<A, B>(xs: seq<A>, f: A -> seq<B>): seq<B>
    decreases |xs|
  {
    if |xs| == 0 then [] else FlatMap(xs[..|xs| - 1], f) + f(xs[|xs| - 1])
  }

  lemma FlatMapStep<A, B>(xs: seq<A>, i: nat, f: A -> seq<B>)
    requires i < |xs|
    ensures FlatMap(xs[..i + 1], f) == FlatMap(xs[..i], f) + f(xs[i])
  {
    assert xs[..i + 1][..i] == xs[..i];
  }

  /** The blocks of two sequences are those of the first, then those of the
      second. */
  lemma {:induction false} FlatMapConcat<A, B>(a: seq<A>, b: seq<A>, f: A -> seq<B>)
    ensures FlatMap(a + b, f) == FlatMap(a, f) + FlatMap(b, f)
    decreases |b|
  {
    if |b| == 0 {
      assert a + b == a;
    } else {
      var b' := b[..|b| - 1];
      FlatMapConcat(a, b', f);
      assert (a + b)[..|a + b| - 1] == a + b';
      assert (a + b)[|a + b| - 1] == b[|b| - 1];
    }
  }

  /** Every element of every block is in the result. */
  lemma {:induction false} FlatMapHas<A, B>(xs: seq<A>, f: A -> seq<B>, i: nat, y: B)
    requires i < |xs| && y in f(xs[i])
    ensures y in FlatMap(xs, f)
    decreases |xs|
  {
    var n := |xs|;
    if i < n - 1 {
      FlatMapHas(xs[..n - 1], f, i, y);
    }
  }

  /** Every element of the result comes from the block of some element. */
  lemma {:induction false} FlatMapFrom<A, B>(xs: seq<A>, f: A -> seq<B>, y: B)
    requires y in FlatMap(xs, f)
    ensures exists x :: x in xs && y in f(x)
    decreases |xs|
  {
    var n := |xs|;
    if y !in f(xs[n - 1]) {
      FlatMapFrom(xs[..n - 1], f, y);
      var x :| x in xs[..n - 1] && y in f(x);
      assert x in xs;
    }
  }

  /** The index of the first occurrence of `x`. */
  function FirstIndex<T(==)>(s: seq<T>, x: T): (i: nat)
    requires x in s
    ensures i < |s| && s[i] == x && x !in s[..i]
    decreases |s|
  {
    if s[0] == x then 0
    else
      var j := FirstIndex(s[1..], x);
      assert s[1..][..j] == s[1..j + 1];
      1 + j
  }

  /** The elements in order of first occurrence, each once: a `Set` filled
      from `s`, or an array filled by "push unless `includes`". */
  function Dedup<T(==)>(s: seq<T>): seq<T>
    decreases |s|
  {
    if |s| == 0 then [] else AddOrdered(Dedup(s[..|s| - 1]), s[|s| - 1])
  }

  /** One more element of `t` after `s`. */
  lemma DedupExtend<T>(s: seq<T>, t: seq<T>, j: nat)
    requires j < |t|
    ensures Dedup(s + t[..j + 1]) == AddOrdered(Dedup(s + t[..j]), t[j])
  {
    assert s + t[..j + 1] == (s + t[..j]) + [t[j]];
    DedupStep(s + t[..j], t[j]);
  }

  lemma DedupStep<T>(s: seq<T>, x: T)
    ensures Dedup(s + [x]) == AddOrdered(Dedup(s), x)
  {
    assert (s + [x])[..|s|] == s;
  }

  /** No element twice, and exactly the elements of `s`. */
  lemma {:induction false} DedupSet<T>(s: seq<T>)
    ensures NoDup(Dedup(s))
    ensures Elems(Dedup(s)) == Elems(s)
    decreases |s|
  {
    if |s| > 0 {
      var init := s[..|s| - 1];
      DedupSet(init);
      assert s == init + [s[|s| - 1]];
      assert Elems(s) == Elems(init) + {s[|s| - 1]};
    }
  }

  /** The elements of `d` come from `s`, in the order of their first
      occurrences there. */
  predicate InFirstOrder<T(==)>(d: seq<T>, s: seq<T>) {
    (forall i :: 0 <= i < |d| ==> d[i] in s)
    && forall i, j :: 0 <= i < j < |d| ==> FirstIndex(s, d[i]) < FirstIndex(s, d[j])
  }

  /** The first occurrences of the elements of `s` keep their order. */
  lemma {:induction false} DedupOrder<T>(s: seq<T>)
    ensures InFirstOrder(Dedup(s), s)
    decreases |s|
  {
    if |s| > 0 {
      var n := |s|;
      var init, x := s[..n - 1], s[n - 1];
      DedupOrder(init);
      DedupSet(init);
      assert s == init + [x];
      var d0 := Dedup(init);
      DedupStep(init, x);
      OrderKeptByAppend(d0, init, x);
      if x !in init {
        assert x !in d0 by { assert Elems(d0) == Elems(init); }
        OrderExtendedByNew(d0, init, x);
      } else {
        assert x in d0 by { assert x in Elems(init); }
      }
    }
  }

  /** Appending to `s` keeps the first occurrences of what was already there. */
  lemma OrderKeptByAppend<T>(d: seq<T>, s: seq<T>, x: T)
    requires InFirstOrder(d, s)
    ensures InFirstOrder(d, s + [x])
  {
    forall i | 0 <= i < |d|
      ensures d[i] in s + [x] && FirstIndex(s + [x], d[i]) == FirstIndex(s, d[i])
    {
      FirstIndexPrefix(s, [x], d[i]);
    }
  }

  /** A new last element comes after every earlier first occurrence. */
  lemma OrderExtendedByNew<T>(d: seq<T>, s: seq<T>, x: T)
    requires InFirstOrder(d, s + [x]) && x !in s && Elems(d) <= Elems(s)
    ensures InFirstOrder(d + [x], s + [x])
  {
    var t, n := s + [x], |s|;
    assert t[..n] == s;
    FirstIndexAt(t, n);
    forall i | 0 <= i < |d|
      ensures d[i] in s && FirstIndex(t, d[i]) < n
    {
      assert d[i] in Elems(d);
      FirstIndexPrefix(s, [x], d[i]);
    }
  }

  lemma FirstIndexPrefix<T>(a: seq<T>, b: seq<T>, x: T)
    requires x in a
    ensures x in a + b && FirstIndex(a + b, x) == FirstIndex(a, x)
  {
    var i := FirstIndex(a, x);
    assert (a + b)[i] == x;
    FirstIndexAt(a + b, i);
    assert (a + b)[..i] == a[..i];
  }

  /** An index with no earlier occurrence is the first index. */
  lemma FirstIndexAt<T>(s: seq<T>, i: nat)
    requires i < |s| && s[i] !in s[..i]
    ensures FirstIndex(s, s[i]) == i
  {
  }
}
