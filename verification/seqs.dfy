/**
  Sequence vocabulary shared by the picker model: order-preserving
  subsequences, interleavings, duplicate-freedom, and the three JavaScript
  array primitives the picker relies on — `Array.prototype.indexOf`,
  `Array.prototype.filter`, and the insertion order of a `Set` read back
  with `Array.from`.
 */
module Seqs {

  /** `a` is obtained from `b` by deleting elements; the kept ones stay in order. */
  predicate IsSubsequence<T(==)>(a: seq<T>, b: seq<T>)
    decreases |b|
  {
    if a == [] then true
    else if b == [] then false
    else (a[0] == b[0] && IsSubsequence(a[1..], b[1..])) || IsSubsequence(a, b[1..])
  }

  lemma SubsequenceOfItself<T>(s: seq<T>)
    ensures IsSubsequence(s, s)
  {
  }

  /** `s` is a merge of `a` and `b`: each element of `s`, in order, is taken
      by exactly one of the two lists. */
  predicate Interleaves<T(==)>(s: seq<T>, a: seq<T>, b: seq<T>)
    decreases |s|
  {
    if s == [] then a == [] && b == []
    else
      (a != [] && a[0] == s[0] && Interleaves(s[1..], a[1..], b))
      || (b != [] && b[0] == s[0] && Interleaves(s[1..], a, b[1..]))
  }

  predicate NoDuplicates<T(==)>(s: seq<T>) {
    forall i, j :: 0 <= i < j < |s| ==> s[i] != s[j]
  }

  /** `xs.indexOf(x)`: the first index holding `x`, or -1 when there is none. */
  function Position<T(==)>(xs: seq<T>, x: T): (r: int)
    ensures r == -1 <==> x !in xs
    ensures r != -1 ==> 0 <= r < |xs| && xs[r] == x && x !in xs[..r]
    decreases |xs|
  {
    if xs == [] then -1
    else if xs[0] == x then 0
    else
      var k := Position(xs[1..], x);
      assert k != -1 ==> xs[..k + 1] == [xs[0]] + xs[1..][..k];
      if k == -1 then -1 else k + 1
  }

  /** The first occurrence is the only index that holds `x` with no `x` before it. */
  lemma PositionIsFirstOccurrence<T>(xs: seq<T>, x: T, i: int)
    requires 0 <= i < |xs| && xs[i] == x && x !in xs[..i]
    ensures Position(xs, x) == i
  {
  }

  /** Appending elements does not move the first occurrence of an element already present. */
  lemma {:induction false} PositionInPrefix<T>(xs: seq<T>, ys: seq<T>, x: T)
    requires x in xs
    ensures Position(xs + ys, x) == Position(xs, x)
  {
    var i := Position(xs, x);
    assert (xs + ys)[..i] == xs[..i];
    PositionIsFirstOccurrence(xs + ys, x, i);
  }

  /** `s.filter(keep)`. */
  function Filter<T(==,!new)>(s: seq<T>, keep: T -> bool): (r: seq<T>)
    ensures IsSubsequence(r, s)
    ensures forall x :: x in r ==> keep(x)
    ensures forall x :: multiset(r)[x] == if keep(x) then multiset(s)[x] else 0
    decreases |s|
  {
    if s == [] then []
    else
      assert s == [s[0]] + s[1..];
      if keep(s[0]) then [s[0]] + Filter(s[1..], keep) else Filter(s[1..], keep)
  }

  /** Filtering with a predicate every element passes changes nothing. */
  lemma {:induction false} FilterKeepsAll<T(!new)>(s: seq<T>, keep: T -> bool)
    requires forall x :: x in s ==> keep(x)
    ensures Filter(s, keep) == s
    decreases |s|
  {
    if s != [] {
      FilterKeepsAll(s[1..], keep);
    }
  }

  /** Filtering with a predicate no element passes leaves nothing. */
  lemma FilterDropsAll<T(!new)>(s: seq<T>, keep: T -> bool)
    requires forall x :: x in s ==> !keep(x)
    ensures Filter(s, keep) == []
  {
  }

  /** Filtering a two-element list, spelled out. */
  lemma {:induction false} FilterPair<T(!new)>(x: T, y: T, keep: T -> bool)
    ensures Filter([x, y], keep) == (if keep(x) then [x] else []) + (if keep(y) then [y] else [])
  {
    assert [x, y][1..] == [y];
    assert [y][1..] == [];
  }

  /** Filtering distributes over concatenation. */
  lemma {:induction false} FilterAppend<T(!new)>(a: seq<T>, b: seq<T>, keep: T -> bool)
    ensures Filter(a + b, keep) == Filter(a, keep) + Filter(b, keep)
    decreases |a|
  {
    if a != [] {
      assert (a + b)[0] == a[0];
      assert (a + b)[1..] == a[1..] + b;
      FilterAppend(a[1..], b, keep);
      if keep(a[0]) {
        assert Filter(a + b, keep) == [a[0]] + Filter(a[1..] + b, keep);
        assert Filter(a, keep) == [a[0]] + Filter(a[1..], keep);
      } else {
        assert Filter(a + b, keep) == Filter(a[1..] + b, keep);
        assert Filter(a, keep) == Filter(a[1..], keep);
      }
    } else {
      assert a + b == b;
    }
  }

  /** Filtering twice with the same predicate is filtering once. */
  lemma {:induction false} FilterIdempotent<T(!new)>(s: seq<T>, keep: T -> bool)
    ensures Filter(Filter(s, keep), keep) == Filter(s, keep)
  {
    FilterKeepsAll(Filter(s, keep), keep);
  }

  /** Only the predicate's values matter, not how it is written. */
  lemma {:induction false} FilterExtensional<T(!new)>(s: seq<T>, p: T -> bool, q: T -> bool)
    requires forall x :: x in s ==> p(x) == q(x)
    ensures Filter(s, p) == Filter(s, q)
    decreases |s|
  {
    if s != [] {
      FilterExtensional(s[1..], p, q);
    }
  }

  /** A filter and the filter of the opposite predicate split the input
      between them, each keeping the input order. */
  lemma {:induction false} FilterInterleaves<T(!new)>(s: seq<T>, keep: T -> bool, drop: T -> bool)
    requires forall x :: drop(x) == !keep(x)
    ensures Interleaves(s, Filter(s, drop), Filter(s, keep))
    decreases |s|
  {
    if s != [] {
      FilterInterleaves(s[1..], keep, drop);
    }
  }

  /** The split of `FilterInterleaves` is the only one that sends the
      elements failing `keep` to the left and the others to the right. */
  lemma {:induction false} InterleavingIsUnique<T(!new)>(s: seq<T>, a: seq<T>, b: seq<T>, keep: T -> bool, drop: T -> bool)
    requires forall x :: drop(x) == !keep(x)
    requires Interleaves(s, a, b)
    requires forall x :: x in a ==> !keep(x)
    requires forall x :: x in b ==> keep(x)
    ensures a == Filter(s, drop) && b == Filter(s, keep)
    decreases |s|
  {
    if s != [] {
      if a != [] && a[0] == s[0] && Interleaves(s[1..], a[1..], b) {
        assert a[0] in a;
        InterleavingIsUnique(s[1..], a[1..], b, keep, drop);
        FilterConsStep(s, a, b, drop, keep);
      } else {
        assert b[0] in b;
        InterleavingIsUnique(s[1..], a, b[1..], keep, drop);
        FilterConsStep(s, b, a, keep, drop);
      }
    }
  }

  /** One step of `InterleavingIsUnique`: the head of `s` goes to the list
      whose predicate it passes. */
  lemma {:induction false} FilterConsStep<T(!new)>(s: seq<T>, taken: seq<T>, other: seq<T>, pass: T -> bool, fail: T -> bool)
    requires s != [] && taken != [] && taken[0] == s[0] && pass(s[0]) && !fail(s[0])
    requires taken[1..] == Filter(s[1..], pass) && other == Filter(s[1..], fail)
    ensures taken == Filter(s, pass) && other == Filter(s, fail)
  {
    assert Filter(s, pass) == [s[0]] + Filter(s[1..], pass);
    assert Filter(s, fail) == Filter(s[1..], fail);
    assert taken == [s[0]] + taken[1..];
  }

  /** An interleaving neither loses nor invents elements. */
  lemma {:induction false} InterleavesPreservesMultiset<T>(s: seq<T>, a: seq<T>, b: seq<T>)
    requires Interleaves(s, a, b)
    ensures multiset(s) == multiset(a) + multiset(b)
    decreases |s|
  {
    if s != [] {
      assert s == [s[0]] + s[1..];
      if a != [] && a[0] == s[0] && Interleaves(s[1..], a[1..], b) {
        InterleavesPreservesMultiset(s[1..], a[1..], b);
        assert a == [a[0]] + a[1..];
      } else {
        InterleavesPreservesMultiset(s[1..], a, b[1..]);
        assert b == [b[0]] + b[1..];
      }
    }
  }

  /** `Array.from(new Set(s))`: the distinct elements of `s`, each placed
      where it first occurs — a `Set` keeps insertion order and ignores
      re-insertion. */
  function Dedup<T(==,!new)>(s: seq<T>): (r: seq<T>)
    ensures NoDuplicates(r)
    ensures forall x :: x in r <==> x in s
    ensures forall i, j :: 0 <= i < j < |r| ==> Position(s, r[i]) < Position(s, r[j])
    decreases |s|
  {
    if s == [] then []
    else
      var init := s[..|s| - 1];
      var last := s[|s| - 1];
      var d := Dedup(init);
      assert s == init + [last];
      DedupPositionsStable(init, last, d);
      if last in d then d else d + [last]
  }

  /** Helper for `Dedup`: first occurrences in `init` survive appending `last`,
      and a fresh `last` first occurs after all of them. */
  lemma {:induction false} DedupPositionsStable<T(!new)>(init: seq<T>, last: T, d: seq<T>)
    requires forall x :: x in d <==> x in init
    ensures forall x :: x in d ==> Position(init + [last], x) == Position(init, x)
    ensures last !in init ==> Position(init + [last], last) == |init|
    ensures forall x :: x in init ==> Position(init, x) < |init|
  {
    forall x | x in d
      ensures Position(init + [last], x) == Position(init, x)
    {
      PositionInPrefix(init, [last], x);
    }
    if last !in init {
      assert (init + [last])[..|init|] == init;
      PositionIsFirstOccurrence(init + [last], last, |init|);
    }
  }

  /** A list without duplicates is its own deduplication. */
  lemma {:induction false} DedupOfDistinct<T(!new)>(s: seq<T>)
    requires NoDuplicates(s)
    ensures Dedup(s) == s
    decreases |s|
  {
    if s != [] {
      var init := s[..|s| - 1];
      var last := s[|s| - 1];
      assert s == init + [last];
      forall i, j | 0 <= i < j < |init|
        ensures init[i] != init[j]
      {
        assert init[i] == s[i] && init[j] == s[j];
      }
      DedupOfDistinct(init);
      forall i | 0 <= i < |init|
        ensures init[i] != last
      {
        assert init[i] == s[i];
      }
      assert Dedup(s) == Dedup(init) + [last];
    }
  }

  /** Inserting more elements into the set never reorders the ones already there. */
  lemma {:induction false} DedupPrefix<T(!new)>(a: seq<T>, b: seq<T>)
    ensures Dedup(a) <= Dedup(a + b)
    decreases |b|
  {
    if b == [] {
      assert a + b == a;
    } else {
      var b' := b[..|b| - 1];
      assert (a + b)[..|a + b| - 1] == a + b';
      DedupPrefix(a, b');
    }
  }

  /** Re-inserting elements the set already holds changes nothing. */
  lemma {:induction false} DedupAbsorbs<T(!new)>(a: seq<T>, b: seq<T>)
    requires NoDuplicates(a)
    requires forall x :: x in b ==> x in a
    ensures Dedup(a + b) == a
    decreases |b|
  {
    if b == [] {
      assert a + b == a;
      DedupOfDistinct(a);
    } else {
      var b' := b[..|b| - 1];
      assert (a + b)[..|a + b| - 1] == a + b';
      assert b[|b| - 1] in b;
      DedupAbsorbs(a, b');
    }
  }

  /** Inserting only new elements appends their own deduplication. */
  lemma {:induction false} DedupAppendFresh<T(!new)>(a: seq<T>, b: seq<T>)
    requires NoDuplicates(a)
    requires forall x :: x in b ==> x !in a
    ensures Dedup(a + b) == a + Dedup(b)
    decreases |b|
  {
    if b == [] {
      assert a + b == a;
      DedupOfDistinct(a);
    } else {
      var b' := b[..|b| - 1];
      var y := b[|b| - 1];
      assert (a + b)[..|a + b| - 1] == a + b';
      assert b == b' + [y];
      DedupAppendFresh(a, b');
      assert y !in a;
    }
  }
}
