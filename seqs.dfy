/** `Array.prototype.filter`, a filter-and-map fused as the extractors' loops do it, and the
    "push unless already included" deduplication of the slot extractor. */
module Seqs {
  import opened Wrappers

  function Filter<T>(s: seq<T>, keep: T -> bool): (r: seq<T>)
    ensures |r| <= |s|
    ensures forall k :: 0 <= k < |r| ==> keep(r[k]) && r[k] in s
    ensures forall x :: x in s && keep(x) ==> x in r
  {
    if s == [] then []
    else if keep(s[0]) then [s[0]] + Filter(s[1..], keep)
    else Filter(s[1..], keep)
  }

  /** Filtering works piecewise, so the kept elements stay in their original order. */
  lemma {:induction false} FilterAppend<T>(a: seq<T>, b: seq<T>, keep: T -> bool)
    ensures Filter(a + b, keep) == Filter(a, keep) + Filter(b, keep)
    decreases |a|
  {
    if a == [] {
      assert a + b == b;
    } else {
      assert (a + b)[0] == a[0] && (a + b)[1..] == a[1..] + b;
      FilterAppend(a[1..], b, keep);
    }
  }

  /** Every accepted element is kept as often as it occurs, and no rejected one is kept. */
  lemma {:induction false} FilterCounts<T>(s: seq<T>, keep: T -> bool)
    ensures forall x :: multiset(Filter(s, keep))[x] == if keep(x) then multiset(s)[x] else 0
    decreases |s|
  {
    if s != [] {
      FilterCounts(s[1..], keep);
      assert s == [s[0]] + s[1..];
    }
  }

  /** Each element contributes `f`'s value when there is one and nothing otherwise, in order. */
  function FilterMap<A, B>(s: seq<A>, f: A -> Option<B>): (r: seq<B>)
    ensures |r| <= |s|
  {
    if s == [] then []
    else (match f(s[0]) case Some(y) => [y] case None => []) + FilterMap(s[1..], f)
  }

  lemma {:induction false} FilterMapAppend<A, B>(a: seq<A>, b: seq<A>, f: A -> Option<B>)
    ensures FilterMap(a + b, f) == FilterMap(a, f) + FilterMap(b, f)
    decreases |a|
  {
    if a != [] {
      assert (a + b)[1..] == a[1..] + b;
      assert (a + b)[0] == a[0];
      FilterMapAppend(a[1..], b, f);
    } else {
      assert a + b == b;
    }
  }

  /** One more element at the end adds at most its own image: the step of an accumulating loop. */
  lemma FilterMapSnoc<A, B>(s: seq<A>, i: nat, f: A -> Option<B>)
    requires i < |s|
    ensures FilterMap(s[..i + 1], f)
         == FilterMap(s[..i], f) + (match f(s[i]) case Some(y) => [y] case None => [])
  {
    assert s[..i + 1] == s[..i] + [s[i]];
    FilterMapAppend(s[..i], [s[i]], f);
    assert [s[i]][1..] == [];
  }

  /** One step of `FilterMap`: the head's image, if any, then the rest. */
  lemma FilterMapUnfold<A, B>(s: seq<A>, f: A -> Option<B>)
    requires s != []
    ensures f(s[0]).Some? ==> FilterMap(s, f) == [f(s[0]).value] + FilterMap(s[1..], f)
    ensures f(s[0]).None? ==> FilterMap(s, f) == FilterMap(s[1..], f)
  {
  }

  /** What `FilterMap` yields is exactly the images of the elements `f` accepts. */
  lemma {:induction false} FilterMapMembers<A, B>(s: seq<A>, f: A -> Option<B>, y: B)
    ensures y in FilterMap(s, f) <==> exists i :: 0 <= i < |s| && f(s[i]) == Some(y)
    decreases |s|
  {
    if s != [] {
      FilterMapUnfold(s, f);
      FilterMapMembers(s[1..], f, y);
      if exists i :: 1 <= i < |s| && f(s[i]) == Some(y) {
        var i :| 1 <= i < |s| && f(s[i]) == Some(y);
        assert s[1..][i - 1] == s[i];
      }
      if exists i :: 0 <= i < |s| - 1 && f(s[1..][i]) == Some(y) {
        var i :| 0 <= i < |s| - 1 && f(s[1..][i]) == Some(y);
        assert s[i + 1] == s[1..][i];
      }
    }
  }

  /** A line contributes its image whenever `f` accepts it: two equal images stay two entries. */
  lemma KeepsRepeats<A, B>(s: seq<A>, f: A -> Option<B>, i: nat, j: nat, y: B)
    requires i < j < |s| && f(s[i]) == Some(y) && f(s[j]) == Some(y)
    ensures multiset(FilterMap(s, f))[y] >= 2
  {
    assert s == s[..i] + [s[i]] + s[i + 1..j] + [s[j]] + s[j + 1..];
    FilterMapAppend(s[..i] + [s[i]] + s[i + 1..j] + [s[j]], s[j + 1..], f);
    FilterMapAppend(s[..i] + [s[i]] + s[i + 1..j], [s[j]], f);
    FilterMapAppend(s[..i] + [s[i]], s[i + 1..j], f);
    FilterMapAppend(s[..i], [s[i]], f);
    assert FilterMap([s[i]], f) == [y];
    assert FilterMap([s[j]], f) == [y];
  }

  /** Filtering out elements that `f` rejects anyway changes nothing in the result. */
  lemma {:induction false} FilterBeforeFilterMap<A, B>(s: seq<A>, keep: A -> bool, f: A -> Option<B>)
    requires forall x :: f(x).Some? ==> keep(x)
    ensures FilterMap(Filter(s, keep), f) == FilterMap(s, f)
    decreases |s|
  {
    if s != [] {
      FilterBeforeFilterMap(s[1..], keep, f);
      if keep(s[0]) {
        FilterMapUnfold([s[0]] + Filter(s[1..], keep), f);
        assert ([s[0]] + Filter(s[1..], keep))[1..] == Filter(s[1..], keep);
      }
    }
  }

  /** `Array.prototype.map` */
  function Map<A, B>(s: seq<A>, g: A -> B): (r: seq<B>)
    ensures |r| == |s| && forall k :: 0 <= k < |s| ==> r[k] == g(s[k])
  {
    if s == [] then [] else [g(s[0])] + Map(s[1..], g)
  }

  /** A filter-and-map whose map does not depend on the filter is a filter followed by a map. */
  lemma {:induction false} FilterMapIsFilterThenMap<A, B>(s: seq<A>, f: A -> Option<B>, keep: A -> bool, g: A -> B)
    requires forall x :: f(x) == if keep(x) then Some(g(x)) else None
    ensures FilterMap(s, f) == Map(Filter(s, keep), g)
    decreases |s|
  {
    if s != [] {
      FilterMapUnfold(s, f);
      FilterMapIsFilterThenMap(s[1..], f, keep, g);
      if keep(s[0]) {
        assert ([s[0]] + Filter(s[1..], keep))[1..] == Filter(s[1..], keep);
      }
    }
  }

  /** Every element is either mapped or rejected: the kept and the rejected add up to the input. */
  lemma {:induction false} FilterMapCount<A, B>(s: seq<A>, f: A -> Option<B>, rejected: A -> bool)
    requires forall x :: rejected(x) <==> f(x).None?
    ensures |FilterMap(s, f)| + |Filter(s, rejected)| == |s|
    decreases |s|
  {
    if s != [] {
      FilterMapUnfold(s, f);
      FilterMapCount(s[1..], f, rejected);
    }
  }

  predicate NoDuplicates<T(==)>(s: seq<T>)
  {
    forall i, j :: 0 <= i < j < |s| ==> s[i] != s[j]
  }

  /** Push each element unless already included: defined on the last element, as the loop meets it. */
  function Dedup<T(==)>(s: seq<T>): (r: seq<T>)
  {
    if s == [] then []
    else
      var d := Dedup(s[..|s| - 1]);
      if s[|s| - 1] in d then d else d + [s[|s| - 1]]
  }

  /** One more element: kept when new, dropped when already there. The step of the deduplicating loop. */
  lemma DedupSnoc<T>(s: seq<T>, i: nat)
    requires i < |s|
    ensures Dedup(s[..i + 1]) == if s[i] in Dedup(s[..i]) then Dedup(s[..i]) else Dedup(s[..i]) + [s[i]]
  {
    assert s[..i + 1][..i] == s[..i];
  }

  /** The deduplicated list has no repeats and exactly the elements of the input. */
  lemma {:induction false} DedupSound<T>(s: seq<T>)
    ensures NoDuplicates(Dedup(s))
    ensures forall x :: x in Dedup(s) <==> x in s
    decreases |s|
  {
    if s != [] {
      var init := s[..|s| - 1];
      DedupSound(init);
      assert s == init + [s[|s| - 1]];
    }
  }

  /** The index of the first occurrence of `x` in `s`. */
  function FirstIndex<T(==)>(s: seq<T>, x: T): (i: nat)
    requires x in s
    ensures i < |s| && s[i] == x && x !in s[..i]
  {
    if s[0] == x then 0
    else
      assert s == [s[0]] + s[1..];
      1 + FirstIndex(s[1..], x)
  }

  lemma FirstIndexPrefix<T>(s: seq<T>, n: nat, x: T)
    requires n <= |s| && x in s[..n]
    ensures x in s && FirstIndex(s, x) == FirstIndex(s[..n], x)
  {
    var i := FirstIndex(s[..n], x);
    assert s[..n][..i] == s[..i];
    assert s[i] == x;
  }

  /** In a list without duplicates, an element's first index is its only index. */
  lemma FirstIndexDistinct<T>(s: seq<T>, k: nat)
    requires NoDuplicates(s) && k < |s|
    ensures FirstIndex(s, s[k]) == k
  {
    var i := FirstIndex(s, s[k]);
    assert s[i] == s[k];
  }

  /** Every element of `r` occurs in `s`, and `r` lists them in the order of their first occurrence in `s`. */
  ghost predicate FirstSeenOrder<T>(s: seq<T>, r: seq<T>)
  {
    && (forall x :: x in r ==> x in s)
    && (forall i, j :: 0 <= i < j < |r| && r[i] in s && r[j] in s ==> FirstIndex(s, r[i]) < FirstIndex(s, r[j]))
  }

  /** The deduplicated list keeps the order of first occurrences: the "first-seen order" of the slot list. */
  lemma {:induction false} DedupFirstSeenOrder<T>(s: seq<T>)
    ensures FirstSeenOrder(s, Dedup(s))
    decreases |s|
  {
    DedupSound(s);
    if s != [] {
      var n := |s| - 1;
      var init := s[..n];
      var d := Dedup(init);
      DedupFirstSeenOrder(init);
      DedupSound(init);
      assert Dedup(s) == if s[n] in d then d else d + [s[n]];
      forall i, j | 0 <= i < j < |Dedup(s)| && Dedup(s)[i] in s && Dedup(s)[j] in s
        ensures FirstIndex(s, Dedup(s)[i]) < FirstIndex(s, Dedup(s)[j])
      {
        var x, y := Dedup(s)[i], Dedup(s)[j];
        assert x == d[i];
        assert x in init;
        FirstIndexPrefix(s, n, x);
        if j < |d| {
          assert y == d[j];
          assert y in init;
          FirstIndexPrefix(s, n, y);
        } else {
          assert y == s[n] && y !in init;
          assert forall k :: 0 <= k < n ==> s[k] == init[k];
        }
      }
    }
  }
}
