/** The default `Array.prototype.sort` on strings: ascending lexicographic order of characters. */
module Sorting {

  /** `a` sorts no later than `b`: a prefix comes first, otherwise the first differing character decides. */
  predicate LessEq(a: string, b: string)
    decreases |a|
  {
    a == [] || (b != [] && (a[0] < b[0] || (a[0] == b[0] && LessEq(a[1..], b[1..]))))
  }

  lemma {:induction false} LessEqReflexive(a: string)
    ensures LessEq(a, a)
    decreases |a|
  {
    if a != [] { LessEqReflexive(a[1..]); }
  }

  lemma {:induction false} LessEqTotal(a: string, b: string)
    ensures LessEq(a, b) || LessEq(b, a)
    decreases |a|
  {
    if a != [] && b != [] && a[0] == b[0] {
      LessEqTotal(a[1..], b[1..]);
    }
  }

  lemma {:induction false} LessEqAntisymmetric(a: string, b: string)
    requires LessEq(a, b) && LessEq(b, a)
    ensures a == b
    decreases |a|
  {
    if a != [] {
      LessEqAntisymmetric(a[1..], b[1..]);
      assert a == [a[0]] + a[1..] && b == [b[0]] + b[1..];
    }
  }

  lemma {:induction false} LessEqTransitive(a: string, b: string, c: string)
    requires LessEq(a, b) && LessEq(b, c)
    ensures LessEq(a, c)
    decreases |a|
  {
    if a != [] && a[0] == b[0] && b[0] == c[0] {
      LessEqTransitive(a[1..], b[1..], c[1..]);
    }
  }

  predicate Sorted(s: seq<string>)
  {
    forall i, j :: 0 <= i < j < |s| ==> LessEq(s[i], s[j])
  }

  /** A string that sorts no later than the head of a sorted list sorts no later than all of it. */
  lemma BelowHead(x: string, s: seq<string>)
    requires Sorted(s) && s != [] && LessEq(x, s[0])
    ensures forall j :: 0 <= j < |s| ==> LessEq(x, s[j])
  {
    forall j | 0 <= j < |s| ensures LessEq(x, s[j]) {
      if j > 0 { LessEqTransitive(x, s[0], s[j]); }
    }
  }

  /** Putting in front of a sorted list an element that sorts no later than all of it keeps it sorted. */
  lemma SortedCons(x: string, t: seq<string>)
    requires Sorted(t) && forall j :: 0 <= j < |t| ==> LessEq(x, t[j])
    ensures Sorted([x] + t)
  {
    var r := [x] + t;
    forall i, j | 0 <= i < j < |r| ensures LessEq(r[i], r[j]) {
      assert r[j] == t[j - 1];
      if i > 0 { assert r[i] == t[i - 1]; }
    }
  }

  /** The head of a sorted list sorts no later than every element of a list with the tail's elements
      and one more element `x` it also precedes. */
  lemma HeadBelowInsert(s: seq<string>, x: string, t: seq<string>)
    requires Sorted(s) && s != [] && LessEq(s[0], x)
    requires multiset(t) == multiset(s[1..]) + multiset{x}
    ensures forall j :: 0 <= j < |t| ==> LessEq(s[0], t[j])
  {
    forall j | 0 <= j < |t| ensures LessEq(s[0], t[j]) {
      assert t[j] in multiset(t);
      if t[j] != x {
        assert t[j] in multiset(s[1..]);
        var i :| 0 <= i < |s[1..]| && s[1..][i] == t[j];
        assert s[i + 1] == t[j];
      }
    }
  }

  function Insert(x: string, s: seq<string>): (r: seq<string>)
    requires Sorted(s)
    ensures Sorted(r)
    ensures multiset(r) == multiset(s) + multiset{x}
  {
    if s == [] then [x]
    else if LessEq(x, s[0]) then
      BelowHead(x, s);
      SortedCons(x, s);
      [x] + s
    else
      LessEqTotal(x, s[0]);
      var t := Insert(x, s[1..]);
      assert s == [s[0]] + s[1..];
      HeadBelowInsert(s, x, t);
      SortedCons(s[0], t);
      [s[0]] + t
  }

  /** The file list `.sort()` produces: the same names, in ascending order. */
  function SortStrings(s: seq<string>): (r: seq<string>)
    ensures Sorted(r)
    ensures multiset(r) == multiset(s)
  {
    if s == [] then []
    else
      assert s == [s[0]] + s[1..];
      Insert(s[0], SortStrings(s[1..]))
  }

  /** The first element of a sorted list sorts no later than any of its elements. */
  lemma HeadIsLeast(a: seq<string>, x: string)
    requires Sorted(a) && x in a
    ensures LessEq(a[0], x)
  {
    var i :| 0 <= i < |a| && a[i] == x;
    if i == 0 { LessEqReflexive(x); }
  }

  lemma MultisetTail(a: seq<string>, b: seq<string>)
    requires a != [] && b != [] && a[0] == b[0] && multiset(a) == multiset(b)
    ensures multiset(a[1..]) == multiset(b[1..])
  {
    assert a == [a[0]] + a[1..] && b == [b[0]] + b[1..];
    assert multiset(a[1..]) == multiset(a) - multiset{a[0]};
    assert multiset(b[1..]) == multiset(b) - multiset{b[0]};
  }

  /** Sorting has one possible outcome: any two sorted arrangements of the same names are equal,
      so the order of the inventory does not depend on how the sort is carried out. */
  lemma {:induction false} SortedUnique(a: seq<string>, b: seq<string>)
    requires Sorted(a) && Sorted(b) && multiset(a) == multiset(b)
    ensures a == b
    decreases |a|
  {
    assert |b| == |multiset(b)| == |multiset(a)| == |a|;
    if a != [] {
      assert a[0] in multiset(a) && b[0] in multiset(b);
      HeadIsLeast(b, a[0]);
      HeadIsLeast(a, b[0]);
      LessEqAntisymmetric(a[0], b[0]);
      MultisetTail(a, b);
      SortedUnique(a[1..], b[1..]);
      assert a == [a[0]] + a[1..] && b == [b[0]] + b[1..];
    }
  }
}
