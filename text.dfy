/** The JavaScript string operations the inventory generator relies on, over `seq<char>`. */
module Text {
  import opened Wrappers

  /** JavaScript's white space: the characters `\s` matches and `String.prototype.trim` removes
      (WhiteSpace and LineTerminator of ECMA-262, the Zs category spelt out). */
  predicate IsSpace(c: char)
  {
    c == '\t' || c == '\n' || c == '\U{B}' || c == '\U{C}' || c == '\r' || c == ' '
    || c == '\U{A0}' || c == '\U{1680}' || ('\U{2000}' <= c <= '\U{200A}')
    || c == '\U{2028}' || c == '\U{2029}' || c == '\U{202F}' || c == '\U{205F}'
    || c == '\U{3000}' || c == '\U{FEFF}'
  }

  /** The characters a regular-expression `.` does not match. */
  predicate IsLineTerminator(c: char)
  {
    c == '\n' || c == '\r' || c == '\U{2028}' || c == '\U{2029}'
  }

  predicate AllSpace(s: string)
  {
    forall k :: 0 <= k < |s| ==> IsSpace(s[k])
  }

  /** The end of the run of characters satisfying `p` that starts at `i`
      (a greedy `p*` that is never backtracked, because what follows it cannot satisfy `p`). */
  function SpanEnd(s: string, i: nat, p: char -> bool): (j: nat)
    requires i <= |s|
    ensures i <= j <= |s|
    ensures forall k :: i <= k < j ==> p(s[k])
    ensures j < |s| ==> !p(s[j])
    decreases |s| - i
  {
    if i < |s| && p(s[i]) then SpanEnd(s, i + 1, p) else i
  }

  /** A run is determined by where it starts: any `j` with the two properties of `SpanEnd` is `SpanEnd`. */
  lemma SpanEndUnique(s: string, i: nat, p: char -> bool, j: nat)
    requires i <= j <= |s|
    requires forall k :: i <= k < j ==> p(s[k])
    requires j < |s| ==> !p(s[j])
    ensures SpanEnd(s, i, p) == j
  {
  }

  /** `String.prototype.trimStart` */
  function TrimStart(s: string): (r: string)
    ensures |r| <= |s| && r == s[|s| - |r|..]
    ensures AllSpace(s[..|s| - |r|])
    ensures r != [] ==> !IsSpace(r[0])
  {
    if s != [] && IsSpace(s[0]) then
      var r := TrimStart(s[1..]);
      assert s[..|s| - |r|] == [s[0]] + s[1..][..|s| - 1 - |r|];
      r
    else s
  }

  /** `String.prototype.trimEnd` */
  function TrimEnd(s: string): (r: string)
    ensures |r| <= |s| && r == s[..|r|]
    ensures AllSpace(s[|r|..])
    ensures r != [] ==> !IsSpace(r[|r| - 1])
  {
    if s != [] && IsSpace(s[|s| - 1]) then TrimEnd(s[..|s| - 1]) else s
  }

  /** `String.prototype.trim`: `s` is `r` with white space around it. */
  function Trim(s: string): (r: string)
    ensures r == [] <==> AllSpace(s)
    ensures r != [] ==> !IsSpace(r[0]) && !IsSpace(r[|r| - 1])
  {
    var t := TrimStart(s);
    var r := TrimEnd(t);
    TrimMiddle(s, t, r);
    r
  }

  /** The trimmed text is the line's own middle: a slice of it with only white space on either side. */
  lemma TrimIsSlice(s: string)
    ensures var r := Trim(s);
      exists i :: 0 <= i && i + |r| <= |s| && r == s[i..i + |r|] && AllSpace(s[..i]) && AllSpace(s[i + |r|..])
  {
    TrimMiddle(s, TrimStart(s), Trim(s));
  }

  /** Cutting a white-space prefix off `s`, giving `t`, and a white-space suffix off `t`, giving `r`,
      leaves a slice of `s` that is empty only for a blank `s` and has no white space at its ends. */
  lemma TrimMiddle(s: string, t: string, r: string)
    requires |t| <= |s| && t == s[|s| - |t|..] && AllSpace(s[..|s| - |t|]) && (t != [] ==> !IsSpace(t[0]))
    requires |r| <= |t| && r == t[..|r|] && AllSpace(t[|r|..]) && (r != [] ==> !IsSpace(r[|r| - 1]))
    ensures r == [] <==> AllSpace(s)
    ensures r != [] ==> !IsSpace(r[0]) && !IsSpace(r[|r| - 1])
    ensures exists i :: 0 <= i && i + |r| <= |s| && r == s[i..i + |r|] && AllSpace(s[..i]) && AllSpace(s[i + |r|..])
  {
    MiddleSlice(s, t, r);
    var d := |s| - |t|;
    assert d + |r| <= |s| && r == s[d..d + |r|] && AllSpace(s[..d]) && AllSpace(s[d + |r|..]);
    BlankIffEmpty(s, t, r);
    assert r != [] ==> r[0] == t[0];
  }

  lemma BlankIffEmpty(s: string, t: string, r: string)
    requires |t| <= |s| && t == s[|s| - |t|..] && AllSpace(s[..|s| - |t|])
    requires |r| <= |t| && r == t[..|r|] && AllSpace(t[|r|..]) && (r != [] ==> !IsSpace(r[|r| - 1]))
    ensures r == [] <==> AllSpace(s)
  {
    var d := |s| - |t|;
    if r == [] {
      assert t[|r|..] == t;
      assert forall k :: d <= k < |s| ==> s[k] == t[k - d];
    } else {
      assert s[d + |r| - 1] == r[|r| - 1];
    }
  }

  /** A prefix `r` of a suffix `t` of `s` is a slice of `s`; when what follows `r` in `t` is white
      space, so is what follows it in `s`. */
  lemma MiddleSlice(s: string, t: string, r: string)
    requires |t| <= |s| && t == s[|s| - |t|..]
    requires |r| <= |t| && r == t[..|r|] && AllSpace(t[|r|..])
    ensures var i := |s| - |t|; r == s[i..i + |r|] && AllSpace(s[i + |r|..])
  {
    var d := |s| - |t|;
    assert r == s[d..d + |r|] && s[d + |r|..] == t[|r|..];
  }

  /** Trimming removes white space only at the ends: a string with none there is its own trim. */
  lemma TrimUnpadded(s: string)
    requires s != [] ==> !IsSpace(s[0]) && !IsSpace(s[|s| - 1])
    ensures Trim(s) == s
  {
  }

  /** The trimmed text starts at the first character that is not white space. */
  lemma TrimStartsAt(s: string, n: nat)
    requires n < |s| && !IsSpace(s[n])
    requires forall k :: 0 <= k < n ==> IsSpace(s[k])
    ensures Trim(s) != [] && Trim(s)[0] == s[n]
  {
    var t := TrimStart(s);
    var d := |s| - |t|;
    assert forall k :: 0 <= k < d ==> s[..d][k] == s[k];
    assert d < |s| ==> t[0] == s[d];
    assert TrimEnd(t) == t[..|TrimEnd(t)|];
  }

  lemma TrimIdempotent(s: string)
    ensures Trim(Trim(s)) == Trim(s)
  {
    TrimUnpadded(Trim(s));
  }

  predicate StartsWith(s: string, prefix: string)
  {
    |prefix| <= |s| && s[..|prefix|] == prefix
  }

  predicate EndsWith(s: string, suffix: string)
  {
    |suffix| <= |s| && s[|s| - |suffix|..] == suffix
  }

  /** `pat` occurs in `s` at index `k`. */
  predicate OccursAt(s: string, pat: string, k: nat)
  {
    k + |pat| <= |s| && s[k..k + |pat|] == pat
  }

  predicate Contains(s: string, pat: string)
  {
    exists k :: 0 <= k <= |s| && OccursAt(s, pat, k)
  }

  /** `s.indexOf(pat, from)`: the first occurrence of `pat` at or after `from`. */
  function IndexOf(s: string, pat: string, from: nat): (r: Option<nat>)
    requires from <= |s|
    ensures r.Some? ==> from <= r.value && OccursAt(s, pat, r.value)
    ensures r.Some? ==> forall k :: from <= k < r.value ==> !OccursAt(s, pat, k)
    ensures r.None? ==> forall k :: from <= k ==> !OccursAt(s, pat, k)
    decreases |s| - from
  {
    if OccursAt(s, pat, from) then Some(from)
    else if from == |s| then None
    else IndexOf(s, pat, from + 1)
  }

  /** `s.split(sep)` for a one-character separator: the pieces between separators, in order. */
  function Split(s: string, sep: char): (parts: seq<string>)
    ensures |parts| >= 1
    ensures forall k :: 0 <= k < |parts| ==> sep !in parts[k]
    ensures Join(parts, sep) == s
    decreases |s|
  {
    var i := SpanEnd(s, 0, c => c != sep);
    if i == |s| then
      assert sep !in s;
      [s]
    else
      var rest := Split(s[i + 1..], sep);
      assert s == s[..i] + [sep] + s[i + 1..];
      [s[..i]] + rest
  }

  /** `parts.join(sep)`, the inverse of `Split`. */
  function Join(parts: seq<string>, sep: char): string
    requires |parts| >= 1
  {
    if |parts| == 1 then parts[0] else parts[0] + [sep] + Join(parts[1..], sep)
  }

  /** Text without the separator is one piece. */
  lemma SplitSingle(s: string, sep: char)
    requires sep !in s
    ensures Split(s, sep) == [s]
  {
    assert forall k :: 0 <= k < |s| ==> s[k] != sep;
    SpanEndUnique(s, 0, c => c != sep, |s|);
  }

  /** The first piece ends at the first separator. */
  lemma SplitStep(head: string, sep: char, tail: string)
    requires sep !in head
    ensures Split(head + [sep] + tail, sep) == [head] + Split(tail, sep)
  {
    var s := head + [sep] + tail;
    assert s[|head|] == sep;
    assert forall k :: 0 <= k < |head| ==> s[k] == head[k];
    SpanEndUnique(s, 0, c => c != sep, |head|);
    assert s[..|head|] == head;
    assert s[|head| + 1..] == tail;
  }

  /** Splitting a join gives back the pieces, provided no piece holds the separator. */
  lemma {:induction false} SplitJoin(parts: seq<string>, sep: char)
    requires |parts| >= 1
    requires forall k :: 0 <= k < |parts| ==> sep !in parts[k]
    ensures Split(Join(parts, sep), sep) == parts
    decreases |parts|
  {
    if |parts| == 1 {
      SplitSingle(parts[0], sep);
    } else {
      SplitStep(parts[0], sep, Join(parts[1..], sep));
      SplitJoin(parts[1..], sep);
      assert parts == [parts[0]] + parts[1..];
    }
  }

  predicate IsQuote(c: char)
  {
    c == '\'' || c == '"'
  }

  /** `s.replace(/['"]/g, '')`: every single and double quote removed, the rest kept in order. */
  function RemoveQuotes(s: string): (r: string)
    ensures forall k :: 0 <= k < |r| ==> !IsQuote(r[k])
    ensures |r| <= |s|
    ensures (forall k :: 0 <= k < |s| ==> !IsQuote(s[k])) ==> r == s
    ensures forall c :: !IsQuote(c) ==> multiset(r)[c] == multiset(s)[c]
  {
    if s == [] then []
    else
      assert s == [s[0]] + s[1..];
      if IsQuote(s[0]) then RemoveQuotes(s[1..])
      else [s[0]] + RemoveQuotes(s[1..])
  }

  /** Removing quotes only drops quotes: the result is `s` with its quotes deleted, wherever they stood. */
  lemma {:induction false} RemoveQuotesSplits(a: string, b: string)
    ensures RemoveQuotes(a + b) == RemoveQuotes(a) + RemoveQuotes(b)
    decreases |a|
  {
    if a == [] {
      assert a + b == b;
    } else {
      assert (a + b)[1..] == a[1..] + b;
      RemoveQuotesSplits(a[1..], b);
    }
  }
}
