/** Hand-written scanners for the regular expressions of generate-inventory.js. Each follows the
    order in which JavaScript's backtracking matcher tries alternatives (leftmost start; greedy
    quantifiers longest first, lazy ones shortest first), and each is paired with a declarative
    description of what the expression accepts. */
module Patterns {
  import opened Wrappers
  import opened Text

  // ---------------------------------------------------------------- blocks

  /** `head` (then, if `spacesThenBrace`, `\s*\{`), a lazy body `([\s\S]*?)`, then `close`. */
  datatype BlockPattern = BlockPattern(head: string, spacesThenBrace: bool, close: string)

  /** `/interface Props \{([\s\S]*?)\}/` */
  const PropsBlock := BlockPattern("interface Props {", false, "}")
  /** `/interface Emits \{([\s\S]*?)\}/` */
  const EmitsBlock := BlockPattern("interface Emits {", false, "}")
  /** `/withDefaults\(defineProps<Props>\(\),\s*\{([\s\S]*?)\}\)/` */
  const DefaultsBlock := BlockPattern("withDefaults(defineProps<Props>(),", true, "})")

  /** Where the body starts when the opening part of `p` matches at `i`. The `\s*` before the brace
      is never backtracked: a shorter run would leave a space where the brace must be. */
  function BodyStart(p: BlockPattern, text: string, i: nat): (r: Option<nat>)
    ensures r.Some? ==> OccursAt(text, p.head, i) && i + |p.head| <= r.value <= |text|
  {
    if !OccursAt(text, p.head, i) then None
    else if !p.spacesThenBrace then Some(i + |p.head|)
    else
      var j := SpanEnd(text, i + |p.head|, IsSpace);
      if j < |text| && text[j] == '{' then Some(j + 1) else None
  }

  /** The body captured when the whole pattern matches at `i`: the lazy body stops at the first `close`. */
  function BlockAt(p: BlockPattern, text: string, i: nat): Option<string>
  {
    match BodyStart(p, text, i)
    case None => None
    case Some(b) =>
      match IndexOf(text, p.close, b)
      case None => None
      case Some(k) => Some(text[b..k])
  }

  /** The leftmost position at or after `from` where the whole pattern matches. */
  function LeftmostBlock(p: BlockPattern, text: string, from: nat): (r: Option<nat>)
    requires from <= |text|
    ensures r.Some? ==> from <= r.value <= |text| && BlockAt(p, text, r.value).Some?
    ensures r.Some? ==> forall i :: from <= i < r.value ==> BlockAt(p, text, i).None?
    ensures r.None? ==> forall i :: from <= i ==> BlockAt(p, text, i).None?
    decreases |text| - from
  {
    if BlockAt(p, text, from).Some? then Some(from)
    else if from == |text| then None
    else LeftmostBlock(p, text, from + 1)
  }

  /** `text.match(pattern)[1]`: the body of the leftmost match, or no match. */
  function FindBlock(p: BlockPattern, text: string): Option<string>
  {
    match LeftmostBlock(p, text, 0)
    case None => None
    case Some(i) => BlockAt(p, text, i)
  }

  /** Without the opening text there is no block at all. */
  lemma NoHeadNoBlock(p: BlockPattern, text: string)
    requires forall i :: !OccursAt(text, p.head, i)
    ensures FindBlock(p, text) == None
  {
  }

  /** The block found is the text right after the first opener that has a `close` somewhere after it,
      up to the first `close`: the body never contains `close`, so whatever follows a nested `}` is
      never seen. */
  lemma {:induction false} BlockEndsAtFirstClose(p: BlockPattern, text: string)
    requires p.close != [] && FindBlock(p, text).Some?
    ensures !Contains(FindBlock(p, text).value, p.close)
    ensures exists i: nat :: OccursAt(text, p.head, i) && forall j :: 0 <= j < i ==> BlockAt(p, text, j).None?
  {
    var i := LeftmostBlock(p, text, 0).value;
    var b := BodyStart(p, text, i).value;
    var k := IndexOf(text, p.close, b).value;
    var body := text[b..k];
    assert FindBlock(p, text).value == body;
    forall j | 0 <= j <= |body| ensures !OccursAt(body, p.close, j) {
      if OccursAt(body, p.close, j) {
        OccursInSlice(text, b, k, p.close, j);
        assert false;
      }
    }
  }

  /** An occurrence inside a slice is an occurrence in the whole text, shifted by the slice's start. */
  lemma OccursInSlice(text: string, b: nat, k: nat, pat: string, j: nat)
    requires b <= k <= |text| && OccursAt(text[b..k], pat, j)
    ensures OccursAt(text, pat, b + j) && b + j + |pat| <= k
  {
    var slice := text[b..k];
    assert forall t :: 0 <= t < |pat| ==> text[b + j + t] == slice[j + t] == pat[t];
    assert text[b + j..b + j + |pat|] == pat;
  }

  // ---------------------------------------------------------------- key/value lines

  predicate IsIdentStart(c: char)
  {
    'a' <= c <= 'z' || 'A' <= c <= 'Z' || c == '_'
  }

  predicate IsIdentChar(c: char)
  {
    IsIdentStart(c) || '0' <= c <= '9'
  }

  /** The end of a `(.+?)` capture may be `p` when the capture `L[a..p]` is non-empty, holds no line
      terminator (`.` matches none) and the rest of the line matches the pattern's tail. */
  ghost predicate CaptureAt(L: string, a: nat, p: nat, tail: string -> bool)
  {
    a < p <= |L| && (forall k :: a <= k < p ==> !IsLineTerminator(L[k])) && tail(L[p..])
  }

  function LazyEnd(L: string, a: nat, p: nat, tail: string -> bool): (r: Option<nat>)
    requires a < p <= |L|
    requires forall k :: a <= k < p - 1 ==> !IsLineTerminator(L[k])
    requires forall q :: a < q < p ==> !CaptureAt(L, a, q, tail)
    ensures r.Some? ==> CaptureAt(L, a, r.value, tail)
    ensures r.Some? ==> forall q :: a < q < r.value ==> !CaptureAt(L, a, q, tail)
    ensures r.None? ==> forall q :: !CaptureAt(L, a, q, tail)
    decreases |L| - p
  {
    if IsLineTerminator(L[p - 1]) then None
    else if tail(L[p..]) then Some(p)
    else if p == |L| then None
    else LazyEnd(L, a, p + 1, tail)
  }

  /** `(.+?)` starting at `a`: the earliest end that lets the rest of the line match. */
  function LazyCapture(L: string, a: nat, tail: string -> bool): (r: Option<nat>)
    requires a <= |L|
    ensures r.Some? ==> CaptureAt(L, a, r.value, tail)
    ensures r.Some? ==> forall q :: a < q < r.value ==> !CaptureAt(L, a, q, tail)
    ensures r.None? ==> forall q :: !CaptureAt(L, a, q, tail)
  {
    if a == |L| then None else LazyEnd(L, a, a + 1, tail)
  }

  /** `\s*(.+?)` with spaces on `[b, a)`: the greedy `\s*` gives back one space at a time, so the
      latest start admitting a capture wins, with that start's earliest end. */
  function GreedyThenLazy(L: string, b: nat, a: nat, tail: string -> bool): (r: Option<(nat, nat)>)
    requires b <= a <= |L|
    ensures r.Some? ==> b <= r.value.0 <= a && CaptureAt(L, r.value.0, r.value.1, tail)
    ensures r.Some? ==> forall q :: r.value.0 < q < r.value.1 ==> !CaptureAt(L, r.value.0, q, tail)
    ensures r.Some? ==> forall s, q :: r.value.0 < s <= a ==> !CaptureAt(L, s, q, tail)
    ensures r.None? ==> forall s, q :: b <= s <= a ==> !CaptureAt(L, s, q, tail)
    decreases a
  {
    match LazyCapture(L, a, tail)
    case Some(p) => Some((a, p))
    case None => if a == b then None else GreedyThenLazy(L, b, a - 1, tail)
  }

  /** Positions in a line matched by `^\s*([a-zA-Z_][a-zA-Z0-9_]*)\??\s*:\s*(.+?)<tail>$`: the name is
      `[nameStart, nameEnd)`, the optional `?` ends at `keyEnd`, the colon ends at `colonEnd`, the
      capture is `[valueStart, valueEnd)`. */
  datatype KeyValueSpan = KeyValueSpan(nameStart: nat, nameEnd: nat, keyEnd: nat, colonEnd: nat,
                                       valueStart: nat, valueEnd: nat)

  /** `^\s*([a-zA-Z_][a-zA-Z0-9_]*)` + `\??` (only when `optionalMark`) + `\s*:` matches `L[..b]`. */
  ghost predicate KeyAt(L: string, optionalMark: bool, n0: nat, n1: nat, m: nat, b: nat)
  {
    && n0 < n1 <= m < b <= |L|
    && (forall k :: 0 <= k < n0 ==> IsSpace(L[k]))
    && IsIdentStart(L[n0]) && (forall k :: n0 < k < n1 ==> IsIdentChar(L[k]))
    && (m == n1 || (optionalMark && m == n1 + 1 && L[n1] == '?'))
    && (forall k :: m <= k < b - 1 ==> IsSpace(L[k])) && L[b - 1] == ':'
  }

  /** The whole line matches with the positions `sp`. */
  ghost predicate LineAt(L: string, optionalMark: bool, tail: string -> bool, sp: KeyValueSpan)
  {
    && KeyAt(L, optionalMark, sp.nameStart, sp.nameEnd, sp.keyEnd, sp.colonEnd)
    && sp.colonEnd <= sp.valueStart && CaptureAt(L, sp.valueStart, sp.valueEnd, tail)
    && (forall k :: sp.colonEnd <= k < sp.valueStart ==> IsSpace(L[k]))
  }

  /** The key part of the line pattern: every step is forced. Leading spaces must all go (an
      identifier does not start with a space), the identifier is maximal (what follows it is `?`,
      a space or the colon), and the spaces before the colon must all go. */
  function MatchKey(L: string, optionalMark: bool): (r: Option<(nat, nat, nat, nat)>)
    ensures r.Some? ==> KeyAt(L, optionalMark, r.value.0, r.value.1, r.value.2, r.value.3)
  {
    var n0 := SpanEnd(L, 0, IsSpace);
    if n0 == |L| || !IsIdentStart(L[n0]) then None
    else
      var n1 := SpanEnd(L, n0 + 1, IsIdentChar);
      var m := if optionalMark && n1 < |L| && L[n1] == '?' then n1 + 1 else n1;
      var c0 := SpanEnd(L, m, IsSpace);
      if c0 == |L| || L[c0] != ':' then None
      else Some((n0, n1, m, c0 + 1))
  }

  /** The key part matches in one way only, and the scanner finds it. */
  lemma MatchKeyComplete(L: string, optionalMark: bool, n0: nat, n1: nat, m: nat, b: nat)
    requires KeyAt(L, optionalMark, n0, n1, m, b)
    ensures MatchKey(L, optionalMark) == Some((n0, n1, m, b))
  {
    LeadingSpaces(L, optionalMark, n0, n1, m, b);
    IdentifierEnd(L, optionalMark, n0, n1, m, b);
    SpacesBeforeColon(L, optionalMark, n0, n1, m, b);
  }

  lemma LeadingSpaces(L: string, optionalMark: bool, n0: nat, n1: nat, m: nat, b: nat)
    requires KeyAt(L, optionalMark, n0, n1, m, b)
    ensures SpanEnd(L, 0, IsSpace) == n0
  {
    SpanEndUnique(L, 0, IsSpace, n0);
  }

  lemma IdentifierEnd(L: string, optionalMark: bool, n0: nat, n1: nat, m: nat, b: nat)
    requires KeyAt(L, optionalMark, n0, n1, m, b)
    ensures SpanEnd(L, n0 + 1, IsIdentChar) == n1
    ensures m == if optionalMark && n1 < |L| && L[n1] == '?' then n1 + 1 else n1
  {
    assert !IsIdentChar(L[n1]) by {
      assert L[n1] == '?' || IsSpace(L[n1]) || L[n1] == ':';
    }
    SpanEndUnique(L, n0 + 1, IsIdentChar, n1);
  }

  lemma SpacesBeforeColon(L: string, optionalMark: bool, n0: nat, n1: nat, m: nat, b: nat)
    requires KeyAt(L, optionalMark, n0, n1, m, b)
    ensures SpanEnd(L, m, IsSpace) == b - 1
  {
    SpanEndUnique(L, m, IsSpace, b - 1);
  }

  /** `line.match(...)` for the props and defaults line patterns. */
  function MatchKeyValue(L: string, optionalMark: bool, tail: string -> bool): (r: Option<KeyValueSpan>)
    ensures r.Some? ==> LineAt(L, optionalMark, tail, r.value)
  {
    match MatchKey(L, optionalMark)
    case None => None
    case Some((n0, n1, m, b)) =>
      var c := SpanEnd(L, b, IsSpace);
      match GreedyThenLazy(L, b, c, tail)
      case None => None
      case Some((a, p)) => Some(KeyValueSpan(n0, n1, m, b, a, p))
  }

  /** Every way the pattern can match the line has the same name and colon, and the scanner finds a
      match whenever there is one: the one whose capture starts latest and, for that start, ends
      earliest, which is the capture the backtracking matcher reports. */
  lemma MatchKeyValueComplete(L: string, optionalMark: bool, tail: string -> bool, sp: KeyValueSpan)
    requires LineAt(L, optionalMark, tail, sp)
    ensures MatchKeyValue(L, optionalMark, tail).Some?
    ensures var r := MatchKeyValue(L, optionalMark, tail).value;
      && r.nameStart == sp.nameStart && r.nameEnd == sp.nameEnd
      && r.keyEnd == sp.keyEnd && r.colonEnd == sp.colonEnd
      && (sp.valueStart < r.valueStart || (sp.valueStart == r.valueStart && r.valueEnd <= sp.valueEnd))
  {
    MatchKeyComplete(L, optionalMark, sp.nameStart, sp.nameEnd, sp.keyEnd, sp.colonEnd);
    var c := SpanEnd(L, sp.colonEnd, IsSpace);
    assert sp.valueStart <= c;
    var g := GreedyThenLazy(L, sp.colonEnd, c, tail);
    assert g.Some?;
  }

  /** `;?\s*(?:\/\/.*)?$`, the tail of a props line. Backtracking adds nothing here: when the rest
      starts with `;` only taking it can succeed, and the spaces must all be taken because the
      comment starts with `/` and the end of the line is the end. */
  predicate PropsTail(r: string)
  {
    var r1 := if r != [] && r[0] == ';' then r[1..] else r;
    var r2 := r1[SpanEnd(r1, 0, IsSpace)..];
    r2 == [] || (|r2| >= 2 && r2[0] == '/' && r2[1] == '/' && forall k :: 2 <= k < |r2| ==> !IsLineTerminator(r2[k]))
  }

  /** `,?\s*$`, the tail of a defaults line. */
  predicate DefaultsTail(r: string)
  {
    var r1 := if r != [] && r[0] == ',' then r[1..] else r;
    AllSpace(r1)
  }

  // ---------------------------------------------------------------- event names

  predicate IsEventChar(c: char)
  {
    'a' <= c <= 'z' || c == '-'
  }

  /** `['"]([a-z-]+)['"]` matches at `i` with capture `name`. */
  ghost predicate QuotedEventAt(L: string, i: nat, name: string)
  {
    && |name| > 0 && i + |name| + 1 < |L|
    && IsQuote(L[i]) && L[i + 1..i + 1 + |name|] == name && IsQuote(L[i + |name| + 1])
    && (forall k :: 0 <= k < |name| ==> IsEventChar(name[k]))
  }

  /** The event pattern tried at `i`; `[a-z-]+` is maximal since a quote is not an event character. */
  function EventAt(L: string, i: nat): (r: Option<string>)
    ensures r.Some? ==> QuotedEventAt(L, i, r.value)
  {
    if i < |L| && IsQuote(L[i]) then
      var j := SpanEnd(L, i + 1, IsEventChar);
      if i + 1 < j < |L| && IsQuote(L[j]) then Some(L[i + 1..j]) else None
    else None
  }

  lemma EventAtComplete(L: string, i: nat, name: string)
    requires QuotedEventAt(L, i, name)
    ensures EventAt(L, i) == Some(name)
  {
    assert forall k :: i + 1 <= k < i + 1 + |name| ==> L[k] == name[k - i - 1];
    SpanEndUnique(L, i + 1, IsEventChar, i + 1 + |name|);
  }

  function LeftmostEvent(L: string, from: nat): (r: Option<nat>)
    ensures r.Some? ==> from <= r.value < |L| && EventAt(L, r.value).Some?
    ensures r.Some? ==> forall i :: from <= i < r.value ==> EventAt(L, i).None?
    ensures r.None? ==> forall i :: from <= i ==> EventAt(L, i).None?
    decreases |L| - from
  {
    if from >= |L| then None
    else if EventAt(L, from).Some? then Some(from)
    else LeftmostEvent(L, from + 1)
  }

  /** `line.match(/['"]([a-z-]+)['"]/)[1]`: the capture of the leftmost match. */
  function FirstQuotedEvent(L: string): Option<string>
  {
    match LeftmostEvent(L, 0)
    case None => None
    case Some(i) => EventAt(L, i)
  }

  /** The event found is the leftmost quoted run of `[a-z-]`, and there is none exactly when no quoted
      run exists anywhere in the line. */
  lemma FirstQuotedEventSpec(L: string)
    ensures FirstQuotedEvent(L).None? <==> forall i, name :: !QuotedEventAt(L, i, name)
    ensures FirstQuotedEvent(L).Some? ==> exists i :: QuotedEventAt(L, i, FirstQuotedEvent(L).value)
                                           && forall j, name :: j < i ==> !QuotedEventAt(L, j, name)
  {
    forall i, name | QuotedEventAt(L, i, name) ensures EventAt(L, i) == Some(name) {
      EventAtComplete(L, i, name);
    }
  }

  // ---------------------------------------------------------------- slots

  const SlotTag := "<slot"

  predicate IsNotQuote(c: char)
  {
    !IsQuote(c)
  }

  /** `\s+name=["']([^"']+)["']` matches from `q`: spaces on `[q, w)`, `name=` and a quote at `w`, the
      name on `[w + 6, e)`, a closing quote at `e`. */
  ghost predicate NameAttrAt(text: string, q: nat, w: nat, e: nat)
  {
    && q < w && w + 6 < e < |text|
    && (forall k :: q <= k < w ==> IsSpace(text[k]))
    && OccursAt(text, "name=", w) && IsQuote(text[w + 5])
    && (forall k :: w + 6 <= k < e ==> !IsQuote(text[k])) && IsQuote(text[e])
  }

  /** One match of `<slot(?:\s+name=["']([^"']+)["'])?`: the captured name, if the optional group
      matched, and where the match ends. */
  datatype SlotMatch = SlotMatch(name: Option<string>, end: nat)

  function SlotAt(text: string, k: nat): (r: SlotMatch)
    requires OccursAt(text, SlotTag, k)
    ensures k + |SlotTag| <= r.end <= |text|
    ensures r.name.None? ==> r.end == k + |SlotTag|
    ensures r.name.Some? ==>
      var e := r.end - 1;
      var w := e - |r.name.value| - 6;
      w >= 0 && NameAttrAt(text, k + |SlotTag|, w, e) && text[w + 6..e] == r.name.value
  {
    var q := k + |SlotTag|;
    var w := SpanEnd(text, q, IsSpace);
    if q < w && OccursAt(text, "name=", w) && w + 5 < |text| && IsQuote(text[w + 5]) then
      var e := SpanEnd(text, w + 6, IsNotQuote);
      if w + 6 < e < |text| && IsQuote(text[e]) then
        assert NameAttrAt(text, q, w, e);
        assert e + 1 - 1 - |text[w + 6..e]| - 6 == w;
        SlotMatch(Some(text[w + 6..e]), e + 1)
      else SlotMatch(None, q)
    else SlotMatch(None, q)
  }

  /** When the attribute is there, the scanner takes it: an unnamed result means the tag is not
      immediately followed by `name="…"` or `name='…'`. */
  lemma SlotAtComplete(text: string, k: nat, w: nat, e: nat)
    requires OccursAt(text, SlotTag, k) && NameAttrAt(text, k + |SlotTag|, w, e)
    ensures SlotAt(text, k) == SlotMatch(Some(text[w + 6..e]), e + 1)
  {
    SpanEndUnique(text, k + |SlotTag|, IsSpace, w);
    SpanEndUnique(text, w + 6, IsNotQuote, e);
  }

  /** A slot name as the extractor can report it: non-empty and free of quotes. */
  predicate IsSlotName(n: string)
  {
    n != [] && forall c :: c in n ==> !IsQuote(c)
  }

  /** The names `text.matchAll(/<slot(?:\s+name=["']([^"']+)["'])?/g)` yields from `from` on, in
      order, with `match[1] || 'default'` applied; each search resumes where the last match ended. */
  function SlotNamesFrom(text: string, from: nat): (r: seq<string>)
    requires from <= |text|
    ensures forall n :: n in r ==> IsSlotName(n)
    decreases |text| - from
  {
    match IndexOf(text, SlotTag, from)
    case None => []
    case Some(k) =>
      var m := SlotAt(text, k);
      assert IsSlotName(SlotNameOf(m));
      [SlotNameOf(m)] + SlotNamesFrom(text, m.end)
  }

  /** `match[1] || 'default'` */
  function SlotNameOf(m: SlotMatch): string
  {
    match m.name case Some(n) => n case None => "default"
  }

  /** Every `<slot` the scan reaches contributes its name. A tag at `k` is reached from `from` when
      no earlier match from `from` on runs past `k`; a tag inside another match's attribute is not. */
  lemma {:induction false} SlotVisited(text: string, from: nat, k: nat)
    requires from <= k && OccursAt(text, SlotTag, k)
    requires forall j :: from <= j < k && OccursAt(text, SlotTag, j) ==> SlotAt(text, j).end <= k
    ensures SlotNameOf(SlotAt(text, k)) in SlotNamesFrom(text, from)
    decreases k - from
  {
    var found := IndexOf(text, SlotTag, from);
    assert found.Some? && found.value <= k;
    var j := found.value;
    var m := SlotAt(text, j);
    assert SlotNamesFrom(text, from) == [SlotNameOf(m)] + SlotNamesFrom(text, m.end);
    if j < k {
      assert j < m.end <= k;
      SlotVisited(text, m.end, k);
    }
  }

  /** Every name the scan yields comes from a `<slot` tag in the text at or after `from`. */
  lemma {:induction false} SlotNamesSound(text: string, from: nat, n: string)
    requires from <= |text| && n in SlotNamesFrom(text, from)
    ensures exists k :: from <= k && OccursAt(text, SlotTag, k) && n == SlotNameOf(SlotAt(text, k))
    decreases |text| - from
  {
    var found := IndexOf(text, SlotTag, from);
    var j := found.value;
    var m := SlotAt(text, j);
    assert SlotNamesFrom(text, from) == [SlotNameOf(m)] + SlotNamesFrom(text, m.end);
    if n != SlotNameOf(m) {
      SlotNamesSound(text, m.end, n);
    }
  }

  /** No `<slot` in the text, no slot names. */
  lemma NoTagNoSlots(text: string)
    requires forall i :: !OccursAt(text, SlotTag, i)
    ensures SlotNamesFrom(text, 0) == []
  {
  }
}
