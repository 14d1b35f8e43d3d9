/** The four extractors of generate-inventory.js. Each is a loop over lines (or regular-expression
    matches) that accumulates a result; each method is proved equal to a function that says what
    the result is, and the lemmas below state the properties of those functions. */
module Extractors {
  import opened Wrappers
  import opened Text
  import opened Seqs
  import opened Patterns

  predicate IsIdentifier(s: string)
  {
    s != [] && IsIdentStart(s[0]) && forall k :: 1 <= k < |s| ==> IsIdentChar(s[k])
  }

  /** `line => line.trim()` as a filter: the line is not blank (see `NotBlankIsTrimmed`). */
  predicate NotBlank(line: string)
  {
    !AllSpace(line)
  }

  /** A line passes the filter exactly when its trimmed form is a non-empty, hence truthy, string. */
  lemma NotBlankIsTrimmed(line: string)
    ensures NotBlank(line) <==> Trim(line) != []
  {
  }

  // ---------------------------------------------------------------- props

  /** One entry of the props list: `{ name, type, optional }`. */
  datatype PropDecl = PropDecl(name: string, typ: string, optional: bool)

  /** What one line of the Props block contributes: the trimmed captures, and `optional` taken from
      the raw line (`line.includes('?')`), not from the `?` mark of the pattern. */
  function PropOfLine(line: string): Option<PropDecl>
  {
    match MatchKeyValue(line, true, PropsTail)
    case None => None
    case Some(sp) =>
      Some(PropDecl(Trim(line[sp.nameStart..sp.nameEnd]), Trim(line[sp.valueStart..sp.valueEnd]), '?' in line))
  }

  /** The props of a file: one per matching non-blank line of the first Props block, in order. */
  function PropsIn(text: string): seq<PropDecl>
  {
    match FindBlock(PropsBlock, text)
    case None => []
    case Some(body) => FilterMap(Filter(Split(body, '\n'), NotBlank), PropOfLine)
  }

  /** `extractProps` */
  method ExtractProps(fileContent: string) returns (props: seq<PropDecl>)
    ensures props == PropsIn(fileContent)
  {
    props := [];
    var propsMatch := FindBlock(PropsBlock, fileContent);
    if propsMatch.None? {
      return;
    }
    var propLines := Filter(Split(propsMatch.value, '\n'), NotBlank);
    var i := 0;
    while i < |propLines|
      invariant 0 <= i <= |propLines|
      invariant props == FilterMap(propLines[..i], PropOfLine)
    {
      var prop := PropOfLine(propLines[i]);
      if prop.Some? {
        props := props + [prop.value];
      }
      FilterMapSnoc(propLines, i, PropOfLine);
      i := i + 1;
    }
    assert propLines[..i] == propLines;
  }

  /** An identifier has no white space around it, so trimming the name capture changes nothing. */
  lemma IdentifierUntrimmed(s: string)
    requires IsIdentifier(s)
    ensures Trim(s) == s
  {
    TrimUnpadded(s);
  }

  /** A line yields a prop exactly when it matches the props line pattern. */
  lemma PropOfLineMatches(line: string)
    ensures PropOfLine(line).Some? <==> exists sp :: LineAt(line, true, PropsTail, sp)
  {
    if exists sp :: LineAt(line, true, PropsTail, sp) {
      var sp :| LineAt(line, true, PropsTail, sp);
      MatchKeyValueComplete(line, true, PropsTail, sp);
    }
  }

  /** The prop's name is the identifier before the colon and its type the trimmed capture of the
      match the regular-expression engine reports. */
  lemma PropOfLineFields(line: string)
    requires MatchKeyValue(line, true, PropsTail).Some?
    ensures var sp := MatchKeyValue(line, true, PropsTail).value;
      var name := line[sp.nameStart..sp.nameEnd];
      && IsIdentifier(name)
      && PropOfLine(line) == Some(PropDecl(name, Trim(line[sp.valueStart..sp.valueEnd]), '?' in line))
  {
    var sp := MatchKeyValue(line, true, PropsTail).value;
    var name := line[sp.nameStart..sp.nameEnd];
    NameIsIdentifier(line, true, sp.nameStart, sp.nameEnd, sp.keyEnd, sp.colonEnd);
    IdentifierUntrimmed(name);
  }

  lemma NameIsIdentifier(line: string, optionalMark: bool, n0: nat, n1: nat, m: nat, b: nat)
    requires KeyAt(line, optionalMark, n0, n1, m, b)
    ensures IsIdentifier(line[n0..n1])
    ensures m > n1 ==> line[n1] == '?'
  {
    var name := line[n0..n1];
    assert forall k :: 0 <= k < |name| ==> name[k] == line[n0 + k];
  }

  /** `optional` is true whenever the line holds a `?` anywhere: a `?` mark after the name always makes
      it true, and so does a `?` in the type or in a trailing comment. */
  lemma PropOptionalAnywhere(line: string)
    requires PropOfLine(line).Some?
    ensures PropOfLine(line).value.optional <==> '?' in line
    ensures var sp := MatchKeyValue(line, true, PropsTail).value;
      sp.keyEnd > sp.nameEnd ==> PropOfLine(line).value.optional
  {
    var sp := MatchKeyValue(line, true, PropsTail).value;
    NameIsIdentifier(line, true, sp.nameStart, sp.nameEnd, sp.keyEnd, sp.colonEnd);
  }

  /** With no `interface Props {` in the file there are no props. */
  lemma NoPropsBlockNoProps(text: string)
    requires forall i :: !OccursAt(text, PropsBlock.head, i)
    ensures PropsIn(text) == []
  {
    NoHeadNoBlock(PropsBlock, text);
  }

  /** Each prop comes from one non-blank line of the block, and there are at most as many props as
      such lines: a line contributes one prop or nothing. */
  lemma PropsFromLines(text: string, d: PropDecl)
    requires FindBlock(PropsBlock, text).Some?
    ensures var lines := Filter(Split(FindBlock(PropsBlock, text).value, '\n'), NotBlank);
      && |PropsIn(text)| <= |lines|
      && (d in PropsIn(text) <==> exists i :: 0 <= i < |lines| && PropOfLine(lines[i]) == Some(d))
  {
    var lines := Filter(Split(FindBlock(PropsBlock, text).value, '\n'), NotBlank);
    FilterMapMembers(lines, PropOfLine, d);
  }

  // ---------------------------------------------------------------- defaults

  /** The defaults filter: not blank and not a `//` comment. */
  predicate IsDefaultsLine(line: string)
  {
    Trim(line) != [] && !StartsWith(Trim(line), "//")
  }

  /** What one line of the defaults block contributes: the name and the trimmed value with every
      single and double quote removed. */
  function DefaultOfLine(line: string): Option<(string, string)>
  {
    match MatchKeyValue(line, false, DefaultsTail)
    case None => None
    case Some(sp) =>
      Some((Trim(line[sp.nameStart..sp.nameEnd]), RemoveQuotes(Trim(line[sp.valueStart..sp.valueEnd]))))
  }

  /** Assigning the entries one after another into an empty object. */
  function Assign(entries: seq<(string, string)>): map<string, string>
  {
    if entries == [] then map[]
    else
      var last := entries[|entries| - 1];
      Assign(entries[..|entries| - 1])[last.0 := last.1]
  }

  function DefaultEntries(body: string): seq<(string, string)>
  {
    FilterMap(Filter(Split(body, '\n'), IsDefaultsLine), DefaultOfLine)
  }

  /** The defaults of a file, read from the first `withDefaults(defineProps<Props>(), {` block. */
  function DefaultsIn(text: string): map<string, string>
  {
    match FindBlock(DefaultsBlock, text)
    case None => map[]
    case Some(body) => Assign(DefaultEntries(body))
  }

  /** `extractDefaults` */
  method ExtractDefaults(fileContent: string) returns (defaults: map<string, string>)
    ensures defaults == DefaultsIn(fileContent)
  {
    defaults := map[];
    var defaultsMatch := FindBlock(DefaultsBlock, fileContent);
    if defaultsMatch.None? {
      return;
    }
    var defaultLines := Filter(Split(defaultsMatch.value, '\n'), IsDefaultsLine);
    defaults := AssignLines(defaultLines);
  }

  /** The loop of `extractDefaults`: each line's entry, if it has one, is assigned in turn. */
  method AssignLines(defaultLines: seq<string>) returns (defaults: map<string, string>)
    ensures defaults == Assign(FilterMap(defaultLines, DefaultOfLine))
  {
    defaults := map[];
    var i := 0;
    while i < |defaultLines|
      invariant 0 <= i <= |defaultLines|
      invariant defaults == Assign(FilterMap(defaultLines[..i], DefaultOfLine))
    {
      var entry := DefaultOfLine(defaultLines[i]);
      if entry.Some? {
        defaults := defaults[entry.value.0 := entry.value.1];
      }
      DefaultsSnoc(defaultLines, i, DefaultOfLine);
      i := i + 1;
    }
    assert defaultLines[..i] == defaultLines;
  }

  /** The step of the defaults loop: one more line assigns its entry, if it has one. */
  lemma DefaultsSnoc<A>(lines: seq<A>, i: nat, entryOf: A -> Option<(string, string)>)
    requires i < |lines|
    ensures Assign(FilterMap(lines[..i + 1], entryOf)) ==
      match entryOf(lines[i])
      case None => Assign(FilterMap(lines[..i], entryOf))
      case Some(e) => Assign(FilterMap(lines[..i], entryOf))[e.0 := e.1]
  {
    FilterMapSnoc(lines, i, entryOf);
    match entryOf(lines[i])
    case None =>
      var prev := FilterMap(lines[..i], entryOf);
      assert FilterMap(lines[..i + 1], entryOf) == prev + [] == prev;
    case Some(e) =>
      assert FilterMap(lines[..i + 1], entryOf) == FilterMap(lines[..i], entryOf) + [e];
      AssignSnoc(FilterMap(lines[..i], entryOf), e);
  }

  lemma AssignSnoc(entries: seq<(string, string)>, e: (string, string))
    ensures Assign(entries + [e]) == Assign(entries)[e.0 := e.1]
  {
    assert (entries + [e])[..|entries|] == entries;
  }

  /** A key is present when some entry names it, and its value is that of the LAST such entry: a
      later duplicate overwrites an earlier one. */
  lemma {:induction false} AssignLastWins(entries: seq<(string, string)>, i: nat)
    requires i < |entries|
    requires forall j :: i < j < |entries| ==> entries[j].0 != entries[i].0
    ensures entries[i].0 in Assign(entries) && Assign(entries)[entries[i].0] == entries[i].1
    decreases |entries|
  {
    if i < |entries| - 1 {
      var init := entries[..|entries| - 1];
      assert init[i] == entries[i];
      AssignLastWins(init, i);
    }
  }

  /** Only named keys are present. */
  lemma {:induction false} AssignKeys(entries: seq<(string, string)>, k: string)
    ensures k in Assign(entries) <==> exists i :: 0 <= i < |entries| && entries[i].0 == k
    decreases |entries|
  {
    if entries != [] {
      var init := entries[..|entries| - 1];
      AssignKeys(init, k);
      if exists i :: 0 <= i < |init| && init[i].0 == k {
        var i :| 0 <= i < |init| && init[i].0 == k;
        assert entries[i] == init[i];
      }
      if exists i :: 0 <= i < |entries| - 1 && entries[i].0 == k {
        var i :| 0 <= i < |entries| - 1 && entries[i].0 == k;
        assert init[i] == entries[i];
      }
    }
  }

  /** Every value comes from some entry. */
  lemma {:induction false} AssignValues(entries: seq<(string, string)>, k: string)
    requires k in Assign(entries)
    ensures exists i :: 0 <= i < |entries| && entries[i] == (k, Assign(entries)[k])
    decreases |entries|
  {
    var last := entries[|entries| - 1];
    var init := entries[..|entries| - 1];
    if k != last.0 {
      AssignValues(init, k);
      var i :| 0 <= i < |init| && init[i] == (k, Assign(init)[k]);
      assert entries[i] == init[i];
    }
  }

  /** No default value holds a quote: every `'` and `"` is removed, not just an outer pair. */
  lemma DefaultsHaveNoQuotes(text: string, k: string)
    requires k in DefaultsIn(text)
    ensures forall c :: c in DefaultsIn(text)[k] ==> !IsQuote(c)
  {
    var body := FindBlock(DefaultsBlock, text).value;
    var entries := DefaultEntries(body);
    AssignValues(entries, k);
    var i :| 0 <= i < |entries| && entries[i] == (k, Assign(entries)[k]);
    var lines := Filter(Split(body, '\n'), IsDefaultsLine);
    FilterMapMembers(lines, DefaultOfLine, entries[i]);
    var j :| 0 <= j < |lines| && DefaultOfLine(lines[j]) == Some(entries[i]);
    DefaultValueUnquoted(lines[j]);
  }

  lemma DefaultValueUnquoted(line: string)
    requires DefaultOfLine(line).Some?
    ensures forall c :: c in DefaultOfLine(line).value.1 ==> !IsQuote(c)
  {
  }

  /** A line the defaults pattern matches is neither blank nor a `//` comment: its first non-blank
      character starts an identifier. */
  lemma DefaultLineNotComment(line: string)
    requires DefaultOfLine(line).Some?
    ensures IsDefaultsLine(line)
  {
    var sp := MatchKeyValue(line, false, DefaultsTail).value;
    KeyLineNotComment(line, sp.nameStart, sp.nameEnd, sp.keyEnd, sp.colonEnd);
  }

  lemma KeyLineNotComment(line: string, n0: nat, n1: nat, m: nat, b: nat)
    requires KeyAt(line, false, n0, n1, m, b)
    ensures IsDefaultsLine(line)
  {
    TrimStartsAt(line, n0);
    var t := Trim(line);
    assert t[0] != '/';
    assert |t| >= 2 ==> t[..2][0] == t[0];
  }

  /** The blank-and-comment filter of the defaults extractor removes only lines the pattern rejects
      anyway: the defaults are the same with or without it. */
  lemma DefaultsFilterRedundant(body: string)
    ensures DefaultEntries(body) == FilterMap(Split(body, '\n'), DefaultOfLine)
  {
    forall line | DefaultOfLine(line).Some? ensures IsDefaultsLine(line) {
      DefaultLineNotComment(line);
    }
    FilterBeforeFilterMap(Split(body, '\n'), IsDefaultsLine, DefaultOfLine);
  }

  // ---------------------------------------------------------------- events

  /** The event names of a file: the first quoted `[a-z-]+` run of each non-blank line of the first
      Emits block, in order. */
  function EventsIn(text: string): seq<string>
  {
    match FindBlock(EmitsBlock, text)
    case None => []
    case Some(body) => FilterMap(Filter(Split(body, '\n'), NotBlank), FirstQuotedEvent)
  }

  /** `extractEvents` */
  method ExtractEvents(fileContent: string) returns (events: seq<string>)
    ensures events == EventsIn(fileContent)
  {
    events := [];
    var emitsMatch := FindBlock(EmitsBlock, fileContent);
    if emitsMatch.None? {
      return;
    }
    var eventLines := Filter(Split(emitsMatch.value, '\n'), NotBlank);
    var i := 0;
    while i < |eventLines|
      invariant 0 <= i <= |eventLines|
      invariant events == FilterMap(eventLines[..i], FirstQuotedEvent)
    {
      var m := FirstQuotedEvent(eventLines[i]);
      if m.Some? {
        events := events + [m.value];
      }
      FilterMapSnoc(eventLines, i, FirstQuotedEvent);
      i := i + 1;
    }
    assert eventLines[..i] == eventLines;
  }

  /** Every event name is a non-empty run of lower-case letters and dashes, so a name such as
      `update:modelValue` is never reported whole. */
  lemma EventNamesAreLowerDashed(text: string, e: string)
    requires e in EventsIn(text)
    ensures e != [] && forall k :: 0 <= k < |e| ==> IsEventChar(e[k])
  {
    var body := FindBlock(EmitsBlock, text).value;
    var lines := Filter(Split(body, '\n'), NotBlank);
    FilterMapMembers(lines, FirstQuotedEvent, e);
    var i :| 0 <= i < |lines| && FirstQuotedEvent(lines[i]) == Some(e);
    var j := LeftmostEvent(lines[i], 0).value;
    assert QuotedEventAt(lines[i], j, e);
  }

  /** Events are not deduplicated: two lines naming the same event give two entries. */
  lemma EventsKeepDuplicates(text: string, i: nat, j: nat, e: string)
    requires FindBlock(EmitsBlock, text).Some?
    requires var lines := Filter(Split(FindBlock(EmitsBlock, text).value, '\n'), NotBlank);
      i < j < |lines| && FirstQuotedEvent(lines[i]) == Some(e) && FirstQuotedEvent(lines[j]) == Some(e)
    ensures multiset(EventsIn(text))[e] >= 2
  {
    var lines := Filter(Split(FindBlock(EmitsBlock, text).value, '\n'), NotBlank);
    KeepsRepeats(lines, FirstQuotedEvent, i, j, e);
  }

  // ---------------------------------------------------------------- slots

  /** The slot names of a file: the named or `"default"` names of every `<slot`, first occurrences
      only, in first-seen order. */
  function SlotsIn(text: string): seq<string>
  {
    Dedup(SlotNamesFrom(text, 0))
  }

  /** `extractSlots` */
  method ExtractSlots(fileContent: string) returns (slots: seq<string>)
    ensures slots == SlotsIn(fileContent)
  {
    slots := [];
    var slotMatches := SlotNamesFrom(fileContent, 0);
    var i := 0;
    while i < |slotMatches|
      invariant 0 <= i <= |slotMatches|
      invariant slots == Dedup(slotMatches[..i])
    {
      var slotName := slotMatches[i];
      if slotName !in slots {
        slots := slots + [slotName];
      }
      DedupSnoc(slotMatches, i);
      i := i + 1;
    }
    assert slotMatches[..i] == slotMatches;
  }

  /** The slot list has no duplicates, lists every name found, in the order names are first met, and
      holds no empty name and no quote; each name is that of a `<slot` tag in the text. */
  lemma SlotsSpec(text: string)
    ensures NoDuplicates(SlotsIn(text))
    ensures forall n :: n in SlotsIn(text) <==> n in SlotNamesFrom(text, 0)
    ensures FirstSeenOrder(SlotNamesFrom(text, 0), SlotsIn(text))
    ensures forall n :: n in SlotsIn(text) ==> IsSlotName(n)
    ensures forall n :: n in SlotsIn(text) ==>
      exists k :: OccursAt(text, SlotTag, k) && n == SlotNameOf(SlotAt(text, k))
  {
    DedupSound(SlotNamesFrom(text, 0));
    DedupFirstSeenOrder(SlotNamesFrom(text, 0));
    forall n | n in SlotsIn(text)
      ensures exists k :: OccursAt(text, SlotTag, k) && n == SlotNameOf(SlotAt(text, k))
    {
      SlotNamesSound(text, 0, n);
    }
  }

  /** The slot list is empty exactly when the file has no `<slot` at all. */
  lemma NoSlotsIffNoTag(text: string)
    ensures SlotsIn(text) == [] <==> forall i :: !OccursAt(text, SlotTag, i)
  {
    var names := SlotNamesFrom(text, 0);
    DedupSound(names);
    if names != [] {
      assert names[0] in SlotsIn(text);
    }
  }

  /** A `<slot` immediately followed by a well-formed `name` attribute contributes that name, provided
      the scan reaches it: no earlier `<slot` match runs past it. */
  lemma NamedSlotRecorded(text: string, k: nat, w: nat, e: nat)
    requires OccursAt(text, SlotTag, k) && NameAttrAt(text, k + |SlotTag|, w, e)
    requires forall j :: 0 <= j < k && OccursAt(text, SlotTag, j) ==> SlotAt(text, j).end <= k
    ensures text[w + 6..e] in SlotsIn(text)
  {
    SlotAtComplete(text, k, w, e);
    SlotVisited(text, 0, k);
    DedupSound(SlotNamesFrom(text, 0));
  }

  /** A `<slot` the scan reaches and that has no `name` attribute counts as the slot `"default"`. */
  lemma UnnamedSlotIsDefault(text: string, k: nat)
    requires OccursAt(text, SlotTag, k) && SlotAt(text, k).name.None?
    requires forall j :: 0 <= j < k && OccursAt(text, SlotTag, j) ==> SlotAt(text, j).end <= k
    ensures "default" in SlotsIn(text)
  {
    SlotVisited(text, 0, k);
    DedupSound(SlotNamesFrom(text, 0));
  }
}
