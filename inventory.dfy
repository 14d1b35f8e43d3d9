/** The component descriptor of one `.vue` file, the inventory of one category directory, and the
    consolidated inventory of the three categories. The file system is a value: a category maps to
    its directory when the directory exists, and a directory lists its entries and holds the text of
    each entry that can be read. */
module Inventory {
  import opened Wrappers
  import opened Text
  import opened Seqs
  import opened Sorting
  import opened Patterns
  import opened Extractors

  /** A prop of the descriptor: the extracted declaration with its default value, if any. */
  datatype Prop = Prop(name: string, typ: string, optional: bool, default: Option<string>)

  /** `{ name, path, props, events, slots }`; `slots` is absent when the component has none. */
  datatype Component = Component(name: string, path: string, props: seq<Prop>, events: seq<string>,
                                 slots: Option<seq<string>>)

  /** A directory: its entries in listing order, and the contents of the entries that can be read
      (an entry missing from `files` is one whose read throws). */
  datatype Directory = Directory(entries: seq<string>, files: map<string, string>)

  /** `{ _meta: { category, count }, components }` */
  datatype CategoryInventory = CategoryInventory(category: string, count: nat, components: seq<Component>)

  /** `consolidatedInventory.categories[category]`: `{ count, components }` */
  datatype CategorySummary = CategorySummary(category: string, count: nat, components: seq<Component>)

  /** `{ _meta: { totalCount }, categories }`, the categories in insertion order. */
  datatype Consolidated = Consolidated(totalCount: nat, categories: seq<CategorySummary>)

  /** The keys of `COMPONENT_DIRS`, in the order `Object.entries` yields them. */
  const Categories: seq<string> := ["sections", "layout", "ui"]

  const VueSuffix := ".vue"

  // ---------------------------------------------------------------- one component

  /** `path.basename(file, '.vue')` for a bare file name: the suffix is removed unless it is the whole name. */
  function BaseName(file: string): (r: string)
    ensures EndsWith(file, VueSuffix) && file != VueSuffix ==> r != [] && r + VueSuffix == file
    ensures !EndsWith(file, VueSuffix) || file == VueSuffix ==> r == file
  {
    if EndsWith(file, VueSuffix) && file != VueSuffix then file[..|file| - |VueSuffix|] else file
  }

  /** `` `@/components/${category}/${fileName}.vue` `` */
  function ImportPath(category: string, fileName: string): string
  {
    "@/components/" + category + "/" + fileName + VueSuffix
  }

  /** `defaults[prop.name] || undefined`: an absent key and an empty value both give no default. */
  function DefaultFor(defaults: map<string, string>, name: string): Option<string>
  {
    if name in defaults && defaults[name] != "" then Some(defaults[name]) else None
  }

  /** The prop enrichment: `props.map(prop => ({ ...prop, default: ... }))`. */
  function Enrich(props: seq<PropDecl>, defaults: map<string, string>): seq<Prop>
  {
    if props == [] then []
    else [Prop(props[0].name, props[0].typ, props[0].optional, DefaultFor(defaults, props[0].name))]
         + Enrich(props[1..], defaults)
  }

  /** The descriptor `parseVueComponent` builds for `file` of `category` with contents `content`. */
  function ComponentOf(file: string, category: string, content: string): Component
  {
    var fileName := BaseName(file);
    var slots := SlotsIn(content);
    Component(fileName, ImportPath(category, fileName), Enrich(PropsIn(content), DefaultsIn(content)),
              EventsIn(content), if |slots| > 0 then Some(slots) else None)
  }

  /** `parseVueComponent`, once the file has been read into `fileContent`. */
  method ParseVueComponent(file: string, category: string, fileContent: string) returns (c: Component)
    ensures c == ComponentOf(file, category, fileContent)
  {
    var fileName := BaseName(file);
    var props := ExtractProps(fileContent);
    var defaults := ExtractDefaults(fileContent);
    var enrichedProps := Enrich(props, defaults);
    var events := ExtractEvents(fileContent);
    var slots := ExtractSlots(fileContent);
    var importPath := ImportPath(category, fileName);
    c := Component(fileName, importPath, enrichedProps, events, if |slots| > 0 then Some(slots) else None);
  }

  /** Enrichment keeps the props, in order, with their name, type and optional flag, and attaches a
      default exactly when the defaults hold a non-empty value under the prop's own name. */
  lemma {:induction false} EnrichSpec(props: seq<PropDecl>, defaults: map<string, string>)
    ensures |Enrich(props, defaults)| == |props|
    ensures forall k :: 0 <= k < |props| ==>
      var p := Enrich(props, defaults)[k];
      && p.name == props[k].name && p.typ == props[k].typ && p.optional == props[k].optional
      && (p.default.Some? <==> props[k].name in defaults && defaults[props[k].name] != "")
      && (p.default.Some? ==> p.default.value == defaults[props[k].name])
    decreases |props|
  {
    if props != [] {
      EnrichSpec(props[1..], defaults);
    }
  }

  /** The descriptor names the file without its `.vue`, gives the `@/components/<category>/<name>.vue`
      import path, carries the extracted events, and has no `slots` exactly when the file has no
      `<slot` tag; otherwise `slots` is the extracted slot list. */
  lemma ComponentOfSpec(file: string, category: string, content: string)
    requires EndsWith(file, VueSuffix) && file != VueSuffix
    ensures var c := ComponentOf(file, category, content);
      && c.name + VueSuffix == file
      && c.path == "@/components/" + category + "/" + file
      && c.events == EventsIn(content)
      && (c.slots.None? <==> forall i :: !OccursAt(content, SlotTag, i))
      && (c.slots.Some? ==> c.slots.value == SlotsIn(content))
      && |c.props| == |PropsIn(content)|
  {
    var c := ComponentOf(file, category, content);
    NoSlotsIffNoTag(content);
    EnrichSpec(PropsIn(content), DefaultsIn(content));
    assert c.path == "@/components/" + category + "/" + (c.name + VueSuffix);
  }

  /** Different files of one category get different import paths, and a category without `/` can be
      read back from a path: the path identifies the component. */
  lemma ImportPathInjective(c1: string, f1: string, c2: string, f2: string)
    requires '/' !in c1 && '/' !in c2
    requires ImportPath(c1, f1) == ImportPath(c2, f2)
    ensures c1 == c2 && f1 == f2
  {
    var prefix := "@/components/";
    assert ImportPath(c1, f1) == prefix + (c1 + "/" + f1) + VueSuffix;
    assert ImportPath(c2, f2) == prefix + (c2 + "/" + f2) + VueSuffix;
    StripAround(prefix, c1 + "/" + f1, c2 + "/" + f2, VueSuffix);
    SlashSplit(c1, f1, c2, f2);
  }

  lemma StripAround(a: string, x: string, y: string, b: string)
    requires a + x + b == a + y + b
    ensures x == y
  {
    assert x == (a + x + b)[|a|..|a| + |x|];
    assert |x| == |y|;
    assert y == (a + y + b)[|a|..|a| + |y|];
  }

  /** The text before the first `/` is fixed by the whole. */
  lemma SlashSplit(c1: string, f1: string, c2: string, f2: string)
    requires '/' !in c1 && '/' !in c2
    requires c1 + "/" + f1 == c2 + "/" + f2
    ensures c1 == c2 && f1 == f2
  {
    var p := c1 + "/" + f1;
    assert forall k :: 0 <= k < |c1| ==> p[k] == c1[k] != '/';
    assert forall k :: 0 <= k < |c2| ==> p[k] == c2[k] != '/';
    assert p[|c1|] == '/' && p[|c2|] == '/';
    assert |c1| == |c2|;
    assert c1 == p[..|c1|] == c2;
    assert f1 == p[|c1| + 1..] == f2;
  }

  // ---------------------------------------------------------------- one directory

  predicate IsVueFile(file: string)
  {
    EndsWith(file, VueSuffix)
  }

  /** `readdirSync(dir).filter(file => file.endsWith('.vue')).sort()` */
  function VueFiles(dir: Directory): seq<string>
  {
    SortStrings(Filter(dir.entries, IsVueFile))
  }

  /** Parsing one file: a descriptor when it can be read, nothing when the read throws. */
  function ComponentFor(category: string, dir: Directory): string -> Option<Component>
  {
    file => if Readable(dir, file) then Some(ComponentOf(file, category, dir.files[file])) else None
  }

  /** The inventory `generateInventoryForDir` returns: none for a missing directory or one without
      `.vue` files, otherwise the count of `.vue` files and the descriptors of the readable ones. */
  function InventoryOf(category: string, dir: Option<Directory>): Option<CategoryInventory>
  {
    match dir
    case None => None
    case Some(d) =>
      var files := VueFiles(d);
      if |files| == 0 then None
      else Some(CategoryInventory(category, |files|, FilterMap(files, ComponentFor(category, d))))
  }

  /** `generateInventoryForDir`: `dir` is the directory when it exists. */
  method GenerateInventoryForDir(dir: Option<Directory>, category: string) returns (inventory: Option<CategoryInventory>)
    ensures inventory == InventoryOf(category, dir)
  {
    if dir.None? {
      return None;
    }
    var d := dir.value;
    var files := VueFiles(d);
    if |files| == 0 {
      return None;
    }
    var parse := ComponentFor(category, d);
    var components: seq<Component> := [];
    var i := 0;
    while i < |files|
      invariant 0 <= i <= |files|
      invariant components == FilterMap(files[..i], parse)
    {
      var file := files[i];
      if Readable(d, file) {
        var componentInfo := ParseVueComponent(file, category, d.files[file]);
        components := components + [componentInfo];
      }
      FilterMapSnoc(files, i, parse);
      i := i + 1;
    }
    assert files[..i] == files;
    inventory := Some(CategoryInventory(category, |files|, components));
  }

  predicate Readable(dir: Directory, file: string)
  {
    file in dir.files
  }

  /** A present inventory lists, in sorted file-name order, the descriptor of every readable `.vue`
      entry and of nothing else: a file whose read throws is skipped and the files after it are still
      processed. Its count is the number of `.vue` entries, the failed ones included. */
  lemma InventorySpec(category: string, d: Directory)
    requires InventoryOf(category, Some(d)).Some?
    ensures var inv := InventoryOf(category, Some(d)).value;
      var files := VueFiles(d);
      && Sorted(files) && multiset(files) == multiset(Filter(d.entries, IsVueFile))
      && inv.category == category
      && inv.count == |files| > 0
      && var readable := Filter(files, f => Readable(d, f));
      && |inv.components| == |readable|
      && (forall k :: 0 <= k < |readable| ==>
            Readable(d, readable[k]) && inv.components[k] == ComponentOf(readable[k], category, d.files[readable[k]]))
      && |inv.components| + |Filter(files, f => !Readable(d, f))| == inv.count
  {
    var files := VueFiles(d);
    var parse := ComponentFor(category, d);
    FilterMapIsFilterThenMap(files, parse, f => Readable(d, f), f => ComponentOf(f, category, if Readable(d, f) then d.files[f] else ""));
    FilterMapCount(files, parse, f => !Readable(d, f));
  }

  /** No inventory exactly when the directory is missing or has no `.vue` entry. */
  lemma NoInventorySpec(category: string, dir: Option<Directory>)
    ensures InventoryOf(category, dir).None? <==>
      dir.None? || forall e :: e in dir.value.entries ==> !IsVueFile(e)
  {
    if dir.Some? {
      var vue := Filter(dir.value.entries, IsVueFile);
      assert |VueFiles(dir.value)| == |multiset(VueFiles(dir.value))| == |multiset(vue)| == |vue|;
      if vue != [] {
        assert vue[0] in dir.value.entries;
      }
    }
  }

  // ---------------------------------------------------------------- consolidation

  /** The `categories` of the consolidated inventory, for the categories `cats` in order: one entry
      for each category whose inventory is present. */
  function SummariesOf(dirs: map<string, Directory>, cats: seq<string>): seq<CategorySummary>
  {
    if cats == [] then []
    else
      var init := SummariesOf(dirs, cats[..|cats| - 1]);
      var category := cats[|cats| - 1];
      match InventoryOf(category, DirOf(dirs, category))
      case None => init
      case Some(inv) => init + [CategorySummary(category, |inv.components|, inv.components)]
  }

  /** The sum of the `count` fields. */
  function TotalOf(summaries: seq<CategorySummary>): nat
  {
    if summaries == [] then 0 else TotalOf(summaries[..|summaries| - 1]) + summaries[|summaries| - 1].count
  }

  function DirOf(dirs: map<string, Directory>, category: string): Option<Directory>
  {
    if category in dirs then Some(dirs[category]) else None
  }

  /** The step of the consolidation loop over the categories. */
  lemma SummariesStep(dirs: map<string, Directory>, cats: seq<string>, i: nat)
    requires i < |cats|
    ensures SummariesOf(dirs, cats[..i + 1]) ==
      match InventoryOf(cats[i], DirOf(dirs, cats[i]))
      case None => SummariesOf(dirs, cats[..i])
      case Some(inv) => SummariesOf(dirs, cats[..i]) + [CategorySummary(cats[i], |inv.components|, inv.components)]
  {
    assert cats[..i + 1][..i] == cats[..i];
  }

  lemma TotalSnoc(summaries: seq<CategorySummary>, s: CategorySummary)
    ensures TotalOf(summaries + [s]) == TotalOf(summaries) + s.count
  {
    assert (summaries + [s])[..|summaries|] == summaries;
  }

  /** The consolidation of `main`, without the logging and the write of the result. */
  method GenerateConsolidated(dirs: map<string, Directory>) returns (consolidated: Consolidated)
    ensures consolidated.categories == SummariesOf(dirs, Categories)
    ensures consolidated.totalCount == TotalOf(SummariesOf(dirs, Categories))
  {
    var totalComponents := 0;
    var categories: seq<CategorySummary> := [];
    var i := 0;
    while i < |Categories|
      invariant 0 <= i <= |Categories|
      invariant categories == SummariesOf(dirs, Categories[..i])
      invariant totalComponents == TotalOf(categories)
    {
      var category := Categories[i];
      SummariesStep(dirs, Categories, i);
      var inventory := GenerateInventoryForDir(DirOf(dirs, category), category);
      if inventory.Some? {
        var summary := CategorySummary(category, |inventory.value.components|, inventory.value.components);
        TotalSnoc(categories, summary);
        categories := categories + [summary];
        totalComponents := totalComponents + |inventory.value.components|;
      }
      i := i + 1;
    }
    assert Categories[..i] == Categories;
    consolidated := Consolidated(totalComponents, categories);
  }

  /** The sum of the component counts, category by category. */
  function ComponentsTotal(dirs: map<string, Directory>, cats: seq<string>): nat
  {
    if cats == [] then 0
    else
      var category := cats[|cats| - 1];
      ComponentsTotal(dirs, cats[..|cats| - 1])
      + match InventoryOf(category, DirOf(dirs, category)) case None => 0 case Some(inv) => |inv.components|
  }

  /** Each listed category is one of `cats` with a present inventory, and its `count` is the length
      of that inventory's component list. */
  lemma {:induction false} SummariesSound(dirs: map<string, Directory>, cats: seq<string>)
    ensures forall s :: s in SummariesOf(dirs, cats) ==>
      && s.category in cats
      && InventoryOf(s.category, DirOf(dirs, s.category)).Some?
      && s.components == InventoryOf(s.category, DirOf(dirs, s.category)).value.components
      && s.count == |s.components|
    decreases |cats|
  {
    if cats != [] {
      var init := cats[..|cats| - 1];
      SummariesSound(dirs, init);
      assert forall c :: c in init ==> c in cats;
    }
  }

  /** One more category keeps the earlier summaries and adds its own when its inventory is present. */
  lemma SummariesSnoc(dirs: map<string, Directory>, cats: seq<string>)
    requires cats != []
    ensures var prev := SummariesOf(dirs, cats[..|cats| - 1]);
      var category := cats[|cats| - 1];
      var r := SummariesOf(dirs, cats);
      && |prev| <= |r| && r[..|prev|] == prev
      && (InventoryOf(category, DirOf(dirs, category)).Some? ==> |r| == |prev| + 1 && r[|prev|].category == category)
      && (InventoryOf(category, DirOf(dirs, category)).None? ==> r == prev)
  {
  }

  /** Every category of `cats` with a present inventory is listed. */
  lemma {:induction false} SummariesComplete(dirs: map<string, Directory>, cats: seq<string>, c: string)
    requires c in cats && InventoryOf(c, DirOf(dirs, c)).Some?
    ensures exists k :: 0 <= k < |SummariesOf(dirs, cats)| && SummariesOf(dirs, cats)[k].category == c
    decreases |cats|
  {
    var init := cats[..|cats| - 1];
    SummariesSnoc(dirs, cats);
    if c != cats[|cats| - 1] {
      InInit(cats, c);
      SummariesComplete(dirs, init, c);
      ListedInExtension(SummariesOf(dirs, init), SummariesOf(dirs, cats), c);
    } else {
      assert SummariesOf(dirs, cats)[|SummariesOf(dirs, init)|].category == c;
    }
  }

  lemma InInit(cats: seq<string>, c: string)
    requires c in cats && c != cats[|cats| - 1]
    ensures c in cats[..|cats| - 1]
  {
    var j :| 0 <= j < |cats| && cats[j] == c;
    assert cats[..|cats| - 1][j] == c;
  }

  lemma ListedInExtension(prev: seq<CategorySummary>, r: seq<CategorySummary>, c: string)
    requires |prev| <= |r| && r[..|prev|] == prev
    requires exists k :: 0 <= k < |prev| && prev[k].category == c
    ensures exists k :: 0 <= k < |r| && r[k].category == c
  {
    var k :| 0 <= k < |prev| && prev[k].category == c;
    assert r[k] == r[..|prev|][k];
  }

  /** The total of the listed counts is the sum of the component counts of all present inventories. */
  lemma {:induction false} SummariesTotal(dirs: map<string, Directory>, cats: seq<string>)
    ensures TotalOf(SummariesOf(dirs, cats)) == ComponentsTotal(dirs, cats)
    decreases |cats|
  {
    if cats != [] {
      var init := cats[..|cats| - 1];
      SummariesTotal(dirs, init);
      var category := cats[|cats| - 1];
      var prev := SummariesOf(dirs, init);
      var inv := InventoryOf(category, DirOf(dirs, category));
      if inv.Some? {
        var s := CategorySummary(category, |inv.value.components|, inv.value.components);
        assert (prev + [s])[..|prev|] == prev;
      }
    }
  }

  /** The consolidated inventory lists exactly the categories whose inventory is present, in the order
      sections, layout, ui, and its total is the sum of their component counts. */
  lemma ConsolidatedSpec(dirs: map<string, Directory>)
    ensures var cs := SummariesOf(dirs, Categories);
      && |cs| <= 3
      && (forall k :: 0 <= k < |cs| ==> cs[k].count == |cs[k].components|)
      && (forall c :: c in Categories ==>
            (InventoryOf(c, DirOf(dirs, c)).Some? <==> exists k :: 0 <= k < |cs| && cs[k].category == c))
      && TotalOf(cs) == ComponentsTotal(dirs, Categories)
      && (forall i, j :: 0 <= i < j < |cs| ==> cs[i].category != cs[j].category)
      && OrderedBy(Categories, cs)
  {
    assert NoDuplicates(Categories);
    SummariesOrdered(dirs, Categories);
    SummariesListed(dirs, Categories);
    SummariesSound(dirs, Categories);
    SummariesTotal(dirs, Categories);
    SummariesLength(dirs, Categories);
  }

  /** A category of `cats` is listed exactly when its inventory is present. */
  lemma SummariesListed(dirs: map<string, Directory>, cats: seq<string>)
    ensures var cs := SummariesOf(dirs, cats);
      forall c :: c in cats ==>
        (InventoryOf(c, DirOf(dirs, c)).Some? <==> exists k :: 0 <= k < |cs| && cs[k].category == c)
  {
    SummariesSound(dirs, cats);
    var cs := SummariesOf(dirs, cats);
    assert forall k :: 0 <= k < |cs| ==> cs[k] in cs;
    forall c | c in cats && InventoryOf(c, DirOf(dirs, c)).Some?
      ensures exists k :: 0 <= k < |cs| && cs[k].category == c
    {
      SummariesComplete(dirs, cats, c);
    }
  }

  /** `r` lists categories of `cats`, in the order of `cats` and each at most once. */
  ghost predicate OrderedBy(cats: seq<string>, r: seq<CategorySummary>)
  {
    && (forall k :: 0 <= k < |r| ==> r[k].category in cats)
    && (forall i, j :: 0 <= i < j < |r| && r[i].category in cats && r[j].category in cats ==>
          FirstIndex(cats, r[i].category) < FirstIndex(cats, r[j].category))
  }

  /** For distinct categories, the summaries follow the order of `cats`, so none is listed twice. */
  lemma {:induction false} SummariesOrdered(dirs: map<string, Directory>, cats: seq<string>)
    requires NoDuplicates(cats)
    ensures OrderedBy(cats, SummariesOf(dirs, cats))
    decreases |cats|
  {
    if cats != [] {
      var init := cats[..|cats| - 1];
      assert NoDuplicates(init);
      SummariesOrdered(dirs, init);
      SummariesSnoc(dirs, cats);
      OrderedExtend(cats, SummariesOf(dirs, init), SummariesOf(dirs, cats));
    }
  }

  /** Appending a summary for the last category keeps the order. */
  lemma OrderedExtend(cats: seq<string>, prev: seq<CategorySummary>, r: seq<CategorySummary>)
    requires cats != [] && NoDuplicates(cats) && OrderedBy(cats[..|cats| - 1], prev)
    requires |prev| <= |r| <= |prev| + 1 && r[..|prev|] == prev
    requires |r| == |prev| + 1 ==> r[|prev|].category == cats[|cats| - 1]
    ensures OrderedBy(cats, r)
  {
    var n := |cats| - 1;
    var init := cats[..n];
    forall k | 0 <= k < |prev|
      ensures r[k] == prev[k] && prev[k].category in cats && FirstIndex(cats, prev[k].category) < n
    {
      assert r[k] == r[..|prev|][k];
      FirstIndexPrefix(cats, n, prev[k].category);
    }
    if |r| == |prev| + 1 {
      FirstIndexDistinct(cats, n);
    }
    forall i, j | 0 <= i < j < |r| && r[i].category in cats && r[j].category in cats
      ensures FirstIndex(cats, r[i].category) < FirstIndex(cats, r[j].category)
    {
      if j < |prev| {
        FirstIndexPrefix(cats, n, prev[j].category);
      }
    }
  }

  lemma {:induction false} SummariesLength(dirs: map<string, Directory>, cats: seq<string>)
    ensures |SummariesOf(dirs, cats)| <= |cats|
    decreases |cats|
  {
    if cats != [] {
      SummariesLength(dirs, cats[..|cats| - 1]);
    }
  }
}
