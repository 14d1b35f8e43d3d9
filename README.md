# Component inventory and theme manager, in Dafny

This project models two parts of a Nuxt site. Both models are proved in Dafny.

**The component-inventory generator** (`app/components/generate-inventory.js`) reads the `.vue` files of
the `sections`, `layout` and `ui` component directories and builds one descriptor per component:

- its name and `@/components/…` import path;
- its props, read from `interface Props { … }`, with defaults from `withDefaults(defineProps<Props>(), { … })`;
- its events, read from `interface Emits { … }`;
- its slots, read from every `<slot` tag.

It then consolidates the three category inventories into one record with a total count. The
generator's regular expressions become hand-written scanners (module `Patterns`). Each scanner follows
the order in which JavaScript's backtracking matcher tries alternatives, and lemmas tie it to a
declarative description of what the expression accepts. The four extractors (module `Extractors`) are
loops, as in the source. Each loop is proved equal to a specification function, and the lemmas state
what that function yields. `Inventory` builds descriptors, per-directory inventories and the
consolidated record.

**The theme manager** (`app/composables/useThemeManager.ts`) is a class with these fields:

- the current colour theme (`default`, `ocean` or `sunset`);
- the document's `data-theme` attribute;
- local storage;
- the colour-mode preference and resolved value.

`setTheme` and `initTheme` are proved against pure functions on the theme state. The lemmas cover
restoring a saved theme, falling back to `default`, idempotence and what stays unchanged.

Modules: `Wrappers` (Option), `Text` (JavaScript string operations), `Seqs` (filter, filter-map, map,
deduplication), `Sorting` (`Array.prototype.sort` on strings), `Patterns`, `Extractors`, `Inventory`,
`ThemeManager`.

## Model

| member | source | states |
|---|---|---|
| Text.Trim | app/components/generate-inventory.js:58 | `trim` yields the empty string exactly when the line is all JavaScript white space; otherwise the result neither starts nor ends with white space |
| Text.TrimIdempotent | app/components/generate-inventory.js:58 | trimming an already trimmed string changes nothing, as for `String.prototype.trim` |
| Text.TrimIsSlice | app/components/generate-inventory.js:58 | `trim` returns the line's own middle part: a contiguous slice of the line with only white space before and after it |
| Text.Split | app/components/generate-inventory.js:58 | `split('\n')` yields at least one piece, no piece holds a newline, and joining the pieces with newlines gives back the text |
| Text.SplitJoin | app/components/generate-inventory.js:58 | splitting newline-free pieces joined by newlines gives back exactly those pieces |
| Text.RemoveQuotes | app/components/generate-inventory.js:96 | `replace(/['"]/g, '')` leaves no quote, never lengthens, and leaves quote-free text as it is. Every other character is kept as often as it occurs |
| Text.RemoveQuotesSplits | app/components/generate-inventory.js:96 | removing quotes works piecewise: on a concatenation it is the concatenation of the parts' results |
| Seqs.Filter | app/components/generate-inventory.js:195 | `filter` keeps exactly the elements the predicate accepts, and nothing else |
| Seqs.FilterAppend | app/components/generate-inventory.js:195 | `filter` works piecewise over a concatenation, so the kept elements stay in their original order |
| Seqs.FilterCounts | app/components/generate-inventory.js:195 | `filter` keeps each accepted element as often as it occurs and drops every rejected one |
| Seqs.DedupSound | app/components/generate-inventory.js:138-143 | "push unless already included" gives a list without duplicates that holds exactly the input's elements |
| Seqs.DedupFirstSeenOrder | app/components/generate-inventory.js:138-143 | the deduplicated list orders its elements by where each first occurs in the input |
| Sorting.SortStrings | app/components/generate-inventory.js:196 | `sort()` yields a list that is sorted and is a permutation of its input |
| Sorting.SortedUnique | app/components/generate-inventory.js:196 | two sorted permutations of the same names are equal, so the file order is fully determined |
| Patterns.LeftmostBlock | app/components/generate-inventory.js:52 | the block search returns the leftmost position where the whole block pattern matches, and no earlier one matches |
| Patterns.NoHeadNoBlock | app/components/generate-inventory.js:52-53 | without the opening text (`interface Props {`, …) no block is found |
| Patterns.BlockEndsAtFirstClose | app/components/generate-inventory.js:52-55 | the captured block never contains its closer (`}` or `})`): it stops at the first one, so text after a nested `}` is never seen |
| Patterns.MatchKey | app/components/generate-inventory.js:62 | the scanned key part (`^\s*` identifier `\??` `\s*:`) satisfies the declarative key description |
| Patterns.MatchKeyComplete | app/components/generate-inventory.js:62 | the key part matches in only one way, and the scanner finds it |
| Patterns.GreedyThenLazy | app/components/generate-inventory.js:62 | for `\s*(.+?)`, the chosen capture is valid. Its start is the latest one that admits a capture, and for that start its end is the earliest valid one; a failure means no start admits one |
| Patterns.MatchKeyValue | app/components/generate-inventory.js:93 | a match reported for a props or defaults line satisfies the full line pattern |
| Patterns.MatchKeyValueComplete | app/components/generate-inventory.js:62 | whenever the line pattern can match, the scanner reports a match with the same name and colon. Its capture is the one the backtracking engine prefers |
| Patterns.EventAt | app/components/generate-inventory.js:120 | a reported event is a quote, a non-empty run of `[a-z-]`, and a quote at that position |
| Patterns.EventAtComplete | app/components/generate-inventory.js:120 | any quoted `[a-z-]+` run at a position is found there |
| Patterns.LeftmostEvent | app/components/generate-inventory.js:120 | the event search stops at the leftmost position where the event pattern matches |
| Patterns.FirstQuotedEventSpec | app/components/generate-inventory.js:120 | a line has no event exactly when it has no quoted `[a-z-]+` run; otherwise the event is the leftmost such run |
| Patterns.SlotAt | app/components/generate-inventory.js:136 | a `<slot` match ends right after `<slot` unless a well-formed `\s+name="…"` follows; when it does, the name is that attribute's non-empty, quote-free value |
| Patterns.SlotAtComplete | app/components/generate-inventory.js:136 | when a well-formed `name` attribute follows `<slot`, the scanner captures its value |
| Patterns.SlotNamesFrom | app/components/generate-inventory.js:136-139 | the names `matchAll` yields are non-empty and quote-free, with `'default'` for an unnamed tag |
| Patterns.SlotVisited | app/components/generate-inventory.js:136-139 | every `<slot` that `matchAll` reaches contributes its name (the captured name, or `'default'`). A tag is reached when no earlier match runs past it; a tag inside an earlier match's attribute is skipped |
| Patterns.SlotNamesSound | app/components/generate-inventory.js:136-139 | every name `matchAll` yields is the name of some `<slot` tag at or after the start position: nothing is invented |
| Patterns.NoTagNoSlots | app/components/generate-inventory.js:136 | a text without `<slot` yields no slot matches |
| Extractors.ExtractProps | app/components/generate-inventory.js:48-74 | the loop returns `PropsIn`: one prop per matching non-blank line of the first Props block, in order |
| Extractors.NotBlankIsTrimmed | app/components/generate-inventory.js:58 | a line passes the `line => line.trim()` filter exactly when its trimmed form is non-empty |
| Extractors.PropOfLineMatches | app/components/generate-inventory.js:62-63 | a line yields a prop exactly when the props line pattern matches it |
| Extractors.PropOfLineFields | app/components/generate-inventory.js:64-69 | the prop's name is the identifier before the colon, already trimmed. Its type is the trimmed capture of the match the engine reports, and `optional` is `line.includes('?')` |
| Extractors.NameIsIdentifier | app/components/generate-inventory.js:62 | the name capture is an identifier, and the optional mark, when taken, is a `?` |
| Extractors.PropOptionalAnywhere | app/components/generate-inventory.js:68 | `optional` holds exactly when the line has a `?` anywhere. A `?` mark after the name makes it true, and so does a `?` in the type or a trailing comment |
| Extractors.IdentifierUntrimmed | app/components/generate-inventory.js:66 | `name.trim()` leaves an identifier unchanged |
| Extractors.NoPropsBlockNoProps | app/components/generate-inventory.js:52-53 | without `interface Props {` in the file, the props list is empty |
| Extractors.PropsFromLines | app/components/generate-inventory.js:58-71 | there are at most as many props as non-blank block lines, and each prop is the prop of one such line |
| Extractors.ExtractDefaults | app/components/generate-inventory.js:79-101 | the method returns `DefaultsIn`: no block gives an empty object, otherwise the block's entries are assigned in order |
| Extractors.AssignLines | app/components/generate-inventory.js:91-98 | the loop over the kept lines returns their entries assigned in order into an empty object, a later key overwriting an earlier one |
| Extractors.DefaultsSnoc | app/components/generate-inventory.js:91-97 | one more line either leaves the object unchanged (no entry) or assigns its key to its value |
| Extractors.AssignSnoc | app/components/generate-inventory.js:96 | assigning one more entry updates exactly that key |
| Extractors.AssignLastWins | app/components/generate-inventory.js:96 | when a name appears several times, the last entry for it gives the value: a later duplicate overwrites an earlier one |
| Extractors.AssignKeys | app/components/generate-inventory.js:96 | a key is present exactly when some entry names it |
| Extractors.AssignValues | app/components/generate-inventory.js:96 | every stored value is the value of some entry with that key |
| Extractors.DefaultValueUnquoted | app/components/generate-inventory.js:96 | a default read from a line has no `'` or `"` left |
| Extractors.DefaultsHaveNoQuotes | app/components/generate-inventory.js:96 | no default value holds a quote: every quote is removed, not only an outer pair |
| Extractors.KeyLineNotComment | app/components/generate-inventory.js:89 | a line whose key part matches is neither blank nor a `//` comment |
| Extractors.DefaultLineNotComment | app/components/generate-inventory.js:89 | a line the defaults pattern matches passes the blank-and-comment filter |
| Extractors.DefaultsFilterRedundant | app/components/generate-inventory.js:89-98 | the defaults are the same with or without the blank-and-comment filter |
| Extractors.ExtractEvents | app/components/generate-inventory.js:106-127 | the loop returns `EventsIn`: the first quoted `[a-z-]+` run of each non-blank Emits line, in order |
| Extractors.EventNamesAreLowerDashed | app/components/generate-inventory.js:120-122 | every event name is a non-empty run of lower-case letters and dashes, so names such as `update:modelValue` are never reported whole |
| Extractors.EventsKeepDuplicates | app/components/generate-inventory.js:118-124 | two lines naming the same event give two entries: events are not deduplicated |
| Extractors.ExtractSlots | app/components/generate-inventory.js:132-146 | the loop returns `SlotsIn`, the deduplicated `matchAll` names |
| Extractors.SlotsSpec | app/components/generate-inventory.js:136-145 | the slot list has no duplicates and holds exactly the names found, in first-seen order; no name is empty or holds a quote, and each name is that of a `<slot` tag in the text |
| Extractors.NoSlotsIffNoTag | app/components/generate-inventory.js:136-145 | the slot list is empty exactly when the file has no `<slot` |
| Extractors.NamedSlotRecorded | app/components/generate-inventory.js:136-141 | any `<slot` the scan reaches, not only the first, contributes its name when a well-formed `name` attribute directly follows it |
| Extractors.UnnamedSlotIsDefault | app/components/generate-inventory.js:139 | any `<slot` the scan reaches without a following `name` attribute is recorded as `"default"` |
| Inventory.BaseName | app/components/generate-inventory.js:152 | a `.vue` file name loses exactly its `.vue` suffix; other names, and `.vue` itself, are kept |
| Inventory.ParseVueComponent | app/components/generate-inventory.js:151-183 | the descriptor built from the extractors' results is `ComponentOf` of the file, category and text |
| Inventory.EnrichSpec | app/components/generate-inventory.js:160-165 | enrichment keeps the props in order with the same name, type and optional flag. A default is attached exactly when the defaults hold a non-empty value under that name, so `''` becomes absent |
| Inventory.ComponentOfSpec | app/components/generate-inventory.js:174-182 | the descriptor's name is the file without `.vue` and its path is `@/components/<category>/<file>`. `slots` is absent exactly when the file has no `<slot`, and otherwise is the slot list. The events are those extracted |
| Inventory.ImportPathInjective | app/components/generate-inventory.js:174 | for categories without `/`, the import path determines both the category and the file name |
| Inventory.GenerateInventoryForDir | app/components/generate-inventory.js:188-224 | the loop returns `InventoryOf`: none for a missing or `.vue`-free directory, otherwise the count and the readable files' descriptors |
| Inventory.InventorySpec | app/components/generate-inventory.js:194-221 | files are the sorted `.vue` entries and the count is their number, failed reads included. The components are, in that order, the descriptors of exactly the readable files; a failed read skips its file and processing continues |
| Inventory.NoInventorySpec | app/components/generate-inventory.js:189-201 | there is no inventory exactly when the directory is missing or has no `.vue` entry |
| Inventory.GenerateConsolidated | app/components/generate-inventory.js:238-270 | the consolidation loop lists the summaries of the categories in the order sections, layout, ui, and its total is the sum of their counts |
| Inventory.SummariesSound | app/components/generate-inventory.js:259-263 | every listed category has a present inventory, and its count is that inventory's component count |
| Inventory.SummariesComplete | app/components/generate-inventory.js:254-263 | every category whose inventory is present is listed |
| Inventory.SummariesTotal | app/components/generate-inventory.js:264-270 | the total equals the sum of the component counts of the present inventories |
| Inventory.SummariesLength | app/components/generate-inventory.js:254-267 | there are no more summaries than categories |
| Inventory.SummariesListed | app/components/generate-inventory.js:254-263 | a category of the list is listed exactly when its inventory is present |
| Inventory.SummariesOrdered | app/components/generate-inventory.js:254-263 | with distinct categories, every summary names a category of the list, and the summaries follow the list's order, so no category is listed twice |
| Inventory.ConsolidatedSpec | app/components/generate-inventory.js:25-29 | for the fixed categories, a category is listed exactly when its inventory is present. Each count is its component count, there are at most three entries, no category appears twice, the entries come in the order sections, layout, ui, and the total is the sum |
| ThemeManager.ParseThemeRoundTrip | app/composables/useThemeManager.ts:49 | exactly `default`, `ocean` and `sunset` are accepted as saved themes, each as the theme of that name |
| ThemeManager.AvailableThemesComplete | app/composables/useThemeManager.ts:61-77 | every theme is offered exactly once, and every offered value is accepted back |
| ThemeManager.SetThemeEffect | app/composables/useThemeManager.ts:35-41 | `setTheme(t)` makes `t` current. On the client the attribute and the storage entry become `t`, and other storage keys are untouched; off the client the attribute and storage do not change |
| ThemeManager.InitRestoresSavedTheme | app/composables/useThemeManager.ts:47-50 | a saved known theme becomes current and shown, and storage is unchanged |
| ThemeManager.InitFallsBackToDefault | app/composables/useThemeManager.ts:51-54 | a missing or unknown saved value gives `default`, and storage is overwritten with `default` |
| ThemeManager.InitOffClientUnchanged | app/composables/useThemeManager.ts:46-47 | off the client `initTheme` changes nothing |
| ThemeManager.InitSettles | app/composables/useThemeManager.ts:46-56 | after `initTheme` on the client the current theme is an offered one, and it equals the stored and shown theme |
| ThemeManager.InitIdempotent | app/composables/useThemeManager.ts:46-56 | a second `initTheme` changes nothing |
| ThemeManager.SetThenInitKeepsTheme | app/composables/useThemeManager.ts:35-56 | a theme set with `setTheme` survives the next `initTheme` |
| ThemeManager.ThemeManager.constructor | app/composables/useThemeManager.ts:21 | the current theme starts as `default`; the page state is as given |
| ThemeManager.ThemeManager.IsDark | app/composables/useThemeManager.ts:85 | `isDark` holds exactly when the resolved colour mode is `'dark'`; `SetTheme` and `InitTheme` never change it |
| ThemeManager.ThemeManager.SetColorMode | app/composables/useThemeManager.ts:27-29 | the colour-mode preference becomes `mode`, and no other field of the model changes; the framework's reaction to it is left out |
| ThemeManager.ThemeManager.SetTheme | app/composables/useThemeManager.ts:35-41 | the new theme state is `SetThemeSpec` of the old one, and the colour mode is unchanged |
| ThemeManager.ThemeManager.InitTheme | app/composables/useThemeManager.ts:46-56 | the new theme state is `InitThemeSpec` of the old one, and the colour mode is unchanged |

## Left out

- Files, directories and the output file are not modelled directly. This covers `existsSync`, `readdirSync`, `readFileSync`, `writeFileSync`, `path` and `fileURLToPath`. Instead, a category maps to its directory when that directory exists. A directory lists its entries and holds the text of each readable entry, and an entry without text is one whose read throws. The write of `INVENTORY.json` and its `JSON.stringify` layout are not modelled.
- `Inventory.GenerateInventoryForDir` does not model a path that exists but cannot be listed. Such a path might be a regular file named like the directory, or a directory without read permission. The source checks only `existsSync`, so `readdirSync` then throws outside any `try`: `main` stops and writes nothing. A category's directory is either missing or listable here, so the model has no outcome for that abort.
- Console logging, the ANSI colours and the `generated` timestamps are not modelled. They do not affect the data.
- `Sorting.SortStrings` compares Unicode code points. JavaScript's default `sort` compares UTF-16 code units, so the two orders differ only for characters outside the Basic Multilingual Plane.
- `Extractors.DefaultsIn` is a plain map. In JavaScript the defaults are a plain object, so a prop named like an `Object.prototype` member (`constructor`, `toString`, …) picks up that member when it has no default of its own. The model gives no default in that case. Likewise, `Extractors.Assign` stores every key, but a `__proto__` key is never stored in JavaScript: the identifier pattern accepts it, yet the assignment `defaults['__proto__'] = value` is dropped, because the `__proto__` setter ignores a string. Its lookup `defaults[prop.name]` then yields `Object.prototype`, which is truthy, so the source attaches that object as the default where the model attaches the value.
- `Inventory.BaseName` works on a bare file name, as `readdirSync` gives it. Node's `path.basename` also strips directories, which cannot occur here. The file `.vue` keeps its name, as in Node, so it would share the name `.vue` with a file `.vue.vue`.
- `Inventory.ImportPathInjective` assumes categories without `/`. The three fixed categories satisfy this.
- Blocks are searched only as the regular expressions do. The model does not parse TypeScript or Vue templates: the generator does not either.
- `ThemeManager.ThemeManager.constructor`: `useState('theme', () => 'default')` shares one theme across every caller. The initial `default` applies only when the state is first created. The model gives each manager its own theme.
- The colour-mode framework (`@nuxtjs/color-mode`) is not modelled; only the assignment the composable itself makes is. `colorModeValue` stands for the value `useColorMode` resolves, which the framework derives from the preference and the system setting. That derivation is not modelled, so `IsDark` reads the field.
- `ThemeManager.ThemeManager.SetColorMode` models only the assignment `colorMode.preference = mode`. After it, the framework saves the preference in local storage under the key `propulsite-color-mode` (nuxt.config.ts:64-69) and re-resolves `colorMode.value`, and so `isDark`. The model's storage and `colorModeValue` stay unchanged, so in the model `SetColorMode` never changes `IsDark()`; that holds of the model only.
- `ThemeManager.ThemeManager.InitTheme` assumes the storage calls succeed. Browser exceptions from `localStorage` (a disabled store, a full quota) are not modelled, and neither is reactivity (`readonly`, `computed`).
- The `label` of an available theme is named `caption` in the model, because `label` is a reserved word in Dafny.
- The rest of the repository is not part of this model: the plugin that calls `initTheme` on start-up, the Nuxt, Tailwind and Vitest configuration, the components and their tests.
