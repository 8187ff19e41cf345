# Matching exercise: a Dafny model

This project models the matching-exercise widget of a browser extension, together with the two pieces around it.

**The widget.** A learner matches terms to definitions. They do it by dragging a term onto a definition's drop zone, or by clicking a term and then a zone. The widget keeps three pieces of state:

- a mapping from definition index to term index;
- the click selection;
- a flag that swaps which side is draggable.

Every change is reported through an `onUpdateInput(definitionIndex, termIndex)` callback. The model has:

- the mapping, the selection and the flag as fields of a class;
- the callback as an append-only log of notices;
- each handler as a method;
- the views the handlers consult as pure functions: used sets, the sorted pool, the drag-payload guards and the zone lookups.

**The host-form bridge.** It reads a host page's matching table into terms, definitions and answer inputs. It decodes each input's 1-based value into a term index, and writes every notice back into the input it names.

**The release script's version rule.** It parses `major.minor.patch` and bumps the version by type, then forms the tag and the commit message.

Files, one module each:

- `js_text.dfy`: the JavaScript conversions the code relies on. These are `trim`, `parseInt`, `Number`, integer `toString` and one-character `split`.
- `matching_state.dfy`: the mapping and the rules and views over it.
- `available_items.dfy`: the pool filter and the sort by text.
- `matching_exercise.dfy`: the widget class and its handlers.
- `matching_lesson.dfy`: the host table, reading its rows, the input encoding, and keeping the form in sync.
- `release.dfy`: the version bump.

Three behaviours of the code are modelled as written:

- **Notice order of a drop.** `handleDrop(d, t)` reports `(d, t)` first. Only after that does it report `(k, null)` for each other definition `k` that held `t`, in ascending key order. The model follows the code.
- **Seeding versus removal.** Seeding stores an explicit `null` for a definition with no stored answer, whereas removal deletes the key. So `handleRemoveTerm` still reports `(d, null)` for a key seeded with `null`.
- **No range check on zone drops.** A drop on a zone accepts any payload `parseInt` reads as a number.

## Model

| member | source | states |
|---|---|---|
| JsText.Trim | src/matchingLesson.ts:65 | the trimmed text starts and ends with a non-white-space character |
| JsText.TrimKeeps | src/matchingLesson.ts:68 | a string with no white space at either end is its own trim |
| JsText.TrimSpec | src/matchingLesson.ts:68 | `trim` cuts exactly the runs of white space around the text, and nothing of the text itself |
| JsText.LeadingSpacesAppend | src/matchingLesson.ts:68 | a run of white space in front adds exactly its length to what is skipped |
| JsText.TrailingStartOf | src/matchingLesson.ts:68 | the white space cut at the back is exactly the trailing run |
| JsText.TrimStartSkips | src/MatchingExercise.tsx:360 | white space in front does not change what is left once the leading white space is skipped |
| JsText.ParseIntOfDigits | src/MatchingExercise.tsx:360 | `parseInt` reads an optional minus sign and the longest run of digits, and ignores what follows |
| JsText.ParseIntSkipsSpace | src/MatchingExercise.tsx:360 | `parseInt` skips leading white space |
| JsText.ParseIntNotANumber | src/MatchingExercise.tsx:360 | text that starts, after white space, with neither a sign nor a digit is NaN to `parseInt` |
| JsText.NumberOfDigits | scripts/release.js:44 | `Number` reads an optionally negated run of digits |
| JsText.NumberOfBlank | src/matchingLesson.ts:63 | `Number` of blank text is 0, not NaN |
| JsText.NumberRejectsTail | scripts/release.js:44 | unlike `parseInt`, `Number` rejects a number followed by a character other than white space, a digit or a decimal point, so "12px" is NaN |
| JsText.IntToString | src/matchingLesson.ts:84 | `toString` of an integer is non-empty, has no white space at either end and no dot, and is all digits exactly for a non-negative number |
| JsText.NatToStringValue | src/MatchingExercise.tsx:308 | the digits written for a natural number have that number as their value |
| JsText.ParseIntOfIntToString | src/MatchingExercise.tsx:360 | `parseInt` reads back every integer `toString` wrote, so a drag payload names the item that was dragged |
| JsText.ParseIntIgnoresTail | src/matchingLesson.ts:69 | `parseInt` stops at the first non-digit after the number, so "12px" reads as 12; a lone "0" before "x" or "X" is excluded, since that is a hexadecimal prefix |
| JsText.NumberOfIntToString | scripts/release.js:44 | `Number` reads back every integer `toString` wrote |
| JsText.Split | scripts/release.js:44 | `split` yields at least one piece, no piece contains the separator, and a string without the separator is its own only piece |
| JsText.SplitCons | scripts/release.js:44 | the text before the first separator is split off as the first piece |
| MatchingState.Lookup | src/MatchingExercise.tsx:216-218 | a definition holds a term exactly when its key is present with a non-null value |
| MatchingState.Seed | src/MatchingExercise.tsx:53-58 | the initial mapping has a key for exactly the indices the definitions carry |
| MatchingState.SeedValue | src/MatchingExercise.tsx:53-58 | each seeded key holds that definition's stored term, null included, unless a later definition reuses the index |
| MatchingState.SeedPositional | src/MatchingExercise.tsx:53-58 | with positional indices the keys are exactly `0..n-1`, each holding its own definition's stored term |
| MatchingState.Ascending | src/MatchingExercise.tsx:80 | the keys in the order `Object.entries` visits integer keys: every key once, strictly ascending |
| MatchingState.DropResult | src/MatchingExercise.tsx:76-91 | after a drop `d` holds `t`, every other key that held `t` is gone, and every other key is unchanged |
| MatchingState.ClearNotices | src/MatchingExercise.tsx:80-86 | the scan reports at most one clear per key it visits |
| MatchingState.ClearNoticesSound | src/MatchingExercise.tsx:80-86 | the loop only clears keys that held `t` and are not `d`, and only to null |
| MatchingState.ClearNoticesComplete | src/MatchingExercise.tsx:80-86 | the loop clears every such key, in strictly ascending key order |
| MatchingState.DropNotices | src/MatchingExercise.tsx:73 | a drop's first notice is `(d, t)` |
| MatchingState.DropNoticesShape | src/MatchingExercise.tsx:73-86 | after `(d, t)` a drop reports `(k, null)` exactly for the displaced keys, in ascending order, and nothing else |
| MatchingState.PlainDropNotices | src/MatchingExercise.tsx:71-91 | a drop onto a term no other definition holds reports exactly `(d, t)` |
| MatchingState.DisplacingDropNotices | src/MatchingExercise.tsx:71-91 | while no two definitions share a term, moving `t` from `k` to `d` reports exactly `(d, t)` then `(k, null)` |
| MatchingState.DropKeepsUnique | src/MatchingExercise.tsx:76-91 | a drop preserves "no two definitions share a term", and afterwards only `d` holds `t` whatever the mapping was |
| MatchingState.DropUsedTerms | src/MatchingExercise.tsx:76-91 | after a drop the placed terms are the old ones, less the term `d` held, plus `t` |
| MatchingState.RemoveResult | src/MatchingExercise.tsx:104-108 | removal deletes exactly key `d`, whatever its value, and keeps every other key and value |
| MatchingState.RemoveFacts | src/MatchingExercise.tsx:98-110 | removal preserves uniqueness and is idempotent; it returns `d`'s term to the pool and drops `d` from the used definitions |
| MatchingState.UsedTerms | src/MatchingExercise.tsx:207-209 | the used terms are exactly the non-null values of the mapping |
| MatchingState.UsedDefinitions | src/MatchingExercise.tsx:124-126 | the used definitions are exactly the keys whose value is non-null |
| MatchingState.UsedAfterRemoval | src/MatchingExercise.tsx:98-110 | removing a matched key takes exactly its term out of the used terms and exactly itself out of the used definitions |
| MatchingState.UsedCardinality | src/MatchingExercise.tsx:124-126 | while no two definitions share a term, there are as many used terms as used definitions |
| MatchingState.FirstHolder | src/MatchingExercise.tsx:114-119 | the scan for term `t` finds a holder exactly when `t` is used, and the one it finds is the smallest key holding `t` |
| MatchingState.FindTerm | src/MatchingExercise.tsx:219 | the lookup finds a term with the index exactly when one exists |
| MatchingState.FindTermIsFirst | src/MatchingExercise.tsx:219 | the term found is the first one carrying the index |
| MatchingState.FindDefinition | src/MatchingExercise.tsx:168 | the lookup finds a definition with the index exactly when one exists |
| MatchingState.FindDefinitionIsFirst | src/MatchingExercise.tsx:168 | the definition found is the first one carrying the index |
| MatchingState.NormalZoneItem | src/MatchingExercise.tsx:216-220 | a definition's zone shows the term it holds; an absent key, a null value or an unknown index shows no chip |
| MatchingState.SwappedZoneItem | src/MatchingExercise.tsx:164-169 | when swapped, a term's zone shows the definition of the first key holding that term, and nothing when the term is unused |
| MatchingState.ZonePair | src/MatchingExercise.tsx:177-184 | a zone gesture assigns `(zone, item)` in the normal orientation and `(item, zone)` when swapped |
| MatchingState.ZoneDrop | src/MatchingExercise.tsx:360-363 | a zone drop is ignored exactly when the payload is NaN; any number is accepted, with no range check |
| MatchingState.PoolDrop | src/MatchingExercise.tsx:272-275 | a pool drop acts exactly when the payload parses to a used index; it unassigns a matched definition; in the normal orientation that is the smallest key holding the dropped term |
| MatchingState.ChipOwner | src/MatchingExercise.tsx:186-190 | a chip click unassigns a matched definition exactly when the zone shows a chip: the zone's own definition, or, when swapped, the smallest key holding the zone's term |
| AvailableItems.TextLeTotal | src/MatchingExercise.tsx:257 | any two texts are comparable |
| AvailableItems.TextLeTransitive | src/MatchingExercise.tsx:257 | the text order is transitive |
| AvailableItems.TextLeReflexive | src/MatchingExercise.tsx:257 | the text order is reflexive |
| AvailableItems.TextLeAntisymmetric | src/MatchingExercise.tsx:257 | texts ordered both ways are equal, so the text order is a total order |
| AvailableItems.Unused | src/MatchingExercise.tsx:256 | the filter keeps exactly the items whose index is not used |
| AvailableItems.UnusedCounts | src/MatchingExercise.tsx:256 | the filter keeps each item with an unused index as often as it occurs, and no other item |
| AvailableItems.UnusedPick | src/MatchingExercise.tsx:256 | the `k`-th kept item is the item at the `k`-th kept position |
| AvailableItems.UnusedOrdered | src/MatchingExercise.tsx:256 | the kept positions are strictly increasing, so the filter keeps the input order |
| AvailableItems.UnusedKeepsAll | src/MatchingExercise.tsx:256 | every position holding an item with an unused index is kept |
| AvailableItems.UnusedShrinks | src/MatchingExercise.tsx:256 | a larger used set keeps no more items |
| AvailableItems.InsertPermutes | src/MatchingExercise.tsx:257 | inserting adds the item and keeps every other one |
| AvailableItems.InsertSorted | src/MatchingExercise.tsx:257 | inserting into a sorted sequence keeps it sorted |
| AvailableItems.SortByText | src/MatchingExercise.tsx:257 | the sort is a permutation of its input, in text order |
| AvailableItems.InsertStable | src/MatchingExercise.tsx:257 | an inserted item lands ahead of every item of its own text already present |
| AvailableItems.SortStable | src/MatchingExercise.tsx:257 | the sort is stable: items sharing a text keep their input order |
| AvailableItems.Available | src/MatchingExercise.tsx:255-257 | the pool is a permutation of the unused items, in text order, and holds exactly the items whose index is not used |
| AvailableItems.AvailableOrdered | src/MatchingExercise.tsx:255-257 | any two pool items, not only neighbours, are in text order |
| AvailableItems.AvailableShrinks | src/MatchingExercise.tsx:255-257 | when more indices are used, the pool only loses items |
| MatchingExercise.TermItems | src/MatchingExercise.tsx:201-202 | the term pool's items are the terms' indices and texts, in order |
| MatchingExercise.DefinitionItems | src/MatchingExercise.tsx:145-146 | the definition pool's items are the definitions' indices and texts, in order |
| MatchingExercise.PoolAfterDrop | src/MatchingExercise.tsx:201-209 | a dropped term leaves the term pool, and the term `d` held before comes back |
| MatchingExercise.PoolAfterRemove | src/MatchingExercise.tsx:201-209 | a removed definition's term comes back to the term pool |
| MatchingExercise.MatchingExercise.Pool | src/MatchingExercise.tsx:255-257 | the pool shows exactly the unused terms, or the unused definitions when swapped, each as often as the filter keeps it, in text order |
| MatchingExercise.MatchingExercise.constructor | src/MatchingExercise.tsx:53-64 | the widget starts with the seeded mapping, no selection, the normal orientation and no notice |
| MatchingExercise.MatchingExercise.HandleSelectItem | src/MatchingExercise.tsx:66-69 | selecting the selected item clears the selection; selecting any other item replaces it |
| MatchingExercise.MatchingExercise.HandleDrop | src/MatchingExercise.tsx:71-96 | the mapping becomes the drop's result, the drop's notices are appended in order, and the selection is cleared |
| MatchingExercise.MatchingExercise.ClearOtherHolders | src/MatchingExercise.tsx:76-87 | the loop keeps every key except the displaced ones, and reports one clear per displaced key in scan order |
| MatchingExercise.MatchingExercise.HandleRemoveTerm | src/MatchingExercise.tsx:98-110 | a present key, null included, is deleted and reported as `(d, null)`; an absent key changes nothing |
| MatchingExercise.MatchingExercise.HandleDropToAvailable | src/MatchingExercise.tsx:112-121 | only the first definition holding the term is unassigned, with one notice; a term nobody holds changes nothing |
| MatchingExercise.MatchingExercise.DropDefinitionToAvailable | src/MatchingExercise.tsx:148-153 | when swapped, a dropped definition that is a key is unassigned; otherwise nothing changes |
| MatchingExercise.MatchingExercise.ToggleSwapped | src/MatchingExercise.tsx:134 | the swap flips the orientation and changes neither the mapping, the selection nor the log |
| MatchingExercise.MatchingExercise.ClickZone | src/MatchingExercise.tsx:366-370 | a zone click does nothing without a selection; with one, it drops the selected item there in the current orientation and clears the selection |
| MatchingExercise.MatchingExercise.DropOnZone | src/MatchingExercise.tsx:356-364 | a NaN payload changes nothing; any other payload is a drop in the current orientation |
| MatchingExercise.MatchingExercise.DropOnPool | src/MatchingExercise.tsx:268-276 | a pool drop unassigns the definition the guard picks, with one notice, and otherwise changes nothing |
| MatchingExercise.MatchingExercise.ClickChip | src/MatchingExercise.tsx:385-390 | a chip click unassigns the chip's definition without touching the selection; a zone without a chip changes nothing |
| MatchingLesson.AnswerInput | src/matchingLesson.ts:59 | the answer input found is one of the row's inputs, named `ans_…` and not hidden |
| MatchingLesson.AnswerInputNone | src/matchingLesson.ts:59 | a row has no answer input exactly when none of its inputs qualifies |
| MatchingLesson.AnswerInputIsFirst | src/matchingLesson.ts:59 | the answer input is the first input that qualifies |
| MatchingLesson.EntryOf | src/matchingLesson.ts:57-61 | a row takes part exactly when it has a term, a definition and an answer input |
| MatchingLesson.Entries | src/matchingLesson.ts:56-61 | no more rows take part than the table has |
| MatchingLesson.EntryRowPick | src/matchingLesson.ts:56-61 | entry `k` is what the row at the `k`-th contributing position yields |
| MatchingLesson.EntryRowsOrdered | src/matchingLesson.ts:56-61 | the contributing positions are strictly increasing, so the entries keep the table order |
| MatchingLesson.EntryRowsComplete | src/matchingLesson.ts:56-61 | every row with a term, a definition and an answer input takes part |
| MatchingLesson.EntriesMembers | src/matchingLesson.ts:56-61 | the entries are exactly what the accepted rows yield |
| MatchingLesson.IdentOfNumber | src/matchingLesson.ts:63 | an `ident` attribute holding a number reads as that number; a missing or blank one reads as 0 |
| MatchingLesson.Encode | src/matchingLesson.ts:84 | null is written as the empty string and only null is; a term index `t` is written as text `parseInt` reads as `t + 1` |
| MatchingLesson.DecodeOfNumber | src/matchingLesson.ts:68-72 | a number `n`, whatever white space surrounds it, decodes to the term index `n - 1` |
| MatchingLesson.DecodeNotANumber | src/matchingLesson.ts:68-72 | a value starting with neither a sign nor a digit decodes to null |
| MatchingLesson.DecodeEncode | src/matchingLesson.ts:68-84 | decoding reads back what `updateInput` wrote, for every term index and for null |
| MatchingLesson.DecodeBlank | src/matchingLesson.ts:68-69 | an empty or blank value decodes to null |
| MatchingLesson.DecodeZero | src/matchingLesson.ts:69 | "0" decodes to -1 and is not rejected |
| MatchingLesson.CollectRows | src/matchingLesson.ts:56-78 | the contributing rows, in order, give term `i`, definition `i` and input `i`, with positional indices and equal lengths; each definition holds its input's decoded value |
| MatchingLesson.SetupMatchingExercise | src/matchingLesson.ts:45-96 | a processed table is left alone; otherwise it is marked; a table with rows gets a widget seeded from its rows and is hidden |
| MatchingLesson.UpdateInput | src/matchingLesson.ts:81-87 | only input `d` changes, to the encoded term; an index with no input changes nothing; on distinct inputs the new values are `Apply` of the old ones |
| MatchingLesson.Apply | src/matchingLesson.ts:81-87 | one notice changes only the input it names, which then decodes to the notified term |
| MatchingLesson.ApplyAll | src/matchingLesson.ts:81-87 | replaying notices keeps the number of inputs |
| MatchingLesson.SeedInSync | src/matchingLesson.ts:68-74 | a widget seeded from the decoded inputs agrees with every input |
| MatchingLesson.SetupInSync | src/matchingLesson.ts:68-74 | the widget a table sets up agrees with the inputs it was read from |
| MatchingLesson.ApplyClears | src/MatchingExercise.tsx:85 | writing a drop's clears blanks exactly the displaced inputs and leaves the others as they were |
| MatchingLesson.DropInSync | src/MatchingExercise.tsx:71-96 | writing a drop's notices into a form that agreed with the widget leaves it agreeing with the new mapping |
| MatchingLesson.RemoveInSync | src/MatchingExercise.tsx:98-110 | writing a removal's notice keeps the form in agreement with the widget |
| Release.VersionType | scripts/release.js:13 | a missing or empty argument means "patch"; any other argument is taken as given |
| Release.Component | scripts/release.js:44 | a destructured part is `undefined` exactly when the version has fewer parts |
| Release.Parse | scripts/release.js:44 | the major part is never `undefined`; a version without a dot has `undefined` minor and patch; a missing minor means a missing patch |
| Release.Succ | scripts/release.js:50-57 | adding one keeps a number a number and turns NaN and `undefined` into NaN |
| Release.Show | scripts/release.js:50-57 | a printed part contains no dot |
| Release.NewVersion | scripts/release.js:47-59 | whatever the current version, the new version has exactly three dot-separated parts |
| Release.Bumped | scripts/release.js:47-59 | the numeric bump is strictly greater in (major, minor, patch) order |
| Release.ComponentOfInt | scripts/release.js:44 | a part written by `toString` reads back as its number |
| Release.SplitThree | scripts/release.js:44 | three dot-free parts joined by dots split back into themselves |
| Release.ParseFormat | scripts/release.js:44 | a well-formed version parses to its three numbers |
| Release.NewVersionOfNumbers | scripts/release.js:47-59 | on three numbers, "major" gives `(M+1).0.0`, "minor" gives `M.(m+1).0`, and "patch" or any other type gives `M.m.(p+1)` |
| Release.NewVersionFormat | scripts/release.js:44-59 | on a well-formed version the script's bump prints the numeric bump |
| Release.BumpRoundTrip | scripts/release.js:44-59 | the bumped version parses back to the bumped triple, which is strictly greater than the old one |
| Release.TwoPartVersion | scripts/release.js:44-57 | a two-part version is patched into `M.m.NaN` |
| Release.ReleasePlan | scripts/release.js:63-82 | both manifests get the same new version, of three dot-separated parts; the tag is `v` and that version; the commit message is `chore: bump version to v` and that version |
| Release.ReleaseFromFormat | scripts/release.js:63-82 | both manifests get the same bumped version; the tag is `v` and that version; the commit message is `chore: bump version to v` and that version; with no argument the patch is bumped |

## Left out

- Rendering is not modelled: JSX, styles, the drag-over highlight and the drag opacity are presentation.
- React's updater scheduling and StrictMode's double call of the drop updater are not modelled. Each handler runs once and synchronously, and the updater sees the current mapping.
- Document queries, `createRoot`, the container element, the `input` event and `table.style` are not modelled. The table is its rows, a processed flag and a hidden flag.
- The MutationObserver and its debounce timer are not modelled; they only re-run the setup.
- Git, file reads and writes, console output and `process.exit` in the release script are not modelled. The plan records what they receive.
- MatchingState.Ascending: `Object.entries` visits only the array-index keys (0 to 2^32 − 2) in ascending order. Negative keys and keys of 2^32 − 1 and above follow them in insertion order. The model visits every key in ascending order. Such keys arise only from a swapped-orientation drop whose payload is negative or very large, such as "5000000000".
- AvailableItems.SortByText: `localeCompare` is replaced by lexicographic order on code points, another total order. Locale collation is not modelled.
- JsText.ParseInt: white space, a sign and decimal digits are read. Hexadecimal prefixes and the limits of double precision are not modelled.
- JsText.Number: exponents, fractions, hexadecimal, `Infinity` and double precision are not modelled. Such strings read as NaN.
- JsText.IntToString: the exponent form JavaScript prints for magnitudes of 1e21 and above is not modelled.
- The other files of the repository (grading buttons, grading page, popup, background and content scripts, build configuration) are not part of this model.
