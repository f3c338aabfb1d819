# ng-select option tree

A model of the option tree behind the ng-select Angular select widget. The tree is made of two
mutually recursive classes:

- `Option` (projects/ng-select/src/lib/option.ts) wraps one input record (an `IOption`) and holds
  four flags: `disabled`, `highlighted`, `selected` and `shown`. When the record has a
  `children` property, it also owns a nested `OptionList` built from that property.
- `OptionList` (src/option-list.ts) holds the options of one level and a `highlightedOption` field. It
  also holds the `hasShown` cache of the last filter. It implements:
  - selection: `select`, `deselect`, `clearSelection`, and the `value` getter and setter;
  - the selection queries: `hasSelected` and `getSelected`;
  - the text filter over labels, which also shows the parents of hits;
  - keyboard highlighting: `highlight`, `highlightNextOption`, `highlightPreviousOption`;
  - the order-insensitive comparison `equalValues`.

The Dafny project has six modules:

- `Input` holds the records the tree is built from, with JavaScript's null/undefined as `None`.
- `Text` holds what `filter` does with strings:
  - the blank test of `String.prototype.trim`;
  - the split into terms at single spaces;
  - the substring test of `indexOf`.
- `Values` holds `equalValues`, with the sort of `Array.prototype.sort` as a proved insertion sort.
- `Marks` holds the index scans (`for … return i; return -1`) and highlight writes. A
  write is the value one assignment puts into one `highlighted` flag. Replaying the writes in
  order gives the final flags.
- `Select` holds the two classes. The shape of the tree is `const`. The flags, the `highlightedOption` and
  the cache are fields the methods assign. Every method states its whole new state in terms of
  the old one. A non-blank filter is specified by:
  - `FilteredBy`: which options end up shown;
  - `Refreshed`: the `highlightedOption` fields and caches it leaves in every list it filters;
  - `FilterWrites`: the ordered flag writes of all the nested `highlight` calls.
- `Findings` holds a concrete tree on which `highlight` flags a hidden option, and a corrected
  choice of the option to highlight.

A few behaviours of the code are modelled exactly as written:

- `clearSelection` of both classes drops the result of `Array.prototype.concat`. So
  `OptionList.clearSelection` always returns an empty array, and `Option.clearSelection` returns
  at most the option itself.
- `highlight` may point a list at an option of a nested list.
- Several options of one level can end up highlighted (see Findings).

## Model

| member | source | states |
|---|---|---|
| Input.Items | src/option-list.ts:22-24 | a null or undefined array reads as empty; otherwise its items are kept |
| Input.ChildInput | projects/ng-select/src/lib/option.ts:23-25 | the child list of a record with a `children` property holds exactly that array's records, or none when it is null |
| Text.TrimStart | src/option-list.ts:106 | the result is a suffix of the input that starts with a character `trim` keeps |
| Text.TrimEnd | src/option-list.ts:106 | the result is a prefix of the input that ends with a character `trim` keeps |
| Text.Trim | src/option-list.ts:106 | `trim`, as TrimStart then TrimEnd; `Text.BlankIffWhitespace` states what it leaves |
| Text.Blank | src/option-list.ts:106 | the test `search.trim() === ''`; `Text.BlankIffWhitespace` proves it holds exactly when every character is white space or a line terminator |
| Text.TrimStartEmpty | src/option-list.ts:106 | trimming the front leaves nothing exactly when every character is white space or a line terminator |
| Text.BlankIffWhitespace | src/option-list.ts:106 | `search.trim() === ''` holds exactly when every character is one `trim` removes |
| Text.TrimEndKeepsNonSpace | src/option-list.ts:106 | trimming the end never removes a character that `trim` keeps |
| Text.Split | src/option-list.ts:112 | splitting always yields at least one piece |
| Text.JoinSplit | src/option-list.ts:112 | joining the pieces of `split(' ')` with the separator gives back the search |
| Text.SplitPiecesFree | src/option-list.ts:112 | no piece of a split contains the separator |
| Text.NonEmpty | src/option-list.ts:112 | dropping the empty terms never lengthens the list |
| Text.NonEmptyKeeps | src/option-list.ts:112 | a term survives `filter(term => term.length > 0)` exactly when it is a non-empty piece |
| Text.Terms | src/option-list.ts:112 | the search cut at every space, empty pieces dropped; `Text.TermsPieces`, `Text.NoTermsIffSpaces` and `Text.SpaceFreeTerm` state what it yields |
| Text.TermsPieces | src/option-list.ts:112 | every search term is non-empty and contains no space |
| Text.SplitAllEmpty | src/option-list.ts:112 | every piece of a split is empty exactly when every character is the separator |
| Text.NoTermsEmptyPieces | src/option-list.ts:112 | with no terms, every piece of the split is empty |
| Text.TermsNonEmptyPiece | src/option-list.ts:112 | with some term, some piece of the split is non-empty |
| Text.NoTermsIffSpaces | src/option-list.ts:106-112 | a search yields no terms exactly when it consists of spaces only |
| Text.NonBlankHasTerms | src/option-list.ts:106-112 | a search that is not blank after `trim` has at least one term |
| Text.TabStaysInTerm | src/option-list.ts:112 | terms are split at spaces only, so "a\tb" is one term |
| Text.TabIsBlank | src/option-list.ts:106 | a search of one tab is blank and resets the filter |
| Text.SplitNoSep | src/option-list.ts:112 | a string without the separator splits into itself alone |
| Text.SpaceFreeTerm | src/option-list.ts:112 | a non-empty search without spaces is its own single term |
| Text.IndexOfFrom | src/option-list.ts:126 | the result is -1 or the first position at or after the start where the needle occurs |
| Text.IndexOf | src/option-list.ts:126 | `l.indexOf(t)`, the search from position 0; `Text.IndexOfFinds` proves it is above -1 exactly when `t` occurs in `l` |
| Text.IndexOfFinds | src/option-list.ts:126 | `l.indexOf(t) > -1` holds exactly when `t` occurs in `l` |
| Text.MatchesAll | src/option-list.ts:123-131 | `terms.every(...)` with the `indexOf` test; `Text.MatchesAllOccurs` proves it holds exactly when every normalised term occurs in the label |
| Text.MatchesAllOccurs | src/option-list.ts:123-129 | a label matches exactly when every normalised term occurs in it |
| Values.BelowReflexive | src/option-list.ts:290-291 | the sort order puts every string at or before itself |
| Values.BelowTotal | src/option-list.ts:290-291 | any two strings are comparable in the sort order |
| Values.BelowAntisymmetric | src/option-list.ts:290-291 | two strings each at or before the other are equal |
| Values.BelowTransitive | src/option-list.ts:290-291 | the sort order is transitive |
| Values.Insert | src/option-list.ts:290-291 | inserting adds exactly one occurrence of the value and keeps a sorted list sorted |
| Values.Sort | src/option-list.ts:290-291 | the sorted copy is a permutation of the values, in order |
| Values.SortedHeads | src/option-list.ts:290-295 | two sorted permutations of each other start with the same value |
| Values.SortedUnique | src/option-list.ts:290-295 | two sorted permutations of each other are identical, so `slice().sort()` depends only on the multiset |
| Values.EqualValues | src/option-list.ts:284-296 | equal lengths, then the two sorted copies compared position by position; `Values.EqualValuesIffPermutation` proves it holds exactly when the arrays are permutations of each other |
| Values.EqualValuesIffPermutation | src/option-list.ts:284-296 | `equalValues` holds exactly when the two arrays hold the same values with the same multiplicities |
| Values.EqualValuesLength | src/option-list.ts:286-288 | arrays of different lengths are never equal |
| Values.EqualValuesCommutes | src/option-list.ts:284-296 | the comparison is symmetric |
| Values.EqualValuesIgnoresOrder | src/option-list.ts:284-296 | reordering either array does not change the answer |
| Marks.FirstTrue | src/option-list.ts:221-228 | the result is the first set position, or -1 exactly when none is set |
| Marks.Both | src/option-list.ts:274-281 | position by position, an option counts when it is both shown and selected |
| Marks.Replay | src/option-list.ts:187-194 | a flag that no write targets keeps its value |
| Marks.ReplayAppend | src/option-list.ts:155 | replaying two runs of writes one after the other equals replaying them joined |
| Marks.InOrderDistinct | src/option-list.ts:49-51 | a subsequence picked in order from a duplicate-free array is duplicate-free |
| Marks.AppendDistinct | src/option-list.ts:250 | pushing a duplicate-free array with no common element onto another keeps it duplicate-free |
| Select.ShownOf | src/option-list.ts:97-101 | exactly the shown options, each once, in array order |
| Select.SelectedOf | src/option-list.ts:70-74 | exactly the selected options, each once, in array order |
| Select.WithValue | src/option-list.ts:48-52 | exactly the options with the value, each once, in array order |
| Select.Descend | src/option-list.ts:180-182 | an option with a non-empty child list is replaced by that list's first option; others are kept |
| Select.Candidate | src/option-list.ts:177-178 | null exactly when no option is shown; otherwise the first shown and selected option when there is one, else the first shown option |
| Select.Pick | src/option-list.ts:176-182 | the candidate, descended; null exactly when no option of the level is shown |
| Select.PickUntouched | src/option-list.ts:34-39 | on a fresh list, every option is shown and unselected, so highlight picks the first option, descended |
| Select.Option.constructor | projects/ng-select/src/lib/option.ts:14-26 | the flags start false, false, false, true; a child list exists exactly when the record has `children`; the child list mirrors those records and is a child list |
| Select.Option.HasChildren | projects/ng-select/src/lib/option.ts:36-38 | a child list exists and is non-empty; `Select.Descend` states what `highlight` does with it |
| Select.Option.HasSelected | projects/ng-select/src/lib/option.ts:40-42 | true exactly when some option strictly below this one is selected; the option's own flag does not count |
| Select.Option.GetSelected | projects/ng-select/src/lib/option.ts:44-46 | exactly the selected options strictly below, each once; its order is stated by `Select.Option.SelectedOrder` |
| Select.Option.SelectedOrder | projects/ng-select/src/lib/option.ts:44-46 | the result is the child list's `getSelected`, in its order: the selected options of the child list first, then, for each of them in turn, the selection below it, each in that option's own order |
| Select.Option.ClearSelection | projects/ng-select/src/lib/option.ts:48-57 | deselects the whole subtree and returns the option itself only when it was selected |
| Select.Option.SetSelected | projects/ng-select/src/lib/option.ts:60-66 | every option of the subtree ends selected exactly when its value is in `v` |
| Select.PositionOf | projects/ng-select/src/lib/option.ts:61 | `indexOf` gives the first position of the value, or -1 exactly when it is absent |
| Select.Step | src/option-list.ts:200-201 | the neighbour `d` places away from position `k`, or null when that position is outside the array |
| Select.LitEffect | src/option-list.ts:187-194 | after `highlightOption`, the new target is flagged, the old one is cleared, and every other flag is unchanged |
| Select.AnyReach | src/option-list.ts:114-135 | the first pass reports `anyShown` exactly when some option has a hit or a child list with a hit |
| Select.ReachMarks | src/option-list.ts:114-135 | position by position, whether each option is reached by the search |
| Select.SomeShown | src/option-list.ts:146 | `some(option => option.shown)` holds exactly when some option is shown |
| Select.WritesInside | src/option-list.ts:103-159 | every flag a filter writes belongs to the filtered tree |
| Select.ReplayOutside | src/option-list.ts:103-159 | a filter leaves the flag of every option outside the tree unchanged |
| Select.RefreshedKept | src/option-list.ts:103-159 | whether a tree's `highlightedOption` fields and caches match its filter depends only on those fields and on the selection |
| Select.Hit | src/option-list.ts:123-131 | the label test of the first pass: `Text.MatchesAllOccurs` proves it holds exactly when every normalised term occurs in the normalised label |
| Select.FilterOption | src/option-list.ts:114-135 | an option ends shown exactly when its label matches; its child list is filtered; the result says whether it or a child was reached; the flags follow the child filter's writes |
| Select.SetShown | src/option-list.ts:115 | sets one `shown` flag and leaves the child list's filter state and writes unchanged |
| Select.FilterChildList | src/option-list.ts:116-121 | a recursive filter of the child list: it shows the hits, refreshes `highlightedOption` fields and caches, and reports a hit |
| Select.RevealParent | src/option-list.ts:137-152 | a hit shows its whole child list; a miss with a shown child is shown itself |
| Select.OptionList.constructor | src/option-list.ts:19-40 | one option per record, at every depth, each mirroring its record and carrying its `disabled` flag; every option is shown and unselected; every cache is "non-empty"; only a top-level list highlights, and it highlights its first option, descended |
| Select.OptionList.HighlightFirst | src/option-list.ts:36-39 | a fresh top-level list points at its first option, descended, and flags only that option |
| Select.OptionList.NewOption | src/option-list.ts:27-31 | a new option is built from its record, with fresh objects below it, all untouched, and is disabled exactly when the record is |
| Select.OptionList.BuildOptions | src/option-list.ts:26-32 | one new option per record, in order, each built from its record; no two options share an object below them |
| Select.OptionList.Assembled | src/option-list.ts:26-34 | a list assembled from fresh options is well formed, and every option and list in it is untouched |
| Select.OptionList.GetOptionsByValue | src/option-list.ts:48-52 | exactly the direct options with the value, each once, in array order |
| Select.OptionList.Selection | src/option-list.ts:70-74 | exactly the selected direct options, each once, in array order |
| Select.OptionList.Filtered | src/option-list.ts:97-101 | exactly the shown direct options, each once, in array order |
| Select.OptionList.HasSelected | src/option-list.ts:240-244 | true exactly when some option at any depth is selected |
| Select.OptionList.AnySelected | src/option-list.ts:240-244 | the first `k` options or their subtrees hold a selected option exactly when the result is true |
| Select.OptionList.GetSelected | src/option-list.ts:246-257 | every selected option at any depth appears once; the selected direct options come first, in array order; empty exactly when nothing is selected; the order of the rest is stated by `Select.OptionList.SelectedOrder` |
| Select.OptionList.SelectedOrder | src/option-list.ts:246-257 | after the selected direct options, the result is grouped by the direct option each entry sits under, in array order; restricted to the subtree of each direct option, it is exactly what that option's own `getSelected` returns, in its order, or nothing when nothing below it is selected |
| Select.OptionList.SelectedUnder | src/option-list.ts:249-251 | what `getSelected` pushes for one direct option: exactly the selected options strictly below it, each once |
| Select.OptionList.SelectedDistinct | src/option-list.ts:246-251 | the direct selection and the nested selection share no option |
| Select.OptionList.SelectedCovers | src/option-list.ts:246-251 | the two parts of `getSelected` together hold exactly the selected options of the tree |
| Select.OptionList.OptionsDistinct | src/option-list.ts:26-32 | no option appears twice among the direct options |
| Select.OptionList.BelowNotDirect | src/option-list.ts:246-251 | an option nested under a direct option is not itself a direct option |
| Select.OptionList.OneOwner | src/option-list.ts:26-32 | every option of the tree sits under at most one direct option |
| Select.OptionList.GroupedAppend | src/option-list.ts:249-251 | appending the selection of the next subtree keeps the nested selection grouped by direct option |
| Select.OptionList.NestedSelected | src/option-list.ts:249-251 | exactly the options selected strictly below the first `k` direct options, each once; none is a direct option or lies below a later direct option |
| Select.OptionList.NestedGrouped | src/option-list.ts:249-251 | the nested selection of the first `k` direct options is grouped by direct option, in array order |
| Select.OptionList.NestedShare | src/option-list.ts:249-251 | restricted to the subtree of the `j`-th direct option, the nested selection of the first `k` is exactly that option's pushed selection, in its order |
| Marks.WithinAppend | src/option-list.ts:250 | restricting a concatenation to a set restricts each part, in order |
| Select.OptionList.Value | src/option-list.ts:56-58 | the values of `getSelected`, position by position; a string is in the result exactly when some selected option has that value |
| Select.OptionList.ValueRoundTrip | src/option-list.ts:56-66 | after setting `[v]` in a tree where exactly one option has value `v`, the value reads back as `[v]` |
| Select.OptionList.SetValue | src/option-list.ts:60-66 | every option at every depth ends selected exactly when its value is in `v`, and null or undefined reads as empty |
| Select.OptionList.Select | src/option-list.ts:76-81 | the option ends selected; every other option of the tree is cleared unless `multiple`, in which case it keeps its flag |
| Select.OptionList.Deselect | src/option-list.ts:83-85 | clears the option's `selected` flag and nothing else |
| Select.OptionList.ClearSelection | src/option-list.ts:87-93 | nothing in the tree stays selected, `hasSelected` and `value` turn empty, and the returned array is empty |
| Select.OptionList.HasShownSelected | src/option-list.ts:259-263 | true exactly when some direct option is both shown and selected |
| Select.OptionList.GetFirstShown | src/option-list.ts:265-272 | the first shown direct option, or null |
| Select.OptionList.GetFirstShownSelected | src/option-list.ts:274-281 | the first direct option that is both shown and selected, or null |
| Select.OptionList.PickInTree | src/option-list.ts:176-182 | the option `highlight` picks is null or belongs to the tree |
| Select.OptionList.Highlight | src/option-list.ts:176-185 | points at the first shown and selected option, else the first shown one, descended to its first child when it has children; the flags change as `highlightOption` changes them |
| Select.OptionList.HighlightTarget | src/option-list.ts:177-182 | computes that choice of option, which lies in the tree |
| Select.OptionList.HighlightOption | src/option-list.ts:187-194 | the old target is cleared, the new one flagged and pointed at, and other flags are kept |
| Select.OptionList.ClearHighlightedOption | src/option-list.ts:214-219 | the `highlightedOption` becomes null and only the old target's flag is cleared |
| Select.OptionList.HighlightNextOption | src/option-list.ts:196-203 | moves the highlight to the shown option right after the first flagged shown one; with no such option, nothing changes; there is no wrap-around |
| Select.OptionList.HighlightPreviousOption | src/option-list.ts:205-212 | moves the highlight to the shown option right before the first flagged shown one; otherwise nothing changes |
| Select.OptionList.GetHighlightedIndexFromList | src/option-list.ts:221-228 | the first flagged position of the array, or -1 |
| Select.OptionList.GetHighlightedIndex | src/option-list.ts:230-232 | the first flagged position among the shown direct options, or -1 |
| Select.OptionList.ResetFilter | src/option-list.ts:161-168 | every option at every depth ends shown |
| Select.OptionList.Filter | src/option-list.ts:103-159 | a blank search shows everything, re-highlights and reports whether the level has options. Otherwise: each option is shown exactly when its label matches every term, a hit shows its child list, and a child hit shows its parent; every filtered list's `highlightedOption` and cache are refreshed; the flags are the ordered replay of every nested highlight; the result says whether anything at the level is shown |
| Select.OptionList.ShowAll | src/option-list.ts:106-108 | the blank-search branch: everything is shown, the result is "the level has options", and this level alone is re-highlighted |
| Select.OptionList.Reshow | src/option-list.ts:155-156 | with everything shown, re-highlights and sets the cache to "the level has options" |
| Select.OptionList.Narrow | src/option-list.ts:109-156 | the non-blank branch: the filter's final shown flags, caches, `highlightedOption` fields and highlight writes |
| Select.OptionList.Rehighlight | src/option-list.ts:155-156 | after both passes, points at the filter's target, caches the result and refreshes the whole tree |
| Select.OptionList.FilterBy | src/option-list.ts:111-152 | after both passes, each option is shown exactly when it is reached, and the child lists are refreshed |
| Select.OptionList.FilterOptions | src/option-list.ts:114-135 | the first pass: each option is left hit-or-hidden, pending the parent pass; the result is whether anything was reached |
| Select.OptionList.FilterAt | src/option-list.ts:114-135 | one iteration of the first pass touches only its own option's subtree |
| Select.OptionList.RevealParents | src/option-list.ts:137-152 | the second pass settles every option: a hit shows its child list, and a child hit shows the parent |
| Select.OptionList.ShownAny | src/option-list.ts:108 | with everything shown, some option is shown exactly when the level is non-empty |
| Select.OptionList.ResultShown | src/option-list.ts:146-149 | after a filter, the reported result equals "some option of the level is shown" |
| Select.OptionList.RefreshedJoin | src/option-list.ts:155-156 | refreshed child lists plus this level's `highlightedOption` and cache make the whole tree refreshed |
| Findings.BanTerms | src/option-list.ts:112 | the search "Ban" is the one term "Ban" |
| Findings.BanMatches | src/option-list.ts:123-129 | "Ban" matches Banana but neither Apple nor Fruits |
| Findings.FruitsWrites | src/option-list.ts:155 | filtering Fruits[Apple, Banana] by "Ban" flags Banana, then clears and re-flags Apple |
| Findings.FruitsFiltered | src/option-list.ts:137-152 | after that filter, Fruits and Banana are shown, Apple is hidden, and the root points at Apple |
| Findings.HiddenHighlight | src/option-list.ts:176-185 | as written: after the filter, Apple is hidden yet flagged and pointed at, Banana is flagged too, and the corrected pick is Banana |
| Findings.DescendShown | src/option-list.ts:180-182 | corrected descent: moves to the first shown child, and keeps the option when it has none |
| Findings.CorrectedPick | src/option-list.ts:176-182 | the corrected target is always shown, and null exactly when nothing at the level is shown |
| Findings.CorrectedFruits | src/option-list.ts:176-182 | on the filtered Fruits tree, the written pick is hidden Apple and the corrected pick is Banana |

## Left out

- Select.OptionList.HighlightOption: requires the option to be null or to lie in this list's tree. `highlightOption` (src/option-list.ts:187-194) accepts any Option, but every caller in option-list.ts passes null or an option of the tree. The frame of the flag write is the tree's options.
- Select.OptionList.Filter: the normalisation `Diacritics.strip(…).toUpperCase()` is a parameter `norm`, not a fixed function. Diacritics is not part of this model, and case mapping depends on Unicode tables.
- Select.Option.GetSelected: requires a child list. `getSelected` (projects/ng-select/src/lib/option.ts:44-46) throws a TypeError without one. Its one caller (src/option-list.ts:249-251) reaches it only through `hasSelected`, which implies a child list.
- Values.Sort: orders strings by Unicode scalar values. `Array.prototype.sort` compares UTF-16 code units, and the two orders differ between characters above U+FFFF and characters from U+E000 to U+FFFF. `EqualValues` depends only on multisets (`Values.EqualValuesIffPermutation`), so its result is the same.
- Text.Split: strings are sequences of Unicode scalar values, so a JavaScript string holding a lone surrogate has no counterpart.
- Select.OptionList.Filter: `search` is a string and never null or undefined; `search.trim()` would throw a TypeError on those.
- Values.EqualValues: `v0` and `v1` are sequences and never null or undefined; the code says it assumes this.
- Select.OptionList.constructor: the shape of the tree (`options`, `children`, `wrappedOption`) is `const`. In TypeScript these are public fields that outside code could reassign.
- Select.FilterOption: writes `shown` once, at the end. `filter` sets it to false first and back to true on a hit. No read in between observes the flag: the child filter never reads its parent's flag. So the final state is the same.
- The getters `options`, `highlightedOption` and `hasShown` are plain field reads and have no member of their own. `Option.value` and `Option.label` are the functions `Value` and `Label`.
- Select.Option.constructor: `disabled` is set from the record and never read by the core; no property is stated about it beyond its initial value.
- Select.OptionList.Highlight: the `isNullOrUndefined` test (src/option-list.ts:180) reduces to a null test, since the model has no undefined.
- Single highlight per level: the code does not keep it, and the model does not state it (see Findings).
- The Angular component and module, the `dist/` build output and src/option.ts (an older copy of Option) are not part of this model.

## Findings

| source | as written | input that shows it | evidently intended | confidence | as-written member | corrected member |
|---|---|---|---|---|---|---|
| src/option-list.ts:180-182 | `highlight` moves from the picked option to `children.options[0]` without checking that this child is shown | records Fruits with children Apple and Banana, then `filter("Ban")`: the root flags and points at hidden Apple while the child list flags Banana | move to the first *shown* child, so the highlighted option is on screen | not executed | Findings.HiddenHighlight | Findings.CorrectedPick |
