# Community directory: projection and filtering, modelled in Dafny

This project models the core of a community directory built from a knowledge-graph export.
The core has two stages and some filter state around them:

- **Projector** (`ui/app/api/data/route.ts`). `transformToCommunityMembers` turns each
  knowledge-graph entry into a community member. An entry is a `fields` string map plus, per
  field, a list of concept mappings. Entries without a `Name` are dropped. Each kept entry gets
  a positional id `member-i` and a duplicate-free keyword list. It is classified into a `type`
  from its Role, and a `programmingLanguage` and `platform` are derived from its Expertise and
  Interest. Its description is the Note, or is synthesized from the other fields. `GET` also
  collects every concept label of every entry, named or not, into a sorted category list.
- **Matcher and pager** (`ui/components/CommunityManager.tsx`). This is a stable filter:
  case-insensitive substring search over title, description and keywords, ANDed with "some
  selected category equals some tag of the member, ignoring case". After it come nine-per-page
  slicing, clamped previous/next moves, and the initials shown on each card.
- **Category toggle** (`ui/components/SearchFilters.tsx`). It adds a category to the selection
  or removes it, and decides whether any filter is active.
- **Filter state** (`ui/contexts/FilterContext.tsx`). One state cell with three fields. The
  setters replace exactly one field each, and `clearAllFilters` resets the cell.

Modules: `Wrappers` (Option/Result), `Collections` (subsequence, distinctness, first index),
`Text` (the JavaScript string operations the core uses), `KnowledgeGraph` (the record shapes of
`ui/lib/types.ts`), `Projection`, `Matching`, `CategoryToggle` and `Filters`.

Modelling choices:
- `toLowerCase`/`toUpperCase` are ASCII case mappings.
- `includes` is a substring predicate under which the empty string occurs in every string.
- `trim` removes the ECMAScript white-space and line-terminator characters.
- The default `sort()` is strict lexicographic order on characters.
- JavaScript truthiness of a string is "non-empty". A missing map key is `undefined`.
- Stateful parts are classes whose methods update fields: the provider's `filters` cell and the
  list's `currentPage`.
- The category aggregation keeps the source's nested loops adding into a set, followed by an
  insertion sort.
- The `'r'` rule (route.ts:65) and the `'NA'` platform default (route.ts:74) are kept as
  written. Lemmas pin their consequences: any text with an `r` and no `python` yields `R`;
  Jupyter or RStudio users always get Python or R; `'NA'` is a real tag that a selected "na"
  matches.

Behaviour of the code that the model keeps as written:
- Keywords keep the first-occurrence order of `new Set` (ui/app/api/data/route.ts:106).
- Selected categories are a list: toggling appends or removes, and repeated entries are
  removed together (ui/components/SearchFilters.tsx:15-17).
- The truthiness test at ui/app/api/data/route.ts:127 drops empty labels as well as `null` ones.

## Model

| member | source | states |
|---|---|---|
| `Text.Lower` | ui/app/api/data/route.ts:49 | lowering keeps the length, maps each character by ASCII lowering and leaves no upper-case letter |
| `Text.Upper` | ui/components/CommunityManager.tsx:91 | upper-casing keeps the length, maps each character by ASCII upper-casing and leaves no lower-case letter |
| `Text.Contains` | ui/app/api/data/route.ts:49-81 | `includes`: some position of the haystack starts an occurrence of the needle; specified by `Text.ContainsEmpty` and `Text.ContainsTransitive` |
| `Text.NonEmpty` | ui/app/api/data/route.ts:106 | `filter(Boolean)` keeps exactly the non-empty strings: an order-preserving subsequence without `''` holding each non-empty string as often as the input, which fixes the result |
| `Text.NonEmptyAppend` | ui/components/CommunityManager.tsx:36 | `filter(Boolean)` of a concatenation is the concatenation of the filtered parts |
| `Text.ContainsEmpty` | ui/components/CommunityManager.tsx:22-24 | the empty string is a substring of every string, as with `includes('')` |
| `Text.ContainsTransitive` | ui/app/api/data/route.ts:51 | a substring of a substring is a substring (used to show one rule's test implies another's) |
| `Text.IsSpace` | ui/app/api/data/route.ts:99 | the characters `trim` removes: the ECMAScript WhiteSpace and LineTerminator characters; used by the contracts of `Text.TrimStart` and `Text.TrimEnd` |
| `Text.TrimStart` | ui/app/api/data/route.ts:99 | the result is a suffix of the input, everything cut off is white space, and it does not start with white space |
| `Text.TrimEnd` | ui/app/api/data/route.ts:99 | the result is a prefix of the input, everything cut off is white space, and it does not end with white space |
| `Text.Trim` | ui/app/api/data/route.ts:99 | the trimmed text neither starts nor ends with white space |
| `Text.TrimKeepsPrefix` | ui/app/api/data/route.ts:99 | trimming keeps any prefix that starts and ends with a non-space character |
| `Text.JoinSplit` | ui/components/CommunityManager.tsx:91 | joining the `split(' ')` segments with spaces gives back the title |
| `Text.Join` | ui/components/CommunityManager.tsx:91 | joining with a separator; specified by `Text.JoinSplit`, under which it inverts `Split` |
| `Text.Split` | ui/components/CommunityManager.tsx:91 | there is at least one segment and no segment contains the separator |
| `Text.NatToString` | ui/app/api/data/route.ts:102 | `${index}`: at least one decimal digit, all digits, and no leading zero unless the index is zero; with `Text.ParseNatToString` this fixes the text |
| `Text.ParseNatToString` | ui/app/api/data/route.ts:102 | parsing the decimal text of an index gives back the index |
| `Text.NatToStringInjective` | ui/app/api/data/route.ts:102 | different indices have different decimal texts |
| `Text.Below` | ui/app/api/data/route.ts:135 | the comparison of the default `sort()`, lexicographic by character; specified by `Text.BelowIrreflexive`, `Text.BelowTransitive` and `Text.BelowTotal` |
| `Text.BelowIrreflexive` | ui/app/api/data/route.ts:135 | no string sorts strictly before itself |
| `Text.BelowTransitive` | ui/app/api/data/route.ts:135 | the sort order is transitive |
| `Text.BelowTotal` | ui/app/api/data/route.ts:135 | any two different strings are ordered one way or the other, so the sort is deterministic |
| `Text.StrictlySortedDistinct` | ui/app/api/data/route.ts:135 | a strictly ascending list has no duplicates |
| `Text.Insert` | ui/app/api/data/route.ts:135 | inserting a new string into a strictly sorted list keeps it strictly sorted, adds exactly that string, and grows it by one |
| `Projection.LabelsIff` | ui/app/api/data/route.ts:42-44 | a label is listed iff it is non-empty and some mapping of the list carries it |
| `Projection.ConceptLabels` | ui/app/api/data/route.ts:42-44 | `map(m => m.concept_label)`, one label per mapping in list order, `null` read as the falsy `''` |
| `Projection.Labels` | ui/app/api/data/route.ts:42-44 | `map(m => m.concept_label).filter(Boolean)`; specified by `Projection.LabelsSpec` and `Projection.LabelsIff` |
| `Projection.LabelsSpec` | ui/app/api/data/route.ts:42-44 | the labels of one list are `filter(Boolean)` of its mapped labels: the truthy labels in list order, each as often as it occurs |
| `Projection.Dedup` | ui/app/api/data/route.ts:106 | `Array.from(new Set(s))` is duplicate-free and has exactly the elements of `s` |
| `Projection.DedupFirstOccurrenceOrder` | ui/app/api/data/route.ts:106 | the deduplicated elements come in the order of their first occurrence in `s` |
| `Projection.NonEmptyOfNonEmpty` | ui/app/api/data/route.ts:106 | the second `filter(Boolean)` removes nothing from already non-empty labels |
| `Projection.RawKeywords` | ui/app/api/data/route.ts:41-45 | the spread of the Expertise, Interest and Role label lists, in that order; specified by `Projection.KeywordsSpec` |
| `Projection.Keywords` | ui/app/api/data/route.ts:106 | `Array.from(new Set(keywords.filter(Boolean)))`; specified by `Projection.KeywordsSpec` |
| `Projection.KeywordsSpec` | ui/app/api/data/route.ts:41-45 | keywords are duplicate-free, are exactly the non-empty labels of the Expertise, Interest and Role mappings, and come in first-occurrence order |
| `Projection.ResearcherContainsResearch` | ui/app/api/data/route.ts:51 | a role containing "researcher" contains "research", so the first test of that rule is redundant |
| `Projection.MemberType` | ui/app/api/data/route.ts:47-57 | the type rule chain on the lowered role; specified by `Projection.MemberTypeSpec` |
| `Projection.MemberTypeSpec` | ui/app/api/data/route.ts:47-57 | the type is one of five labels, and each is chosen exactly when its rule is the first to match the lowered role (so "student professor" gives Student) |
| `Projection.ProgrammingLanguage` | ui/app/api/data/route.ts:61-71 | the language rule chain; specified by `Projection.ProgrammingLanguageSpec` |
| `Projection.Platform` | ui/app/api/data/route.ts:73-81 | the platform rule chain with default NA; specified by `Projection.PlatformSpec` |
| `Projection.ProgrammingLanguageSpec` | ui/app/api/data/route.ts:61-71 | the language is one of `''`, Python, R, MATLAB, Git, and each is chosen exactly when its word is the first of python, r, matlab, git mentioned (so "matlab, git" gives MATLAB); MATLAB or Git only when neither field has an `r`; `''` exactly when nothing matches |
| `Projection.PlatformSpec` | ui/app/api/data/route.ts:73-81 | the platform is one of NA, Jupyter, RStudio, MATLAB, and each is chosen exactly when it is the first of jupyter, rstudio, matlab mentioned (so "rstudio and matlab" gives RStudio); NA exactly when none is mentioned |
| `Projection.PlatformForcesLanguage` | ui/app/api/data/route.ts:62-81 | a Jupyter or RStudio platform always comes with language Python or R, because both names contain an `r` |
| `Projection.Segment` | ui/app/api/data/route.ts:99 | `${value ? `${prefix}${value}${tail}` : ''}`; its use is specified by `Projection.DescriptionText` |
| `Projection.Synthesized` | ui/app/api/data/route.ts:99 | the untrimmed template literal of the three segments; specified by `Projection.SynthesizedStart` |
| `Projection.SynthesizedStart` | ui/app/api/data/route.ts:99 | the synthesized text is empty or starts with the letter of its first segment, never with white space |
| `Projection.Description` | ui/app/api/data/route.ts:99 | the note, or the trimmed synthesized text; specified by `Projection.DescriptionText`, `Projection.DescriptionStart` and `Projection.DescriptionSpec` |
| `Projection.DescriptionText` | ui/app/api/data/route.ts:99 | without a note, trimming cuts only trailing white space; when the last present field does not end in white space the description is every present segment in full (Role, then Expertise, then Interests), minus the space after a final period |
| `Projection.DescriptionStart` | ui/app/api/data/route.ts:99 | without a note, the description begins with the first present segment (`Role: R.`, `Expertise: E.` or `Interests:`) |
| `Projection.DescriptionSpec` | ui/app/api/data/route.ts:99 | a non-empty note is used verbatim; with no note and no fields it is `''`; with only an interest not ending in space it is `Interests: I`; a synthesized description has no surrounding white space |
| `Projection.HasName` | ui/app/api/data/route.ts:33 | `entry.fields.Name` is truthy; specified through `Projection.Named` |
| `Projection.Named` | ui/app/api/data/route.ts:32-33 | the kept entries are an order-preserving subsequence of the input holding every named entry as many times as the input does and no nameless one |
| `Projection.NamedAppend` | ui/app/api/data/route.ts:32-33 | filtering a concatenation is the concatenation of the filtered parts |
| `Projection.NamedCount` | ui/app/api/data/route.ts:32-33 | the number of kept entries is the number of positions of the input holding an entry with a Name |
| `Projection.MemberId` | ui/app/api/data/route.ts:102 | `member-${index}`; specified by `Projection.MemberIdInjective` and `Text.ParseNatToString` |
| `Projection.MemberIdInjective` | ui/app/api/data/route.ts:102 | equal ids come from equal positions |
| `Projection.ToMember` | ui/app/api/data/route.ts:34-110 | the projection of one named entry; specified by `Projection.TransformSpec` and `Projection.TransformMemberSpec` |
| `Projection.TransformToCommunityMembers` | ui/app/api/data/route.ts:31-112 | `transformToCommunityMembers`; specified by `Projection.TransformSpec`, `Projection.TransformIdsDistinct` and `Projection.TransformMemberSpec` |
| `Projection.TransformSpec` | ui/app/api/data/route.ts:31-111 | one member per named entry in input order: as many members as positions holding a named entry, each named entry occurring as often as in the input; member i has id `member-i` and the i-th named entry's Name as title; nameless entries are dropped |
| `Projection.TransformIdsDistinct` | ui/app/api/data/route.ts:34-102 | all member ids of one projection are distinct |
| `Projection.TransformMemberSpec` | ui/app/api/data/route.ts:101-110 | every member has duplicate-free non-empty keywords from its entry, a type, language and platform from the fixed value sets, and a non-empty platform |
| `Projection.EntryLabels` | ui/app/api/data/route.ts:124-130 | the truthy labels of all mapping lists of one entry; specified by `Projection.EntryLabelsIff` |
| `Projection.AllLabels` | ui/app/api/data/route.ts:120-133 | the truthy labels of every entry; specified by `Projection.AllLabelsIff` and computed by `Projection.CollectLabels` |
| `Projection.EntryLabelsIff` | ui/app/api/data/route.ts:124-130 | an entry contributes exactly the non-empty labels of all its mapping lists, whatever the field name |
| `Projection.AllLabelsIff` | ui/app/api/data/route.ts:120-133 | the label universe is exactly the non-empty labels of every mapping list of every entry, named or not |
| `Projection.KeywordsAreCategories` | ui/app/api/data/route.ts:120-133 | every keyword of every member is among the categories |
| `Projection.CollectLabels` | ui/app/api/data/route.ts:120-133 | the nested loops collect exactly the label universe of the input |
| `Projection.SortLabels` | ui/app/api/data/route.ts:135 | the sorted list is strictly ascending and has exactly the elements of the set, each once |
| `Projection.Categories` | ui/app/api/data/route.ts:119-135 | the categories are strictly ascending, duplicate-free, and exactly the label universe of all entries |
| `Matching.SearchMatches` | ui/components/CommunityManager.tsx:22-26 | the search step; specified by `Matching.SearchStep` and `Matching.EmptyTermMatches` |
| `Matching.Tags` | ui/components/CommunityManager.tsx:32-36 | `[...keywords, programmingLanguage, platform].filter(Boolean)`; specified by `Matching.CategoryMatchesIff` |
| `Matching.CategoryMatches` | ui/components/CommunityManager.tsx:31-45 | the category step; specified by `Matching.CategoryMatchesIff`, `Matching.EmptyTagNeverMatches` and `Matching.PlatformNAMatches` |
| `Matching.Matches` | ui/components/CommunityManager.tsx:20-47 | both steps together; specified by `Matching.FilterMaterials`, `Matching.SearchStep` and `Matching.CategoryStep` |
| `Matching.FilterMaterials` | ui/components/CommunityManager.tsx:19-49 | the result is an order-preserving subsequence of the members holding each member that passes both steps as many times as the input does, and no member that fails |
| `Matching.FilterInactive` | ui/components/CommunityManager.tsx:19-49 | with an empty term and no selection the members come back unchanged and in order |
| `Matching.SearchStep` | ui/components/CommunityManager.tsx:22-26 | with no selection a member survives iff the lowered term occurs in its lowered title, description or some keyword |
| `Matching.CategoryMatchesIff` | ui/components/CommunityManager.tsx:31-40 | with a non-empty selection the category step passes iff some selected category equals, ignoring case, some non-empty keyword, language or platform |
| `Matching.CategoryStep` | ui/components/CommunityManager.tsx:31-45 | with an empty term and a non-empty selection a member survives iff some selected category equals, ignoring case, some non-empty tag of it |
| `Matching.EmptyTagNeverMatches` | ui/components/CommunityManager.tsx:32-39 | empty tags (an empty language) never match: selecting `''` matches no member |
| `Matching.PlatformNAMatches` | ui/components/CommunityManager.tsx:32-39 | the default platform `NA` survives `filter(Boolean)`, so selecting "na" matches it |
| `Matching.FilterMonotone` | ui/components/CommunityManager.tsx:20-45 | a stronger predicate keeps a subsequence of what a weaker one keeps |
| `Matching.SelectingNarrows` | ui/components/CommunityManager.tsx:31-45 | selecting one category shows a subsequence of what selecting none shows, for the same term |
| `Matching.SelectingMoreWidens` | ui/components/CommunityManager.tsx:31-45 | for a non-empty selection, adding a category shows a supersequence, for the same term |
| `Matching.TotalPages` | ui/components/CommunityManager.tsx:57 | the page count is the least number of nine-item pages that hold the filtered list |
| `Matching.Slice` | ui/components/CommunityManager.tsx:60 | `Array.prototype.slice`, negatives counted from the end and clamped; specified by `Matching.PageOf` |
| `Matching.PageOf` | ui/components/CommunityManager.tsx:57-60 | page p is `filtered[(p-1)*9 .. min(n, p*9))`, empty past the end, at most nine items, and non-empty for p in 1..totalPages |
| `Matching.PagesCover` | ui/components/CommunityManager.tsx:57-60 | pages 1..k read in order are the first min(n, 9k) filtered members |
| `Matching.AllPages` | ui/components/CommunityManager.tsx:57-60 | all pages read in order give back the filtered list exactly |
| `Matching.CommunityMembersList.constructor` | ui/components/CommunityManager.tsx:12-14 | the list starts on page 1 with the given members |
| `Matching.CommunityMembersList.FilteredMaterials` | ui/components/CommunityManager.tsx:19-49 | the memoised `filteredMaterials` of the list's members under the current filters; specified by `Matching.FilterMaterials` |
| `Matching.CommunityMembersList.CurrentMaterials` | ui/components/CommunityManager.tsx:58-60 | the slice of the filtered list for the current page; specified by `Matching.PageOf` and `Matching.AllPages` |
| `Matching.CommunityMembersList.FiltersChanged` | ui/components/CommunityManager.tsx:51-54 | a filter change resets the page to 1 |
| `Matching.CommunityMembersList.PreviousPage` | ui/components/CommunityManager.tsx:152 | the page becomes max(1, p-1) and stays in 1..totalPages when it started there |
| `Matching.CommunityMembersList.NextPage` | ui/components/CommunityManager.tsx:174 | the page becomes min(totalPages, p+1) and stays in 1..totalPages when it started there |
| `Matching.CommunityMembersList.SelectPage` | ui/components/CommunityManager.tsx:162 | a numbered button sets the page to its number |
| `Matching.FirstChars` | ui/components/CommunityManager.tsx:91 | the result has one character per non-empty segment, in order: the k-th is the first character of the k-th non-empty segment |
| `Matching.Initials` | ui/components/CommunityManager.tsx:91 | the initials are, in order, the upper-cased first characters of the non-empty space-separated segments of the title, one per segment; hence no space and no lower-case letter |
| `CategoryToggle.Without` | ui/components/SearchFilters.tsx:16 | `filter(c => c !== category)`; specified by `CategoryToggle.WithoutSpec` |
| `CategoryToggle.WithoutSubsequence` | ui/components/SearchFilters.tsx:16 | removal leaves no occurrence of the category and keeps the others in order |
| `CategoryToggle.WithoutCounts` | ui/components/SearchFilters.tsx:16 | removal keeps the number of occurrences of every other category |
| `CategoryToggle.WithoutSpec` | ui/components/SearchFilters.tsx:16 | removal drops all occurrences, is a subsequence, and keeps every other category's count |
| `CategoryToggle.NonEmptyIsWithout` | ui/components/CommunityManager.tsx:36 | `filter(Boolean)` on strings is the category filter with `''` as the removed category, so the two filters are one definition |
| `CategoryToggle.Toggle` | ui/components/SearchFilters.tsx:15-17 | remove if present, append if absent; specified by `CategoryToggle.ToggleSpec` |
| `CategoryToggle.ToggleSpec` | ui/components/SearchFilters.tsx:15-17 | an absent category is appended; a present one is removed with all occurrences, others keeping order and count; membership of the toggled category flips and every other membership is unchanged |
| `CategoryToggle.WithoutAppendAbsent` | ui/components/SearchFilters.tsx:16-17 | removing a category just appended to a list without it gives back the list |
| `CategoryToggle.ToggleTwiceAbsent` | ui/components/SearchFilters.tsx:15-17 | toggling an absent category twice returns the original list |
| `CategoryToggle.WithoutDistinct` | ui/components/SearchFilters.tsx:16 | removal keeps a duplicate-free list duplicate-free |
| `CategoryToggle.ToggleDistinct` | ui/components/SearchFilters.tsx:15-17 | toggling keeps a duplicate-free list duplicate-free |
| `CategoryToggle.HandleCategoryToggle` | ui/components/SearchFilters.tsx:14-19 | the selection becomes the toggled list and the term and quadrants are unchanged |
| `CategoryToggle.HasActiveFilters` | ui/components/SearchFilters.tsx:26 | a non-empty term or a non-empty selection; specified by `CategoryToggle.InactiveFiltersShowAll` |
| `CategoryToggle.InactiveFiltersShowAll` | ui/components/SearchFilters.tsx:26 | when no filter is active the matcher shows every member in order; the initial state has no active filter |
| `Filters.FilterProvider.constructor` | ui/contexts/FilterContext.tsx:22-26 | the initial state has an empty term, no quadrants and no categories |
| `Filters.FilterProvider.SetSearchTerm` | ui/contexts/FilterContext.tsx:28-30 | sets the term and leaves both lists unchanged |
| `Filters.FilterProvider.SetSelectedQuadrants` | ui/contexts/FilterContext.tsx:34-36 | sets the quadrants and leaves the other fields unchanged |
| `Filters.FilterProvider.SetSelectedCategories` | ui/contexts/FilterContext.tsx:38-40 | sets the categories and leaves the other fields unchanged |
| `Filters.FilterProvider.ClearAllFilters` | ui/contexts/FilterContext.tsx:42-48 | from any state the result is the initial state, so clearing is idempotent |
| `Filters.UseFilters` | ui/contexts/FilterContext.tsx:65-70 | the hook yields the provider's context when there is one, and the "must be used within a FilterProvider" error when there is none |

## Left out

- Loading the export (`loadKnowledgeGraphData`, ui/app/api/data/route.ts:6-29) is left out: environment lookup, path resolution, file reads and `JSON.parse` are foreign calls, so the model starts from the parsed entries. That code parses the whole file as one JSON value, although the default file name ends in `.jsonl`.
- The HTTP layer is left out: the `NextResponse` envelope, the 500 path (ui/app/api/data/route.ts:137-144) and the `fetch` wrapper in ui/lib/data.ts.
- The quadrant computation (ui/app/api/data/route.ts:84-96) is dead code and is not modelled: its result is never returned, and the matcher never reads `selectedQuadrants`. That field is modelled only as state.
- Rendering is left out: JSX cards, the modal, the raw-data dump, `getTypeIcon` (every branch returns the same icon), ui/app/page.tsx and ui/next.config.js.
- The confidence display (`toFixed`, ui/components/CommunityManager.tsx:334) is left out as floating-point formatting.
- The React hooks are left out. The reset of the page on a filter change (`useMemo`) is an explicit `FiltersChanged` method, and `FilteredMaterials` is recomputed on each call rather than memoised.
- Full Unicode case mapping (for example `ß` to `SS`) is not modelled; case mapping is ASCII only.
- UTF-16 code-unit sort order is not modelled. It differs from code-point order only for characters outside the Basic Multilingual Plane.
- `n[0]` splitting a surrogate pair is not modelled.
- `fields` values are strings in the model. A non-string JSON value would be coerced by JavaScript, which is not modelled.
- Mapping values are lists or absent, as ui/lib/types.ts declares, so the `Array.isArray` guard (route.ts:125) always holds in the model. A non-array `Expertise`, `Interest` or `Role` value would make `.map` throw at route.ts:42-44; that is not modelled.
- The order of `Object.values` is not modelled: the labels of one entry are gathered in an arbitrary key order, which a set cannot observe.
- `description`, `programmingLanguage` and `platform` are optional in ui/lib/types.ts but always set by the projector. They are plain strings here, so the branch for an absent description (`description?.`, CommunityManager.tsx:23) is not modelled.
- The `'Anonymous Member'` fallback for the title (route.ts:103) is modelled, but the Name filter makes it unreachable; `TransformSpec` states that the title is always the Name.
