# Notes viewer and navigation: a Dafny model

This project models the core of the notes site: the note viewer, the notes navigation tree and the build-time markdown table fixer.

The note viewer's parts:

- the search-term highlighter, which wraps each occurrence of a query word in a `<mark class="search-highlight">` element, text node by text node;
- the cache of highlighted markup keyed by content length and query;
- the calculator mount pass, which replaces `.calculator-placeholder` elements with calculator components;
- the load cycle (fade out, fetch, swap everything at once, fade in);
- the meta description, which is the first 160 characters of the white-space-collapsed text, trimmed, with `...` appended;
- the effect that queues the mount pass.

The navigation component's parts:

- the tree operations (toggle, expand all, collapse all, expand the path to a note);
- the filtered tree with its folders-first, relevance-ordered sort;
- the flat search view and `getSearchResult`;
- the `trackNode` keys;
- the note id read from the router URL.

The table fixer is `fixTableSpacing`. It inserts a blank line after a table row that text follows directly.

Modules, one per file:

| file | module | what it holds |
|---|---|---|
| wrappers.dfy | Wrappers | `Option` |
| text.dfy | Text | the `\s` class and line terminators of ECMAScript, `trim`, `replace(/\s+/g, ' ')`, `split(/\s+/)`, decimal rendering |
| highlight.dfy | Highlight | query words, regex escaping, per-term marking as written and as segments |
| dom.dfy | Dom | an abstract node tree, the text-node highlighting pass, `extractTextContent` |
| cache.dfy | HighlightCache | the insertion-ordered cache map and the `noteContent` computation |
| widgets.dfy | Widgets | cleanup and the placeholder mount pass over a registry of live components |
| loader.dfy | NoteLoader | the load cycle as a state machine driven by events |
| navtree.dfy | NavTree | the tree and the in-place operations, as pure functions on values |
| navsearch.dfy | NavSearch | the flat view, `getSearchResult`, `buildFilteredTree` |
| navurl.dfy | NavUrl | the URL regular expression and the `?`/`#` cuts |
| navstate.dfy | NavComponent | the three subscribers of the navigation component |
| tables.dfy | MarkdownTables | `fixTableSpacing` as a global regex replace over the original text |
| lines.dfy | TableLines | an independent line-by-line definition of the same rewrite, proved equal to it |

The model departs from the code in the following ways.

- Mutation in place becomes a function that returns the new value:
  - the tree's `expanded` flags;
  - the cache `Map`;
  - the component list of the mount pass.
- The browser's parts become parameters:
  - HTML parsing, both of a note's markup and of the highlighted text the code assigns to a span's `innerHTML`;
  - HTML serialisation;
  - `JSON.parse`;
  - `decodeURIComponent`;
  - the text extraction of a fetched note.
- Timers, the HTTP request and the microtask queue become events of a state machine.

## Model

| member | source | states |
|---|---|---|
| Text.TrimSpec | src/app/features/notes/components/note-viewer/note-viewer.component.ts:270 | `trim` removes exactly a white-space prefix and suffix: the result starts and ends with a non-space character, and it is empty exactly when the input is all white space |
| Text.TrimKeepsInk | src/app/features/notes/components/note-viewer/note-viewer.component.ts:250 | trimming keeps every non-space character in order, and gives the empty string exactly for all-space input |
| Text.TrimIsInfix | src/app/features/notes/components/note-viewer/note-viewer.component.ts:250 | the trimmed text is the slice of the input between an all-space prefix and an all-space suffix |
| Text.NormalizeSpec | src/app/features/notes/components/note-viewer/note-viewer.component.ts:270 | after collapsing runs and trimming, the text is single-spaced (only plain spaces, never two together), has no space at either end, and keeps every other character in order |
| Text.NormalizeKeepsInk | src/app/features/notes/components/note-viewer/note-viewer.component.ts:270 | the normalised text holds the same visible characters and is empty exactly when the input was all white space |
| Text.CollapseRunSingleSpaced | src/app/features/notes/components/note-viewer/note-viewer.component.ts:270 | `replace(/\s+/g, ' ')` leaves no white space except single plain spaces |
| Text.SplitRunSpec | src/app/features/notes/components/note-viewer/note-viewer.component.ts:397 | the pieces of `split(/\s+/)` hold no white space, and joining them with one space gives the collapsed text back |
| Text.SplitOfTrimmedHasNoEmptyPiece | src/app/features/notes/components/note-viewer/note-viewer.component.ts:397 | splitting a trimmed query yields no empty word |
| Text.DecimalRoundTrip | src/app/features/notes/components/note-viewer/note-viewer.component.ts:102 | the decimal rendering of a length reads back as that length, so distinct lengths give distinct key prefixes |
| Highlight.EscapeIsLiteral | src/app/features/notes/components/note-viewer/note-viewer.component.ts:405-408 | the escaped word, read as a pattern, is the literal word: every regex metacharacter of the class is backslash-escaped and nothing else is |
| Highlight.LongWords | src/app/features/notes/components/note-viewer/note-viewer.component.ts:401-402 | a query word is used exactly when it has at least two characters |
| Highlight.TermsSpec | src/app/features/notes/components/note-viewer/note-viewer.component.ts:397-402 | the terms are the words of the trimmed query with at least two characters, none holding white space; a blank query has none |
| Highlight.SplitTermSpec | src/app/features/notes/components/note-viewer/note-viewer.component.ts:408-415 | splitting a text at the case-insensitive occurrences of one term renders as the global replace with the mark element, keeps the text, marks only pieces equal to the term up to ASCII case, and marks something exactly when the term occurs (`regex.test`) |
| Highlight.SplitTermPlainsClean | src/app/features/notes/components/note-viewer/note-viewer.component.ts:410-415 | after the replace, no unmarked piece still contains the term |
| Highlight.MarkTextKeepsText | src/app/features/notes/components/note-viewer/note-viewer.component.ts:401-417 | corrected pass: marking all terms keeps the text, and every marked piece equals one of the terms up to case |
| Highlight.MarkTextClean | src/app/features/notes/components/note-viewer/note-viewer.component.ts:401-417 | corrected pass: after all terms are applied, no unmarked piece contains any term |
| Highlight.CleanTextUnmarked | src/app/features/notes/components/note-viewer/note-viewer.component.ts:410-419 | a text in which no term occurs gets no mark, so `hasMatch` stays false |
| Highlight.SingleTermAgrees | src/app/features/notes/components/note-viewer/note-viewer.component.ts:398-417 | for a single term, the string-rewriting loop as written and the segment model produce the same markup and the same `hasMatch` |
| Highlight.AsWrittenMarksInsideMarkup | src/app/features/notes/components/note-viewer/note-viewer.component.ts:410-415 | as written, the query "cat ma" on the text "cat" matches "ma" inside the `<mark` tag inserted for the first term, so the markup starts with `<` followed by a second opening tag |
| Highlight.SegmentedMarksTextOnly | src/app/features/notes/components/note-viewer/note-viewer.component.ts:401-421 | the segment model marks only the text: the same input gives one mark around "cat" |
| Highlight.AsWrittenHasMatch | src/app/features/notes/components/note-viewer/note-viewer.component.ts:398-417 | as written, `hasMatch` ends true exactly when some term occurs in the text, case-insensitively |
| Highlight.MarkTextHasHit | src/app/features/notes/components/note-viewer/note-viewer.component.ts:398-419 | the corrected pass marks something exactly when some term occurs, that is exactly when the code's `hasMatch` is true, so both replace the same text nodes |
| Dom.SegmentNodes | src/app/features/notes/components/note-viewer/note-viewer.component.ts:419-421 | corrected pass: the span built from the marked pieces has the text node's text as its text content |
| Dom.HighlightNodes | src/app/features/notes/components/note-viewer/note-viewer.component.ts:370-430 | corrected pass: elements keep their name, classes and number of children; text under SCRIPT, STYLE or a `search-highlight` element is left alone; any other text node is replaced exactly when a term occurs in it, and then by a span whose children are the marked and unmarked pieces of its text |
| Dom.HighlightNodesAsWritten | src/app/features/notes/components/note-viewer/note-viewer.component.ts:370-430 | as written: the same walk and skip rule, the same nodes replaced, each by a span holding whatever the parser makes of the rewritten string |
| Dom.SameNodesReplaced | src/app/features/notes/components/note-viewer/note-viewer.component.ts:398-423 | the pass as written and the corrected pass leave exactly the same text nodes in place |
| Dom.AsWrittenReparsesText | src/app/features/notes/components/note-viewer/note-viewer.component.ts:419-421 | as written, the text `const a<b>` searched for "const" becomes a span of the parse of `<mark class="search-highlight">const</mark> a<b>`, in which the note's `<b>` is read as a tag |
| Dom.SegmentedKeepsMarkupText | src/app/features/notes/components/note-viewer/note-viewer.component.ts:419-421 | corrected pass: the same text becomes a span of the mark around "const" and the text node " a<b>", so the reader sees the text as it was |
| Dom.HighlightKeepsText | src/app/features/notes/components/note-viewer/note-viewer.component.ts:370-430 | corrected pass: highlighting does not change the fragment's text content |
| Dom.HighlightIdempotent | src/app/features/notes/components/note-viewer/note-viewer.component.ts:386-393 | corrected pass: a second highlighting pass with the same terms changes nothing, because marked text sits under a `search-highlight` element and is skipped |
| Dom.HighlightFragment | src/app/features/notes/components/note-viewer/note-viewer.component.ts:286-299 | a blank query returns the fragment unchanged; otherwise the pass as written keeps the number of top-level nodes |
| Dom.FragmentReplaces | src/app/features/notes/components/note-viewer/note-viewer.component.ts:286-421 | top-level elements keep their name, classes and number of children; a top-level text node stays in place exactly when no term occurs in it, and otherwise becomes a span holding `parse` of the string the term loop built |
| Dom.FragmentKeepsClean | src/app/features/notes/components/note-viewer/note-viewer.component.ts:286-421 | a fragment in which no term occurs at any depth comes back unchanged |
| Dom.AsWrittenKeepsCleanNodes | src/app/features/notes/components/note-viewer/note-viewer.component.ts:370-423 | the pass as written replaces nothing in nodes where no term occurs, since `hasMatch` stays false for every text node |
| Dom.FragmentPassesAgree | src/app/features/notes/components/note-viewer/note-viewer.component.ts:286-421 | the fragment pass as written and the corrected one leave exactly the same top-level text nodes in place |
| Dom.HighlightFragmentKeepsText | src/app/features/notes/components/note-viewer/note-viewer.component.ts:286-299 | corrected pass (Dom.HighlightFragmentSegmented): the fragment's text content is unchanged |
| Dom.ExtractTextSpec | src/app/features/notes/components/note-viewer/note-viewer.component.ts:260-271 | the extracted text is single-spaced, trimmed, and holds the visible characters of the non-script, non-style text in order |
| Dom.VisibleTextWithoutScripts | src/app/features/notes/components/note-viewer/note-viewer.component.ts:264-269 | without SCRIPT or STYLE elements, the text taken is the full text content |
| HighlightCache.CacheKeyInjective | src/app/features/notes/components/note-viewer/note-viewer.component.ts:102 | the key `length-query` determines both the length and the query |
| HighlightCache.Store | src/app/features/notes/components/note-viewer/note-viewer.component.ts:112-119 | storing drops the oldest entry only when the map holds more than ten, appends the new one, keeps keys distinct, and keeps the size at most eleven |
| HighlightCache.HighlightSearchTerms | src/app/features/notes/components/note-viewer/note-viewer.component.ts:286-299 | a blank query returns the markup untouched; a query that occurs in no text of the parsed markup gives back the serialised parse unchanged |
| HighlightCache.SearchTermsReplaces | src/app/features/notes/components/note-viewer/note-viewer.component.ts:286-299 | for a non-blank query the result serialises a fragment with as many top-level nodes as the parse, in which exactly the top-level text nodes holding a term were replaced |
| HighlightCache.NoteContent | src/app/features/notes/components/note-viewer/note-viewer.component.ts:93-121 | a blank query or empty content bypasses the cache; a hit returns the stored markup and leaves the cache alone; a miss returns the markup of the highlighting pass as written and stores it under its key; the cache stays at most eleven entries with distinct keys |
| HighlightCache.MissStoresResult | src/app/features/notes/components/note-viewer/note-viewer.component.ts:109-119 | after a miss, the key maps to the new markup, and every other key keeps its value unless it was the evicted oldest one |
| HighlightCache.SameLengthSharesEntry | src/app/features/notes/components/note-viewer/note-viewer.component.ts:102-106 | two different contents of the same length under the same query share one cache entry, so the second is shown with the first's markup |
| HighlightCache.HoldsEleven | src/app/features/notes/components/note-viewer/note-viewer.component.ts:111-117 | a miss on ten entries grows the map to eleven, and a miss on eleven evicts exactly the oldest |
| Widgets.QuoteRoundTrip | src/app/features/notes/components/note-viewer/note-viewer.component.ts:325 | for a config that holds no literal `&quot;`, replacing `&quot;` by `"` undoes the attribute escaping of quotes |
| Widgets.LiteralEntityDecoded | src/app/features/notes/components/note-viewer/note-viewer.component.ts:325 | a config holding the literal text `&quot;` does not survive: escaped and unescaped, it comes back as a bare `"` |
| Widgets.Cleanup | src/app/features/notes/components/note-viewer/note-viewer.component.ts:359-365 | exactly the tracked components are destroyed, every other live component is kept unchanged, and the counter does not move |
| Widgets.MountPlaceholders | src/app/features/notes/components/note-viewer/note-viewer.component.ts:316-353 | positions without a config are untouched; those whose config fails to parse show the error; those that parse are replaced by a new attached component with that config; the new components are numbered consecutively from the counter, are the only additions, and are tracked in document order |
| Widgets.RenderWidgets | src/app/features/notes/components/note-viewer/note-viewer.component.ts:312-354 | after cleanup and mounting, the tracked list is exactly the components on the page, with distinct handles; the previously tracked ones are gone; untracked ones survive unchanged; nothing else is live |
| Widgets.WalkConfigs | src/app/features/notes/components/note-viewer/note-viewer.component.ts:319-352 | for every position visited so far, the page holds the placeholder, the error placeholder or a live host configured from that position's attribute |
| NoteLoader.Describe | src/app/features/notes/components/note-viewer/note-viewer.component.ts:250 | the description ends in `...` and is at most 163 characters long |
| NoteLoader.DescribeIsTrimmedStart | src/app/features/notes/components/note-viewer/note-viewer.component.ts:250 | the description is the first 160 characters with white space cut from both ends, then `...` |
| NoteLoader.NavigationStartsLoad | src/app/features/notes/components/note-viewer/note-viewer.component.ts:125-128 | a route id records the note, clears the error, hides the content and starts one new load (with metadata exactly when the note is known), changing nothing shown |
| NoteLoader.MissingIdShowsError | src/app/features/notes/components/note-viewer/note-viewer.component.ts:129-131 | a route without an id shows "No note ID provided", hides the content and starts no load |
| NoteLoader.RetryReloadsCurrent | src/app/features/notes/components/note-viewer/note-viewer.component.ts:276-280 | retry behaves as a navigation to the current note, and does nothing without one |
| NoteLoader.FailureShowsError | src/app/features/notes/components/note-viewer/note-viewer.component.ts:212-215 | a failed fetch shows "Failed to load note: " and the message, hides the content, leaves what was shown and ends the load |
| NoteLoader.DisplayChangesOnlyAtJoin | src/app/features/notes/components/note-viewer/note-viewer.component.ts:191-211 | title, icon, content and description change only together, only when a load has both faded out and delivered, and only with the fade-in queued in the same step |
| NoteLoader.VisibleOnlyByFadeIn | src/app/features/notes/components/note-viewer/note-viewer.component.ts:207-210 | content becomes visible only by running a queued fade-in, and one is queued only by a completed join |
| NoteLoader.EffectQueuesMountOnce | src/app/features/notes/components/note-viewer/note-viewer.component.ts:76-83 | the effect queues a mount pass exactly when the content is non-empty and new; running it again at once does nothing |
| NoteLoader.SequentialLoadsStayOneAtATime | src/app/features/notes/components/note-viewer/note-viewer.component.ts:158-216 | when each navigation waits for the running load, loads never overlap and content stays hidden while one runs |
| NoteLoader.SequentialLoadsSwapWhileHidden | src/app/features/notes/components/note-viewer/note-viewer.component.ts:162-204 | with loads that do not overlap, every content swap happens while the content is hidden |
| NoteLoader.OverlappingLoadSwapsWhileVisible | src/app/features/notes/components/note-viewer/note-viewer.component.ts:143-211 | as written: navigating to A, letting it fade and B start, then A's fetch and fade-in complete, B's fade-out and fetch replace the content while it is visible |
| NoteLoader.GuardedSwapWhileHidden | src/app/features/notes/components/note-viewer/note-viewer.component.ts:143-147 | with a load that applies its result only when it is still the newest, the content stays hidden while the newest load runs, and the display changes only at its join, while hidden, however loads overlap |
| NoteLoader.GuardedAgreesWhenSequential | src/app/features/notes/components/note-viewer/note-viewer.component.ts:158-216 | when loads do not overlap, the guarded step is the step of the code |
| NoteLoader.GuardedIgnoresStale | src/app/features/notes/components/note-viewer/note-viewer.component.ts:191-204 | with the guard, A's late completion after navigating to B leaves the title and content untouched |
| NoteLoader.StaleLoadOverwritesCurrent | src/app/features/notes/components/note-viewer/note-viewer.component.ts:191-204 | navigating to A and then B, A's completion shows A's content and title although B is the current note |
| NavTree.SetAll | src/app/features/notes/components/notes-navigation/notes-navigation.component.ts:223-242 | expanding or collapsing all keeps the tree's shape and sets every folder at every depth to the flag |
| NavTree.SetAllUnique | src/app/features/notes/components/notes-navigation/notes-navigation.component.ts:223-242 | any tree of the same shape with every folder at the flag is the one expand or collapse all produces |
| NavTree.Toggle | src/app/features/notes/components/notes-navigation/notes-navigation.component.ts:204-211 | toggling keeps the shape, flips the folder at the path and leaves a note or a missing path unchanged |
| NavTree.ToggleOthers | src/app/features/notes/components/notes-navigation/notes-navigation.component.ts:204-211 | toggling one folder leaves the flag at every other path unchanged |
| NavTree.ToggleTwice | src/app/features/notes/components/notes-navigation/notes-navigation.component.ts:204-211 | toggling the same folder twice gives the tree back |
| NavTree.ExpandPath | src/app/features/notes/components/notes-navigation/notes-navigation.component.ts:347-367 | the search answers true exactly when the note occurs; it only opens folders, keeps the shape, and changes nothing when the note is absent |
| NavTree.FirstPath | src/app/features/notes/components/notes-navigation/notes-navigation.component.ts:351-363 | the depth-first first occurrence of the note exists exactly when the tree contains it, and its path leads to that note |
| NavTree.ExpandPathFlags | src/app/features/notes/components/notes-navigation/notes-navigation.component.ts:347-367 | the search opens exactly the folders above the first occurrence of the note, and every other flag keeps its value |
| NavTree.TrackKeyInjective | src/app/features/notes/components/notes-navigation/notes-navigation.component.ts:333-341 | equal keys come from equal notes, or from folders with the same name at the same index |
| NavTree.TrackKeysDistinct | src/app/features/notes/components/notes-navigation/notes-navigation.component.ts:333-341 | on one level whose notes have distinct ids, all keys are distinct, whatever the folder names |
| NavSearch.TreeView | src/app/features/notes/components/notes-navigation/notes-navigation.component.ts:103-114 | a blank query or no results shows the whole tree; otherwise the results' notes are shown in relevance order |
| NavSearch.FlatViewShowsResults | src/app/features/notes/components/notes-navigation/notes-navigation.component.ts:111-113 | while searching, the view holds no folder and holds a note exactly when a result names it |
| NavSearch.FindResult | src/app/features/notes/components/notes-navigation/notes-navigation.component.ts:216-218 | the answer is absent exactly when no result has the id; otherwise it is the first result with the id |
| NavSearch.LastIndex | src/app/features/notes/components/notes-navigation/notes-navigation.component.ts:273-276 | the order map holds the last index of each id, and none for an id not found |
| NavSearch.SortedMeaning | src/app/features/notes/components/notes-navigation/notes-navigation.component.ts:304-324 | in a sorted level no note precedes a folder, and notes come in increasing order-map index |
| NavSearch.SortLevel | src/app/features/notes/components/notes-navigation/notes-navigation.component.ts:304-324 | the sort is a permutation whose result is ordered by the comparator |
| NavSearch.SortKeepsFolderOrder | src/app/features/notes/components/notes-navigation/notes-navigation.component.ts:312-313 | folders keep their original relative order |
| NavSearch.BuildFilteredTree | src/app/features/notes/components/notes-navigation/notes-navigation.component.ts:268-327 | the level is a sorted permutation of the filtered nodes, with the folders in their original order |
| NavSearch.FilteredContains | src/app/features/notes/components/notes-navigation/notes-navigation.component.ts:281-300 | the filtered level contains a note exactly when the tree contains it and a result names it |
| NavSearch.BuildContains | src/app/features/notes/components/notes-navigation/notes-navigation.component.ts:268-327 | the filtered tree contains a note exactly when the tree contains it and a result names it |
| NavSearch.BuildPruned | src/app/features/notes/components/notes-navigation/notes-navigation.component.ts:281-324 | every level of the filtered tree is sorted, every folder in it is open and non-empty, and every note in it was found |
| NavUrl.Leftmost | src/app/features/notes/components/notes-navigation/notes-navigation.component.ts:131-132 | the match position is the leftmost one where `/<slug>/` is followed by a character other than a line terminator |
| NavUrl.Run | src/app/features/notes/components/notes-navigation/notes-navigation.component.ts:131 | the greedy `(.+)` captures the longest prefix free of line terminators |
| NavUrl.CutAt | src/app/features/notes/components/notes-navigation/notes-navigation.component.ts:136 | `split(c)[0]` is the prefix before the first `c`, or the whole string |
| NavUrl.NoteIdFromUrl | src/app/features/notes/components/notes-navigation/notes-navigation.component.ts:131-136 | an id is read exactly when the expression matches somewhere; it holds neither `?` nor `#` nor a line terminator, it is a prefix of what follows the leftmost match, and it stops only at the end of the URL or at a `?`, `#` or line terminator |
| NavUrl.NoteIdRoundTrip | src/app/features/notes/components/notes-navigation/notes-navigation.component.ts:131-136 | a URL of the form `/<slug>/<id>` followed by nothing, a query, a fragment or a line break yields exactly `id` |
| NavComponent.OnTree | src/app/features/notes/components/notes-navigation/notes-navigation.component.ts:122-142 | an empty emission is ignored; without a match the new tree is stored as is; a decoding throw stores nothing; otherwise the new tree is stored with the path to the note opened, its shape kept and no folder closed |
| NavComponent.TreeOpensAncestors | src/app/features/notes/components/notes-navigation/notes-navigation.component.ts:128-138 | a new tree arriving while a note is routed has exactly the folders above the note's first occurrence opened, and every other flag as the tree brought it |
| NavComponent.OnNavigationEnd | src/app/features/notes/components/notes-navigation/notes-navigation.component.ts:161-180 | navigation only opens folders and keeps the shape; with no tree or no routed note nothing changes |
| NavComponent.NavigationOpensAncestors | src/app/features/notes/components/notes-navigation/notes-navigation.component.ts:161-180 | after navigating to a note, exactly the folders above its first occurrence have been opened |
| NavComponent.OnSearch | src/app/features/notes/components/notes-navigation/notes-navigation.component.ts:147-158 | a query that is not blank opens every folder and keeps the shape; a blank one changes nothing |
| MarkdownTables.MatchAtSpec | scripts/fix-markdown-tables.js:34 | the regex matches at a position exactly when some closing bar works, and the match found uses such a closing bar |
| MarkdownTables.MatchEndsLine | scripts/fix-markdown-tables.js:34 | a match always ends at its line's end, since `.` cannot cross a line terminator |
| MarkdownTables.Unchanged | scripts/fix-markdown-tables.js:25-38 | the text comes back unchanged exactly when the regex matches nowhere |
| MarkdownTables.NoRowNoChange | scripts/fix-markdown-tables.js:25-38 | a text with no line starting with a bar is unchanged |
| MarkdownTables.FixOnlyInserts | scripts/fix-markdown-tables.js:37 | the original text is embedded in order in the result: the replace only inserts characters |
| TableLines.JoinLines | scripts/fix-markdown-tables.js:34 | splitting a text into lines (CRLF counted as one terminator) and joining them gives the text back |
| TableLines.LinesJoin | scripts/fix-markdown-tables.js:34 | joining well-formed lines and splitting the result gives the lines back |
| TableLines.FixListSettles | scripts/fix-markdown-tables.js:21-23 | after the rewrite no table row is directly followed by text |
| TableLines.FixListKeeps | scripts/fix-markdown-tables.js:21-23 | lines in which no row is directly followed by text are left as they are |
| TableLines.ScanIsFixLines | scripts/fix-markdown-tables.js:25-38 | the global regex replace equals the line-by-line rule: after each row directly followed by text, an empty line with the row's newline is inserted |
| TableLines.Idempotent | scripts/fix-markdown-tables.js:16 | running `fixTableSpacing` twice is the same as running it once |

## Left out

- HTML parsing and serialisation are parameters (`parse`, `serialise`); the parser itself is left out. The pass as written (Dom.HighlightNodesAsWritten) hands the rewritten string to `parse`, as the code's `span.innerHTML` does. `highlightSearchTerms` and the cache use this pass. The corrected pass, which builds the span's children from the pieces, is kept beside it for the properties the code misses (see Findings).
- Dom.HighlightNodes: the replacement span is built from the marked pieces, not reparsed from the rewritten string as the code does; Dom.HighlightNodesAsWritten models that reparse, and Dom.SameNodesReplaced shows both replace the same nodes.
- Dom.SegmentNodes: states the text content of the corrected span; the code's span is whatever the parser makes of the markup, which can differ.
- Highlight.MarkTextKeepsText: holds for the corrected pass only; as written, a later term can rewrite markup inserted by an earlier one.
- Highlight.MarkTextClean: holds for the corrected pass only, for the same reason.
- Dom.HighlightKeepsText: holds for the corrected pass only; as written, text that looks like markup is reparsed into elements and can lose characters.
- Dom.HighlightIdempotent: holds for the corrected pass only; as written, a reparsed span may hold new elements whose text is walked again.
- Dom.HighlightFragmentKeepsText: holds for the corrected fragment pass (Dom.HighlightFragmentSegmented) only, for the same reason as Dom.HighlightKeepsText.
- HighlightCache.CacheKey: counts characters as Unicode scalar values, while the code's `length` counts UTF-16 code units, so "😀" has length 1 here and 2 in the code.
- Highlight.LongWords: the two-character threshold counts scalar values, so a query word made of one character outside the Basic Multilingual Plane is kept by the code (length 2) and dropped here.
- NoteLoader.Describe: the 160-character cut counts scalar values, not UTF-16 code units, so with such characters the code may cut at a different place, even inside a surrogate pair.
- `JSON.parse`, `decodeURIComponent` and the text extraction of a fetched note are parameters. A throw is `None`.
- `createComponent`, `setInput`, `attachView`, `insertBefore` and `destroy` are left out; they become updates of a registry of live components. A throw from component creation is not modelled; only a parse failure takes the error path.
- The error message written into a failed placeholder is reduced to a flag.
- Widgets.QuoteRoundTrip: holds only for configs without a literal `&quot;`; the code's global replace also decodes such text, so a config containing it is changed (Widgets.LiteralEntityDecoded).
- Timers (the 150 ms fade-out, the 300 ms search debounce), Angular signals, `effect`, `computed`, the router, the DOM sanitizer and change detection are left out. The load cycle is a state machine whose events are the timer, the fetch and the microtasks.
- `updateMetaTags` (title, Open Graph, Twitter and canonical tags) is left out. It is output only and affects no state of the model.
- The `meta` description is modelled as a field of the viewer state, not as the three meta tags.
- `console.error`, `ngAfterViewChecked` (empty) and `ngOnDestroy` are left out.
- The search service call in the search subscriber (`search`, `clearSearch`) is left out. The results are an input.
- `onSearchChange` and `clearSearch` only forward the query; they are not modelled.
- Case-insensitive matching folds ASCII letters only. JavaScript's full Unicode case folding is not modelled.
- NavUrl.NoteIdFromUrl: requires a slug without regex metacharacters. With such characters the code's pattern no longer means the literal path; the configured slug has none.
- NavSearch.SortLevel: does not state the order among notes with equal keys. Array sort is stable, and notes with the same id are indistinguishable in the view.
- `trackNode`'s `unknown-` fallback is not modelled. A node is always a note or a folder.
- The `processDirectory`, `main` and file I/O of the table fixer are left out, and so are its statistics output.
- The iconify loading service and the application configuration are not part of this model.

## Findings

| source | as written | input that shows it | evidently intended | confidence | as-written member | corrected member |
|---|---|---|---|---|---|---|
| src/app/features/notes/components/note-viewer/note-viewer.component.ts:401-415 | each term's global replace runs over the string that earlier terms have already rewritten, so a later term can match inside the `<mark class="search-highlight">` markup that an earlier term inserted | query "cat ma" on a text node "cat": "ma" matches inside the inserted `<mark` tag | only the note's text is marked, each occurrence once, and the markup stays well formed | not executed | Highlight.AsWrittenMarksInsideMarkup | Highlight.SegmentedMarksTextOnly |
| src/app/features/notes/components/note-viewer/note-viewer.component.ts:419-421, src/app/features/notes/components/note-viewer/note-viewer.component.ts:120 | the rewritten text node, with the note's own characters unescaped, is assigned to `span.innerHTML`, so text that looks like markup is parsed as markup | the text `const a<b>` searched for "const": the parser reads `<b>` as an element and the reader no longer sees "<b>"; a note text showing `<img src=x onerror=...>` as code becomes a live element, and the result is passed through `bypassSecurityTrustHtml` | only the matched words become elements; the rest of the text stays text | not executed | Dom.AsWrittenReparsesText | Dom.SegmentedKeepsMarkupText |
| src/app/features/notes/components/note-viewer/note-viewer.component.ts:143, src/app/features/notes/components/note-viewer/note-viewer.component.ts:191-211 | each load joins its fade-out and its fetch without checking that it is still the newest, and a completed load queues the fade-in | navigate to A, let A fade out, navigate to B, let A's fetch and fade-in complete, then B's fade-out and fetch: B's content replaces A's while the content is visible | the content swap happens only while the content is hidden, as the design comment says | not executed | NoteLoader.OverlappingLoadSwapsWhileVisible | NoteLoader.GuardedSwapWhileHidden |

Dom.HighlightFragment, and so `highlightSearchTerms` and the cache, run the pass as written. The corrected pass (Highlight.MarkText, Dom.HighlightNodes, Dom.HighlightFragmentSegmented) marks only text and builds the span from its pieces; Dom.SameNodesReplaced and Dom.FragmentPassesAgree show it replaces the same text nodes. Highlight.SingleTermAgrees proves that, for a single term, the as-written rewrite and the corrected one give the same markup.

Where the code differs from its own comments and design notes, the model follows the code:

- The cache comment says the last ten entries are kept. The guard is `size > 10`, so the map holds eleven (HighlightCache.HoldsEleven).
- A load that completes does not check that it is still the current note. A slower earlier load can overwrite the content of a later navigation (NoteLoader.StaleLoadOverwritesCurrent). The model keeps this race. NoteLoader.SequentialLoadsSwapWhileHidden states the fade guarantee for loads that do not overlap; NoteLoader.GuardedStep adds the missing newest-load check, and NoteLoader.GuardedSwapWhileHidden proves the guarantee for it with any overlap.
