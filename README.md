# PDF viewer search and highlights, modelled in Dafny

This project models the three components of the web viewer that edit the text layers of a
rendered PDF in place:

- the search box (`web/src/components/Search.tsx`) clears its old `mark.pdf-search-highlight`
  elements, finds every case-insensitive occurrence of the query in the text layers, wraps each
  one in a search mark, and moves the `current` class between the marks;
- the highlight button (`web/src/components/Highlight.tsx`) wraps the selected range in
  `mark.pdf-highlight` elements that carry a fresh id, and appends an item with that id, the
  selected text and the page number to the list of saved highlights;
- the side panel (`web/src/components/Sidebar.tsx`) removes a saved highlight: every mark with
  its id is unwrapped, the parent is normalized, and the item leaves the list.

The document is a tree of values (`Tree.Node`):

- text nodes;
- marks, which are either a search mark with its `current` flag or a highlight mark with its id;
- other elements, which record whether they are the PDF document element, a text layer, or a
  page `div` with a `data-page` number.

`Dom.Document` holds the body's children and is updated in place by the methods that stand for the
DOM calls: unwrapping by a selector, replacing one text node by the nodes that splitting and
wrapping it leave, and toggling the `current` class. A text node is named by its index among
the text nodes in document order (the order a `TreeWalker` with `SHOW_TEXT` visits them). A
search mark is named by its index among the search marks in document order.

The search component's state (`searchText`, the match list, `totalMatches`,
`currentMatchIndex` and an armed debounce timer) is the class `Search.SearchBox`. Its invariant
`Valid` says:

- the match list names every search mark on the page exactly once;
- the total agrees with the list;
- exactly one mark is current, the one the index points at.

Every handler of the search box keeps `Valid`. Highlighting and removing a highlight also
change the page. They keep the search marks' `current` flags, and those are all that `Valid`
reads of the page, so they keep `Valid` too.

The core proofs are these.

- A search keeps the visible text and every highlight mark. Each new mark, taken one by
  one, holds the text at its position, and that text lower-cases to the query.
- The positions the `indexOf` loop collects are exactly the greedy left-to-right,
  non-overlapping occurrences.
- A highlight puts exactly the selected text under marks with the new id.
- Removing that id gives back the text, the marks and the list as they were.
- Unwrapping keeps a normalized tree normalized.

The order of the match list follows the code, not a plain document order. The splitting loop
walks a text node's positions from last to first and `unshift`s each mark, so each text node's
marks go in front of the list, in their document order. The list therefore starts with the marks
of the last text node that has a match, and "next" from the first entry moves within that node and
then to the node before it. `Matches.MatchOrder` states this order, and
`Matches.MatchOrderExample` shows it on a small case. When a match starts at offset 0, the text
node itself (`remaining`) goes into the mark, with no split in front of it; the model does the
same.

## Model

| member | source | states |
|---|---|---|
| Dom.Document.UnwrapAll | web/src/components/Search.tsx:16-21 | the document becomes `Unwrapped(old, sel)`: every mark the selector matches is unwrapped, one at a time in document order, each followed by the parent's `normalize()` |
| Unwrap.UnwrappedReads | web/src/components/Search.tsx:16-21 | after unwrapping, the visible text is unchanged, no matching mark is left, the remaining marks are the old ones minus exactly the matching ones, in order, and with no matching mark nothing changes |
| Unwrap.UnwrappedOthers | web/src/components/Sidebar.tsx:25-32 | unwrapping by one selector leaves the number of marks of every disjoint selector unchanged; removing highlights keeps the search marks' `current` flags, and clearing the search leaves no search flag |
| Unwrap.UnwrapFirstReads | web/src/components/Search.tsx:17-20 | unwrapping one mark keeps the text and removes just the first matching mark from the mark sequence |
| Unwrap.NormalizeReads | web/src/components/Search.tsx:20 | `normalize()` gives a normalized tree (no empty and no adjacent text nodes) with the same text and the same marks |
| Unwrap.RemoveAllTwice | web/src/components/Search.tsx:16-21 | deleting the matching marks twice is deleting them once |
| Sidebar.UnwrappedNormal | web/src/components/Sidebar.tsx:25-32 | unwrapping all matching marks keeps a normalized tree normalized |
| Sidebar.UnwrapFirstNormal | web/src/components/Sidebar.tsx:28-31 | unwrapping the first matching mark and normalizing its parent keeps a normalized tree normalized |
| Sidebar.MoveOut | web/src/components/Sidebar.tsx:28-30 | moving the mark's first child in front of it until it has none, and then removing the mark, leaves the mark's children in its place in their order, with the siblings unchanged |
| Search.Cleared | web/src/components/Search.tsx:15-25 | once cleared, the page has no search mark and no search flag |
| Search.SearchBox.Clear | web/src/components/Search.tsx:15-25 | `clearSearchHighlights`: the document becomes the search marks unwrapped, and the match list, total and index are reset while `Valid` is kept |
| JsString.Lower | web/src/components/Search.tsx:35 | `toLowerCase` keeps the length |
| JsString.LowerAppend | web/src/components/Search.tsx:35 | lower-casing a concatenation gives the two lower-cased parts |
| JsString.LowerSlice | web/src/components/Search.tsx:47-48 | lower-casing a slice gives the same slice of the lower-cased string, so a position in the lower-cased text is the same position in the node |
| JsString.LowerTwice | web/src/components/Search.tsx:35 | lower-casing is idempotent |
| JsString.TrimReads | web/src/components/Search.tsx:29 | `trim()` is empty exactly when the string is all white space; otherwise the trimmed string neither starts nor ends with white space |
| JsString.IndexOf | web/src/components/Search.tsx:53 | `indexOf(q, from)` is -1 or a position at or after `from` where the query occurs |
| JsString.IndexOfReads | web/src/components/Search.tsx:53 | `indexOf(q, from)` is -1 exactly when the query does not occur at or after `from`; otherwise no occurrence comes before it |
| JsString.OccurrencesSound | web/src/components/Search.tsx:51-57 | every collected position is an occurrence, and they increase without overlapping |
| JsString.OccurrencesComplete | web/src/components/Search.tsx:51-57 | every occurrence is a collected position or overlaps one |
| JsString.OccurrencesGreedy | web/src/components/Search.tsx:51-57 | no occurrence starts before the first collected position or between the end of one position and the next |
| JsString.OccurrencesNone | web/src/components/Search.tsx:51-58 | nothing is collected exactly when the query does not occur, which is when the loop goes on to the next text node |
| JsString.ScanPositions | web/src/components/Search.tsx:50-57 | the `searchFrom` loop returns exactly the greedy non-overlapping occurrences |
| Matches.HitsReads | web/src/components/Search.tsx:46-57 | the positions recorded for a text node are increasing, non-overlapping occurrences of the lower-cased query in the lower-cased node text; in a text layer they are what the scan collects |
| Matches.SplitAndWrap | web/src/components/Search.tsx:60-73 | the reverse loop of `splitText` and wrapping leaves the run `Frag` and puts the new marks' numbers, in document order, in front of the list |
| Matches.WrappedTexts | web/src/components/Search.tsx:60-73 | the search marks of a split and wrapped text node are one per position, and the t-th holds the text at the t-th position, which lower-cases to the query |
| Matches.WrappedReads | web/src/components/Search.tsx:60-73 | splitting and wrapping a text node keeps its text and adds one fresh non-current search mark per position; taken one by one, the t-th mark holds the text at the t-th position, which lower-cases to the query |
| Matches.MatchOrderPerm | web/src/components/Search.tsx:72 | the match list holds each search mark number below the total exactly once |
| Matches.MatchOrderAt | web/src/components/Search.tsx:60-73 | the t-th match of text node j stands at position `Sum(after j) + t` of the list: after the marks of every later node |
| Matches.MatchOrderExample | web/src/components/Search.tsx:72 | with one match in the first text node and two in the second, the list is `[1, 2, 0]` |
| Search.SearchBox.WrapMatches | web/src/components/Search.tsx:37-73 | the loop over the text-layer nodes leaves the document `Matched(old, q)` (every text node split and wrapped) and returns the match list `MatchOrder` of the per-node counts |
| Search.SearchBox.PerformSearch | web/src/components/Search.tsx:27-84 | `performSearch(text)`: the document becomes `Searched(old, text)`, the match list becomes `SearchOrder(old, text)`, total is its length, index is 0, and `Valid` holds |
| Search.SearchedTexts | web/src/components/Search.tsx:27-84 | after a search there is one search mark per list entry, and each holds a text that lower-cases to the query |
| Search.SearchedReads | web/src/components/Search.tsx:27-84 | a search keeps the visible text and every highlight mark, names each new search mark once in the match list, makes only the first entry current, and leaves one search mark per list entry, each of which holds a text that lower-cases to the query |
| Search.SearchBlank | web/src/components/Search.tsx:28-29 | a blank query only clears, and the match list is empty |
| Search.SearchDone | web/src/components/Search.tsx:76-83 | after the loop, the match list is the search order, and making its first entry current gives the searched page; with no match nothing is made current |
| Search.SearchValid | web/src/components/Search.tsx:76-83 | a search leaves a state the component keeps: the list is a permutation of the marks and only its first entry is current |
| Search.Next | web/src/components/Search.tsx:103 | the next match is the one after, going round from the last to the first |
| Search.Prev | web/src/components/Search.tsx:104 | the previous match is the one before, going round from the first to the last |
| Search.NextPrev | web/src/components/Search.tsx:101-104 | next and previous undo each other |
| Search.MoveFlags | web/src/components/Search.tsx:100-105 | removing `current` from one match and adding it to another makes that other match the only current one |
| Current.SetCurrentFlags | web/src/components/Search.tsx:100-105 | toggling the class of the r-th search mark changes just that mark's flag, and no selector counts a different number of marks |
| Current.SetCurrentReads | web/src/components/Search.tsx:82 | toggling the class keeps every text node, the text, and every mark other than that flag |
| Current.SetCurrentSelected | web/src/components/Search.tsx:100-105 | toggling the class leaves the text under every selector unchanged |
| Current.SetCurrentTexts | web/src/components/Search.tsx:100-105 | toggling the class leaves every selector's marks, one by one, with the text they hold |
| Dom.Document.SetCurrentClass | web/src/components/Search.tsx:100-105 | `classList.add/remove('current')` on the r-th search mark gives `SetCurrent(old, r, b)` |
| Search.MovedReads | web/src/components/Search.tsx:100-105 | moving `current` keeps the text nodes, the text and every highlight mark; of the search flags, the old match's is switched off and then the new match's on |
| Search.SearchBox.Navigate | web/src/components/Search.tsx:96-109 | `navigateSearch`: with no matches nothing changes; otherwise the index moves to the next or previous match, going round, the page becomes the old page with `current` taken off the old match and put on the new one, and that match is the only current one |
| Search.SearchBox.SetSearchText | web/src/components/Search.tsx:86-89 | editing the box sets the text and arms the debounce timer when the text changed; the search state is untouched and `Valid` is kept |
| Search.SearchBox.Fire | web/src/components/Search.tsx:86-89 | when the timer fires, the search runs on the text in the box and the timer is disarmed |
| Search.SearchBox.HandleClearSearch | web/src/components/Search.tsx:91-94 | the box is emptied, the timer is armed when the text was not empty, and the search marks are cleared |
| Search.SearchBox.KeyDown | web/src/components/Search.tsx:119-128 | Enter does what `navigateSearch` does, forward or (with Shift) back: nothing with no match, otherwise the index and the `current` class move and the list, total and box stay; Escape does what `handleClearSearch` does: the box is emptied, the search marks are unwrapped and the list, total and index are reset; any other key changes nothing |
| Search.SearchBox.Counter | web/src/components/Search.tsx:130-133 | nothing is shown exactly when the box is empty; "No results" shows exactly when the text is not empty and there is no match; otherwise the position is shown, as `index + 1` of `total`, and in a kept state the total is the number of search marks and the position lies in 1 to total |
| Split.WrapSpan | web/src/components/Highlight.tsx:15-22 | splitting at the end, then at the start, and wrapping the middle leaves the text before, the mark holding the middle, and the text after; an offset at either end leaves no piece on that side |
| Split.SpanReads | web/src/components/Highlight.tsx:15-22 | the split run has the node's text, holds one new mark, and that mark holds exactly the middle |
| Highlight.CollectRange | web/src/components/Highlight.tsx:31-39 | the walker collects the text nodes from the start container to the end container, both included, in document order |
| Highlight.HighlightRange | web/src/components/Highlight.tsx:6-55 | `highlightRange`: the document becomes `Highlighted(old, r, id)`, for a range in one text node and for a range over several |
| Highlight.PieceReads | web/src/components/Highlight.tsx:41-53 | the nodes one text node becomes keep its text; their marks are exactly one highlight mark with the id when the node's part is not skipped, and none when it is; under the mark lies the part between the two bounds |
| Highlight.HighlightedContent | web/src/components/Highlight.tsx:6-55 | highlighting keeps the visible text |
| Highlight.HighlightedOthers | web/src/components/Highlight.tsx:6-55 | highlighting adds only marks with the new id, so every other mark is where it was, and the search flags are unchanged |
| Highlight.HighlightedText | web/src/components/Highlight.tsx:41-54 | with a fresh id, the text under the new marks is exactly the selected text, from the start offset in the start node to the end offset in the end node |
| Highlight.HighlightedCount | web/src/components/Highlight.tsx:41-54 | highlighting adds exactly one mark with the id per text node of the range whose part is not empty, and none for a node the loop skips (`start >= end`) |
| Highlight.HighlightedOne | web/src/components/Highlight.tsx:10-23 | a range inside one text node gets exactly one new mark |
| Rewriting.RewriteCount | web/src/components/Highlight.tsx:41-54 | after rewriting text nodes, the marks of a selector are the old ones plus those the edits of the chosen nodes put in |
| Highlight.AncestorOne | web/src/components/Highlight.tsx:67-69 | for a range inside one text node, the common ancestor's context is that node's context |
| Highlight.AncestorInside | web/src/components/Highlight.tsx:67-70 | every text node of the range lies inside the common ancestor, so it is in the document whenever the ancestor is |
| Highlight.OutcomeReads | web/src/components/Highlight.tsx:62-84 | when `handleHighlight` saves an item, the selection was a non-collapsed range inside the PDF document, and the item is the fresh id, the trimmed selection text (never empty), and the page of the nearest `data-page` ancestor, or 0 |
| Highlight.OutcomeInside | web/src/components/Highlight.tsx:67-70 | a saved highlight covers only text nodes inside the PDF document |
| Highlight.OutcomeText | web/src/components/Highlight.tsx:72-84 | for a single range, the saved text is the trimmed DOM text under the new marks, taking `selection.toString()` to be the DOM text of its ranges |
| Highlight.OutcomePage | web/src/components/Highlight.tsx:75-78 | for a range in one text node, the page number is that node's page |
| Highlight.OutcomeGuards | web/src/components/Highlight.tsx:64-70 | a collapsed selection, and a range whose start lies outside the PDF document, save nothing |
| Highlight.HandleHighlight | web/src/components/Highlight.tsx:62-85 | when a guard stops it, nothing changes and the selection is kept; otherwise the first range is highlighted, the selection is emptied and the item is appended to the list; the ids stay unique when the id is fresh; the search marks' `current` flags are kept |
| Sidebar.RemoveHighlight | web/src/components/Sidebar.tsx:24-35 | `removeHighlight(id)`: the document becomes every mark with that id unwrapped, and the list is filtered by the id; the search marks' `current` flags are kept |
| Sidebar.RemovedReads | web/src/components/Sidebar.tsx:24-33 | after a removal no mark with the id is left, the text and the other marks are unchanged, the search flags are kept, and a missing id changes nothing |
| Sidebar.RemoveTwice | web/src/components/Sidebar.tsx:24-33 | removing twice does what removing once does, on the page and on the list |
| Sidebar.HighlightThenRemove | web/src/components/Sidebar.tsx:24-33 | removing a highlight just made with a fresh id gives back the page's text and marks and the list as they were |
| Sidebar.FilterMembers | web/src/components/Sidebar.tsx:33 | an item stays exactly when it is on the list and has another id |
| Sidebar.FilterAppend | web/src/components/Sidebar.tsx:33 | filtering works piece by piece, so the items that stay keep their order |
| Sidebar.FilterTwice | web/src/components/Sidebar.tsx:33 | after filtering no item has the id, and filtering again changes nothing |
| Sidebar.FilterUndoesAppend | web/src/components/Sidebar.tsx:33 | filtering out a just-appended item with a fresh id gives back the list before it |

## Left out

- React itself is not modelled: rendering, state batching, `useCallback` and the icons and
  buttons. A state setter takes effect at once, and the component state is the fields of
  `Search.SearchBox`.
- Search.SearchBox.SetSearchText: the 300 ms debounce is a `pending` flag. The clock is not
  modelled: `Fire` stands for the timer running out, so the last text typed is the one searched.
- `scrollIntoView`, `preventDefault` and `blur()` have no effect on the document tree and are
  left out.
- `window.getSelection()` and `crypto.randomUUID()` are parameters of
  `Highlight.HandleHighlight`. The id's uniqueness is a precondition of the lemmas that need it,
  not something the model draws at random. Only ranges whose two boundary points lie in text
  nodes are modelled (`TextRange`). A range with an element boundary point, such as one from a
  triple-click, is not. In the code such a range takes the many-node branch, whose walker visits
  only text nodes. When the start is an element, the walker never meets it and nothing is
  wrapped. When only the end is an element, the walker never stops, so every text node from the
  start to the end of the common ancestor is wrapped. Either way the item is still appended.
- Highlight.HandleHighlight: only the first range of the selection is highlighted, as in the
  code. `selection.toString()` is modelled as the DOM text of all its ranges, joined. A browser
  serializes the rendered text instead: it puts a line break where a `<br>` or a block boundary
  lies and leaves out invisible text. The text layers put a `<br>` after each line, so for a
  selection across two lines the code saves a text with a line break where the model saves the
  two text nodes joined. Those inserted line breaks are not modelled.
- JsString.Lower: `toLowerCase` maps only the ASCII letters. Unicode case mapping is not
  modelled.
- Strings are sequences of Dafny `char`s, which are Unicode scalar values. JavaScript lengths
  and offsets (`indexOf`, `splitText`, the offsets of a range) count UTF-16 code units. Text
  with characters outside the Basic Multilingual Plane, or with lone surrogates, is therefore
  indexed differently in the model than in the code.
- Node identity is modelled by position: a text node is its index among the text nodes and a
  mark is its index among the search marks. Aliasing of DOM objects is not modelled.
- Search.SearchBox.WrapMatches: the walker runs over every text node of the document and skips
  those outside a text layer of the PDF document element. This collects the same nodes as one
  walker per text layer, provided text layers do not nest. When there is no document element,
  no text node is searchable and nothing is wrapped, which has the same effect as the early
  return. The code's `querySelector` takes only the first `.react-pdf__Document` element. The
  model treats text layers under every document element as searchable, so a page with more
  than one such element is searched more widely than by the code.
- Highlight.CollectRange: it walks from the first text node of the document, not from the common
  ancestor, and collects the same nodes.
- Highlight.PageNumber: a `data-page` value is a natural number. A non-numeric attribute
  (`Number` giving `NaN`) is not modelled.
- Search.SearchBox.constructor: the component is created on a page with no search mark, which
  is the state before its first search.
- Sidebar.MoveOut is stated on the children of one parent. Inside `Unwrap.UnwrapFirst` the same
  splice is written as a function on the tree, and `Dom.Document.UnwrapAll` applies that
  function.
- Sidebar.HighlightThenRemove gives back the text and the marks, not the identical tree:
  `normalize()` merges text nodes that were split before the highlight.
