# FilteredList in Dafny

A model of the `FilteredList` control: a host-framework dataset component.
On each update it renders a record set as a table of rows in a `table-like`
container. Values of the column displayed as "Tags" become chip
spans, and every distinct tag becomes a selectable chip in a
`selectable-tags` palette. Clicking chips builds a list of selected tags
(`_selectedTags`). The filter pass then shows only the rows in which some
selected tag's CSS class is found; with no selection it shows every row.

The project has these modules:

- `Text` (`text.dfy`): the JavaScript string and array primitives the control relies on.
  - `split` keeps its empty pieces.
  - `indexOf` gives -1 when the element is absent.
  - Occurrence counting.
  - ASCII `toLowerCase`.
- `Css` (`css.dfy`): class names.
  - `sanitizeNameToCss`, i.e. `toLowerCase().replace(' ', '-')`, which replaces only the FIRST space.
  - The token matching of `getElementsByClassName`.
- `Selection` (`selection.dfy`): the two updates of `_selectedTags`.
  - `push(text)` on select.
  - `splice(indexOf(text), 1)` on deselect.
  - `splice(-1, 1)` removes the last element.
- `View` (`view.dfy`): what `updateView` renders, as plain data.
  - The record set, the header and row divs, and the tag spans.
  - `allTags`, `uniqueTags` and the palette chips.
- `Filter` (`filter.dfy`): the visibility outcome of `filterList` as a specification function, with lemmas about it.
- `Widget` (`filtered_list.dfy`): the class `FilteredList`.
  - Its fields are the container's rows, the palette's chips and `_selectedTags`.
  - `UpdateView`, `Click` and `FilterList` are methods with the source's loops, proved against the `View` and `Filter` functions.
  - The class invariant `Consistent` says every selected chip's text is in `_selectedTags`. As a result, a deselect never takes the "remove the last element" path of `splice(-1, 1)`.
- `Scenarios` (`scenarios.dfy`): concrete runs of the model.
  - Sanitised names.
  - A three-record table tagged `a;b`, `b;c`, `a`: its palette, and the filter outcome for one and for two selected tags.
  - A chip clicked twice.
  - A selection that survives a re-render.

Where the code may surprise a reader, the model follows it:

- A Tags value such as `"Red;;Blue"` renders a chip span for the empty piece too (`index.ts:80-85`). Only the palette drops the empty tag (`index.ts:101`).
- The Tags column is recognised by its display name `"Tags"`, not by its column name (`index.ts:74`).
- Filtering is OR only: a row is shown when ANY selected tag is found in it (`index.ts:141-149`).
- `updateView` rebuilds the palette with every chip unselected but keeps `_selectedTags` and runs no filter pass (`index.ts:100-121`). After a re-render, tags selected earlier therefore stay active and hide rows at the next click although no chip shows them as selected. `Consistent` is stated as an inequality for this reason. `Scenarios.SelectThenUpdate` and `Scenarios.ReselectAfterUpdate` exhibit it.
- Selecting then deselecting a chip always restores the multiset of selected tags. It restores the list itself exactly when every element from the tag's first occurrence onward is that tag (`Selection.SelectThenDeselectRestoresIff`): always when the tag was not selected before, and also for `["b"]`, but `["b", "a"]` becomes `["a", "b"]`.
- `sanitizeNameToCss` replaces only the first space: "Dark Blue Green" becomes "dark-blue green", which is two class tokens.

## Model

| member | source | states |
|---|---|---|
| Text.IndexOf | FilteredList/index.ts:114 | `indexOf` is -1 exactly when the element is absent; otherwise it is the position of its first occurrence |
| Text.Split | FilteredList/index.ts:77 | `split(';')` gives one more piece than there are separators, and no piece contains the separator |
| Text.JoinSplit | FilteredList/index.ts:77 | joining the pieces of `split` with the separator gives back the original value |
| Text.SplitJoin | FilteredList/index.ts:77 | splitting a join of separator-free pieces gives back exactly those pieces, empty ones included |
| Text.LowerCase | FilteredList/index.ts:42 | `toLowerCase`: the same length, every character mapped to its ASCII lower case |
| Css.ReplaceFirst | FilteredList/index.ts:42 | `replace(from, to)` with a one-character pattern: the length is kept; which character changes is stated by `Css.Sanitize` |
| Css.Sanitize | FilteredList/index.ts:41-43 | the result has the name's length; every character is lowercased, except that the first space, and only it, becomes '-' |
| Css.SanitizeSpaces | FilteredList/index.ts:42 | sanitising removes exactly one space when the name has any, so every later space survives |
| Css.SanitizeIsLowerCase | FilteredList/index.ts:42 | a sanitised name is its own lowercase form |
| Css.SanitizeIdempotentIff | FilteredList/index.ts:42 | sanitising twice equals sanitising once if and only if the name has at most one space |
| Css.ClassTokens | FilteredList/index.ts:144 | the class tokens of a class list, as `getElementsByClassName` reads it: its space-separated pieces without the empty ones, so no token is empty or holds a space |
| Css.ClassTokensAppend | FilteredList/index.ts:82 | the class tokens of `"tag " + key` are "tag" followed by the tokens of the key |
| Css.MatchesClassNames | FilteredList/index.ts:144 | the class-name test of `getElementsByClassName(query)` for one element: the query has at least one space-separated token, and the element's class list carries every one of them |
| Css.SanitizedClassIsFound | FilteredList/index.ts:82 | for a non-empty tag, a span classed `"tag " + sanitised tag` is found by `getElementsByClassName(sanitised tag)` (line 144) |
| Selection.ActualStart | FilteredList/index.ts:114 | where `splice` starts: a start within the array is kept, a negative start counts back from the end (and stops at 0), a start past the end is the end |
| Selection.SpliceOne | FilteredList/index.ts:114 | `splice(start, 1)` removes the element at `start` when it is in range, and the last element when `start` is -1 |
| Selection.RemoveOne | FilteredList/index.ts:114 | the deselect branch `splice(indexOf(text), 1)`: the list gets one element shorter, unless it is empty |
| Selection.AfterClick | FilteredList/index.ts:113-114 | the update chosen by the chip's state after the toggle: a now-selected chip adds one copy of its text (the list grows by one); a now-unselected chip removes one element from a non-empty list |
| Selection.RemoveOneRemoves | FilteredList/index.ts:114 | `splice(indexOf(x), 1)` removes the first `x` and one copy from the multiset when `x` is present; it removes the last element when `x` is absent |
| Selection.SelectThenDeselect | FilteredList/index.ts:111-116 | a push followed by the splice of the same text restores the multiset, and restores the list when the text was not selected before |
| Selection.SelectThenDeselectRestoresIff | FilteredList/index.ts:111-116 | a push followed by the splice of the same text gives back the very same list if and only if every element from the text's first occurrence onward is that text |
| View.GetValue | FilteredList/index.ts:74 | `getValue(column.name)`: the record's value for the column, or null when the record has none |
| View.TextOf | FilteredList/index.ts:92 | the text a plain cell shows: the value, or empty text for null |
| View.HeaderCell | FilteredList/index.ts:61-64 | one header span: classed `element ` unless the column is displayed as "Tags", showing the display name |
| View.IsTagsCell | FilteredList/index.ts:74 | the branch condition: the column is displayed as "Tags" and the value is not null |
| View.TagSpan | FilteredList/index.ts:81-83 | the chip span of one tag in a row: classed `"tag "` plus the inline sanitised tag, showing the tag |
| View.Header | FilteredList/index.ts:58-66 | the header div: classed `header`, shown, one plain span per column showing the column's display name |
| View.RecordCell | FilteredList/index.ts:72-96 | one column's child in a record's row: a tags box exactly when the column is displayed as "Tags" and the value is not null; otherwise a span showing the value, or empty text for null |
| View.RecordRow | FilteredList/index.ts:70-97 | a record's row div: classed `row`, shown, one child per column |
| View.Table | FilteredList/index.ts:54-98 | the container after an update: the header followed by one shown `row` div per record id, so one more child than there are ids |
| View.RecordTags | FilteredList/index.ts:72-78 | the tags a record adds to `allTags` (its non-null Tags cells split on ';', empty pieces kept): no tag contains ';' |
| View.AllTagsUpTo | FilteredList/index.ts:69-78 | `allTags` after the first records in sort order, duplicates and empty pieces kept: no tag contains ';' |
| View.UniqueTagsUpTo | FilteredList/index.ts:100-102 | the filter keeps no duplicate and no empty string; it keeps every other tag of `allTags`, in the order of first occurrence |
| View.UniqueTags | FilteredList/index.ts:100-102 | `uniqueTags` of the whole `allTags`: no duplicates, and a tag is in it exactly when it is a non-empty element of `allTags` |
| View.Palette | FilteredList/index.ts:106-108 | the chips built from `uniqueTags`: one per tag in the same order, each showing its tag, classed with its sanitised form and `unselected` |
| View.TableShape | FilteredList/index.ts:52-98 | the table is one header followed by one shown row per record id in sort order, with one child per column; a child is a tags box exactly when the column is displayed as "Tags" and the value is not null |
| View.RowTagsAreRecordTags | FilteredList/index.ts:72-96 | the chip spans of a record's row show exactly the tags the record adds to `allTags`, in order |
| View.AllTagsAreRenderedTags | FilteredList/index.ts:69-98 | `allTags` is exactly the sequence of chip spans in the rendered rows, in table order |
| View.PaletteTagsAreRendered | FilteredList/index.ts:100-119 | every palette chip starts unselected, carries its sanitised text as class, and names a tag shown in some row |
| Filter.ChildHas | FilteredList/index.ts:144 | `getElementsByClassName(query)` finds something in one child of a row: the plain span itself, or the `tags` div or one of its chip spans |
| Filter.RowHas | FilteredList/index.ts:144 | `row.getElementsByClassName(query).length > 0`: some descendant of the row matches the query; the row div itself is not a candidate |
| Filter.Selects | FilteredList/index.ts:140-149 | the `tagFound` result for a row: some selected tag's sanitised form is found in it |
| Filter.FilterRow | FilteredList/index.ts:126-152 | one container child after the pass: the header is untouched; its class and children never change; with no selection a row is shown; otherwise it is hidden exactly when no selected tag is found in it |
| Filter.Filtered | FilteredList/index.ts:126-152 | the container after `filterList`: the same number of children, each keeping its class and its children, with the visibility `FilterRow` gives it |
| Filter.FilteredRows | FilteredList/index.ts:135-152 | with a non-empty selection, a row other than the header is shown exactly when some selected tag's sanitised form is found in it |
| Filter.FilterForgetsEarlierPasses | FilteredList/index.ts:126-152 | the outcome does not depend on the visibility an earlier pass left, so running the pass twice is running it once |
| Filter.FilterDependsOnTagSet | FilteredList/index.ts:141-149 | only the set of selected tags matters, not their order or duplicates |
| Filter.FilterMonotone | FilteredList/index.ts:141-149 | selecting one more tag never hides a row that a non-empty selection shows |
| Filter.SelectedTagShowsRow | FilteredList/index.ts:137-151 | a row showing a chip span of a selected non-empty tag is shown |
| Filter.SelectedTagShowsItsRecords | FilteredList/index.ts:74-85 | in a freshly rendered table, every record whose Tags value contains a selected non-empty tag keeps its row shown |
| Widget.Flip | FilteredList/index.ts:113 | the `classList` toggle of chip `i`: its `unselected` state is inverted and its text kept; every other chip is unchanged |
| Widget.FlipCounts | FilteredList/index.ts:113 | toggling a chip's `unselected` class changes the count of selected chips with its text by exactly one, and leaves all other texts' counts alone |
| Widget.FreshPaletteHasNoSelection | FilteredList/index.ts:106-108 | no chip of a freshly built palette is selected |
| Widget.FilteredList.constructor | FilteredList/index.ts:10 | the control starts with no rows, no chips and no selected tag |
| Widget.FilteredList.UpdateView | FilteredList/index.ts:49-122 | while loading, nothing changes; otherwise the container becomes the table and the palette the chips of the unique tags; `_selectedTags` and the class invariant are kept |
| Widget.FilteredList.BuildHeader | FilteredList/index.ts:58-66 | the header div has one span per column; the span is classed `element` unless the column is displayed as "Tags" |
| Widget.FilteredList.BuildRow | FilteredList/index.ts:70-97 | the row div of one record, and the tags it appends to `allTags` |
| Widget.FilteredList.BuildCell | FilteredList/index.ts:74-94 | one column's child is a tags box exactly for a non-null Tags value, which also contributes its `split` pieces; otherwise it is a plain span |
| Widget.FilteredList.BuildTagSpans | FilteredList/index.ts:80-85 | one chip span per piece, empty pieces included, each showing its piece |
| Widget.FilteredList.BuildPalette | FilteredList/index.ts:106-119 | one unselected chip per unique tag, classed with the sanitised tag |
| Widget.FilteredList.Click | FilteredList/index.ts:111-116 | the chip is toggled; a now-selected chip's text is appended; a now-unselected chip's text was in the list and loses exactly one copy; the filter pass then runs; the class invariant is kept |
| Widget.FilteredList.FilterList | FilteredList/index.ts:124-153 | the container becomes the filter outcome for the current selection; the palette and `_selectedTags` are unchanged |
| Widget.FilteredList.TagFound | FilteredList/index.ts:140-149 | the `tagFound` flag ends true exactly when some selected tag's sanitised form is found in the row |
| Scenarios.SanitizeTwoWords | FilteredList/index.ts:41-43 | "Row Label" sanitises to "row-label" |
| Scenarios.SanitizeThreeWords | FilteredList/index.ts:41-43 | "Dark Blue Green" sanitises to "dark-blue green": only the first space is replaced |
| Scenarios.SpliceMinusOneExample | FilteredList/index.ts:114 | removing an absent "Green" from ["Red", "Blue"] drops "Blue" |
| Scenarios.DistinctPaletteExample | FilteredList/index.ts:100-102 | tags "Red", "Blue", "Blue", "Green" give the palette "Red", "Blue", "Green" |
| Scenarios.NoRecords | FilteredList/index.ts:56-102 | a record set without records renders the header alone and an empty palette |
| Scenarios.ShopTags | FilteredList/index.ts:69-98 | records tagged `a;b`, `b;c`, `a` collect `allTags` = a, b, b, c, a |
| Scenarios.ShopPalette | FilteredList/index.ts:100-102 | the palette of those records is a, b, c |
| Scenarios.ShopFilter | FilteredList/index.ts:135-152 | selecting `b`, or `b` and `c`, shows the two rows tagged with them and hides the row tagged only `a` |
| Scenarios.SelectThenUpdate | FilteredList/index.ts:49-122 | after a selection and a re-render, `_selectedTags` still holds the tag while the new palette shows no chip selected |
| Scenarios.ReselectAfterUpdate | FilteredList/index.ts:111-116 | after that re-render, clicking the chip twice leaves the stale selection in place, and it hides the row tagged only `a` |

`Scenarios.ClickTwice` is a method without a contract: it walks through a select and a deselect on the three-record table, asserting the intermediate states.

## Left out

- The DOM itself is not modelled: element creation, `innerHTML`, CSS styling and `innerText` normalisation. The container and the palette are sequences of datatype values, and "display: none" is a boolean.
- The host lifecycle is not modelled: `init`, `getOutputs`, `destroy` and the Context API. The record set is a parameter of `UpdateView`. `WellFormed` is the host's promise that every sorted id names a record.
- Click events, `addEventListener` and `e.srcElement` are not modelled. A click is a call of `Click` with the chip's index in the palette.
- `toLowerCase` is modelled for ASCII letters only; other Unicode case mappings are not modelled.
- Class lists are split on the space character only; tabs and other whitespace separators are not modelled.
- Widget.FilteredList.FilterList: the source's inner loop tests `tagFound || getElementsByClassName(...)` (`index.ts:144`), so it calls `removeProperty("display")` for the first selected tag found in the row and again for every selected tag after it, found or not. The model sets the row's visibility once, after the inner loop, which has the same outcome.
- Widget.FilteredList.BuildRow: its contract does not restate that the row's chip spans equal the record's tags. That connection is proved separately by `View.RowTagsAreRecordTags`.
- A selected tag whose sanitised form is `tag`, `tags` or `element` is found in every row that has chip spans, a tags box or plain cells respectively. Likewise, plain cells are classed `"element "` plus the sanitised display name of their column (`index.ts:91`), so a selected tag whose sanitised form equals the sanitised display name of a non-Tags column (a tag "Price" with a column shown as "Price") is found in every row. The model reproduces both through its class-token matching, but no lemma states them.
- The `unselected` class sharing a token with a chip's own sanitised tag (a tag named "Unselected") is not modelled; the chip state is a separate boolean.
