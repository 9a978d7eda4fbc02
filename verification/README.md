# Select combobox — a Dafny model

This project models the `Select` component of `src/components/select/Select.tsx`. `Select` is a React combobox: a text input with a popup list of options. The user can filter the list by typing, move through it with the arrow keys, pick a row by clicking it, and clear the pick with an icon.

The component's `useState` cells and its `select` and `action` refs become one immutable `State` record. Each event handler becomes a pure function from state to state. The model has five modules:

- `Text`: the three JavaScript string operations the label filter is built from: `toLowerCase`, `trim` and `includes`.
- `Options`:
  - the case- and whitespace-insensitive label filter;
  - the `reduce` that finds the longest label;
  - the control width derived from that label.
- `Navigation`: the arrow-key index arithmetic. It includes JavaScript's truncating `%` and the NaN that `x % 0` yields.
- `Combobox`:
  - the handlers;
  - the document-level click listener;
  - the displayed-list rule of `ListElement3`;
  - the `Gesture` type and `Perform`/`Run`, which replay user actions through the handlers;
  - the invariant those actions keep.
- `Scenarios`: concrete runs over small option sets.

How a gesture is routed (`Combobox.Perform`, following lines 244-290):
- Only a click outside reaches a control that is still on its loading text (`dynamicWidth == 0`).
- A fieldset click bubbles up to the document listener with its target inside the fieldset. A row click is assumed to bubble up too, with its target outside the fieldset (see "## Left out").
- The chevron and clear icons stop propagation.
- A typed character is `Press(key)` followed by `Type(value)`: `onKeyDown` sits on the div that wraps the input (line 251), so the keydown runs first. `Type` alone stands for an edit with no keydown, such as a mouse paste.
- The up chevron is shown while the popup is open, the down chevron while it is closed.
- The clear icon is shown only while `selectedOption` is non-empty.

Widths are in half-pixels. `8.5 * length` pixels becomes `17 * length` half-pixels, which keeps them integral.

The model follows the code wherever it departs from the goals its doc comment lists (Select.tsx lines 27-38) or from usual combobox behaviour:
- The doc comment (line 31) asks that the search text be dropped when focus leaves without a selection. The outside-click listener, however, is gated on the `select` ref, not on whether an option is selected. Only a row click raises the ref and only the clear icon lowers it (`Combobox.SelectRefOnlyClearLowers`, `Combobox.RunSelectRefChanges`).
  - So text typed after a selection survives a click outside (`Combobox.SelectionProtectsLaterText`).
  - A click on the control after a selection re-closes the popup at once (`Combobox.ControlClickAfterSelectionStaysClosed`).
- The doc comment (line 33) says the up and down arrow keys open the options. `handleKeyDown` (lines 183-216) never sets `anchorEl`, so the arrows only move the highlight (`Combobox.ArrowsDoNotOpen`).
- The doc comment (line 35) says the selected option is highlighted when the options appear. A row picked from a filtered list keeps its filtered index (line 148). Once selected, the popup lists all options (line 220), so that index highlights whichever option sits there in the full list. For example, over "Alpha", "Beta" and "Gamma", typing "g" and picking "Gamma" leaves "Alpha" highlighted (`Combobox.ReopenHighlightsFilteredIndex`).
- Any key other than an arrow resets the highlighted index to 0.
- Arrow-up with nothing highlighted lands on the second-to-last row, not the last.
- `focusedIndex` is not kept inside the displayed list. The change handler keeps the index while it changes the list. The keydown that comes with each typed character resets the index to 0, and row 0 lies outside an empty filtered list (`Combobox.KeystrokeHighlightsRowZero`).
- After a selection the popup shows all options, even though `filteredSuggestions` is still recomputed on every keystroke (lines 131-135): the displayed-list rule of lines 190, 195 and 220 ignores the filtered list while `selectedOption` is non-empty.
- An arrow key on an empty filtered list makes the index NaN (see Findings).
- An option whose `value` is the empty string is never shown as selected. The code tests `selectedOption` for truthiness.

## Model

| member | source | states |
|---|---|---|
| Text.LowerChar | src/components/select/Select.tsx:132 | lower-casing maps `A`–`Z` to `a`–`z` and leaves every other character unchanged; no upper-case letter survives it |
| Text.ToLower | src/components/select/Select.tsx:132 | `toLowerCase` keeps the length and lower-cases each character in place |
| Text.StartIndex | src/components/select/Select.tsx:132 | the leading run of whitespace: everything before the index is whitespace and the character at it is not |
| Text.EndIndex | src/components/select/Select.tsx:132 | the trailing run of whitespace: everything from the index on is whitespace and the character before it is not |
| Text.Trim | src/components/select/Select.tsx:132 | `trim` returns an infix of the input with only whitespace around it that neither starts nor ends with whitespace |
| Text.TrimAllWhitespace | src/components/select/Select.tsx:132 | `trim` yields the empty string exactly when the input is all whitespace |
| Text.TrimIdentity | src/components/select/Select.tsx:132 | text with non-whitespace ends is left unchanged by `trim` |
| Text.Includes | src/components/select/Select.tsx:132 | `includes` holds exactly when the needle occurs at some offset of the haystack; the empty needle is always included |
| Text.MissingCharMisses | src/components/select/Select.tsx:132 | a needle holding a character that the haystack lacks is not included in it |
| Options.Normalize | src/components/select/Select.tsx:132 | both sides of the comparison are lower-cased and then trimmed: the result sits inside the lower-cased input with only whitespace around it, has non-whitespace ends and no upper-case letter |
| Options.Matches | src/components/select/Select.tsx:132 | an option matches exactly when its normalized label contains the normalized query at some offset |
| Options.FilterBy | src/components/select/Select.tsx:131-133 | `Array.prototype.filter` keeps exactly the accepted elements, each as often as it occurs (multiset), in their original order (subsequence) |
| Options.FilterByKeepsAll | src/components/select/Select.tsx:131-133 | when every element is accepted, `filter` returns the whole array |
| Options.FilterByIdempotent | src/components/select/Select.tsx:131-133 | filtering a filtered array with the same test changes nothing |
| Options.Filter | src/components/select/Select.tsx:131-133 | the filtered suggestions are exactly the options whose normalized label includes the normalized query, with multiplicity and order kept |
| Options.FilterBlankQuery | src/components/select/Select.tsx:131-133 | a query that is empty after lower-casing and trimming keeps every option |
| Options.LongQueryMisses | src/components/select/Select.tsx:132 | a normalized query longer than a label never matches that label |
| Options.FilterIdempotent | src/components/select/Select.tsx:131-133 | re-filtering the filtered suggestions with the same query changes nothing |
| Options.ReduceLongest | src/components/select/Select.tsx:61-63 | the `reduce` ends on an index whose label is at least as long as every label and strictly longer than every later one, so ties go to the later option |
| Options.FindLongestLabel | src/components/select/Select.tsx:60-65 | on an empty array the `reduce` throws; otherwise the result is an option of the array with the longest label, and no later option has a label as long |
| Options.DynamicWidth | src/components/select/Select.tsx:69 | the width is 8.5 px per character of the longest label: wide enough for every label and exactly as wide as one of them |
| Options.WidthZeroIffBlankLabels | src/components/select/Select.tsx:69 | the width is zero, which keeps the loading text on screen, exactly when every label is empty |
| Navigation.JsRemainder | src/components/select/Select.tsx:191 | JavaScript `%`: NaN exactly for a zero divisor; otherwise a value below the divisor in magnitude, congruent to the dividend, with the dividend's sign |
| Navigation.NextIndexAsWritten | src/components/select/Select.tsx:186-201 | the new index: 0 for any key other than an arrow, NaN for an arrow on an empty list, otherwise a valid row of the list |
| Navigation.NextIndex | src/components/select/Select.tsx:183-216 | the corrected arithmetic: equal to the code's on a non-empty list; no move on an empty one; 0 for any other key |
| Navigation.ArrowDownWraps | src/components/select/Select.tsx:189-192 | arrow-down moves to the next row and wraps from the last row to row 0 |
| Navigation.ArrowUpWraps | src/components/select/Select.tsx:194-201 | arrow-up moves to the previous row and wraps from row 0 to the last row |
| Navigation.ArrowUpFromNothing | src/components/select/Select.tsx:196-201 | arrow-up with nothing highlighted (-1) lands on row n-2, or on row 0 when there is one row |
| Navigation.UpDownInverse | src/components/select/Select.tsx:189-201 | on every row, up undoes down and down undoes up |
| Navigation.EmptyListGivesNaN | src/components/select/Select.tsx:189-201 | on an empty list the code's arrow arithmetic is NaN, while the corrected arithmetic keeps the index |
| Combobox.Mount | src/components/select/Select.tsx:67-69 | mounting with an array keeps the options, leaves every other cell at its initial value and sizes the width to the longest label; an empty array throws |
| Combobox.Displayed | src/components/select/Select.tsx:190-195 | the list the arrows move through is all options while the input is empty or a selection is held, and the filtered suggestions otherwise |
| Combobox.RenderedIffSomeLabel | src/components/select/Select.tsx:246 | the control replaces its loading text exactly when some option has a non-empty label |
| Combobox.Perform | src/components/select/Select.tsx:244-290 | a control still on its loading text ignores everything but a click outside; no gesture changes the options or the width; a click outside goes to the document listener; the clear icon acts only while an option is selected; a row click acts only on a shown row |
| Combobox.PopupOf | src/components/select/Select.tsx:218-242 | the popup shows only when the control is rendered and open; it lists all options while the input is empty or a selection is held, and the filtered suggestions otherwise |
| Combobox.HandleInputChange | src/components/select/Select.tsx:123-136 | typing opens and focuses the control, stores the text, and re-filters from all options: the new filtered list holds exactly the matching options, each as often as among the options, in their original order; nothing else changes |
| Combobox.HandleClickOffSelect | src/components/select/Select.tsx:138-142 | losing focus clears the text, closes the popup and drops the focus styling; every other cell, the width included, is kept, so the full option list is what would display next |
| Combobox.HandleSuggestionClick | src/components/select/Select.tsx:144-150 | a row click puts the row's label in the input, selects its value, highlights its index, empties the filtered list and raises the `select` ref; every other cell, `action` included, is kept |
| Combobox.HandleFieldsetClick | src/components/select/Select.tsx:152-156 | a fieldset click flips the popup and focuses the control, and changes nothing else |
| Combobox.HandleChevronUpClick | src/components/select/Select.tsx:158-163 | the up chevron has the same effect on the state as a fieldset click |
| Combobox.HandleChevronDownClick | src/components/select/Select.tsx:165-170 | the down chevron always leaves the popup open and focused: on a closed popup it acts as a fieldset click, on an open one it only focuses |
| Combobox.HandleClearClick | src/components/select/Select.tsx:172-181 | clearing drops text, selection and `select` ref, closes the popup, keeps focus and un-highlights every row, so all options are displayed next; options, width, filtered list and last key stay |
| Combobox.HandleKeyDown | src/components/select/Select.tsx:183-216 | a key is recorded; any other key highlights row 0; an arrow keeps the index inside a non-empty displayed list and leaves it alone on an empty one; the displayed list is unchanged |
| Combobox.KeyDownIndexAsWritten | src/components/select/Select.tsx:183-201 | the code's index on an empty displayed list is NaN; on a non-empty one it agrees with the corrected handler |
| Combobox.HandleDocumentClick | src/components/select/Select.tsx:90-103 | while the `select` ref is up, a document click only closes the popup; otherwise a click outside the rendered fieldset is a focus loss and any other click changes nothing |
| Combobox.MountEstablishesInv | src/components/select/Select.tsx:67-69 | a freshly mounted control satisfies the state invariant |
| Combobox.PerformPreservesInv | src/components/select/Select.tsx:90-216 | every gesture, with the corrected key handler, keeps the invariant: fixed options and width, index at least -1, `select` ref up only while a value from the options is selected, filtered suggestions drawn from the options |
| Combobox.RunPreservesInv | src/components/select/Select.tsx:90-216 | any sequence of gestures, with the corrected key handler, keeps the invariant |
| Combobox.ArrowsDoNotOpen | src/components/select/Select.tsx:183-216 | a key press never opens or closes the popup |
| Combobox.ReopenHighlightsFilteredIndex | src/components/select/Select.tsx:144-242 | after a row of a filtered list is picked, re-opening shows all options with the picked row's filtered index highlighted |
| Combobox.PopupRowsAreOptions | src/components/select/Select.tsx:218-242 | every row the popup shows is one of the control's options |
| Combobox.SelectionWins | src/components/select/Select.tsx:90-150 | clicking a shown row selects it, and the document listener that the same click reaches afterwards only closes the popup, keeping the selection |
| Combobox.OutsideClick | src/components/select/Select.tsx:90-103 | a click outside closes the popup; it drops the text and focus unless the `select` ref is up; the selection and index stay |
| Combobox.OutsideClickDropsSearch | src/components/select/Select.tsx:90-142 | with no selection made, typed text is cleared by a click outside |
| Combobox.SelectionProtectsLaterText | src/components/select/Select.tsx:90-181 | after a selection, text typed later survives a click outside, and so does the selection |
| Combobox.ArrowOnEmptyListIsNaN | src/components/select/Select.tsx:183-201 | typing a query no option matches empties the displayed list, after which the code's arrow-down index is NaN; the corrected handler keeps row 0 |
| Combobox.ControlClickAfterSelectionStaysClosed | src/components/select/Select.tsx:90-170 | after a selection a click on the control leaves the popup closed, while the chevron still flips it |
| Combobox.ControlClickToggles | src/components/select/Select.tsx:152-156 | without a selection a click on the control flips the popup and focuses the control |
| Combobox.ChevronFlips | src/components/select/Select.tsx:158-170 | the visible chevron always flips the popup |
| Combobox.TypingShowsMatches | src/components/select/Select.tsx:123-136 | with nothing selected, a change event alone (no keydown) of a non-empty query shows exactly the matching options in their original order and keeps the highlighted index |
| Combobox.KeystrokeHighlightsRowZero | src/components/select/Select.tsx:183-251 | a typed character's keydown followed by its change event shows the matching options with row 0 highlighted and the key recorded |
| Combobox.SelectRefOnlyClearLowers | src/components/select/Select.tsx:145-176 | one gesture lowers the `select` ref only if it is a click on the shown clear icon, and raises it only if it is a row click on the open popup |
| Combobox.RunSelectRefChanges | src/components/select/Select.tsx:145-176 | over any gesture sequence, the ref goes down only if the clear icon was clicked and goes up only if a row was clicked |
| Combobox.TypingBlankShowsAll | src/components/select/Select.tsx:131-133 | with nothing selected, typing only whitespace still shows every option |
| Combobox.ArrowsStayInRange | src/components/select/Select.tsx:183-216 | on a non-empty displayed list both arrows land inside it, and from a row inside it they undo each other |
| Scenarios.NormalizeLowerWord | src/components/select/Select.tsx:132 | a word of lower-case letters is its own normal form |
| Scenarios.MountAlphaBeta | src/components/select/Select.tsx:59-69 | mounting "Alpha" and "Beta" sizes the control to 5 characters, 42.5 px |
| Scenarios.NormalizeCapitalized | src/components/select/Select.tsx:132 | a word whose lower-cased form is all lower-case letters normalizes to that form |
| Scenarios.AlphaMatchesAl | src/components/select/Select.tsx:132 | "Alpha" matches the query "al" |
| Scenarios.BetaMissesAl | src/components/select/Select.tsx:132 | "Beta" does not match the query "al" |
| Scenarios.FilterAlpha | src/components/select/Select.tsx:131-133 | over "Alpha" and "Beta", the query "al" keeps exactly "Alpha" |
| Scenarios.ClickingSelects | src/components/select/Select.tsx:90-150 | opening the list and clicking "Beta" selects it and closes the list; a later click outside keeps "Beta" in the input |
| Scenarios.ArrowDownWrapsToTop | src/components/select/Select.tsx:189-192 | arrow-down from the last of three rows wraps to row 0 |
| Scenarios.ArrowOnEmptyListExample | src/components/select/Select.tsx:183-201 | over "Alpha" and "Beta", typing "xxxxxx" and pressing arrow-down makes the code's index NaN |

## Left out

- Loading options through the async function (lines 70-87) is not modelled. That covers the loading flag, the stored error, and the case where a rejected or malformed fetch leaves the width at 0, so the loading text stays. The fetch is I/O, and its outcome would be a parameter; `Combobox.Mount` covers the array case, which the fetch case reuses.
- The `value` and `onChange` props are ignored by the component, and so by the model.
- DOM focus (`inputRef.current!.focus()`), scrolling into view, `console.log`, styles and popup placement are left out. They have no effect on the state.
- The popup's `List` component (`./List`) is not part of this model. A row click is modelled as the payload that list reports: the row and its index in the displayed list.
- Escape and Enter handling (lines 203-212) is commented out in the source and not modelled.
- React's batching and re-render timing are not modelled; each handler's updates are applied together. Event delegation to the root (React 17 and later) is assumed: that is why `stopPropagation` on the icons keeps their clicks from the document listener.
- Combobox.PerformPreservesInv: the invariant's "index at least -1" holds for the corrected key handler only. In the code, an arrow key on an empty filtered list stores NaN (lines 192 and 199-201, stored at line 215); see Findings.
- Combobox.RunPreservesInv: inherits the same restriction: the invariant is proved for gesture sequences run through the corrected key handler.
- A row click is assumed to bubble up to the document listener with its target outside the fieldset. The popup's rows come from `./List`, which is not part of this model. The comment at line 100 ("Select an option, close portal …") supports the assumption. `Combobox.SelectionWins`, `Combobox.Perform` and `Scenarios.ClickingSelects` depend on it.
- Combobox.HandleKeyDown: uses the corrected arithmetic, so the NaN of an arrow on an empty list is kept out of the state machine. The code's value is stated separately by `Combobox.KeyDownIndexAsWritten`.
- Text.LowerChar: lower-cases only the ASCII letters, whereas JavaScript's `toLowerCase` applies the full Unicode case mapping.
- Options.ReduceLongest: compares label lengths counted in Unicode scalar values, whereas line 62 compares UTF-16 `.length`, so with labels outside the Basic Multilingual Plane (such as "😀😀" against "abc") a different option can win.
- Options.FindLongestLabel: inherits the same difference from `Options.ReduceLongest`.
- Options.DynamicWidth: counts label length in Unicode scalar values, whereas JavaScript's `.length` counts UTF-16 code units, so labels outside the Basic Multilingual Plane come out shorter than in the browser.

## Findings

| source | as written | input that shows it | evidently intended | confidence | as-written member | corrected member |
|---|---|---|---|---|---|---|
| src/components/select/Select.tsx:189-201 | an arrow key computes `(focusedIndex ± …) % filteredSuggestions.length`, which is `x % 0`, NaN, when the filtered list is empty | options "Alpha" and "Beta", nothing selected; type "xxxxxx" (the first keystroke highlights row 0), then press arrow-down | with no rows there is nothing to move to, so the highlighted index stays as it was | not executed; high that the code yields NaN, medium on the intended behaviour | Scenarios.ArrowOnEmptyListExample | Navigation.NextIndex |
