/**
 The `Select` combobox as a state machine.  Every event handler of the
 component is a pure function from the component's state to its next
 state; a user gesture is the handler of the element it lands on, followed
 by the document-level click listener when the click reaches the document.
 */
module Combobox {
  import opened Text
  import opened Options
  import opened Navigation

  /** Everything the component keeps between renders: its `useState` cells
      and the `select` and `action` refs.  `dynamicWidth` is in half-pixels
      (twice the pixel width) so that it stays integral. */
  datatype State = State(
    inputValue: string,
    selectedOption: string,
    focusedIndex: int,
    isFocused: bool,
    anchorEl: bool,
    dynamicWidth: nat,
    filteredSuggestions: seq<Option>,
    absoluteOptions: seq<Option>,
    select: bool,
    action: string)

  /** What a click on a row of the option list reports. */
  datatype Payload = Payload(suggestion: Option, index: nat)

  /** The option list as `ListElement3` renders it: nothing, or the rows
      with the highlighted index handed to the list. */
  datatype Popup = Hidden | Shown(rows: seq<Option>, focusedIndex: int)

  /** The initial values of the state cells and refs. */
  const Initial: State := State("", "", -1, false, false, 0, [], [], false, "")

  /** The mount effect for an array of options: the options are kept and the
      width is sized to the longest label.  An empty array makes `reduce`
      throw. */
  function Mount(options: seq<Option>): (r: Result<State>)
    ensures r.Err? <==> options == []
    ensures r.Ok? ==> r.value == Initial.(absoluteOptions := options, dynamicWidth := r.value.dynamicWidth)
    ensures r.Ok? ==> forall o :: o in options ==> HalfPixelsPerChar * |o.text| <= r.value.dynamicWidth
    ensures r.Ok? ==> exists o :: o in options && HalfPixelsPerChar * |o.text| == r.value.dynamicWidth
  {
    match DynamicWidth(options)
    case Err(e) => Err(e)
    case Ok(w) => Ok(Initial.(absoluteOptions := options, dynamicWidth := w))
  }

  /** The control (fieldset, input, buttons and list) is rendered only once
      the width is non-zero; until then a loading text stands in for it. */
  predicate Rendered(s: State) {
    s.dynamicWidth != 0
  }

  /** The list the keyboard moves through and the popup shows: all options
      while the input is empty or an option is selected, the filtered ones
      otherwise. */
  function Displayed(s: State): (r: seq<Option>)
    ensures r == s.absoluteOptions || r == s.filteredSuggestions
    ensures s.inputValue == [] ==> r == s.absoluteOptions
    ensures s.selectedOption != [] ==> r == s.absoluteOptions
    ensures s.inputValue != [] && s.selectedOption == [] ==> r == s.filteredSuggestions
  {
    if s.inputValue == [] || s.selectedOption != [] then s.absoluteOptions else s.filteredSuggestions
  }

  /** `ListElement3` inside the rendered control. */
  function PopupOf(s: State): (p: Popup)
    ensures p.Shown? <==> Rendered(s) && s.anchorEl
    ensures p.Shown? ==> p.focusedIndex == s.focusedIndex
    ensures p.Shown? && (s.inputValue == [] || s.selectedOption != []) ==> p.rows == s.absoluteOptions
    ensures p.Shown? && s.inputValue != [] && s.selectedOption == [] ==> p.rows == s.filteredSuggestions
  {
    if Rendered(s) && s.anchorEl then Shown(Displayed(s), s.focusedIndex) else Hidden
  }

  /** Typing into the input: the popup opens, the text is taken and the
      suggestions are re-filtered from all options; the selection and the
      highlighted row stay. */
  function HandleInputChange(s: State, value: string): (r: State)
    ensures r.inputValue == value && r.isFocused && r.anchorEl
    ensures r == s.(inputValue := value, isFocused := true, anchorEl := true, filteredSuggestions := r.filteredSuggestions)
    ensures IsSubsequence(r.filteredSuggestions, s.absoluteOptions)
    ensures forall o :: multiset(r.filteredSuggestions)[o] == if Matches(o, value) then multiset(s.absoluteOptions)[o] else 0
    ensures forall o :: o in r.filteredSuggestions <==> o in s.absoluteOptions && Matches(o, value)
  {
    s.(isFocused := true, anchorEl := true, inputValue := value,
       filteredSuggestions := Filter(s.absoluteOptions, value))
  }

  /** Focus left the control without a selection: the search text is
      dropped and the control closes and loses its focus styling. */
  function HandleClickOffSelect(s: State): (r: State)
    ensures r.inputValue == [] && !r.isFocused && !r.anchorEl
    ensures r == s.(inputValue := [], isFocused := false, anchorEl := false)
    ensures Displayed(r) == s.absoluteOptions
    ensures PopupOf(r) == Hidden
  {
    s.(inputValue := "", isFocused := false, anchorEl := false)
  }

  /** A row of the list was clicked: its label fills the input, its value
      becomes the selection, it becomes the highlighted row, the filtered
      list is emptied and the `select` ref is raised. */
  function HandleSuggestionClick(s: State, p: Payload): (r: State)
    ensures r.inputValue == p.suggestion.text && r.selectedOption == p.suggestion.value
    ensures r.focusedIndex == p.index && r.filteredSuggestions == [] && r.select
    ensures r.anchorEl == s.anchorEl && r.isFocused == s.isFocused
    ensures r.absoluteOptions == s.absoluteOptions && r.dynamicWidth == s.dynamicWidth
    ensures r == s.(select := r.select, inputValue := r.inputValue, selectedOption := r.selectedOption,
                    focusedIndex := r.focusedIndex, filteredSuggestions := r.filteredSuggestions)
  {
    s.(select := true, inputValue := p.suggestion.text, selectedOption := p.suggestion.value,
       focusedIndex := p.index, filteredSuggestions := [])
  }

  /** A click on the fieldset flips the popup and focuses the control. */
  function HandleFieldsetClick(s: State): (r: State)
    ensures r.anchorEl == !s.anchorEl && r.isFocused
    ensures r == s.(anchorEl := r.anchorEl, isFocused := true)
  {
    s.(isFocused := true, anchorEl := !s.anchorEl)
  }

  /** The chevron-up icon behaves like the fieldset (its click does not
      propagate further). */
  function HandleChevronUpClick(s: State): (r: State)
    ensures r == HandleFieldsetClick(s)
  {
    s.(isFocused := true, anchorEl := !s.anchorEl)
  }

  /** The chevron-down icon opens the popup whatever its state: on a closed
      popup it acts like a fieldset click, and on an open one it only
      focuses the control. */
  function HandleChevronDownClick(s: State): (r: State)
    ensures r.anchorEl && r.isFocused
    ensures !s.anchorEl ==> r == HandleFieldsetClick(s)
    ensures s.anchorEl ==> r == s.(isFocused := true)
  {
    s.(isFocused := true, anchorEl := true)
  }

  /** The clear icon drops the text and the selection, lowers the `select`
      ref, closes the popup, keeps the focus on the control and un-highlights
      every row. */
  function HandleClearClick(s: State): (r: State)
    ensures r.inputValue == [] && r.selectedOption == [] && !r.select
    ensures !r.anchorEl && r.isFocused && r.focusedIndex == -1
    ensures Displayed(r) == s.absoluteOptions
    ensures r.filteredSuggestions == s.filteredSuggestions && r.absoluteOptions == s.absoluteOptions
    ensures r.dynamicWidth == s.dynamicWidth && r.action == s.action
  {
    s.(inputValue := "", selectedOption := "", select := false, isFocused := true,
       anchorEl := false, focusedIndex := -1)
  }

  /** A key pressed anywhere in the control: the key is recorded, and the
      highlighted row moves through the displayed list (arrows) or goes
      back to row 0 (any other key). */
  function HandleKeyDown(s: State, key: string): (r: State)
    ensures r == s.(action := key, focusedIndex := r.focusedIndex)
    ensures Displayed(r) == Displayed(s)
    ensures !IsArrow(key) ==> r.focusedIndex == 0
    ensures IsArrow(key) && Displayed(s) == [] ==> r.focusedIndex == s.focusedIndex
    ensures IsArrow(key) && Displayed(s) != [] && s.focusedIndex >= -1 ==> 0 <= r.focusedIndex < |Displayed(s)|
  {
    s.(action := key, focusedIndex := NextIndex(key, s.focusedIndex, |Displayed(s)|))
  }

  /** `handleKeyDown` as written, on an empty displayed list: the index it
      computes, NaN included. */
  function KeyDownIndexAsWritten(s: State, key: string): (r: Number)
    ensures IsArrow(key) && Displayed(s) == [] ==> r == NaN
    ensures Displayed(s) != [] ==> r == Finite(HandleKeyDown(s, key).focusedIndex)
  {
    NextIndexAsWritten(key, s.focusedIndex, |Displayed(s)|)
  }

  /** The document-level click listener.  While the `select` ref is up it
      only closes the popup; otherwise a click outside the rendered fieldset
      is a focus loss. */
  function HandleDocumentClick(s: State, insideFieldset: bool): (r: State)
    ensures s.select ==> r == s.(anchorEl := false)
    ensures !s.select && Rendered(s) && !insideFieldset ==> r == HandleClickOffSelect(s)
    ensures !s.select && (!Rendered(s) || insideFieldset) ==> r == s
  {
    if !s.select then
      if Rendered(s) && !insideFieldset then HandleClickOffSelect(s) else s
    else
      s.(anchorEl := false)
  }

  /** What the user does, at the level of one physical action.  A typed
      character is two gestures: the keydown that reaches the wrapping div
      first, `Press(key)`, then the input's change event, `Type(value)`.
      `Type` alone stands for an edit that comes with no keydown, such as a
      paste with the mouse. */
  datatype Gesture =
    | Type(value: string)   // the input's change event: its text becomes `value`
    | Press(key: string)    // a key goes down while the control has the keyboard
    | ClickRow(index: nat)  // a click on row `index` of the open popup
    | ClickControl          // a click on the fieldset or the input inside it
    | ClickChevron          // a click on whichever chevron icon is showing
    | ClickClear            // a click on the clear icon
    | ClickOutside          // a click anywhere outside the control

  /** One gesture.  Nothing but a click outside reaches a control that is not
      rendered.  A row click and a fieldset click bubble up to the document
      listener; the icon clicks stop propagation.  The chevron shown is the
      up one while the popup is open and the down one while it is closed,
      and the clear icon is shown only while an option is selected. */
  function Perform(s: State, g: Gesture): (r: State)
    ensures !Rendered(s) && !g.ClickOutside? ==> r == s
    ensures r.absoluteOptions == s.absoluteOptions && r.dynamicWidth == s.dynamicWidth
    ensures g.ClickOutside? ==> r == HandleDocumentClick(s, false)
    ensures g.ClickClear? && s.selectedOption == [] ==> r == s
    ensures g.ClickRow? && (!s.anchorEl || g.index >= |Displayed(s)|) ==> r == s
    ensures Rendered(s) && g.Press? ==> r == HandleKeyDown(s, g.key)
    ensures Rendered(s) && g.Type? ==> r == HandleInputChange(s, g.value)
  {
    if !Rendered(s) && !g.ClickOutside? then s
    else
      match g
      case Type(value) => HandleInputChange(s, value)
      case Press(key) => HandleKeyDown(s, key)
      case ClickRow(i) =>
        var rows := Displayed(s);
        if s.anchorEl && i < |rows| then
          HandleDocumentClick(HandleSuggestionClick(s, Payload(rows[i], i)), false)
        else s
      case ClickControl => HandleDocumentClick(HandleFieldsetClick(s), true)
      case ClickChevron => if s.anchorEl then HandleChevronUpClick(s) else HandleChevronDownClick(s)
      case ClickClear => if s.selectedOption != [] then HandleClearClick(s) else s
      case ClickOutside => HandleDocumentClick(s, false)
  }

  function Run(s: State, gs: seq<Gesture>): State
    decreases |gs|
  {
    if gs == [] then s else Run(Perform(s, gs[0]), gs[1..])
  }

  /** What stays true of a mounted control over options `opts`, whatever the
      user does: the options and width never change, the highlighted index
      is never below -1, the `select` ref is up whenever a selection is held
      (and, by `SelectRefOnlyClearLowers`, only after a row click), and
      filtering only ever keeps options. */
  ghost predicate Inv(s: State, opts: seq<Option>) {
    && s.absoluteOptions == opts
    && DynamicWidth(opts) == Ok(s.dynamicWidth)
    && s.focusedIndex >= -1
    && (!s.select ==> s.selectedOption == [])
    && (s.select ==> exists o :: o in opts && o.value == s.selectedOption)
    && (forall o :: o in s.filteredSuggestions ==> o in opts)
  }

  lemma MountEstablishesInv(options: seq<Option>)
    requires options != []
    ensures Mount(options).Ok? && Inv(Mount(options).value, options)
  {
  }

  lemma {:induction false} PerformPreservesInv(s: State, g: Gesture, opts: seq<Option>)
    requires Inv(s, opts)
    ensures Inv(Perform(s, g), opts)
  {
    if Rendered(s) && g.ClickRow? && s.anchorEl && g.index < |Displayed(s)| {
      var o := Displayed(s)[g.index];
      assert o in opts;
    }
  }

  lemma {:induction false} RunPreservesInv(s: State, gs: seq<Gesture>, opts: seq<Option>)
    requires Inv(s, opts)
    ensures Inv(Run(s, gs), opts)
    decreases |gs|
  {
    if gs != [] {
      PerformPreservesInv(s, gs[0], opts);
      RunPreservesInv(Perform(s, gs[0]), gs[1..], opts);
    }
  }

  /** The control replaces its loading text exactly when some option has a
      non-empty label. */
  lemma RenderedIffSomeLabel(s: State, opts: seq<Option>)
    requires Inv(s, opts)
    ensures Rendered(s) <==> exists o :: o in opts && o.text != []
  {
    WidthZeroIffBlankLabels(opts);
  }

  /** The arrow keys move the highlight but never open or close the popup. */
  lemma ArrowsDoNotOpen(s: State, key: string)
    ensures Perform(s, Press(key)).anchorEl == s.anchorEl
  {
  }

  /** After a row of a filtered list is picked, re-opening the popup shows
      all options with the picked row's filtered index highlighted, which
      points at whichever option sits at that index of the full list. */
  lemma ReopenHighlightsFilteredIndex(s: State, i: nat)
    requires Rendered(s) && PopupOf(s).Shown? && s.inputValue != [] && s.selectedOption == []
    requires i < |s.filteredSuggestions| && s.filteredSuggestions[i].value != []
    ensures var r := Perform(Perform(s, ClickRow(i)), ClickChevron);
            && r.selectedOption == s.filteredSuggestions[i].value
            && PopupOf(r) == Shown(s.absoluteOptions, i)
  {
  }

  /** Every row the popup shows is one of the control's options. */
  lemma PopupRowsAreOptions(s: State, opts: seq<Option>)
    requires Inv(s, opts)
    ensures PopupOf(s).Shown? ==> forall o :: o in PopupOf(s).rows ==> o in opts
  {
  }

  /** Clicking a row of the open popup commits it, and the document listener
      that the same click reaches afterwards closes the popup without
      undoing the selection. */
  lemma SelectionWins(s: State, i: nat)
    requires Rendered(s) && PopupOf(s).Shown? && i < |PopupOf(s).rows|
    ensures var o := PopupOf(s).rows[i];
            var r := Perform(s, ClickRow(i));
            && r.inputValue == o.text && r.selectedOption == o.value
            && r.focusedIndex == i && r.filteredSuggestions == [] && r.select
            && !r.anchorEl && PopupOf(r) == Hidden
            && (o.value != [] ==> Displayed(r) == s.absoluteOptions)
  {
  }

  /** A click outside the control drops the search text unless the `select`
      ref is up, in which case the text is kept and the popup only closes. */
  lemma OutsideClick(s: State)
    requires Rendered(s)
    ensures var r := Perform(s, ClickOutside);
            && !r.anchorEl
            && (s.select ==> r.inputValue == s.inputValue && r.isFocused == s.isFocused)
            && (!s.select ==> r.inputValue == [] && !r.isFocused)
            && r.selectedOption == s.selectedOption && r.focusedIndex == s.focusedIndex
  {
  }

  /** With nothing selected, whatever was typed is dropped by a click
      outside. */
  lemma OutsideClickDropsSearch(s: State, value: string)
    requires Rendered(s) && !s.select
    ensures Perform(Perform(s, Type(value)), ClickOutside).inputValue == []
  {
  }

  /** The `select` ref stays up from a selection until the clear icon, so
      text typed after a selection survives a click outside, and so does
      the selection. */
  lemma SelectionProtectsLaterText(s: State, value: string)
    requires Rendered(s) && s.select
    ensures var r := Perform(Perform(s, Type(value)), ClickOutside);
            r.inputValue == value && r.selectedOption == s.selectedOption && !r.anchorEl
  {
  }

  /** Typing a query that no option matches, with nothing selected, first
      presses its first character (row 0 is highlighted) and then empties
      the displayed list.  Arrow-down then takes a remainder by zero in the
      code, and leaves row 0 highlighted in the corrected model. */
  lemma ArrowOnEmptyListIsNaN(s: State, query: string)
    requires Rendered(s) && s.selectedOption == [] && query != []
    requires forall o :: o in s.absoluteOptions ==> !Matches(o, query)
    ensures var t := Perform(Perform(s, Press(query[..1])), Type(query));
            && Displayed(t) == [] && t.focusedIndex == 0
            && KeyDownIndexAsWritten(t, ArrowDown) == NaN
            && Perform(t, Press(ArrowDown)).focusedIndex == 0
  {
  }

  /** Once an option was picked, a click on the control flips the popup open
      and the document listener shuts it again: only the chevron re-opens
      the list until the selection is cleared. */
  lemma ControlClickAfterSelectionStaysClosed(s: State)
    requires Rendered(s) && s.select
    ensures !Perform(s, ClickControl).anchorEl
    ensures Perform(s, ClickChevron).anchorEl == !s.anchorEl
  {
  }

  /** Without a selection a click on the control flips the popup. */
  lemma ControlClickToggles(s: State)
    requires Rendered(s) && !s.select
    ensures Perform(s, ClickControl).anchorEl == !s.anchorEl
    ensures Perform(s, ClickControl).isFocused
  {
  }

  /** The visible chevron always flips the popup: the up chevron is only
      there while it is open, and the down chevron only while it is closed. */
  lemma ChevronFlips(s: State)
    requires Rendered(s)
    ensures Perform(s, ClickChevron).anchorEl == !s.anchorEl
    ensures Perform(s, ClickChevron).isFocused
  {
  }

  /** A typed character: its keydown highlights row 0 and records the key,
      and the change event then re-filters, so the popup shows the matches
      with row 0 highlighted, whether or not row 0 exists in them. */
  lemma KeystrokeHighlightsRowZero(s: State, key: string, value: string)
    requires Rendered(s) && !IsArrow(key) && value != [] && s.selectedOption == []
    ensures var r := Perform(Perform(s, Press(key)), Type(value));
            && r.focusedIndex == 0 && r.action == key
            && PopupOf(r) == Shown(Filter(s.absoluteOptions, value), 0)
  {
  }

  /** Only a click on a shown row raises the `select` ref, and only the
      clear icon, shown while a selection is held, lowers it. */
  lemma SelectRefOnlyClearLowers(s: State, g: Gesture)
    ensures s.select && !Perform(s, g).select ==> g.ClickClear? && Rendered(s) && s.selectedOption != []
    ensures !s.select && Perform(s, g).select ==> g.ClickRow? && Rendered(s) && s.anchorEl
  {
  }

  /** Over any sequence of gestures, the `select` ref goes down only if the
      clear icon was clicked, and goes up only if a row was clicked. */
  lemma {:induction false} RunSelectRefChanges(s: State, gs: seq<Gesture>)
    ensures s.select && !Run(s, gs).select ==> exists i :: 0 <= i < |gs| && gs[i].ClickClear?
    ensures !s.select && Run(s, gs).select ==> exists i :: 0 <= i < |gs| && gs[i].ClickRow?
    decreases |gs|
  {
    if gs != [] {
      var t := Perform(s, gs[0]);
      SelectRefOnlyClearLowers(s, gs[0]);
      RunSelectRefChanges(t, gs[1..]);
      if s.select && !Run(s, gs).select && !gs[0].ClickClear? {
        var i :| 0 <= i < |gs[1..]| && gs[1..][i].ClickClear?;
        assert gs[i + 1].ClickClear?;
      }
      if !s.select && Run(s, gs).select && !gs[0].ClickRow? {
        var i :| 0 <= i < |gs[1..]| && gs[1..][i].ClickRow?;
        assert gs[i + 1].ClickRow?;
      }
    }
  }

  /** A change event alone (an edit with no keydown) of a non-blank query
      with nothing selected shows exactly the options that match it, in
      their original order, and keeps the highlighted index. */
  lemma TypingShowsMatches(s: State, value: string)
    requires Rendered(s) && value != [] && s.selectedOption == []
    ensures var r := Perform(s, Type(value));
            && PopupOf(r) == Shown(Filter(s.absoluteOptions, value), s.focusedIndex)
            && (forall o :: o in PopupOf(r).rows <==> o in s.absoluteOptions && Matches(o, value))
  {
  }

  /** Typing text that trims to nothing (but is not empty) with nothing
      selected still shows every option. */
  lemma TypingBlankShowsAll(s: State, value: string)
    requires Rendered(s) && s.selectedOption == [] && Normalize(value) == []
    ensures PopupOf(Perform(s, Type(value))) == Shown(s.absoluteOptions, s.focusedIndex)
  {
    FilterBlankQuery(s.absoluteOptions, value);
  }

  /** The arrow keys keep the highlighted row inside the displayed list and
      undo each other. */
  lemma {:induction false} ArrowsStayInRange(s: State, opts: seq<Option>)
    requires Inv(s, opts) && Rendered(s) && Displayed(s) != []
    ensures var d := Perform(s, Press(ArrowDown));
            var u := Perform(s, Press(ArrowUp));
            && 0 <= d.focusedIndex < |Displayed(d)|
            && 0 <= u.focusedIndex < |Displayed(u)|
            && (0 <= s.focusedIndex < |Displayed(s)| ==>
                  Perform(d, Press(ArrowUp)).focusedIndex == s.focusedIndex
                  && Perform(u, Press(ArrowDown)).focusedIndex == s.focusedIndex)
  {
    if 0 <= s.focusedIndex < |Displayed(s)| {
      UpDownInverse(s.focusedIndex, |Displayed(s)|);
    }
  }
}
