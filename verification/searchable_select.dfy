/**
 * `SearchableSelect`: the drop-down with a search box used for the
 * manufacturer and model filters. The component's own state is whether the
 * list is open and the search text; every interaction is a step that may also
 * call `onChange` with a value or with null.
 */
module SearchableSelect {
  import opened Options
  import Seqs
  import Strings

  datatype SelectOption = SelectOption(value: int, text: string)

  /** The props the parent controls. */
  datatype SelectProps = SelectProps(
    options: seq<SelectOption>,
    value: Option<int>,
    placeholder: string,
    disabled: bool,
    disabledMessage: Option<string>
  )

  datatype SelectState = SelectState(isOpen: bool, search: string)

  const InitialState := SelectState(false, "")

  /** `selectedOption`: the first option carrying the current value. */
  function SelectedOption(options: seq<SelectOption>, value: Option<int>): (r: Option<SelectOption>)
    ensures r.Some? <==> value.Some? && exists k :: 0 <= k < |options| && options[k].value == value.value
    ensures r.Some? ==> r.value in options && r.value.value == value.value
    ensures r.Some? ==> exists k :: 0 <= k < |options| && options[k] == r.value
                                    && forall j :: 0 <= j < k ==> options[j].value != value.value
  {
    if value.None? then None
    else
      var k := Seqs.FindIndex(options, (o: SelectOption) => o.value == value.value);
      if k < 0 then None else Some(options[k])
  }

  /** An option is listed for a non-empty search when its lower-cased label contains the lower-cased search. */
  predicate Matches(o: SelectOption, search: string)
  {
    Strings.Contains(Strings.ToLower(o.text), Strings.ToLower(search))
  }

  /** `filteredOptions`. */
  function FilteredOptions(options: seq<SelectOption>, search: string): (r: seq<SelectOption>)
    ensures search == "" ==> r == options
    ensures search != "" ==> forall o :: o in r <==> o in options && Matches(o, search)
    ensures Seqs.IsSubsequence(r, options)
  {
    if search == "" then
      Seqs.SubsequenceReflexive(options);
      options
    else Seqs.Filter(options, (o: SelectOption) => Matches(o, search))
  }

  /** Searching is case-insensitive: lower-casing the search text changes nothing. */
  lemma SearchIgnoresCase(options: seq<SelectOption>, search: string)
    ensures FilteredOptions(options, Strings.ToLower(search)) == FilteredOptions(options, search)
  {
    if search != "" {
      Strings.ToLowerIdempotent(search);
      Seqs.FilterCongruent(options,
        (o: SelectOption) => Matches(o, Strings.ToLower(search)),
        (o: SelectOption) => Matches(o, search));
    }
  }

  /** An option whose label contains the search text verbatim is always listed. */
  lemma VerbatimMatchListed(options: seq<SelectOption>, search: string, o: SelectOption)
    requires o in options && Strings.Contains(o.text, search)
    ensures o in FilteredOptions(options, search)
  {
    Strings.ContainsLowered(o.text, search);
  }

  /** The button caption: the disabled message, else the selected label when non-empty, else the placeholder. */
  function DisplayText(props: SelectProps): (r: string)
    ensures props.disabled && props.disabledMessage.Some? && props.disabledMessage.value != "" ==>
              r == props.disabledMessage.value
    ensures !(props.disabled && props.disabledMessage.Some? && props.disabledMessage.value != "") ==>
              var sel := SelectedOption(props.options, props.value);
              r == if sel.Some? && sel.value.text != "" then sel.value.text else props.placeholder
  {
    if props.disabled && props.disabledMessage.Some? && props.disabledMessage.value != "" then
      props.disabledMessage.value
    else
      var sel := SelectedOption(props.options, props.value);
      if sel.Some? && sel.value.text != "" then sel.value.text else props.placeholder
  }

  /** The clear button is rendered iff a value is set and the select is enabled. */
  function ShowsClearButton(props: SelectProps): (r: bool)
    ensures r <==> props.value.Some? && !props.disabled
  {
    props.value.Some? && !props.disabled
  }

  /**
   * The interactions. The option buttons, the search box and its keys exist
   * only while the list is open; the clear button only while `ShowsClearButton`;
   * the outside-mousedown listener is always installed.
   */
  datatype Event =
    | ToggleClick
    | ClearClick
    | OptionClick(index: int)
    | KeyEscape
    | KeyEnter
    | SearchInput(typed: string)
    | MouseDownOutside

  /** The new state and the argument of the `onChange` call, if one is made. */
  datatype Outcome = Outcome(state: SelectState, change: Option<Option<int>>)

  /** `handleSelect`: report the value, close, clear the search. */
  function Choose(value: int): (r: Outcome)
    ensures r.change == Some(Some(value)) && r.state == InitialState
  {
    Outcome(InitialState, Some(Some(value)))
  }

  function Step(props: SelectProps, s: SelectState, e: Event): (r: Outcome)
    ensures e.ToggleClick? ==> r.change.None? && r.state.search == s.search
    ensures e.ToggleClick? && !props.disabled ==> r.state.isOpen == !s.isOpen
    ensures e.ToggleClick? && props.disabled ==> r.state == s
    ensures e.ClearClick? ==> if ShowsClearButton(props) then r.change == Some(None)
                                                             && r.state == s.(search := "")
                              else r == Outcome(s, None)
    ensures e.OptionClick? && s.isOpen && 0 <= e.index < |FilteredOptions(props.options, s.search)| ==>
              r == Choose(FilteredOptions(props.options, s.search)[e.index].value)
    ensures e.OptionClick? && !(s.isOpen && 0 <= e.index < |FilteredOptions(props.options, s.search)|) ==>
              r == Outcome(s, None)
    ensures e.KeyEscape? && s.isOpen ==> r == Outcome(InitialState, None)
    ensures e.KeyEnter? && s.isOpen && |FilteredOptions(props.options, s.search)| == 1 ==>
              r == Choose(FilteredOptions(props.options, s.search)[0].value)
    ensures e.KeyEnter? && !(s.isOpen && |FilteredOptions(props.options, s.search)| == 1) ==>
              r == Outcome(s, None)
    ensures e.SearchInput? ==> r.change.None? && r.state == if s.isOpen then s.(search := e.typed) else s
    ensures e.MouseDownOutside? ==> r == Outcome(InitialState, None)
    ensures r.change.Some? && r.change.value.Some? ==>
              exists o :: o in props.options && o.value == r.change.value.value
  {
    match e
    case ToggleClick =>
      Outcome(if props.disabled then s else s.(isOpen := !s.isOpen), None)
    case ClearClick =>
      if ShowsClearButton(props) then Outcome(s.(search := ""), Some(None)) else Outcome(s, None)
    case OptionClick(i) =>
      var listed := FilteredOptions(props.options, s.search);
      if s.isOpen && 0 <= i < |listed| then
        assert listed[i] in props.options;
        Choose(listed[i].value)
      else Outcome(s, None)
    case KeyEscape =>
      if s.isOpen then Outcome(InitialState, None) else Outcome(s, None)
    case KeyEnter =>
      var listed := FilteredOptions(props.options, s.search);
      if s.isOpen && |listed| == 1 then
        assert listed[0] in props.options;
        Choose(listed[0].value)
      else Outcome(s, None)
    case SearchInput(typed) =>
      Outcome(if s.isOpen then s.(search := typed) else s, None)
    case MouseDownOutside =>
      Outcome(InitialState, None)
  }

  /** Clicking a listed option reports that option's value, one the search matched, and closes the list. */
  lemma OptionClickChoosesListed(props: SelectProps, s: SelectState, k: int)
    requires s.isOpen && 0 <= k < |FilteredOptions(props.options, s.search)|
    ensures var o := FilteredOptions(props.options, s.search)[k];
      && Step(props, s, OptionClick(k)).change == Some(Some(o.value))
      && Step(props, s, OptionClick(k)).state == InitialState
      && o in props.options
      && (s.search != "" ==> Matches(o, s.search))
  {
    var listed := FilteredOptions(props.options, s.search);
    assert listed[k] in listed;
  }

  /** Run a sequence of interactions with fixed props; the final state and every `onChange` argument in order. */
  function Run(props: SelectProps, s: SelectState, events: seq<Event>): (r: (SelectState, seq<Option<int>>))
    decreases |events|
  {
    if |events| == 0 then (s, [])
    else
      var o := Step(props, s, events[0]);
      var rest := Run(props, o.state, events[1..]);
      (rest.0, (if o.change.Some? then [o.change.value] else []) + rest.1)
  }

  /** A disabled select that starts closed never opens and never calls `onChange`, whatever the user does. */
  lemma {:induction false} DisabledIsInert(props: SelectProps, s: SelectState, events: seq<Event>)
    requires props.disabled && !s.isOpen
    ensures !Run(props, s, events).0.isOpen
    ensures Run(props, s, events).1 == []
    decreases |events|
  {
    if |events| > 0 {
      var o := Step(props, s, events[0]);
      assert o.change.None? && !o.state.isOpen;
      DisabledIsInert(props, o.state, events[1..]);
    }
  }

  /** Every value reported during a run is null or the value of one of the options. */
  lemma {:induction false} RunReportsOptions(props: SelectProps, s: SelectState, events: seq<Event>)
    ensures forall k :: 0 <= k < |Run(props, s, events).1| ==>
              var v := Run(props, s, events).1[k];
              v.None? || exists o :: o in props.options && o.value == v.value
    decreases |events|
  {
    if |events| > 0 {
      var o := Step(props, s, events[0]);
      RunReportsOptions(props, o.state, events[1..]);
    }
  }

  /** Closing with the toggle keeps the search text, so reopening shows the same narrowed list. */
  lemma ToggleKeepsSearch(props: SelectProps, s: SelectState)
    requires !props.disabled && s.isOpen
    ensures var reopened := Step(props, Step(props, s, ToggleClick).state, ToggleClick).state;
      reopened == s
  {
  }
}
