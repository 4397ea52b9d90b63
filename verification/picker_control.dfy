/**
  One half of the dual-list picker: a searchable multi-select list over a
  fixed sequence of options, with a transient selection that a confirm
  button reports to the parent and then clears.

  The live `<select>` element is not modelled; whatever options the user
  has highlighted in it arrive as the `domValues` of an event, in the
  order the element lists them.
 */
module PickerControl {
  import opened Seqs
  import opened Text

  /** One `<option>`: an identifier and the text shown for it. */
  datatype SelectOption = SelectOption(value: string, labelText: string)

  /** The text a search runs over: value and label joined by three spaces, lower-cased. */
  function SearchText(o: SelectOption): string {
    Lower(o.value + "   " + o.labelText)
  }

  predicate MatchesSearch(o: SelectOption, search: string) {
    Contains(SearchText(o), Lower(search))
  }

  /** The options shown for a search text: all of them when the search is
      empty, otherwise the ones whose search text contains the lower-cased
      search, in their original order. */
  function FilteredOptions(options: seq<SelectOption>, search: string): (r: seq<SelectOption>)
    ensures search == "" ==> r == options
    ensures IsSubsequence(r, options)
    ensures forall o :: o in r ==> search == "" || MatchesSearch(o, search)
    ensures forall o ::
              multiset(r)[o] == if search == "" || MatchesSearch(o, search) then multiset(options)[o] else 0
  {
    if search == "" then
      SubsequenceOfItself(options);
      options
    else Filter(options, o => MatchesSearch(o, search))
  }

  /** The empty-search shortcut changes nothing: the empty string is a
      substring of every search text, so the filter would keep every option anyway. */
  lemma {:induction false} EmptySearchKeepsEverything(options: seq<SelectOption>)
    ensures Filter(options, o => MatchesSearch(o, "")) == options
  {
    forall o: SelectOption
      ensures MatchesSearch(o, "")
    {
      assert OccursAt(SearchText(o), Lower(""), 0);
      ContainsIffOccurs(SearchText(o), Lower(""));
    }
    FilterKeepsAll(options, o => MatchesSearch(o, ""));
  }

  /** An option whose value or whose label contains the search (ignoring
      ASCII case) is always kept. */
  lemma {:induction false} FieldMatchIsKept(o: SelectOption, search: string)
    requires Occurs(Lower(o.value), Lower(search)) || Occurs(Lower(o.labelText), Lower(search))
    ensures MatchesSearch(o, search)
  {
    LowerAppend(o.value, "   ");
    LowerAppend(o.value + "   ", o.labelText);
    if Occurs(Lower(o.value), Lower(search)) {
      OccursInConcat(Lower(o.value), Lower("   "), Lower(search));
    }
    OccursInConcat(Lower(o.value) + Lower("   "), Lower(o.labelText), Lower(search));
    ContainsIffOccurs(SearchText(o), Lower(search));
  }

  /** The converse fails: the search runs over the joined text, so a search
      that spans the three-space separator matches an option although
      neither its value nor its label contains it. */
  lemma SearchCanSpanTheSeparator()
    ensures MatchesSearch(SelectOption("ab", "cd"), "b   c")
    ensures !Occurs(Lower("ab"), Lower("b   c")) && !Occurs(Lower("cd"), Lower("b   c"))
  {
    var o := SelectOption("ab", "cd");
    assert SearchText(o) == "ab   cd";
    assert Lower("b   c") == "b   c";
    assert OccursAt(SearchText(o), "b   c", 1);
    ContainsIffOccurs(SearchText(o), "b   c");
  }

  /** Searching is case-insensitive: the search and its lower-cased form
      show the same options. */
  lemma {:induction false} SearchIgnoresCase(options: seq<SelectOption>, search: string)
    ensures FilteredOptions(options, Lower(search)) == FilteredOptions(options, search)
  {
    LowerIdempotent(search);
    if search != "" {
      assert Lower(search) != "";
      FilterExtensional(options, o => MatchesSearch(o, Lower(search)), o => MatchesSearch(o, search));
    }
  }

  /** Applying the same search to its own result changes nothing. */
  lemma {:induction false} FilterIsIdempotent(options: seq<SelectOption>, search: string)
    ensures FilteredOptions(FilteredOptions(options, search), search) == FilteredOptions(options, search)
  {
    if search != "" {
      FilterIdempotent(options, o => MatchesSearch(o, search));
    }
  }

  /** The values highlighted in the `<select>`, with empty values dropped. */
  function CurrentSelection(domValues: seq<string>): (r: seq<string>)
    ensures "" !in r
    ensures IsSubsequence(r, domValues)
    ensures forall x :: x != "" ==> multiset(r)[x] == multiset(domValues)[x]
  {
    Filter(domValues, x => x != "")
  }

  /** The state a picker keeps between events. */
  datatype PickerState = PickerState(filterText: string, selected: seq<string>)

  const Initial := PickerState("", [])

  /** The confirm button is disabled while nothing is selected. */
  function ConfirmEnabled(st: PickerState): (enabled: bool)
    ensures enabled <==> exists x :: x in st.selected
  {
    assert |st.selected| > 0 ==> st.selected[0] in st.selected;
    |st.selected| > 0
  }

  /** A state every reachable state satisfies: no empty identifier is selected. */
  predicate Valid(st: PickerState) {
    "" !in st.selected
  }

  /** What the user can do to a picker: type in the search box, change the
      highlighted options, or click the confirm button. The two latter carry
      the highlighted values read from the `<select>` at that moment. */
  datatype Event =
    | TextChanged(text: string)
    | SelectionChanged(domValues: seq<string>)
    | ConfirmClicked(domValues: seq<string>)

  /** Whether an event reported a batch to the parent's submit handler. */
  datatype Submission = NoSubmission | Submitted(batch: seq<string>)

  datatype StepResult = StepResult(next: PickerState, submission: Submission)

  /** One event handled. A click on the disabled button is never delivered. */
  function Step(st: PickerState, ev: Event): (r: StepResult)
    ensures r.submission.Submitted? <==> ev.ConfirmClicked? && ConfirmEnabled(st)
    ensures r.submission.Submitted? ==>
      r.submission.batch == CurrentSelection(ev.domValues) && !ConfirmEnabled(r.next)
    ensures ev.TextChanged? ==> r.next.filterText == ev.text && r.next.selected == st.selected
    ensures !ev.TextChanged? ==> r.next.filterText == st.filterText
    ensures ev.SelectionChanged? ==> (ConfirmEnabled(r.next) <==> exists x :: x in ev.domValues && x != "")
    ensures Valid(st) ==> Valid(r.next)
  {
    match ev
    case TextChanged(text) =>
      StepResult(st.(filterText := text), NoSubmission)
    case SelectionChanged(domValues) =>
      var sel := CurrentSelection(domValues);
      assert forall x :: x in domValues && x != "" ==> multiset(sel)[x] > 0;
      assert |sel| > 0 ==> multiset(sel)[sel[0]] > 0 && sel[0] != "" && sel[0] in domValues;
      StepResult(st.(selected := sel), NoSubmission)
    case ConfirmClicked(domValues) =>
      if ConfirmEnabled(st) then StepResult(st.(selected := []), Submitted(CurrentSelection(domValues)))
      else StepResult(st, NoSubmission)
  }

  function CountConfirms(events: seq<Event>): nat {
    if events == [] then 0
    else (if events[0].ConfirmClicked? then 1 else 0) + CountConfirms(events[1..])
  }

  /** A sequence of events handled in order: the final state and every batch
      submitted on the way. */
  function Run(st: PickerState, events: seq<Event>): (r: (PickerState, seq<seq<string>>))
    ensures Valid(st) ==> Valid(r.0)
    ensures forall b :: b in r.1 ==> "" !in b
    ensures |r.1| <= CountConfirms(events)
    ensures (forall e :: e in events ==> e.TextChanged?) ==> r.0.selected == st.selected && r.1 == []
    decreases |events|
  {
    if events == [] then (st, [])
    else
      var step := Step(st, events[0]);
      var tail := Run(step.next, events[1..]);
      assert forall e :: e in events[1..] ==> e in events;
      match step.submission
      case NoSubmission => tail
      case Submitted(batch) => (tail.0, [batch] + tail.1)
  }

  /** From the initial state no empty identifier is ever selected or reported. */
  lemma RunFromInitial(events: seq<Event>)
    ensures Valid(Run(Initial, events).0)
    ensures forall b :: b in Run(Initial, events).1 ==> "" !in b
  {
  }

  /** What a list shows instead of options when nothing passes the search. */
  datatype ListNotice = ShowsOptions | NoResultsFor(text: string) | NothingListed

  function Notice(st: PickerState, options: seq<SelectOption>): (n: ListNotice)
    ensures n.ShowsOptions? <==> |FilteredOptions(options, st.filterText)| > 0
    ensures n.NoResultsFor? ==> n.text == st.filterText && n.text != ""
    ensures n.NothingListed? ==> options == []
    ensures !n.ShowsOptions? ==> (n.NoResultsFor? <==> st.filterText != "")
  {
    if |FilteredOptions(options, st.filterText)| > 0 then ShowsOptions
    else if st.filterText != "" then NoResultsFor(st.filterText)
    else NothingListed
  }

  /** A click while nothing is selected changes nothing and reports nothing. */
  lemma ConfirmWithNothingSelected(st: PickerState, domValues: seq<string>)
    requires st.selected == []
    ensures Step(st, ConfirmClicked(domValues)) == StepResult(st, NoSubmission)
  {
  }

  /** Searching "bet" over "a"/"Alpha" and "b"/"Beta" keeps only the second. */
  lemma ExampleSearch()
    ensures FilteredOptions([SelectOption("a", "Alpha"), SelectOption("b", "Beta")], "bet")
         == [SelectOption("b", "Beta")]
  {
    ExampleSearchMatchesBeta();
    ExampleSearchMissesAlpha();
    FilterPair(SelectOption("a", "Alpha"), SelectOption("b", "Beta"), (o: SelectOption) => MatchesSearch(o, "bet"));
  }

  lemma ExampleSearchMatchesBeta()
    ensures MatchesSearch(SelectOption("b", "Beta"), "bet")
  {
    assert Lower("bet") == "bet";
    assert SearchText(SelectOption("b", "Beta")) == "b   beta";
    assert OccursAt("b   beta", "bet", 4);
    ContainsIffOccurs("b   beta", "bet");
  }

  lemma ExampleSearchMissesAlpha()
    ensures !MatchesSearch(SelectOption("a", "Alpha"), "bet")
  {
    assert Lower("bet") == "bet";
    assert SearchText(SelectOption("a", "Alpha")) == "a   alpha";
    AbsentFirstCharNotFound("a   alpha", "bet");
  }
}
