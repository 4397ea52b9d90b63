/**
  The dual-list picker bound to a form field. The field's value lists the
  chosen identifiers; the picker shows the options not chosen in one list
  and the chosen ones in the other, and turns a confirmed batch from either
  list into a new field value: a union for the "available" list, a
  difference for the "selected" list. The new value is always emitted as a
  `", "`-joined string.
 */
module MultiPicker {
  import opened Seqs
  import opened Text
  import opened Delimited
  import opened PickerControl

  /** The form field's value: either one `", "`-joined string or an array of identifiers. */
  datatype FormValue = Joined(text: string) | Items(ids: seq<string>)

  /** Array values whose identifiers contain no delimiter; every string value is fine. */
  ghost predicate Splittable(v: FormValue) {
    v.Items? ==> AllFreeOfSep(v.ids)
  }

  /** The value as an array: a string is split on the delimiter, an array is used as is. */
  function Normalize(v: FormValue): (ids: seq<string>)
    ensures v.Joined? ==> |ids| >= 1 && AllFreeOfSep(ids) && Join(ids) == v.text
    ensures v.Items? ==> ids == v.ids
  {
    match v
    case Joined(text) => JoinSplit(text); Split(text)
    case Items(ids) => ids
  }

  /** The identifiers after adding a batch: the value's identifiers and the
      batch's, each once, the value's first and in first-occurrence order. */
  function MergedIds(v: FormValue, selection: seq<string>): (ids: seq<string>)
    ensures NoDuplicates(ids)
    ensures forall x :: x in ids <==> x in Normalize(v) || x in selection
    ensures Dedup(Normalize(v)) <= ids
    ensures forall i, j :: 0 <= i < j < |ids| ==>
              Position(Normalize(v) + selection, ids[i]) < Position(Normalize(v) + selection, ids[j])
  {
    DedupPrefix(Normalize(v), selection);
    Dedup(Normalize(v) + selection)
  }

  /** The value emitted when the "available" list confirms `selection`. */
  function ApplySelection(v: FormValue, selection: seq<string>): (out: string)
    ensures Splittable(v) && AllFreeOfSep(selection) && |MergedIds(v, selection)| > 0 ==>
              Split(out) == MergedIds(v, selection)
    ensures MergedIds(v, selection) == [] ==> out == ""
  {
    var ids := MergedIds(v, selection);
    SplitJoinWhenFree(ids);
    Join(ids)
  }

  /** The identifiers after removing a batch: those of the value not in the
      batch, in their order, duplicates included. */
  function RemainingIds(v: FormValue, selection: seq<string>): (ids: seq<string>)
    ensures IsSubsequence(ids, Normalize(v))
    ensures forall x :: x in ids ==> x !in selection
    ensures forall x :: multiset(ids)[x] == if x in selection then 0 else multiset(Normalize(v))[x]
  {
    Filter(Normalize(v), x => Position(selection, x) == -1)
  }

  /** The value emitted when the "selected" list confirms `selection`. */
  function RemoveSelection(v: FormValue, selection: seq<string>): (out: string)
    ensures Splittable(v) && |RemainingIds(v, selection)| > 0 ==>
              Split(out) == RemainingIds(v, selection)
    ensures RemainingIds(v, selection) == [] ==> out == ""
  {
    var ids := RemainingIds(v, selection);
    SplitJoinWhenFree(ids);
    Join(ids)
  }

  /** Confirming the same batch again on the emitted value emits the same value. */
  lemma {:induction false} ApplyIsIdempotent(v: FormValue, selection: seq<string>)
    requires Splittable(v) && AllFreeOfSep(selection)
    ensures ApplySelection(Joined(ApplySelection(v, selection)), selection) == ApplySelection(v, selection)
  {
    var ids := MergedIds(v, selection);
    var out := ApplySelection(v, selection);
    if |ids| > 0 {
      assert Normalize(Joined(out)) == ids;
      DedupAbsorbs(ids, selection);
    } else {
      assert Normalize(Joined(out)) == [""];
      assert selection == [];
      assert [""] + selection == [""];
      DedupOfDistinct([""]);
    }
  }

  /** Removing the same batch again from the emitted value emits the same value. */
  lemma {:induction false} RemoveIsIdempotent(v: FormValue, selection: seq<string>)
    requires Splittable(v)
    ensures RemoveSelection(Joined(RemoveSelection(v, selection)), selection) == RemoveSelection(v, selection)
  {
    var ids := RemainingIds(v, selection);
    var out := RemoveSelection(v, selection);
    if |ids| > 0 {
      assert Normalize(Joined(out)) == ids;
      FilterKeepsAll(ids, x => Position(selection, x) == -1);
    } else {
      assert Normalize(Joined(out)) == [""];
      var again := RemainingIds(Joined(out), selection);
      assert again == [] || again == [""] by {
        assert IsSubsequence(again, [""]);
        if again != [] {
          assert again[0] == "" && IsSubsequence(again[1..], []);
        }
      }
    }
  }

  /** Removing an empty batch re-emits a string value unchanged. */
  lemma {:induction false} RemoveNothingKeepsText(text: string)
    ensures RemoveSelection(Joined(text), []) == text
  {
    FilterKeepsAll(Split(text), x => Position([], x) == -1);
    JoinSplit(text);
  }

  /** Removing a batch just added to a duplicate-free string value that held
      none of it gives the original string back. */
  lemma {:induction false} RemoveUndoesApply(text: string, selection: seq<string>)
    requires AllFreeOfSep(selection)
    requires NoDuplicates(Split(text))
    requires forall x :: x in selection ==> x !in Split(text)
    ensures RemoveSelection(Joined(ApplySelection(Joined(text), selection)), selection) == text
  {
    var ids := Split(text);
    DedupAppendFresh(ids, selection);
    var merged := MergedIds(Joined(text), selection);
    assert merged == ids + Dedup(selection);
    assert Normalize(Joined(ApplySelection(Joined(text), selection))) == merged;
    FilterAppend(ids, Dedup(selection), x => Position(selection, x) == -1);
    FilterKeepsAll(ids, x => Position(selection, x) == -1);
    FilterDropsAll(Dedup(selection), x => Position(selection, x) == -1);
    assert ids + [] == ids;
    JoinSplit(text);
  }

  /** The membership test of the partition, `value.indexOf(option.value) !== -1`:
      a substring search on a string value, an element search on an array. */
  function IsChosen(v: FormValue, id: string): (chosen: bool)
    ensures v.Joined? ==> (chosen <==> Occurs(v.text, id))
    ensures v.Items? ==> (chosen <==> id in v.ids)
  {
    match v
    case Joined(text) =>
      ContainsIffOccurs(text, id);
      IndexOf(text, id) != -1
    case Items(ids) => Position(ids, id) != -1
  }

  /** The options listed as available: those not chosen, in option order. */
  function AvailableOptions(options: seq<SelectOption>, v: FormValue): (r: seq<SelectOption>)
    ensures IsSubsequence(r, options)
    ensures forall o :: o in r ==> !IsChosen(v, o.value)
    ensures forall o: SelectOption :: !IsChosen(v, o.value) ==> multiset(r)[o] == multiset(options)[o]
  {
    Filter(options, (o: SelectOption) => !IsChosen(v, o.value))
  }

  /** The options listed as selected: those chosen, in option order. */
  function SelectedOptions(options: seq<SelectOption>, v: FormValue): (r: seq<SelectOption>)
    ensures IsSubsequence(r, options)
    ensures forall o :: o in r ==> IsChosen(v, o.value)
    ensures forall o: SelectOption :: IsChosen(v, o.value) ==> multiset(r)[o] == multiset(options)[o]
  {
    Filter(options, (o: SelectOption) => IsChosen(v, o.value))
  }

  /** Every option is listed exactly once, in one of the two lists, and both
      lists keep the option order. */
  lemma {:induction false} PartitionIsExact(options: seq<SelectOption>, v: FormValue)
    ensures Interleaves(options, AvailableOptions(options, v), SelectedOptions(options, v))
    ensures multiset(options) == multiset(AvailableOptions(options, v)) + multiset(SelectedOptions(options, v))
  {
    FilterInterleaves(options, (o: SelectOption) => IsChosen(v, o.value), (o: SelectOption) => !IsChosen(v, o.value));
    InterleavesPreservesMultiset(options, AvailableOptions(options, v), SelectedOptions(options, v));
  }

  /** The two lists are the only split of the options into an unchosen and
      a chosen part that keeps the option order. */
  lemma {:induction false} PartitionIsUnique(options: seq<SelectOption>, v: FormValue, avail: seq<SelectOption>, chosen: seq<SelectOption>)
    requires Interleaves(options, avail, chosen)
    requires forall o :: o in avail ==> !IsChosen(v, o.value)
    requires forall o :: o in chosen ==> IsChosen(v, o.value)
    ensures avail == AvailableOptions(options, v) && chosen == SelectedOptions(options, v)
  {
    InterleavingIsUnique(options, avail, chosen, (o: SelectOption) => IsChosen(v, o.value), (o: SelectOption) => !IsChosen(v, o.value));
  }

  // Worked examples: two options "a"/"Alpha" and "b"/"Beta".

  const Alpha := SelectOption("a", "Alpha")
  const Beta := SelectOption("b", "Beta")

  /** With an empty string value both options are available and none selected. */
  lemma ExampleEmptyValue()
    ensures AvailableOptions([Alpha, Beta], Joined("")) == [Alpha, Beta]
    ensures SelectedOptions([Alpha, Beta], Joined("")) == []
  {
    assert !IsChosen(Joined(""), "a") && !IsChosen(Joined(""), "b");
    FilterKeepsAll([Alpha, Beta], (o: SelectOption) => !IsChosen(Joined(""), o.value));
    FilterDropsAll([Alpha, Beta], (o: SelectOption) => IsChosen(Joined(""), o.value));
  }

  /** Adding "a" to the empty string value emits ", a", not "a": the empty
      string splits into one empty identifier, which the join keeps. The
      partition of the emitted value still lists "a" as selected. */
  lemma ExampleAddToEmptyValue()
    ensures ApplySelection(Joined(""), ["a"]) == ", a"
    ensures AvailableOptions([Alpha, Beta], Joined(", a")) == [Beta]
    ensures SelectedOptions([Alpha, Beta], Joined(", a")) == [Alpha]
  {
    ExampleAddEmits();
    ExampleChosenAfterAdd();
    FilterPair(Alpha, Beta, (o: SelectOption) => !IsChosen(Joined(", a"), o.value));
    FilterPair(Alpha, Beta, (o: SelectOption) => IsChosen(Joined(", a"), o.value));
  }

  lemma ExampleAddEmits()
    ensures ApplySelection(Joined(""), ["a"]) == ", a"
  {
    assert Split("") == [""];
    assert Normalize(Joined("")) + ["a"] == ["", "a"];
    DedupOfDistinct(["", "a"]);
    assert Join(["", "a"]) == "" + Sep + "a";
  }

  lemma ExampleChosenAfterAdd()
    ensures IsChosen(Joined(", a"), Alpha.value)
    ensures !IsChosen(Joined(", a"), Beta.value)
  {
    assert OccursAt(", a", "a", 2);
    ContainsIffOccurs(", a", "a");
    AbsentFirstCharNotFound(", a", "b");
  }

  /** Removing "a" from "a, b" emits "b". */
  lemma ExampleRemove()
    ensures RemoveSelection(Joined("a, b"), ["a"]) == "b"
  {
    assert Split("a, b") == ["a", "b"] by {
      assert FreeOfSep("a") && FreeOfSep("b");
      SplitCons("a", "b");
      SplitFree("b");
      assert "a" + Sep + "b" == "a, b";
    }
    assert Position(["a"], "a") == 0;
    assert Position(["a"], "b") == -1;
    assert ["a", "b"][1..] == ["b"];
  }
}
