/**
  Two places where the picker, as written, does not do what it evidently
  means to do, each shown on a concrete input, and the corrected definition
  with the intended property proved about it.

  1. An empty string value splits into one empty identifier, so adding a
     batch to it emits a value with a leading delimiter and an identifier
     nobody chose. Intended: the empty string lists no identifiers.
  2. Against a string value, the partition tests membership with a
     substring search, so an option is listed as selected when its value is
     merely part of a chosen identifier, and removing it cannot move it.
     Intended: membership in the normalised identifier list.
 */
module MultiPickerIntended {
  import opened Seqs
  import opened Text
  import opened Delimited
  import opened PickerControl
  import opened MultiPicker

  // ---- As written ----

  /** Adding "a" to the empty string value emits ", a", whose identifiers
      include "", which was neither in the value nor in the batch. */
  lemma EmptyValueGainsEmptyId()
    ensures ApplySelection(Joined(""), ["a"]) == ", a"
    ensures "" in Normalize(Joined(ApplySelection(Joined(""), ["a"])))
  {
    ExampleAddToEmptyValue();
    assert ", a"[..0] == "" && ", a"[0] == ',' && ", a"[1] == ' ';
    assert Split(", a")[0] == "";
  }

  /** For the value "ab", option "a" is listed as selected although "a" is
      not one of the value's identifiers; removing "a" emits "ab" again, so
      the option stays listed as selected. */
  lemma SubstringMembershipKeepsRemovedOption()
    ensures Normalize(Joined("ab")) == ["ab"]
    ensures IsChosen(Joined("ab"), "a")
    ensures RemoveSelection(Joined("ab"), ["a"]) == "ab"
    ensures IsChosen(Joined(RemoveSelection(Joined("ab"), ["a"])), "a")
  {
    assert FreeOfSep("ab") by {
      forall i ensures !SepAt("ab", i) {
      }
    }
    SplitFree("ab");
    assert OccursAt("ab", "a", 0);
    ContainsIffOccurs("ab", "a");
    assert Position(["a"], "ab") == -1;
    FilterKeepsAll(["ab"], x => Position(["a"], x) == -1);
  }

  // ---- Corrected ----

  /** The value as an array, with the empty string listing no identifiers. */
  function NormalizeIntended(v: FormValue): (ids: seq<string>)
    ensures v.Joined? ==> Join(ids) == v.text && AllFreeOfSep(ids)
    ensures v.Joined? ==> (ids == [] <==> v.text == "")
    ensures v.Items? ==> ids == v.ids
  {
    match v
    case Joined(text) => if text == "" then [] else Normalize(v)
    case Items(ids) => ids
  }

  /** Identifiers that survive a join/split round trip one for one. */
  ghost predicate ProperIds(ids: seq<string>) {
    forall x :: x in ids ==> x != "" && FreeOfSep(x)
  }

  /** Corrected membership: the identifier is one of the value's identifiers. */
  function IsChosenIntended(v: FormValue, id: string): (chosen: bool)
    ensures v.Joined? ==> (chosen <==> v.text != "" && id in Split(v.text))
    ensures v.Items? ==> (chosen <==> id in v.ids)
    ensures chosen ==> IsChosen(v, id)
  {
    PieceOccursInJoin(NormalizeIntended(v), id);
    id in NormalizeIntended(v)
  }

  /** Every piece of a join is a substring of it. */
  lemma {:induction false} PieceOccursInJoin(xs: seq<string>, x: string)
    ensures x in xs ==> Occurs(Join(xs), x)
    decreases |xs|
  {
    if x !in xs {
    } else if x == xs[0] {
      assert OccursAt(Join(xs), x, 0);
    } else {
      PieceOccursInJoin(xs[1..], x);
      OccursInConcat(xs[0] + Sep, Join(xs[1..]), x);
      assert Join(xs) == (xs[0] + Sep) + Join(xs[1..]);
    }
  }

  function ApplyIntended(v: FormValue, selection: seq<string>): (out: string)
    ensures ProperIds(NormalizeIntended(v)) && ProperIds(selection) ==>
              (out == "" <==> NormalizeIntended(v) + selection == [])
  {
    var ids := Dedup(NormalizeIntended(v) + selection);
    JoinEmptyOnlyForNothing(ids);
    assert ids == [] <==> NormalizeIntended(v) + selection == [] by {
      if NormalizeIntended(v) + selection != [] {
        assert (NormalizeIntended(v) + selection)[0] in ids;
      }
    }
    Join(ids)
  }

  function RemoveIntended(v: FormValue, selection: seq<string>): (out: string)
    ensures (forall x :: x in NormalizeIntended(v) ==> x in selection) ==> out == ""
  {
    var ids := Filter(NormalizeIntended(v), x => Position(selection, x) == -1);
    assert (forall x :: x in NormalizeIntended(v) ==> x in selection) ==> ids == [] by {
      if ids != [] {
        assert multiset(ids)[ids[0]] > 0;
      }
    }
    Join(ids)
  }

  /** Helper: the join is empty only for no pieces or one empty piece. */
  lemma {:induction false} JoinEmptyOnlyForNothing(ids: seq<string>)
    ensures Join(ids) == "" <==> ids == [] || ids == [""]
    ensures ProperIds(ids) ==> (Join(ids) == "" <==> ids == [])
  {
    if |ids| == 1 {
      assert ids == [ids[0]] && ids[0] in ids;
      assert Join(ids) == ids[0];
    } else if |ids| >= 2 {
      assert |Join(ids)| >= |Sep|;
    }
  }

  /** With the correction, joining proper identifiers and reading the string
      back gives the identifiers again, including for the empty list. */
  lemma {:induction false} IntendedRoundTrip(ids: seq<string>)
    requires ProperIds(ids)
    ensures NormalizeIntended(Joined(Join(ids))) == ids
  {
    JoinEmptyOnlyForNothing(ids);
    if ids != [] {
      SplitJoin(ids);
    }
  }

  /** Intended add: the chosen identifiers afterwards are exactly the
      value's and the batch's. */
  lemma {:induction false} ApplyIntendedChoosesUnion(v: FormValue, selection: seq<string>, id: string)
    requires ProperIds(NormalizeIntended(v)) && ProperIds(selection)
    ensures IsChosenIntended(Joined(ApplyIntended(v, selection)), id)
        <==> IsChosenIntended(v, id) || id in selection
  {
    IntendedRoundTrip(Dedup(NormalizeIntended(v) + selection));
  }

  /** Intended remove: the chosen identifiers afterwards are exactly the
      value's that are not in the batch. */
  lemma {:induction false} RemoveIntendedChoosesDifference(v: FormValue, selection: seq<string>, id: string)
    requires ProperIds(NormalizeIntended(v))
    ensures IsChosenIntended(Joined(RemoveIntended(v, selection)), id)
        <==> IsChosenIntended(v, id) && id !in selection
  {
    var ids := Filter(NormalizeIntended(v), x => Position(selection, x) == -1);
    IntendedRoundTrip(ids);
    assert id in ids <==> multiset(ids)[id] > 0;
  }

  /** The corrected lists: options whose value is, or is not, one of the value's identifiers. */
  function SelectedIntended(options: seq<SelectOption>, v: FormValue): (r: seq<SelectOption>)
    ensures IsSubsequence(r, options)
    ensures forall o :: o in r <==> o in options && IsChosenIntended(v, o.value)
    ensures forall o :: multiset(r)[o] == if IsChosenIntended(v, o.value) then multiset(options)[o] else 0
  {
    var r := Filter(options, (o: SelectOption) => IsChosenIntended(v, o.value));
    assert forall o :: o in r <==> multiset(r)[o] > 0;
    r
  }

  function AvailableIntended(options: seq<SelectOption>, v: FormValue): (r: seq<SelectOption>)
    ensures IsSubsequence(r, options)
    ensures forall o :: o in r <==> o in options && !IsChosenIntended(v, o.value)
    ensures forall o :: multiset(r)[o] == if IsChosenIntended(v, o.value) then 0 else multiset(options)[o]
  {
    var r := Filter(options, (o: SelectOption) => !IsChosenIntended(v, o.value));
    assert forall o :: o in r <==> multiset(r)[o] > 0;
    r
  }

  /** With the correction, a removed option leaves the selected list and
      returns to the available one. */
  lemma {:induction false} RemovedOptionMoves(options: seq<SelectOption>, v: FormValue, selection: seq<string>, o: SelectOption)
    requires ProperIds(NormalizeIntended(v))
    requires o in options && o.value in selection
    ensures o !in SelectedIntended(options, Joined(RemoveIntended(v, selection)))
    ensures o in AvailableIntended(options, Joined(RemoveIntended(v, selection)))
  {
    RemoveIntendedChoosesDifference(v, selection, o.value);
  }

  /** With the correction, an added option joins the selected list. */
  lemma {:induction false} AddedOptionMoves(options: seq<SelectOption>, v: FormValue, selection: seq<string>, o: SelectOption)
    requires ProperIds(NormalizeIntended(v)) && ProperIds(selection)
    requires o in options && o.value in selection
    ensures o in SelectedIntended(options, Joined(ApplyIntended(v, selection)))
    ensures o !in AvailableIntended(options, Joined(ApplyIntended(v, selection)))
  {
    ApplyIntendedChoosesUnion(v, selection, o.value);
  }

  /** The two inputs of the findings, under the corrected definitions. */
  lemma CorrectedExamples()
    ensures ApplyIntended(Joined(""), ["a"]) == "a"
    ensures !IsChosenIntended(Joined("ab"), "a")
  {
    assert [] + ["a"] == ["a"];
    DedupOfDistinct(["a"]);
    assert FreeOfSep("ab") by {
      forall i ensures !SepAt("ab", i) {
      }
    }
    SplitFree("ab");
  }
}
