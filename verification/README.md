# Dual-list multi-picker: selection model

This project models the selection logic of the Normandy control UI's
`MultiPicker` widget. The widget shows the options of a form field in two
lists: the options not yet chosen ("available") and the chosen ones
("selected"). Each list is a `PickerControl`: a search box, a multi-select
list filtered by the search, and a confirm button. Confirming in the
available list adds the highlighted identifiers to the field value.
Confirming in the selected list removes them. The field value is either a
`", "`-joined string or an array of identifiers, and the widget always
writes back a joined string.

Modules (one file each):

- `Seqs` (`seqs.dfy`): order-preserving subsequences, interleavings,
  `Array.prototype.indexOf` (`Position`), `Array.prototype.filter`
  (`Filter`), and `Array.from(new Set(...))` (`Dedup`, first-occurrence order).
- `Text` (`text.dfy`): `String.prototype.indexOf` (`IndexOf`), the
  `indexOf(...) > -1` containment test, and ASCII `toLowerCase`.
- `Delimited` (`delimited.dfy`): `split(', ')` and `join(', ')` with
  JavaScript's edge cases, and their round trips.
- `PickerControl` (`picker_control.dfy`): the option record, the search
  filter, the picker state `{filterText, selected}`, its events, and the
  confirm-button rule.
- `MultiPicker` (`multi_picker.dfy`): the string-or-array field value,
  normalisation, add (union), remove (difference), and the
  available/selected partition.
- `MultiPickerIntended` (`multi_picker_intended.dfy`): the two defects
  listed under Findings, each shown on a concrete input, with the
  corrected definitions and their proved properties.

In these places the model follows the code as written, even where the result looks unintended:

- Adding `["a"]` to the empty string value emits `", a"`, not `"a"`, because
  `"".split(', ')` is `[""]` (`MultiPicker.ExampleAddToEmptyValue`).
- The search runs over `value + "   " + label`, not over the value and the
  label separately. So a search that spans the three spaces matches
  (`PickerControl.SearchCanSpanTheSeparator`).
- For a string field value, the partition tests membership with a
  substring search (`MultiPicker.IsChosen`).
- Confirming reports the options highlighted in the `<select>` at click
  time, not the `selected` state. A click while `selected` is empty never
  reaches the handler, because the button is disabled then.

## Model

| member | source | states |
|---|---|---|
| Seqs.Position | recipe-server/client/control/components/MultiPicker.js:282 | `indexOf` on an array gives -1 exactly when the element is absent; otherwise it gives an index holding the element with no earlier copy |
| Seqs.Filter | recipe-server/client/control/components/MultiPicker.js:63-66 | `filter` keeps an order-preserving subsequence; every occurrence of a passing element is kept and nothing else |
| Seqs.FilterInterleaves | recipe-server/client/control/components/MultiPicker.js:303-304 | a filter and the filter of the negated predicate split the input between them, each list keeping the input order |
| Seqs.InterleavingIsUnique | recipe-server/client/control/components/MultiPicker.js:303-304 | that split is the only order-preserving one that puts failing elements left and passing elements right |
| Seqs.Dedup | recipe-server/client/control/components/MultiPicker.js:256-259 | `Array.from(new Set(s))` has no duplicates and the same elements as `s`, ordered by where each first occurs in `s` |
| Seqs.DedupPrefix | recipe-server/client/control/components/MultiPicker.js:256-259 | adding more elements to the set never reorders the ones already there |
| Seqs.DedupAbsorbs | recipe-server/client/control/components/MultiPicker.js:256-259 | re-inserting elements the duplicate-free list already holds changes nothing |
| Seqs.DedupAppendFresh | recipe-server/client/control/components/MultiPicker.js:256-259 | inserting only new elements appends their own deduplication |
| Text.Lower | recipe-server/client/control/components/MultiPicker.js:59 | `toLowerCase` on ASCII: same length, no upper-case ASCII letter remains, each upper-case letter becomes its lower-case partner and every other character is unchanged; `LowerIdempotent` states that lower-casing twice is lower-casing once |
| Text.IndexOf | recipe-server/client/control/components/MultiPicker.js:65 | the string search returns -1 or an index where the needle occurs |
| Text.IndexOfIsFirst | recipe-server/client/control/components/MultiPicker.js:65 | it returns the first occurrence, and -1 only when there is none |
| Text.ContainsIffOccurs | recipe-server/client/control/components/MultiPicker.js:65 | `indexOf(...) > -1` holds exactly when the needle is a substring |
| Delimited.Split | recipe-server/client/control/components/MultiPicker.js:253 | `split(', ')` gives at least one piece; no piece contains the delimiter; the first piece is a prefix of the input |
| Delimited.Join | recipe-server/client/control/components/MultiPicker.js:262 | `join(', ')` gives `""` for no pieces, starts with the first piece, and puts the delimiter right after it when there is a second; its partners `JoinSplit` and `SplitJoin` state the round trips with `split(', ')` |
| Delimited.JoinSplit | recipe-server/client/control/components/MultiPicker.js:279-285 | joining the pieces of any string gives the string back |
| Delimited.SplitJoin | recipe-server/client/control/components/MultiPicker.js:253-262 | splitting the join of a non-empty list of delimiter-free pieces gives the list back |
| PickerControl.FilteredOptions | recipe-server/client/control/components/MultiPicker.js:53-72 | an empty search returns the options unchanged; otherwise the result keeps the input order and keeps exactly the options whose lower-cased search text contains the lower-cased search, every occurrence included |
| PickerControl.EmptySearchKeepsEverything | recipe-server/client/control/components/MultiPicker.js:57 | the empty-search shortcut agrees with the filter, which would keep every option anyway |
| PickerControl.FieldMatchIsKept | recipe-server/client/control/components/MultiPicker.js:63-65 | an option whose value or label contains the search, ignoring case, is kept |
| PickerControl.SearchCanSpanTheSeparator | recipe-server/client/control/components/MultiPicker.js:64 | the converse fails: a search spanning the three-space separator matches an option although neither field contains it |
| PickerControl.SearchIgnoresCase | recipe-server/client/control/components/MultiPicker.js:59-64 | a search and its lower-cased form show the same options |
| PickerControl.FilterIsIdempotent | recipe-server/client/control/components/MultiPicker.js:53-72 | filtering a filtered list with the same search changes nothing |
| PickerControl.ExampleSearch | recipe-server/client/control/components/MultiPicker.js:57-66 | searching "bet" over "a"/"Alpha" and "b"/"Beta" keeps only "b" |
| PickerControl.CurrentSelection | recipe-server/client/control/components/MultiPicker.js:41 | the reported selection never holds an empty string; it keeps the highlighted values in order, each non-empty one as often as highlighted |
| PickerControl.Step | recipe-server/client/control/components/MultiPicker.js:81-114 | a batch is submitted exactly on a click with the button enabled; after it `selected` is empty and the button disabled; typing changes only the search text; the search text persists across the other events; a selection change enables the button exactly when a non-empty value is highlighted; no event puts an empty identifier into `selected` |
| PickerControl.ConfirmEnabled | recipe-server/client/control/components/MultiPicker.js:206 | the confirm button is enabled exactly when some value is selected (`disabled={selected.length <= 0}`) |
| PickerControl.ConfirmWithNothingSelected | recipe-server/client/control/components/MultiPicker.js:205-208 | a click while nothing is selected changes nothing and reports nothing |
| PickerControl.Run | recipe-server/client/control/components/MultiPicker.js:81-114 | over any event sequence, the state stays free of empty identifiers, no submitted batch holds one, there are at most as many batches as clicks, and typing alone submits nothing |
| PickerControl.RunFromInitial | recipe-server/client/control/components/MultiPicker.js:22-27 | from the initial state no empty identifier is ever selected or reported |
| PickerControl.Notice | recipe-server/client/control/components/MultiPicker.js:163 | the list shows a notice exactly when the filtered list is empty; the "no results" notice appears only for a non-empty search and quotes it; the plain empty notice appears only when there are no options at all; when a notice is shown it is the "no results" one exactly when the search text is non-empty |
| MultiPicker.Normalize | recipe-server/client/control/components/MultiPicker.js:253 | a string value gives at least one delimiter-free identifier that join back into the string; an array is used unchanged |
| MultiPicker.MergedIds | recipe-server/client/control/components/MultiPicker.js:253-259 | the list after adding has no duplicates and holds exactly the value's identifiers and the batch's; the value's deduplicated identifiers come first; everything is in first-occurrence order |
| MultiPicker.ApplySelection | recipe-server/client/control/components/MultiPicker.js:247-263 | the emitted string splits back into the merged list whenever no identifier contains the delimiter and the list is non-empty; it is empty when the list is |
| MultiPicker.RemainingIds | recipe-server/client/control/components/MultiPicker.js:279-282 | the list after removing keeps the value's order; it holds no batch element; every other identifier stays, duplicates included |
| MultiPicker.RemoveSelection | recipe-server/client/control/components/MultiPicker.js:273-286 | the emitted string splits back into the remaining list under the same condition, and is empty when nothing remains |
| MultiPicker.ApplyIsIdempotent | recipe-server/client/control/components/MultiPicker.js:253-262 | adding the same batch again to the emitted string emits the same string, provided no identifier contains the delimiter |
| MultiPicker.RemoveIsIdempotent | recipe-server/client/control/components/MultiPicker.js:279-285 | removing the same batch again from the emitted string emits the same string |
| MultiPicker.RemoveNothingKeepsText | recipe-server/client/control/components/MultiPicker.js:279-285 | removing an empty batch re-emits a string value unchanged |
| MultiPicker.RemoveUndoesApply | recipe-server/client/control/components/MultiPicker.js:247-286 | removing a batch just added to a duplicate-free string value that held none of it restores the string |
| MultiPicker.IsChosen | recipe-server/client/control/components/MultiPicker.js:303-304 | partition membership, `value.indexOf(option.value) !== -1`, holds for a string value exactly when the identifier is a substring of it, and for an array exactly when the identifier is an element |
| MultiPicker.AvailableOptions | recipe-server/client/control/components/MultiPicker.js:303 | the available list keeps option order and holds exactly the unchosen options, with their multiplicity |
| MultiPicker.SelectedOptions | recipe-server/client/control/components/MultiPicker.js:304 | the selected list keeps option order and holds exactly the chosen options, with their multiplicity |
| MultiPicker.PartitionIsExact | recipe-server/client/control/components/MultiPicker.js:303-304 | every option lands in exactly one of the two lists, and both keep the option order |
| MultiPicker.PartitionIsUnique | recipe-server/client/control/components/MultiPicker.js:303-304 | the two lists are the only order-preserving split into an unchosen and a chosen part |
| MultiPicker.ExampleEmptyValue | recipe-server/client/control/components/MultiPicker.js:303-304 | with value `""`, both options are available and none is selected |
| MultiPicker.ExampleAddToEmptyValue | recipe-server/client/control/components/MultiPicker.js:253-262 | adding `["a"]` to `""` emits `", a"`, and the partition of that value lists "a" as selected and "b" as available |
| MultiPicker.ExampleRemove | recipe-server/client/control/components/MultiPicker.js:279-285 | removing `["a"]` from `"a, b"` emits `"b"` |
| MultiPickerIntended.EmptyValueGainsEmptyId | recipe-server/client/control/components/MultiPicker.js:253-262 | as written, adding to `""` creates an identifier `""` that was in neither the value nor the batch |
| MultiPickerIntended.SubstringMembershipKeepsRemovedOption | recipe-server/client/control/components/MultiPicker.js:303-304 | as written, option "a" is listed as selected for value "ab", and removing "a" leaves the value unchanged, so the option stays listed as selected |
| MultiPickerIntended.NormalizeIntended | recipe-server/client/control/components/MultiPicker.js:253 | corrected normalisation: the empty string lists no identifiers; any other string gives delimiter-free identifiers that join back into it, which with `Delimited.SplitJoin` fixes them as its `split(', ')` pieces |
| MultiPickerIntended.IsChosenIntended | recipe-server/client/control/components/MultiPicker.js:303-304 | corrected membership: for a string value, membership in its `split(', ')` pieces, with `""` listing none; for an array, element membership; it never holds where the as-written `MultiPicker.IsChosen` does not |
| MultiPickerIntended.ApplyIntended | recipe-server/client/control/components/MultiPicker.js:247-263 | corrected add: for identifiers that are non-empty and free of the delimiter, the emitted string is empty exactly when the value and the batch list no identifiers; its partner `ApplyIntendedChoosesUnion` states that the chosen identifiers afterwards are the union |
| MultiPickerIntended.RemoveIntended | recipe-server/client/control/components/MultiPicker.js:273-286 | corrected remove: removing every identifier emits `""`; its partner `RemoveIntendedChoosesDifference` states that the chosen identifiers afterwards are the difference |
| MultiPickerIntended.SelectedIntended | recipe-server/client/control/components/MultiPicker.js:304 | corrected selected list: keeps the option order and holds exactly the options whose value is one of the value's identifiers, each as often as in the options |
| MultiPickerIntended.AvailableIntended | recipe-server/client/control/components/MultiPicker.js:303 | corrected available list: keeps the option order and holds exactly the options whose value is not one of the value's identifiers, each as often as in the options |
| MultiPickerIntended.IntendedRoundTrip | recipe-server/client/control/components/MultiPicker.js:253-262 | with the correction, any list of non-empty, delimiter-free identifiers survives join-then-normalise, the empty list included |
| MultiPickerIntended.ApplyIntendedChoosesUnion | recipe-server/client/control/components/MultiPicker.js:253-262 | corrected add: afterwards, the chosen identifiers are exactly the value's and the batch's |
| MultiPickerIntended.RemoveIntendedChoosesDifference | recipe-server/client/control/components/MultiPicker.js:279-285 | corrected remove: afterwards, the chosen identifiers are exactly the value's minus the batch |
| MultiPickerIntended.RemovedOptionMoves | recipe-server/client/control/components/MultiPicker.js:303-304 | with corrected membership, a removed option leaves the selected list and shows as available |
| MultiPickerIntended.AddedOptionMoves | recipe-server/client/control/components/MultiPicker.js:303-304 | with corrected membership, an added option shows as selected and leaves the available list |
| MultiPickerIntended.CorrectedExamples | recipe-server/client/control/components/MultiPicker.js:253-304 | with the corrections, adding `["a"]` to `""` emits `"a"`, and "a" is not chosen in the value "ab" |

## Left out

- Rendering: JSX markup, `classnames`, PropTypes and redux-form prop types are presentation only.
- Display strings: the titles, placeholders and button labels derived from `unit` (lines 298, 311-325) are plain formatting. The empty-list message (line 163) is modelled only as which notice appears.
- DOM access: the `<select>` element's `selectedOptions` (line 41) becomes the `domValues` carried by an event. Clearing the element (line 91) and storing its ref (line 123) are not modelled. Line 123 stores `selectedRef` while lines 41 and 91 read `selectRef`; the model assumes the ref works.
- Text.Lower: lower-cases ASCII letters only, not the full Unicode mapping of `toLowerCase`.
- Missing values: `render` gives `value` and `options` no default (lines 294-295), so an undefined one is a runtime crash there; this is not modelled. In add and remove, an absent value defaults to `[]` (lines 249, 275); the caller expresses that as `Items([])`. An option with an undefined `value` or `label` is not modelled. Every `SelectOption` carries two strings; an undefined field joins like `""`.
- The form library: `onChange` is the function result. The next field value after an emit is modelled as `Joined(out)`, the string just emitted.
- MultiPicker.ApplySelection: the emitted string is described through `Split`, which recovers the merged list only when no identifier contains `", "` and the list is non-empty. The idempotence and round-trip lemmas carry the same restriction.
- MultiPicker.RemoveSelection: likewise described through `Split`, under the same restriction.

## Findings

| source | as written | input that shows it | evidently intended | confidence | as-written member | corrected member |
|---|---|---|---|---|---|---|
| recipe-server/client/control/components/MultiPicker.js:253 | `"".split(', ')` is `[""]`, so adding to an empty string value emits a leading delimiter and an empty identifier nobody chose | value `""`, selection `["a"]`: emits `", a"`, which splits into `["", "a"]` | the empty string lists no identifiers, so the emit is `"a"` | not executed; high | MultiPickerIntended.EmptyValueGainsEmptyId | MultiPickerIntended.ApplyIntendedChoosesUnion |
| recipe-server/client/control/components/MultiPicker.js:303-304 | on a string value, `value.indexOf(option.value)` is a substring search | options "a" and "ab", value `"ab"`: "a" is listed as selected; removing `["a"]` emits `"ab"` again, so it stays listed | membership in the value's split identifiers | not executed; medium | MultiPickerIntended.SubstringMembershipKeepsRemovedOption | MultiPickerIntended.RemovedOptionMoves |

`MultiPicker` keeps the code's behaviour in both places. `MultiPickerIntended` holds the corrected normalisation and membership, with the intended properties proved for add, remove and the partition.
