/** The attributes the date range picker hook derives for its elements: the shared
    `aria-describedby`, the label the two fields fall back on, the button's and dialog's
    `aria-labelledby`, `aria-expanded` and `aria-disabled`, the gating of the group's key
    handlers while the popover is open, and the calendar's default focused date. */
module PickerAttributes {
  import opened Wrappers
  import opened IdRefs
  import opened RangeValidation

  /** An optional string is truthy: present and non-empty. */
  predicate Truthy(s: Option<string>)
  {
    s.Some? && s.value != ""
  }

  /** `ids.filter(Boolean)`: the truthy ids, in order. */
  function Compact(ids: seq<Option<string>>): (r: seq<string>)
    ensures forall x :: x in r ==> x != ""
    ensures r == [] <==> forall i :: 0 <= i < |ids| ==> !Truthy(ids[i])
  {
    if ids == [] then []
    else if Truthy(ids[0]) then [ids[0].value] + Compact(ids[1..])
    else
      assert forall i :: 1 <= i < |ids| ==> ids[i] == ids[1..][i - 1];
      Compact(ids[1..])
  }

  /** Filtering a single entry keeps its id exactly when it is truthy. */
  lemma CompactOne(x: Option<string>)
    ensures Compact([x]) == if Truthy(x) then [x.value] else []
  {
    assert [x][1..] == [];
  }

  /** Filtering distributes over concatenation, so `Compact` keeps exactly the truthy ids,
      each where it stood. */
  lemma {:induction false} CompactAppend(a: seq<Option<string>>, b: seq<Option<string>>)
    ensures Compact(a + b) == Compact(a) + Compact(b)
  {
    if a != [] {
      assert (a + b)[0] == a[0] && (a + b)[1..] == a[1..] + b;
      CompactAppend(a[1..], b);
    } else {
      assert a + b == b;
    }
  }

  /** `ids.filter(Boolean).join(' ') || undefined`. */
  function DescribedBy(ids: seq<Option<string>>): (r: Option<string>)
    ensures r.None? <==> forall i :: 0 <= i < |ids| ==> !Truthy(ids[i])
    ensures r.Some? ==> Tokens(r.value) == FlatTokens(Compact(ids))
  {
    var present := Compact(ids);
    var joined := Join(present);
    TokensOfJoin(present);
    assert present != [] ==> present[0] in present;
    if joined == "" then None else Some(joined)
  }

  /** The `aria-describedby` shared by the group, both fields and the button: the description's
      id, then the field's, leaving out absent or empty ones; undefined when neither is there. */
  function AriaDescribedBy(descriptionId: Option<string>, fieldDescribedBy: Option<string>): (r: Option<string>)
    ensures r.None? <==> !Truthy(descriptionId) && !Truthy(fieldDescribedBy)
    ensures Truthy(descriptionId) && Truthy(fieldDescribedBy) ==>
              r == Some(descriptionId.value + " " + fieldDescribedBy.value)
    ensures Truthy(descriptionId) && !Truthy(fieldDescribedBy) ==> r == descriptionId
    ensures !Truthy(descriptionId) && Truthy(fieldDescribedBy) ==> r == fieldDescribedBy
  {
    var ids := [descriptionId, fieldDescribedBy];
    assert ids[1..] == [fieldDescribedBy] && ids[1..][1..] == [];
    var rest := if Truthy(fieldDescribedBy) then [fieldDescribedBy.value] else [];
    assert Compact(ids[1..]) == rest;
    assert Compact(ids) == if Truthy(descriptionId) then [descriptionId.value] + rest else rest;
    assert Truthy(descriptionId) && Truthy(fieldDescribedBy) ==>
             Join([descriptionId.value] + rest) == descriptionId.value + " " + fieldDescribedBy.value
      by { if Truthy(descriptionId) && Truthy(fieldDescribedBy) { assert ([descriptionId.value] + rest)[1..] == rest; } }
    DescribedBy(ids)
  }

  /** Two single ids give a list that refers to both, the description first. */
  lemma DescribedByRefersToBothIds(descriptionId: string, fieldDescribedBy: string)
    requires IsSingleId(descriptionId) && IsSingleId(fieldDescribedBy)
    ensures AriaDescribedBy(Some(descriptionId), Some(fieldDescribedBy)).Some?
    ensures Tokens(AriaDescribedBy(Some(descriptionId), Some(fieldDescribedBy)).value) == [descriptionId, fieldDescribedBy]
  {
    JoinOfSingleIds([descriptionId, fieldDescribedBy]);
  }

  /** The label the fields use: the field's `aria-labelledby` when truthy, else the field's id
      (which the field helper always assigns). */
  function LabelledBy(fieldLabelledBy: Option<string>, fieldId: string): (r: string)
    ensures Truthy(fieldLabelledBy) ==> r == fieldLabelledBy.value
    ensures !Truthy(fieldLabelledBy) ==> r == fieldId
  {
    if Truthy(fieldLabelledBy) then fieldLabelledBy.value else fieldId
  }

  /** `${buttonId} ${labelledBy}`, the `aria-labelledby` of both the button and the dialog: the
      ids it refers to are the button's, then the label's. */
  function ButtonLabelledBy(buttonId: string, labelledBy: string): (r: string)
    ensures Tokens(r) == Tokens(buttonId) + Tokens(labelledBy)
  {
    TokensAcrossSpace(buttonId, labelledBy);
    buttonId + " " + labelledBy
  }

  /** The button (and the dialog) is labelled first by the button itself, then by every id the
      fields are labelled by. */
  lemma ButtonNamesItselfFirst(buttonId: string, fieldLabelledBy: Option<string>, fieldId: string)
    requires IsSingleId(buttonId)
    ensures Tokens(ButtonLabelledBy(buttonId, LabelledBy(fieldLabelledBy, fieldId)))
         == [buttonId] + (if Truthy(fieldLabelledBy) then Tokens(fieldLabelledBy.value) else Tokens(fieldId))
  {
    SingleIdTokens(buttonId);
  }

  /** `state.isOpen || undefined`: true while open, and absent (never false) when closed. */
  function AriaExpanded(isOpen: bool): (r: Option<bool>)
    ensures r.Some? <==> isOpen
    ensures r != Some(false)
  {
    if isOpen then Some(true) else None
  }

  /** `props.isDisabled || null`: true when disabled, and absent (never false) otherwise. */
  function AriaDisabled(isDisabled: Option<bool>): (r: Option<bool>)
    ensures r.Some? <==> isDisabled == Some(true)
    ensures r != Some(false)
  {
    if isDisabled == Some(true) then Some(true) else None
  }

  /** The group's `onKeyDown` and `onKeyUp`: the key event handed on to the caller's handler, or
      None when no call is made (the popover is open, or the caller gave no handler). */
  function ForwardKeyEvent<E>(isOpen: bool, hasHandler: bool, e: E): (r: Option<E>)
    ensures isOpen ==> r.None?
    ensures !isOpen ==> (r.Some? <==> hasHandler)
    ensures r.Some? ==> r.value == e
  {
    if isOpen then None
    else if hasHandler then Some(e)
    else None
  }

  /** The calendar's `defaultFocusedValue`: the placeholder date only when no range is set. */
  function DefaultFocusedValue<D>(dateRange: Option<RangeValue<D>>, placeholderValue: Option<D>): (r: Option<D>)
    ensures dateRange.Some? ==> r.None?
    ensures dateRange.None? ==> r == placeholderValue
  {
    if dateRange.Some? then None else placeholderValue
  }
}
