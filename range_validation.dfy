/** The validation logic of the date range picker hook: the range rule that every date
    field checks (an unavailable endpoint, or an end before the start), the conversion of a
    field's validation result into a validation event, the merge of two events, and the
    merge of the two fields' results into the picker's own validation state.

    Dates are values of an abstract type D compared by a `compare` function into `int`
    (negative, zero, positive); `mergeValidity`, which merges two validity-detail maps, is
    a function argument about which nothing is assumed. */
module RangeValidation {
  import opened Wrappers

  const UnavailableMessage: string := "Selected dates unavailable"
  const EndBeforeStartMessage: string := "End date must be after start date"

  /** The picker's value: either endpoint may be missing. */
  datatype RangeValue<D> = RangeValue(start: Option<D>, end: Option<D>)

  /** `isDateUnavailable?.(d)` on a present endpoint d is truthy: a predicate is given and it holds. */
  predicate IsUnavailable<D>(isDateUnavailable: Option<D -> bool>, d: Option<D>)
  {
    d.Some? && isDateUnavailable.Some? && isDateUnavailable.value(d.value)
  }

  predicate SomeEndpointUnavailable<D>(value: RangeValue<D>, isDateUnavailable: Option<D -> bool>)
  {
    IsUnavailable(isDateUnavailable, value.start) || IsUnavailable(isDateUnavailable, value.end)
  }

  /** Both endpoints are present and the end compares strictly below the start. */
  predicate EndPrecedesStart<D>(value: RangeValue<D>, compare: (D, D) -> int)
  {
    value.start.Some? && value.end.Some? && compare(value.end.value, value.start.value) < 0
  }

  /** The range rule given to both date fields: an error message, or None when the range is
      acceptable. Unavailability is checked first and overrides the ordering error. */
  function ValidateRange<D>(value: RangeValue<D>, isDateUnavailable: Option<D -> bool>,
                            compare: (D, D) -> int): (r: Option<string>)
    ensures SomeEndpointUnavailable(value, isDateUnavailable) ==> r == Some(UnavailableMessage)
    ensures r == Some(EndBeforeStartMessage) <==>
              !SomeEndpointUnavailable(value, isDateUnavailable) && EndPrecedesStart(value, compare)
    ensures r == None <==>
              !SomeEndpointUnavailable(value, isDateUnavailable) && !EndPrecedesStart(value, compare)
  {
    if (value.start.Some? && isDateUnavailable.Some? && isDateUnavailable.value(value.start.value))
       || (value.end.Some? && isDateUnavailable.Some? && isDateUnavailable.value(value.end.value)) then
      Some(UnavailableMessage)
    else if value.end.Some? && value.start.Some? && compare(value.end.value, value.start.value) < 0 then
      Some(EndBeforeStartMessage)
    else
      None
  }

  /** `compare` orders D totally: it is zero on equal dates, flips sign when its arguments are
      swapped, and "at most" is transitive. */
  ghost predicate IsTotalOrder<D(!new)>(compare: (D, D) -> int)
  {
    && (forall d: D :: compare(d, d) == 0)
    && (forall d, e: D :: compare(d, e) < 0 <==> compare(e, d) > 0)
    && (forall d, e, f: D {:trigger compare(d, e), compare(e, f)} ::
          compare(d, e) <= 0 && compare(e, f) <= 0 ==> compare(d, f) <= 0)
  }

  /** When the rule accepts a range with both endpoints, the start is at or before the end. */
  lemma AcceptedRangeIsOrdered<D(!new)>(value: RangeValue<D>, isDateUnavailable: Option<D -> bool>,
                                        compare: (D, D) -> int)
    requires IsTotalOrder(compare)
    requires ValidateRange(value, isDateUnavailable, compare) == None
    requires value.start.Some? && value.end.Some?
    ensures compare(value.start.value, value.end.value) <= 0
  {
  }

  /** Conversely, an ordered range of available dates is accepted. */
  lemma OrderedAvailableAccepted<D(!new)>(value: RangeValue<D>, isDateUnavailable: Option<D -> bool>,
                                          compare: (D, D) -> int)
    requires IsTotalOrder(compare)
    requires value.start.Some? && value.end.Some?
    requires !SomeEndpointUnavailable(value, isDateUnavailable)
    requires compare(value.start.value, value.end.value) <= 0
    ensures ValidateRange(value, isDateUnavailable, compare) == None
  {
  }

  /** A one-day range (start and end the same available date) is accepted. */
  lemma SameDayRangeAccepted<D(!new)>(d: D, isDateUnavailable: Option<D -> bool>, compare: (D, D) -> int)
    requires IsTotalOrder(compare)
    requires !IsUnavailable(isDateUnavailable, Some(d))
    ensures ValidateRange(RangeValue(Some(d), Some(d)), isDateUnavailable, compare) == None
  {
  }

  /** A range with a missing endpoint is never out of order, whatever the other endpoint is. */
  lemma OpenRangeHasNoOrderError<D>(value: RangeValue<D>, isDateUnavailable: Option<D -> bool>,
                                    compare: (D, D) -> int)
    requires value.start.None? || value.end.None?
    ensures ValidateRange(value, isDateUnavailable, compare) != Some(EndBeforeStartMessage)
  {
  }

  /** Days numbered by calendar date (2024-01-10 as 20240110): with end 2024-01-05 before start
      2024-01-10 the rule reports the ordering error. */
  lemma EndBeforeStartExample()
    ensures ValidateRange(RangeValue(Some(20240110), Some(20240105)), None, (d: int, e: int) => d - e)
            == Some(EndBeforeStartMessage)
  {
  }

  // ---------------------------------------------------------------------------------------
  // Validation results and events

  /** A validity-detail map: rule name (`valid`, `valueMissing`, `customError`, ...) to flag. */
  type Details = map<string, bool>

  /** A field's error message: absent (or a falsy node), a string, or a non-string node
      (a rendered element or a function of the validation), which JavaScript treats as truthy. */
  datatype Message = NoMessage | Text(text: string) | Node(node: nat)

  predicate MessageIsTruthy(m: Message)
  {
    m.Node? || (m.Text? && m.text != "")
  }

  /** The `'valid' | 'invalid'` validation state of a field. */
  datatype FieldState = Valid | Invalid

  /** What a field (and the picker as a whole) reports about its validity. */
  datatype FormValidationResult =
    FormValidationResult(validationState: Option<FieldState>, errorMessage: Message, validationDetails: Details)

  /** What is handed to `onValidationChange`. */
  datatype FormValidationEvent =
    FormValidationEvent(isInvalid: bool, errorMessage: string, validationDetails: Details)

  /** The details record `valid: true`; a missing key reads as `undefined`, which is falsy. */
  predicate DetailsValid(d: Details)
  {
    "valid" in d && d["valid"]
  }

  /** Turns a field's result into an event: invalid unless the details say valid, the message
      kept only when it is a string, the details passed through unchanged. */
  function ValidationResultToEvent(result: FormValidationResult): (r: FormValidationEvent)
    ensures !r.isInvalid <==> "valid" in result.validationDetails && result.validationDetails["valid"]
    ensures result.errorMessage.Text? ==> r.errorMessage == result.errorMessage.text
    ensures !result.errorMessage.Text? ==> r.errorMessage == ""
    ensures r.validationDetails == result.validationDetails
  {
    FormValidationEvent(
      !DetailsValid(result.validationDetails),
      match result.errorMessage
      case Text(s) => s
      case _ => "",
      result.validationDetails)
  }

  /** Merges two events: invalid when either is, the first non-empty message, the details
      merged by `mergeValidity`. */
  function GetValidationEvent(a: FormValidationEvent, b: FormValidationEvent,
                              mergeValidity: (Details, Details) -> Details): (r: FormValidationEvent)
    ensures r.isInvalid <==> a.isInvalid || b.isInvalid
    ensures a.errorMessage != "" ==> r.errorMessage == a.errorMessage
    ensures a.errorMessage == "" ==> r.errorMessage == b.errorMessage
    ensures r.errorMessage == "" <==> a.errorMessage == "" && b.errorMessage == ""
    ensures r.validationDetails == mergeValidity(a.validationDetails, b.validationDetails)
  {
    FormValidationEvent(
      a.isInvalid || b.isInvalid,
      if a.errorMessage != "" then a.errorMessage else b.errorMessage,
      mergeValidity(a.validationDetails, b.validationDetails))
  }

  /** Swapping the events changes neither the invalidity nor, when only one event carries a
      message, the message; with two messages the first argument's wins. */
  lemma GetValidationEventOrder(a: FormValidationEvent, b: FormValidationEvent,
                                mergeValidity: (Details, Details) -> Details)
    ensures GetValidationEvent(a, b, mergeValidity).isInvalid == GetValidationEvent(b, a, mergeValidity).isInvalid
    ensures a.errorMessage == "" || b.errorMessage == "" ==>
              GetValidationEvent(a, b, mergeValidity).errorMessage == GetValidationEvent(b, a, mergeValidity).errorMessage
    ensures a.errorMessage != "" && b.errorMessage != "" ==>
              GetValidationEvent(b, a, mergeValidity).errorMessage == b.errorMessage
  {
  }

  /** The picker's own result from its two fields' results: the start field's state when it
      has one, else the end field's; the start field's message when truthy, else the end
      field's; the details merged by `mergeValidity`. */
  function CombineFieldResults(start: FormValidationResult, end: FormValidationResult,
                               mergeValidity: (Details, Details) -> Details): (r: FormValidationResult)
    ensures start.validationState.Some? ==> r.validationState == start.validationState
    ensures start.validationState.None? ==> r.validationState == end.validationState
    ensures r.validationState == Some(Invalid) <==>
              start.validationState == Some(Invalid) || (start.validationState.None? && end.validationState == Some(Invalid))
    ensures MessageIsTruthy(start.errorMessage) ==> r.errorMessage == start.errorMessage
    ensures !MessageIsTruthy(start.errorMessage) ==> r.errorMessage == end.errorMessage
    ensures r.validationDetails == mergeValidity(start.validationDetails, end.validationDetails)
  {
    FormValidationResult(
      if start.validationState.Some? then start.validationState else end.validationState,
      if MessageIsTruthy(start.errorMessage) then start.errorMessage else end.errorMessage,
      mergeValidity(start.validationDetails, end.validationDetails))
  }

  /** When neither field's message is a non-string node, the picker's message (as an event
      would carry it) is the message of the event that merges the two fields' events. */
  lemma CombinedMessageMatchesMergedEvent(start: FormValidationResult, end: FormValidationResult,
                                          mergeValidity: (Details, Details) -> Details)
    requires !start.errorMessage.Node? && !end.errorMessage.Node?
    ensures ValidationResultToEvent(CombineFieldResults(start, end, mergeValidity)).errorMessage
         == GetValidationEvent(ValidationResultToEvent(start), ValidationResultToEvent(end), mergeValidity).errorMessage
  {
  }

  /** With a non-string node as the start field's message the two differ: the picker shows the
      node, while the merged event carries the end field's text. */
  lemma NodeMessageDivergesFromMergedEvent(mergeValidity: (Details, Details) -> Details)
    ensures var start := FormValidationResult(None, Node(0), map[]);
            var end := FormValidationResult(None, Text("x"), map[]);
            CombineFieldResults(start, end, mergeValidity).errorMessage == Node(0) &&
            GetValidationEvent(ValidationResultToEvent(start), ValidationResultToEvent(end), mergeValidity).errorMessage == "x"
  {
  }
}
