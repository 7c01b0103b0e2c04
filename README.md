# Date range picker validation and attributes, in Dafny

This project models the logic inside `useDateRangePicker`, the React Aria hook behind the
date range picker. The hook wires two date fields, a trigger button and a popover calendar
to a range state object. The model covers the parts of the hook that make decisions:

- **The range rule.** Both date fields are given the same rule. It reports
  `Selected dates unavailable` when a present endpoint is unavailable. Otherwise it reports
  `End date must be after start date` when both endpoints are present and the end compares
  below the start. Otherwise it reports nothing. Dates are an abstract type `D` with a
  `compare` into `int`. The lemmas that need ordering facts assume `compare` is a total order.
- **Validation events.** This covers converting a field's validation result into an event
  (`validationResultToEvent`) and merging two events (`getValidationEvent`). It also covers
  the picker's own validation state, which comes from the start field's result when that is
  truthy and otherwise from the end field's. `mergeValidity` is passed in as a function
  argument, and nothing is assumed about it.
- **Duplicate suppression.** A one-slot cache, `ValidityCache`, holds the last event passed
  on. A new event is a repeat when it has the cached message and each of its detail keys has
  the cached value. A repeat is dropped. Any other event replaces the cache and goes to the
  caller's `onValidationChange`, if the caller gave one. `FieldValidationHandlers` models the
  two fields' handlers. Each one records its event for its setter, then passes on the merge
  of that event with the other field's result. The functions `Forwarded` and `CacheAfter`
  describe what happens across a sequence of events. The lemmas prove three things about
  them:
  - the first event to reach an empty cache is always passed on;
  - the cache always holds the last event passed on;
  - no event passed on is a repeat of the one just before it.
- **Attributes.**
  - `aria-describedby` is built with filter, join and `|| undefined`.
  - The fields' label falls back to the field id.
  - The button and the dialog share `${buttonId} ${labelledBy}` as their `aria-labelledby`.
  - `aria-expanded` and `aria-disabled` are either `true` or absent, never `false`.
  - The group swallows key events while the popover is open.
  - The calendar's `defaultFocusedValue` is the placeholder only when no range is set.

  Space-separated id lists are read back as lists of ids by `IdRefs.Tokens`. This is how
  the join and the template literal are shown to refer to the intended ids, in the intended
  order.

The modules are `Wrappers` (Option), `RangeValidation`, `ValidityDedup`, `IdRefs` and
`PickerAttributes`, one file each.

Two facts about the code are worth stating outright:
- A repeat compares the message and only the new event's detail keys. `isInvalid` and keys
  only the cached event has are not compared (`ValidityDedup.RepeatIsOneSided`).
- The merged details are whatever `mergeValidity` returns. Nothing is assumed about it.

## Model

| member | source | states |
|---|---|---|
| `RangeValidation.ValidateRange` | packages/@react-aria/datepicker/src/useDateRangePicker.ts:114-123 | An unavailable present endpoint always yields the unavailable message, overriding the ordering check. The ordering message comes exactly when no endpoint is unavailable, both are present and end compares below start. No message comes exactly when neither holds. |
| `RangeValidation.AcceptedRangeIsOrdered` | packages/@react-aria/datepicker/src/useDateRangePicker.ts:120-122 | For a total order, an accepted range with both endpoints has start at or before end. |
| `RangeValidation.OrderedAvailableAccepted` | packages/@react-aria/datepicker/src/useDateRangePicker.ts:116-122 | For a total order, present and available endpoints with start at or before end are accepted. This is the converse of `AcceptedRangeIsOrdered`. |
| `RangeValidation.SameDayRangeAccepted` | packages/@react-aria/datepicker/src/useDateRangePicker.ts:120-122 | Equal, available endpoints are accepted: the check is strict. |
| `RangeValidation.OpenRangeHasNoOrderError` | packages/@react-aria/datepicker/src/useDateRangePicker.ts:120 | With either endpoint missing there is never an ordering error. |
| `RangeValidation.EndBeforeStartExample` | packages/@react-aria/datepicker/src/useDateRangePicker.ts:120-122 | Start 2024-01-10 with end 2024-01-05 gives "End date must be after start date". |
| `RangeValidation.ValidationResultToEvent` | packages/@react-aria/datepicker/src/useDateRangePicker.ts:251-257 | The event is valid exactly when the details hold `valid: true`, where a missing key counts as not valid. The message is kept when it is a string and is `''` otherwise. The details pass through unchanged. |
| `RangeValidation.GetValidationEvent` | packages/@react-aria/datepicker/src/useDateRangePicker.ts:244-249 | Invalid iff either event is. The message is the first event's when it is non-empty, else the second's, so it is empty only when both are. The details are `mergeValidity` of the two. |
| `RangeValidation.GetValidationEventOrder` | packages/@react-aria/datepicker/src/useDateRangePicker.ts:244-249 | Swapping the events never changes invalidity, and does not change the message when at most one is non-empty. With two messages, the first argument's wins. |
| `RangeValidation.CombineFieldResults` | packages/@react-aria/datepicker/src/useDateRangePicker.ts:60-62 | The picker's state is the start field's when it has one, else the end field's. It is `invalid` exactly when start is invalid, or start has no state and end is invalid. The message is the start field's when truthy, else the end field's. The details are `mergeValidity` of the two fields' details. |
| `RangeValidation.CombinedMessageMatchesMergedEvent` | packages/@react-aria/datepicker/src/useDateRangePicker.ts:61 | When neither field's message is a non-string node, the picker's message, read as an event would read it, equals the message of the merged event of the two fields. |
| `RangeValidation.NodeMessageDivergesFromMergedEvent` | packages/@react-aria/datepicker/src/useDateRangePicker.ts:61 | Say the start field's message is a non-string node and the end field's is text. Then the picker shows the node, while the merged event carries the end field's text. |
| `ValidityDedup.IsRepeat` | packages/@react-aria/datepicker/src/useDateRangePicker.ts:141-145 | An event is a repeat exactly when all of these hold: the cache holds an event; the two messages are equal (`===`); and every key of the new event's details is in the cached details with the same flag. `isInvalid` plays no part. An event identical to the cached one is always a repeat. |
| `ValidityDedup.Remember` | packages/@react-aria/datepicker/src/useDateRangePicker.ts:140-149 | After an event arrives, the cache is unchanged or is that event, and it changes only when the event was not a repeat. Either way, the same event arriving next is a repeat. |
| `ValidityDedup.RepeatIsOneSided` | packages/@react-aria/datepicker/src/useDateRangePicker.ts:141-145 | Detail keys only the cached event has, and `isInvalid`, are not compared, so the repeat test is not symmetric. |
| `ValidityDedup.Forwarded` | packages/@react-aria/datepicker/src/useDateRangePicker.ts:137-153 | Over a run of events, those passed on are at most as many as arrived, and each one passed on is one that arrived. |
| `ValidityDedup.FirstEventForwarded` | packages/@react-aria/datepicker/src/useDateRangePicker.ts:136-149 | The cache starts empty, so the first event is always passed on. |
| `ValidityDedup.RepeatedEventForwardedOnce` | packages/@react-aria/datepicker/src/useDateRangePicker.ts:140-147 | The same event twice in a row is passed on at most once. |
| `ValidityDedup.CacheIsLastForwarded` | packages/@react-aria/datepicker/src/useDateRangePicker.ts:149 | After any run of events, the cache holds the last event passed on, or its old value if none was passed on. |
| `ValidityDedup.ForwardedHasNoRepeats` | packages/@react-aria/datepicker/src/useDateRangePicker.ts:140-151 | No event passed on is a repeat of the one passed on before it. The first is not a repeat of the initial cache. |
| `ValidityDedup.ValidityCache.constructor` | packages/@react-aria/datepicker/src/useDateRangePicker.ts:136 | The cache starts empty. |
| `ValidityDedup.ValidityCache.OnValidationChange` | packages/@react-aria/datepicker/src/useDateRangePicker.ts:137-153 | The new cache is `Remember(old cache, v)`. The callback receives v exactly when v is not a repeat and a callback was given, and is not called otherwise. |
| `ValidityDedup.FieldValidationHandlers.constructor` | packages/@react-aria/datepicker/src/useDateRangePicker.ts:136 | Both handlers share one fresh, empty cache. Neither setter has been called yet. |
| `ValidityDedup.FieldValidationHandlers.OnStartValidationChange` | packages/@react-aria/datepicker/src/useDateRangePicker.ts:206-209 | The start setter gets v and the end setter's record is untouched. The event handed to the cache is v merged with the end field's result as an event, with v's message first. |
| `ValidityDedup.FieldValidationHandlers.OnEndValidationChange` | packages/@react-aria/datepicker/src/useDateRangePicker.ts:217-220 | The end setter gets v and the start setter's record is untouched. The event handed to the cache is the start field's result as an event, merged with v, with start's message first. |
| `IdRefs.Join` | packages/@react-aria/datepicker/src/useDateRangePicker.ts:92 | Joining a list whose first id is non-empty gives a non-empty string. |
| `IdRefs.TokensAcrossSpace` | packages/@react-aria/datepicker/src/useDateRangePicker.ts:190 | A string, a space and a string refer to the ids of the first, then the ids of the second. |
| `IdRefs.TokensOfJoin` | packages/@react-aria/datepicker/src/useDateRangePicker.ts:92 | A list joined with spaces refers to every id of every element, in order. |
| `IdRefs.JoinOfSingleIds` | packages/@react-aria/datepicker/src/useDateRangePicker.ts:92 | Joining single ids gives a value that refers to exactly those ids, in order. |
| `PickerAttributes.Compact` | packages/@react-aria/datepicker/src/useDateRangePicker.ts:92 | `filter(Boolean)` keeps exactly the truthy ids, in order. Every kept id is non-empty, and the result is empty exactly when no id is truthy. |
| `PickerAttributes.CompactOne` | packages/@react-aria/datepicker/src/useDateRangePicker.ts:92 | A single entry is kept, as its id, exactly when it is truthy. |
| `PickerAttributes.CompactAppend` | packages/@react-aria/datepicker/src/useDateRangePicker.ts:92 | Filtering a concatenation gives the filtered first part followed by the filtered second part. With `CompactOne`, this pins the result to the truthy ids in their order. |
| `PickerAttributes.DescribedBy` | packages/@react-aria/datepicker/src/useDateRangePicker.ts:92 | The value is undefined exactly when no id is truthy. Otherwise it refers to the ids of the truthy entries, in order. |
| `PickerAttributes.AriaDescribedBy` | packages/@react-aria/datepicker/src/useDateRangePicker.ts:92 | The value is undefined when both ids are falsy. With one truthy id, it is that id. With both, it is the description id, a space, then the field's id. |
| `PickerAttributes.DescribedByRefersToBothIds` | packages/@react-aria/datepicker/src/useDateRangePicker.ts:92 | Two single ids give a value that refers to exactly those two ids, description first. |
| `PickerAttributes.LabelledBy` | packages/@react-aria/datepicker/src/useDateRangePicker.ts:70 | The field's `aria-labelledby` when truthy, else the field's id. |
| `PickerAttributes.ButtonLabelledBy` | packages/@react-aria/datepicker/src/useDateRangePicker.ts:190-197 | The button's and the dialog's `aria-labelledby` refer to the button's ids, then the label's ids. |
| `PickerAttributes.ButtonNamesItselfFirst` | packages/@react-aria/datepicker/src/useDateRangePicker.ts:190 | The button is labelled first by itself, then by the field's `aria-labelledby` ids if truthy, else by the field id. |
| `PickerAttributes.AriaExpanded` | packages/@react-aria/datepicker/src/useDateRangePicker.ts:192 | The attribute is present exactly while the popover is open, and it is never `false`. |
| `PickerAttributes.AriaDisabled` | packages/@react-aria/datepicker/src/useDateRangePicker.ts:158 | The attribute is present exactly when `isDisabled` is true, and it is never `false`. |
| `PickerAttributes.ForwardKeyEvent` | packages/@react-aria/datepicker/src/useDateRangePicker.ts:160-177 | While the popover is open, no key event reaches the caller's handler. When it is closed, the handler is called, with the event itself, exactly when one was given. |
| `PickerAttributes.DefaultFocusedValue` | packages/@react-aria/datepicker/src/useDateRangePicker.ts:234 | The value is undefined when a range is set, and the placeholder date otherwise. |

## Left out

- React plumbing is not modelled: `useMemo`, the `useRef` lifetime, `useId`, `useFormValidationState`, `useField`, `useDatePickerGroup`, `useFocusWithin` and `useDescription`. Ids and field results are parameters instead.
- The setters `setStartValidation`/`setEndValidation` are modelled only as recording the event they receive. How the next render's field result is built from it is not modelled, because it happens inside `useFormValidationState`.
- `createFocusManager` and `focusFirst` (lines 93-96 and 182) are left out because they are DOM focus side effects.
- Localisation is left out: the string formatter, `useLocale` and `state.formatValue` (lines 57 and 72-74), including the range description text.
- `mergeProps` and `filterDOMProps` are left out because they are generic library code.
- `mergeValidity`, `composeValidate` and `mapValidate` are left out. `mergeValidity` is a function argument with no assumptions. The order in which `composeValidate` runs the caller's `validate` and the range rule is not modelled.
- Calendar arithmetic inside dates is abstracted to an opaque type with `compare`.
- The pass-through prop bundles (common field props, calendar props other than `defaultFocusedValue`, dialog id) are copies with nothing to prove, so they are not modelled.
- Error messages that are falsy non-string nodes (`null`, `false`, `0`) are folded into `NoMessage`. Other non-string nodes and message functions are represented as opaque, truthy `Node` values.
- `PickerAttributes.LabelledBy` takes the field id as always present, because the field helper always assigns one. The case where the template literal would render `undefined` is not modelled.
- `PickerAttributes.ForwardKeyEvent` records which call is made, not what the caller's handler does.
