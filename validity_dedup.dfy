/** Suppression of repeated validation events. The hook keeps the last event it passed on in
    a one-slot cache (initially empty) and ignores a new event whose message is the cached
    one's and whose every detail key has the cached value; any other event replaces the cache
    and is handed to the caller's `onValidationChange`, when the caller gave one. The two date
    fields' handlers record their own event and pass on the merge of it with the other
    field's current result. */
module ValidityDedup {
  import opened Wrappers
  import opened RangeValidation

  /** On every key of `incoming`, `cached` holds the same flag. Keys only `cached` has are not
      looked at; a key missing from `cached` reads as `undefined`, which equals no flag. */
  predicate DetailsAgree(cached: Details, incoming: Details)
  {
    forall k :: k in incoming ==> k in cached && cached[k] == incoming[k]
  }

  /** The cache holds an event with v's message whose details agree with v's. The invalidity
      flags are not compared. */
  predicate IsRepeat(cached: Option<FormValidationEvent>, v: FormValidationEvent): (r: bool)
    ensures r ==> cached.Some? && cached.value.errorMessage == v.errorMessage
    ensures r ==> forall k :: k in v.validationDetails ==>
                    k in cached.value.validationDetails && cached.value.validationDetails[k] == v.validationDetails[k]
    ensures cached.Some? && cached.value.errorMessage == v.errorMessage
            && v.validationDetails.Keys <= cached.value.validationDetails.Keys
            && (forall k :: k in v.validationDetails ==> cached.value.validationDetails[k] == v.validationDetails[k])
            ==> r
    ensures cached == Some(v) ==> r
  {
    && cached.Some?
    && cached.value.errorMessage == v.errorMessage
    && DetailsAgree(cached.value.validationDetails, v.validationDetails)
  }

  /** The repeat test is one-sided: a cached event with an extra detail key, or with the
      opposite invalidity, still makes v a repeat, while v does not make that event one. */
  lemma RepeatIsOneSided(v: FormValidationEvent, k: string, flag: bool)
    requires k !in v.validationDetails
    ensures var wider := v.(validationDetails := v.validationDetails[k := flag]);
            IsRepeat(Some(wider), v) && !IsRepeat(Some(v), wider)
    ensures IsRepeat(Some(v.(isInvalid := !v.isInvalid)), v)
  {
  }

  /** The cache after v arrives: kept on a repeat, otherwise v. Afterwards v itself (and so
      any event equal to it) is a repeat. */
  function Remember(cached: Option<FormValidationEvent>, v: FormValidationEvent): (c: Option<FormValidationEvent>)
    ensures IsRepeat(c, v)
    ensures c == cached || c == Some(v)
    ensures c != cached ==> !IsRepeat(cached, v)
  {
    if IsRepeat(cached, v) then cached else Some(v)
  }

  /** The events passed on, in order, when `events` arrive one after another at a cache
      holding `cached`. */
  function Forwarded(cached: Option<FormValidationEvent>, events: seq<FormValidationEvent>): (sent: seq<FormValidationEvent>)
    ensures |sent| <= |events|
    ensures forall e :: e in sent ==> e in events
    decreases |events|
  {
    if events == [] then []
    else
      var v := events[0];
      (if IsRepeat(cached, v) then [] else [v]) + Forwarded(Remember(cached, v), events[1..])
  }

  /** The cache after `events` arrive one after another. */
  function CacheAfter(cached: Option<FormValidationEvent>, events: seq<FormValidationEvent>): Option<FormValidationEvent>
    decreases |events|
  {
    if events == [] then cached else CacheAfter(Remember(cached, events[0]), events[1..])
  }

  /** The first event to reach an empty cache is always passed on. */
  lemma FirstEventForwarded(events: seq<FormValidationEvent>)
    requires events != []
    ensures Forwarded(None, events) != [] && Forwarded(None, events)[0] == events[0]
  {
  }

  /** An event that arrives twice in a row is passed on at most once. */
  lemma RepeatedEventForwardedOnce(cached: Option<FormValidationEvent>, v: FormValidationEvent)
    ensures Forwarded(cached, [v, v]) == Forwarded(cached, [v])
  {
  }

  /** The cache always holds the last event passed on (or what it held before, if none was). */
  lemma {:induction false} CacheIsLastForwarded(cached: Option<FormValidationEvent>, events: seq<FormValidationEvent>)
    ensures var sent := Forwarded(cached, events);
            CacheAfter(cached, events) == if sent == [] then cached else Some(sent[|sent| - 1])
    decreases |events|
  {
    if events != [] {
      var v := events[0];
      CacheIsLastForwarded(Remember(cached, v), events[1..]);
    }
  }

  /** No event passed on is a repeat of the one passed on just before it (nor, for the first,
      of what the cache held at the start). */
  lemma {:induction false} ForwardedHasNoRepeats(cached: Option<FormValidationEvent>, events: seq<FormValidationEvent>)
    ensures var sent := Forwarded(cached, events);
            && (sent != [] ==> !IsRepeat(cached, sent[0]))
            && (forall i :: 0 < i < |sent| ==> !IsRepeat(Some(sent[i - 1]), sent[i]))
    decreases |events|
  {
    if events != [] {
      var v := events[0];
      var rest := Forwarded(Remember(cached, v), events[1..]);
      ForwardedHasNoRepeats(Remember(cached, v), events[1..]);
      if !IsRepeat(cached, v) {
        var sent := [v] + rest;
        assert Forwarded(cached, events) == sent;
        forall i | 0 < i < |sent|
          ensures !IsRepeat(Some(sent[i - 1]), sent[i])
        {
          if i > 1 {
            assert sent[i - 1] == rest[i - 2] && sent[i] == rest[i - 1];
          }
        }
      }
    }
  }

  /** The one-slot cache of the last event passed on. */
  class ValidityCache {
    var current: Option<FormValidationEvent>

    constructor()
      ensures current == None
    {
      current := None;
    }

    /** Handles event v; returns the event handed to the caller's callback, or None when no
        call is made (v is a repeat, or the caller gave no callback). */
    method OnValidationChange(v: FormValidationEvent, hasCallback: bool) returns (delivered: Option<FormValidationEvent>)
      modifies this
      ensures current == Remember(old(current), v)
      ensures delivered == if hasCallback && !IsRepeat(old(current), v) then Some(v) else None
    {
      var c := current;
      if IsRepeat(c, v) {
        delivered := None;
        return;
      }
      current := Some(v);
      delivered := if hasCallback then Some(v) else None;
    }
  }

  /** The validation wiring of the two date fields: each field's `onValidationChange` first
      hands its event to its own setter (`setStartValidation` or `setEndValidation`), then
      passes the merge of that event with the other field's current result to the shared
      cache. `startRequested` and `endRequested` hold the last event given to each setter. */
  class FieldValidationHandlers {
    const cache: ValidityCache
    var startRequested: Option<FormValidationEvent>
    var endRequested: Option<FormValidationEvent>

    constructor()
      ensures fresh(cache) && cache.current == None
      ensures startRequested == None && endRequested == None
    {
      cache := new ValidityCache();
      startRequested, endRequested := None, None;
    }

    /** The start field reports v while the end field's result is `endValidation`. */
    method OnStartValidationChange(v: FormValidationEvent, endValidation: FormValidationResult,
                                   mergeValidity: (Details, Details) -> Details, hasCallback: bool)
      returns (delivered: Option<FormValidationEvent>)
      modifies this, cache
      ensures startRequested == Some(v) && endRequested == old(endRequested)
      ensures var e := GetValidationEvent(v, ValidationResultToEvent(endValidation), mergeValidity);
              && cache.current == Remember(old(cache.current), e)
              && delivered == if hasCallback && !IsRepeat(old(cache.current), e) then Some(e) else None
    {
      startRequested := Some(v);
      delivered := cache.OnValidationChange(GetValidationEvent(v, ValidationResultToEvent(endValidation), mergeValidity), hasCallback);
    }

    /** The end field reports v while the start field's result is `startValidation`. */
    method OnEndValidationChange(v: FormValidationEvent, startValidation: FormValidationResult,
                                 mergeValidity: (Details, Details) -> Details, hasCallback: bool)
      returns (delivered: Option<FormValidationEvent>)
      modifies this, cache
      ensures endRequested == Some(v) && startRequested == old(startRequested)
      ensures var e := GetValidationEvent(ValidationResultToEvent(startValidation), v, mergeValidity);
              && cache.current == Remember(old(cache.current), e)
              && delivered == if hasCallback && !IsRepeat(old(cache.current), e) then Some(e) else None
    {
      endRequested := Some(v);
      delivered := cache.OnValidationChange(GetValidationEvent(ValidationResultToEvent(startValidation), v, mergeValidity), hasCallback);
    }
  }
}
