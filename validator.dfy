/**
 * `isSelectorValid` (server/server.js:195-238): a cheap syntax check of
 * the request's selector, run against an empty JSDOM document before any
 * book is opened. JSDOM's selector parser is the parameter `cssOk`:
 * `cssOk(s)` holds when `document.querySelector(s)` does not throw.
 */
module Validator {
  import opened Wrappers
  import opened JsStrings
  import opened Page
  import opened Selector

  datatype Validation = Validation(status: bool, message: string)

  const Success := Validation(true, "OK")
  const NoSelectorMessage := "You have to provide selector."

  function NotValidMessage(selector: string): string
  {
    "Provided selector: \"" + selector + "\" is not valid."
  }

  /** The probes of the parts a parsed selector hands to the selector engine. */
  predicate ProbesPass(h: HybridSelector, cssOk: string -> bool)
  {
    cssOk(h.base) && (h.op.Has? ==> cssOk(h.op.inner))
  }

  function IsSelectorValid(selector: string, cssOk: string -> bool): (v: Validation)
    ensures v.status <==> v.message == "OK"
    ensures selector == "" ==> v == Validation(false, NoSelectorMessage)
    ensures selector != "" && !v.status ==> v.message == NotValidMessage(selector)
    // any :hasText selector passes, whatever the engine says of its parts
    ensures selector != "" && Contains(selector, HasTextMarker) ==> v == Success
    // for every other selector: passes exactly when the scan's parse succeeds and the engine accepts its parts
    ensures selector != "" && !Contains(selector, HasTextMarker) ==>
      (v.status <==> ParseSelector(selector).Ok? && ProbesPass(ParseSelector(selector).value, cssOk))
  {
    if selector == "" then
      Validation(false, NoSelectorMessage)
    else
      var notValid := Validation(false, NotValidMessage(selector));
      assert |notValid.message| > 2;
      var parts := Split(selector, HasMarker);
      if Contains(selector, HasTextMarker) then
        Success
      else if Contains(selector, HasMarker) then
        if |parts| > 2 then notValid
        else if cssOk(parts[0]) && cssOk(SliceInner(parts[1])) then Success
        else notValid
      else if cssOk(selector) then Success
      else notValid
  }

  /**
   * A nested `:hasText` selector gets through the check, although the
   * scan then rejects it on the first page: the check never splits at
   * `:hasText`.
   */
  lemma NestedHasTextPassesCheck(selector: string, cssOk: string -> bool)
    requires TwoOccurrences(selector, HasTextMarker)
    ensures IsSelectorValid(selector, cssOk) == Success
    ensures ParseSelector(selector) == Err(NestedHasText)
  {
    var i, j :| OccursAt(selector, HasTextMarker, i) && OccursAt(selector, HasTextMarker, j) && i + |HasTextMarker| <= j;
    assert Contains(selector, HasTextMarker);
  }
}
