/**
 * Splitting a hybrid selector at its pseudo-operator, the way the scan
 * does it on every page (server/server.js:135-174): the `:hasText`
 * marker is looked for first, because it textually contains `:has`.
 */
module Selector {
  import opened Wrappers
  import opened JsStrings
  import opened Page

  const HasTextMarker := ":hasText"
  const HasMarker := ":has"

  datatype PseudoOp =
    | NoPseudo
      /** `base:has(inner)`: `inner` is the text after the marker without its first and last character. */
    | Has(inner: string)
      /** `base:hasText(...)`: the pattern is the raw text after the marker, parentheses included. */
    | HasText(pattern: string)

  datatype HybridSelector = HybridSelector(base: string, op: PseudoOp)

  /** The parse the scan performs; only the two nesting errors can come out of it. */
  function ParseSelector(selector: string): (r: Result<HybridSelector, ScanError>)
    ensures Contains(selector, HasTextMarker) ==>
      && (r.Err? <==> TwoOccurrences(selector, HasTextMarker))
      && (r.Err? ==> r.error == NestedHasText)
      && (r.Ok? ==>
            && r.value.op.HasText?
            && selector == r.value.base + HasTextMarker + r.value.op.pattern
            && !Contains(r.value.base, HasTextMarker)
            && !Contains(r.value.op.pattern, HasTextMarker))
    ensures !Contains(selector, HasTextMarker) && Contains(selector, HasMarker) ==>
      && (r.Err? <==> TwoOccurrences(selector, HasMarker))
      && (r.Err? ==> r.error == NestedHas)
      && (r.Ok? ==>
            && r.value.op.Has?
            && |r.value.base| + |HasMarker| <= |selector|
            && var raw := selector[|r.value.base| + |HasMarker|..];
            && selector == r.value.base + HasMarker + raw
            && !Contains(r.value.base, HasMarker)
            && !Contains(raw, HasMarker)
            && r.value.op.inner == SliceInner(raw))
    ensures !Contains(selector, HasTextMarker) && !Contains(selector, HasMarker) ==>
      r == Ok(HybridSelector(selector, NoPseudo))
  {
    if Contains(selector, HasTextMarker) then
      var parts := Split(selector, HasTextMarker);
      SplitCount(selector, HasTextMarker);
      if |parts| > 2 then Err(NestedHasText)
      else
        SplitTwo(selector, HasTextMarker);
        Ok(HybridSelector(parts[0], HasText(parts[1])))
    else if Contains(selector, HasMarker) then
      var parts := Split(selector, HasMarker);
      SplitCount(selector, HasMarker);
      if |parts| > 2 then Err(NestedHas)
      else
        SplitTwo(selector, HasMarker);
        assert selector[|parts[0]| + |HasMarker|..] == parts[1];
        Ok(HybridSelector(parts[0], Has(SliceInner(parts[1]))))
    else
      Ok(HybridSelector(selector, NoPseudo))
  }
}
