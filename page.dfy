/**
 * The page context the scan runs in: a rendered document seen only
 * through the DOM calls the scan makes. Elements are opaque
 * identities; the selector engine, the regular-expression engine and
 * layout-dependent `innerText` are left uninterpreted, as total
 * functions fixed for one document.
 */
module Page {
  import opened Wrappers

  /** An element of the document, by identity. */
  type Node = nat

  datatype Document = Document(
    /** The `document` node that `document.querySelectorAll` starts from. */
    root: Node,
    /** `scope.querySelectorAll(sel)`: the matching descendants of `scope`, in document order. */
    querySelectorAll: (Node, string) -> seq<Node>,
    /** Whether the browser's selector parser accepts `sel`; it throws a SyntaxError otherwise. */
    isValidSelector: string -> bool,
    /** `el.parentNode`, `None` standing for `null`. */
    parentNode: Node -> Option<Node>,
    /** Whether `el.innerText` is defined: it is on HTML elements, and `undefined` on SVG or MathML ones. */
    hasInnerText: Node -> bool,
    /** `el.innerText` where it is defined. */
    innerText: Node -> string,
    /** Whether `new RegExp(pattern)` compiles; `text.match(pattern)` throws otherwise. */
    isValidPattern: string -> bool,
    /** `text.match(pattern) !== null` for a pattern that compiles. */
    patternMatches: (string, string) -> bool)

  /** What makes the code inside the page throw, ending the whole scan. */
  datatype ScanError =
    | NestedHasText            // 'We do not support nested :hasText selector.'
    | NestedHas                // 'We do not support nested :has selector.'
    | SyntaxError(selector: string)
    | PatternError(pattern: string)
    | NullReference            // a property read on `null`
    | NoInnerText              // `.match` read on the `undefined` text of a non-HTML element

  /** `scope.querySelector(sel)`: the first match in document order, or `null`. */
  function QuerySelector(doc: Document, scope: Node, sel: string): Option<Node>
  {
    var all := doc.querySelectorAll(scope, sel);
    if all == [] then None else Some(all[0])
  }

  /** `scope.querySelectorAll(sel)` for a selector taken from the request, which may not parse. */
  function Select(doc: Document, scope: Node, sel: string): Result<seq<Node>, ScanError>
  {
    if doc.isValidSelector(sel) then Ok(doc.querySelectorAll(scope, sel))
    else Err(SyntaxError(sel))
  }
}
