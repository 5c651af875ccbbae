/**
 * The scan inside `getResults` (server/server.js:109-182): for every page
 * of the book, in document order, its section name, the elements the
 * hybrid selector matches in it, and a record when there is at least one.
 */
module Scanner {
  import opened Wrappers
  import opened JsStrings
  import opened Page
  import opened Selector
  import opened Title
  import opened Validator

  const PagesSelector := "[data-type=\"composite-page\"], [data-type=\"page\"]"

  /** `{section_name, link: null, instances}`. */
  datatype SectionResult = SectionResult(sectionName: Option<string>, link: Option<string>, instances: nat)

  /** `[...s].filter(keep)`. */
  function Filter(s: seq<Node>, keep: Node -> bool): (r: seq<Node>)
    ensures |r| <= |s|
    ensures forall n :: n in r <==> n in s && keep(n)
    ensures forall n :: multiset(r)[n] == if keep(n) then multiset(s)[n] else 0
  {
    if s == [] then []
    else
      assert s == [s[0]] + s[1..];
      (if keep(s[0]) then [s[0]] else []) + Filter(s[1..], keep)
  }

  /** Whether a candidate element counts under the pseudo-operator. */
  predicate Qualifies(doc: Document, op: PseudoOp, n: Node)
  {
    match op
    case NoPseudo => true
    case Has(inner) => doc.querySelectorAll(n, inner) != []
    case HasText(pattern) => doc.patternMatches(doc.innerText(n), pattern)
  }

  /** Whether the part after the marker is accepted by the engine it is handed to. */
  predicate InnerAccepted(doc: Document, op: PseudoOp)
  {
    match op
    case NoPseudo => true
    case Has(inner) => doc.isValidSelector(inner)
    case HasText(pattern) => doc.isValidPattern(pattern)
  }

  /** Whether every candidate of a `:hasText` selector has an `innerText` to match against. */
  predicate TextReadable(doc: Document, op: PseudoOp, candidates: seq<Node>)
  {
    op.HasText? ==> forall n :: n in candidates ==> doc.hasInnerText(n)
  }

  /**
   * The `:hasText` filter, element by element: reading `.match` on the
   * `undefined` text of a non-HTML element throws, and so does a pattern
   * that does not compile, at the first element that gets that far.
   */
  function FilterText(doc: Document, s: seq<Node>, pattern: string): (r: Result<seq<Node>, ScanError>)
    ensures r.Err? <==> s != [] && (!doc.isValidPattern(pattern) || exists n :: n in s && !doc.hasInnerText(n))
    ensures s != [] && !doc.hasInnerText(s[0]) ==> r == Err(NoInnerText)
    ensures s != [] && doc.hasInnerText(s[0]) && !doc.isValidPattern(pattern) ==> r == Err(PatternError(pattern))
    ensures doc.isValidPattern(pattern) && r.Err? ==> r.error == NoInnerText
    ensures r.Ok? ==> r.value == Filter(s, (n: Node) => Qualifies(doc, HasText(pattern), n))
  {
    if s == [] then Ok([])
    else if !doc.hasInnerText(s[0]) then Err(NoInnerText)
    else if !doc.isValidPattern(pattern) then Err(PatternError(pattern))
    else
      var rest :- FilterText(doc, s[1..], pattern);
      assert s == [s[0]] + s[1..];
      Ok((if Qualifies(doc, HasText(pattern), s[0]) then [s[0]] else []) + rest)
  }

  /**
   * The elements of `page` the parsed selector matches. The part after
   * the marker is only handed to its engine once there is a candidate,
   * so it can only throw then; a `:hasText` filter also throws on a
   * candidate without `innerText`.
   */
  function MatchSet(doc: Document, page: Node, h: HybridSelector): (r: Result<seq<Node>, ScanError>)
    ensures r.Err? <==>
      || !doc.isValidSelector(h.base)
      || (doc.querySelectorAll(page, h.base) != [] && !InnerAccepted(doc, h.op))
      || !TextReadable(doc, h.op, doc.querySelectorAll(page, h.base))
    ensures !doc.isValidSelector(h.base) ==> r == Err(SyntaxError(h.base))
    ensures r.Ok? ==>
      var candidates := doc.querySelectorAll(page, h.base);
      && |r.value| <= |candidates|
      && (forall n :: multiset(r.value)[n] == if Qualifies(doc, h.op, n) then multiset(candidates)[n] else 0)
      && (r.value != [] <==> exists n :: n in candidates && Qualifies(doc, h.op, n))
  {
    var candidates :- Select(doc, page, h.base);
    match h.op
    case NoPseudo =>
      Ok(candidates)
    case Has(inner) =>
      if candidates != [] && !doc.isValidSelector(inner) then Err(SyntaxError(inner))
      else Ok(Filter(candidates, (n: Node) => Qualifies(doc, h.op, n)))
    case HasText(pattern) =>
      FilterText(doc, candidates, pattern)
  }

  /** What one page contributes: its title, then the parse, then the matching, and a record if anything matched. */
  function PageRecords(doc: Document, page: Node, selector: string): (r: Result<seq<SectionResult>, ScanError>)
    ensures r.Ok? <==>
      ResolveTitle(doc, page).Ok? && ParseSelector(selector).Ok? &&
      MatchSet(doc, page, ParseSelector(selector).value).Ok?
    // the title is resolved before the selector is parsed, and both before matching
    ensures ResolveTitle(doc, page).Err? ==> r == Err(ResolveTitle(doc, page).error)
    ensures ResolveTitle(doc, page).Ok? && ParseSelector(selector).Err? ==> r == Err(ParseSelector(selector).error)
    ensures r.Ok? ==>
      var found := MatchSet(doc, page, ParseSelector(selector).value).value;
      && |r.value| <= 1
      && (r.value != [] <==> |found| > 0)
      && (r.value != [] ==> r.value[0] == SectionResult(ResolveTitle(doc, page).value, None, |found|))
  {
    var title :- ResolveTitle(doc, page);
    var h :- ParseSelector(selector);
    var found :- MatchSet(doc, page, h);
    if |found| > 0 then Ok([SectionResult(title, None, |found|)]) else Ok([])
  }

  /** The first failure wins; otherwise the records are concatenated. */
  function Then(first: Result<seq<SectionResult>, ScanError>, rest: Result<seq<SectionResult>, ScanError>): Result<seq<SectionResult>, ScanError>
  {
    match first
    case Err(_) => first
    case Ok(here) =>
      match rest
      case Err(_) => rest
      case Ok(there) => Ok(here + there)
  }

  lemma ThenUnit(x: Result<seq<SectionResult>, ScanError>)
    ensures Then(Ok([]), x) == x
  {
    if x.Ok? {
      assert [] + x.value == x.value;
    }
  }

  lemma ThenAssociative(x: Result<seq<SectionResult>, ScanError>, y: Result<seq<SectionResult>, ScanError>, z: Result<seq<SectionResult>, ScanError>)
    ensures Then(Then(x, y), z) == Then(x, Then(y, z))
  {
    if x.Ok? && y.Ok? && z.Ok? {
      assert (x.value + y.value) + z.value == x.value + (y.value + z.value);
    }
  }

  /** The whole scan over `pages`, as the loop performs it. */
  function ScanPages(doc: Document, pages: seq<Node>, selector: string): Result<seq<SectionResult>, ScanError>
    decreases |pages|
  {
    if pages == [] then Ok([])
    else Then(PageRecords(doc, pages[0], selector), ScanPages(doc, pages[1..], selector))
  }

  /** One more page processed: its records come after the ones collected so far. */
  lemma ScanStep(doc: Document, pages: seq<Node>, i: nat, selector: string, results: seq<SectionResult>)
    requires i < |pages|
    ensures Then(Ok(results), ScanPages(doc, pages[i..], selector)) ==
      Then(Then(Ok(results), PageRecords(doc, pages[i], selector)), ScanPages(doc, pages[i + 1..], selector))
  {
    assert pages[i..][1..] == pages[i + 1..];
    ThenAssociative(Ok(results), PageRecords(doc, pages[i], selector), ScanPages(doc, pages[i + 1..], selector));
  }

  /** `page.evaluate(...)` of `getResults`: the loop over the pages that pushes the records. */
  method GetResults(doc: Document, selector: string) returns (r: Result<seq<SectionResult>, ScanError>)
    ensures r == ScanPages(doc, doc.querySelectorAll(doc.root, PagesSelector), selector)
  {
    var pages := doc.querySelectorAll(doc.root, PagesSelector);
    var results: seq<SectionResult> := [];
    var i := 0;
    assert pages[i..] == pages;
    ThenUnit(ScanPages(doc, pages, selector));
    while i < |pages|
      invariant 0 <= i <= |pages|
      invariant ScanPages(doc, pages, selector) == Then(Ok(results), ScanPages(doc, pages[i..], selector))
    {
      ScanStep(doc, pages, i, selector, results);
      var here :- PageRecords(doc, pages[i], selector);
      results := results + here;
      i := i + 1;
    }
    assert pages[i..] == [] && results + [] == results;
    return Ok(results);
  }

  /** The scan of two runs of pages is the scan of the first followed by the scan of the second. */
  lemma {:induction false} ScanPagesAppend(doc: Document, a: seq<Node>, b: seq<Node>, selector: string)
    ensures ScanPages(doc, a + b, selector) == Then(ScanPages(doc, a, selector), ScanPages(doc, b, selector))
  {
    if a == [] {
      assert a + b == b;
      ThenUnit(ScanPages(doc, b, selector));
    } else {
      assert (a + b)[1..] == a[1..] + b;
      ScanPagesAppend(doc, a[1..], b, selector);
      ThenAssociative(PageRecords(doc, a[0], selector), ScanPages(doc, a[1..], selector), ScanPages(doc, b, selector));
    }
  }

  /** At most one record per page, each with a positive count and no link. */
  lemma {:induction false} ScanPagesRecords(doc: Document, pages: seq<Node>, selector: string)
    ensures ScanPages(doc, pages, selector).Ok? ==>
      var rs := ScanPages(doc, pages, selector).value;
      && |rs| <= |pages|
      && forall k :: 0 <= k < |rs| ==> rs[k].link == None && rs[k].instances > 0
  {
    if pages != [] {
      ScanPagesRecords(doc, pages[1..], selector);
    }
  }

  /** Page `i` fails and every page before it succeeds. */
  predicate FirstFailing(doc: Document, pages: seq<Node>, selector: string, i: int)
  {
    0 <= i < |pages| && PageRecords(doc, pages[i], selector).Err? &&
    forall j :: 0 <= j < i ==> PageRecords(doc, pages[j], selector).Ok?
  }

  /** The first failing page of the rest is, one position later, the first failing page of the whole. */
  lemma FirstFailingShift(doc: Document, pages: seq<Node>, selector: string, i: int)
    requires pages != [] && PageRecords(doc, pages[0], selector).Ok?
    requires FirstFailing(doc, pages[1..], selector, i)
    ensures FirstFailing(doc, pages, selector, i + 1) && pages[i + 1] == pages[1..][i]
  {
    forall j | 0 < j < i + 1 ensures PageRecords(doc, pages[j], selector).Ok? {
      assert pages[j] == pages[1..][j - 1];
    }
  }

  /** The scan succeeds exactly when every page does, and a failure is that of the first failing page. */
  lemma {:induction false} ScanPagesFailure(doc: Document, pages: seq<Node>, selector: string)
    ensures ScanPages(doc, pages, selector).Ok? <==>
      forall i :: 0 <= i < |pages| ==> PageRecords(doc, pages[i], selector).Ok?
    ensures ScanPages(doc, pages, selector).Err? ==>
      exists i :: FirstFailing(doc, pages, selector, i) &&
        PageRecords(doc, pages[i], selector) == Err(ScanPages(doc, pages, selector).error)
  {
    if pages == [] {
    } else if PageRecords(doc, pages[0], selector).Err? {
      assert FirstFailing(doc, pages, selector, 0);
    } else {
      ScanPagesFailure(doc, pages[1..], selector);
      if ScanPages(doc, pages[1..], selector).Err? {
        var i :| FirstFailing(doc, pages[1..], selector, i) &&
          PageRecords(doc, pages[1..][i], selector) == Err(ScanPages(doc, pages[1..], selector).error);
        FirstFailingShift(doc, pages, selector, i);
      }
      forall i | 0 < i < |pages| ensures pages[i] == pages[1..][i - 1] { }
    }
  }

  /** A nested selector fails the scan of every book that has a page, and of no other. */
  lemma NestedSelectorFailsScan(doc: Document, pages: seq<Node>, selector: string)
    requires ParseSelector(selector).Err?
    ensures ScanPages(doc, pages, selector).Ok? <==> pages == []
  {
    ScanPagesFailure(doc, pages, selector);
    if pages != [] {
      assert !PageRecords(doc, pages[0], selector).Ok?;
    }
  }

  /**
   * A selector without `:hasText` that passes `isSelectorValid`, when the
   * page's engine parses selectors as JSDOM does, can only fail the scan
   * through a missing chapter heading.
   */
  lemma CheckedSelectorFailsOnlyOnTitles(doc: Document, pages: seq<Node>, selector: string)
    requires IsSelectorValid(selector, doc.isValidSelector).status
    requires !Contains(selector, HasTextMarker)
    ensures ScanPages(doc, pages, selector).Err? ==> ScanPages(doc, pages, selector).error == NullReference
  {
    ScanPagesFailure(doc, pages, selector);
    var h := ParseSelector(selector).value;
    assert h.op.NoPseudo? || h.op.Has?;
    forall page ensures MatchSet(doc, page, h).Ok? { }
  }
}
