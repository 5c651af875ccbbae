/**
 * The section name of a page (server/server.js:116-131): the page's own
 * title, prefixed with the chapter's number or name found two levels
 * above it.
 */
module Title {
  import opened Wrappers
  import opened Page

  /** A document title that is not the direct child of a metadata block. */
  const TitleSelector := "*:not([data-type=\"metadata\"]) > [data-type=\"document-title\"]"
  const NumberSelector := ".os-number"
  const ChapterNumberSelector := "h1[data-type=\"document-title\"] .os-number"
  const ChapterHeadingSelector := "h1[data-type=\"document-title\"]"
  const PrefaceTitle := "Preface"

  predicate EndsWith(s: string, suffix: string)
  {
    |suffix| <= |s| && s[|s| - |suffix|..] == suffix
  }

  /** `n.parentNode.parentNode`; `None` when either step meets `null`, where the code throws. */
  function Grandparent(doc: Document, n: Node): Option<Node>
  {
    match doc.parentNode(n)
    case None => None
    case Some(p) => doc.parentNode(p)
  }

  /** The page's title element, if it has one. */
  function TitleElement(doc: Document, page: Node): Option<Node>
  {
    QuerySelector(doc, page, TitleSelector)
  }

  function ResolveTitle(doc: Document, page: Node): (r: Result<Option<string>, ScanError>)
    ensures TitleElement(doc, page).None? <==> r == Ok(None)
    ensures r.Err? ==> r.error == NullReference
    ensures TitleElement(doc, page).Some? ==>
      var t := TitleElement(doc, page).value;
      // a numbered title is its own name; nothing above it is looked at
      && (QuerySelector(doc, t, NumberSelector).Some? ==> r == Ok(Some(doc.innerText(t))))
      // whatever prefix is added, the name ends with the title's own text
      && (r.Ok? ==> r.value.Some? && EndsWith(r.value.value, doc.innerText(t)))
      // reading the chapter heading of an unnumbered title fails when there is none
      && (r.Err? <==>
            && QuerySelector(doc, t, NumberSelector).None?
            && (Grandparent(doc, t).None? ||
                QuerySelector(doc, Grandparent(doc, t).value, ChapterHeadingSelector).None?))
  {
    match TitleElement(doc, page)
    case None => Ok(None)
    case Some(t) =>
      var text := doc.innerText(t);
      if QuerySelector(doc, t, NumberSelector).Some? then
        Ok(Some(text))
      else
        match Grandparent(doc, t)
        case None => Err(NullReference)
        case Some(g) =>
          var chapterNumber := QuerySelector(doc, g, ChapterNumberSelector);
          match QuerySelector(doc, g, ChapterHeadingSelector)
          case None => Err(NullReference)
          case Some(heading) =>
            var chapterTitle := doc.innerText(heading);
            if chapterNumber.Some? then
              Ok(Some(doc.innerText(chapterNumber.value) + " " + text))
            else if chapterTitle != "" && chapterTitle != PrefaceTitle then
              Ok(Some("Chapter: " + chapterTitle + " Module: " + text))
            else
              Ok(Some(text))
  }

  /**
   * The fallback chain for an unnumbered title whose grandparent holds a
   * chapter heading: the chapter's number if it has one, else its name
   * unless that is empty or the preface, else the bare title.
   */
  lemma ChapterFallback(doc: Document, page: Node, t: Node, g: Node, heading: Node)
    requires TitleElement(doc, page) == Some(t)
    requires QuerySelector(doc, t, NumberSelector).None?
    requires Grandparent(doc, t) == Some(g)
    requires QuerySelector(doc, g, ChapterHeadingSelector) == Some(heading)
    ensures QuerySelector(doc, g, ChapterNumberSelector).Some? ==>
      ResolveTitle(doc, page) ==
        Ok(Some(doc.innerText(QuerySelector(doc, g, ChapterNumberSelector).value) + " " + doc.innerText(t)))
    ensures QuerySelector(doc, g, ChapterNumberSelector).None? && doc.innerText(heading) != "" && doc.innerText(heading) != PrefaceTitle ==>
      ResolveTitle(doc, page) == Ok(Some("Chapter: " + doc.innerText(heading) + " Module: " + doc.innerText(t)))
    ensures QuerySelector(doc, g, ChapterNumberSelector).None? && (doc.innerText(heading) == "" || doc.innerText(heading) == PrefaceTitle) ==>
      ResolveTitle(doc, page) == Ok(Some(doc.innerText(t)))
  {
  }
}
