/**
 * The `GET /elements` handler (server/server.js:240-279) without its
 * transport: the query is normalised, the book is looked up in the
 * catalog, the selector is checked, and only then is the book opened and
 * scanned. Opening a book is the parameter `load`, from a file name to
 * the rendered document, `None` when the browser gives up.
 */
module Elements {
  import opened Wrappers
  import opened JsStrings
  import opened Page
  import opened Validator
  import opened Scanner

  datatype Book = Book(bookName: string, fileName: string)

  /** The message of the response when the handler fails. */
  datatype Failure =
    | MissingQuery                  // `replace` read on an absent query parameter
    | UnknownBook(message: string)
    | InvalidSelector(message: string)
    | LoadFailed
    | ScanFailed(error: ScanError)

  /** `{Results: results, ...requestedBook}`. */
  datatype Response = Response(results: seq<SectionResult>, book: Book)

  /** `bookName.replace(/_/g, ' ')`. */
  function BookNameFromQuery(q: string): string
  {
    ReplaceAll(q, '_', ' ')
  }

  /** `element.replace(/'/g, '"')`. */
  function SelectorFromQuery(q: string): string
  {
    ReplaceAll(q, '\'', '"')
  }

  function NoBookMessage(name: string): string
  {
    "Couldn't find any book with name: " + name + ". Maybe this book is not yet avaible for searching custom elements."
  }

  /** `i` is the first book in the catalog with that name. */
  predicate FirstNamed(books: seq<Book>, name: string, i: int)
  {
    0 <= i < |books| && books[i].bookName == name &&
    forall j :: 0 <= j < i ==> books[j].bookName != name
  }

  /** `BOOKS.some(...)` assigning the first book whose name matches. */
  method FindBook(books: seq<Book>, name: string) returns (requested: Option<Book>)
    ensures requested.None? <==> forall i :: 0 <= i < |books| ==> books[i].bookName != name
    ensures requested.Some? ==> exists i :: FirstNamed(books, name, i) && books[i] == requested.value
  {
    var i := 0;
    while i < |books|
      invariant 0 <= i <= |books|
      invariant forall j :: 0 <= j < i ==> books[j].bookName != name
    {
      if books[i].bookName == name {
        assert FirstNamed(books, name, i);
        return Some(books[i]);
      }
      i := i + 1;
    }
    return None;
  }

  /** The handler from the raw query parameters to the response or the failure it reports. */
  method GetElements(
    books: seq<Book>, bookNameQuery: Option<string>, elementQuery: Option<string>,
    cssOk: string -> bool, load: string -> Option<Document>)
    returns (r: Result<Response, Failure>)
    ensures bookNameQuery.None? || elementQuery.None? ==> r == Err(MissingQuery)
    ensures bookNameQuery.Some? && elementQuery.Some? ==>
      var name := BookNameFromQuery(bookNameQuery.value);
      var selector := SelectorFromQuery(elementQuery.value);
      && ((forall i :: 0 <= i < |books| ==> books[i].bookName != name) ==> r == Err(UnknownBook(NoBookMessage(name))))
      && forall i | FirstNamed(books, name, i) ::
           var book := books[i];
           r == (if book.fileName == "" then Err(UnknownBook(NoBookMessage(name)))
                 else if !IsSelectorValid(selector, cssOk).status then Err(InvalidSelector(IsSelectorValid(selector, cssOk).message))
                 else if load(book.fileName).None? then Err(LoadFailed)
                 else match ScanPages(load(book.fileName).value,
                                      load(book.fileName).value.querySelectorAll(load(book.fileName).value.root, PagesSelector),
                                      selector)
                      case Err(e) => Err(ScanFailed(e))
                      case Ok(results) => Ok(Response(results, book)))
  {
    if bookNameQuery.None? || elementQuery.None? {
      return Err(MissingQuery);
    }
    var name := BookNameFromQuery(bookNameQuery.value);
    var selector := SelectorFromQuery(elementQuery.value);
    var requested := FindBook(books, name);
    if requested.None? {
      return Err(UnknownBook(NoBookMessage(name)));
    }
    var book := requested.value;
    ghost var k :| FirstNamed(books, name, k) && books[k] == book;
    forall i | FirstNamed(books, name, i) ensures i == k { }
    if book.fileName == "" {
      return Err(UnknownBook(NoBookMessage(name)));
    }
    var validated := IsSelectorValid(selector, cssOk);
    if !validated.status {
      return Err(InvalidSelector(validated.message));
    }
    var doc := load(book.fileName);
    if doc.None? {
      return Err(LoadFailed);
    }
    var results := GetResults(doc.value, selector);
    match results
    case Err(e) =>
      return Err(ScanFailed(e));
    case Ok(rs) =>
      return Ok(Response(rs, book));
  }

  /** The normalised query holds no underscore in the book name and no single quote in the selector, and normalising again changes neither. */
  lemma NormalisedQuery(bookName: string, element: string)
    ensures '_' !in BookNameFromQuery(bookName)
    ensures '\'' !in SelectorFromQuery(element)
    ensures BookNameFromQuery(BookNameFromQuery(bookName)) == BookNameFromQuery(bookName)
    ensures SelectorFromQuery(SelectorFromQuery(element)) == SelectorFromQuery(element)
  {
    ReplaceAllRemoves(bookName, '_', ' ');
    ReplaceAllRemoves(element, '\'', '"');
  }
}
