# Hybrid-selector engine of elefind, modelled in Dafny

elefind answers `GET /elements?bookName=…&element=…`. It opens a book in a headless browser. It then reports, page by page, how many elements match a "hybrid" selector: an ordinary CSS selector optionally extended by one of two pseudo-operators.

- `X:has(Y)` counts the `X` elements that have a descendant matching `Y`.
- `X:hasText(T)` counts the `X` elements whose rendered text matches the pattern `T`.

This project models that engine from `server/server.js`:

- the splitting of the selector at its marker;
- the validator `isSelectorValid`, which runs before any book is opened;
- the resolution of a page's section name from its title and the enclosing chapter heading;
- the scan that builds one record per page that has matches;
- the `/elements` handler that ties these together.

The browser is abstract. A rendered document (`Page.Document`) is seen only through the DOM calls the code makes: `querySelectorAll`, `parentNode`, `innerText` and whether an element has one, whether a selector or a regular expression parses, and whether a text matches a pattern. `querySelector` is the first element of `querySelectorAll`. JSDOM's selector parser, which the validator probes, is the function parameter `cssOk`. Opening a book is the parameter `load`.

The exceptions of the page code that the model covers are the kinds of `Page.ScanError`:

- a nested marker;
- a selector or pattern the engine rejects;
- a property read on `null` while resolving a title;
- `.match` read on the `undefined` `innerText` of a non-HTML candidate (an SVG or MathML element) during a `:hasText` filter.

An exception ends the whole scan, as it does in the source.

Files, in dependency order:

- `wrappers.dfy`: `Option`, `Result`.
- `jsstrings.dfy`: the JavaScript string builtins `match` (as a substring test), `split`, `slice(1, -1)` and `replace(/c/g, d)`, with their laws.
- `page.dfy`: the abstract document and the scan's error kinds.
- `selector.dfy`: the split of a hybrid selector into base and pseudo-operator.
- `validator.dfy`: `isSelectorValid`.
- `title.dfy`: section-name resolution.
- `scanner.dfy`: per-page matching, the page loop of `getResults` and the laws of the scan.
- `elements.dfy`: the `/elements` handler, including the catalog lookup.

In places the code behaves otherwise than one might expect, and the model follows the code:

- **Title failure.** A page whose title has no `.os-number` makes the scan fail with `NullReference` when the grandparent has no `h1` chapter heading (line 120 reads `.innerText` of `null`). It also fails when either parent step is `null`. One might expect a missing chapter heading to fall back to the bare title; the code throws instead.
- **Raw `:hasText` pattern.** The `:hasText` pattern is the raw text after the marker, parentheses included. The stripped copy at line 143 is assigned to a variable that is never read.
- **Nested `:hasText`.** A nested `:hasText` selector passes the validator. It is rejected only by the scan, on the first page (`Validator.NestedHasTextPassesCheck`).
- **Parse inside the loop.** The selector is split inside the per-page loop. A nested selector therefore makes the scan fail only if the book has at least one page (`Scanner.NestedSelectorFailsScan`).
- **Validator messages.** The validator never reports the nesting message. Every failure after the empty-selector check reads `Provided selector: "<sel>" is not valid.`.

The scan is a function of its inputs, so running it twice on the same document and selector gives the same records.

## Model

| member | source | states |
|---|---|---|
| JsStrings.IndexFrom | server/server.js:135 | the result is the first occurrence of the marker at or after the start index, or none exists there |
| JsStrings.Contains | server/server.js:154 | `selector.match(marker)` succeeds exactly when the marker occurs somewhere in the selector |
| JsStrings.Split | server/server.js:155 | the pieces joined with the marker give back the selector, no piece contains the marker, the first piece ends at the first occurrence, and a selector without the marker is a single piece |
| JsStrings.SplitCount | server/server.js:157-158 | one piece exactly when the marker is absent; more than two pieces exactly when it occurs twice without overlap |
| JsStrings.SplitTwo | server/server.js:161 | with exactly two pieces, the selector is left piece + marker + right piece |
| JsStrings.SliceInner | server/server.js:162 | `slice(1, -1)` drops the first and the last character, and gives the empty string when there are fewer than two |
| JsStrings.ReplaceAll | server/server.js:245-246 | every occurrence of the character is replaced and every other character is kept, at the same length |
| JsStrings.ReplaceAllRemoves | server/server.js:245-246 | after the replacement the character is gone, and replacing again changes nothing |
| Selector.ParseSelector | server/server.js:135-174 | `:hasText` is looked for first: two occurrences give the nested-`:hasText` error, and one gives base + marker + raw pattern (parentheses kept) with no marker in either part. Otherwise `:has` is treated the same way, and its inner selector is the rest without its first and last character. Otherwise the whole selector is the base |
| Validator.IsSelectorValid | server/server.js:195-238 | the status is true exactly when the message is `OK`. An empty selector gives `You have to provide selector.`. Any `:hasText` selector passes without a probe. Any other selector passes exactly when the scan's parse succeeds and the probed parts are accepted. Every other failure gives the not-valid message |
| Validator.NestedHasTextPassesCheck | server/server.js:212-214 | a selector with two `:hasText` occurrences passes the check, yet the scan's parse rejects it as nested |
| Title.ResolveTitle | server/server.js:116-131 | no title element means no name. A numbered title is its own text and nothing above it is read. A resolved name always ends with the title's own text. Failure happens exactly for an unnumbered title whose grandparent is missing or holds no chapter heading |
| Title.ChapterFallback | server/server.js:119-127 | under a chapter heading, the name is chapter number + space + title. Without a number it is `Chapter: <heading> Module: <title>`, unless the heading is empty or `Preface`, in which case it is the bare title |
| Scanner.Filter | server/server.js:165-171 | the kept elements are exactly the candidates that satisfy the test, each as often as among the candidates, and never more than the candidates |
| Scanner.FilterText | server/server.js:146-152 | the `:hasText` filter fails exactly when there is a candidate and the pattern does not compile or some candidate has no `innerText`. The first candidate decides which error: no `innerText` there, or else the pattern's. With a compiling pattern the only error is the missing `innerText`. On success the result is the plain filter by the pattern test |
| Scanner.MatchSet | server/server.js:145-174 | matching fails exactly when the base selector does not parse, when the inner selector or pattern does not compile and there is a candidate, or when a `:hasText` candidate has no `innerText`. The matches are the base matches that qualify, with multiplicity, so there are never more of them than base matches. There is a match exactly when some base match qualifies |
| Scanner.PageRecords | server/server.js:116-178 | a page succeeds exactly when its title, the parse and the matching do. A title failure is reported before a parse failure, and both before matching. On success it gives at most one record, present exactly when the match count is positive, carrying the section name, no link and the count |
| Scanner.GetResults | server/server.js:109-182 | the loop over the book's pages returns exactly the scan of those pages in document order |
| Scanner.ScanPagesAppend | server/server.js:113-114 | scanning two runs of pages gives the scan of the first run then that of the second: pages are independent and keep their order |
| Scanner.ScanPagesRecords | server/server.js:176-178 | a successful scan has at most one record per page, each with a positive count and a null link |
| Scanner.ScanPagesFailure | server/server.js:114-179 | the scan succeeds exactly when every page does, and a failed scan reports the error of its first failing page, every earlier page having succeeded |
| Scanner.NestedSelectorFailsScan | server/server.js:138-158 | a nested selector fails the scan exactly when the book has a page |
| Scanner.CheckedSelectorFailsOnlyOnTitles | server/server.js:215-230 | when the page's engine parses selectors as the validator's does, a validated selector without `:hasText` can fail the scan only through title resolution |
| Elements.FindBook | server/server.js:250-255 | there is no result exactly when no catalog entry has the name; otherwise the result is the first entry with that name |
| Elements.GetElements | server/server.js:244-274 | a missing query parameter or an unknown name fails. For the first book with the normalised name: an empty file name is an unknown book, a rejected selector reports the validator's message, a failed load is reported, and otherwise the response carries the scan's records of the loaded document, or its error |
| Elements.NormalisedQuery | server/server.js:245-246 | the normalised book name holds no underscore and the normalised selector no single quote, and normalising twice is normalising once |

## Left out

- Express routing, CORS headers, the rate limiter, static serving and `app.listen` (server/server.js:11-66, 281-285): transport only.
- Launching Puppeteer, request interception, `page.goto` with its timeout, and `browser.close` (server/server.js:78-107, 184): these are browser I/O. The loaded document and its failure are the parameter `load`.
- The real CSS selector engines of the browser and of JSDOM (server/server.js:210, 223-228): foreign libraries, kept as the uninterpreted `isValidSelector` and `cssOk`. The fixed selectors of the title lookup and of the page list are taken to be valid.
- JsStrings.SliceInner: works on Unicode scalar values, while JavaScript's `slice(1, -1)` works on UTF-16 code units, so the two differ when the first or last character after `:has` lies outside the Basic Multilingual Plane (server/server.js:162, 221).
- Title.ResolveTitle: reads `innerText` of the title, chapter-number and chapter-heading elements as if they were HTML elements; an SVG or MathML element there would give `undefined`, which the model does not represent (server/server.js:119-127).
- Regular-expression semantics of `innerText.match(text)` and the layout behind `innerText` (server/server.js:147): kept abstract as `isValidPattern` and `patternMatches`.
- The contents of the `BOOKS` catalog, the book path prefix from `process.env`, and the other fields of a catalog entry that the response spreads: configuration that is not part of this model.
- Console logging, the `pageerror` handler and the status codes, and the text `Something went wrong. Details: …` that re-wraps a scan error (server/server.js:68-74, 191): the model keeps the error itself.
- Query parameters that arrive as arrays rather than strings: Express behaviour outside the handler's code.
