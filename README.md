# Book catalogue service — a Dafny model

This project models the decision logic of a small HTTP catalogue of books
backed by a Redis-style hash store. The parts modelled are:

- the `Book` entity: construction, the Joi validation schema, and `isSame`;
- the book service's store operations, including search;
- the request handlers, which map domain outcomes to status codes and JSON envelopes;
- the request router and the older regular-expression route handler;
- the helpers for store keys, ISBN extraction and request bodies.

## Layout

One module per source file, plus two supporting modules:

| module | file | models |
|---|---|---|
| `JsRuntime` | `js_runtime.dfy` | the JavaScript each decision needs: property values (`undefined`, strings, integral numbers, anything else), thrown errors, `===`, and `startsWith`, `includes`, ASCII `toLowerCase`, `split`, `parseInt` and `String(n)` |
| `HashStore` | `hash_store.dfy` | the store as a `class Store` whose field `hashes: map<string, map<string, string>>` HGETALL, HSET, DEL and KEYS read and update in place; `Valid()` says no key holds an empty hash |
| `Utils` | `utils.dfy` | `src/utils.js` |
| `BookModel` | `book_model.dfy` | `src/bookModel.js` |
| `BookService` | `book_service.dfy` | `src/bookService.js`: each operation is a method on a `Store`; search is specified by the function `Search` |
| `BookController` | `book_controller.dfy` | `src/bookController.js`: create and update are methods on a `Store`, each proved equal to an outcome function of the old store (`CreateOutcome`, `UpdateOutcome`); the lemmas about those functions state what the handlers promise |
| `BookRouter` | `book_router.dfy` | `src/bookRouter.js`: dispatch to a `Route`, a rule-table reading of the same chain, and the two answers the chain gives itself |
| `RouteHandler` | `route_handler.dfy` | `src/routeHandler.js`: the regular expression `books\/([A-Za-z0-9]?(-[A-Za-z0-9]?)?)` with the `i` flag, modelled by backtracking end positions; proved to accept exactly the URLs that contain `books/` in any ASCII case |

The model's inputs and parameters:

- The key prefix is a parameter, because `config.js` is not part of this model.
- The current year is a parameter. The schema reads `new Date().getFullYear()` once, when the module loads.
- The request body arrives already parsed, or as the error its parsing threw.
- Handlers return their status code and envelope instead of writing them to a socket.

### Behaviour of the code worth knowing

- Create answers 200 with the new book. The repository's own test expects 201 (tests/integration/routes/createBook.spec.js:25).
- The 200 answer to an update carries only a message, without the updated record. The repository's test reads `updatedBook` from it (tests/integration/routes/updateBookByISBN.spec.js:32).
- The delete handler answers 200 "delete book by isbn" for any URL and never touches the store. The repository's test expects 404 for an ISBN with no record (tests/integration/routes/deleteBookByISBN.spec.js:28-34).
  `BookService.DeleteBookByISBN` does delete, but no handler calls it.
- The update handler reads the request body before its 404 check. So an unreadable body gets 400 even when the ISBN has no record.
- The 204 no-op answer needs a body that gives `publicationYear` as a JSON number. This is because a stored year reads back as text, and `===` never equates text with a number (`NoOpNeedsNumericYear`).
  An empty PATCH of a stored book therefore rewrites the record and answers 200 (`EmptyPatchRewrites`).
- The router answers "/" with the homepage whatever the HTTP method.
- The router's ISBN test `urlContainsISBN` is imported from `utils.js`, which does not define it. The router's search handler is imported from the controller, which does not export `searchBooks`. The ISBN test is therefore a function parameter of the dispatch, and the search route is only a `Route`.
- The older handler has no search branch, and its regular expression accepts `/books/search?term=…`, so it treats a search GET as a book lookup (`SearchIsReadAsISBN`).

## Model

| member | source | states |
|---|---|---|
| JsRuntime.Split | src/utils.js:32 | `split` for a one-character separator: always at least one part; `SplitJoin` and `SplitLast` state what the parts are |
| JsRuntime.SplitJoin | src/utils.js:32 | joining the parts of `split('/')` with the separator gives the URL back, and no part contains the separator |
| JsRuntime.SplitLast | src/utils.js:32 | the last part of a split contains no separator, is a suffix of the text, and is preceded by the separator when the text has one (otherwise it is the whole text) |
| JsRuntime.ParseInt | src/bookModel.js:51 | `parseInt` without a radix: leading white space, an optional sign, `0x` for hexadecimal, the longest digit run, NaN as `None`; `ParseIntOfDigits` and `ParseIntInvertsNumberToString` state its readings |
| JsRuntime.ParseIntInvertsNumberToString | src/bookModel.js:51 | `parseInt(String(n))` is `n` for every integral number, negative ones included |
| JsRuntime.ParseIntOfDigits | src/bookModel.js:51 | `parseInt` of a non-empty string of decimal digits is the number the digits denote |
| Utils.GenerateBookKey | src/utils.js:16-24 | the store key `prefix:ISBN`; `KeyParts` and `KeyInjective` state that the prefix and the ISBN can be recovered from it |
| Utils.KeyParts | src/utils.js:16-24 | a book key starts with `prefix:` and the rest of it is the ISBN |
| Utils.KeyInjective | src/utils.js:16-24 | under one prefix, different ISBNs get different keys |
| Utils.GetISBNFromUrl | src/utils.js:26-33 | the ISBN taken from a URL has no slash, is a suffix of the URL, follows its last slash, and is the whole URL when the URL has no slash |
| Utils.ISBNAfterBooksPath | src/utils.js:26-33 | for `/books/x` with `x` slash-free, the ISBN is `x` (the empty ISBN for `/books/`) |
| Utils.GetRequestBody | src/utils.js:47-51 | an empty body reads as `{}`; any other body is whatever `JSON.parse` makes of it |
| BookModel.FromObject | src/bookModel.js:26-31 | the constructor's destructuring of the four book properties; `ConstructedBookProperties`, `ExtraPropertyDropped` and `FromObjectOfToObject` state what it keeps |
| BookModel.New | src/bookModel.js:26-31 | `new Book(data)` on a parsed body: a `null` body throws a TypeError, and a body that is not an object gives a Book with every property `undefined` |
| BookModel.ConstructedBookProperties | src/bookModel.js:26-31 | a constructed Book has exactly the four book properties, each copied from the input (`undefined` when missing) |
| BookModel.ExtraPropertyDropped | src/bookModel.js:26-31 | adding any other property to the input does not change the Book |
| BookModel.FromObjectOfToObject | src/bookModel.js:26-31 | constructing a Book from a Book's own properties gives the same Book |
| BookModel.Validate | src/bookModel.js:5-42 | no error exactly when every schema rule holds (title 3–30 chars, author 2–30, year an integer in 1900..current year, ISBN at least 10 chars); otherwise the error names the first failing property in schema order, with "required" exactly when that property is missing |
| BookModel.EmptyInputFails | src/bookModel.js:5-9 | a Book built from empty input fails on the title being required |
| BookModel.TitleLengthBounds | src/bookModel.js:6-9 | a text title shorter than 3 or longer than 30 fails on the title, whatever the rest holds |
| BookModel.YearOutOfRangeFails | src/bookModel.js:14-19 | with title and author valid, years 1800 and current year + 1, the text "shh" and the empty text fail on the year |
| BookModel.ShortIsbnFails | src/bookModel.js:20-22 | with the rest valid, the empty ISBN fails as empty and a nine-character one as too short |
| BookModel.IsSame | src/bookModel.js:50-52 | strict equality of title and author, and of this year with `parseInt` of the other's; the lemmas below state its consequences |
| BookModel.IsSameIgnoresIsbn | src/bookModel.js:50-52 | the ISBN on either side never changes the `isSame` answer |
| BookModel.IsSameAsOwnData | src/bookModel.js:50-52 | a Book is the same as its own input when title and author are strings and the year is a number |
| BookModel.IsSameDetectsTitleChange | src/bookModel.js:50-52 | a different title makes `isSame` false |
| BookModel.TextYearIsNeverSame | src/bookModel.js:50-52 | a Book whose year is text is never the same as anything, because `===` compares it with a number or NaN |
| HashStore.EncodedFields | src/bookService.js:43 | the fields HSET sends are the object's own properties, each as its text, and they are empty exactly when the object is |
| HashStore.MergedHash | src/bookService.js:60 | after a field merge the hash has the union of the fields, the new value of each sent field and the old value of every other field |
| HashStore.MergeAgreeing | src/bookService.js:60 | merging fields that the hash already holds with the same values changes nothing |
| HashStore.Store.HGetAll | src/bookService.js:30 | HGETALL gives the stored hash, or the empty hash exactly when the key is absent |
| HashStore.Store.HSet | src/bookService.js:43 | with fields, HSET merges them into the hash at the key (created if absent) and counts the new fields; with none it is an error reply and nothing changes |
| HashStore.Store.Del | src/bookService.js:73 | DEL removes exactly that key and answers 1 if it was there, 0 otherwise |
| HashStore.Store.Keys | src/bookService.js:13 | KEYS lists every key with the prefix exactly once, and no other key |
| BookService.EnumerationCount | src/bookService.js:10-19 | a listing has as many records as there are keys under `prefix:` |
| BookService.GetBooks | src/bookService.js:10-19 | the result is one record per book key: every key under `prefix:` once, each with the hash stored there |
| BookService.GetBookByISBN | src/bookService.js:27-32 | the result is the hash at `prefix:ISBN`, empty exactly when the key is absent |
| BookService.CreateBook | src/bookService.js:40-45 | the book's four properties, as text, are merged into the hash at its ISBN's key, and the book is returned; when a property cannot be sent, it throws and nothing changes |
| BookService.UpdateBookByISBN | src/bookService.js:57-62 | the update's fields are merged into the hash at `prefix:ISBN`: each sent field takes its new text and every other field is kept; an unsendable value or an empty update throws and writes nothing |
| BookService.DeleteBookByISBN | src/bookService.js:70-75 | the key `prefix:ISBN` is gone, every other key is unchanged, and the ISBN is returned |
| BookService.EncodeBook | src/bookService.js:43 | a Book whose values can be sent is sent as exactly its four properties as text |
| BookService.StoredBookReadsBack | src/bookService.js:40-45 | a valid Book is stored as a complete record filed under its ISBN, and its stored year reads back through `parseInt` as the integer the schema accepted |
| BookService.Filter | src/bookService.js:87-93 | the matching records in listing order; `FilterSound`, `FilterComplete` and `FilterAppend` state that it keeps exactly the matches, in order |
| BookService.Search | src/bookService.js:83-96 | the search over a listing: a TypeError when some record lacks a title or an author, otherwise `Filter`; `SearchEmptyTerm`, `SearchNoMatch` and `FilterBooks` state its results |
| BookService.CatalogueListingSearchable | src/bookService.js:83-96 | when every record under `prefix:` is complete, every listed record has a title and an author, so search cannot throw |
| BookService.FilterSound | src/bookService.js:87-93 | every search result is a listed record whose title or author contains the term, ignoring case |
| BookService.FilterComplete | src/bookService.js:87-93 | every listed record whose title or author contains the term is a result |
| BookService.FilterAppend | src/bookService.js:87-93 | filtering distributes over concatenation, so the results keep the listing's order |
| BookService.SearchEmptyTerm | src/bookService.js:83-96 | the empty term returns the whole listing |
| BookService.SearchNoMatch | src/bookService.js:83-96 | a term that no title or author contains returns no results |
| BookService.SearchBooks | src/bookService.js:83-96 | the result is the search over a complete listing of the book keys, and it never throws when every stored record is complete |
| BookService.FilterBooks | src/bookService.js:86-95 | the loop's result is the matches in listing order, or the TypeError at a record without a title or an author |
| BookController.GetBooks | src/bookController.js:5-13 | 200 "get books" with one record per stored book |
| BookController.GetBookByISBN | src/bookController.js:41-55 | 404 "Book not found" when the URL's ISBN has no record, otherwise 200 "Book Details" with that record |
| BookController.CreateOutcome | src/bookController.js:15-39 | the answer and the new store of a create, taking the handler's decisions in its order (body error, construction, validation, existing ISBN, write); the Create lemmas below state its properties |
| BookController.CreateBook | src/bookController.js:15-39 | the answer and the new store are those of `CreateOutcome`, and the store stays free of empty hashes |
| BookController.CreateRejectsInvalid | src/bookController.js:19-25 | an invalid body is answered 422 with its first validation error, whatever the store holds, and nothing is written |
| BookController.CreateConflict | src/bookController.js:27-31 | a valid book whose ISBN is stored is answered 409 "Book already exists!" and nothing is written |
| BookController.CreateStoresBook | src/bookController.js:33-34 | a valid new book is answered 200 with the book; its key then holds exactly its four properties as text, with the year reading back as the same integer, and no other key changes |
| BookController.CreateCodes | src/bookController.js:15-39 | create answers 200, 400, 409 or 422; it answered 200 exactly when the store changed, and the status is true exactly for 200 |
| BookController.CreatePreservesCatalogue | src/bookController.js:15-39 | if every record under the prefix is complete and filed under its own ISBN, that stays true after any create |
| BookController.UpdateOutcome | src/bookController.js:59-90 | the answer and the new store of an update, taking the handler's decisions in its order (body error, missing record, validation, no-op, write); the Update lemmas below state its properties |
| BookController.Merged | src/bookController.js:71 | `new Book({...oldBook, ...update, ISBN})` over the stored record's texts; `MergedProperties` states where each property comes from |
| BookController.UpdateBookByISBN | src/bookController.js:59-90 | the answer and the new store are those of `UpdateOutcome`, and the store stays free of empty hashes |
| BookController.UpdateAbsent | src/bookController.js:61-68 | a readable body for an ISBN with no record is answered 404 and nothing is written |
| BookController.UpdateRejectsInvalid | src/bookController.js:71-77 | an invalid merge over a stored record is answered 422 with its first validation error, and nothing is written |
| BookController.MergedProperties | src/bookController.js:71 | each property of the merge comes from the body when the body has it, otherwise from the record; the ISBN is always the path's |
| BookController.WrittenRecord | src/bookController.js:84 | writing a valid merge over a record leaves a complete record with the merge's texts, filed under the merge's ISBN |
| BookController.UpdateDecisions | src/bookController.js:59-90 | only a 200 answer writes; 204 means a readable body, a stored record and a valid merge that is the same book; 200 means the same except that the merge is not the same book, and the new store is the old one with the merge written at the key |
| BookController.UpdateWrites | src/bookController.js:71-85 | a stored record with a valid merge that is not the same book is answered 200 "Book updated!", and the merge is written at the key |
| BookController.UpdatePinsISBN | src/bookController.js:70-85 | after a 200 the record at the path's key is complete, its ISBN field is the path's ISBN whatever the body said, its texts are the merge's, and no other key changed; any other code leaves the store unchanged |
| BookController.UpdatePreservesCatalogue | src/bookController.js:59-90 | if every record under the prefix is complete and filed under its own ISBN, that stays true after any update |
| BookController.NoOpNeedsNumericYear | src/bookController.js:79-82 | a 204 answer implies a body object that sets `publicationYear` to a number |
| BookController.UpdateNoOp | src/bookController.js:79-82 | a body that gives the stored year as a number, over a record the merge keeps valid, is answered 204 "No changes made!" and nothing is written |
| BookController.EmptyPatchRewrites | src/bookController.js:59-90 | an empty body for a complete, valid record is answered 200 "Book updated!", and the rewrite leaves the store as it was |
| BookController.RewriteOfOwnRecord | src/bookController.js:71-84 | merging nothing into a complete record is not the same book, and writing the merge back gives the same record |
| BookController.DeleteBookByISBN | src/bookController.js:92-99 | delete answers 200 with status true and no data for any URL; the store is not an input, so it cannot change |
| BookController.CaughtErrorsGive400 | src/bookController.js:15-90 | an error reaching the handler's catch is answered 400 with status false: create sends `error.message` and update sends the error itself, even before checking that the record exists; a `null` body on create also gives 400 |
| BookRouter.Dispatch | src/bookRouter.js:14-39 | the router's if/else chain from method and URL to a route, first branch first; `DispatchFollowsTable` and the lemmas below state which route each request takes |
| BookRouter.DirectResponse | src/bookRouter.js:16-38 | only the homepage and "Path not found" are answered by the chain itself, with 200 and status true for the homepage and 404 and status false for the other |
| BookRouter.FirstMatch | src/bookRouter.js:14-39 | the index found is that of the first rule whose condition holds, or past the end when none does |
| BookRouter.DispatchFollowsTable | src/bookRouter.js:14-39 | the if/else chain takes exactly the route of the first rule in the table, in branch order |
| BookRouter.RootIsHomepage | src/bookRouter.js:16-17 | "/" is the homepage for every method, answered 200 "Homepage" |
| BookRouter.BooksCollection | src/bookRouter.js:18-23 | GET "/books" lists and POST "/books" creates |
| BookRouter.SearchBeforeISBN | src/bookRouter.js:24-26 | a GET under "/books/search" is a search, whatever the ISBN test says |
| BookRouter.ISBNRoutes | src/bookRouter.js:27-35 | an ISBN route is taken only for a URL the ISBN test accepts, and only for its own method; such a URL that no earlier branch claims takes all three routes |
| BookRouter.NotFoundExactly | src/bookRouter.js:36-39 | "Path not found" exactly when no branch's condition holds |
| RouteHandler.BookPathWithISBN | src/routeHandler.js:8 | `test` of the case-insensitive ISBN-path expression, scanning every start position; `RegexIsContainsBooksSlash` states which URLs it accepts |
| RouteHandler.Dispatch | src/routeHandler.js:4-29 | the older handler's if/else chain, first branch first; the lemmas below state which route each request takes |
| RouteHandler.GroupMatchesEmpty | src/routeHandler.js:8 | the capture group can match the empty text at any position |
| RouteHandler.LiteralAtIsOccurrence | src/routeHandler.js:8 | the case-insensitive literal `books/` matches at a position exactly when the lower-cased URL has `books/` there |
| RouteHandler.MatchFromIsOccurrence | src/routeHandler.js:8 | the scan from a position succeeds exactly when `books/` occurs, ignoring case, at or after that position |
| RouteHandler.RegexIsContainsBooksSlash | src/routeHandler.js:8 | the expression accepts exactly the URLs that contain `books/` in any ASCII case |
| RouteHandler.RootNotFound | src/routeHandler.js:11-28 | "/" is "Path not found" here for every method |
| RouteHandler.CollectionPathHasNoLiteral | src/routeHandler.js:8 | the expression rejects "/books" |
| RouteHandler.BooksCollection | src/routeHandler.js:11-26 | GET "/books" lists, POST creates, and PATCH or DELETE on it is "Path not found" |
| RouteHandler.ISBNRoutes | src/routeHandler.js:17-25 | every URL containing `books/` in any case takes the GET, PATCH and DELETE ISBN routes |
| RouteHandler.SearchIsReadAsISBN | src/routeHandler.js:17-19 | a search GET is a book lookup here; the router takes it as a search |
| RouteHandler.RouterAgreesWithRegex | src/routeHandler.js:4-29 | apart from "/" and search GETs, the router with this expression as its ISBN test dispatches like this handler |

## Left out

- Socket I/O is left out: writing the response (`sendResponse`), reading the body in chunks, the logger, process startup, the store connection and the command-line client.
- Store failures that the service's own calls cannot cause (a lost connection, a server fault) are left out, so HGETALL, DEL and KEYS never throw. The errors modelled are a `TypeError` for a value HSET cannot send, the error reply the store gives an HSET with no fields, a `null` body on create, and a body that does not parse. The `TypeError`'s detail text stands in for the client library's own message.
- BookController.GetBooks: the catch that answers 400 is not modelled. It can only fire on a store failure, and the store never fails here.
- BookService.SearchBooks: as for listing, a store failure during the search is not modelled.
- Concurrency is left out. Each handler runs without interleaving, although the source awaits between its store calls.
- The search handler and `urlContainsISBN` are not part of this model. Neither is defined in the files the router imports them from, so the search route ends at `Route.SearchBooks` and the ISBN test is a parameter.
- Utils.GetRequestBody: `JSON.parse` is a parameter. A parse error inside the stream's `end` callback would escape the promise in the source, but the model delivers it to the handler's catch (400).
- BookModel.Validate: an error is given as the failing property and the kind of rule, not as Joi's message text.
- BookModel.Validate: of Joi's number conversions, only a non-empty string of decimal digits counts as a number. Leading or trailing white space, a sign, `.0` and exponent forms are rejected here but converted by Joi. Fractional and non-finite numbers fall under `Other`.
- `Value.Other` stands for `null`, booleans, fractional numbers, arrays and objects. For these, `===` is false, `parseInt` gives NaN, and a write of them throws. Their exact JavaScript behaviour, including their `String()` form, is not modelled.
- Spreading an array or a string into the update merge is treated as adding no book property.
- `toLowerCase` is modelled on ASCII letters only, and lengths count characters rather than UTF-16 code units.
- `parseInt` reads an unbounded integer. The model does not capture the loss of precision beyond 2^53 or the exponent form `String()` uses for very large numbers.
- KEYS is modelled as a literal prefix match. Glob characters in the configured prefix are not interpreted.
