/**
 * The request handlers: each reads the store, takes its early-return status
 * decisions in order, performs at most one write and answers with a status
 * code and a JSON envelope `{ status, message, ... }`. The request body comes
 * in already parsed (or as the error parsing threw), and the response is
 * returned rather than written to the socket.
 *
 * Every state-changing handler is specified by an outcome function of the
 * old store; the properties the handlers promise are lemmas about those
 * functions.
 */
module BookController {
  import opened JsRuntime
  import opened Utils
  import opened BookModel
  import opened HashStore
  import BookService

  /** The envelope's `message`: a text, a validation error, or a caught error. */
  datatype Message =
    | Note(text: string)
    | Rejected(error: ValidationError)
    | ErrorText(failure: Failure)    // `error.message`
    | ErrorObject(failure: Failure)  // `error` itself

  /** The envelope's data property besides `status` and `message`, if any. */
  datatype Payload = NoPayload | Books(books: seq<Hash>) | NewBook(book: Book) | BookRecord(record: Hash)

  datatype Envelope = Envelope(status: bool, message: Message, payload: Payload)

  datatype Response = Response(code: int, body: Envelope)

  /** What a handler answers together with the store it leaves behind. */
  datatype Outcome = Outcome(response: Response, hashes: map<string, Hash>)

  function Reply(code: int, status: bool, message: Message): Response {
    Response(code, Envelope(status, message, NoPayload))
  }

  const NotFound: Response := Reply(404, false, Note("Book not found"))

  // -------------------------------------------------------------- list, read

  /** GET /books: every stored book record. */
  method GetBooks(store: Store, prefix: string) returns (response: Response, ghost keys: seq<string>)
    requires store.Valid()
    ensures response.code == 200 && response.body.status && response.body.message == Note("get books")
    ensures response.body.payload.Books?
    ensures BookService.Enumerates(store.hashes, prefix, keys, response.body.payload.books)
  {
    var books;
    books, keys := BookService.GetBooks(store, prefix);
    response := Response(200, Envelope(true, Note("get books"), Books(books)));
  }

  /** GET /books/:ISBN: the record at the URL's last segment, or 404. The store is only read. */
  method GetBookByISBN(store: Store, prefix: string, url: string) returns (response: Response)
    requires store.Valid()
    ensures var key := GenerateBookKey(prefix, GetISBNFromUrl(url));
      && (key !in store.hashes ==> response == NotFound)
      && (key in store.hashes ==>
            response == Response(200, Envelope(true, Note("Book Details"), BookRecord(store.hashes[key]))))
  {
    var isbn := GetISBNFromUrl(url);
    var book := BookService.GetBookByISBN(store, prefix, isbn);
    if book == map[] {
      return NotFound;
    }
    response := Response(200, Envelope(true, Note("Book Details"), BookRecord(book)));
  }

  // ------------------------------------------------------------------ create

  /**
   * POST /books: construct, validate, check that the ISBN is free, then
   * write. Whatever the request, the answer and the new store are these.
   */
  function CreateOutcome(hashes: map<string, Hash>, prefix: string, requestData: Result<Json>, currentYear: int): Outcome {
    match requestData
    case Err(e) => Outcome(Reply(400, false, ErrorText(e)), hashes)
    case Ok(data) =>
      match New(data)
      case Err(e) => Outcome(Reply(400, false, ErrorText(e)), hashes)
      case Ok(b) =>
        match Validate(b, currentYear)
        case Some(err) => Outcome(Reply(422, false, Rejected(err)), hashes)
        case None =>
          var key := GenerateBookKey(prefix, b.ISBN.s);
          if Lookup(hashes, key) != map[] then
            Outcome(Reply(409, false, Note("Book already exists!")), hashes)
          else
            BookService.StoredBookReadsBack(b, currentYear);
            Outcome(Response(200, Envelope(true, Note("Book created!"), NewBook(b))),
                    hashes[key := EncodeFields(ToObject(b)).value])
  }

  method CreateBook(store: Store, prefix: string, requestData: Result<Json>, currentYear: int) returns (response: Response)
    requires store.Valid()
    modifies store
    ensures store.Valid()
    ensures Outcome(response, store.hashes) == CreateOutcome(old(store.hashes), prefix, requestData, currentYear)
  {
    if requestData.Err? {
      return Reply(400, false, ErrorText(requestData.error));
    }
    var constructed := New(requestData.value);
    if constructed.Err? {
      return Reply(400, false, ErrorText(constructed.error));
    }
    var newBook := constructed.value;
    var validationError := Validate(newBook, currentYear);
    if validationError.Some? {
      return Reply(422, false, Rejected(validationError.value));
    }
    var existingBook := BookService.GetBookByISBN(store, prefix, newBook.ISBN.s);
    if existingBook != map[] {
      return Reply(409, false, Note("Book already exists!"));
    }
    BookService.StoredBookReadsBack(newBook, currentYear);
    var fields := EncodeFields(ToObject(newBook)).value;
    assert map[] + fields == fields;
    var _ := BookService.CreateBook(store, prefix, newBook);
    response := Response(200, Envelope(true, Note("Book created!"), NewBook(newBook)));
  }

  /** A body that is not a valid book is answered 422 with its first error, without looking at the store. */
  lemma CreateRejectsInvalid(hashes: map<string, Hash>, other: map<string, Hash>, prefix: string, o: Object, currentYear: int)
    requires Validate(FromObject(o), currentYear).Some?
    ensures var out := CreateOutcome(hashes, prefix, Ok(JsonObject(o)), currentYear);
      && out.response == Reply(422, false, Rejected(Validate(FromObject(o), currentYear).value))
      && out.hashes == hashes
      && out.response == CreateOutcome(other, prefix, Ok(JsonObject(o)), currentYear).response
  {
  }

  /** A valid book whose ISBN is already stored is answered 409 and nothing is written. */
  lemma CreateConflict(hashes: map<string, Hash>, prefix: string, o: Object, currentYear: int)
    requires IsValid(FromObject(o), currentYear)
    requires GenerateBookKey(prefix, Get(o, "ISBN").s) in hashes && hashes[GenerateBookKey(prefix, Get(o, "ISBN").s)] != map[]
    ensures CreateOutcome(hashes, prefix, Ok(JsonObject(o)), currentYear)
         == Outcome(Reply(409, false, Note("Book already exists!")), hashes)
  {
  }

  /**
   * A valid, new book is answered 200 with the book, and afterwards its key
   * holds exactly its four properties as text; no other key changes.
   */
  lemma CreateStoresBook(hashes: map<string, Hash>, prefix: string, o: Object, currentYear: int)
    requires IsValid(FromObject(o), currentYear)
    requires GenerateBookKey(prefix, Get(o, "ISBN").s) !in hashes
    ensures var b := FromObject(o);
      var key := GenerateBookKey(prefix, b.ISBN.s);
      var out := CreateOutcome(hashes, prefix, Ok(JsonObject(o)), currentYear);
      && out.response == Response(200, Envelope(true, Note("Book created!"), NewBook(b)))
      && key in out.hashes
      && out.hashes[key].Keys == BookProperties
      && out.hashes[key]["title"] == b.title.s
      && out.hashes[key]["author"] == b.author.s
      && out.hashes[key]["ISBN"] == b.ISBN.s
      && ParseInt(out.hashes[key]["publicationYear"]) == SchemaInteger(b.publicationYear)
      && (forall k :: k != key ==> Lookup(out.hashes, k) == Lookup(hashes, k))
  {
    BookService.StoredBookReadsBack(FromObject(o), currentYear);
  }

  /** Create answers one of four codes, and 200 exactly when it wrote. */
  lemma CreateCodes(hashes: map<string, Hash>, prefix: string, requestData: Result<Json>, currentYear: int)
    ensures var out := CreateOutcome(hashes, prefix, requestData, currentYear);
      && out.response.code in {200, 400, 409, 422}
      && (out.response.code == 200 <==> out.hashes != hashes)
      && (out.response.body.status <==> out.response.code == 200)
  {
    var out := CreateOutcome(hashes, prefix, requestData, currentYear);
    if requestData.Ok? && New(requestData.value).Ok? {
      var b := New(requestData.value).value;
      if Validate(b, currentYear).None? {
        var key := GenerateBookKey(prefix, b.ISBN.s);
        if Lookup(hashes, key) == map[] {
          BookService.StoredBookReadsBack(b, currentYear);
          assert out.hashes[key] != Lookup(hashes, key);
        }
      }
    }
  }

  /** Create keeps every record under `prefix:` complete and filed under its own ISBN. */
  lemma CreatePreservesCatalogue(hashes: map<string, Hash>, prefix: string, requestData: Result<Json>, currentYear: int)
    requires BookService.Catalogue(hashes, prefix)
    ensures BookService.Catalogue(CreateOutcome(hashes, prefix, requestData, currentYear).hashes, prefix)
  {
    if requestData.Ok? && New(requestData.value).Ok? {
      var b := New(requestData.value).value;
      if Validate(b, currentYear).None? {
        BookService.StoredBookReadsBack(b, currentYear);
        KeyParts(prefix, b.ISBN.s);
      }
    }
  }

  // ------------------------------------------------------------------ update

  /** `...update`: the own properties a parsed body spreads; none for `null` or a non-object. */
  function Spread(update: Json): Object {
    match update
    case JsonObject(o) => o
    case _ => map[]
  }

  /** `new Book({...oldBook, ...update, ISBN})`: the body over the stored record, with the path's ISBN. */
  function Merged(oldBook: Hash, update: Json, isbn: string): Book {
    FromObject(AsObject(oldBook) + Spread(update) + map["ISBN" := Text(isbn)])
  }

  /**
   * PATCH /books/:ISBN: read the record, then the body, answer 404 for a
   * missing record, 422 for an invalid merge, 204 when the merge is the same
   * book, and otherwise write the merge under the path's ISBN.
   */
  function UpdateOutcome(hashes: map<string, Hash>, prefix: string, url: string, requestData: Result<Json>, currentYear: int): Outcome {
    var isbn := GetISBNFromUrl(url);
    var key := GenerateBookKey(prefix, isbn);
    var oldBook := Lookup(hashes, key);
    match requestData
    case Err(e) => Outcome(Reply(400, false, ErrorObject(e)), hashes)
    case Ok(update) =>
      if oldBook == map[] then Outcome(NotFound, hashes)
      else
        var b := Merged(oldBook, update, isbn);
        match Validate(b, currentYear)
        case Some(err) => Outcome(Reply(422, false, Rejected(err)), hashes)
        case None =>
          if IsSame(b, AsObject(oldBook)) then
            Outcome(Reply(204, true, Note("No changes made!")), hashes)
          else
            BookService.StoredBookReadsBack(b, currentYear);
            Outcome(Reply(200, true, Note("Book updated!")),
                    hashes[key := oldBook + EncodeFields(ToObject(b)).value])
  }

  method UpdateBookByISBN(store: Store, prefix: string, url: string, requestData: Result<Json>, currentYear: int)
    returns (response: Response)
    requires store.Valid()
    modifies store
    ensures store.Valid()
    ensures Outcome(response, store.hashes) == UpdateOutcome(old(store.hashes), prefix, url, requestData, currentYear)
  {
    var isbn := GetISBNFromUrl(url);
    var oldBook := BookService.GetBookByISBN(store, prefix, isbn);
    if requestData.Err? {
      return Reply(400, false, ErrorObject(requestData.error));
    }
    var update := requestData.value;
    if oldBook == map[] {
      return NotFound;
    }
    var bookUpdate := Merged(oldBook, update, isbn);
    var validationError := Validate(bookUpdate, currentYear);
    if validationError.Some? {
      return Reply(422, false, Rejected(validationError.value));
    }
    if IsSame(bookUpdate, AsObject(oldBook)) {
      return Reply(204, true, Note("No changes made!"));
    }
    BookService.StoredBookReadsBack(bookUpdate, currentYear);
    var _ := BookService.UpdateBookByISBN(store, prefix, isbn, ToObject(bookUpdate));
    response := Reply(200, true, Note("Book updated!"));
  }

  /** A readable body for an ISBN with no record is answered 404, and nothing is written. */
  lemma UpdateAbsent(hashes: map<string, Hash>, prefix: string, url: string, update: Json, currentYear: int)
    requires GenerateBookKey(prefix, GetISBNFromUrl(url)) !in hashes
    ensures UpdateOutcome(hashes, prefix, url, Ok(update), currentYear) == Outcome(NotFound, hashes)
  {
  }

  /** An invalid merge over a stored record is answered 422 with its first validation error, and nothing is written. */
  lemma UpdateRejectsInvalid(hashes: map<string, Hash>, prefix: string, url: string, update: Json, currentYear: int)
    requires var isbn := GetISBNFromUrl(url);
      var oldBook := Lookup(hashes, GenerateBookKey(prefix, isbn));
      && oldBook != map[]
      && Validate(Merged(oldBook, update, isbn), currentYear).Some?
    ensures var isbn := GetISBNFromUrl(url);
      var oldBook := Lookup(hashes, GenerateBookKey(prefix, isbn));
      UpdateOutcome(hashes, prefix, url, Ok(update), currentYear)
        == Outcome(Reply(422, false, Rejected(Validate(Merged(oldBook, update, isbn), currentYear).value)), hashes)
  {
  }

  /** The merge takes each book property from the body when the body has it, else from the record; the ISBN is the path's. */
  lemma MergedProperties(oldBook: Hash, update: Json, isbn: string)
    ensures var b := Merged(oldBook, update, isbn);
      && b.ISBN == Text(isbn)
      && b.title == (if "title" in Spread(update) then Spread(update)["title"] else Get(AsObject(oldBook), "title"))
      && b.author == (if "author" in Spread(update) then Spread(update)["author"] else Get(AsObject(oldBook), "author"))
      && b.publicationYear == (if "publicationYear" in Spread(update) then Spread(update)["publicationYear"]
                               else Get(AsObject(oldBook), "publicationYear"))
  {
  }

  /** What a write of a valid book merges into a record: its properties as text. */
  lemma WrittenRecord(oldBook: Hash, b: Book, currentYear: int)
    requires IsValid(b, currentYear)
    ensures EncodeFields(ToObject(b)).Ok?
    ensures var w := oldBook + EncodeFields(ToObject(b)).value;
      && w["ISBN"] == b.ISBN.s && w["title"] == b.title.s && w["author"] == b.author.s
      && ParseInt(w["publicationYear"]) == SchemaInteger(b.publicationYear)
      && BookService.IsBookRecord(w, b.ISBN.s)
  {
    BookService.StoredBookReadsBack(b, currentYear);
  }

  /**
   * The paths to 204 and to 200: a readable body, a stored record and a valid
   * merge, which is the same book for 204 and not for 200; only 200 writes.
   */
  lemma UpdateDecisions(hashes: map<string, Hash>, prefix: string, url: string, requestData: Result<Json>, currentYear: int)
    ensures var out := UpdateOutcome(hashes, prefix, url, requestData, currentYear);
      var isbn := GetISBNFromUrl(url);
      var key := GenerateBookKey(prefix, isbn);
      var oldBook := Lookup(hashes, key);
      && (out.response.code != 200 ==> out.hashes == hashes)
      && (out.response.code == 204 ==>
            && requestData.Ok? && oldBook != map[]
            && var b := Merged(oldBook, requestData.value, isbn);
            && IsValid(b, currentYear)
            && IsSame(b, AsObject(oldBook)))
      && (out.response.code == 200 ==>
            && requestData.Ok? && oldBook != map[]
            && var b := Merged(oldBook, requestData.value, isbn);
            && IsValid(b, currentYear)
            && !IsSame(b, AsObject(oldBook))
            && EncodeFields(ToObject(b)).Ok?
            && out.hashes == hashes[key := oldBook + EncodeFields(ToObject(b)).value])
  {
    var isbn := GetISBNFromUrl(url);
    var key := GenerateBookKey(prefix, isbn);
    var oldBook := Lookup(hashes, key);
    if requestData.Ok? && oldBook != map[] {
      var b := Merged(oldBook, requestData.value, isbn);
      if IsValid(b, currentYear) && !IsSame(b, AsObject(oldBook)) {
        BookService.StoredBookReadsBack(b, currentYear);
      }
    }
  }

  /** A readable body, a stored record and a valid merge that is not the same book: 200 and a write. */
  lemma UpdateWrites(hashes: map<string, Hash>, prefix: string, url: string, update: Json, currentYear: int)
    requires var isbn := GetISBNFromUrl(url);
      var oldBook := Lookup(hashes, GenerateBookKey(prefix, isbn));
      && oldBook != map[]
      && IsValid(Merged(oldBook, update, isbn), currentYear)
      && !IsSame(Merged(oldBook, update, isbn), AsObject(oldBook))
    ensures var isbn := GetISBNFromUrl(url);
      var key := GenerateBookKey(prefix, isbn);
      var oldBook := Lookup(hashes, key);
      var b := Merged(oldBook, update, isbn);
      && EncodeFields(ToObject(b)).Ok?
      && UpdateOutcome(hashes, prefix, url, Ok(update), currentYear)
         == Outcome(Reply(200, true, Note("Book updated!")), hashes[key := oldBook + EncodeFields(ToObject(b)).value])
  {
    var isbn := GetISBNFromUrl(url);
    BookService.StoredBookReadsBack(Merged(Lookup(hashes, GenerateBookKey(prefix, isbn)), update, isbn), currentYear);
  }

  /**
   * Update writes only when it answers 200; then the record at the path's key
   * holds the merge, its ISBN field is the path's ISBN whatever the body
   * said, and no other key changes.
   */
  lemma UpdatePinsISBN(hashes: map<string, Hash>, prefix: string, url: string, requestData: Result<Json>, currentYear: int)
    ensures var out := UpdateOutcome(hashes, prefix, url, requestData, currentYear);
      var isbn := GetISBNFromUrl(url);
      var key := GenerateBookKey(prefix, isbn);
      && (out.response.code != 200 ==> out.hashes == hashes)
      && (out.response.code == 200 ==>
            && requestData.Ok?
            && var b := Merged(Lookup(hashes, key), requestData.value, isbn);
            && IsValid(b, currentYear)
            && key in out.hashes
            && BookService.IsBookRecord(out.hashes[key], isbn)
            && out.hashes[key]["title"] == b.title.s
            && out.hashes[key]["author"] == b.author.s
            && ParseInt(out.hashes[key]["publicationYear"]) == SchemaInteger(b.publicationYear)
            && (forall k :: k != key ==> Lookup(out.hashes, k) == Lookup(hashes, k)))
  {
    var out := UpdateOutcome(hashes, prefix, url, requestData, currentYear);
    var isbn := GetISBNFromUrl(url);
    var key := GenerateBookKey(prefix, isbn);
    var oldBook := Lookup(hashes, key);
    UpdateDecisions(hashes, prefix, url, requestData, currentYear);
    if out.response.code == 200 {
      var b := Merged(oldBook, requestData.value, isbn);
      MergedProperties(oldBook, requestData.value, isbn);
      WrittenRecord(oldBook, b, currentYear);
      var w := oldBook + EncodeFields(ToObject(b)).value;
      assert out.hashes == hashes[key := w];
      assert out.hashes[key] == w;
    }
  }

  /** Update keeps every record under `prefix:` complete and filed under its own ISBN. */
  lemma UpdatePreservesCatalogue(hashes: map<string, Hash>, prefix: string, url: string, requestData: Result<Json>, currentYear: int)
    requires BookService.Catalogue(hashes, prefix)
    ensures BookService.Catalogue(UpdateOutcome(hashes, prefix, url, requestData, currentYear).hashes, prefix)
  {
    var out := UpdateOutcome(hashes, prefix, url, requestData, currentYear);
    var isbn := GetISBNFromUrl(url);
    var key := GenerateBookKey(prefix, isbn);
    var oldBook := Lookup(hashes, key);
    UpdateDecisions(hashes, prefix, url, requestData, currentYear);
    if out.response.code == 200 {
      var b := Merged(oldBook, requestData.value, isbn);
      MergedProperties(oldBook, requestData.value, isbn);
      WrittenRecord(oldBook, b, currentYear);
      KeyParts(prefix, isbn);
    }
  }

  /**
   * The no-op answer 204 needs a body that sets `publicationYear` to a JSON
   * number: the stored year reads back as text, and text is never strictly
   * equal to the number `parseInt` gives.
   */
  lemma NoOpNeedsNumericYear(hashes: map<string, Hash>, prefix: string, url: string, requestData: Result<Json>, currentYear: int)
    requires UpdateOutcome(hashes, prefix, url, requestData, currentYear).response.code == 204
    ensures requestData.Ok? && requestData.value.JsonObject?
    ensures Get(requestData.value.fields, "publicationYear").Num?
  {
    var isbn := GetISBNFromUrl(url);
    var oldBook := Lookup(hashes, GenerateBookKey(prefix, isbn));
    UpdateDecisions(hashes, prefix, url, requestData, currentYear);
    MergedProperties(oldBook, requestData.value, isbn);
    assert !Get(AsObject(oldBook), "publicationYear").Num?;
  }

  /**
   * A body that repeats the stored title and gives the stored year as a
   * number changes nothing: the answer is 204 and nothing is written.
   */
  lemma UpdateNoOp(hashes: map<string, Hash>, prefix: string, url: string, n: int, currentYear: int)
    requires var oldBook := Lookup(hashes, GenerateBookKey(prefix, GetISBNFromUrl(url)));
      && "title" in oldBook && "author" in oldBook && "publicationYear" in oldBook
      && ParseInt(oldBook["publicationYear"]) == Some(n)
      && IsValid(Merged(oldBook, JsonObject(map["publicationYear" := Num(n)]), GetISBNFromUrl(url)), currentYear)
    ensures UpdateOutcome(hashes, prefix, url, Ok(JsonObject(map["publicationYear" := Num(n)])), currentYear)
         == Outcome(Reply(204, true, Note("No changes made!")), hashes)
  {
    var isbn := GetISBNFromUrl(url);
    var oldBook := Lookup(hashes, GenerateBookKey(prefix, isbn));
    var update := JsonObject(map["publicationYear" := Num(n)]);
    MergedProperties(oldBook, update, isbn);
    assert IsSame(Merged(oldBook, update, isbn), AsObject(oldBook));
  }

  /**
   * An empty PATCH of a complete, valid record filed under its ISBN (as every
   * record of a catalogue is) is not a no-op: it is answered 200 "Book
   * updated!", and the rewrite leaves the store as it was.
   */
  lemma EmptyPatchRewrites(hashes: map<string, Hash>, prefix: string, url: string, currentYear: int)
    requires var key := GenerateBookKey(prefix, GetISBNFromUrl(url));
      && key in hashes && BookService.IsBookRecord(hashes[key], GetISBNFromUrl(url))
      && IsValid(Merged(hashes[key], JsonObject(map[]), GetISBNFromUrl(url)), currentYear)
    ensures UpdateOutcome(hashes, prefix, url, Ok(JsonObject(map[])), currentYear)
         == Outcome(Reply(200, true, Note("Book updated!")), hashes)
  {
    var isbn := GetISBNFromUrl(url);
    var key := GenerateBookKey(prefix, isbn);
    var oldBook := hashes[key];
    RewriteOfOwnRecord(oldBook, isbn, currentYear);
    UpdateWrites(hashes, prefix, url, JsonObject(map[]), currentYear);
    var fields := EncodeFields(ToObject(Merged(oldBook, JsonObject(map[]), isbn))).value;
    assert UpdateOutcome(hashes, prefix, url, Ok(JsonObject(map[])), currentYear)
        == Outcome(Reply(200, true, Note("Book updated!")), hashes[key := oldBook + fields]);
    assert hashes[key := oldBook + fields] == hashes;
  }

  /** Merging nothing into a complete record and writing it back gives the same record. */
  lemma RewriteOfOwnRecord(oldBook: Hash, isbn: string, currentYear: int)
    requires BookService.IsBookRecord(oldBook, isbn)
    requires IsValid(Merged(oldBook, JsonObject(map[]), isbn), currentYear)
    ensures var b := Merged(oldBook, JsonObject(map[]), isbn);
      && !IsSame(b, AsObject(oldBook))
      && EncodeFields(ToObject(b)).Ok?
      && oldBook + EncodeFields(ToObject(b)).value == oldBook
  {
    var b := Merged(oldBook, JsonObject(map[]), isbn);
    MergedProperties(oldBook, JsonObject(map[]), isbn);
    TextYearIsNeverSame(b, AsObject(oldBook));
    assert b == Book(Text(oldBook["title"]), Text(oldBook["author"]), Text(oldBook["publicationYear"]), Text(isbn));
    BookService.EncodeBook(b);
    var fields := map["title" := oldBook["title"], "author" := oldBook["author"],
                      "publicationYear" := oldBook["publicationYear"], "ISBN" := isbn];
    assert EncodeFields(ToObject(b)).value == fields;
    MergeAgreeing(oldBook, fields);
  }

  // ------------------------------------------------------------------ delete

  /** DELETE /books/:ISBN: answered 200 whatever the URL, and the store is not touched. */
  function DeleteBookByISBN(url: string): (response: Response)
    ensures response.code == 200 && response.body.status && response.body.payload == NoPayload
  {
    Reply(200, true, Note("delete book by isbn"))
  }

  /**
   * Every error a handler catches is answered 400 with status false; for an
   * update this comes before the record's absence is considered.
   */
  lemma CaughtErrorsGive400(hashes: map<string, Hash>, prefix: string, url: string, e: Failure, currentYear: int)
    ensures CreateOutcome(hashes, prefix, Err(e), currentYear).response == Reply(400, false, ErrorText(e))
    ensures UpdateOutcome(hashes, prefix, url, Err(e), currentYear).response == Reply(400, false, ErrorObject(e))
    ensures CreateOutcome(hashes, prefix, Ok(JsonNull), currentYear).response.code == 400
  {
  }
}
