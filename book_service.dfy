/**
 * The book repository: list, read, create, update, delete and search over the
 * hash store, with every book kept under the key `prefix:ISBN`.
 */
module BookService {
  import opened JsRuntime
  import opened Utils
  import opened BookModel
  import opened HashStore

  /** The keys that hold books: those under `prefix:`. */
  ghost function BookKeys(hashes: map<string, Hash>, prefix: string): set<string> {
    set key | key in hashes && StartsWith(key, prefix + ":")
  }

  /**
   * `books` is one record per book key, in the order `keys` lists them, and
   * `keys` lists every book key once.
   */
  ghost predicate Enumerates(hashes: map<string, Hash>, prefix: string, keys: seq<string>, books: seq<Hash>) {
    && Distinct(keys)
    && |keys| == |books|
    && (forall key :: key in keys <==> key in BookKeys(hashes, prefix))
    && (forall i :: 0 <= i < |keys| ==> books[i] == Lookup(hashes, keys[i]))
  }

  /** An enumeration has as many records as there are stored books. */
  lemma EnumerationCount(hashes: map<string, Hash>, prefix: string, keys: seq<string>, books: seq<Hash>)
    requires Enumerates(hashes, prefix, keys, books)
    ensures |books| == |BookKeys(hashes, prefix)|
  {
    DistinctCardinality(keys);
    assert (set key | key in keys) == BookKeys(hashes, prefix);
  }

  /** A complete book record stored for `isbn`. */
  ghost predicate IsBookRecord(h: Hash, isbn: string) {
    && "title" in h && "author" in h && "publicationYear" in h && "ISBN" in h
    && h["ISBN"] == isbn
  }

  /** Every hash under `prefix:` is a complete record whose ISBN field is its key's suffix. */
  ghost predicate Catalogue(hashes: map<string, Hash>, prefix: string) {
    forall key :: key in hashes && StartsWith(key, prefix + ":") ==>
      IsBookRecord(hashes[key], key[|prefix| + 1..])
  }

  method GetBooks(store: Store, prefix: string) returns (books: seq<Hash>, ghost keys: seq<string>)
    requires store.Valid()
    ensures Enumerates(store.hashes, prefix, keys, books)
    ensures |books| == |BookKeys(store.hashes, prefix)|
  {
    books := [];
    var found := store.Keys(prefix + ":");
    for i := 0 to |found|
      invariant |books| == i
      invariant forall j :: 0 <= j < i ==> books[j] == Lookup(store.hashes, found[j])
    {
      var bookData := store.HGetAll(found[i]);
      books := books + [bookData];
    }
    keys := found;
    EnumerationCount(store.hashes, prefix, keys, books);
  }

  /** The record under the ISBN's key; the empty hash when there is none. */
  method GetBookByISBN(store: Store, prefix: string, isbn: string) returns (book: Hash)
    requires store.Valid()
    ensures book == Lookup(store.hashes, GenerateBookKey(prefix, isbn))
    ensures book == map[] <==> GenerateBookKey(prefix, isbn) !in store.hashes
  {
    var bookKey := GenerateBookKey(prefix, isbn);
    book := store.HGetAll(bookKey);
  }

  /**
   * Writes the book's four properties under its ISBN's key (merged into any
   * hash already there) and returns the book; throws, writing nothing, when a
   * property cannot be sent.
   */
  method CreateBook(store: Store, prefix: string, book: Book) returns (created: Result<Book>)
    requires store.Valid()
    modifies store
    ensures store.Valid()
    ensures created.Ok? <==> EncodeFields(ToObject(book)).Ok?
    ensures created.Err? ==> store.hashes == old(store.hashes)
    ensures created.Ok? ==>
      && created.value == book
      && var fields := EncodeFields(ToObject(book)).value;
        var key := GenerateBookKey(prefix, fields["ISBN"]);
        store.hashes == old(store.hashes)[key := old(Lookup(store.hashes, key)) + fields]
  {
    var fields := EncodeFields(ToObject(book));
    if fields.Err? {
      return Err(fields.error);
    }
    var bookKey := GenerateBookKey(prefix, fields.value["ISBN"]);
    var _ := store.HSet(bookKey, fields.value);
    created := Ok(book);
  }

  /**
   * Merges the fields of `bookUpdate` into the hash at `prefix:isbn` and
   * returns `bookUpdate`; throws, writing nothing, when a value cannot be sent
   * or there is no field at all.
   */
  method UpdateBookByISBN(store: Store, prefix: string, isbn: string, bookUpdate: Object) returns (updated: Result<Object>)
    requires store.Valid()
    modifies store
    ensures store.Valid()
    ensures updated.Ok? <==> EncodeFields(bookUpdate).Ok? && bookUpdate != map[]
    ensures updated.Err? ==> store.hashes == old(store.hashes)
    ensures updated.Ok? ==>
      var key := GenerateBookKey(prefix, isbn);
      && updated.value == bookUpdate
      && store.hashes == old(store.hashes)[key := old(Lookup(store.hashes, key)) + EncodeFields(bookUpdate).value]
      && (forall f :: f in bookUpdate ==> Lookup(store.hashes, key)[f] == FieldText(bookUpdate[f]).value)
      && (forall f :: f in old(Lookup(store.hashes, key)) && f !in bookUpdate ==>
            Lookup(store.hashes, key)[f] == old(Lookup(store.hashes, key))[f])
  {
    var bookKey := GenerateBookKey(prefix, isbn);
    var fields := EncodeFields(bookUpdate);
    if fields.Err? {
      return Err(fields.error);
    }
    EncodedFields(bookUpdate);
    ghost var before := Lookup(store.hashes, bookKey);
    var added := store.HSet(bookKey, fields.value);
    if added.Err? {
      return Err(added.error);
    }
    MergedHash(before, fields.value);
    updated := Ok(bookUpdate);
  }

  /** Removes the key `prefix:isbn`, whether or not it held a book, and returns the ISBN. */
  method DeleteBookByISBN(store: Store, prefix: string, isbn: string) returns (deleted: string)
    requires store.Valid()
    modifies store
    ensures store.Valid()
    ensures deleted == isbn
    ensures store.hashes == old(store.hashes) - {GenerateBookKey(prefix, isbn)}
    ensures Lookup(store.hashes, GenerateBookKey(prefix, isbn)) == map[]
    ensures forall key :: key != GenerateBookKey(prefix, isbn) ==>
      Lookup(store.hashes, key) == Lookup(old(store.hashes), key)
  {
    var bookKey := GenerateBookKey(prefix, isbn);
    var _ := store.Del(bookKey);
    deleted := isbn;
  }

  /** A book whose year can be sent is sent as exactly its four properties, each as text. */
  lemma EncodeBook(b: Book)
    requires b.title.Text? && b.author.Text? && b.ISBN.Text? && FieldText(b.publicationYear).Some?
    ensures EncodeFields(ToObject(b)) == Ok(map["title" := b.title.s, "author" := b.author.s,
                                                "publicationYear" := FieldText(b.publicationYear).value,
                                                "ISBN" := b.ISBN.s])
  {
    var o := ToObject(b);
    var expected := map["title" := b.title.s, "author" := b.author.s,
                        "publicationYear" := FieldText(b.publicationYear).value, "ISBN" := b.ISBN.s];
    assert o.Keys == expected.Keys;
    assert forall name :: name in o ==> FieldText(o[name]).Some?;
    var h := map name | name in o :: FieldText(o[name]).value;
    assert h.Keys == expected.Keys;
    assert h["title"] == expected["title"] && h["author"] == expected["author"];
    assert h["publicationYear"] == expected["publicationYear"] && h["ISBN"] == expected["ISBN"];
    assert h == expected;
  }

  /** A valid book is stored as its four properties as text, and its year reads back as the same integer. */
  lemma StoredBookReadsBack(b: Book, currentYear: int)
    requires IsValid(b, currentYear)
    ensures EncodeFields(ToObject(b)).Ok?
    ensures var h := EncodeFields(ToObject(b)).value;
      && h.Keys == BookProperties
      && h["title"] == b.title.s && h["author"] == b.author.s && h["ISBN"] == b.ISBN.s
      && ParseInt(h["publicationYear"]) == SchemaInteger(b.publicationYear)
      && IsBookRecord(h, b.ISBN.s)
  {
    EncodeBook(b);
    match b.publicationYear
    case Num(n) =>
      ParseIntInvertsNumberToString(n);
    case Text(s) =>
      ParseIntOfDigits(s);
  }

  // ---------------------------------------------------------------- search

  predicate HasTitleAndAuthor(h: Hash) {
    "title" in h && "author" in h
  }

  /** The title or the author contains the term, ignoring ASCII case. */
  predicate Matches(h: Hash, term: string)
    requires HasTitleAndAuthor(h)
  {
    || Includes(ToLowerAscii(h["title"]), ToLowerAscii(term))
    || Includes(ToLowerAscii(h["author"]), ToLowerAscii(term))
  }

  predicate AllHaveTitleAndAuthor(books: seq<Hash>) {
    forall i :: 0 <= i < |books| ==> HasTitleAndAuthor(books[i])
  }

  /** The matching records, in their original order. */
  function Filter(books: seq<Hash>, term: string): seq<Hash>
    requires AllHaveTitleAndAuthor(books)
  {
    if books == [] then []
    else
      var last := books[|books| - 1];
      Filter(books[..|books| - 1], term) + (if Matches(last, term) then [last] else [])
  }

  const MissingPropertyError := TypeError("Cannot read properties of undefined (reading 'toLowerCase')")

  /** In a catalogue, every listed record has a title and an author, so search never throws. */
  lemma CatalogueListingSearchable(hashes: map<string, Hash>, prefix: string, keys: seq<string>, books: seq<Hash>)
    requires Enumerates(hashes, prefix, keys, books)
    ensures Catalogue(hashes, prefix) ==> AllHaveTitleAndAuthor(books)
  {
    if Catalogue(hashes, prefix) {
      forall i | 0 <= i < |books| ensures HasTitleAndAuthor(books[i]) {
        assert keys[i] in BookKeys(hashes, prefix);
      }
    }
  }

  /** The search over a listing: throws when some record lacks a title or an author. */
  function Search(books: seq<Hash>, term: string): Result<seq<Hash>> {
    if AllHaveTitleAndAuthor(books) then Ok(Filter(books, term)) else Err(MissingPropertyError)
  }

  /** Every result is a record of the listing that matches. */
  lemma {:induction false} FilterSound(books: seq<Hash>, term: string)
    requires AllHaveTitleAndAuthor(books)
    ensures forall h :: h in Filter(books, term) ==> h in books && HasTitleAndAuthor(h) && Matches(h, term)
  {
    if books != [] {
      var init := books[..|books| - 1];
      FilterSound(init, term);
      forall h | h in init ensures h in books {
        var i :| 0 <= i < |init| && init[i] == h;
        assert books[i] == h;
      }
    }
  }

  /** Every matching record of the listing is a result. */
  lemma {:induction false} FilterComplete(books: seq<Hash>, term: string)
    requires AllHaveTitleAndAuthor(books)
    ensures forall i :: 0 <= i < |books| && Matches(books[i], term) ==> books[i] in Filter(books, term)
  {
    if books != [] {
      var init := books[..|books| - 1];
      FilterComplete(init, term);
      forall i | 0 <= i < |books| && Matches(books[i], term) ensures books[i] in Filter(books, term) {
        if i < |init| {
          assert init[i] == books[i];
        }
      }
    }
  }

  /** Filtering distributes over concatenation, so results keep the listing's order. */
  lemma {:induction false} FilterAppend(a: seq<Hash>, b: seq<Hash>, term: string)
    requires AllHaveTitleAndAuthor(a) && AllHaveTitleAndAuthor(b)
    ensures AllHaveTitleAndAuthor(a + b)
    ensures Filter(a + b, term) == Filter(a, term) + Filter(b, term)
    decreases |b|
  {
    assert AllHaveTitleAndAuthor(a + b) by {
      forall i | 0 <= i < |a + b| ensures HasTitleAndAuthor((a + b)[i]) {
        if i >= |a| { assert (a + b)[i] == b[i - |a|]; }
      }
    }
    if b == [] {
      assert a + b == a;
    } else {
      var init := b[..|b| - 1];
      FilterAppend(a, init, term);
      assert (a + b)[..|a + b| - 1] == a + init;
    }
  }

  /** The empty term matches every record, so the search returns the whole listing. */
  lemma {:induction false} SearchEmptyTerm(books: seq<Hash>)
    requires AllHaveTitleAndAuthor(books)
    ensures Search(books, "") == Ok(books)
  {
    if books != [] {
      var init := books[..|books| - 1];
      SearchEmptyTerm(init);
      IncludesEmpty(ToLowerAscii(books[|books| - 1]["title"]));
      assert ToLowerAscii("") == "";
      assert init + [books[|books| - 1]] == books;
    }
  }

  /** A term that matches no record gives no results. */
  lemma {:induction false} SearchNoMatch(books: seq<Hash>, term: string)
    requires AllHaveTitleAndAuthor(books)
    requires forall i :: 0 <= i < |books| ==> !Matches(books[i], term)
    ensures Search(books, term) == Ok([])
  {
    if books != [] {
      var init := books[..|books| - 1];
      assert forall i :: 0 <= i < |init| ==> init[i] == books[i];
      SearchNoMatch(init, term);
      assert AllHaveTitleAndAuthor(init);
      assert Filter(books, term) == Filter(init, term);
    }
  }

  /**
   * Lists the books and keeps those whose lower-cased title or author contains
   * the lower-cased term, in listing order.
   */
  method SearchBooks(store: Store, prefix: string, searchTerm: string)
    returns (found: Result<seq<Hash>>, ghost books: seq<Hash>, ghost keys: seq<string>)
    requires store.Valid()
    ensures Enumerates(store.hashes, prefix, keys, books)
    ensures found == Search(books, searchTerm)
    ensures Catalogue(store.hashes, prefix) ==> found.Ok?
  {
    var all;
    all, keys := GetBooks(store, prefix);
    books := all;
    CatalogueListingSearchable(store.hashes, prefix, keys, books);
    found := FilterBooks(all, searchTerm);
  }

  /** The loop of the search: keeps the matching records in order, and throws at a record without a title or an author. */
  method FilterBooks(books: seq<Hash>, searchTerm: string) returns (found: Result<seq<Hash>>)
    ensures found == Search(books, searchTerm)
  {
    var searchResults: seq<Hash> := [];
    for i := 0 to |books|
      invariant AllHaveTitleAndAuthor(books[..i])
      invariant searchResults == Filter(books[..i], searchTerm)
    {
      var book := books[i];
      if "title" !in book || "author" !in book {
        assert !HasTitleAndAuthor(books[i]);
        return Err(MissingPropertyError);
      }
      var searchInTitle := Includes(ToLowerAscii(book["title"]), ToLowerAscii(searchTerm));
      var searchInAuthor := Includes(ToLowerAscii(book["author"]), ToLowerAscii(searchTerm));
      assert books[..i + 1][..i] == books[..i];
      assert books[..i + 1][i] == book;
      if searchInTitle || searchInAuthor {
        searchResults := searchResults + [book];
      }
    }
    assert books[..|books|] == books;
    found := Ok(searchResults);
  }
}
