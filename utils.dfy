/**
 * Key construction, ISBN extraction from a URL, and the empty-body rule of
 * request body reading.
 */
module Utils {
  import opened JsRuntime

  /** The store key of a book: the configured prefix, a colon, the ISBN. */
  function GenerateBookKey(prefix: string, isbn: string): string {
    prefix + ":" + isbn
  }

  /** A key can be taken apart again: it starts with `prefix:` and the rest is the ISBN. */
  lemma KeyParts(prefix: string, isbn: string)
    ensures var key := GenerateBookKey(prefix, isbn);
      StartsWith(key, prefix + ":") && |prefix| + 1 <= |key| && key[|prefix| + 1..] == isbn
  {
    var key := GenerateBookKey(prefix, isbn);
    assert key[..|prefix| + 1] == prefix + ":";
  }

  /** For one prefix, distinct ISBNs get distinct keys. */
  lemma KeyInjective(prefix: string, a: string, b: string)
    ensures GenerateBookKey(prefix, a) == GenerateBookKey(prefix, b) ==> a == b
  {
    KeyParts(prefix, a);
    KeyParts(prefix, b);
  }

  /**
   * `url.split('/').pop()`: the text after the last slash, or the whole URL
   * when it has none.
   */
  function GetISBNFromUrl(url: string): (isbn: string)
    ensures '/' !in isbn
    ensures |isbn| <= |url| && url[|url| - |isbn|..] == isbn
    ensures '/' in url ==> url[|url| - |isbn| - 1] == '/'
    ensures '/' !in url ==> isbn == url
  {
    SplitLast(url, '/');
    LastPart(url, '/')
  }

  /** The segment after `/books/` is the ISBN, and a bare `/books/` gives the empty ISBN. */
  lemma ISBNAfterBooksPath(x: string)
    requires '/' !in x
    ensures GetISBNFromUrl("/books/" + x) == x
  {
    var url := "/books/" + x;
    var r := GetISBNFromUrl(url);
    assert url[6] == '/' && url[7..] == x;
  }

  /**
   * Request body reading: the accumulated text is handed to `JSON.parse`,
   * except that an empty text is read as `{}`.
   */
  function GetRequestBody(raw: string, jsonParse: string -> Result<Json>): (data: Result<Json>)
    requires jsonParse("{}") == Ok(JsonObject(map[]))
    ensures raw == "" ==> data == Ok(JsonObject(map[]))
    ensures raw != "" ==> data == jsonParse(raw)
  {
    jsonParse(if raw == "" then "{}" else raw)
  }
}
