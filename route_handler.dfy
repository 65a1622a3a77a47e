/**
 * The older request handler, which is not wired into the server: the same
 * kind of if/else chain as the router, but with its own ISBN-path regular
 * expression `books\/([A-Za-z0-9]?(-[A-Za-z0-9]?)?)` with the `i` flag, and
 * no homepage or search branch.
 */
module RouteHandler {
  import opened JsRuntime
  import BookRouter

  // ------------------------------------------------------ the regular expression

  /** `[A-Za-z0-9]`; under the `i` flag the class is the same set. */
  predicate IsAlnum(c: char) {
    ('A' <= c <= 'Z') || ('a' <= c <= 'z') || ('0' <= c <= '9')
  }

  /** Where `[A-Za-z0-9]?` can end when it starts at `i`. */
  function OptAlnum(u: string, i: nat): set<nat>
    requires i <= |u|
  {
    {i} + (if i < |u| && IsAlnum(u[i]) then {i + 1} else {})
  }

  /** Where `(-[A-Za-z0-9]?)?` can end when it starts at `i`. */
  function OptDashGroup(u: string, i: nat): set<nat>
    requires i <= |u|
  {
    {i} + (if i < |u| && u[i] == '-' then OptAlnum(u, i + 1) else {})
  }

  /** Where the capture group `([A-Za-z0-9]?(-[A-Za-z0-9]?)?)` can end when it starts at `i`. */
  function GroupEnds(u: string, i: nat): set<nat>
    requires i <= |u|
  {
    OptDashGroup(u, i) + (if i < |u| && IsAlnum(u[i]) then OptDashGroup(u, i + 1) else {})
  }

  const Literal: string := "books/"

  /**
   * `books\/` matches at `i` ignoring case: under the `i` flag without the `u`
   * flag a character matches a letter of the literal exactly when it is that
   * letter in either ASCII case.
   */
  predicate LiteralAt(u: string, i: nat) {
    i + |Literal| <= |u| && forall t :: 0 <= t < |Literal| ==> LowerChar(u[i + t]) == Literal[t]
  }

  /** The whole expression matches starting at `i`. */
  predicate MatchesAt(u: string, i: nat) {
    LiteralAt(u, i) && GroupEnds(u, i + |Literal|) != {}
  }

  /** `test` scans the start positions from `i` on, trying each in turn. */
  predicate MatchFrom(u: string, i: nat)
    decreases |u| - i
  {
    i <= |u| && (MatchesAt(u, i) || MatchFrom(u, i + 1))
  }

  /** `bookPathWithISBNRegex.test(url)`. */
  predicate BookPathWithISBN(url: string) {
    MatchFrom(url, 0)
  }

  /** The capture group can always match the empty text. */
  lemma GroupMatchesEmpty(u: string, i: nat)
    requires i <= |u|
    ensures i in GroupEnds(u, i)
  {
  }

  lemma LiteralAtIsOccurrence(u: string, i: nat)
    requires i + |Literal| <= |u|
    ensures LiteralAt(u, i) <==> OccursAt(ToLowerAscii(u), Literal, i)
  {
    var lower := ToLowerAscii(u);
    if LiteralAt(u, i) {
      assert lower[i..i + |Literal|] == Literal;
    }
    if OccursAt(lower, Literal, i) {
      forall t | 0 <= t < |Literal| ensures LowerChar(u[i + t]) == Literal[t] {
        assert lower[i..i + |Literal|][t] == lower[i + t];
      }
    }
  }

  /** The scan from `i` succeeds exactly when the literal occurs, ignoring case, at some position from `i` on. */
  lemma {:induction false} MatchFromIsOccurrence(u: string, i: nat)
    requires i <= |u|
    ensures MatchFrom(u, i) <==>
      exists j :: i <= j <= |u| - |Literal| && OccursAt(ToLowerAscii(u), Literal, j)
    decreases |u| - i
  {
    var lower := ToLowerAscii(u);
    if i + |Literal| <= |u| {
      LiteralAtIsOccurrence(u, i);
      if LiteralAt(u, i) {
        GroupMatchesEmpty(u, i + |Literal|);
      }
    }
    if i < |u| {
      MatchFromIsOccurrence(u, i + 1);
      if exists j :: i <= j <= |u| - |Literal| && OccursAt(lower, Literal, j) {
        var j :| i <= j <= |u| - |Literal| && OccursAt(lower, Literal, j);
        if j == i {
          LiteralAtIsOccurrence(u, i);
        }
      }
    }
  }

  /**
   * Every part after the slash is optional, so the expression matches exactly
   * the URLs that contain "books/" in any ASCII case.
   */
  lemma RegexIsContainsBooksSlash(url: string)
    ensures BookPathWithISBN(url) <==> Includes(ToLowerAscii(url), "books/")
  {
    MatchFromIsOccurrence(url, 0);
  }

  // --------------------------------------------------------------- dispatch

  const BaseUrl: string := "/books"

  /** The if/else chain, first branch first; it reuses the router's routes. */
  function Dispatch(verb: string, url: string): BookRouter.Route {
    if url == BaseUrl && verb == "GET" then BookRouter.ListBooks
    else if url == BaseUrl && verb == "POST" then BookRouter.CreateBook
    else if BookPathWithISBN(url) && verb == "GET" then BookRouter.GetBook
    else if BookPathWithISBN(url) && verb == "PATCH" then BookRouter.UpdateBook
    else if BookPathWithISBN(url) && verb == "DELETE" then BookRouter.DeleteBook
    else BookRouter.PathNotFound
  }

  /** "/" has no branch of its own here: it is "Path not found". */
  lemma RootNotFound(verb: string)
    ensures Dispatch(verb, "/") == BookRouter.PathNotFound
  {
    RegexIsContainsBooksSlash("/");
    assert |ToLowerAscii("/")| == 1;
  }

  /** Exactly "/books" lists on GET and creates on POST, and PATCH or DELETE on it is "Path not found". */
  lemma BooksCollection()
    ensures Dispatch("GET", "/books") == BookRouter.ListBooks
    ensures Dispatch("POST", "/books") == BookRouter.CreateBook
    ensures Dispatch("PATCH", "/books") == BookRouter.PathNotFound
    ensures Dispatch("DELETE", "/books") == BookRouter.PathNotFound
  {
    CollectionPathHasNoLiteral();
  }

  lemma CollectionPathHasNoLiteral()
    ensures !BookPathWithISBN("/books")
  {
    RegexIsContainsBooksSlash("/books");
    assert ToLowerAscii("/books")[0] == '/';
    assert !OccursAt(ToLowerAscii("/books"), "books/", 0);
  }

  /** Any URL containing "books/" in any case takes the ISBN routes, search URLs included. */
  lemma ISBNRoutes(url: string)
    requires Includes(ToLowerAscii(url), "books/")
    ensures Dispatch("GET", url) == BookRouter.GetBook
    ensures Dispatch("PATCH", url) == BookRouter.UpdateBook
    ensures Dispatch("DELETE", url) == BookRouter.DeleteBook
  {
    RegexIsContainsBooksSlash(url);
    CollectionPathHasNoLiteral();
  }

  /** The literal written in lower case occurs in the lower-cased URL. */
  lemma LowerCaseLiteral(u: string, i: nat)
    requires i + |Literal| <= |u| && u[i..i + |Literal|] == Literal
    ensures Includes(ToLowerAscii(u), Literal)
  {
    forall t | 0 <= t < |Literal| ensures LowerChar(u[i + t]) == Literal[t] {
      assert u[i + t] == u[i..i + |Literal|][t];
    }
    LiteralAtIsOccurrence(u, i);
  }

  /** A search URL is read as a book lookup here, while the router sends it to search. */
  lemma SearchIsReadAsISBN(term: string, urlContainsISBN: string -> bool)
    ensures Dispatch("GET", "/books/search?term=" + term) == BookRouter.GetBook
    ensures BookRouter.Dispatch("GET", "/books/search?term=" + term, urlContainsISBN) == BookRouter.SearchBooks
  {
    var url := "/books/search?term=" + term;
    assert url[1..7] == Literal;
    LowerCaseLiteral(url, 1);
    RegexIsContainsBooksSlash(url);
    assert url[..|"/books/search"|] == "/books/search";
  }

  /**
   * Apart from "/" and search GETs, which the router treats first, the two
   * chains agree once the router's ISBN test is this regular expression.
   */
  lemma RouterAgreesWithRegex(verb: string, url: string)
    requires url != "/"
    requires !(StartsWith(url, "/books/search") && verb == "GET")
    ensures BookRouter.Dispatch(verb, url, BookPathWithISBN) == Dispatch(verb, url)
  {
  }
}
