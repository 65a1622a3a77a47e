/**
 * Request dispatch: the exported request handler's if/else chain from the
 * URL and the HTTP method to the handler that serves the request. The ISBN-path
 * test the chain uses is a parameter, since its definition is not part of
 * this model.
 */
module BookRouter {
  import opened JsRuntime
  import BookController

  /** The branch a request takes. */
  datatype Route =
    | Homepage | ListBooks | CreateBook | SearchBooks
    | GetBook | UpdateBook | DeleteBook | PathNotFound

  const BaseUrl: string := "/books"

  /** The if/else chain, first branch first. */
  function Dispatch(verb: string, url: string, urlContainsISBN: string -> bool): Route {
    if url == "/" then Homepage
    else if url == BaseUrl && verb == "GET" then ListBooks
    else if url == BaseUrl && verb == "POST" then CreateBook
    else if StartsWith(url, BaseUrl + "/search") && verb == "GET" then SearchBooks
    else if urlContainsISBN(url) && verb == "GET" then GetBook
    else if urlContainsISBN(url) && verb == "PATCH" then UpdateBook
    else if urlContainsISBN(url) && verb == "DELETE" then DeleteBook
    else PathNotFound
  }

  /** The answers the chain gives itself, without a handler. */
  function DirectResponse(route: Route): (r: Option<BookController.Response>)
    ensures r.Some? <==> route == Homepage || route == PathNotFound
    ensures r.Some? ==> (r.value.code == 200 <==> r.value.body.status)
  {
    match route
    case Homepage => Some(BookController.Reply(200, true, BookController.Note("Homepage")))
    case PathNotFound => Some(BookController.Reply(404, false, BookController.Note("Path not found")))
    case _ => None
  }

  // ------------------------------------------------------------ rule table

  /** One branch of the chain: its condition on the method and the URL and its route. */
  datatype Rule = Rule(applies: (string, string) -> bool, route: Route)

  /** The branches in the order the chain tries them. */
  function Table(urlContainsISBN: string -> bool): seq<Rule> {
    [ Rule((m: string, u: string) => u == "/", Homepage),
      Rule((m: string, u: string) => u == BaseUrl && m == "GET", ListBooks),
      Rule((m: string, u: string) => u == BaseUrl && m == "POST", CreateBook),
      Rule((m: string, u: string) => StartsWith(u, BaseUrl + "/search") && m == "GET", SearchBooks),
      Rule((m: string, u: string) => urlContainsISBN(u) && m == "GET", GetBook),
      Rule((m: string, u: string) => urlContainsISBN(u) && m == "PATCH", UpdateBook),
      Rule((m: string, u: string) => urlContainsISBN(u) && m == "DELETE", DeleteBook) ]
  }

  /** The index of the first rule that applies, or `|rules|` when none does. */
  function FirstMatch(rules: seq<Rule>, verb: string, url: string): (k: nat)
    ensures k <= |rules|
    ensures k < |rules| ==> rules[k].applies(verb, url)
    ensures forall j :: 0 <= j < k ==> !rules[j].applies(verb, url)
    decreases |rules|
  {
    if rules == [] then 0
    else if rules[0].applies(verb, url) then 0
    else 1 + FirstMatch(rules[1..], verb, url)
  }

  /** The route of the first rule that applies; no rule applying means "Path not found". */
  function TableRoute(rules: seq<Rule>, verb: string, url: string): Route {
    var k := FirstMatch(rules, verb, url);
    if k < |rules| then rules[k].route else PathNotFound
  }

  /** The chain is exactly the table read first match first. */
  lemma DispatchFollowsTable(verb: string, url: string, urlContainsISBN: string -> bool)
    ensures Dispatch(verb, url, urlContainsISBN) == TableRoute(Table(urlContainsISBN), verb, url)
  {
    var rules := Table(urlContainsISBN);
    var k := FirstMatch(rules, verb, url);
    assert rules[0].applies(verb, url) == (url == "/");
    assert rules[1].applies(verb, url) == (url == BaseUrl && verb == "GET");
    assert rules[2].applies(verb, url) == (url == BaseUrl && verb == "POST");
    assert rules[3].applies(verb, url) == (StartsWith(url, BaseUrl + "/search") && verb == "GET");
    assert rules[4].applies(verb, url) == (urlContainsISBN(url) && verb == "GET");
    assert rules[5].applies(verb, url) == (urlContainsISBN(url) && verb == "PATCH");
    assert rules[6].applies(verb, url) == (urlContainsISBN(url) && verb == "DELETE");
    if k < |rules| {
      assert forall j :: 0 <= j < k ==> !rules[j].applies(verb, url);
      assert rules[k].applies(verb, url);
    } else {
      assert forall j :: 0 <= j < |rules| ==> !rules[j].applies(verb, url);
    }
  }

  // ------------------------------------------------------------ properties

  /** "/" is the homepage whatever the method and whatever the ISBN test says. */
  lemma RootIsHomepage(verb: string, urlContainsISBN: string -> bool)
    ensures Dispatch(verb, "/", urlContainsISBN) == Homepage
    ensures DirectResponse(Homepage) == Some(BookController.Reply(200, true, BookController.Note("Homepage")))
  {
  }

  /** Exactly "/books" lists on GET and creates on POST. */
  lemma BooksCollection(urlContainsISBN: string -> bool)
    ensures Dispatch("GET", "/books", urlContainsISBN) == ListBooks
    ensures Dispatch("POST", "/books", urlContainsISBN) == CreateBook
  {
  }

  /** A GET under "/books/search" is a search before any ISBN route is considered. */
  lemma SearchBeforeISBN(url: string, urlContainsISBN: string -> bool)
    requires StartsWith(url, "/books/search")
    ensures Dispatch("GET", url, urlContainsISBN) == SearchBooks
  {
  }

  /** The ISBN routes are taken only for URLs the ISBN test accepts, by method. */
  lemma ISBNRoutes(verb: string, url: string, urlContainsISBN: string -> bool)
    ensures var r := Dispatch(verb, url, urlContainsISBN);
      && (r == GetBook ==> urlContainsISBN(url) && verb == "GET")
      && (r == UpdateBook ==> urlContainsISBN(url) && verb == "PATCH")
      && (r == DeleteBook ==> urlContainsISBN(url) && verb == "DELETE")
    ensures url != "/" && url != BaseUrl && !StartsWith(url, BaseUrl + "/search") && urlContainsISBN(url) ==>
      && Dispatch("GET", url, urlContainsISBN) == GetBook
      && Dispatch("PATCH", url, urlContainsISBN) == UpdateBook
      && Dispatch("DELETE", url, urlContainsISBN) == DeleteBook
  {
  }

  /** "Path not found" is answered exactly when no branch's condition holds. */
  lemma NotFoundExactly(verb: string, url: string, urlContainsISBN: string -> bool)
    ensures Dispatch(verb, url, urlContainsISBN) == PathNotFound <==>
      && url != "/"
      && !(url == BaseUrl && (verb == "GET" || verb == "POST"))
      && !(StartsWith(url, BaseUrl + "/search") && verb == "GET")
      && !(urlContainsISBN(url) && (verb == "GET" || verb == "PATCH" || verb == "DELETE"))
  {
  }
}
