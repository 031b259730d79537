/** The request router of `handle_request`: the raw first request line picks a
    status line and the HTML file to send, by exact string equality. */
module Router {
  const HTTP_200: string := "HTTP/1.1 200 OK"
  const HTTP_404: string := "HTTP/1.1 404 NOT FOUND"
  const HELLO_FILE: string := "html/hello.html"
  const NOT_FOUND_FILE: string := "html/404.html"

  const ROOT_REQUEST: string := "GET / HTTP/1.1"
  const SLEEP_REQUEST: string := "GET /sleep HTTP/1.1"

  /** The pair `handle_request` returns. */
  datatype Route = Route(statusLine: string, filename: string)

  const HELLO_ROUTE: Route := Route(HTTP_200, HELLO_FILE)
  const NOT_FOUND_ROUTE: Route := Route(HTTP_404, NOT_FOUND_FILE)

  /** The two request lines with a route of their own. */
  predicate IsKnownRequest(requestLine: string) {
    requestLine == ROOT_REQUEST || requestLine == SLEEP_REQUEST
  }

  /** The route for a request line; the five-second pause of the sleep route is
      not part of the returned pair. */
  function HandleRequest(requestLine: string): (r: Route)
    ensures r == HELLO_ROUTE || r == NOT_FOUND_ROUTE
    ensures r == HELLO_ROUTE <==> IsKnownRequest(requestLine)
    ensures r.statusLine == HTTP_200 <==> r.filename == HELLO_FILE
  {
    match requestLine
    case "GET / HTTP/1.1" => HELLO_ROUTE
    case "GET /sleep HTTP/1.1" => HELLO_ROUTE
    case _ => NOT_FOUND_ROUTE
  }

  /** The three cases of the repository's own unit test, each request line built
      as `format!("{} HTTP/1.1", req_line)`. */
  lemma GetRequestWorksCorrectly()
    ensures HandleRequest("GET /" + " HTTP/1.1") == Route(HTTP_200, "html/hello.html")
    ensures HandleRequest("GET /sleep" + " HTTP/1.1") == Route(HTTP_200, "html/hello.html")
    ensures HandleRequest("GET /not-implemented" + " HTTP/1.1")
            == Route("HTTP/1.1 404 NOT FOUND", "html/404.html")
  {
  }

  /** Matching is exact: text appended to a routed request line (trailing
      whitespace, a line terminator, a query) gives the 404 route. */
  lemma {:induction false} ExtendedRequestNotFound(known: string, extra: string)
    requires IsKnownRequest(known) && extra != []
    ensures HandleRequest(known + extra) == NOT_FOUND_ROUTE
  {
    if known == ROOT_REQUEST {
      assert (known + extra)[5] == ' ' != SLEEP_REQUEST[5];
    }
  }

  /** Matching is exact: a proper prefix of a routed request line gives the 404
      route. */
  lemma {:induction false} TruncatedRequestNotFound(known: string, n: nat)
    requires IsKnownRequest(known) && n < |known|
    ensures HandleRequest(known[..n]) == NOT_FOUND_ROUTE
  {
    if known == SLEEP_REQUEST && n == |ROOT_REQUEST| {
      assert known[..n][5] == 's' != ROOT_REQUEST[5];
    }
  }

  /** Other methods, other versions, other letter case and the empty line are
      all answered with the 404 route. */
  lemma OtherRequestsNotFound()
    ensures HandleRequest("POST / HTTP/1.1") == NOT_FOUND_ROUTE
    ensures HandleRequest("GET / HTTP/1.0") == NOT_FOUND_ROUTE
    ensures HandleRequest("get / HTTP/1.1") == NOT_FOUND_ROUTE
    ensures HandleRequest("GET /missing HTTP/1.1") == NOT_FOUND_ROUTE
    ensures HandleRequest("") == NOT_FOUND_ROUTE
  {
  }
}
