/** A client's reading of the bytes the server writes, following the message
    layout of section 2.1 of RFC 9112 (start line, CRLF, field lines, empty line,
    body) and the `Content-Length` value of section 8.6 of RFC 9110. It is the
    inverse the framing is proved against. */
module Reader {
  import opened Wrappers
  import opened Utf8
  import opened Decimal
  import opened Router
  import opened Response

  /** `pat` occurs in `s` starting at index `i`. */
  predicate OccursAt(s: seq<byte>, pat: seq<byte>, i: nat) {
    i + |pat| <= |s| && s[i..i + |pat|] == pat
  }

  /** The first index at or after `from` where `pat` occurs in `s`. */
  function IndexOfFrom(s: seq<byte>, pat: seq<byte>, from: nat): (r: Option<nat>)
    ensures r.Some? ==> from <= r.value && OccursAt(s, pat, r.value)
    ensures r.Some? ==> forall j :: from <= j < r.value ==> !OccursAt(s, pat, j)
    ensures r.None? ==> forall j :: from <= j ==> !OccursAt(s, pat, j)
    decreases |s| - from
  {
    if from + |pat| > |s| then None
    else if s[from..from + |pat|] == pat then Some(from)
    else IndexOfFrom(s, pat, from + 1)
  }

  function IndexOf(s: seq<byte>, pat: seq<byte>): Option<nat> {
    IndexOfFrom(s, pat, 0)
  }

  /** The first occurrence is determined by where `pat` occurs and where it does not. */
  lemma IndexOfIs(s: seq<byte>, pat: seq<byte>, k: nat)
    requires OccursAt(s, pat, k)
    requires forall j :: 0 <= j < k ==> !OccursAt(s, pat, j)
    ensures IndexOf(s, pat) == Some(k)
  {
  }

  /** What a reader takes from a response: the status line, the declared length
      and the body. */
  datatype Message = Message(statusLine: seq<byte>, contentLength: nat, body: seq<byte>)

  /** Splits the head from the body at the first empty line, the status line from
      the field line at the first CRLF, and accepts only a single
      `Content-Length` field whose value is the body's length. */
  function ParseResponse(b: seq<byte>): (r: Option<Message>)
    ensures r.Some? ==> r.value.contentLength == |r.value.body|
    ensures r.Some? ==> r.value.statusLine + CRLF <= b
    ensures r.Some? ==> |r.value.body| <= |b| && b[|b| - |r.value.body|..] == r.value.body
  {
    match IndexOf(b, CRLF + CRLF)
    case None => None
    case Some(h) =>
      var head, body := b[..h], b[h + 4..];
      match IndexOf(head, CRLF)
      case None => None
      case Some(k) =>
        var status, field := head[..k], head[k + 2..];
        if |field| < |FIELD_NAME| || field[..|FIELD_NAME|] != FIELD_NAME then None
        else
          match ParseDecimal(field[|FIELD_NAME|..])
          case None => None
          case Some(n) =>
            if n != |body| then None
            else
              assert b[..k + 2] == head[..k + 2];
              Some(Message(status, n, body))
  }

  /** The header block in front of the contents: everything up to the empty line. */
  function Head(status: seq<byte>, contents: seq<byte>): seq<byte> {
    status + CRLF + FIELD_NAME + DecimalDigits(|contents|)
  }

  /** In the head, the only carriage return is the one ending the status line. */
  lemma HeadCarriageReturns(status: seq<byte>, contents: seq<byte>)
    requires NoCr(status)
    ensures var head := Head(status, contents);
      && |head| > |status| + 2
      && head[|status|] == CR && head[|status| + 1] == LF && head[|status| + 2] != CR
      && forall i :: 0 <= i < |head| && head[i] == CR ==> i == |status|
  {
  }

  /** The empty line that ends the head is the first `\r\n\r\n` in the response,
      whatever the contents hold, so the bytes after it are exactly the contents. */
  lemma {:induction false} HeaderEnd(status: seq<byte>, contents: seq<byte>)
    requires NoCr(status)
    ensures var b := status + Frame(contents);
      var h := |Head(status, contents)|;
      && IndexOf(b, CRLF + CRLF) == Some(h)
      && b[h + 4..] == contents
  {
    var head := Head(status, contents);
    var b := status + Frame(contents);
    var h := |head|;
    assert b == head + (CRLF + CRLF) + contents;
    HeadCarriageReturns(status, contents);
    var p := |status|;
    forall j | 0 <= j < h ensures !OccursAt(b, CRLF + CRLF, j) {
      if j + 4 <= |b| {
        assert b[j..j + 4][0] == b[j] && b[j..j + 4][2] == b[j + 2];
        if j == p {
          assert b[j + 2] == head[j + 2];
        } else {
          assert b[j] == head[j];
        }
      }
    }
    assert OccursAt(b, CRLF + CRLF, h);
    IndexOfIs(b, CRLF + CRLF, h);
  }

  /** Within the head, the first CRLF ends the status line and the field line
      follows it. */
  lemma HeadSplit(status: seq<byte>, contents: seq<byte>)
    requires NoCr(status)
    ensures var head := Head(status, contents);
      && IndexOf(head, CRLF) == Some(|status|)
  {
    var head := Head(status, contents);
    var p := |status|;
    HeadCarriageReturns(status, contents);
    forall j | 0 <= j < p ensures !OccursAt(head, CRLF, j) {
      assert head[j..j + 2][0] == head[j];
    }
    assert head[p..p + 2] == CRLF;
    IndexOfIs(head, CRLF, p);
  }

  lemma HeadParts(status: seq<byte>, contents: seq<byte>)
    ensures Head(status, contents)[..|status|] == status
    ensures Head(status, contents)[|status| + 2..] == FIELD_NAME + DecimalDigits(|contents|)
  {
    HeadLayout(status, DecimalDigits(|contents|));
  }

  lemma HeadLayout(status: seq<byte>, digits: seq<byte>)
    ensures (status + CRLF + FIELD_NAME + digits)[..|status|] == status
    ensures (status + CRLF + FIELD_NAME + digits)[|status| + 2..] == FIELD_NAME + digits
  {
  }

  /** Round trip: reading the response back gives the status line, a declared
      length equal to the byte length of the contents, and the contents verbatim,
      including empty contents and contents that contain an empty line. */
  lemma {:induction false} ParseFrame(status: seq<byte>, contents: seq<byte>)
    requires NoCr(status)
    ensures ParseResponse(status + Frame(contents)) == Some(Message(status, |contents|, contents))
  {
    var b := status + Frame(contents);
    var head := Head(status, contents);
    var digits := DecimalDigits(|contents|);
    HeaderEnd(status, contents);
    assert b[..|head|] == head;
    HeadSplit(status, contents);
    HeadParts(status, contents);
    assert (FIELD_NAME + digits)[..|FIELD_NAME|] == FIELD_NAME;
    assert (FIELD_NAME + digits)[|FIELD_NAME|..] == digits;
    ParseDecimalDigits(|contents|);
  }

  /** End to end: a response the server writes reads back as the routed status
      line, a `Content-Length` equal to the routed file's size in bytes, and that
      file's bytes, which decode to the text the server read. */
  lemma ResponseRoundTrip(requestLine: string, fs: FileSystem)
    requires HandleConnection(requestLine, fs).Some?
    ensures var route := HandleRequest(requestLine);
      var file := fs[route.filename];
      && ParseResponse(HandleConnection(requestLine, fs).value)
         == Some(Message(Encode(route.statusLine), |file|, file))
      && GetHtmlFromPath(route.filename, fs) == Decode(file)
  {
    var route := HandleRequest(requestLine);
    StatusLineBytes(route);
    ParseFrame(Encode(route.statusLine), fs[route.filename]);
  }

  /** End-to-end scenario: `GET / HTTP/1.1` reads back as `200 OK` with the bytes
      of `html/hello.html`, and a request for a missing path reads back as
      `404 NOT FOUND` with the bytes of `html/404.html`. */
  lemma Scenarios(fs: FileSystem)
    requires HELLO_FILE in fs && Decode(fs[HELLO_FILE]).Some?
    requires NOT_FOUND_FILE in fs && Decode(fs[NOT_FOUND_FILE]).Some?
    ensures HandleConnection(ROOT_REQUEST, fs).Some?
    ensures ParseResponse(HandleConnection(ROOT_REQUEST, fs).value)
            == Some(Message(Encode(HTTP_200), |fs[HELLO_FILE]|, fs[HELLO_FILE]))
    ensures HandleConnection("GET /missing HTTP/1.1", fs).Some?
    ensures ParseResponse(HandleConnection("GET /missing HTTP/1.1", fs).value)
            == Some(Message(Encode(HTTP_404), |fs[NOT_FOUND_FILE]|, fs[NOT_FOUND_FILE]))
  {
    OtherRequestsNotFound();
    ResponseRoundTrip(ROOT_REQUEST, fs);
    ResponseRoundTrip("GET /missing HTTP/1.1", fs);
  }
}
