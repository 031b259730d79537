/** Building the response: the `Content-Length` framing of `generate_html_content`
    and the `status_line ++ content` concatenation of `handle_connection`. A Rust
    `String` is represented by its UTF-8 bytes, which is how Rust stores it, so
    `String::len()` is the length of the byte sequence. */
module Response {
  import opened Wrappers
  import opened Utf8
  import opened Decimal
  import opened Router

  const CR: byte := 0x0D
  const LF: byte := 0x0A
  const CRLF: seq<byte> := [CR, LF]

  /** The field name and separator that open the only header line. */
  const FIELD_NAME: seq<byte> := Ascii("Content-Length: ")

  /** The directory tree the server reads from: path to raw file bytes. A path
      that is absent stands for every way the read can fail (missing file,
      denied permission). */
  type FileSystem = map<string, seq<byte>>

  /** `fs::read_to_string(path)`: the file's text, or None where the read fails,
      including when the bytes are not valid UTF-8. */
  function GetHtmlFromPath(path: string, fs: FileSystem): (r: Option<string>)
    ensures r.Some? <==> path in fs && Decode(fs[path]).Some?
    ensures r.Some? ==> Encode(r.value) == fs[path]
  {
    if path !in fs then None
    else
      match Decode(fs[path])
      case None => None
      case Some(text) => EncodeDecode(fs[path], text); Some(text)
  }

  /** The block `format!` builds after the status line, from the bytes of the
      file's text: a line break, the `Content-Length` field carrying the byte
      count in decimal, an empty line, then the contents untouched. */
  function Frame(contents: seq<byte>): (r: seq<byte>)
    ensures |r| == |contents| + 22 + |DecimalDigits(|contents|)|
    ensures r[..|CRLF + FIELD_NAME|] == CRLF + FIELD_NAME
    ensures r[|r| - |contents|..] == contents
  {
    CRLF + FIELD_NAME + DecimalDigits(|contents|) + CRLF + CRLF + contents
  }

  /** `generate_html_content`: None where reading the file panics; otherwise the
      frame around the file's own bytes. */
  function GenerateHtmlContent(filename: string, fs: FileSystem): (r: Option<seq<byte>>)
    ensures r.Some? <==> GetHtmlFromPath(filename, fs).Some?
    ensures r.Some? ==> r.value == Frame(fs[filename])
  {
    match GetHtmlFromPath(filename, fs)
    case None => None
    case Some(contents) => Some(Frame(Encode(contents)))
  }

  /** The bytes `handle_connection` writes for one request line, or None where it
      panics before writing anything (the routed file cannot be read). */
  function HandleConnection(requestLine: string, fs: FileSystem): (r: Option<seq<byte>>)
    ensures var route := HandleRequest(requestLine);
      && (r.Some? <==> route.filename in fs && Decode(fs[route.filename]).Some?)
      && (r.Some? ==> r.value == Encode(route.statusLine) + Frame(fs[route.filename]))
  {
    var route := HandleRequest(requestLine);
    match GenerateHtmlContent(route.filename, fs)
    case None => None
    case Some(content) =>
      Some(Encode(route.statusLine) + content)
  }

  /** Reading a file whose bytes are the encoding of a text yields that text. */
  lemma ReadTextRoundTrip(path: string, fs: FileSystem, text: string)
    requires path in fs && fs[path] == Encode(text)
    ensures GetHtmlFromPath(path, fs) == Some(text)
  {
    DecodeEncode(text);
  }

  /** An empty file is framed with a declared length of zero and nothing after
      the empty line. */
  lemma EmptyFileFrame()
    ensures Frame([]) == Ascii("\r\nContent-Length: 0\r\n\r\n")
  {
  }

  /** The declared length counts bytes, not characters: five characters, one of
      them two bytes long in UTF-8, are declared as six. */
  lemma MultiByteLength()
    ensures |"h\U{E9}llo"| == 5
    ensures Encode("h\U{E9}llo") == [0x68, 0xC3, 0xA9, 0x6C, 0x6C, 0x6F]
    ensures DecimalDigits(|Encode("h\U{E9}llo")|) == Ascii("6")
  {
  }

  /** The sleep route and the root route answer with byte-identical responses. */
  lemma SleepSameAsRoot(fs: FileSystem)
    ensures HandleConnection(SLEEP_REQUEST, fs) == HandleConnection(ROOT_REQUEST, fs)
  {
  }

  /** The response depends on the request line and the routed file alone: other
      files, and any earlier request, make no difference. */
  lemma ResponseDependsOnlyOnRoutedFile(requestLine: string, fs1: FileSystem, fs2: FileSystem)
    requires var f := HandleRequest(requestLine).filename;
      && (f in fs1 <==> f in fs2)
      && (f in fs1 ==> fs1[f] == fs2[f])
    ensures HandleConnection(requestLine, fs1) == HandleConnection(requestLine, fs2)
  {
  }

  /** A response starts with the routed status line and ends with the routed
      file's bytes. */
  lemma ResponseShape(requestLine: string, fs: FileSystem, r: seq<byte>)
    requires HandleConnection(requestLine, fs) == Some(r)
    ensures HandleRequest(requestLine).filename in fs
    ensures Encode(HandleRequest(requestLine).statusLine) <= r
    ensures var file := fs[HandleRequest(requestLine).filename]; r[|r| - |file|..] == file
  {
    RouteResponseShape(HandleRequest(requestLine), fs, r);
  }

  lemma RouteResponseShape(route: Route, fs: FileSystem, r: seq<byte>)
    requires route.filename in fs
    requires r == Encode(route.statusLine) + Frame(fs[route.filename])
    ensures Encode(route.statusLine) <= r
    ensures r[|r| - |fs[route.filename]|..] == fs[route.filename]
  {
  }

  /** A byte string without a carriage return, such as a status line. */
  predicate NoCr(s: seq<byte>) {
    forall i :: 0 <= i < |s| ==> s[i] != CR
  }

  /** Both status lines are plain ASCII, one byte per character, and hold no
      carriage return. */
  lemma StatusLineBytes(route: Route)
    requires route == HELLO_ROUTE || route == NOT_FOUND_ROUTE
    ensures IsAscii(route.statusLine)
    ensures Encode(route.statusLine) == Ascii(route.statusLine)
    ensures NoCr(Encode(route.statusLine))
  {
    var s := route.statusLine;
    assert forall i :: 0 <= i < |s| ==> s[i] as int < 0x80 && s[i] != '\r';
    AsciiLineBytes(s);
  }

  lemma AsciiLineBytes(s: string)
    requires forall i :: 0 <= i < |s| ==> s[i] as int < 0x80 && s[i] != '\r'
    ensures IsAscii(s) && Encode(s) == Ascii(s) && NoCr(Encode(s))
  {
    EncodeAscii(s);
    forall i | 0 <= i < |s| ensures Ascii(s)[i] != CR {
      assert Ascii(s)[i] as int == s[i] as int != '\r' as int;
    }
  }
}
