# taro: a verified model of a one-request HTTP responder

The server in `src/main.rs` reads the first line of a request. It picks a
status line and an HTML file by exact string match (`handle_request`), reads
that file, and frames its text as `\r\nContent-Length: N\r\n\r\n<contents>`
(`generate_html_content`). It then writes `status_line + frame` back
(`handle_connection`). This project models those three pieces as pure Dafny
functions and proves properties about them.

Modules:

- `Wrappers`: an `Option` type. `None` stands for a panic (a failed `unwrap`) and for a reader that rejects its input.
- `Utf8`: Rust stores a `String` as UTF-8 bytes, so the model represents every `String` by those bytes. `String::len()` is then the length of the byte sequence. The module has the encoder, the strict decoder that `fs::read_to_string` applies, and lemmas that the two are inverse.
- `Decimal`: the ASCII decimal numeral that `format!("{length}")` writes, a `1*DIGIT` reader, and round-trip lemmas in both directions.
- `Router`: `handle_request` and its exactness properties.
- `Response`: the file read, the framing, the whole response, and lemmas about them.
- `Reader`: a client's view of a response. It splits the head from the body at the first `\r\n\r\n`, takes the status line up to the first `\r\n`, and checks the single `Content-Length` field against the body. This follows section 2.1 of RFC 9112 and section 8.6 of RFC 9110. The framing is proved against this reader.

The file system is a parameter: a map from path to raw file bytes. The file read
fails, and the connection produces no response, when the path is absent or its
bytes are not valid UTF-8.

## Model

| member | source | states |
|---|---|---|
| `Router.HandleRequest` | src/main.rs:27-38 | The result is always one of two pairs: (`HTTP/1.1 200 OK`, `html/hello.html`) or (`HTTP/1.1 404 NOT FOUND`, `html/404.html`). It is the 200 pair exactly when the line equals `GET / HTTP/1.1` or `GET /sleep HTTP/1.1`. The status is 200 exactly when the file is `html/hello.html`. |
| `Router.GetRequestWorksCorrectly` | src/main.rs:68-88 | The three cases of the unit test hold: `GET /`, `GET /sleep` and `GET /not-implemented`, each followed by ` HTTP/1.1`. |
| `Router.ExtendedRequestNotFound` | src/main.rs:28-34 | A routed request line followed by any non-empty text gets the 404 pair. There is no prefix match. |
| `Router.TruncatedRequestNotFound` | src/main.rs:28-34 | Every proper prefix of a routed request line gets the 404 pair. There is no partial match. |
| `Router.OtherRequestsNotFound` | src/main.rs:34 | Another method, another version, lower case, a missing path and the empty line all get the 404 pair. |
| `Utf8.EncodeChar` | src/main.rs:20 | One character takes 1 to 4 bytes. The first byte announces the length and the other bytes are continuation bytes. It takes one byte exactly for code points below U+0080, and that byte is the code point. |
| `Utf8.Encode` | src/main.rs:20 | The byte length of a text is between its character count and four times that count. |
| `Utf8.DecodeEncodeChar` | src/main.rs:15 | Decoding a character's bytes gives back the character. |
| `Utf8.EncodeDecodeChar` | src/main.rs:15 | Any byte group that decodes to a character is exactly that character's encoding. Overlong forms are rejected. |
| `Utf8.DecodeEncode` | src/main.rs:15 | Every text's bytes pass UTF-8 validation and decode back to the same text. |
| `Utf8.EncodeDecode` | src/main.rs:15 | Bytes that pass validation are exactly the encoding of the decoded text. So the length of the text read is the file's size in bytes. |
| `Utf8.EncodeAppend` | src/main.rs:50-52 | The bytes of a concatenation are the bytes of its parts in order. |
| `Utf8.EncodeAscii` | src/main.rs:12 | An ASCII text is encoded one byte per character, each byte equal to the character. |
| `Utf8.ByteLengthIsCharCountIffAscii` | src/main.rs:20 | `len()` equals the character count exactly when the text is ASCII. |
| `Decimal.DecimalDigits` | src/main.rs:24 | The printed length is one or more ASCII digits with no leading zero, and its last digit is the value modulo 10. |
| `Decimal.ParseDecimal` | src/main.rs:24 | The reader accepts exactly a non-empty run of digits. |
| `Decimal.ParseDecimalDigits` | src/main.rs:20-24 | Reading back the printed numeral gives the number. |
| `Decimal.DecimalDigitsOfParse` | src/main.rs:24 | A canonical numeral is the one printed for its value. Printer and reader are inverses. |
| `Response.GetHtmlFromPath` | src/main.rs:14-16 | The read succeeds exactly when the path exists and its bytes are valid UTF-8. The text's bytes are then the file's bytes. |
| `Response.ReadTextRoundTrip` | src/main.rs:15 | A file holding the encoding of a text reads as that text. |
| `Response.Frame` | src/main.rs:18-25 | The block opens with `\r\nContent-Length: ` and ends with the contents unchanged. Its length is the contents plus 22 bytes of fixed text plus the digits. |
| `Response.GenerateHtmlContent` | src/main.rs:18-25 | It fails exactly when the read fails. Otherwise it frames the file's own bytes. |
| `Response.HandleConnection` | src/main.rs:40-53 | A response exists exactly when the routed file can be read. It is the routed status line's bytes followed by the frame around that file's bytes. |
| `Response.EmptyFileFrame` | src/main.rs:20-24 | An empty file is framed as `\r\nContent-Length: 0\r\n\r\n` and nothing more. |
| `Response.MultiByteLength` | src/main.rs:20 | `héllo` has 5 characters and 6 bytes, and the declared length is `6`. |
| `Response.SleepSameAsRoot` | src/main.rs:29-33 | The sleep route and the root route give byte-identical responses. |
| `Response.ResponseDependsOnlyOnRoutedFile` | src/main.rs:46-50 | The response depends only on the request line and the routed file. Identical inputs give identical bytes. |
| `Response.ResponseShape` | src/main.rs:50 | A response starts with the routed status line and ends with the routed file's bytes. |
| `Response.StatusLineBytes` | src/main.rs:12 | Both status lines are ASCII, one byte per character, with no carriage return. |
| `Reader.ParseResponse` | src/main.rs:20-24 | An accepted response has a declared length equal to its body length. It starts with the status line and `\r\n`, and ends with the body. |
| `Reader.HeaderEnd` | src/main.rs:22-24 | The empty line after the header is the first `\r\n\r\n` in the response, whatever the contents hold. The bytes after it are exactly the contents. |
| `Reader.ParseFrame` | src/main.rs:20-24 | Round trip: a status line without CR, followed by the frame, reads back as that status line, a declared length equal to the contents' byte count, and the contents verbatim. This holds for empty contents and for contents that contain `\r\n\r\n`. |
| `Reader.ResponseRoundTrip` | src/main.rs:46-52 | Every response the server writes reads back as the routed status line, the routed file's byte size and that file's bytes. Those bytes decode to the text the server read. |
| `Reader.Scenarios` | src/main.rs:46-52 | `GET / HTTP/1.1` reads back as `200 OK` with `html/hello.html`. `GET /missing HTTP/1.1` reads back as `404 NOT FOUND` with `html/404.html`. |

## Left out

- Binding `127.0.0.1:7878`, the accept loop and the strictly sequential handling of connections (src/main.rs:55-64): socket I/O and an unbounded loop.
- Reading the request line from the socket (src/main.rs:41-42): the model takes the line as a string. So it does not capture the panic when no line or no valid UTF-8 line arrives, or the stripping of the line terminator by `lines()`.
- Writing the response (src/main.rs:52): the model returns the bytes. It does not capture write failures.
- The five-second `thread::sleep` on the sleep route (src/main.rs:31): a timing side effect that does not change the returned pair.
- `println!` logging (src/main.rs:44, src/main.rs:58).
- File reads: read failures are not told apart. A missing file, a denied permission and invalid UTF-8 all give `None`, which stands for the `unwrap` panic. Whether that panic ends the process or only the connection is not modelled.
- `Response.Frame`: the length is an unbounded `nat`. The model ignores the `usize` bound on `contents.len()`, since no file read into memory can reach it.
