# A model of `handle_connection` in a minimal HTTP/1.1 server

The server accepts one TCP connection at a time. For each one, `handle_connection` does four things:

1. It reads the first line of the request.
2. It takes the second whitespace-separated token of that line as the target. If the line has no second token, the target is `/`.
3. It routes the target:
   - a target starting with `/echo/` is echoed back with status 200;
   - the target `/` gets a bare 200;
   - every other target gets a bare 404.
4. It writes the reply to the connection once.

This project models those steps in Dafny on byte sequences and proves what a client observes.

Modules, in dependency order:

- `Wrappers`: `Option` and `Result`.
- `Bytes`: the `byte` type, CR, LF, SP and colon, the ASCII whitespace class, digits, and `StartsWith`.
- `Numerals`: how `{}` formats a length. Also reads a Content-Length digit string back. Both directions of the round trip are proved.
- `Utf8`: well-formed UTF-8 as section 4 of RFC 3629 defines it. Rust checks this before the bytes of the line become a `String`.
- `Request`: the first line exactly as `BufRead::lines().next()` returns it, the `split_whitespace` tokens, and `Target`.
- `Router`: `Outcome` and `Route`.
- `Reader`: the partner of the serialiser. It is a client's reading of an HTTP/1.1 response under sections 2.1, 4 and 5 of RFC 9112: the status line, the field lines up to the empty line, and the body. Only rules 5, 6 and 8 of section 6.3 frame the body: an invalid Content-Length is an error, a valid one gives the body's length, and with none the body runs to the close of the connection. The reader assumes the request was neither HEAD nor CONNECT. `Render` is the grammar's own serialisation of a message. `ReadRender` proves that `Read` inverts it.
- `Response`: the bytes built by `format!`, and the message each reply stands for.
- `Server`: `Respond`, the whole pipeline as a function, and the `Connection` class. `Connection.Handle` follows the source's branches and calls `WriteAll` once on either branch. `WriteAll` appends to `written`, the bytes sent so far.

Bytes are written as numeric displays, each with its text in a doc comment. The echo preamble is built from the three lines of the source's format string.

In the following points the code differs from what one might expect of such a server. The model follows the code:

- A line with no second token has target `/`, not the empty string.
- The method token is ignored. `POST /echo/x` echoes `x` just as `GET /echo/x` does.
- Because the method token is ignored, a HEAD request to `/echo/x` also gets `x` as content. Section 9.3.2 of RFC 9110 forbids content in a reply to HEAD. A client that sent HEAD stops reading at the empty line and finds `x` left over.
- The 200 and 404 replies for the root and for unknown targets carry no `Content-Type` and no `Content-Length`. Their body is empty.
- A stream with no line, or a first line that is not UTF-8, makes `unwrap()` panic. `handle_connection` runs on the accept loop's own thread, so this ends the whole process rather than one connection. The model returns the reason as `Failure` and writes nothing.

## Model

| member | source | states |
|---|---|---|
| Request.FirstLine | src/main.rs:25-28 | Fails with `EndOfStream` exactly when the stream is empty. Fails with `InvalidUtf8` exactly when the bytes up to and including the first LF are not UTF-8. Otherwise returns a prefix of the stream that holds no LF and is well-formed UTF-8. |
| Request.LineChunk | src/main.rs:28 | The chunk `lines()` reads is a prefix of the stream. If it holds an LF, it ends in that LF and holds no earlier one. If it holds none, it is the whole stream. |
| Request.StripNewline | src/main.rs:28 | The line is the chunk with nothing, one LF or one CRLF removed from its end. Nothing is removed exactly when the chunk is empty or does not end in LF. CRLF is removed exactly when the chunk ends in CRLF. |
| Request.FirstLineOfRequest | src/main.rs:28 | A line followed by CRLF is read back as exactly that line. |
| Request.FirstLineOfBareLf | src/main.rs:28 | A line followed by a bare LF is read back as that line, provided it does not itself end in CR. |
| Request.FirstLineOfUnterminated | src/main.rs:28 | A stream with no LF is one line, trailing CR included, because `lines()` removes a CR only in front of an LF. |
| Request.Target | src/main.rs:31 | The target is never empty and holds no whitespace, so in particular no CR or LF. |
| Request.Tokens | src/main.rs:31 | `split_whitespace` yields no token exactly when the line is empty or all whitespace. |
| Request.TokensAreWords | src/main.rs:31 | Every token `split_whitespace` yields is a non-empty run of non-whitespace bytes. |
| Request.TokensAreNonEmptyPieces | src/main.rs:31 | The scanning tokeniser equals the documented reading of `split_whitespace`: split at every whitespace byte, then drop the empty pieces. |
| Request.TargetOfRequestLine | src/main.rs:31 | For any blank lead, any method word, any non-empty blank separator and anything after a word boundary, the target is exactly the second token. |
| Request.TargetOfShortLine | src/main.rs:31 | A line with at most one token, an empty or all-blank line included, has target `/`. |
| Router.Route | src/main.rs:33-35 | The reply is an echo iff the target starts with `/echo/`, and then the target is `/echo/` followed by the echoed text. The root iff the target is `/`. Not found iff neither holds. So exactly one of the three applies. |
| Router.EchoTextOfLine | src/main.rs:31-35 | The echoed text of any request line holds no whitespace, so no CR and no LF. |
| Router.EchoOfRequestLine | src/main.rs:31-35 | `METHOD /echo/x ...` routes to `Echo(x)` for any method and any trailing tokens. |
| Numerals.Decimal | src/main.rs:37-45 | The length is written as digits only, with no leading zero unless the length is 0, which is written `0`. |
| Numerals.ParseDecimalOfDecimal | src/main.rs:37-45 | Reading the written digits back gives the length. |
| Numerals.DecimalOfValue | src/main.rs:37-45 | Every canonical digit string is the written form of its value. Digit strings and lengths correspond one to one. |
| Response.Serialize | src/main.rs:39-46 | Every reply starts with `HTTP/1.1 ` and ends with CRLF CRLF followed by the reply's body: the echoed text, or nothing. |
| Response.EchoResponse | src/main.rs:39-46 | The echo reply starts with the status line and the fields up to `Content-Length: `. It ends in CRLF CRLF followed by the text. The digits between those two parts read back as the byte length of the text. |
| Response.StatusResponse | src/main.rs:57 | For a status with no CR, the bare reply's first CRLF-terminated line is `HTTP/1.1 ` followed by the status. The field section after it is empty, and nothing follows it. |
| Response.SerializeRenders | src/main.rs:37-57 | Each reply's bytes are the RFC 9112 rendering of its message. Echo: status 200 `OK` with fields `Content-Type: text/plain` and `Content-Length: <decimal length>`, then the text. Root: 200 `OK` with no fields and no body. Other: 404 `Not Found` with no fields and no body. |
| Response.EchoRenders | src/main.rs:39-46 | The echo format string is the status line, the two field lines, the empty line and the text, in that order. |
| Response.MessageOfWellFormed | src/main.rs:37-46 | Each reply's message is well formed. Its Content-Length, when present, names exactly the body's byte length. |
| Reader.ReadRender | src/main.rs:39-46 | A client reading any well-formed rendered message gets that message back, with no bytes left over. |
| Response.ReadServed | src/main.rs:37-57 | A client reading any reply gets back its intended message and nothing after the body. |
| Response.ReadEcho | src/main.rs:37-45 | A client reads the echo reply as one message with status 200, the text as its body and a Content-Length framing of the text's byte length, with no bytes left over. |
| Server.Respond | src/main.rs:24-62 | Fails exactly when no first line can be read, and for the same reason. Otherwise the written bytes read back, with nothing left over, as exactly the message that the routed target of the first line calls for, with status 200 or 404. |
| Server.Connection.constructor | src/main.rs:24 | A fresh connection has sent nothing. |
| Server.Connection.WriteAll | src/main.rs:49-60 | Writing appends the bytes to what the connection has sent. This is the `write_all` at line 49 and the one at line 60. |
| Server.Connection.Handle | src/main.rs:24-62 | Handling a connection appends exactly `Respond`'s bytes, once. When no request line can be read, nothing is written and the reason is returned. |
| Server.RespondEcho | src/main.rs:31-49 | A request line whose second token is `/echo/x`, terminated by CRLF, gets the echo reply for `x`. |
| Server.RespondShortLine | src/main.rs:31-60 | A request line with fewer than two tokens gets `HTTP/1.1 200 OK` CRLF CRLF. |
| Server.RespondRoot | src/main.rs:31-60 | A request line whose second token is exactly `/`, terminated by CRLF, gets `HTTP/1.1 200 OK` CRLF CRLF. |
| Server.RespondNotFound | src/main.rs:50-60 | Any other target, `/echo` and `/nope` among them, gets `HTTP/1.1 404 Not Found` CRLF CRLF. |
| Server.PostEchoes | src/main.rs:31-49 | `POST /echo/x HTTP/1.1` CRLF gets the echo reply for `x`. |
| Server.HeadEchoes | src/main.rs:31-49 | `HEAD /echo/x HTTP/1.1` CRLF also gets the full echo reply for `x`, body included, because the method is never looked at. |
| Server.EchoNothing | src/main.rs:33-45 | The target `/echo/` alone echoes the empty text. The reply then has `Content-Length: 0` and no body. |

## Left out

- `main`: binding the listener, the accept loop and the `println!` logging are process and socket plumbing (src/main.rs:8-22).
- Reading from the socket: the input is the finite byte sequence the client sent before closing. A read error, and a client that never sends LF or never closes, are not modelled. Bytes after the first line that the buffered reader has taken in are dropped, as in the server.
- `write_all` failing: writing to the connection always succeeds here. In the server, a failed write panics at `unwrap()`.
- The panic itself: the model reports `Failure`. It does not model the server process ending.
- Request.Tokens: only ASCII whitespace (HT, LF, VT, FF, CR, space) separates tokens. Rust's `split_whitespace` also splits at the UTF-8 encodings of non-ASCII whitespace (U+0085, U+00A0, U+1680, U+2000 to U+200A, U+2028, U+2029, U+202F, U+205F, U+3000). In the model those bytes stay inside a token.
- Reader.Read: this is a minimal reader to check the replies against. It drops only leading optional whitespace from a field value, takes the first Content-Length field, and does not handle obsolete line folding or Transfer-Encoding. It matches field names byte for byte, although HTTP field names are case-insensitive. It does not know the request method, so it does not apply rules 1 and 2 of section 6.3 of RFC 9112: a reply to HEAD, or with status 1xx, 204 or 304, ends at the empty line, and a 2xx reply to CONNECT opens a tunnel. The rows of `Server.Respond` and `Response.ReadServed` ("nothing after the body") hold for this reader, which is what a client that sent any other method sees. For a HEAD request the echoed text would be left over instead (see `Server.HeadEchoes`).
- Header parsing, `User-Agent`, `/files`, request bodies and gzip: this code does not implement them, so they have no counterpart here.
