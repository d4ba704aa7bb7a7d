# Ping-pong HTTP server: a Dafny model of its request handling

The server accepts TCP connections and reads one chunk from each. It treats
that chunk as an HTTP/1.1 request and takes its body:

- the text after the first blank CRLF line (`"\r\n\r\n"`);
- failing that, the text after the first bare `"\n\n"`;
- failing that, the last line of the text.

It trims that body and answers it. The words `ping`, `pong`, `hello` and `help`
get fixed replies whatever their case. Any other message is echoed back as
`Echo: <message>`. The answer goes into a JSON envelope (input, output,
timestamp). The envelope is written back as an HTTP/1.1 `200 OK` response with
fixed CORS headers, `Connection: close`, and a `Content-Length` equal to the
byte length of the JSON text.

The model has five modules:

- `Text`: the Rust string operations the server relies on. These are
  `str::find`, `str::lines`, `str::trim` (the Unicode White_Space set), ASCII
  lower-casing, UTF-8 encoding (which is what `String::len` counts and what
  `as_bytes` sends), and decimal printing of a length. It also has the generic
  fact that the blank line after a block of header lines is the first
  `"\r\n\r\n"` in the text. `Text.Lines` follows the current `str::lines`:
  it strips `"\r"` only before a `"\n"`, so an unterminated last line keeps a
  final bare `"\r"`. Older Rust releases dropped that `"\r"` as well. The
  server trims the body (src/main.rs:29), and `"\r"` is whitespace, so both
  behaviours give the same message.
- `BodyExtractor`: `extract_http_body`.
- `Responder`: the reply `match`, lifted into `Respond`.
- `Framing`: the `format!` that assembles the response, and the bytes written
  for it.
- `Handler`: one connection's cycle. The outcome of its single read decides
  whether anything is written. For a received request, the pipeline is:
  extract, trim, respond, build the envelope, serialize, frame.

Everything modelled is pure, so the model is made of functions and lemmas.

## Model

| member | source | states |
|---|---|---|
| `Text.Find` | src/main.rs:79-81 | `str::find`: a found index is an occurrence with no occurrence before it; `None` means the pattern occurs nowhere |
| `Text.Lines` | src/main.rs:86 | `str::lines`: no line holds a `"\n"`, and the empty text is exactly the one with no lines |
| `Text.LastLine` | src/main.rs:86 | `lines().last().unwrap_or("")`: "" for the empty text and never holds a `"\n"`; `LastLineUnterminated`, `LastLineTerminated` and `LastLineIsSlice` characterise it |
| `Text.LastLineUnterminated` | src/main.rs:86 | for a text ending in a non-empty unterminated line after a `"\n"`, the last line is that line exactly |
| `Text.LastLineTerminated` | src/main.rs:86 | for a text ending in `"\n"`, the last line is the text after the preceding `"\n"`, minus one trailing `"\r"`; the final `"\n"` adds no empty line |
| `Text.TrailingNewlineAddsNoLine` | src/main.rs:86 | appending `"\n"` to a text that ends in neither `"\n"` nor `"\r"` leaves its lines unchanged |
| `Text.LastLineIsSlice` | src/main.rs:86 | the last line is a contiguous slice of the text |
| `Text.Trim` | src/main.rs:29 | `str::trim`: never longer than its input, and neither starts nor ends with whitespace; `TrimIsSlice` completes the characterisation |
| `Text.TrimIsSlice` | src/main.rs:29 | `trim` keeps a slice, and everything removed before and after it is whitespace |
| `Text.TrimKeepsTrimmed` | src/main.rs:29 | a text that neither starts nor ends with whitespace is unchanged by `trim` |
| `Text.TrimIdempotent` | src/main.rs:29 | trimming twice is trimming once |
| `Text.AsciiLower` | src/main.rs:34 | the lowered text has the same length, and every character is the lowered character at that position |
| `Text.AsciiLowerMatches` | src/main.rs:34 | a text lowers to a lower-case word if and only if it spells that word with any mix of capitals |
| `Text.Utf8` | src/main.rs:60 | the encoding of n characters has between n and 4n bytes |
| `Text.Utf8Append` | src/main.rs:64 | encoding distributes over concatenation |
| `Text.Utf8Ascii` | src/main.rs:64 | an ASCII character occurs in a text if and only if its byte occurs in the encoding |
| `Text.Utf8LengthAscii` | src/main.rs:60 | for an all-ASCII text, the byte length equals the character count |
| `Text.Decimal` | src/main.rs:56 | the printed length is a non-empty run of digits with no leading zero |
| `Text.ParseDecimalOfDecimal` | src/main.rs:56 | reading back the printed number gives the number |
| `Text.BlankLineEndsBlock` | src/main.rs:51-58 | after lines that are non-empty and free of CR, each ended by CR LF, the first CR LF CR LF in the text is the blank line |
| `BodyExtractor.ExtractBody` | src/main.rs:77-88 | `extract_http_body`, a total function; its contract is the lemmas below: `ExtractAfterFirstCrlfCrlf`, `ExtractAfterFirstLfLf`, `ExtractWithoutSeparator`, `ExtractSingleLine` and `ExtractBodyIsSlice` |
| `BodyExtractor.ExtractAfterFirstCrlfCrlf` | src/main.rs:79-80 | when `"\r\n\r\n"` first occurs at k, the body is the suffix from k+4 |
| `BodyExtractor.ExtractAfterFirstLfLf` | src/main.rs:81-82 | with no `"\r\n\r\n"` anywhere, when `"\n\n"` first occurs at k, the body is the suffix from k+2 |
| `BodyExtractor.ExtractWithoutSeparator` | src/main.rs:83-86 | with neither separator, the body is the last line: `""` for an empty request; the unterminated final line; or the final terminated line minus its `"\r"` |
| `BodyExtractor.ExtractSingleLine` | src/main.rs:86 | a request with no `"\n"` is its own body |
| `BodyExtractor.ExtractBodyIsSlice` | src/main.rs:77-88 | extraction is total; its result is a contiguous slice of the request, no longer than it |
| `BodyExtractor.ExtractLastLineAgain` | src/main.rs:83-86 | when neither separator occurs, extracting from the body again gives the body back |
| `BodyExtractor.ExtractAfterHeaderBlock` | src/main.rs:79-80 | header lines ended by CRLF, then a blank line, then any payload: the body is exactly that payload |
| `Responder.Respond` | src/main.rs:34-40 | the reply `match` lifted to a function; characterised by `RespondKeyword`, `RespondEcho`, `ReplyIdentifiesKeyword` and `RespondIsTableLookup` |
| `Responder.RespondIsTableLookup` | src/main.rs:34-40 | the reply is the table entry for the lower-cased message, and the echo when that is no keyword |
| `Responder.RespondKeyword` | src/main.rs:34-38 | a keyword written in any case gets its reply: ping→pong, pong→ping, hello→Hello there!, help→the command list |
| `Responder.RespondEcho` | src/main.rs:39 | a message that is no keyword in any case gets `"Echo: "` followed by the message with its case kept |
| `Responder.EchoIsNoFixedReply` | src/main.rs:35-39 | no echo equals any fixed reply |
| `Responder.ReplyIdentifiesKeyword` | src/main.rs:34-40 | each fixed reply comes from its keyword and from nothing else; an echo comes exactly from non-keywords |
| `Responder.RespondCaseInsensitive` | src/main.rs:34 | messages that lower to the same text get the same keyword reply, or each gets its own echo |
| `Responder.PingPongSwap` | src/main.rs:35-36 | answering the reply to ping or pong gives back the lower-case keyword |
| `Responder.ReplyToUpperPong` | src/main.rs:36 | `PONG` gets `ping` |
| `Responder.ReplyToBanana` | src/main.rs:39 | `banana` gets `Echo: banana` |
| `Framing.ResponseHead` | src/main.rs:51-57 | the status line and the six header lines, in the server's order; `ResponseHeadLines` and `ContentLengthOfHead` state what they guarantee |
| `Framing.HttpResponse` | src/main.rs:50-62 | the `format!` of the response; `ResponseLayout` and `ExtractOwnResponse` state its layout |
| `Framing.WireResponse` | src/main.rs:64 | the bytes `write_all` sends; `WireFraming` states its framing |
| `Framing.ResponseHeadLines` | src/main.rs:51-57 | every status and header line is non-empty and free of CR |
| `Framing.ResponseLayout` | src/main.rs:50-62 | the response starts with `"HTTP/1.1 200 OK\r\n"`, contains `"Connection: close\r\n"`, is its head plus the JSON, and its first `"\r\n\r\n"` ends the head |
| `Framing.ContentLengthOfHead` | src/main.rs:56-60 | the Content-Length that a recipient reads from the head is the length the head was built for |
| `Framing.ExtractOwnResponse` | src/main.rs:50-62 | the server's own extractor takes exactly the JSON text out of its own response |
| `Framing.EncodedFraming` | src/main.rs:58-64 | encoding a head block, the blank line and a body gives the head bytes, CR LF, then the body bytes; the first CR LF CR LF is that blank line |
| `Framing.FramedBody` | src/main.rs:56-61 | when a head states its body's byte count, the encoded message frames the body |
| `Framing.WireFraming` | src/main.rs:50-64 | in the bytes written, the JSON's bytes follow the first CR LF CR LF, and Content-Length is their number |
| `Handler.MakeEnvelope` | src/main.rs:28-47 | the envelope's input is trimmed (no whitespace at either end), and it carries the given timestamp |
| `Handler.Handle` | src/main.rs:18-71 | bytes are written back exactly when the read received data; nothing after a disconnect or a read error |
| `Handler.HandleFramesEnvelope` | src/main.rs:43-64 | what a received request gets back frames the serialized envelope |
| `Handler.EnvelopeOfRequest` | src/main.rs:28-40 | for a request with headers and a payload, the input is the trimmed payload and the output is the reply to that input |
| `Handler.HandleBareMessage` | src/main.rs:28-29 | a request with no line feed is, trimmed, the message |
| `Handler.Scenario` | src/main.rs:28-40 | an already-trimmed payload after the headers is answered with the responder's reply to it |
| `Handler.UpperPongScenario` | src/main.rs:34-36 | a request whose payload is `PONG` gets output `ping` |
| `Handler.BananaScenario` | src/main.rs:39 | a request whose payload is `banana` gets output `Echo: banana` |

## Left out

- The listener's bind and accept loop, and the task spawned per connection
  (src/main.rs:7-15, 73-74). This is network I/O and concurrency.
  Connections share no state, and every modelled operation is a pure
  function, so one connection cannot affect another's answer.
- The socket read and write (src/main.rs:16-23, 64-71). `Handle` takes the
  read's outcome as a parameter and returns the bytes to write.
  - The 2048-byte buffer means a request is at most what one read returns. The
    model accepts a request of any length.
  - A failed write is only logged, so it is not modelled.
- An empty request (src/main.rs:19-23). A read of zero bytes is the
  `Closed` outcome, and decoding one or more bytes never gives "", so the
  server never handles an empty request. `ReadOutcome.Received` does not
  exclude the empty text, and `Handle` answers it like any other.
- `String::from_utf8_lossy` (src/main.rs:24). The request is taken as
  already-decoded text. The separators and line feeds are ASCII, so finding
  them and slicing around them gives the same text at either level.
- Text.AsciiLower: lowers ASCII letters only, where the source calls Unicode
  `to_lowercase` (src/main.rs:34). This cannot change which keyword matches:
  - every keyword is plain ASCII, and no keyword contains `k`;
  - the only non-ASCII character whose lower case is ASCII is U+212A KELVIN
    SIGN, which lowers to `k`.

  This argument is not proved in the model.
- The `json!` serializer and its string escaping (src/main.rs:43-47). It
  appears as the opaque parameter `serialize` of `Handle`. Only the byte
  length of its result matters to the framing. Nothing is proved about
  reading the envelope back from the JSON.
- `chrono::Utc::now().to_rfc3339()` (src/main.rs:46). The timestamp is a
  parameter, so nothing is said about the clock.
- `println!` / `eprintln!` logging.
- Extraction is not idempotent in general. If a payload itself contains a
  blank line, extracting again cuts it a second time.
  `BodyExtractor.ExtractLastLineAgain` states idempotence only for requests
  with neither separator, where it does hold.
