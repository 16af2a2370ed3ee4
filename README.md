# sls: a JSON-RPC 2.0 language-server stub, modelled in Dafny

The server (`src/main.rs`) reads framed JSON-RPC 2.0 messages from standard
input. A frame is a `Content-Length: <n>` header line, one more line, and then
`n` bytes of JSON. The server deserialises the body as an inbound message. That
is a request (`Rpc`, it has an `id`) or a notification. It sleeps for a delay
that depends on the method. Then it writes at most one framed response to
standard output.

The model has six modules:

- `Wrappers`: `Option` and `Result`.
- `Json`: an abstract JSON value. It stands for the parsed input that serde buffers before the untagged decode. It keeps each member name once, and every number is an integer.
- `Messages`: the message types, and what serde derives for them. Serialisation
  is to a JSON value. Deserialisation follows serde's untagged-enum rule: the
  variants are tried in declaration order, so `Rpc` comes before
  `Notification`. A derived struct takes its fields from an object by name
  (extra members are ignored, and a missing field fails, even one of type
  `Value`). A plain struct also takes them from an array with exactly one
  element per field. A struct variant of an untagged enum (`Rpc`, and the
  `Response` and `Error` variants) never takes them from an array: serde
  derives no positional visitor for it.
- `Dispatch`: `method()`, the delay table of `time()`, `Response::response`,
  `Response::unimplemented` and `InputMsg::response`.
- `Framing`: the stream is a byte sequence. The module models `read_line` (it
  keeps the line feed and fails on text that is not UTF-8), `split(' ').nth(1)`,
  Rust's `u64` parse (an optional `+`, then digits, at most `u64::MAX`),
  `Display` for integers, `take`, and the header and frame that `main` writes.
- `Session`: one turn of `main`'s loop, as a function from the input bytes to
  the outcome. The outcome is a panic, a dropped body, or a handled message with
  its delay and the bytes written. The JSON text parser and serialiser of
  serde_json are parameters (`parse`, `serialize`).

The reader in `main` has a bug (see Findings). The frame reader `ReadFrame`,
and the session turn built on it, therefore use the corrected header reader
`LengthOfFixed`. The header reader as written is `LengthOf`.

Some behaviour that a language-server stub might be expected to have is not in
the code. The model follows the code:

- the `textDocument/didChange` delay is 200 ms;
- only `initialize` is answered with a result. Every other request gets
  "Method not found" (-32601). There is no diagnostics or completion handler;
- a request whose `id` is `null` is still a request;
- the `jsonrpc` member must be a string, but its value is not checked;
- the line after the header is read but never checked;
- a body cut short by the end of the stream is not an error. `take` stops at
  the end of the stream, and the bytes that are there become the body;
- the length is the second piece after splitting on one space character,
  not the second whitespace-separated token.

## Model

| member | source | states |
|---|---|---|
| Messages.DecodeObject | src/main.rs:77-87 | An object decodes exactly when it has a string `jsonrpc`, a string `method` and a `params` member. It is then an `Rpc` exactly when it has an `id` member, even a null one, and otherwise a `Notification`. The fields are copied from the members, and the value of `jsonrpc` is not checked. |
| Messages.DecodeInput | src/main.rs:77-87 | Only an object or an array can decode. An object that decodes has `jsonrpc`, `method` and `params` members, and it decodes to an `Rpc` exactly when it has an `id` member. An array that decodes is always a `Notification`. The exact conditions and fields are in `DecodeObject` and `DecodeArray`. |
| Messages.DecodeIgnoresExtraMembers | src/main.rs:77-87 | Two objects that agree on `jsonrpc`, `id`, `method` and `params` decode to the same result. |
| Messages.DecodeArray | src/main.rs:77-87 | The positional form: only the newtype variant `Notification` reaches a positional visitor. An array decodes exactly when it has three elements with strings first and second, and it is then that `Notification`. An array is never an `Rpc`, whatever its length. |
| Messages.DecodeEncodeInput | src/main.rs:77-87 | Deserialising a serialised inbound message gives back the message, for both variants. |
| Messages.EncodeDecodeInput | src/main.rs:77-87 | Serialising a decoded object gives back the object restricted to the variant's fields. |
| Messages.EncodeResponse | src/main.rs:15-42 | A response serialises to an object with a `jsonrpc` member and no tag. The variant shows only in its members: `id` exactly for `Response` and `Error`, `result` exactly for `Response`, `error` exactly for `Error`, `method` exactly for `Notification`. `id` and `jsonrpc` hold the response's own values. |
| Messages.DecodeEncodeResponse | src/main.rs:15-42 | Deserialising a serialised `Response` gives back the same variant and fields. No `Error` or `Notification` is taken for an earlier variant. |
| Dispatch.Method | src/main.rs:90-95 | The method name is the `method` field of whichever variant is given. |
| Dispatch.Delay | src/main.rs:96-106 | The delay is at most 400 ms. It is zero exactly for the methods outside the five named ones. |
| Dispatch.Time | src/main.rs:96-106 | The sleep before a message is at most 400 ms. It is zero exactly when the message's method is not one of the five named ones. The value for each method is in `TimeTable`. |
| Dispatch.TimeTable | src/main.rs:96-106 | `initialize` and `textDocument/didOpen` get 100 ms, `didChange` 200, `didSave` 400, `completion` 300, and every other method 0, whether it comes as a request or a notification. |
| Dispatch.InitializeResult | src/main.rs:110-131 | In the capabilities document, `capabilities.textDocumentSync` is 2, `capabilities.completionProvider.resolveProvider` is true, `hoverProvider` is true and `documentRangeFormattingProvider` is false. |
| Dispatch.Answer | src/main.rs:49-61 | A request gets a `Response` with version "2.0", its own id and the given result. A notification gets nothing. |
| Dispatch.Unimplemented | src/main.rs:62-74 | A request gets an `Error` with version "2.0", its own id, code -32601 and message "Method not found". A notification gets nothing. |
| Dispatch.Respond | src/main.rs:107-137 | A request always gets a response, and a notification never does, whatever its method. The response is never a `Notification`, and it carries version "2.0" and the request's id. It is a result, the capabilities document, exactly when the method is `initialize`; otherwise it is "Method not found". |
| Dispatch.RespondDependsOnMethodAndId | src/main.rs:107-109 | The response depends only on the kind of message, its id and its method name, and not on `params` or `jsonrpc`. |
| Framing.Utf8 | src/main.rs:146 | The check `read_line` makes on a line. A byte 0xC0, 0xC1 or 0xF5 to 0xFF never occurs in text it accepts. `AsciiIsUtf8` shows that it accepts every ASCII line, and `EncodeIsUtf8` and `EncodeDecode` relate it to the encoder of scalar values. |
| Framing.EncodeIsUtf8 | src/main.rs:146 | Against an independent reference, the UTF-8 encoder of Unicode scalar values: the encoding of every sequence of scalar values is accepted by the check `read_line` makes. |
| Framing.EncodeDecode | src/main.rs:146 | Conversely, every byte string the check accepts is the encoding of the scalar values it decodes to. So the check accepts exactly the encodings of scalar values. |
| Framing.ReadLine | src/main.rs:146 | `read_line` returns the bytes up to and including the first line feed (or all bytes if there is none). Those bytes and the rest make up the stream. |
| Framing.Split | src/main.rs:147-148 | `split(' ')` gives pieces without the separator. Joined with it, they give back the line. There is a single piece exactly when the line has no space. |
| Framing.SplitJoin | src/main.rs:147-148 | Splitting undoes joining pieces that hold no space. |
| Framing.ParseU64 | src/main.rs:150-151 | A token is accepted only if every byte is a digit, except that the first may be `+`. It must hold at least one digit, and the value is at most `u64::MAX`. |
| Framing.ParseU64Accepts | src/main.rs:150-151 | Every token made of an optional `+`, any number of `0` digits and the decimal text of `n` is read as `n` when `n` is at most `u64::MAX`. Otherwise it is refused. |
| Framing.ParseU64Form | src/main.rs:150-151 | Conversely, every accepted token has that form, for the value read: the sign, the leading zeros and then the canonical digits. |
| Framing.Decimal | src/main.rs:164 | The formatted length is one or more digits, with no leading zero. |
| Framing.DecimalValue | src/main.rs:164 | The digits written denote the length written. |
| Framing.DecimalCanonical | src/main.rs:164 | Every digit string without a leading zero is the one written for its value. |
| Framing.ParseDecimal | src/main.rs:150-151 | The `u64` parse reads back the decimal text of every `u64`. |
| Framing.LengthOf | src/main.rs:147-151 | As written: "Malformed header" exactly when the line has no space. Any other failure is "Malformed length". A line with a space succeeds exactly when its second piece parses as a `u64`, and the length is that value. |
| Framing.TerminatedLengthRefused | src/main.rs:146-151 | As written: a header line that ends in a line feed and has one space fails with "Malformed length". |
| Framing.HeaderAsWrittenRefused | src/main.rs:146-151 | As written: the header `main` writes at line 164 fails with "Malformed length" when read back at lines 146-151. So does the `\r\n` form that LSP clients send. |
| Framing.LengthOfFixed | src/main.rs:146-151 | The corrected reader: the written reader applied to the line without its final `\n` or `\r\n`. It says "Malformed header" exactly when that stripped line has no space, and otherwise fails only with "Malformed length". It agrees with the written reader on every line that does not end in a line feed. |
| Framing.HeaderLine | src/main.rs:164 | The header line `main` writes starts with `Content-Length: `. Then come only digits, and its last byte is a line feed. |
| Framing.HeaderRoundTrip | src/main.rs:163-164 | The corrected reader gets back `n` from the header line written for `n`, with a `\n` or a `\r\n` ending. |
| Framing.MalformedHeaderOnFirstLine | src/main.rs:146-149 | An empty stream, or a UTF-8 first line without a space, fails with "Malformed header". |
| Framing.Take | src/main.rs:153 | `take(n)` gives the first `n` bytes, or all bytes if fewer remain. |
| Framing.WriteFrame | src/main.rs:163-166 | The written frame ends with exactly the body bytes, after a non-empty header. |
| Framing.ReadFrame | src/main.rs:145-153 | With the corrected header reader (`LengthOfFixed`): a frame is read exactly when the first line is UTF-8, that reader accepts it, and the second line is UTF-8. The frame fails with "Couldn't read length" exactly when the first line is not UTF-8. A header the reader refuses gives that reader's error. "Couldn't read newline" comes exactly when the header is read but the second line is not UTF-8. A frame that is read is the first `n` bytes after the second line, where `n` is the length the header gives. It is at most `u64::MAX` bytes, and shorter than the stream. |
| Framing.ReadFrameAfterHeader | src/main.rs:152-153 | With the corrected header reader (`LengthOfFixed`): after any UTF-8 header line that the reader reads as `n`, with a `\n` or `\r\n` ending, a sign or leading zeros, the second line is skipped unchecked if it is UTF-8. The body is then the next `n` bytes, or fewer at the end of the stream. |
| Framing.ReadFrameCrLf | src/main.rs:145-153 | With the corrected header reader (`LengthOfFixed`): a frame whose two lines end in `\r\n`, as LSP clients send it, gives the next `n` bytes for a header declaring `n`. |
| Framing.ReadFrameRoundTrip | src/main.rs:163-166 | With the corrected header reader (`LengthOfFixed`): reading a written frame gives back its body, whatever follows it in the stream. |
| Framing.ShortBodyAccepted | src/main.rs:153-154 | With the corrected header reader (`LengthOfFixed`): a body shorter than its declared length at the end of the stream is taken as it is. It is not a framing error. |
| Session.Reply | src/main.rs:161-167 | Nothing is written exactly for a notification. For a request, the frame of the serialised response is written. |
| Session.HandleBody | src/main.rs:154-160 | A body is handled exactly when it parses as JSON and decodes as an inbound message. The delay is then `time()` of that message, at most 400 ms. Nothing is written exactly for a notification. For a request, the response is not a `Notification` and carries the request's id. The output is the frame of that serialised response. |
| Session.ServeFrame | src/main.rs:143-170 | With the corrected header reader (`LengthOfFixed`): a turn panics exactly when reading the frame fails, with that error. Otherwise it handles the body it read. For every stream, a handled message sleeps at most 400 ms. Nothing is written exactly for a notification. A request gets a non-`Notification` response with its own id, written as the frame of the serialised response. |
| Session.RequestAnswered | src/main.rs:161-166 | With the corrected header reader (`LengthOfFixed`): a request in a written frame is answered by a frame that reads back to the serialised response, and that response carries the request's id. |
| Session.InitializeScenario | src/main.rs:154-166 | With the corrected header reader (`LengthOfFixed`): `{"jsonrpc":"2.0","id":X,"method":"initialize","params":{}}` is handled with a 100 ms delay. It is answered by the frame of a result with id X and the capabilities document. |
| Session.OtherMethodsScenario | src/main.rs:132-135 | With the corrected header reader (`LengthOfFixed`): a request for any other method is answered by the frame of "Method not found" with its id. A notification gets no output at all. |
| Session.UndecodableDropped | src/main.rs:154-156 | With the corrected header reader (`LengthOfFixed`): a body that is not JSON, or not an inbound message, is dropped and the loop continues. Nothing is written. |

## Findings

| source | as written | input that shows it | evidently intended | confidence | as-written member | corrected member |
|---|---|---|---|---|---|---|
| src/main.rs:146-151 | `read_line` keeps the line terminator, so the second piece of the header line is `"<n>\n"`. Its `u64` parse fails, and the loop panics with "Malformed length" on every standard header. | `Content-Length: 5\n` (or `Content-Length: 5\r\n`) | the length is parsed from the header line without its terminator | not executed | Framing.HeaderAsWrittenRefused | Framing.HeaderRoundTrip |

## Left out

- Standard input and output are byte sequences. I/O errors other than invalid UTF-8 in `read_line` are not modelled, and neither are buffering, flushing or a short `write_all`.
- `thread::sleep` and `Duration` are not modelled: only the delay in milliseconds is kept.
- Logging (`error!`, `warn!`, `debug!`) and `env_logger` are left out: they only observe.
- serde_json's text parser and serialiser are foreign code. They are the `parse` and `serialize` parameters of `Session`. The model starts from the parsed JSON value.
- JSON numbers are integers in this model: floating-point numbers and the range limits of serde_json's numbers are not modelled.
- A JSON object has each member name at most once in this model, so repeated member names are not modelled. serde fails a variant on a repeat of a field that the variant declares, and then tries the next variant. So a request with a repeated `id` decodes as a `Notification` and is not answered, and a repeated `jsonrpc`, `method` or `params` makes the decode fail. Repeats of other members are ignored.
- Only one turn of the endless loop is modelled, and the stream left after it is not computed. After a decode failure, serde may leave part of the body unread; that is not modelled either.
- The `expect` on `serde_json::to_vec` is not modelled. Serialising these values cannot fail.
- The derived `Deserialize` for `Response` and `Serialize` for `InputMsg` are never called by `main`. They are modelled only as the inverses in the round-trip lemmas.
