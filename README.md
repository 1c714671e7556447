# Event-socket codec model

A Dafny model of the codec in `src/io.rs` of a FreeSWITCH Event Socket Layer
(ESL) client. The ESL server sends frames made of a header block (lines
`Key: Value` separated by `\n`), a blank line, and for some content types a
body whose size is given by `Content-Length`. The codec has two halves:

- the decoder (`EslCodec::decode`) looks at the bytes received so far. It
  finds the end of the header block, parses the headers into a map and
  dispatches on `Content-Type`. It then returns one `InboundResponse`
  (`Auth`, `Reply`, `ApiResponse`, `EventJson`), or "need more bytes", or an
  error, and removes the bytes it used from the front of the buffer;
- the encoder (`EslCodec::encode`) appends an outgoing command to the output
  buffer unchanged.

Layout, one module per concern:

| file | module | models |
|---|---|---|
| `base.dfy` | `Base` | bytes, the byte-to-text view, `Option`/`Result`, the decoder's errors |
| `text.dfy` | `Str` | `str::split` on one character and `str::trim` |
| `header_end.dfy` | `HeaderEnd` | `get_header_end` |
| `header.dfy` | `Header` | `parse_header` |
| `usize.dfy` | `Usize` | `str::parse::<usize>` of a `Content-Length` value |
| `body.dfy` | `Body` | `parse_body`, `parse_json_body` |
| `bytes_mut.dfy` | `BytesBuf` | the `BytesMut` buffer: `advance`, `extend_from_slice` |
| `codec.dfy` | `EslCodec` | `InboundResponse`, `decode`, `encode` and what they promise |

The two loops of the source are methods with a loop: `GetHeaderEnd` and
`ParseHeader`. Each is proved equal to a function (`Find`, `Parse`). The
decoder itself has no loop; it is the method `Decode`, proved equal to the
function `Decoding`. The properties are lemmas about those functions.
`Decode` works on a `BytesMut` object and changes it in place. Its contract
says that the returned outcome and the new buffer contents are those of
`Decoding` on the old contents.

Behaviour reproduced as the code is written:

- The header end is the index of the second `\n` of the first `\n\n`.
  The header block is everything before the first `\n` of that pair
  (`buf[..i - 1]` for a header end `i`).
- A header line is split on every `:`. The key is the trimmed first piece and
  the value the trimmed second piece, so text after a second `:` is lost
  (`Host: a:b` gives `a`). A line without `:` fails the whole frame, and so
  does an empty line. A later line with the same key wins.
- `api/response` with `Content-Length: L` returns the `L - 1` bytes that
  follow the first body byte. It consumes the header, the blank line and `L`
  body bytes. `L = 0` is a slice panic in the source and `BodyOutOfRange` here.
- `command/reply` returns the header block's own text and consumes it plus
  the two line feeds.
- `auth/request` and a decoded `text/event-json` empty the whole buffer. Any
  bytes of a following frame are discarded with it.
- Every `panic!`, failed `unwrap`, failed `parse` and JSON error of the source
  is a `DecodeError` value here. None of them happens after the buffer has
  been advanced, so on every error the buffer is left as it was.

## Model

| member | source | states |
|---|---|---|
| Base.Text | src/io.rs:42 | the text has one character per byte, with the byte's code (the lossy UTF-8 view restricted to ASCII) |
| HeaderEnd.Find | src/io.rs:25-34 | a header end exists iff the buffer holds `\n\n`; it is the position of the second `\n` of the first such pair |
| HeaderEnd.GetHeaderEnd | src/io.rs:25-34 | the scanning loop returns exactly `Find` of the buffer, `None` when there is no blank line |
| HeaderEnd.FindLeast | src/io.rs:28-30 | a terminator with none before it is the header end |
| HeaderEnd.FindExtend | src/io.rs:28-31 | appending bytes never moves a header end that is already present |
| HeaderEnd.FindSplitsBuffer | src/io.rs:64 | the buffer is the header block, two line feeds and the rest, and the block holds no `\n\n` |
| Str.TrimStart | src/io.rs:47 | the start-trimmed text is no longer than the text and does not start with whitespace |
| Str.TrimEnd | src/io.rs:47 | the end-trimmed text is no longer than the text, starts with the same character and does not end with whitespace |
| Str.Trim | src/io.rs:47-48 | `trim`'s result neither starts nor ends with whitespace |
| Str.TrimStartMeaning | src/io.rs:47 | trimming the start keeps a suffix and drops only whitespace |
| Str.TrimEndMeaning | src/io.rs:47 | trimming the end keeps a prefix and drops only whitespace |
| Str.TrimMeaning | src/io.rs:47-48 | `trim` keeps the contiguous slice that starts after the leading whitespace, and drops only whitespace around it |
| Str.TrimKeepsTrimmed | src/io.rs:47-48 | text without surrounding whitespace is unchanged by `trim` |
| Str.FirstIndex | src/io.rs:46-47 | the position of the first occurrence of a character, or the length when it does not occur |
| Str.FirstIndexFound | src/io.rs:46-48 | the first-occurrence search succeeds exactly when the character occurs |
| Str.Split | src/io.rs:43 | splitting always yields at least one piece |
| Str.SplitCount | src/io.rs:46-48 | there are at least two pieces exactly when the separator occurs |
| Str.SplitPiecesLackSeparator | src/io.rs:43 | no piece contains the separator |
| Str.JoinSplit | src/io.rs:43 | joining the pieces with the separator gives back the text (splitting loses nothing) |
| Str.SplitJoin | src/io.rs:43 | splitting undoes joining when no piece contains the separator |
| Str.SplitWithout | src/io.rs:46-48 | a text without the separator is a single piece |
| Str.SplitAfter | src/io.rs:46-48 | a separator-free prefix, the separator and a tail split into the prefix followed by the tail's pieces |
| Str.SplitFirstPiece | src/io.rs:47 | the first piece is the text before the first separator |
| Str.SplitAtFirst | src/io.rs:43-48 | first piece is the text before the first separator; the other pieces are those of the text after it |
| Header.ParseLine | src/io.rs:46-48 | a line has no key and value (the second `unwrap` fails) exactly when it has no `:` |
| Header.ParseLineMeaning | src/io.rs:46-48 | for a line with `:`, key and value are the trimmed texts before the first `:` and between it and the next `:` |
| Header.LineOfPieces | src/io.rs:46-48 | a line parses to its first two `:`-pieces, trimmed |
| Header.FirstTwoPieces | src/io.rs:46-48 | with a separator present, the first two pieces are the texts before it and up to the next one |
| Header.Insert | src/io.rs:44-50 | inserting the lines fails only with `MalformedHeader`, and the keys already in the map stay |
| Header.Lines | src/io.rs:42-43 | the lines of the block, joined with `\n`, give back its text, and no line contains `\n` |
| Header.Parse | src/io.rs:40-53 | the header map fails exactly when some line has no `:`, and then with `MalformedHeader` |
| Header.InsertFailsIffMalformed | src/io.rs:45-50 | building the map fails iff some line has no `:`, and the error is `MalformedHeader` |
| Header.InsertLastWins | src/io.rs:49 | the value of a key is that of the last line carrying it |
| Header.InsertKeeps | src/io.rs:49 | a key carried by no line keeps its prior value or stays absent |
| Header.InsertKeysFromLines | src/io.rs:45-50 | every key of the map comes from some line |
| Header.ParseHeader | src/io.rs:40-53 | the line loop returns exactly `Parse` of the block: the map of the lines, or `MalformedHeader` |
| Header.EmptyFirstLineIsMalformed | src/io.rs:43-48 | an empty block, or one starting with `\n`, fails as malformed |
| Usize.Parse | src/io.rs:74 | an accepted length fits in a usize, starts with a digit or `+`, is otherwise all digits, ends with a digit, and is the value of its digits |
| Usize.ParseDigits | src/io.rs:74 | every non-empty digit string whose value fits in a usize is accepted, with or without `+`, and gives that value |
| Usize.Format | src/io.rs:74 | the decimal text of a number is non-empty, all digits, without a leading zero |
| Usize.ValueFormat | src/io.rs:74 | the digits of a number's decimal text denote that number |
| Usize.ParseFormat | src/io.rs:74 | every length up to `usize::MAX` written in decimal parses back to itself |
| Usize.ValueLeadingZero | src/io.rs:95 | a leading zero does not change the value of a digit string |
| Usize.ParseLeadingZero | src/io.rs:95 | a leading zero before a non-empty unsigned text does not change what it parses to, accepted or rejected |
| Body.ParseBody | src/io.rs:35-39 | the body exists iff `1 <= L` and `L + 1` bytes are there; it is the `L - 1` bytes from offset 2, else `BodyOutOfRange` |
| Body.JsonText | src/io.rs:123 | the JSON text is the `L` bytes right after the first byte |
| Body.ParseJsonBody | src/io.rs:122-126 | succeeds iff the parser accepts `JsonText`, returning its object; fails with `InvalidJson`, or `BodyOutOfRange` past the end |
| Body.BodiesIgnoreLaterBytes | src/io.rs:38 | neither body extractor reads past `L + 1` bytes |
| BytesBuf.BytesMut.Advance | src/io.rs:68 | the first `n` bytes are dropped and the rest kept |
| BytesBuf.BytesMut.ExtendFromSlice | src/io.rs:14 | the item is appended after the old contents |
| EslCodec.InboundResponse | src/io.rs:18-24 | the four messages: `Auth`, and `Reply`, `ApiResponse` and `EventJson`, each carrying its text |
| EslCodec.ContentLength | src/io.rs:73-74 | the length is present and parses iff `Ok`, and then it is the parsed value; otherwise `MissingContentLength` or `InvalidContentLength` |
| EslCodec.Decoding | src/io.rs:57-119 | what is left is a suffix of the buffer; only a message consumes bytes, always some, and `Auth`/`EventJson` consume all |
| EslCodec.Dispatch | src/io.rs:65-118 | the same guarantees as `Decoding`, once the header block is parsed |
| EslCodec.Decode | src/io.rs:57-119 | the method returns `Decoding`'s outcome and leaves the buffer as `Decoding`'s rest |
| EslCodec.Encode | src/io.rs:11-16 | the output buffer gains the item verbatim at its end |
| EslCodec.NoTerminatorNeedsMore | src/io.rs:59-62 | without `\n\n` the answer is "need more" and nothing is consumed |
| EslCodec.MessageNeedsTerminator | src/io.rs:59-62 | corollary of `Decoding`'s and `Find`'s contracts: a message is only produced once a blank line has arrived |
| EslCodec.ViaDispatch | src/io.rs:64-65 | once the header block parses, decoding is the dispatch on its headers |
| EslCodec.HeaderFailure | src/io.rs:64 | a header block that does not parse is the decoder's error and consumes nothing |
| EslCodec.AuthDrainsBuffer | src/io.rs:67-71 | `auth/request` yields `Auth` and empties the buffer |
| EslCodec.CommandReplyConsumesHeader | src/io.rs:87-92 | `command/reply` yields the header block's text and consumes exactly the block and the two line feeds |
| EslCodec.ApiResponseBody | src/io.rs:72-82 | `api/response`: short buffer → need more; `L = 0` → `BodyOutOfRange`; else body is bytes `i+2 .. i+L+1` (`L - 1` bytes) and exactly `i + 1 + L` bytes are consumed |
| EslCodec.ApiDispatch | src/io.rs:72-82 | the same three cases for the dispatch step |
| EslCodec.ApiBodySlice | src/io.rs:79 | the body taken from the header end on is the buffer slice `i+2 .. i+L+1` |
| EslCodec.EventJsonBody | src/io.rs:93-107 | `text/event-json`: short buffer → need more; else exactly the `L` bytes after the terminator are parsed, a rejection is `InvalidJson`, success renders the object and empties the buffer |
| EslCodec.JsonDispatch | src/io.rs:93-107 | the same cases for the dispatch step |
| EslCodec.ErrorCases | src/io.rs:65-118 | missing `Content-Type`, an unknown content type, a missing `Content-Length` and an unparsable one are each their own error |
| EslCodec.LineWithoutColonIsMalformed | src/io.rs:45-48 | any header line without `:` makes the whole frame `MalformedHeader` |
| EslCodec.LeadingLineFeedIsMalformed | src/io.rs:64 | a buffer starting with `\n` is `MalformedHeader` once a blank line is there |
| EslCodec.MoreBytesSameOutcome | src/io.rs:57-119 | once a buffer yields anything but "need more", appending bytes gives the same outcome and the same rest followed by the new bytes (or nothing, for `Auth`/`EventJson`) |
| EslCodec.DecodingMoreBytes | src/io.rs:57-119 | the same, for a buffer whose header end is known |
| EslCodec.DispatchMoreBytes | src/io.rs:65-118 | the same, for the dispatch step |
| EslCodec.HeaderOnlyMoreBytes | src/io.rs:87-91 | the same, for frames without a body |
| EslCodec.BodyFrameMoreBytes | src/io.rs:72-110 | the same, for frames with a body |
| EslCodec.ApiMoreBytes | src/io.rs:72-82 | proof step of `BodyFrameMoreBytes` for `api/response`, given the body facts `BodyMoreBytes` supplies |
| EslCodec.JsonMoreBytes | src/io.rs:93-107 | proof step of `BodyFrameMoreBytes` for `text/event-json`, given the JSON-text facts `BodyMoreBytes` supplies |
| EslCodec.BodyMoreBytes | src/io.rs:79-80 | a body complete in a buffer reads the same, and leaves the same rest, after more bytes arrive |

## Left out

- Logging (`debug!`, `info!`, `error!`, `println!`) has no effect on the result and is not modelled.
- The `tokio_util` `Decoder`/`Encoder` trait plumbing is left out. So are the `anyhow` and `io::Error` wrappers. The codec struct has no fields, so `Decode` and `Encode` are module-level methods.
- `serde_json::from_str` into a string map and the `{:?}` rendering of that map are not modelled. They are parameters (`Body.JsonLib`): the model fixes where the JSON text comes from and what happens to the parser's verdict, not the JSON grammar.
- `EslCodec.MoreBytesSameOutcome`: the `{:?}` rendering (`Body.JsonLib.debug`) is a function of the map here. In the source, each `HashMap` that `serde_json::from_str` builds has its own random hasher, so the keys of the same object can be rendered in a different order from one decode call to the next. For `text/event-json` the lemma therefore pins the parsed object and the buffer drain, not the exact rendered text.
- `EslCodec.EventJsonBody`: for the same reason, `EventJson(json.debug(object))` fixes which object is rendered, not the key order of the rendered text.
- `Base.Text`: `String::from_utf8_lossy` is modelled as a Latin-1 view. This is exact for ASCII. Replacement characters for invalid UTF-8 and multi-byte decoding are not modelled.
- `Str.IsWhitespace` covers the ASCII whitespace of `char::is_whitespace` only (tab to carriage return, and space). The Unicode spaces above 127 are not modelled.
- `EslCodec.Decoding`: `header_end + 1 + body_length` is computed on unbounded integers. The usize overflow a huge `Content-Length` could cause (a panic in debug builds, a wrap in release builds) is not modelled.
- `Usize.Parse` assumes a 64-bit target (`usize::MAX = 2^64 - 1`).
- Panics are modelled as error values (`DecodeError`). The model does not capture unwinding or the task abort a panic causes.
