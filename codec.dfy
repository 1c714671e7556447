/** The event-socket codec (`EslCodec`, src/io.rs): a decoder that turns the
    front of an accumulated byte buffer into at most one `InboundResponse`
    per call, and an encoder that appends raw bytes to the outgoing buffer.

    `Decoding` is the decoder as a function of the buffer contents: what it
    returns and what is left of the buffer. The method `Decode` does the same
    work step by step on a `BytesMut` and is proved to agree with it; the
    lemmas below state what the source promises about `Decoding`. */
module EslCodec {
  import opened Base
  import opened HeaderEnd
  import opened Header
  import opened Body
  import Usize
  import opened BytesBuf

  /** The decoded message (`enum InboundResponse`, src/io.rs:18-24). */
  datatype InboundResponse =
    | Auth
    | Reply(text: string)
    | ApiResponse(body: string)
    | EventJson(rendered: string)

  /** What one decode call yields: `Ok(None)`, `Ok(Some(item))` or an error. */
  datatype Decoded = NeedMore | Msg(response: InboundResponse) | Fail(error: DecodeError)

  /** The outcome of a decode call and the buffer it leaves behind. */
  datatype Step = Step(outcome: Decoded, rest: seq<byte>)

  const CONTENT_TYPE: string := "Content-Type"
  const CONTENT_LENGTH: string := "Content-Length"
  const AUTH_REQUEST: string := "auth/request"
  const API_RESPONSE: string := "api/response"
  const COMMAND_REPLY: string := "command/reply"
  const EVENT_JSON: string := "text/event-json"

  /** The four content types are different strings. */
  lemma ContentTypesDistinct()
    ensures AUTH_REQUEST != API_RESPONSE && AUTH_REQUEST != COMMAND_REPLY && AUTH_REQUEST != EVENT_JSON
    ensures API_RESPONSE != COMMAND_REPLY && API_RESPONSE != EVENT_JSON && COMMAND_REPLY != EVENT_JSON
  {
    assert AUTH_REQUEST[1] != API_RESPONSE[1];
    assert |AUTH_REQUEST| != |COMMAND_REPLY| && |AUTH_REQUEST| != |EVENT_JSON|;
    assert |API_RESPONSE| != |COMMAND_REPLY| && |API_RESPONSE| != |EVENT_JSON|;
    assert |COMMAND_REPLY| != |EVENT_JSON|;
  }

  /** The messages after which the decoder empties the whole buffer. */
  predicate Drains(m: InboundResponse) {
    m.Auth? || m.EventJson?
  }

  /** The declared body length: a missing header and a value that is not a
      usize are both errors. */
  function ContentLength(headers: Headers): (r: Result<nat, DecodeError>)
    ensures r.Ok? <==> CONTENT_LENGTH in headers && Usize.Parse(headers[CONTENT_LENGTH]).Some?
    ensures r.Ok? ==> r.value <= Usize.MAX && r.value == Usize.Parse(headers[CONTENT_LENGTH]).value
    ensures r.Err? ==> r.error == (if CONTENT_LENGTH in headers then InvalidContentLength else MissingContentLength)
  {
    if CONTENT_LENGTH !in headers then Err(MissingContentLength)
    else match Usize.Parse(headers[CONTENT_LENGTH])
      case None => Err(InvalidContentLength)
      case Some(n) => Ok(n)
  }

  /** The decoder on buffer `buf`. Whatever happens, what is left is a suffix
      of `buf`: the decoder never adds or reorders bytes. Only a message
      consumes bytes, and it always consumes some. */
  function Decoding(buf: seq<byte>, json: JsonLib): (s: Step)
    ensures IsSuffix(s.rest, buf)
    ensures !s.outcome.Msg? ==> s.rest == buf
    ensures s.outcome.Msg? ==> Find(buf).Some? && |s.rest| < |buf|
    ensures s.outcome.Msg? && Drains(s.outcome.response) ==> s.rest == []
  {
    match Find(buf)
    case None => Step(NeedMore, buf)
    case Some(i) =>
      match Header.Parse(buf[..i - 1])
      case Err(e) => Step(Fail(e), buf)
      case Ok(headers) => Dispatch(buf, i, headers, json)
  }

  /** The dispatch on `Content-Type` once the header block ending at `i`
      has been parsed into `headers`. */
  function Dispatch(buf: seq<byte>, i: nat, headers: Headers, json: JsonLib): (s: Step)
    requires Find(buf) == Some(i)
    ensures IsSuffix(s.rest, buf)
    ensures !s.outcome.Msg? ==> s.rest == buf
    ensures s.outcome.Msg? ==> |s.rest| < |buf|
    ensures s.outcome.Msg? && Drains(s.outcome.response) ==> s.rest == []
  {
    if CONTENT_TYPE !in headers then Step(Fail(MissingContentType), buf)
    else
      var contentType := headers[CONTENT_TYPE];
      if contentType == AUTH_REQUEST then Step(Msg(Auth), [])
      else if contentType == API_RESPONSE then
        match ContentLength(headers)
        case Err(e) => Step(Fail(e), buf)
        case Ok(length) =>
          if |buf| < i + 1 + length then Step(NeedMore, buf)
          else match ParseBody(buf[i..], length)
            case Err(e) => Step(Fail(e), buf)
            case Ok(body) => Step(Msg(ApiResponse(body)), buf[i + 1 + length..])
      else if contentType == COMMAND_REPLY then
        Step(Msg(Reply(Text(buf[..i - 1]))), buf[i + 1..])
      else if contentType == EVENT_JSON then
        match ContentLength(headers)
        case Err(e) => Step(Fail(e), buf)
        case Ok(length) =>
          if |buf| < i + 1 + length then Step(NeedMore, buf)
          else match ParseJsonBody(buf[i..], length, json)
            case Err(e) => Step(Fail(e), buf)
            case Ok(fields) => Step(Msg(EventJson(json.debug(fields))), [])
      else Step(Fail(UnrecognizedContentType), buf)
  }

  /** `EslCodec::decode` (src/io.rs:57-119): scans for the header end, parses
      the header block, dispatches on `Content-Type` and advances `src` past
      what the message used. */
  method Decode(src: BytesMut, json: JsonLib) returns (r: Decoded)
    modifies src
    ensures r == Decoding(old(src.data), json).outcome
    ensures src.data == Decoding(old(src.data), json).rest
  {
    ContentTypesDistinct();
    var headerEnd := GetHeaderEnd(src.data);
    if headerEnd.None? {
      return NeedMore;
    }
    var i := headerEnd.value;
    var parsed := ParseHeader(src.data[..i - 1]);
    if parsed.Err? {
      return Fail(parsed.error);
    }
    var headers := parsed.value;
    ViaDispatch(src.data, i, headers, json);
    if CONTENT_TYPE in headers {
      var contentType := headers[CONTENT_TYPE];
      if contentType == AUTH_REQUEST {
        src.Advance(|src.data|);
        return Msg(Auth);
      } else if contentType == API_RESPONSE {
        if CONTENT_LENGTH in headers {
          var length := Usize.Parse(headers[CONTENT_LENGTH]);
          if length.None? {
            return Fail(InvalidContentLength);
          }
          if |src.data| < i + 1 + length.value {
            return NeedMore;
          }
          var body := ParseBody(src.data[i..], length.value);
          if body.Err? {
            return Fail(body.error);
          }
          src.Advance(i + 1 + length.value);
          return Msg(ApiResponse(body.value));
        } else {
          return Fail(MissingContentLength);
        }
      } else if contentType == COMMAND_REPLY {
        var response := Text(src.data[..i - 1]);
        src.Advance(i + 1);
        return Msg(Reply(response));
      } else if contentType == EVENT_JSON {
        if CONTENT_LENGTH in headers {
          var length := Usize.Parse(headers[CONTENT_LENGTH]);
          if length.None? {
            return Fail(InvalidContentLength);
          }
          if |src.data| < i + 1 + length.value {
            return NeedMore;
          }
          var fields := ParseJsonBody(src.data[i..], length.value, json);
          if fields.Err? {
            return Fail(fields.error);
          }
          var rendered := json.debug(fields.value);
          src.Advance(|src.data|);
          return Msg(EventJson(rendered));
        } else {
          return Fail(MissingContentLength);
        }
      } else {
        return Fail(UnrecognizedContentType);
      }
    }
    return Fail(MissingContentType);
  }

  /** `EslCodec::encode` (src/io.rs:13-16): the item goes out verbatim. */
  method Encode(item: seq<byte>, dst: BytesMut)
    modifies dst
    ensures dst.data == old(dst.data) + item
  {
    dst.ExtendFromSlice(item);
  }

  // ---------------------------------------------------------------------
  // What the decoder promises, stated over `Decoding`.

  /** Without a blank line there is nothing to decode yet, and nothing is consumed. */
  lemma NoTerminatorNeedsMore(buf: seq<byte>, json: JsonLib)
    requires forall j :: 0 <= j < |buf| ==> !IsTerminator(buf, j)
    ensures Decoding(buf, json) == Step(NeedMore, buf)
  {
    assert Find(buf).None?;
  }

  /** A message is only produced once a blank line has arrived. */
  lemma MessageNeedsTerminator(buf: seq<byte>, json: JsonLib)
    requires Decoding(buf, json).outcome.Msg?
    ensures exists j :: IsTerminator(buf, j)
  {
  }

  /** `auth/request` empties the whole buffer, bytes of later frames included. */
  lemma AuthDrainsBuffer(buf: seq<byte>, json: JsonLib, i: nat, headers: Headers)
    requires Find(buf) == Some(i) && Header.Parse(buf[..i - 1]) == Ok(headers)
    requires CONTENT_TYPE in headers && headers[CONTENT_TYPE] == AUTH_REQUEST
    ensures Decoding(buf, json) == Step(Msg(Auth), [])
  {
  }

  /** `command/reply`: the reply is the header block's own text, and exactly
      the block and its two terminating line feeds are consumed. */
  lemma CommandReplyConsumesHeader(buf: seq<byte>, json: JsonLib, i: nat, headers: Headers)
    requires Find(buf) == Some(i) && Header.Parse(buf[..i - 1]) == Ok(headers)
    requires CONTENT_TYPE in headers && headers[CONTENT_TYPE] == COMMAND_REPLY
    ensures var s := Decoding(buf, json);
      && s.outcome == Msg(Reply(Text(buf[..i - 1])))
      && buf == buf[..i - 1] + [NL, NL] + s.rest
      && |s.rest| == |buf| - (i + 1)
  {
    FindSplitsBuffer(buf, i);
  }

  /** `api/response` with length `L`: too few bytes means wait, `L = 0` is an
      error, and otherwise the payload is the `L - 1` bytes after the first
      body byte, and exactly the header, the blank line and `L` body bytes
      are consumed. */
  lemma ApiResponseBody(buf: seq<byte>, json: JsonLib, i: nat, headers: Headers, length: nat)
    requires Find(buf) == Some(i) && Header.Parse(buf[..i - 1]) == Ok(headers)
    requires CONTENT_TYPE in headers && headers[CONTENT_TYPE] == API_RESPONSE
    requires CONTENT_LENGTH in headers && Usize.Parse(headers[CONTENT_LENGTH]) == Some(length)
    ensures |buf| < i + 1 + length ==> Decoding(buf, json) == Step(NeedMore, buf)
    ensures |buf| >= i + 1 + length && length == 0 ==> Decoding(buf, json) == Step(Fail(BodyOutOfRange), buf)
    ensures |buf| >= i + 1 + length && length >= 1 ==>
      && Decoding(buf, json) == Step(Msg(ApiResponse(Text(buf[i + 2..i + 1 + length]))), buf[i + 1 + length..])
      && |Text(buf[i + 2..i + 1 + length])| == length - 1
  {
    ViaDispatch(buf, i, headers, json);
    ApiDispatch(buf, i, headers, length, json);
  }

  lemma ApiDispatch(buf: seq<byte>, i: nat, headers: Headers, length: nat, json: JsonLib)
    requires Find(buf) == Some(i)
    requires CONTENT_TYPE in headers && headers[CONTENT_TYPE] == API_RESPONSE
    requires CONTENT_LENGTH in headers && Usize.Parse(headers[CONTENT_LENGTH]) == Some(length)
    ensures |buf| < i + 1 + length ==> Dispatch(buf, i, headers, json) == Step(NeedMore, buf)
    ensures |buf| >= i + 1 + length && length == 0 ==> Dispatch(buf, i, headers, json) == Step(Fail(BodyOutOfRange), buf)
    ensures |buf| >= i + 1 + length && length >= 1 ==>
      Dispatch(buf, i, headers, json) == Step(Msg(ApiResponse(Text(buf[i + 2..i + 1 + length]))), buf[i + 1 + length..])
  {
    ContentTypesDistinct();
    assert ContentLength(headers) == Ok(length);
    if |buf| >= i + 1 + length && length >= 1 {
      ApiBodySlice(buf, i, length);
    }
  }

  lemma ApiBodySlice(buf: seq<byte>, i: nat, length: nat)
    requires 1 <= length && i + 1 + length <= |buf|
    ensures ParseBody(buf[i..], length) == Ok(Text(buf[i + 2..i + 1 + length]))
  {
    assert buf[i..][2..length + 1] == buf[i + 2..i + 1 + length];
  }

  /** `text/event-json` with length `L`: too few bytes means wait; otherwise
      exactly the `L` bytes after the terminator go to the JSON parser, its
      failure is the decoder's failure, and on success the rendered object is
      returned and the whole buffer is emptied. */
  lemma EventJsonBody(buf: seq<byte>, json: JsonLib, i: nat, headers: Headers, length: nat)
    requires Find(buf) == Some(i) && Header.Parse(buf[..i - 1]) == Ok(headers)
    requires CONTENT_TYPE in headers && headers[CONTENT_TYPE] == EVENT_JSON
    requires CONTENT_LENGTH in headers && Usize.Parse(headers[CONTENT_LENGTH]) == Some(length)
    ensures |buf| < i + 1 + length ==> Decoding(buf, json) == Step(NeedMore, buf)
    ensures |buf| >= i + 1 + length ==>
      var parsed := json.fromStr(Text(buf[i + 1..i + 1 + length]));
      && (parsed.None? ==> Decoding(buf, json) == Step(Fail(InvalidJson), buf))
      && (parsed.Some? ==> Decoding(buf, json) == Step(Msg(EventJson(json.debug(parsed.value))), []))
  {
    ViaDispatch(buf, i, headers, json);
    JsonDispatch(buf, i, headers, length, json);
  }

  lemma JsonDispatch(buf: seq<byte>, i: nat, headers: Headers, length: nat, json: JsonLib)
    requires Find(buf) == Some(i)
    requires CONTENT_TYPE in headers && headers[CONTENT_TYPE] == EVENT_JSON
    requires CONTENT_LENGTH in headers && Usize.Parse(headers[CONTENT_LENGTH]) == Some(length)
    ensures |buf| < i + 1 + length ==> Dispatch(buf, i, headers, json) == Step(NeedMore, buf)
    ensures |buf| >= i + 1 + length ==>
      var parsed := json.fromStr(Text(buf[i + 1..i + 1 + length]));
      && (parsed.None? ==> Dispatch(buf, i, headers, json) == Step(Fail(InvalidJson), buf))
      && (parsed.Some? ==> Dispatch(buf, i, headers, json) == Step(Msg(EventJson(json.debug(parsed.value))), []))
  {
    ContentTypesDistinct();
    assert ContentLength(headers) == Ok(length);
    if |buf| >= i + 1 + length {
      assert buf[i..][1..length + 1] == buf[i + 1..i + 1 + length];
    }
  }

  /** The inputs that are errors and never a message. */
  lemma ErrorCases(buf: seq<byte>, json: JsonLib, i: nat, headers: Headers)
    requires Find(buf) == Some(i) && Header.Parse(buf[..i - 1]) == Ok(headers)
    ensures CONTENT_TYPE !in headers ==> Decoding(buf, json) == Step(Fail(MissingContentType), buf)
    ensures CONTENT_TYPE in headers && headers[CONTENT_TYPE] !in {AUTH_REQUEST, API_RESPONSE, COMMAND_REPLY, EVENT_JSON} ==>
      Decoding(buf, json) == Step(Fail(UnrecognizedContentType), buf)
    ensures CONTENT_TYPE in headers && headers[CONTENT_TYPE] in {API_RESPONSE, EVENT_JSON} && CONTENT_LENGTH !in headers ==>
      Decoding(buf, json) == Step(Fail(MissingContentLength), buf)
    ensures (CONTENT_TYPE in headers && headers[CONTENT_TYPE] in {API_RESPONSE, EVENT_JSON}
             && CONTENT_LENGTH in headers && Usize.Parse(headers[CONTENT_LENGTH]).None?) ==>
      Decoding(buf, json) == Step(Fail(InvalidContentLength), buf)
  {
  }

  /** A header line without ':' makes the whole frame an error, whatever the
      other lines say. */
  lemma LineWithoutColonIsMalformed(buf: seq<byte>, json: JsonLib, i: nat, k: nat)
    requires Find(buf) == Some(i)
    requires k < |Lines(buf[..i - 1])| && ':' !in Lines(buf[..i - 1])[k]
    ensures Decoding(buf, json) == Step(Fail(MalformedHeader), buf)
  {
    var lines := Lines(buf[..i - 1]);
    ParseLineMeaning(lines[k]);
    InsertFailsIffMalformed(lines, map[]);
  }

  /** A buffer that starts with a line feed has an empty first header line
      (or an empty header block), which is an error once a blank line is there. */
  lemma LeadingLineFeedIsMalformed(buf: seq<byte>, json: JsonLib)
    requires |buf| > 0 && buf[0] == NL && Find(buf).Some?
    ensures Decoding(buf, json) == Step(Fail(MalformedHeader), buf)
  {
    var i := Find(buf).value;
    EmptyFirstLineIsMalformed(buf[..i - 1]);
  }

  /** Chunking does not matter: once a buffer yields anything but "need
      more", appending further bytes yields the same outcome, and the bytes
      left over are the same ones followed by the new bytes (or nothing, for
      the two draining messages). So a driver that retries on "need more"
      sees the same message however the frame was split into chunks. */
  lemma MoreBytesSameOutcome(p: seq<byte>, q: seq<byte>, json: JsonLib)
    requires !Decoding(p, json).outcome.NeedMore?
    ensures Decoding(p + q, json).outcome == Decoding(p, json).outcome
    ensures var s := Decoding(p, json);
      Decoding(p + q, json).rest == if s.outcome.Msg? && Drains(s.outcome.response) then [] else s.rest + q
  {
    var i := Find(p).value;
    FindExtend(p, q);
    DecodingMoreBytes(p, q, i, json);
  }

  lemma DecodingMoreBytes(p: seq<byte>, q: seq<byte>, i: nat, json: JsonLib)
    requires Find(p) == Some(i) && Find(p + q) == Some(i)
    requires !Decoding(p, json).outcome.NeedMore?
    ensures Extends(Decoding(p, json), Decoding(p + q, json), q)
  {
    AppendSlices(p, q, i - 1);
    var parsed := Header.Parse(p[..i - 1]);
    if parsed.Err? {
      HeaderFailure(p, i, json);
      HeaderFailure(p + q, i, json);
    } else {
      ViaDispatch(p, i, parsed.value, json);
      ViaDispatch(p + q, i, parsed.value, json);
      DispatchMoreBytes(p, q, i, parsed.value, json);
    }
  }

  /** A header block that does not parse is the decoder's error. */
  lemma HeaderFailure(buf: seq<byte>, i: nat, json: JsonLib)
    requires Find(buf) == Some(i) && Header.Parse(buf[..i - 1]).Err?
    ensures Decoding(buf, json) == Step(Fail(Header.Parse(buf[..i - 1]).error), buf)
  {
  }

  /** `t`, the step taken on a buffer with `q` appended, agrees with `s`. */
  predicate Extends(s: Step, t: Step, q: seq<byte>) {
    && t.outcome == s.outcome
    && t.rest == if s.outcome.Msg? && Drains(s.outcome.response) then [] else s.rest + q
  }

  /** Once the header block has parsed, the decoder is the dispatch. */
  lemma ViaDispatch(buf: seq<byte>, i: nat, headers: Headers, json: JsonLib)
    requires Find(buf) == Some(i) && Header.Parse(buf[..i - 1]) == Ok(headers)
    ensures Decoding(buf, json) == Dispatch(buf, i, headers, json)
  {
  }

  lemma DispatchMoreBytes(p: seq<byte>, q: seq<byte>, i: nat, headers: Headers, json: JsonLib)
    requires Find(p) == Some(i) && Find(p + q) == Some(i)
    requires !Dispatch(p, i, headers, json).outcome.NeedMore?
    ensures Extends(Dispatch(p, i, headers, json), Dispatch(p + q, i, headers, json), q)
  {
    if CONTENT_TYPE !in headers || headers[CONTENT_TYPE] !in {API_RESPONSE, EVENT_JSON} {
      HeaderOnlyMoreBytes(p, q, i, headers, json);
    } else {
      BodyFrameMoreBytes(p, q, i, headers, json);
    }
  }

  lemma HeaderOnlyMoreBytes(p: seq<byte>, q: seq<byte>, i: nat, headers: Headers, json: JsonLib)
    requires Find(p) == Some(i) && Find(p + q) == Some(i)
    requires CONTENT_TYPE !in headers || headers[CONTENT_TYPE] !in {API_RESPONSE, EVENT_JSON}
    ensures Extends(Dispatch(p, i, headers, json), Dispatch(p + q, i, headers, json), q)
  {
    AppendSlices(p, q, i - 1);
    AppendSlices(p, q, i + 1);
  }

  lemma BodyFrameMoreBytes(p: seq<byte>, q: seq<byte>, i: nat, headers: Headers, json: JsonLib)
    requires Find(p) == Some(i) && Find(p + q) == Some(i)
    requires CONTENT_TYPE in headers && headers[CONTENT_TYPE] in {API_RESPONSE, EVENT_JSON}
    requires !Dispatch(p, i, headers, json).outcome.NeedMore?
    ensures Extends(Dispatch(p, i, headers, json), Dispatch(p + q, i, headers, json), q)
  {
    ContentTypesDistinct();
    if ContentLength(headers).Ok? {
      var length := ContentLength(headers).value;
      assert i + 1 + length <= |p|;
      BodyMoreBytes(p, q, i, length, json);
      if headers[CONTENT_TYPE] == API_RESPONSE {
        ApiMoreBytes(p, q, i, headers, length, json);
      } else {
        JsonMoreBytes(p, q, i, headers, length, json);
      }
    }
  }

  lemma ApiMoreBytes(p: seq<byte>, q: seq<byte>, i: nat, headers: Headers, length: nat, json: JsonLib)
    requires Find(p) == Some(i) && Find(p + q) == Some(i)
    requires CONTENT_TYPE in headers && headers[CONTENT_TYPE] == API_RESPONSE
    requires ContentLength(headers) == Ok(length) && i + 1 + length <= |p|
    requires ParseBody((p + q)[i..], length) == ParseBody(p[i..], length)
    requires (p + q)[i + 1 + length..] == p[i + 1 + length..] + q
    ensures Extends(Dispatch(p, i, headers, json), Dispatch(p + q, i, headers, json), q)
  {
    ContentTypesDistinct();
  }

  lemma JsonMoreBytes(p: seq<byte>, q: seq<byte>, i: nat, headers: Headers, length: nat, json: JsonLib)
    requires Find(p) == Some(i) && Find(p + q) == Some(i)
    requires CONTENT_TYPE in headers && headers[CONTENT_TYPE] == EVENT_JSON
    requires ContentLength(headers) == Ok(length) && i + 1 + length <= |p|
    requires ParseJsonBody((p + q)[i..], length, json) == ParseJsonBody(p[i..], length, json)
    ensures Extends(Dispatch(p, i, headers, json), Dispatch(p + q, i, headers, json), q)
  {
    ContentTypesDistinct();
  }

  /** The body of a frame that is complete in `p` reads the same from `p + q`. */
  lemma BodyMoreBytes(p: seq<byte>, q: seq<byte>, i: nat, length: nat, json: JsonLib)
    requires i + 1 + length <= |p|
    ensures ParseBody((p + q)[i..], length) == ParseBody(p[i..], length)
    ensures ParseJsonBody((p + q)[i..], length, json) == ParseJsonBody(p[i..], length, json)
    ensures (p + q)[i + 1 + length..] == p[i + 1 + length..] + q
  {
    AppendSlices(p, q, i);
    AppendSlices(p, q, i + 1 + length);
    BodiesIgnoreLaterBytes(p[i..], q, length, json);
  }

  lemma AppendSlices<T>(p: seq<T>, q: seq<T>, k: nat)
    requires k <= |p|
    ensures (p + q)[..k] == p[..k]
    ensures (p + q)[k..] == p[k..] + q
  {
  }
}
