/** Basic vocabulary of the event-socket codec: bytes, the byte-to-text view,
    Option/Result, and the decoder's error taxonomy. */
module Base {

  /** One octet of the inbound or outbound byte stream. */
  newtype byte = b: int | 0 <= b < 256

  /** The line-feed byte that separates header lines and, doubled, ends a header block. */
  const NL: byte := 10

  datatype Option<+T> = None | Some(value: T)

  datatype Result<+T, +E> = Ok(value: T) | Err(error: E)

  /** The failures of one decode attempt. Each replaces a `panic!`, an `unwrap`
      or a `?` of src/io.rs by a value the caller can inspect. */
  datatype DecodeError =
    | MalformedHeader          // a header line without ':' (the second `unwrap` in parse_header)
    | MissingContentType       // no `Content-Type` header at all
    | UnrecognizedContentType  // a `Content-Type` value outside the four known ones
    | MissingContentLength     // api/response or text/event-json without `Content-Length`
    | InvalidContentLength     // `Content-Length` is not an unsigned decimal that fits a usize
    | BodyOutOfRange           // the body slice has start > end or end > length (a slice panic)
    | InvalidJson              // the JSON parser rejected the event body

  /** The text that `String::from_utf8_lossy` makes of the bytes, read as
      Latin-1: every byte becomes the character with the same code. For
      ASCII input this is exactly what the source computes. */
  function Text(b: seq<byte>): (s: string)
    ensures |s| == |b|
    ensures forall k :: 0 <= k < |b| ==> s[k] as int == b[k] as int
  {
    seq(|b|, k requires 0 <= k < |b| => b[k] as char)
  }

  /** `t` is what is left of `s` after some bytes were removed from its front. */
  predicate IsSuffix<T(==)>(t: seq<T>, s: seq<T>) {
    |t| <= |s| && t == s[|s| - |t|..]
  }
}
