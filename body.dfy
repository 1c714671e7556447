/** The two body extractors (`parse_body`, src/io.rs:35-39, and
    `parse_json_body`, src/io.rs:122-126). Both receive the buffer from the
    header end on, whose first byte is the second line feed of the
    terminator, and they slice it differently. */
module Body {
  import opened Base

  type JsonObject = map<string, string>

  /** The JSON library the decoder calls, as parameters: `fromStr` is
      `serde_json::from_str` into a string-to-string map (None when the text
      is not such an object) and `debug` is the `{:?}` rendering of a map. */
  datatype JsonLib = JsonLib(fromStr: string -> Option<JsonObject>, debug: JsonObject -> string)

  /** `parse_body`: the slice `[2..length + 1]` of `src` as text. The slice
      exists only for `length >= 1` (otherwise start > end) and
      `length + 1 <= |src|`; outside that the source panics. */
  function ParseBody(src: seq<byte>, length: nat): (r: Result<string, DecodeError>)
    ensures r.Ok? <==> 1 <= length && length + 1 <= |src|
    ensures r.Err? ==> r.error == BodyOutOfRange
    ensures r.Ok? ==> |r.value| == length - 1
    ensures r.Ok? ==> forall k :: 0 <= k < length - 1 ==> r.value[k] as int == src[k + 2] as int
  {
    if 2 <= length + 1 <= |src| then Ok(Text(src[2..length + 1])) else Err(BodyOutOfRange)
  }

  /** The text `parse_json_body` hands to the JSON parser: the slice
      `[1..length + 1]` of `src`, `length` bytes right after the terminator. */
  function JsonText(src: seq<byte>, length: nat): (t: string)
    requires length + 1 <= |src|
    ensures |t| == length
    ensures forall k :: 0 <= k < length ==> t[k] as int == src[k + 1] as int
  {
    Text(src[1..length + 1])
  }

  /** `parse_json_body`: the parser's verdict on `JsonText`; a slice past the
      end is a panic in the source. */
  function ParseJsonBody(src: seq<byte>, length: nat, json: JsonLib): (r: Result<JsonObject, DecodeError>)
    ensures length + 1 > |src| ==> r == Err(BodyOutOfRange)
    ensures length + 1 <= |src| ==> (r.Ok? <==> json.fromStr(JsonText(src, length)).Some?)
    ensures r.Err? && length + 1 <= |src| ==> r.error == InvalidJson
    ensures r.Ok? ==> r.value == json.fromStr(JsonText(src, length)).value
  {
    if length + 1 > |src| then Err(BodyOutOfRange)
    else match json.fromStr(JsonText(src, length))
      case None => Err(InvalidJson)
      case Some(m) => Ok(m)
  }

  /** Both extractors read nothing beyond `length + 1` bytes of `src`. */
  lemma BodiesIgnoreLaterBytes(src: seq<byte>, more: seq<byte>, length: nat, json: JsonLib)
    requires length + 1 <= |src|
    ensures ParseBody(src + more, length) == ParseBody(src, length)
    ensures ParseJsonBody(src + more, length, json) == ParseJsonBody(src, length, json)
  {
    if length >= 1 {
      assert (src + more)[2..length + 1] == src[2..length + 1];
    }
    assert (src + more)[1..length + 1] == src[1..length + 1];
  }
}
