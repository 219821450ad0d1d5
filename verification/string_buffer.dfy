/** The in-place transforms of StringBuffer (string_buffer.h): URL
    encoding, base64 in both directions and the keyed hash. Their bodies
    are not part of this model, so they are injected as a `Codec` value;
    nothing is assumed about them beyond their signature. */
module StringBuffer {
  import opened CStrings

  /** One implementation of the four transforms. Each either yields the
      transformed bytes or fails (the buffer is then left as it was). */
  datatype Codec = Codec(
    urlEncode: seq<char> -> Option<seq<char>>,
    base64Encode: seq<char> -> Option<seq<char>>,
    base64Decode: seq<char> -> Option<seq<char>>,
    /** `hmac(key, message)` is the raw digest of `message` under `key`. */
    hmac: (seq<char>, seq<char>) -> Option<seq<char>>)

  /** The buffer content after a transform whose success flag the caller
      ignores: the transformed bytes, or the old content if it failed. */
  function Applied(transformed: Option<seq<char>>, before: seq<char>): seq<char>
  {
    match transformed
    case Some(t) => t
    case None => before
  }

  /** `StringBuffer x(s); x.urlEncode();` with the result ignored. */
  function UrlEncoded(codec: Codec, s: seq<char>): seq<char>
  {
    Applied(codec.urlEncode(s), s)
  }
}
