/** The base64 engine of the text archive (`BASE64_STANDARD` of the base64
    crate). The crate is not part of this model: the engine is a parameter,
    and what the archive relies on is stated as the predicate Sound. */
module Base64 {
  import opened Wrappers
  import opened Bytes

  /** The standard alphabet of section 4 of RFC 4648, with '=' for padding. */
  predicate IsBase64Char(c: char) {
    ('A' <= c <= 'Z') || ('a' <= c <= 'z') || ('0' <= c <= '9') || c == '+' || c == '/' || c == '='
  }

  predicate IsBase64Text(s: string) {
    forall i :: 0 <= i < |s| ==> IsBase64Char(s[i])
  }

  /** An encoder and a decoder; decoding fails (None) on text that is not
      base64. */
  datatype Engine = Engine(encode: seq<byte> -> string, decode: string -> Option<seq<byte>>)

  /** What the archive needs of the engine: encodings use only the alphabet,
      and decoding an encoding gives the bytes back. */
  ghost predicate Sound(e: Engine) {
    (forall b :: IsBase64Text(e.encode(b)))
    && (forall b :: e.decode(e.encode(b)) == Some(b))
  }

  /** None of the archive's delimiters occurs in base64 text. */
  lemma NoDelimiters(s: string)
    requires IsBase64Text(s)
    ensures '<' !in s && '>' !in s && ':' !in s && '&' !in s
  {
    forall i | 0 <= i < |s|
      ensures s[i] != '<' && s[i] != '>' && s[i] != ':' && s[i] != '&'
    {
      assert IsBase64Char(s[i]);
    }
  }
}
