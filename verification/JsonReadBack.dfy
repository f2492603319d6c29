/** The serializer and the parser together. */
module JsonReadBack {
  import opened Wrappers
  import opened JsonText
  import opened JsonRoundTrip
  import opened JsonSerializer
  import opened JsonParser

  /**
   * Measure a value, write it to a buffer of that size and parse what the buffer holds: the same
   * value comes back exactly when it does not nest deeper than the parser allows.
   */
  method WriteAndParse<N(!new)>(v: Json<N>, escapeSlashes: bool, codec: Codec<N>) returns (r: Option<Json<N>>)
    requires GoodCodec(codec) && WellFormed(v)
    ensures r == if NestsWithin(v, 2048) then Some(v) else None
  {
    hide Print, ParseText;
    var size := SerializationSize(v, escapeSlashes, codec);
    var buf := new char[size];
    var ok := SerializeToBuffer(v, escapeSlashes, codec, buf);
    RoundTrip(v, Style(false, escapeSlashes), codec);
    r := ParseString(buf[..size - 1], codec);
  }
}
