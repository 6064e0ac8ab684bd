/** Bulk conversion of strutils.h applied to text produced by an encoder. */
module Utf8RoundTrip {
  import opened Utf8Char
  import opened Utf8Walk
  import opened Utf8Encoding
  import opened Utf8Scan

  /** Converting the concatenation of encodable characters with utf8_to_wstr, into a
      buffer with room for all of them, writes exactly their values and reports their
      number. */
  method ConvertEncoded(cs: seq<Encoded>, buf: array<nat>) returns (r: Option<nat>)
    requires AllEncodable(cs) && |cs| <= buf.Length
    modifies buf
    ensures r == Some(|cs|) && buf[..|cs|] == Points(cs)
  {
    FlattenDecodes(cs);
    r := ToWstr(Flatten(cs), buf, buf.Length);
  }
}
