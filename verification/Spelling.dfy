// Text as the bytes of its ASCII characters, so that names and formats can be spelled out.
module Spelling {
  import opened Bytes

  function Ascii(s: string): (r: Bytes)
    ensures |r| == |s|
  {
    seq(|s|, i requires 0 <= i < |s| => s[i] as int % 256)
  }
}
