/** Bytes, byte strings and optional values, shared by the XML reader and the message protocol. */
module Octets {
  type byte = x: int | 0 <= x < 256

  type bytes = seq<byte>

  const TWO_32 := 0x1_0000_0000

  datatype Option<+T> = None | Some(value: T)

  /** What `str.c_str()` shows to a reader of C strings: the bytes before the first NUL. */
  function CStr(s: bytes): (r: bytes)
    ensures r <= s && 0 !in r
    ensures r == s || s[|r|] == 0
  {
    if s == [] || s[0] == 0 then [] else
      var tail := CStr(s[1..]);
      assert s == [s[0]] + s[1..];
      [s[0]] + tail
  }

  /** The bytes of an ASCII string. */
  function Ascii(s: string): bytes
    requires forall i :: 0 <= i < |s| ==> s[i] as int < 128
  {
    seq(|s|, i requires 0 <= i < |s| => s[i] as int)
  }

  lemma CStrOfNulFree(s: bytes)
    requires 0 !in s
    ensures CStr(s) == s
  {}
}
