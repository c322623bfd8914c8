/**
 UTF-8 in the XML reader: the encoder, the table of lengths by lead byte, and characters read in that encoding,
 against section 3 and the syntax in section 4 of RFC 3629.
 */
module XmlUtf8 {
  import opened Octets
  import opened XmlBytes
  import opened XmlScanner

  // ------------------------------------------------------------------ the encoder

  /** What ConvertUTF32ToUTF8 writes. */
  function Utf8(u: nat): (r: bytes)
    ensures |r| <= 4
    ensures r != [] <==> u < 0x200000
  {
    if u < 0x80 then [u]
    else if u < 0x800 then [0xC0 + u / 64, 0x80 + u % 64]
    else if u < 0x10000 then [0xE0 + u / 64 / 64, 0x80 + u / 64 % 64, 0x80 + u % 64]
    else if u < 0x200000 then [0xF0 + u / 64 / 64 / 64, 0x80 + u / 64 / 64 % 64, 0x80 + u / 64 % 64, 0x80 + u % 64]
    else []
  }

  /** `(char)((input | BYTE_MARK) & BYTE_MASK)`: the low six bits under a 10 mark, as TailBits says. */
  function Continuation(input: nat): byte {
    0x80 + input % 64
  }

  lemma TailBits(low: bv8)
    ensures ((low | 0x80) & 0xBF) as int == Continuation(low as int)
  {}

  /** `(char)(input | FIRST_BYTE_MARK[length])`, as LeadBits says. */
  function Lead(input: nat, length: nat): byte
    requires 1 <= length <= 4
    requires input < match length case 1 => 0x80 case 2 => 0x20 case 3 => 0x10 case _ => 0x08
  {
    input + match length case 1 => 0 case 2 => 0xC0 case 3 => 0xE0 case _ => 0xF0
  }

  lemma LeadBits(b: bv8)
    ensures b < 0x80 ==> (b | 0x00) as int == Lead(b as int, 1)
    ensures b < 0x20 ==> (b | 0xC0) as int == Lead(b as int, 2)
    ensures b < 0x10 ==> (b | 0xE0) as int == Lead(b as int, 3)
    ensures b < 0x08 ==> (b | 0xF0) as int == Lead(b as int, 4)
  {}

  method ConvertUTF32ToUTF8(input: nat, output: array<byte>) returns (length: nat)
    requires output.Length >= 4
    modifies output
    ensures length == |Utf8(input)| && output[..length] == Utf8(input)
    ensures output[length..] == old(output[length..])
  {
    if input < 0x80 {
      length := 1;
    } else if input < 0x800 {
      length := 2;
    } else if input < 0x10000 {
      length := 3;
    } else if input < 0x200000 {
      length := 4;
    } else {
      return 0;
    }
    var at, u := length, input;
    if length == 4 {
      at := at - 1;
      output[at] := Continuation(u);
      u := u / 64;
    }
    if length >= 3 {
      at := at - 1;
      output[at] := Continuation(u);
      u := u / 64;
    }
    if length >= 2 {
      at := at - 1;
      output[at] := Continuation(u);
      u := u / 64;
    }
    at := at - 1;
    output[at] := Lead(u, length);
  }

  // ------------------------------------------------------------------ the standard

  predicate Tail(b: byte) {
    0x80 <= b <= 0xBF
  }

  /** UTF8-char of section 4 of RFC 3629: no overlong forms, no surrogates, nothing beyond 0x10FFFF. */
  predicate WellFormed(s: bytes) {
    match |s|
    case 1 => s[0] <= 0x7F
    case 2 => 0xC2 <= s[0] <= 0xDF && Tail(s[1])
    case 3 =>
      && Tail(s[2])
      && if s[0] == 0xE0 then 0xA0 <= s[1] <= 0xBF
         else if s[0] == 0xED then 0x80 <= s[1] <= 0x9F
         else (0xE1 <= s[0] <= 0xEC || 0xEE <= s[0] <= 0xEF) && Tail(s[1])
    case 4 =>
      && Tail(s[2]) && Tail(s[3])
      && if s[0] == 0xF0 then 0x90 <= s[1] <= 0xBF
         else if s[0] == 0xF4 then 0x80 <= s[1] <= 0x8F
         else 0xF1 <= s[0] <= 0xF3 && Tail(s[1])
    case _ => false
  }

  /** Section 3 of RFC 3629: the bits marked x of each octet, put together. */
  function Decode(s: bytes): (u: int)
    requires WellFormed(s)
  {
    match |s|
    case 1 => s[0]
    case 2 => Join(s[0] as int - 0xC0, s[1])
    case 3 => Join(Join(s[0] as int - 0xE0, s[1]), s[2])
    case _ => Join(Join(Join(s[0] as int - 0xF0, s[1]), s[2]), s[3])
  }

  /** Six more bits. */
  function Join(u: int, tail: byte): int {
    u * 64 + (tail as int - 0x80)
  }

  /** The table of section 3, octet by octet: the bits that the marks leave, in order. */
  lemma BitsInOrder(s: bytes)
    requires WellFormed(s)
    ensures |s| == 2 ==> Decode(s) == 0x40 * (s[0] as int % 0x20) + s[1] as int % 0x40
    ensures |s| == 3 ==> Decode(s) == 0x1000 * (s[0] as int % 0x10) + 0x40 * (s[1] as int % 0x40) + s[2] as int % 0x40
    ensures |s| == 4 ==>
              Decode(s) == 0x40000 * (s[0] as int % 8) + 0x1000 * (s[1] as int % 0x40) + 0x40 * (s[2] as int % 0x40) + s[3] as int % 0x40
    ensures Utf8(0xE9) == [0xC3, 0xA9] && Utf8(0x20AC) == [0xE2, 0x82, 0xAC] && Utf8(0x10348) == [0xF0, 0x90, 0x8D, 0x88]
  {}

  lemma JoinSplits(u: nat, tail: byte)
    requires Tail(tail)
    ensures Join(u, tail) / 64 == u && 0x80 + Join(u, tail) % 64 == tail
  {}

  predicate IsScalar(u: int) {
    0 <= u <= 0x10FFFF && !(0xD800 <= u <= 0xDFFF)
  }

  lemma SplitJoins(u: nat)
    ensures Tail(0x80 + u % 64) && Join(u / 64, 0x80 + u % 64) == u
  {}

  /** The encoder's output is well-formed exactly for scalar values, and decodes to what went in. */
  lemma EncodedIsWellFormed(u: nat)
    ensures WellFormed(Utf8(u)) <==> IsScalar(u)
    ensures IsScalar(u) ==> Decode(Utf8(u)) == u
  {
    hide Join;
    SplitJoins(u);
    SplitJoins(u / 64);
    SplitJoins(u / 64 / 64);
    Magnitudes(u);
  }

  /** Where the boundaries lie in terms of the leading digits to base 64. */
  lemma Magnitudes(u: nat)
    ensures var v, w, x := u / 64, u / 64 / 64, u / 64 / 64 / 64;
            && (u < 0x800 <==> v < 0x20) && (u < 0x80 <==> v < 2)
            && (u < 0x10000 <==> w < 0x10) && (v < 0x20 <==> w == 0 && v % 64 < 0x20)
            && (0xD800 <= u <= 0xDFFF <==> w == 0xD && v % 64 >= 0x20)
            && (u < 0x200000 <==> x < 8) && (u <= 0x10FFFF <==> x < 4 || (x == 4 && w % 64 < 0x10))
            && (w < 0x10 <==> x == 0 && w % 64 < 0x10)
  {}

  /** Every well-formed sequence is what the encoder makes of the scalar value it decodes to. */
  lemma DecodedIsScalar(s: bytes)
    requires WellFormed(s)
    ensures IsScalar(Decode(s)) && Utf8(Decode(s)) == s
  {
    match |s|
    case 1 =>
    case 2 => JoinSplits(s[0] - 0xC0, s[1]);
    case 3 => ThreeBack(s);
    case _ => FourBack(s);
  }

  lemma ThreeBack(s: bytes)
    requires |s| == 3 && WellFormed(s)
    ensures IsScalar(Decode(s)) && Utf8(Decode(s)) == s
  {
    hide Join;
    var v := Join(s[0] as int - 0xE0, s[1]);
    JoinSplits(s[0] - 0xE0, s[1]);
    JoinSplits(v, s[2]);
    Magnitudes(Join(v, s[2]));
  }

  lemma FourBack(s: bytes)
    requires |s| == 4 && WellFormed(s)
    ensures IsScalar(Decode(s)) && Utf8(Decode(s)) == s
  {
    hide Join;
    var w := Join(s[0] as int - 0xF0, s[1]);
    JoinSplits(s[0] - 0xF0, s[1]);
    var v := Join(w, s[2]);
    JoinSplits(w, s[2]);
    JoinSplits(v, s[3]);
    Magnitudes(Join(v, s[3]));
  }

  lemma EncodingIsInjective(u: nat, v: nat)
    requires IsScalar(u) && IsScalar(v) && Utf8(u) == Utf8(v)
    ensures u == v
  {
    EncodedIsWellFormed(u);
    EncodedIsWellFormed(v);
  }

  // ------------------------------------------------------------------ characters in UTF-8

  /** utf8ByteTable: the length that a lead byte announces; 1 where it is no lead byte. */
  function ByteTable(lead: byte): (n: nat)
    ensures 1 <= n <= 4
  {
    if 0xC2 <= lead <= 0xDF then 2 else if 0xE0 <= lead <= 0xEF then 3 else if 0xF0 <= lead <= 0xF4 then 4 else 1
  }

  /** GetEntity in UTF-8. */
  function EntityAtUtf8(s: bytes, p: Ptr): CharRead
    requires Live(s, p) && s[p] == AMP
  {
    if Peek(s, p + 1) == HASH && Live(s, p + 2) then
      var c := ReferenceAt(s, p);
      if c.None? then CharRead([], NULL) else CharRead(Utf8(c.value.0), c.value.1)
    else NamedEntity(s, p, 0)
  }

  /** GetChar in UTF-8. A sequence that the buffer ends in is cut, and next lies beyond the terminator. */
  function CharAtUtf8(s: bytes, p: Ptr): CharRead
    requires Live(s, p)
  {
    var n := ByteTable(s[p]);
    if n == 1 then if s[p] == AMP then EntityAtUtf8(s, p) else CharRead([s[p]], p + 1)
    else CharRead(s[p..if p + n <= |s| then p + n else |s|], p + n)
  }

  /** The copying branch of GetChar. */
  method CopySequence(s: bytes, p: Ptr, value: array<byte>) returns (length: nat, next: Ptr)
    requires Live(s, p) && ByteTable(s[p]) > 1 && value.Length >= 4 && 0 !in s
    modifies value
    ensures length == |CharAtUtf8(s, p).text| && CharRead(value[..length], next) == CharAtUtf8(s, p)
  {
    var n := ByteTable(s[p]);
    var i := 0;
    while Peek(s, p + i) != 0 && i < n
      invariant 0 <= i <= n && p + i <= |s|
      invariant value[..i] == s[p..p + i]
      decreases n - i
    {
      value[i] := s[p + i];
      i := i + 1;
      assert s[p..p + i] == s[p..p + i - 1] + [s[p + i - 1]];
    }
    assert p + i < |s| ==> s[p + i] in s;
    return i, p + n;
  }

  /**
   Reading the encoded character, wherever it stands, takes exactly its bytes, unless it is below 0x80 (where an
   ampersand starts an entity) or its lead byte is one that the table does not know.
   */
  lemma RawCharacterBack(s: bytes, p: Ptr, u: nat)
    requires 0x80 <= u < 0x200000 && Occurs(s, p, Utf8(u))
    ensures Live(s, p)
    ensures CharAtUtf8(s, p) == CharRead(Utf8(u), p + |Utf8(u)|) <==> u < 0x140000
  {
    var x := Utf8(u);
    OccursSlice(s, p, x);
    assert s[p] == s[p..p + |x|][0];
    assert x[0] == if u < 0x800 then 0xC0 + u / 64 else if u < 0x10000 then 0xE0 + u / 64 / 64 else 0xF0 + u / 64 / 64 / 64;
  }
}
