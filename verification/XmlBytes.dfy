/**
 Bytes, C pointers into a NUL-terminated buffer, and the character classes of the XML reader.

 A buffer is the sequence of bytes before its terminator: reading at index |s| yields the
 terminating 0, and no byte beyond it may be read. A C pointer is an index, or NULL.
 The classes are those of <ctype.h> in the C locale.
 */
module XmlBytes {
  import opened Octets

  type Ptr = int

  const NULL: Ptr := -1

  const TAB: byte := 9
  const LF: byte := 10
  const CR: byte := 13
  const SPACE: byte := 32
  const QUOTE: byte := '\"' as int
  const HASH: byte := '#' as int
  const AMP: byte := '&' as int
  const APOS: byte := '\'' as int
  const SLASH: byte := '/' as int
  const SEMI: byte := ';' as int
  const LT: byte := '<' as int
  const EQ: byte := '=' as int
  const GT: byte := '>' as int
  const UNDERSCORE: byte := '_' as int
  const LOWER_X: byte := 'x' as int

  /** The C idiom `p && *p`: the pointer is set and is not at the terminator. */
  predicate Live(s: bytes, p: Ptr) {
    0 <= p < |s|
  }

  /** `*p`; the precondition says that nothing beyond the terminator is ever read. */
  function Peek(s: bytes, p: Ptr): byte
    requires 0 <= p <= |s|
  {
    if p < |s| then s[p] else 0
  }

  predicate IsWhiteSpace(c: byte) {
    c == SPACE || TAB <= c <= CR
  }

  predicate IsLetter(c: byte) {
    'A' as int <= c <= 'Z' as int || 'a' as int <= c <= 'z' as int
  }

  predicate IsDigit(c: byte) {
    '0' as int <= c <= '9' as int
  }

  predicate IsAlpha(c: byte) {
    IsLetter(c) || c >= 127
  }

  predicate IsAlphaNum(c: byte) {
    IsAlpha(c) || IsDigit(c)
  }

  predicate IsNameStart(c: byte) {
    IsAlpha(c) || c == UNDERSCORE
  }

  predicate IsNameChar(c: byte) {
    IsAlphaNum(c) || c == UNDERSCORE || c == '-' as int || c == '.' as int || c == ':' as int
  }

  function ToLower(c: byte): byte {
    if 'A' as int <= c <= 'Z' as int then c + 32 else c
  }

  /** The bytes x stand in s from position p on. */
  ghost predicate Occurs(s: bytes, p: Ptr, x: bytes) {
    && 0 <= p <= p + |x| <= |s|
    && forall i {:trigger x[i]} :: 0 <= i < |x| ==> s[p + i] == x[i]
  }

  lemma OccursBounds(s: bytes, p: Ptr, x: bytes)
    requires Occurs(s, p, x)
    ensures 0 <= p && p + |x| <= |s|
  {}

  lemma OccursSplit(s: bytes, p: Ptr, a: bytes, b: bytes)
    requires Occurs(s, p, a + b)
    ensures Occurs(s, p, a) && Occurs(s, p + |a|, b)
  {
    forall i | 0 <= i < |a|
      ensures s[p + i] == a[i]
    {
      assert (a + b)[i] == a[i];
    }
    forall i | 0 <= i < |b|
      ensures s[p + |a| + i] == b[i]
    {
      assert (a + b)[|a| + i] == b[i];
    }
  }

  lemma OccursJoin(s: bytes, p: Ptr, a: bytes, b: bytes)
    requires Occurs(s, p, a) && Occurs(s, p + |a|, b)
    ensures Occurs(s, p, a + b)
  {
    forall i | 0 <= i < |a + b|
      ensures s[p + i] == (a + b)[i]
    {
      if i < |a| {
        assert s[p + i] == a[i];
      } else {
        assert s[p + |a| + (i - |a|)] == b[i - |a|];
      }
    }
  }

  lemma OccursInPlace(s: bytes, p: nat, q: nat)
    requires p <= q <= |s|
    ensures Occurs(s, p, s[p..q])
  {}

  lemma OccursSplit3(s: bytes, p: Ptr, a: bytes, b: bytes, c: bytes)
    requires Occurs(s, p, a + b + c)
    ensures Occurs(s, p, a) && Occurs(s, p + |a|, b) && Occurs(s, p + |a| + |b|, c)
  {
    OccursSplit(s, p, a + b, c);
    OccursSplit(s, p, a, b);
  }

  lemma OccursSlice(s: bytes, p: Ptr, x: bytes)
    requires Occurs(s, p, x)
    ensures s[p..p + |x|] == x
  {
    forall i | 0 <= i < |x|
      ensures s[p..p + |x|][i] == x[i]
    {}
  }

  ghost predicate AllWhite(w: bytes) {
    forall i :: 0 <= i < |w| ==> IsWhiteSpace(w[i])
  }

  lemma AllWhiteConcat(a: bytes, b: bytes)
    requires AllWhite(a) && AllWhite(b)
    ensures AllWhite(a + b)
  {}
}
