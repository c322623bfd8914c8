/**
 The character-level scanners of the XML reader in a single-byte encoding. Every scanner is given
 twice: as a recursive function on the buffer, and as the loop that the reader runs,
 which is proved to compute that function.
 */
module XmlScanner {
  import opened Octets
  import opened XmlBytes

  // ------------------------------------------------------------------ white space and names

  /** Where the run of white space that starts at p ends. */
  function SkipRun(s: bytes, p: Ptr): (q: Ptr)
    requires 0 <= p <= |s|
    ensures p <= q <= |s|
    ensures q < |s| ==> !IsWhiteSpace(s[q])
    ensures forall i :: p <= i < q ==> IsWhiteSpace(s[i])
    decreases |s| - p
  {
    if p < |s| && IsWhiteSpace(s[p]) then SkipRun(s, p + 1) else p
  }

  function SkipWhite(s: bytes, p: Ptr): (q: Ptr)
    requires p <= |s|
    ensures q == NULL || p <= q <= |s|
    ensures Live(s, p) <==> q != NULL
    ensures Live(s, q) ==> !IsWhiteSpace(s[q])
  {
    if !Live(s, p) then NULL else SkipRun(s, p)
  }

  method SkipWhiteSpace(s: bytes, p: Ptr) returns (q: Ptr)
    requires p <= |s|
    ensures q == SkipWhite(s, p)
  {
    if !Live(s, p) {
      return NULL;
    }
    q := p;
    while q < |s| && IsWhiteSpace(s[q])
      invariant p <= q <= |s|
      invariant SkipRun(s, q) == SkipRun(s, p)
    {
      q := q + 1;
    }
  }

  /** White space from p up to q. */
  ghost predicate Gap(s: bytes, p: Ptr, q: Ptr) {
    0 <= p <= q <= |s| && forall i :: p <= i < q ==> IsWhiteSpace(s[i])
  }

  lemma SkipRunOver(s: bytes, p: Ptr, q: Ptr)
    requires Gap(s, p, q)
    requires q < |s| ==> !IsWhiteSpace(s[q])
    ensures SkipRun(s, p) == q
    decreases q - p
  {}

  function NameEnd(s: bytes, p: Ptr): (q: Ptr)
    requires 0 <= p <= |s|
    ensures p <= q <= |s|
    ensures q < |s| ==> !IsNameChar(s[q])
    ensures forall i :: p <= i < q ==> IsNameChar(s[i])
    decreases |s| - p
  {
    if p < |s| && IsNameChar(s[p]) then NameEnd(s, p + 1) else p
  }

  datatype Read = Read(text: bytes, next: Ptr)

  function NameAt(s: bytes, p: Ptr): (r: Read)
    requires p <= |s|
    ensures r.next == NULL || p < r.next <= |s|
  {
    if Live(s, p) && IsNameStart(s[p])
    then Read(s[p..NameEnd(s, p)], NameEnd(s, p))
    else Read([], NULL)
  }

  method ReadName(s: bytes, p: Ptr) returns (name: bytes, next: Ptr)
    requires p <= |s|
    ensures Read(name, next) == NameAt(s, p)
  {
    name := [];
    if Live(s, p) && IsNameStart(s[p]) {
      var q := p;
      while q < |s| && IsNameChar(s[q])
        invariant p <= q <= |s|
        invariant NameEnd(s, q) == NameEnd(s, p)
      {
        q := q + 1;
      }
      if q - p > 0 {
        name := s[p..q];
      }
      return name, q;
    }
    return name, NULL;
  }

  lemma NameEndOver(s: bytes, p: Ptr, q: Ptr)
    requires 0 <= p <= q <= |s|
    requires forall i :: p <= i < q ==> IsNameChar(s[i])
    requires q < |s| ==> !IsNameChar(s[q])
    ensures NameEnd(s, p) == q
    decreases q - p
  {}

  // ------------------------------------------------------------------ tag comparison

  /** The tag stands at p; a buffer that ends inside the tag does not match. */
  predicate TagAt(s: bytes, p: Ptr, tag: bytes)
    requires 0 <= p <= |s|
  {
    p + |tag| <= |s| && s[p..p + |tag|] == tag
  }

  /** As TagAt, comparing lower-cased bytes. */
  predicate TagAtIgnoreCase(s: bytes, p: Ptr, tag: bytes)
    requires 0 <= p <= |s|
  {
    p + |tag| <= |s| && forall i :: 0 <= i < |tag| ==> ToLower(s[p + i]) == ToLower(tag[i])
  }

  /** StringEqual, with its assertions off: at the terminator it answers false. */
  method StringEqual(s: bytes, p: Ptr, tag: bytes, ignoreCase: bool) returns (r: bool)
    requires p <= |s| && tag != []
    ensures r == (0 <= p && if ignoreCase then TagAtIgnoreCase(s, p, tag) else TagAt(s, p, tag))
  {
    if !Live(s, p) {
      return false;
    }
    var q, t := p, 0;
    if ignoreCase {
      while q < |s| && t < |tag| && ToLower(s[q]) == ToLower(tag[t])
        invariant 0 <= t <= |tag| && q == p + t <= |s|
        invariant forall i :: 0 <= i < t ==> ToLower(s[p + i]) == ToLower(tag[i])
      {
        q, t := q + 1, t + 1;
      }
      r := t == |tag|;
    } else {
      while q < |s| && t < |tag| && s[q] == tag[t]
        invariant 0 <= t <= |tag| && q == p + t <= |s|
        invariant forall i :: 0 <= i < t ==> s[p + i] == tag[i]
      {
        q, t := q + 1, t + 1;
      }
      r := t == |tag|;
      if !r && p + |tag| <= |s| {
        assert s[p..p + |tag|][t] == s[p + t];
      }
    }
  }

  lemma TagAtOccurs(s: bytes, p: Ptr, tag: bytes)
    requires Occurs(s, p, tag)
    ensures TagAt(s, p, tag)
  {
    OccursSlice(s, p, tag);
  }

  lemma TagAtFirst(s: bytes, p: Ptr, tag: bytes)
    requires 0 <= p <= |s| && tag != [] && TagAt(s, p, tag)
    ensures Live(s, p) && s[p] == tag[0]
  {
    assert s[p..p + |tag|][0] == s[p];
  }

  /** One byte that differs rules a tag out. */
  lemma TagDiffers(s: bytes, p: Ptr, tag: bytes, k: nat)
    requires 0 <= p && k < |tag| && p + k < |s| && s[p + k] != tag[k]
    ensures !TagAt(s, p, tag)
  {
    if p + |tag| <= |s| {
      assert s[p..p + |tag|][k] == s[p + k];
    }
  }

  lemma TagDiffersIgnoreCase(s: bytes, p: Ptr, tag: bytes, k: nat)
    requires 0 <= p && k < |tag| && p + k < |s| && ToLower(s[p + k]) != ToLower(tag[k])
    ensures !TagAtIgnoreCase(s, p, tag)
  {}

  // ------------------------------------------------------------------ entities

  const TWO_64 := 0x1_0000_0000_0000_0000

  /** The value of a digit, or None. */
  function DigitValue(c: byte, base: nat): (r: Option<nat>)
    requires base == 10 || base == 16
    ensures r.Some? ==> r.value < base
  {
    if IsDigit(c) then Some(c - '0' as int)
    else if base == 16 && 'a' as int <= c <= 'f' as int then Some(c - 'a' as int + 10)
    else if base == 16 && 'A' as int <= c <= 'F' as int then Some(c - 'A' as int + 10)
    else None
  }

  /** strchr: the first position of c from p on, or NULL. */
  function Find(s: bytes, p: Ptr, c: byte): (q: Ptr)
    requires 0 <= p <= |s|
    ensures q == NULL || p <= q < |s|
    ensures q != NULL ==> s[q] == c && forall i :: p <= i < q ==> s[i] != c
    decreases |s| - p
  {
    if p == |s| then NULL else if s[p] == c then p else Find(s, p + 1, c)
  }

  lemma FindIs(s: bytes, p: Ptr, c: byte, q: Ptr)
    requires 0 <= p <= q < |s| && s[q] == c
    requires forall i :: p <= i < q ==> s[i] != c
    ensures Find(s, p, c) == q
    decreases q - p
  {}

  /**
   The digits of a character reference, walked from the right up to the stop byte (`x` or `#`).
   The multiplier is a 32-bit unsigned, the value a 64-bit unsigned.
   */
  function DigitsFrom(s: bytes, q: Ptr, first: Ptr, base: nat, mult: nat, ucs: nat): (r: Option<nat>)
    requires 0 <= first <= q < |s|
    requires base == 10 || base == 16
    decreases q - first
  {
    if q == first || s[q] == s[first] then Some(ucs)
    else if DigitValue(s[q], base).None? then None
    else DigitsFrom(s, q - 1, first, base, mult * base % TWO_32,
                    (ucs + mult * DigitValue(s[q], base).value % TWO_32) % TWO_64)
  }

  datatype CharRead = CharRead(text: bytes, next: Ptr)

  const ENT_AMP: bytes := [38, 97, 109, 112, 59]       // &amp;
  const ENT_LT: bytes := [38, 108, 116, 59]            // &lt;
  const ENT_GT: bytes := [38, 103, 116, 59]            // &gt;
  const ENT_QUOT: bytes := [38, 113, 117, 111, 116, 59] // &quot;
  const ENT_APOS: bytes := [38, 97, 112, 111, 115, 59] // &apos;

  /** The character that a numeric reference at p denotes, before it is put into the encoding. */
  function ReferenceAt(s: bytes, p: Ptr): (r: Option<(nat, Ptr)>)
    requires Live(s, p) && s[p] == AMP
    requires Peek(s, p + 1) == HASH && Live(s, p + 2)
    ensures r.Some? ==> p < r.value.1 <= |s|
  {
    var hex := s[p + 2] == LOWER_X;
    var first := if hex then p + 2 else p + 1;
    var semi := Find(s, first + 1, SEMI);
    if semi == NULL then None
    else
      var digits := DigitsFrom(s, semi - 1, first, if hex then 16 else 10, 1, 0);
      if digits.None? then None else Some((digits.value, semi + 1))
  }

  datatype Entity = Entity(tag: bytes, chr: byte)

  const ENTITIES: seq<Entity> :=
    [Entity(ENT_AMP, AMP), Entity(ENT_LT, LT), Entity(ENT_GT, GT), Entity(ENT_QUOT, QUOTE), Entity(ENT_APOS, APOS)]

  /** The first entry of the table, from i on, whose name stands at p; without one, nothing is produced. */
  function NamedEntity(s: bytes, p: Ptr, i: nat): (r: CharRead)
    requires Live(s, p) && i <= |ENTITIES|
    ensures p < r.next <= |s|
    decreases |ENTITIES| - i
  {
    if i == |ENTITIES| then CharRead([], p + 1)
    else if ENTITIES[i].tag != [] && TagAt(s, p, ENTITIES[i].tag)
    then CharRead([ENTITIES[i].chr], p + |ENTITIES[i].tag|)
    else NamedEntity(s, p, i + 1)
  }

  /** GetEntity in a single-byte encoding: an unrecognised entity yields nothing and skips the ampersand. */
  function EntityAt(s: bytes, p: Ptr): (r: CharRead)
    requires Live(s, p) && s[p] == AMP
    ensures r.next == NULL || p < r.next <= |s|
  {
    if Peek(s, p + 1) == HASH && Live(s, p + 2) then
      var c := ReferenceAt(s, p);
      if c.None? then CharRead([], NULL) else CharRead([c.value.0 % 256], c.value.1)
    else NamedEntity(s, p, 0)
  }

  /** The digit loop of GetEntity. */
  method ReadDigits(s: bytes, last: Ptr, first: Ptr, base: nat) returns (r: Option<nat>)
    requires 0 <= first <= last < |s| && (base == 10 || base == 16)
    ensures r == DigitsFrom(s, last, first, base, 1, 0)
  {
    var q, mult, ucs := last, 1, 0;
    while q != first && s[q] != s[first]
      invariant first <= q <= last && 0 <= mult && 0 <= ucs
      invariant DigitsFrom(s, q, first, base, mult, ucs) == DigitsFrom(s, last, first, base, 1, 0)
      decreases q
    {
      var d := DigitValue(s[q], base);
      if d.None? {
        return None;
      }
      ucs := (ucs + mult * d.value % TWO_32) % TWO_64;
      mult := mult * base % TWO_32;
      q := q - 1;
    }
    return Some(ucs);
  }

  /** The table loop of GetEntity. */
  method MatchEntity(s: bytes, p: Ptr) returns (r: CharRead)
    requires Live(s, p)
    ensures r == NamedEntity(s, p, 0)
  {
    var i := 0;
    while i < |ENTITIES|
      invariant 0 <= i <= |ENTITIES|
      invariant NamedEntity(s, p, i) == NamedEntity(s, p, 0)
    {
      if ENTITIES[i].tag != [] && TagAt(s, p, ENTITIES[i].tag) {
        return CharRead([ENTITIES[i].chr], p + |ENTITIES[i].tag|);
      }
      i := i + 1;
    }
    return CharRead([], p + 1);
  }

  method GetEntity(s: bytes, p: Ptr) returns (value: bytes, next: Ptr)
    requires Live(s, p) && s[p] == AMP
    ensures CharRead(value, next) == EntityAt(s, p)
  {
    if Peek(s, p + 1) == HASH && Live(s, p + 2) {
      var hex := s[p + 2] == LOWER_X;
      if hex && !Live(s, p + 3) {
        return [], NULL;
      }
      var first := if hex then p + 2 else p + 1;
      var semi := Find(s, first + 1, SEMI);
      if semi == NULL {
        return [], NULL;
      }
      var ucs := ReadDigits(s, semi - 1, first, if hex then 16 else 10);
      if ucs.None? {
        return [], NULL;
      }
      return [ucs.value % 256], semi + 1;
    }
    var r := MatchEntity(s, p);
    return r.text, r.next;
  }

  function CharAt(s: bytes, p: Ptr): (r: CharRead)
    requires Live(s, p)
    ensures r.next == NULL || p < r.next <= |s|
  {
    if s[p] == AMP then EntityAt(s, p) else CharRead([s[p]], p + 1)
  }

  method GetChar(s: bytes, p: Ptr) returns (value: bytes, next: Ptr)
    requires Live(s, p)
    ensures CharRead(value, next) == CharAt(s, p)
  {
    if s[p] == AMP {
      value, next := GetEntity(s, p);
    } else {
      value, next := [s[p]], p + 1;
    }
  }

  // ------------------------------------------------------------------ text up to an end tag

  /** The text from p up to the end tag, all white space kept; next is where the loop stops. */
  function KeepText(s: bytes, p: Ptr, endTag: bytes): (r: Read)
    requires p <= |s|
    ensures r.next == NULL || p <= r.next <= |s|
    ensures Live(s, r.next) ==> TagAt(s, r.next, endTag)
    ensures Live(s, p) && !TagAt(s, p, endTag) ==> r.next == NULL || p < r.next
    decreases if Live(s, p) then |s| - p else 0
  {
    if !Live(s, p) || TagAt(s, p, endTag) then Read([], p)
    else
      var c := CharAt(s, p);
      var rest := KeepText(s, c.next, endTag);
      Read(c.text + rest.text, rest.next)
  }

  /**
   The text from p up to the end tag with white space condensed. A run of white space is written as one
   space before the character that follows it, so white space before the end tag vanishes.
   */
  function TrimText(s: bytes, p: Ptr, pending: bool, endTag: bytes): (r: Read)
    requires p <= |s|
    ensures r.next == NULL || p <= r.next <= |s|
    ensures Live(s, r.next) ==> TagAt(s, r.next, endTag)
    ensures Live(s, p) && !TagAt(s, p, endTag) ==> r.next == NULL || p < r.next
    decreases if Live(s, p) then |s| - p else 0
  {
    if !Live(s, p) || TagAt(s, p, endTag) then Read([], p)
    else if IsWhiteSpace(s[p]) then TrimText(s, p + 1, true, endTag)
    else
      var c := CharAt(s, p);
      var rest := TrimText(s, c.next, false, endTag);
      Read((if pending then [SPACE] else []) + c.text + rest.text, rest.next)
  }

  /** ReadText: next is past the end tag, and NULL when nothing follows it. */
  function TextAt(s: bytes, p: Ptr, condense: bool, endTag: bytes): (r: Read)
    requires p <= |s|
    ensures r.next == NULL || (p + |endTag| <= r.next < |s|)
    ensures r.next != NULL ==> 0 <= r.next - |endTag| && TagAt(s, r.next - |endTag|, endTag)
  {
    var r := if condense then TrimText(s, SkipWhite(s, p), false, endTag) else KeepText(s, p, endTag);
    if Live(s, r.next) && Live(s, r.next + |endTag|) then Read(r.text, r.next + |endTag|) else Read(r.text, NULL)
  }

  function Prepend(text: bytes, r: Read): Read {
    Read(text + r.text, r.next)
  }

  lemma KeepStep(s: bytes, p: Ptr, endTag: bytes, text: bytes)
    requires Live(s, p) && !TagAt(s, p, endTag)
    ensures Prepend(text, KeepText(s, p, endTag))
         == Prepend(text + CharAt(s, p).text, KeepText(s, CharAt(s, p).next, endTag))
  {
    var c := CharAt(s, p);
    var rest := KeepText(s, c.next, endTag).text;
    assert (text + c.text) + rest == text + (c.text + rest);
  }

  lemma TrimStep(s: bytes, p: Ptr, pending: bool, endTag: bytes, text: bytes)
    requires Live(s, p) && !TagAt(s, p, endTag) && !IsWhiteSpace(s[p])
    ensures Prepend(text, TrimText(s, p, pending, endTag))
         == Prepend(text + (if pending then [SPACE] else []) + CharAt(s, p).text,
                    TrimText(s, CharAt(s, p).next, false, endTag))
  {
    var gap := if pending then [SPACE] else [];
    var c := CharAt(s, p);
    var rest := TrimText(s, c.next, false, endTag).text;
    assert text + gap + c.text + rest == text + (gap + c.text + rest);
  }

  /** The loop of ReadText that keeps all white space. */
  method KeepLoop(s: bytes, start: Ptr, endTag: bytes) returns (text: bytes, p: Ptr)
    requires start <= |s| && endTag != []
    ensures Read(text, p) == KeepText(s, start, endTag)
  {
    text, p := [], start;
    while Live(s, p) && !TagAt(s, p, endTag)
      invariant p <= |s|
      invariant Prepend(text, KeepText(s, p, endTag)) == KeepText(s, start, endTag)
      decreases if Live(s, p) then |s| - p else 0
    {
      KeepStep(s, p, endTag, text);
      var c, q := GetChar(s, p);
      text, p := text + c, q;
    }
  }

  /** The loop of ReadText that condenses white space. */
  method TrimLoop(s: bytes, start: Ptr, endTag: bytes) returns (text: bytes, p: Ptr)
    requires start <= |s| && endTag != []
    ensures Read(text, p) == TrimText(s, start, false, endTag)
  {
    text, p := [], start;
    var whitespace := false;
    while Live(s, p) && !TagAt(s, p, endTag)
      invariant p <= |s|
      invariant Prepend(text, TrimText(s, p, whitespace, endTag)) == TrimText(s, start, false, endTag)
      decreases if Live(s, p) then |s| - p else 0
    {
      if IsWhiteSpace(s[p]) {
        whitespace := true;
        p := p + 1;
      } else {
        TrimStep(s, p, whitespace, endTag, text);
        text := text + if whitespace then [SPACE] else [];
        whitespace := false;
        var c, q := GetChar(s, p);
        text, p := text + c, q;
      }
    }
  }

  method ReadText(s: bytes, start: Ptr, trimWhiteSpace: bool, condenseWhiteSpace: bool, endTag: bytes)
    returns (text: bytes, next: Ptr)
    requires start <= |s| && endTag != []
    ensures Read(text, next) == TextAt(s, start, trimWhiteSpace && condenseWhiteSpace, endTag)
  {
    var p;
    if !trimWhiteSpace || !condenseWhiteSpace {
      text, p := KeepLoop(s, start, endTag);
    } else {
      p := SkipWhiteSpace(s, start);
      text, p := TrimLoop(s, p, endTag);
    }
    if Live(s, p) {
      p := p + |endTag|;
    }
    next := if Live(s, p) then p else NULL;
  }
}
