/**
 The markup of text: what stands for which bytes, said without the loops that read it. Text in a single-byte encoding
 is a list of raw bytes, named and numeric references, and ampersands that start neither.
 */
module XmlMarkup {
  import opened Octets
  import opened XmlBytes
  import opened XmlScanner
  import opened XmlReferences

  datatype CharMarkup =
    | Raw(c: byte)
    | Named(i: nat)
    | Numeric(hex: bool, junk: bytes, digits: bytes)
    | LoneAmp

  function Names(): seq<bytes> {
    [Ascii("&amp;"), Ascii("&lt;"), Ascii("&gt;"), Ascii("&quot;"), Ascii("&apos;")]
  }

  function Base(hex: bool): nat {
    if hex then 16 else 10
  }

  function Opening(hex: bool): bytes {
    Ascii(if hex then "&#x" else "&#")
  }

  function Mark(hex: bool): byte {
    if hex then 'x' as int else '#' as int
  }

  predicate IsDigitIn(c: byte, hex: bool) {
    || '0' as int <= c <= '9' as int
    || (hex && ('a' as int <= c <= 'f' as int || 'A' as int <= c <= 'F' as int))
  }

  function DigitIn(c: byte): nat {
    if '0' as int <= c <= '9' as int then c - '0' as int
    else if 'A' as int <= c <= 'F' as int then c - 'A' as int + 10
    else if 'a' as int <= c <= 'f' as int then c - 'a' as int + 10
    else 0
  }

  /** The number that digits spell. */
  function Number(digits: bytes, hex: bool): nat
    requires forall i :: 0 <= i < |digits| ==> IsDigitIn(digits[i], hex)
  {
    if digits == [] then 0
    else Base(hex) * Number(digits[..|digits| - 1], hex) + DigitIn(digits[|digits| - 1])
  }

  /**
   A reference is read from its semicolon to the left, up to the mark that is nearest: anything may stand between the
   first mark and that one.
   */
  predicate IsChar(m: CharMarkup) {
    match m
    case Raw(c) => c != '&' as int
    case Named(i) => i < 5
    case Numeric(hex, junk, digits) =>
      && ';' as int !in junk && (junk != [] ==> junk[|junk| - 1] == Mark(hex))
      && (forall i :: 0 <= i < |digits| ==> IsDigitIn(digits[i], hex))
      && (!hex ==> junk + digits == [] || (junk + digits)[0] != 'x' as int)
    case LoneAmp => true
  }

  function Written(m: CharMarkup): bytes
    requires IsChar(m)
  {
    match m
    case Raw(c) => [c]
    case Named(i) => Names()[i]
    case Numeric(hex, junk, digits) => Opening(hex) + junk + digits + Ascii(";")
    case LoneAmp => Ascii("&")
  }

  /** What it stands for: of a number, its lowest byte; of an ampersand that starts nothing, nothing. */
  function Meant(m: CharMarkup): bytes
    requires IsChar(m)
  {
    match m
    case Raw(c) => [c]
    case Named(i) => [Ascii("&<>\"'")[i]]
    case Numeric(hex, _, digits) => [Number(digits, hex) % 256]
    case LoneAmp => []
  }

  /** It is read as what it is whatever follows it. */
  predicate Certain(m: CharMarkup) {
    !m.LoneAmp?
  }

  // ------------------------------------------------------------------ numbers

  lemma DigitAgrees(c: byte, hex: bool)
    ensures DigitValue(c, Base(hex)) == if IsDigitIn(c, hex) then Some(DigitIn(c)) else None
  {}

  lemma Congruent(a: int, b: int, k: int)
    requires a == b - 256 * k
    ensures a % 256 == b % 256
  {}

  /** One turn of the digit loop adds a digit's share, but for multiples of 256. */
  lemma ShareModulo(mult: nat, ucs: nat, base: nat, d: nat, rest: nat)
    ensures (Low64(ucs + Low32(mult * d)) + Low32(mult * base) * rest) % 256 == (ucs + mult * (base * rest + d)) % 256
  {
    hide Low32, Low64;
    var md, mb := mult * d, mult * base;
    var k2, k3 := md / TWO_32, mb / TWO_32;
    Low32Is(md);
    Low32Is(mb);
    var sum := ucs + Low32(md);
    var k1 := sum / TWO_64;
    Low64Is(sum);
    var k := 0x100_0000 * k2 + 0x100_0000_0000_0000 * k1 + 0x100_0000 * (k3 * rest);
    assert Low32(mb) * rest == mb * rest - TWO_32 * (k3 * rest);
    assert mult * (base * rest + d) == mb * rest + md;
    Congruent(Low64(sum) + Low32(mb) * rest, ucs + mult * (base * rest + d), k);
  }

  lemma Low32Is(n: nat)
    ensures Low32(n) == n - TWO_32 * (n / TWO_32)
  {}

  lemma Low64Is(n: nat)
    ensures Low64(n) == n - TWO_64 * (n / TWO_64)
  {}

  lemma {:induction false} NumberOfSlice(s: bytes, stop: nat, q: nat, hex: bool)
    requires stop <= q < |s| && forall i :: stop < i <= q ==> IsDigitIn(s[i], hex)
    ensures q > stop ==>
              Number(s[stop + 1..q + 1], hex) == Base(hex) * Number(s[stop + 1..q], hex) + DigitIn(s[q])
    ensures q == stop ==> Number(s[stop + 1..q + 1], hex) == 0
  {
    if q > stop {
      assert s[stop + 1..q + 1][..q - stop - 1] == s[stop + 1..q];
    }
  }

  /** The digits are read, down to the mark, as a value with the lowest byte of the number that they spell. */
  lemma {:induction false} DigitsModulo(s: bytes, first: nat, stop: nat, q: nat, hex: bool, mult: nat, ucs: nat)
    requires first <= stop <= q < |s| && (stop == first || s[stop] == s[first]) && s[first] == Mark(hex)
    requires forall i :: stop < i <= q ==> IsDigitIn(s[i], hex)
    ensures var r := DigitsFrom(s, q, first, Base(hex), mult, ucs);
            r.Some? && r.value % 256 == (ucs + mult * Number(s[stop + 1..q + 1], hex)) % 256
    decreases q
  {
    hide Number, DigitValue;
    NumberOfSlice(s, stop, q, hex);
    if q > stop {
      DigitAgrees(s[q], hex);
      assert s[q] != s[first];
      var d, rest := DigitIn(s[q]), Number(s[stop + 1..q], hex);
      ShareModulo(mult, ucs, Base(hex), d, rest);
      DigitsModulo(s, first, stop, q - 1, hex, mult * Base(hex) % TWO_32, (ucs + mult * d % TWO_32) % TWO_64);
    } else {
      assert mult * 0 == 0;
    }
  }

  /** Where the digit loop stops when it does not fail. */
  lemma {:induction false} DigitsStop(s: bytes, first: nat, q: nat, hex: bool, mult: nat, ucs: nat) returns (stop: nat)
    requires first <= q < |s| && s[first] == Mark(hex) && DigitsFrom(s, q, first, Base(hex), mult, ucs).Some?
    ensures first <= stop <= q && (stop == first || s[stop] == s[first])
    ensures forall i :: stop < i <= q ==> IsDigitIn(s[i], hex)
    decreases q
  {
    hide DigitValue;
    DigitAgrees(s[q], hex);
    if q == first || s[q] == s[first] {
      stop := q;
    } else {
      var d := DigitIn(s[q]);
      stop := DigitsStop(s, first, q - 1, hex, mult * Base(hex) % TWO_32, (ucs + mult * d % TWO_32) % TWO_64);
    }
  }

  // ------------------------------------------------------------------ one character

  lemma NamesAre()
    ensures forall i :: 0 <= i < 5 ==> Names()[i] == ENTITIES[i].tag && [Ascii("&<>\"'")[i]] == [ENTITIES[i].chr]
    ensures forall i :: 0 <= i < 5 ==> |Names()[i]| >= 4 && Names()[i][0] == AMP && Names()[i][1] != HASH
  {
    assert Ascii("&amp;") == ENT_AMP && Ascii("&lt;") == ENT_LT && Ascii("&gt;") == ENT_GT;
    assert Ascii("&quot;") == ENT_QUOT && Ascii("&apos;") == ENT_APOS;
  }

  lemma {:induction false} NamedFrom(s: bytes, p: Ptr, i: nat) returns (m: CharMarkup)
    requires Live(s, p) && s[p] == AMP && i <= 5
    ensures IsChar(m) && Occurs(s, p, Written(m)) && NamedEntity(s, p, i) == CharRead(Meant(m), p + |Written(m)|)
    ensures m.Named? || m == LoneAmp
    decreases 5 - i
  {
    hide TagAt;
    NamesAre();
    if i == 5 {
      m := LoneAmp;
    } else if TagAt(s, p, ENTITIES[i].tag) {
      m := Named(i);
      OccursTag(s, p, ENTITIES[i].tag);
    } else {
      m := NamedFrom(s, p, i + 1);
    }
  }

  lemma OccursTag(s: bytes, p: Ptr, tag: bytes)
    requires 0 <= p <= |s| && TagAt(s, p, tag)
    ensures Occurs(s, p, tag)
  {
    forall i {:trigger tag[i]} | 0 <= i < |tag|
      ensures s[p + i] == tag[i]
    {
      assert s[p..p + |tag|][i] == tag[i];
    }
  }

  lemma OpeningAt(s: bytes, p: Ptr, hex: bool)
    requires 0 <= p && p + 2 < |s| && s[p] == AMP && s[p + 1] == HASH && (hex <==> s[p + 2] == LOWER_X)
    ensures Occurs(s, p, Opening(hex)) && |Opening(hex)| == if hex then 3 else 2
  {}

  lemma SemicolonAt(s: bytes, semi: nat)
    requires semi < |s| && s[semi] == SEMI
    ensures Occurs(s, semi, Ascii(";")) && |Ascii(";")| == 1
  {}

  lemma NumericIs(hex: bool, junk: bytes, digits: bytes)
    requires SEMI !in junk && (junk != [] ==> junk[|junk| - 1] == Mark(hex))
    requires forall i :: 0 <= i < |digits| ==> IsDigitIn(digits[i], hex)
    requires !hex ==> junk + digits == [] || (junk + digits)[0] != LOWER_X
    ensures var m := Numeric(hex, junk, digits);
            && IsChar(m) && Written(m) == Opening(hex) + junk + digits + Ascii(";")
            && Meant(m) == [Number(digits, hex) % 256]
  {
    hide Number, Ascii, IsDigitIn;
  }

  /** A numeric reference in its place. */
  lemma NumericParts(s: bytes, p: Ptr, hex: bool, stop: nat, semi: nat)
    requires 0 <= p && p + 2 < |s| && s[p] == AMP && s[p + 1] == HASH && (hex <==> s[p + 2] == LOWER_X)
    requires var first := if hex then p + 2 else p + 1;
             first <= stop < semi < |s| && s[semi] == SEMI && (stop == first || s[stop] == s[first])
             && (forall i :: first < i < semi ==> s[i] != SEMI) && (forall i :: stop < i < semi ==> IsDigitIn(s[i], hex))
    ensures var first := if hex then p + 2 else p + 1;
            var m := Numeric(hex, s[first + 1..stop + 1], s[stop + 1..semi]);
            IsChar(m) && Occurs(s, p, Written(m)) && p + |Written(m)| == semi + 1
  {
    hide Number, IsDigitIn, Occurs, Ascii, Written, IsChar, Opening, Meant;
    var first := if hex then p + 2 else p + 1;
    var junk, digits := s[first + 1..stop + 1], s[stop + 1..semi];
    OpeningAt(s, p, hex);
    SemicolonAt(s, semi);
    OccursInPlace(s, first + 1, stop + 1);
    OccursInPlace(s, stop + 1, semi);
    OccursJoin(s, p, Opening(hex), junk);
    OccursJoin(s, p, Opening(hex) + junk, digits);
    OccursJoin(s, p, Opening(hex) + junk + digits, Ascii(";"));
    JunkIs(s, first, stop, semi);
    NumericIs(hex, junk, digits);
  }

  lemma JunkIs(s: bytes, first: nat, stop: nat, semi: nat)
    requires first <= stop < semi < |s| && (stop == first || s[stop] == s[first]) && forall i :: first < i < semi ==> s[i] != SEMI
    ensures var junk, digits := s[first + 1..stop + 1], s[stop + 1..semi];
            SEMI !in junk && (junk != [] ==> junk[|junk| - 1] == s[first])
            && (junk + digits != [] ==> (junk + digits)[0] == s[first + 1])
  {}

  /** Whatever is read as one character is markup of one. */
  lemma MarkupAt(s: bytes, p: Ptr) returns (m: CharMarkup)
    requires Live(s, p) && CharAt(s, p).next != NULL
    ensures IsChar(m) && Occurs(s, p, Written(m)) && CharAt(s, p) == CharRead(Meant(m), p + |Written(m)|)
    ensures m.Raw? <==> s[p] != AMP
    ensures s[p] == AMP && p + 2 < |s| && s[p + 1] == HASH ==> m.Numeric?
  {
    hide ReferenceAt, NamedEntity, IsChar, Meant, Written, Occurs;
    if s[p] != AMP {
      m := Raw(s[p]);
      RawIs(s, p);
    } else if Peek(s, p + 1) == HASH && Live(s, p + 2) {
      m := NumericAt(s, p);
    } else {
      m := NamedFrom(s, p, 0);
    }
  }

  lemma NumericAt(s: bytes, p: Ptr) returns (m: CharMarkup)
    requires 0 <= p && p + 2 < |s| && s[p] == AMP && s[p + 1] == HASH && ReferenceAt(s, p).Some?
    ensures m.Numeric? && IsChar(m) && Occurs(s, p, Written(m))
    ensures var r := ReferenceAt(s, p).value; Meant(m) == [r.0 % 256] && r.1 == p + |Written(m)|
  {
    hide DigitsFrom, Find, IsChar, Meant, Written, Number, Occurs;
    var hex := s[p + 2] == LOWER_X;
    var first := if hex then p + 2 else p + 1;
    var semi := Find(s, first + 1, SEMI);
    var stop := DigitsStop(s, first, semi - 1, hex, 1, 0);
    m := Numeric(hex, s[first + 1..stop + 1], s[stop + 1..semi]);
    NumericParts(s, p, hex, stop, semi);
    DigitsModulo(s, first, stop, semi - 1, hex, 1, 0);
    NumericMeans(hex, s[first + 1..stop + 1], s[stop + 1..semi]);
  }

  lemma RawIs(s: bytes, p: Ptr)
    requires Live(s, p) && s[p] != AMP
    ensures IsChar(Raw(s[p])) && Occurs(s, p, Written(Raw(s[p]))) && Meant(Raw(s[p])) == [s[p]] == Written(Raw(s[p]))
  {}

  lemma NumericMeans(hex: bool, junk: bytes, digits: bytes)
    requires IsChar(Numeric(hex, junk, digits))
    ensures Meant(Numeric(hex, junk, digits)) == [Number(digits, hex) % 256]
  {}

  /** Markup of a character is read as what it stands for, whatever follows it. */
  lemma ReadsAsMeant(s: bytes, p: Ptr, m: CharMarkup)
    requires IsChar(m) && Certain(m) && Occurs(s, p, Written(m))
    ensures Live(s, p) && CharAt(s, p) == CharRead(Meant(m), p + |Written(m)|)
  {
    match m
    case Raw(c) => assert Written(m)[0] == s[p + 0];
    case Named(i) => NamedRead(s, p, i);
    case Numeric(hex, junk, digits) => NumericRead(s, p, hex, junk, digits);
  }

  /** No reference starts there. */
  ghost predicate NoReference(s: bytes, p: Ptr) {
    forall m :: IsChar(m) && (m.Named? || m.Numeric?) ==> !Occurs(s, p, Written(m))
  }

  /**
   An ampersand that starts no reference yields nothing and is passed over, unless `#` and one more byte follow it: then
   reading fails. In no other case does reading one character fail.
   */
  lemma AmpersandReads(s: bytes, p: Ptr)
    requires Live(s, p)
    ensures CharAt(s, p).next == NULL
       <==> s[p] == '&' as int && NoReference(s, p) && p + 2 < |s| && s[p + 1] == '#' as int
    ensures s[p] == '&' as int && NoReference(s, p) && !(p + 2 < |s| && s[p + 1] == '#' as int) ==>
              CharAt(s, p) == CharRead([], p + 1)
  {
    hide Written, Meant, IsChar, ReferenceAt, NamedEntity, Occurs;
    if CharAt(s, p).next != NULL {
      var m := MarkupAt(s, p);
      LoneMeansNothing();
    } else {
      FailsAtReference(s, p);
      forall m | IsChar(m) && (m.Named? || m.Numeric?)
        ensures !Occurs(s, p, Written(m))
      {
        if Occurs(s, p, Written(m)) {
          ReadsAsMeant(s, p, m);
        }
      }
    }
  }

  lemma LoneMeansNothing()
    ensures IsChar(LoneAmp) && Meant(LoneAmp) == [] && |Written(LoneAmp)| == 1
  {}

  lemma FailsAtReference(s: bytes, p: Ptr)
    requires Live(s, p) && CharAt(s, p).next == NULL
    ensures s[p] == AMP && p + 2 < |s| && s[p + 1] == HASH
  {
    hide ReferenceAt, NamedEntity;
  }

  lemma NamedRead(s: bytes, p: Ptr, i: nat)
    requires i < 5 && Occurs(s, p, Names()[i])
    ensures Live(s, p) && CharAt(s, p) == CharRead(Meant(Named(i)), p + |Names()[i]|)
  {
    NamesAre();
    var x := Names()[i];
    assert x[0] == s[p + 0] && x[1] == s[p + 1];
    NamedSkips(s, p, 0, i);
    TagAtOccurs(s, p, x);
  }

  /** No entry of the table is the start of another. */
  lemma {:induction false} NamedSkips(s: bytes, p: Ptr, k: nat, i: nat)
    requires k <= i < 5 && Occurs(s, p, Names()[i])
    ensures Live(s, p) && NamedEntity(s, p, k) == NamedEntity(s, p, i)
    decreases i - k
  {
    NamesAre();
    var x := Names()[i];
    assert x[0] == s[p + 0] && x[1] == s[p + 1] && x[2] == s[p + 2] && x[3] == s[p + 3];
    if k < i {
      var y := ENTITIES[k].tag;
      assert y[1] != x[1] || y[2] != x[2];
      if y[1] != x[1] {
        TagDiffers(s, p, y, 1);
      } else {
        TagDiffers(s, p, y, 2);
      }
      NamedSkips(s, p, k + 1, i);
    }
  }

  lemma NumericRead(s: bytes, p: Ptr, hex: bool, junk: bytes, digits: bytes)
    requires var m := Numeric(hex, junk, digits); IsChar(m) && Occurs(s, p, Written(m))
    ensures var m := Numeric(hex, junk, digits);
            Live(s, p) && CharAt(s, p) == CharRead(Meant(m), p + |Written(m)|)
  {
    hide DigitsFrom, Number, Occurs, Find, IsDigitIn;
    var first := if hex then p + 2 else p + 1;
    var stop, semi := first + |junk|, first + |junk| + |digits| + 1;
    NumericStands(s, p, hex, junk, digits);
    FindIs(s, first + 1, SEMI, semi);
    DigitsModulo(s, first, stop, semi - 1, hex, 1, 0);
  }

  lemma OccursByte(s: bytes, p: Ptr, x: bytes, i: nat)
    requires Occurs(s, p, x) && i < |x|
    ensures 0 <= p && p + |x| <= |s| && s[p + i] == x[i]
  {}

  lemma OpeningIs(s: bytes, p: Ptr, hex: bool)
    requires Occurs(s, p, Opening(hex))
    ensures |Opening(hex)| == (if hex then 3 else 2) && 0 <= p && p + |Opening(hex)| <= |s|
    ensures s[p] == AMP && s[p + 1] == HASH && (hex ==> s[p + 2] == LOWER_X)
  {
    var x := Opening(hex);
    OccursByte(s, p, x, 0);
    OccursByte(s, p, x, 1);
    if hex {
      OccursByte(s, p, x, 2);
    }
  }

  lemma OccursSlices(s: bytes, p: Ptr, x: bytes)
    requires Occurs(s, p, x)
    ensures 0 <= p && p + |x| <= |s| && s[p..p + |x|] == x
  {
    OccursSlice(s, p, x);
  }

  lemma NumericPlaces(s: bytes, p: Ptr, hex: bool, junk: bytes, digits: bytes)
    requires var m := Numeric(hex, junk, digits); IsChar(m) && Occurs(s, p, Written(m))
    ensures var first := if hex then p + 2 else p + 1;
            var stop, semi := first + |junk|, first + |junk| + |digits| + 1;
            && 0 <= p && semi < |s| && s[p] == AMP && s[p + 1] == HASH && (hex ==> s[p + 2] == LOWER_X)
            && s[semi] == SEMI && s[first + 1..stop + 1] == junk && s[stop + 1..semi] == digits
            && |Written(Numeric(hex, junk, digits))| == semi + 1 - p
  {
    hide Number, Occurs, Ascii, Opening, Written, IsDigitIn;
    var first := if hex then p + 2 else p + 1;
    var stop, semi := first + |junk|, first + |junk| + |digits| + 1;
    NumericIs(hex, junk, digits);
    SemicolonIs();
    OccursSplit(s, p, Opening(hex) + junk + digits, Ascii(";"));
    OccursSplit(s, p, Opening(hex) + junk, digits);
    OccursSplit(s, p, Opening(hex), junk);
    OpeningIs(s, p, hex);
    OccursByte(s, semi, Ascii(";"), 0);
    OccursSlices(s, first + 1, junk);
    OccursSlices(s, stop + 1, digits);
  }

  /** Where the parts of a numeric reference stand. */
  lemma NumericStands(s: bytes, p: Ptr, hex: bool, junk: bytes, digits: bytes)
    requires var m := Numeric(hex, junk, digits); IsChar(m) && Occurs(s, p, Written(m))
    ensures var first := if hex then p + 2 else p + 1;
            var stop, semi := first + |junk|, first + |junk| + |digits| + 1;
            && 0 <= p && semi < |s| && s[p] == AMP && s[p + 1] == HASH && (hex <==> s[p + 2] == LOWER_X)
            && s[first] == Mark(hex) && s[semi] == SEMI && (stop == first || s[stop] == s[first])
            && s[stop + 1..semi] == digits && (forall i :: first < i < semi ==> s[i] != SEMI)
            && (forall i :: stop < i < semi ==> IsDigitIn(s[i], hex))
            && |Written(Numeric(hex, junk, digits))| == semi + 1 - p
  {
    hide Number, Occurs, Ascii, Opening, Written, IsDigitIn;
    var first := if hex then p + 2 else p + 1;
    var stop, semi := first + |junk|, first + |junk| + |digits| + 1;
    NumericPlaces(s, p, hex, junk, digits);
    NoSemicolon(digits, hex);
    JunkStands(s, first, stop, semi, junk, digits);
    if !hex && junk + digits != [] {
      assert (junk + digits)[0] == s[p + 2];
    }
  }

  lemma NoSemicolon(digits: bytes, hex: bool)
    requires forall i :: 0 <= i < |digits| ==> IsDigitIn(digits[i], hex)
    ensures forall i :: 0 <= i < |digits| ==> digits[i] != SEMI
  {}

  lemma SemicolonIs()
    ensures Ascii(";") == [SEMI]
  {}

  lemma JunkStands(s: bytes, first: nat, stop: nat, semi: nat, junk: bytes, digits: bytes)
    requires first <= stop < semi < |s| && s[first + 1..stop + 1] == junk && s[stop + 1..semi] == digits && SEMI !in junk
    requires forall i :: 0 <= i < |digits| ==> digits[i] != SEMI
    ensures forall i :: first < i < semi ==> s[i] != SEMI
    ensures forall i :: stop < i < semi ==> s[i] == digits[i - stop - 1]
    ensures stop > first ==> s[stop] == junk[|junk| - 1]
  {
    forall i | first < i < semi
      ensures s[i] != SEMI
    {
      if i <= stop {
        assert s[i] == junk[i - first - 1] && junk[i - first - 1] in junk;
      } else {
        assert s[i] == digits[i - stop - 1];
      }
    }
  }

  // ------------------------------------------------------------------ text

  predicate AreChars(t: seq<CharMarkup>) {
    forall i :: 0 <= i < |t| ==> IsChar(t[i])
  }

  /** The byte does not stand there as itself. */
  predicate NotRaw(t: seq<CharMarkup>, c: byte) {
    forall i :: 0 <= i < |t| ==> t[i] != Raw(c)
  }

  predicate AllCertain(t: seq<CharMarkup>) {
    forall i :: 0 <= i < |t| ==> Certain(t[i])
  }

  function AllWritten(t: seq<CharMarkup>): bytes
    requires AreChars(t)
  {
    if t == [] then [] else Written(t[0]) + AllWritten(t[1..])
  }

  function AllMeant(t: seq<CharMarkup>): bytes
    requires AreChars(t)
  {
    if t == [] then [] else Meant(t[0]) + AllMeant(t[1..])
  }

  predicate IsBlank(m: CharMarkup) {
    m.Raw? && IsWhiteSpace(m.c)
  }

  predicate AllBlank(t: seq<CharMarkup>) {
    forall i :: 0 <= i < |t| ==> IsBlank(t[i])
  }

  /** Runs of raw white space between other characters become one space each, and vanish at both ends. */
  function Condensed(t: seq<CharMarkup>): bytes
    requires AreChars(t)
    decreases |t|, 0
  {
    if t == [] then []
    else if IsBlank(t[0]) then Condensed(t[1..])
    else Meant(t[0]) + CondensedOn(t[1..])
  }

  /** The same behind a character that is no white space. */
  function CondensedOn(t: seq<CharMarkup>): bytes
    requires AreChars(t)
    decreases |t|, 1
  {
    if t == [] || AllBlank(t) then []
    else if IsBlank(t[0]) then [' ' as int] + Condensed(t)
    else Meant(t[0]) + CondensedOn(t[1..])
  }

  predicate IsStop(c: byte) {
    c == LT || c == QUOTE || c == APOS
  }

  lemma WrittenStarts(m: CharMarkup)
    requires IsChar(m)
    ensures Written(m) != [] && (!m.Raw? ==> Written(m)[0] == AMP)
  {
    NamesAre();
    assert Ascii("&") == [AMP];
    if m.Numeric? {
      assert Opening(m.hex)[0] == AMP;
    }
  }

  lemma TagIsByteAt(s: bytes, p: Ptr, c: byte)
    requires 0 <= p <= |s|
    ensures TagAt(s, p, [c]) <==> Live(s, p) && s[p] == c
  {
    if Live(s, p) {
      assert s[p..p + 1] == [s[p]];
    }
  }

  lemma OneMoreChar(s: bytes, p: Ptr, m: CharMarkup, t: seq<CharMarkup>, c: byte)
    requires IsChar(m) && AreChars(t) && Occurs(s, p, Written(m)) && Occurs(s, p + |Written(m)|, AllWritten(t))
    requires NotRaw(t, c) && m != Raw(c)
    ensures AreChars([m] + t) && NotRaw([m] + t, c)
    ensures AllWritten([m] + t) == Written(m) + AllWritten(t) && Occurs(s, p, AllWritten([m] + t))
    ensures AllMeant([m] + t) == Meant(m) + AllMeant(t)
    ensures !IsBlank(m) ==> !AllBlank([m] + t) && Condensed([m] + t) == CondensedOn([m] + t) == Meant(m) + CondensedOn(t)
    ensures IsBlank(m) ==> Condensed([m] + t) == Condensed(t) && (AllBlank([m] + t) <==> AllBlank(t))
  {
    hide Written, Meant, IsChar, Occurs;
    var all := [m] + t;
    assert all[1..] == t && all[0] == m;
    assert AllWritten(all) == Written(m) + AllWritten(t);
    OccursJoin(s, p, Written(m), AllWritten(t));
    if !IsBlank(m) {
      assert !AllBlank(all) by {
        assert !IsBlank(all[0]);
      }
    } else if AllBlank(t) {
      assert forall i :: 1 <= i < |all| ==> all[i] == t[i - 1];
    } else {
      assert forall i :: 0 <= i < |t| ==> t[i] == all[i + 1];
    }
  }

  /** What the loop that keeps white space reads is text markup, up to a stop byte. */
  lemma {:induction false} KeptIsText(s: bytes, p: Ptr, c: byte) returns (t: seq<CharMarkup>)
    requires p <= |s| && IsStop(c) && Live(s, KeepText(s, p, [c]).next)
    ensures AreChars(t) && NotRaw(t, c) && Occurs(s, p, AllWritten(t))
    ensures KeepText(s, p, [c]) == Read(AllMeant(t), p + |AllWritten(t)|)
    decreases if Live(s, p) then |s| - p else 0
  {
    hide CharAt, Written, Meant, IsChar, Occurs, AllWritten, AllMeant, Condensed, CondensedOn;
    TagIsByteAt(s, p, c);
    if TagAt(s, p, [c]) {
      t := [];
      NoText(s, p);
    } else {
      var m := MarkupAt(s, p);
      StopIsNoStart(s, p, m, c);
      t := KeptIsText(s, CharAt(s, p).next, c);
      OneMoreChar(s, p, m, t, c);
      t := [m] + t;
    }
  }

  lemma NoText(s: bytes, p: Ptr)
    requires 0 <= p <= |s|
    ensures AllWritten([]) == [] && AllMeant([]) == [] && Condensed([]) == [] && CondensedOn([]) == []
    ensures AllBlank([]) && AreChars([]) && NotRaw([], LT)
    ensures Occurs(s, p, [])
  {}

  lemma StopIsNoStart(s: bytes, p: Ptr, m: CharMarkup, c: byte)
    requires IsChar(m) && Occurs(s, p, Written(m)) && IsStop(c)
    ensures |Written(m)| > 0 && Live(s, p) && (s[p] != c <==> m != Raw(c))
    ensures s[p] != AMP ==> m == Raw(s[p])
    ensures IsBlank(m) <==> IsWhiteSpace(s[p])
  {
    WrittenStarts(m);
    OccursByte(s, p, Written(m), 0);
  }

  /** What the loop that condenses white space reads is text markup, condensed. */
  lemma {:induction false} TrimmedIsText(s: bytes, p: Ptr, pending: bool) returns (t: seq<CharMarkup>)
    requires p <= |s| && Live(s, TrimText(s, p, pending, [LT]).next)
    ensures AreChars(t) && NotRaw(t, LT) && Occurs(s, p, AllWritten(t))
    ensures TrimText(s, p, pending, [LT]).next == p + |AllWritten(t)|
    ensures TrimText(s, p, pending, [LT]).text
         == if !pending then CondensedOn(t) else if AllBlank(t) then [] else [SPACE] + Condensed(t)
    decreases if Live(s, p) then |s| - p else 0
  {
    hide CharAt, Written, Meant, IsChar, Occurs, AllWritten, AllMeant, Condensed, CondensedOn, AllBlank, IsBlank,
         AreChars, NotRaw, TrimText, TagAt;
    TrimOnce(s, p, pending);
    TagIsByteAt(s, p, LT);
    if TagAt(s, p, [LT]) {
      t := [];
      NoText(s, p);
    } else if IsWhiteSpace(s[p]) {
      t := TrimmedIsText(s, p + 1, true);
      RawIs(s, p);
      StopIsNoStart(s, p, Raw(s[p]), LT);
      OneMoreChar(s, p, Raw(s[p]), t, LT);
      BlankBefore(Raw(s[p]), t);
      t := [Raw(s[p])] + t;
    } else {
      TrimOnce(s, CharAt(s, p).next, false);
      var m := MarkupAt(s, p);
      StopIsNoStart(s, p, m, LT);
      t := TrimmedIsText(s, CharAt(s, p).next, false);
      OneMoreChar(s, p, m, t, LT);
      Associated(pending, Meant(m), CondensedOn(t));
      t := [m] + t;
    }
  }

  /** One turn of the loop that condenses white space. */
  lemma TrimOnce(s: bytes, p: Ptr, pending: bool)
    requires p <= |s|
    ensures TrimText(s, p, pending, [LT]) ==
            if !Live(s, p) || TagAt(s, p, [LT]) then Read([], p)
            else if IsWhiteSpace(s[p]) then TrimText(s, p + 1, true, [LT])
            else
              var c := CharAt(s, p);
              var rest := TrimText(s, c.next, false, [LT]);
              Read((if pending then [SPACE] else []) + c.text + rest.text, rest.next)
  {}

  lemma Associated(pending: bool, a: bytes, b: bytes)
    ensures (if pending then [SPACE] else []) + a + b == (if pending then [SPACE] else []) + (a + b)
    ensures [] + (a + b) == a + b
  {}

  lemma BlankBefore(m: CharMarkup, t: seq<CharMarkup>)
    requires IsBlank(m) && IsChar(m) && AreChars(t)
    ensures CondensedOn([m] + t) == if AllBlank(t) then [] else [SPACE] + Condensed(t)
  {
    var all := [m] + t;
    assert all[1..] == t;
    if AllBlank(t) {
      assert forall i :: 1 <= i < |all| ==> all[i] == t[i - 1];
      assert AllBlank(all);
    } else {
      assert forall i :: 0 <= i < |t| ==> t[i] == all[i + 1];
      assert !AllBlank(all);
    }
  }

  /** The first character of a text, and the rest. */
  lemma FirstChar(s: bytes, p: Ptr, t: seq<CharMarkup>, c: byte)
    requires AreChars(t) && AllCertain(t) && NotRaw(t, c) && t != [] && Occurs(s, p, AllWritten(t)) && IsStop(c)
    ensures AreChars(t[1..]) && AllCertain(t[1..]) && NotRaw(t[1..], c) && IsChar(t[0]) && t[0] != Raw(c)
    ensures Occurs(s, p, Written(t[0])) && Occurs(s, p + |Written(t[0])|, AllWritten(t[1..]))
    ensures AllWritten(t) == Written(t[0]) + AllWritten(t[1..])
    ensures Live(s, p) && s[p] != c && CharAt(s, p) == CharRead(Meant(t[0]), p + |Written(t[0])|)
    ensures IsBlank(t[0]) <==> IsWhiteSpace(s[p])
    ensures IsBlank(t[0]) ==> |Written(t[0])| == 1
    ensures t == [t[0]] + t[1..]
  {
    hide CharAt, Written, Meant, Occurs, IsBlank, IsChar;
    OccursSplit(s, p, Written(t[0]), AllWritten(t[1..]));
    ReadsAsMeant(s, p, t[0]);
    StopIsNoStart(s, p, t[0], c);
    BlankIsOne(t[0]);
  }

  lemma BlankIsOne(m: CharMarkup)
    requires IsChar(m)
    ensures IsBlank(m) ==> |Written(m)| == 1
  {}

  /** Text markup up to a stop byte is read as what it stands for, white space kept. */
  lemma {:induction false} KeptReads(s: bytes, p: Ptr, t: seq<CharMarkup>, c: byte)
    requires AreChars(t) && AllCertain(t) && NotRaw(t, c) && IsStop(c) && Occurs(s, p, AllWritten(t))
    requires p + |AllWritten(t)| < |s| && s[p + |AllWritten(t)|] == c
    ensures KeepText(s, p, [c]) == Read(AllMeant(t), p + |AllWritten(t)|)
    decreases |t|
  {
    hide CharAt, Written, Meant, Occurs, IsBlank, IsChar, AllWritten, AllMeant;
    OccursSlices(s, p, AllWritten(t));
    NoText(s, p);
    TagIsByteAt(s, p, c);
    if t != [] {
      FirstChar(s, p, t, c);
      KeptReads(s, p + |Written(t[0])|, t[1..], c);
      OneMoreChar(s, p, t[0], t[1..], c);
    }
  }

  /** And condensed. */
  lemma {:induction false} TrimmedReads(s: bytes, p: Ptr, pending: bool, t: seq<CharMarkup>)
    requires AreChars(t) && AllCertain(t) && NotRaw(t, LT) && Occurs(s, p, AllWritten(t))
    requires p + |AllWritten(t)| < |s| && s[p + |AllWritten(t)|] == LT
    ensures TrimText(s, p, pending, [LT]).next == p + |AllWritten(t)|
    ensures TrimText(s, p, pending, [LT]).text
         == if !pending then CondensedOn(t) else if AllBlank(t) then [] else [SPACE] + Condensed(t)
    decreases |t|
  {
    hide CharAt, Written, Meant, IsChar, Occurs, AllWritten, AllMeant, Condensed, CondensedOn, AllBlank, IsBlank,
         AreChars, NotRaw, AllCertain, TrimText, TagAt;
    OccursSlices(s, p, AllWritten(t));
    NoText(s, p);
    TrimOnce(s, p, pending);
    TagIsByteAt(s, p, LT);
    if t != [] {
      FirstChar(s, p, t, LT);
      OneMoreChar(s, p, t[0], t[1..], LT);
      if IsWhiteSpace(s[p]) {
        TrimmedReads(s, p + 1, true, t[1..]);
        BlankBefore(t[0], t[1..]);
      } else {
        TrimmedReads(s, p + |Written(t[0])|, false, t[1..]);
        Associated(pending, Meant(t[0]), CondensedOn(t[1..]));
      }
    }
  }
}
