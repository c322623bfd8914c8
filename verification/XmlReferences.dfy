/**
 Numeric character references: when the digits read from right to left, with a 32-bit multiplier, are the number
 that they spell, and when a reference and the character itself read alike.
 */
module XmlReferences {
  import opened Octets
  import opened XmlBytes
  import opened XmlScanner
  import opened XmlUtf8

  /** From after first up to q there are only digits. */
  predicate AllDigits(s: bytes, first: Ptr, q: Ptr, base: nat)
    requires base == 10 || base == 16
  {
    && 0 <= first <= q < |s|
    && s[first] == (if base == 16 then LOWER_X else HASH)
    && forall i :: first < i <= q ==> DigitValue(s[i], base).Some?
  }

  /** The number that they spell. */
  function Spelled(s: bytes, first: Ptr, q: Ptr, base: nat): nat
    requires 0 <= first <= q < |s| && (base == 10 || base == 16) && AllDigits(s, first, q, base)
    decreases q - first
  {
    if q == first then 0 else Spelled(s, first, q - 1, base) * base + DigitValue(s[q], base).value
  }

  function Low32(n: nat): nat {
    n % TWO_32
  }

  function Low64(n: nat): nat {
    n % TWO_64
  }

  /** What the loop adds up, before the sum wraps around. */
  function Added(s: bytes, first: Ptr, q: Ptr, base: nat, mult: nat): nat
    requires 0 <= first <= q < |s| && (base == 10 || base == 16) && AllDigits(s, first, q, base)
    decreases q - first
  {
    if q == first then 0
    else Low32(mult * DigitValue(s[q], base).value) + Added(s, first, q - 1, base, Low32(mult * base))
  }

  lemma DigitsStep(s: bytes, first: Ptr, q: Ptr, base: nat, mult: nat, ucs: nat)
    requires 0 <= first < q < |s| && (base == 10 || base == 16) && AllDigits(s, first, q, base)
    ensures AllDigits(s, first, q - 1, base) && DigitValue(s[q], base).Some?
    ensures DigitsFrom(s, q, first, base, mult, ucs)
         == DigitsFrom(s, q - 1, first, base, Low32(mult * base), Low64(ucs + Low32(mult * DigitValue(s[q], base).value)))
  {
    assert s[q] != s[first];
  }

  lemma {:induction false} LoopAdds(s: bytes, first: Ptr, q: Ptr, base: nat, mult: nat, ucs: nat)
    requires 0 <= first <= q < |s| && (base == 10 || base == 16) && AllDigits(s, first, q, base)
    ensures DigitsFrom(s, q, first, base, mult, Low64(ucs)) == Some(Low64(ucs + Added(s, first, q, base, mult)))
    decreases q - first
  {
    hide Low32, Low64, AllDigits, Added, DigitsFrom, DigitValue;
    if q > first {
      DigitsStep(s, first, q, base, mult, Low64(ucs));
      AddedStep(s, first, q, base, mult);
      var t := Low32(mult * DigitValue(s[q], base).value);
      WrapOnce(ucs, t);
      LoopAdds(s, first, q - 1, base, Low32(mult * base), ucs + t);
    } else {
      NoDigits(s, first, base, mult, Low64(ucs));
    }
  }

  lemma AddedStep(s: bytes, first: Ptr, q: Ptr, base: nat, mult: nat)
    requires (base == 10 || base == 16) && AllDigits(s, first, q, base) && first < q
    requires DigitValue(s[q], base).Some? && AllDigits(s, first, q - 1, base)
    ensures Added(s, first, q, base, mult)
         == Low32(mult * DigitValue(s[q], base).value) + Added(s, first, q - 1, base, Low32(mult * base))
  {
    hide Low32, DigitValue, AllDigits;
  }

  lemma NoDigits(s: bytes, first: Ptr, base: nat, mult: nat, ucs: nat)
    requires (base == 10 || base == 16) && AllDigits(s, first, first, base)
    ensures DigitsFrom(s, first, first, base, mult, ucs) == Some(ucs) && Added(s, first, first, base, mult) == 0
  {}

  lemma WrapOnce(a: nat, b: nat)
    ensures Low64(Low64(a) + b) == Low64(a + b)
  {}

  /** No digit's share exceeds 32 bits. */
  predicate Fits(s: bytes, first: Ptr, q: Ptr, base: nat, pow: nat)
    requires 0 <= first <= q < |s| && (base == 10 || base == 16) && AllDigits(s, first, q, base)
    decreases q - first
  {
    q == first || (pow * DigitValue(s[q], base).value < TWO_32 && Fits(s, first, q - 1, base, pow * base))
  }

  lemma LowProduct(a: nat, b: nat)
    ensures Low32(Low32(a) * b) == Low32(a * b)
  {
    var k, r := a / TWO_32, a % TWO_32;
    assert a * b == r * b + TWO_32 * (k * b) by {
      assert a == TWO_32 * k + r;
    }
    AddMultiple(r * b, k * b);
  }

  lemma AddMultiple(a: nat, k: nat)
    ensures (a + TWO_32 * k) % TWO_32 == a % TWO_32
  {}

  lemma {:induction false} AddedAtMost(s: bytes, first: Ptr, q: Ptr, base: nat, pow: nat)
    requires 0 <= first <= q < |s| && (base == 10 || base == 16) && AllDigits(s, first, q, base)
    ensures Added(s, first, q, base, Low32(pow)) <= pow * Spelled(s, first, q, base)
    ensures Added(s, first, q, base, Low32(pow)) == pow * Spelled(s, first, q, base) <==> Fits(s, first, q, base, pow)
    decreases q - first
  {
    hide Low32, DigitValue, AllDigits, Spelled, Added, Fits;
    if q > first {
      LastDigit(s, first, q, base);
      Unfolded(s, first, q, base, pow);
      AddedStep(s, first, q, base, Low32(pow));
      var d, rest := DigitValue(s[q], base).value, Spelled(s, first, q - 1, base);
      LowProduct(pow, d);
      LowProduct(pow, base);
      AddedAtMost(s, first, q - 1, base, pow * base);
      LowAtMost(pow * d);
      Distribute(pow, base, rest, d);
    } else {
      NothingAdded(s, first, base, pow);
    }
  }

  lemma Unfolded(s: bytes, first: Ptr, q: Ptr, base: nat, pow: nat)
    requires (base == 10 || base == 16) && AllDigits(s, first, q, base) && first < q
    requires DigitValue(s[q], base).Some? && AllDigits(s, first, q - 1, base)
    ensures var d := DigitValue(s[q], base).value;
            && Spelled(s, first, q, base) == Spelled(s, first, q - 1, base) * base + d
            && (Fits(s, first, q, base, pow) <==> pow * d < TWO_32 && Fits(s, first, q - 1, base, pow * base))
  {
    hide Low32, DigitValue, AllDigits;
  }

  lemma NothingAdded(s: bytes, first: Ptr, base: nat, pow: nat)
    requires (base == 10 || base == 16) && AllDigits(s, first, first, base)
    ensures Spelled(s, first, first, base) == 0 && Added(s, first, first, base, Low32(pow)) == 0
    ensures Fits(s, first, first, base, pow)
  {}

  lemma LastDigit(s: bytes, first: Ptr, q: Ptr, base: nat)
    requires (base == 10 || base == 16) && AllDigits(s, first, q, base) && first < q
    ensures DigitValue(s[q], base).Some? && AllDigits(s, first, q - 1, base)
  {}

  lemma Distribute(pow: nat, base: nat, rest: nat, d: nat)
    ensures pow * (rest * base + d) == pow * base * rest + pow * d
  {}

  lemma LowAtMost(n: nat)
    ensures Low32(n) <= n && (Low32(n) == n <==> n < TWO_32)
  {}

  function Limit(base: nat): nat {
    if base == 10 then 5_000_000_000 else TWO_32
  }

  /** The powers of the base that are reached before a share can exceed 32 bits. */
  predicate SmallPower(base: nat, pow: nat) {
    if base == 10
    then pow in {1, 10, 100, 1000, 10000, 100000, 1000000, 10000000, 100000000}
    else pow in {1, 16, 256, 4096, 65536, 0x100000, 0x1000000, 0x10000000}
  }

  predicate Power(base: nat, pow: nat) {
    SmallPower(base, pow) || (base == 10 && pow == 1000000000) || pow >= Limit(base)
  }

  lemma {:induction false} FitsBelowLimit(s: bytes, first: Ptr, q: Ptr, base: nat, pow: nat)
    requires 0 <= first <= q < |s| && (base == 10 || base == 16) && AllDigits(s, first, q, base) && Power(base, pow)
    ensures Fits(s, first, q, base, pow) <==> pow * Spelled(s, first, q, base) < Limit(base)
    decreases q - first
  {
    if q > first {
      LastDigit(s, first, q, base);
      var d, rest := DigitValue(s[q], base).value, Spelled(s, first, q - 1, base);
      FitsBelowLimit(s, first, q - 1, base, pow * base);
      Distribute(pow, base, rest, d);
      Share(base, pow, d, rest);
    }
  }

  lemma Share(base: nat, pow: nat, d: nat, rest: nat)
    requires (base == 10 || base == 16) && Power(base, pow) && d < base
    ensures Power(base, pow * base)
    ensures pow * d < TWO_32 && pow * base * rest < Limit(base) <==> pow * base * rest + pow * d < Limit(base)
  {
  }

  /** The digits read as the number they spell exactly when that is below 5000000000, or 2 to the 32 for hex digits. */
  lemma DigitsAreRead(s: bytes, first: Ptr, q: Ptr, base: nat)
    requires (base == 10 || base == 16) && AllDigits(s, first, q, base)
    ensures DigitsFrom(s, q, first, base, 1, 0) == Some(Spelled(s, first, q, base))
       <==> Spelled(s, first, q, base) < Limit(base)
  {
    hide Added, DigitsFrom, Spelled, Fits, DigitValue;
    LoopAdds(s, first, q, base, 1, 0);
    AddedAtMost(s, first, q, base, 1);
    FitsBelowLimit(s, first, q, base, 1);
  }

  /** A whole reference, from the ampersand at p to the semicolon. */
  ghost predicate IsReference(s: bytes, p: Ptr, semi: Ptr, base: nat) {
    && (base == 10 || base == 16)
    && 0 <= p && p + 3 < |s| && s[p] == AMP && s[p + 1] == HASH
    && var first := if base == 16 then p + 2 else p + 1;
    first + 1 < semi < |s| && s[semi] == SEMI && AllDigits(s, first, semi - 1, base)
  }

  ghost function ReferredTo(s: bytes, p: Ptr, semi: Ptr, base: nat): nat
    requires IsReference(s, p, semi, base)
  {
    Spelled(s, if base == 16 then p + 2 else p + 1, semi - 1, base)
  }

  lemma ReferenceIsNumber(s: bytes, p: Ptr, semi: Ptr, base: nat)
    requires IsReference(s, p, semi, base)
    ensures ReferenceAt(s, p) == Some((ReferredTo(s, p, semi, base), semi + 1))
       <==> ReferredTo(s, p, semi, base) < Limit(base)
  {
    var first := if base == 16 then p + 2 else p + 1;
    assert DigitValue(s[first + 1], base).Some?;
    FindIs(s, first + 1, SEMI, semi);
    DigitsAreRead(s, first, semi - 1, base);
  }

  /** A reference to a character from 0x80 on reads as the character itself does, in UTF-8. */
  lemma ReferenceReadsAsCharacter(s: bytes, p: Ptr, semi: Ptr, base: nat, t: bytes, q: Ptr)
    requires IsReference(s, p, semi, base)
    requires var u := ReferredTo(s, p, semi, base); 0x80 <= u <= 0x10FFFF && Occurs(t, q, Utf8(u))
    ensures Live(t, q) && CharAtUtf8(s, p) == CharRead(CharAtUtf8(t, q).text, semi + 1)
  {
    hide Utf8, Spelled, ReferenceAt;
    ReferenceIsNumber(s, p, semi, base);
    RawCharacterBack(t, q, ReferredTo(s, p, semi, base));
  }
}
