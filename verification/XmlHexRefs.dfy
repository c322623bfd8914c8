/**
 Texts that hold `&#x`, which EncodeString passes through: none of them is read back as it was.
 */
module XmlHexRefs {
  import opened Octets
  import opened XmlBytes
  import opened XmlScanner
  import opened XmlEncoder

  /** The bytes that are not spaces. */
  function Ink(t: bytes): nat {
    if t == [] then 0 else (if t[0] == SPACE then 0 else 1) + Ink(t[1..])
  }

  lemma {:induction false} InkConcat(a: bytes, b: bytes)
    ensures Ink(a + b) == Ink(a) + Ink(b)
  {
    if a == [] {
      assert a + b == b;
    } else {
      assert (a + b)[1..] == a[1..] + b;
      InkConcat(a[1..], b);
    }
  }

  lemma InkOfReference(t: bytes, j: nat, m: nat)
    requires HexRefAt(t, j) && j + 4 <= m <= |t| && t[m - 1] != SPACE
    ensures Ink(t[j..]) >= Ink(t[m..]) + 4
  {
    assert t[j..] == [t[j]] + [t[j + 1]] + [t[j + 2]] + t[j + 3..m - 1] + [t[m - 1]] + t[m..];
    InkConcat([t[j]] + [t[j + 1]] + [t[j + 2]] + t[j + 3..m - 1] + [t[m - 1]], t[m..]);
    InkConcat([t[j]] + [t[j + 1]] + [t[j + 2]] + t[j + 3..m - 1], [t[m - 1]]);
    InkConcat([t[j]] + [t[j + 1]] + [t[j + 2]], t[j + 3..m - 1]);
    InkConcat([t[j]] + [t[j + 1]], [t[j + 2]]);
    InkConcat([t[j]], [t[j + 1]]);
  }

  lemma PassEndIs(t: bytes, i: nat)
    requires i < |t|
    ensures var k := PassEnd(t, i);
            && (forall l :: i < l < k ==> t[l] != SEMI)
            && ((k > i && t[k] == SEMI) || k == |t| - 1)
    decreases |t| - i
  {
    if i + 1 < |t| && t[i + 1] != SEMI {
      PassEndIs(t, i + 1);
    }
  }

  /** Where the encoding of t from m on starts, when that from j on starts at p. */
  function At(t: bytes, j: nat, p: Ptr, m: nat): Ptr
    requires j <= |t| && m <= |t|
  {
    p + |EncodeFrom(t, j)| - |EncodeFrom(t, m)|
  }

  /** A reference is copied as it is, up to the byte where PassEnd stops. */
  lemma RawLayout(s: bytes, p: Ptr, t: bytes, j: nat, k: nat)
    requires HexRefAt(t, j) && k == PassEnd(t, j) && Occurs(s, p, EncodeFrom(t, j))
    ensures j + 2 <= k < |t| && 0 <= p && |EncodeFrom(t, j)| == (k - j) + |EncodeFrom(t, k)|
    ensures Occurs(s, p + (k - j), EncodeFrom(t, k))
    ensures forall l {:trigger t[l]} :: j <= l < k ==> s[p + (l - j)] == t[l]
  {
    hide EncodeFrom;
    EncodeHexRef(t, j);
    var raw := t[j..k];
    PassEndIs(t, j);
    assert k >= j + 2;
    OccursSplit(s, p, raw, EncodeFrom(t, k));
    forall l {:trigger t[l]} | j <= l < k
      ensures s[p + (l - j)] == t[l]
    {
      assert raw[l - j] == t[l];
    }
  }

  lemma EncodeHexRef(t: bytes, j: nat)
    requires HexRefAt(t, j)
    ensures EncodeFrom(t, j) == t[j..PassEnd(t, j)] + EncodeFrom(t, PassEnd(t, j))
  {}

  lemma EncodePlain(t: bytes, j: nat)
    requires j < |t| && !HexRefAt(t, j)
    ensures EncodeFrom(t, j) == EncodeChar(t[j]) + EncodeFrom(t, j + 1)
  {
    hide EncodeChar;
  }

  /** How a reference reads: nowhere, beyond e, or as at most one byte up to where the encoding of t[m..] starts. */
  ghost predicate Swallowed(c: CharRead, t: bytes, j: nat, m: nat, p: Ptr, e: Ptr)
    requires j <= |t|
  {
    || c.next == NULL || c.next > e
    || (j + 4 <= m <= |t| && t[m - 1] != SPACE && |c.text| <= 1 && c.next == At(t, j, p, m))
  }

  /** A reference that has its semicolon. */
  lemma TerminatedReference(s: bytes, p: Ptr, t: bytes, j: nat, e: Ptr)
    requires HexRefAt(t, j) && Occurs(s, p, EncodeFrom(t, j)) && t[PassEnd(t, j)] == SEMI
    ensures var m := PassEnd(t, j) + 1;
            && Live(s, p) && Occurs(s, At(t, j, p, m), EncodeFrom(t, m)) && Swallowed(CharAt(s, p), t, j, m, p, e)
  {
    hide DigitsFrom, EncodeFrom;
    var k := PassEnd(t, j);
    PassEndIs(t, j);
    RawLayout(s, p, t, j, k);
    EncodePlain(t, k);
    OccursSplit(s, p + (k - j), [SEMI], EncodeFrom(t, k + 1));
    assert [SEMI][0] == s[p + (k - j) + 0];
    assert s[p + (j - j)] == t[j] && s[p + (j + 1 - j)] == t[j + 1];
    assert k > j + 2;
    assert s[p + (j + 2 - j)] == t[j + 2];
    forall i | p + 3 <= i < p + (k - j)
      ensures s[i] != SEMI
    {
      assert s[p + (j + (i - p) - j)] == t[j + (i - p)];
    }
    FindIs(s, p + 3, SEMI, p + (k - j));
  }

  lemma CharSemicolons(c: byte)
    requires c != SEMI
    ensures var x := EncodeChar(c);
            && x != [] && (forall i :: 0 <= i < |x| - 1 ==> x[i] != SEMI)
            && (x[|x| - 1] == SEMI ==> c != SPACE && c != LOWER_X)
            && (c == LOWER_X ==> x == [LOWER_X])
  {}

  /** A reference that no semicolon ends: reading it looks for one in the last byte's encoding, or after the text. */
  lemma OpenReference(s: bytes, p: Ptr, t: bytes, j: nat, e: Ptr)
    requires HexRefAt(t, j) && Occurs(s, p, EncodeFrom(t, j)) && t[PassEnd(t, j)] != SEMI
    requires Gap(s, p + |EncodeFrom(t, j)|, e) && e < |s| && s[e] != SEMI
    ensures Live(s, p) && Swallowed(CharAt(s, p), t, j, |t|, p, e)
  {
    hide DigitsFrom, EncodeFrom, EncodeChar;
    var k := PassEnd(t, j);
    PassEndIs(t, j);
    RawLayout(s, p, t, j, k);
    EncodePlain(t, k);
    EncodeNothing(t);
    var x := EncodeChar(t[k]);
    var q := p + (k - j);
    CharSemicolons(t[k]);
    assert EncodeFrom(t, k) == x;
    var end := q + |x|;
    forall i | p + 3 <= i < end - 1
      ensures s[i] != SEMI
    {
      if i < q {
        assert s[p + (j + (i - p) - j)] == t[j + (i - p)];
      } else {
        assert s[q + (i - q)] == x[i - q];
      }
    }
    assert s[end - 1] == s[q + (|x| - 1)] == x[|x| - 1];
    assert s[p + (j - j)] == t[j] && s[p + (j + 1 - j)] == t[j + 1];
    if k == j + 2 {
      assert s[q + 0] == x[0];
    } else {
      assert s[p + (j + 2 - j)] == t[j + 2];
    }
    if s[end - 1] == SEMI {
      FindIs(s, p + 3, SEMI, end - 1);
    } else {
      assert forall i :: end <= i < e ==> IsWhiteSpace(s[i]);
      var semi := Find(s, p + 3, SEMI);
      assert semi != NULL ==> semi > e;
    }
  }

  lemma EncodeNothing(t: bytes)
    ensures EncodeFrom(t, |t|) == []
  {}

  /** Reading any text that holds a reference at j, up to where its encoding ends. */
  lemma AnyReference(s: bytes, p: Ptr, t: bytes, j: nat, e: Ptr) returns (m: nat)
    requires HexRefAt(t, j) && Occurs(s, p, EncodeFrom(t, j))
    requires Gap(s, p + |EncodeFrom(t, j)|, e) && e < |s| && s[e] != SEMI
    ensures Live(s, p) && s[p] == AMP && Swallowed(CharAt(s, p), t, j, m, p, e)
    ensures m <= |t| && Occurs(s, At(t, j, p, m), EncodeFrom(t, m))
  {
    hide EncodeFrom, CharAt, DigitsFrom;
    var k := PassEnd(t, j);
    RawLayout(s, p, t, j, k);
    assert s[p + (j - j)] == t[j];
    if t[k] == SEMI {
      TerminatedReference(s, p, t, j, e);
      m := k + 1;
    } else {
      OpenReference(s, p, t, j, e);
      EncodeNothing(t);
      m := |t|;
    }
  }

  // ------------------------------------------------------------------ whole texts

  /** There is a reference at or after j. */
  ghost predicate RefFrom(t: bytes, j: nat) {
    exists i: nat :: i >= j && HexRefAt(t, i)
  }

  /** How the read of t[j..] can end: nowhere, beyond e, or at e with no more ink than was written, less after a reference. */
  ghost predicate ReadsLess(r: Read, t: bytes, j: nat, e: Ptr)
    requires j <= |t|
  {
    || r.next == NULL || r.next > e
    || (r.next == e && Ink(r.text) <= Ink(t[j..]) && (RefFrom(t, j) ==> Ink(r.text) < Ink(t[j..])))
  }

  lemma InkFrom(t: bytes, j: nat)
    requires j < |t|
    ensures Ink(t[j..]) == (if t[j] == SPACE then 0 else 1) + Ink(t[j + 1..])
    ensures !HexRefAt(t, j) ==> (RefFrom(t, j) <==> RefFrom(t, j + 1))
  {
    assert t[j..][1..] == t[j + 1..];
    if !HexRefAt(t, j) && RefFrom(t, j) {
      var i: nat :| i >= j && HexRefAt(t, i);
      assert i >= j + 1;
    }
    if RefFrom(t, j + 1) {
      var i: nat :| i >= j + 1 && HexRefAt(t, i);
      assert i >= j;
    }
  }

  lemma InkOfByte(x: bytes)
    requires |x| <= 1
    ensures Ink(x) <= 1
  {
    if x != [] {
      assert x[1..] == [];
    }
  }

  lemma {:induction false} KeptInk(s: bytes, p: Ptr, t: bytes, j: nat, e: Ptr, tag: bytes)
    requires j <= |t| && IsEndTag(tag) && Occurs(s, p, EncodeFrom(t, j))
    requires e == p + |EncodeFrom(t, j)| && e < |s| && TagAt(s, e, tag)
    ensures ReadsLess(KeepText(s, p, tag), t, j, e)
    decreases |t| - j
  {
    hide EncodeFrom, CharAt, EncodeChar, RefFrom, Ink;
    TagAtFirst(s, e, tag);
    GapOfNothing(s, e);
    if j == |t| {
      EncodeNothing(t);
      NoInk(t);
    } else if HexRefAt(t, j) {
      var m := AnyReference(s, p, t, j, e);
      NotEndTag(s, p, tag);
      var c := CharAt(s, p);
      if c.next != NULL && c.next <= e {
        KeptInk(s, c.next, t, m, e, tag);
        InkOfReference(t, j, m);
        InkOfByte(c.text);
        InkConcat(c.text, KeepText(s, c.next, tag).text);
      }
    } else {
      EncodePlain(t, j);
      OccursSplit(s, p, EncodeChar(t[j]), EncodeFrom(t, j + 1));
      ReadEncodedChar(s, p, t[j]);
      NotEndTag(s, p, tag);
      var q := p + |EncodeChar(t[j])|;
      KeptInk(s, q, t, j + 1, e, tag);
      InkFrom(t, j);
      InkOfOne(t[j]);
      InkConcat([t[j]], KeepText(s, q, tag).text);
    }
  }

  lemma NoInk(t: bytes)
    ensures Ink(t[|t|..]) == 0 && Ink([]) == 0 && !RefFrom(t, |t|)
  {}

  lemma InkOfOne(c: byte)
    ensures Ink([c]) == if c == SPACE then 0 else 1
  {
    assert [c][1..] == [];
  }

  lemma {:induction false} TrimmedInk(s: bytes, p: Ptr, pending: bool, t: bytes, j: nat, e: Ptr, tag: bytes)
    requires j <= |t| && IsEndTag(tag) && Occurs(s, p, EncodeFrom(t, j))
    requires Gap(s, p + |EncodeFrom(t, j)|, e) && 0 <= e < |s| && TagAt(s, e, tag)
    ensures ReadsLess(TrimText(s, p, pending, tag), t, j, e)
    decreases |t| - j
  {
    hide EncodeFrom, CharAt, EncodeChar, RefFrom, Ink, Occurs;
    OccursBounds(s, p, EncodeFrom(t, j));
    TagAtFirst(s, e, tag);
    if j == |t| {
      EncodeNothing(t);
      NoInk(t);
      TrimWhite(s, p, pending, e, tag);
    } else if HexRefAt(t, j) {
      var m := AnyReference(s, p, t, j, e);
      NotEndTag(s, p, tag);
      var c := CharAt(s, p);
      if c.next != NULL && c.next <= e {
        TrimmedInk(s, c.next, false, t, m, e, tag);
        InkOfReference(t, j, m);
        InkOfByte(c.text);
        InkOfStep(pending, c.text, TrimText(s, c.next, false, tag).text);
      }
    } else {
      EncodePlain(t, j);
      OccursSplit(s, p, EncodeChar(t[j]), EncodeFrom(t, j + 1));
      ReadEncodedChar(s, p, t[j]);
      NotEndTag(s, p, tag);
      var q := p + |EncodeChar(t[j])|;
      TrimmedInk(s, q, t[j] == SPACE, t, j + 1, e, tag);
      InkFrom(t, j);
      InkOfOne(t[j]);
      if t[j] != SPACE {
        InkOfStep(pending, [t[j]], TrimText(s, q, false, tag).text);
      }
    }
  }

  lemma InkOfStep(pending: bool, c: bytes, rest: bytes)
    ensures Ink((if pending then [SPACE] else []) + c + rest) == Ink(c) + Ink(rest)
  {
    var gap: bytes := if pending then [SPACE] else [];
    InkConcat(gap + c, rest);
    InkConcat(gap, c);
    InkOfOne(SPACE);
  }

  /** Skipping leading white space first loses no ink. */
  lemma {:induction false} InkAfterSkip(s: bytes, p: Ptr, pending: bool, tag: bytes)
    requires 0 <= p <= |s| && IsEndTag(tag)
    ensures var a, b := TrimText(s, p, pending, tag), TrimText(s, SkipRun(s, p), false, tag);
            a.next == b.next && Ink(a.text) == Ink(b.text)
    decreases |s| - p
  {
    hide CharAt, Ink;
    if p < |s| && IsWhiteSpace(s[p]) {
      NotEndTag(s, p, tag);
      InkAfterSkip(s, p + 1, true, tag);
    } else if p < |s| && !TagAt(s, p, tag) {
      var c := CharAt(s, p);
      InkOfStep(pending, c.text, TrimText(s, c.next, false, tag).text);
      InkOfStep(false, c.text, TrimText(s, c.next, false, tag).text);
    }
  }

  lemma {:induction false} InkOfSqueeze(t: bytes, pending: bool)
    ensures Ink(Squeeze(t, pending)) == Ink(t)
    decreases |t|
  {
    if t != [] {
      InkOfSqueeze(t[1..], t[0] == SPACE);
      if t[0] != SPACE {
        InkOfStep(pending, [t[0]], Squeeze(t[1..], false));
        InkOfOne(t[0]);
      }
    }
  }

  lemma InkOfCollapse(t: bytes)
    ensures Ink(Collapse(t)) == Ink(t)
  {
    hide Squeeze, Words, Join;
    SqueezeWords(t);
    InkOfSqueeze(t, true);
    if Words(t) == [] {
      JoinOfNothing();
    } else {
      InkConcat([SPACE], Collapse(t));
      InkOfOne(SPACE);
    }
  }

  lemma JoinOfNothing()
    ensures Join([]) == []
  {}

  // ------------------------------------------------------------------ the theorems

  /** Reading without trimming gives back what was encoded exactly when that holds no `&#x`. */
  lemma KeptReadExactly(s: bytes, p: Ptr, t: bytes, tag: bytes)
    requires IsEndTag(tag) && Occurs(s, p, Encode(t))
    requires p + |Encode(t)| + |tag| < |s| && TagAt(s, p + |Encode(t)|, tag)
    ensures TextAt(s, p, false, tag) == Read(t, p + |Encode(t)| + |tag|) <==> NoHexRef(t)
  {
    hide EncodeFrom, KeepText, Ink, HexRefAt;
    if NoHexRef(t) {
      KeptReadUndoesEncode(s, p, t, tag);
    } else {
      var i: nat :| HexRefAt(t, i);
      assert RefFrom(t, 0) && t[0..] == t;
      KeptInk(s, p, t, 0, p + |Encode(t)|, tag);
    }
  }

  /** Trimming reading gives back the collapsed text exactly when the text holds no `&#x`. */
  lemma TrimmedReadExactly(s: bytes, p: Ptr, t: bytes, e: Ptr, tag: bytes)
    requires IsEndTag(tag) && Occurs(s, p, Encode(t))
    requires Gap(s, p + |Encode(t)|, e) && 0 <= e && e + |tag| < |s| && TagAt(s, e, tag)
    ensures TextAt(s, p, true, tag) == Read(Collapse(t), e + |tag|) <==> NoHexRef(t)
  {
    hide EncodeFrom, TrimText, Ink, HexRefAt, Collapse;
    if NoHexRef(t) {
      TrimmedReadUndoesEncode(s, p, t, e, tag);
    } else {
      var i: nat :| HexRefAt(t, i);
      assert RefFrom(t, 0) && t[0..] == t;
      TrimmedInk(s, p, false, t, 0, e, tag);
      InkAfterSkip(s, p, false, tag);
      InkOfCollapse(t);
    }
  }
}
