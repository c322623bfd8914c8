/**
 EncodeString, and the proof that ReadText undoes it: exactly when white space is kept, and up to
 the collapsing of spaces when it is condensed.
 */
module XmlEncoder {
  import opened Octets
  import opened XmlBytes
  import opened XmlScanner

  function HexDigit(n: nat): byte
    requires n < 16
  {
    if n < 10 then '0' as int + n else 'A' as int + n - 10
  }

  /** What one byte is written as, outside a character reference. */
  function EncodeChar(c: byte): bytes {
    if c == AMP then ENT_AMP
    else if c == LT then ENT_LT
    else if c == GT then ENT_GT
    else if c == QUOTE then ENT_QUOT
    else if c == APOS then ENT_APOS
    else if c < 32 then [AMP, HASH, LOWER_X, HexDigit(c / 16), HexDigit(c % 16), SEMI]
    else [c]
  }

  /** The text holds `&#x` at i, which EncodeString takes for a character reference. */
  predicate HexRefAt(t: bytes, i: nat) {
    i + 2 < |t| && t[i] == AMP && t[i + 1] == HASH && t[i + 2] == LOWER_X
  }

  ghost predicate NoHexRef(t: bytes) {
    forall i: nat :: !HexRefAt(t, i)
  }

  /** A reference is passed through up to its semicolon, or up to the last byte when it has none. */
  function PassEnd(t: bytes, i: nat): (j: nat)
    requires i < |t|
    ensures i <= j < |t|
    ensures i + 1 < |t| ==> i < j
    decreases |t| - i
  {
    if i + 1 < |t| then if t[i + 1] == SEMI then i + 1 else PassEnd(t, i + 1) else i
  }

  function EncodeFrom(t: bytes, i: nat): bytes
    requires i <= |t|
    decreases |t| - i
  {
    if i == |t| then []
    else if HexRefAt(t, i) then t[i..PassEnd(t, i)] + EncodeFrom(t, PassEnd(t, i))
    else EncodeChar(t[i]) + EncodeFrom(t, i + 1)
  }

  function Encode(t: bytes): bytes {
    EncodeFrom(t, 0)
  }

  /** The inner loop: copies a reference and stops before its semicolon. */
  method PassReference(str: bytes, from: nat) returns (text: bytes, i: nat)
    requires from < |str|
    ensures i == PassEnd(str, from) && text == str[from..i]
  {
    text, i := [], from;
    while i < |str| - 1
      invariant from <= i < |str| && text == str[from..i]
      invariant PassEnd(str, i) == PassEnd(str, from)
    {
      text := text + [str[i]];
      i := i + 1;
      if str[i] == SEMI {
        return;
      }
    }
  }

  method EncodeByte(c: byte) returns (text: bytes)
    ensures text == EncodeChar(c)
  {
    if c == AMP {
      text := ENT_AMP;
    } else if c == LT {
      text := ENT_LT;
    } else if c == GT {
      text := ENT_GT;
    } else if c == QUOTE {
      text := ENT_QUOT;
    } else if c == APOS {
      text := ENT_APOS;
    } else if c < 32 {
      text := [AMP, HASH, LOWER_X, HexDigit(c / 16), HexDigit(c % 16), SEMI];
    } else {
      text := [c];
    }
  }

  lemma AppendStep(out: bytes, piece: bytes, rest: bytes)
    ensures (out + piece) + rest == out + (piece + rest)
  {}

  method EncodeString(str: bytes) returns (out: bytes)
    ensures out == Encode(str)
  {
    out := [];
    var i := 0;
    while i < |str|
      invariant 0 <= i <= |str|
      invariant out + EncodeFrom(str, i) == Encode(str)
    {
      var piece, next;
      if str[i] == AMP && i < |str| - 2 && str[i + 1] == HASH && str[i + 2] == LOWER_X {
        piece, next := PassReference(str, i);
      } else {
        piece := EncodeByte(str[i]);
        next := i + 1;
      }
      AppendStep(out, piece, EncodeFrom(str, next));
      out, i := out + piece, next;
    }
  }

  // ------------------------------------------------------------------ reading one encoded byte

  lemma HexDigitValue(n: nat)
    requires n < 16
    ensures DigitValue(HexDigit(n), 16) == Some(n)
    ensures HexDigit(n) != SEMI && HexDigit(n) != LOWER_X
  {}

  lemma TwoHexDigits(s: bytes, x: Ptr, hi: nat, lo: nat)
    requires hi < 2 && lo < 16 && 0 <= x && x + 2 < |s|
    requires s[x] == LOWER_X && s[x + 1] == HexDigit(hi) && s[x + 2] == HexDigit(lo)
    ensures DigitsFrom(s, x + 2, x, 16, 1, 0) == Some(16 * hi + lo)
  {
    HexDigitValue(hi);
    HexDigitValue(lo);
    assert DigitsFrom(s, x, x, 16, 256, 16 * hi + lo) == Some(16 * hi + lo);
    assert DigitsFrom(s, x + 1, x, 16, 16, lo) == Some(16 * hi + lo);
  }

  lemma ReadControl(s: bytes, p: Ptr, c: byte)
    requires c < 32 && Occurs(s, p, EncodeChar(c))
    ensures CharAt(s, p) == CharRead([c], p + 6)
  {
    hide DigitsFrom;
    var e := EncodeChar(c);
    assert s[p + 0] == e[0] && s[p + 1] == e[1] && s[p + 2] == e[2];
    assert s[p + 3] == e[3] && s[p + 4] == e[4] && s[p + 5] == e[5];
    HexDigitValue(c / 16);
    HexDigitValue(c % 16);
    FindIs(s, p + 3, SEMI, p + 5);
    TwoHexDigits(s, p + 2, c / 16, c % 16);
  }

  lemma ReadNamed(s: bytes, p: Ptr, c: byte)
    requires c == AMP || c == LT || c == GT || c == QUOTE || c == APOS
    requires Occurs(s, p, EncodeChar(c))
    ensures CharAt(s, p) == CharRead([c], p + |EncodeChar(c)|)
  {
    var e := EncodeChar(c);
    var k := if c == AMP then 0 else if c == LT then 1 else if c == GT then 2 else if c == QUOTE then 3 else 4;
    assert ENTITIES[k] == Entity(e, c);
    assert s[p + 0] == e[0] && s[p + 1] == e[1];
    TagAtOccurs(s, p, e);
    forall i | 0 <= i < k
      ensures !TagAt(s, p, ENTITIES[i].tag)
    {
      TagBytes(s, p, ENTITIES[i].tag);
      assert s[p + 2] == e[2];
    }
    NamedEntityIs(s, p, 0, k);
  }

  lemma {:induction false} NamedEntityIs(s: bytes, p: Ptr, i: nat, k: nat)
    requires Live(s, p) && i <= k < |ENTITIES|
    requires ENTITIES[k].tag != [] && TagAt(s, p, ENTITIES[k].tag)
    requires forall j :: i <= j < k ==> !TagAt(s, p, ENTITIES[j].tag)
    ensures NamedEntity(s, p, i) == CharRead([ENTITIES[k].chr], p + |ENTITIES[k].tag|)
    decreases k - i
  {
    if i < k {
      NamedEntityIs(s, p, i + 1, k);
    }
  }

  lemma TagBytes(s: bytes, p: Ptr, tag: bytes)
    requires 0 <= p <= |s| && |tag| >= 3
    ensures TagAt(s, p, tag) ==> s[p + 1] == tag[1] && s[p + 2] == tag[2]
  {
    if TagAt(s, p, tag) {
      assert s[p..p + |tag|][1] == s[p + 1] && s[p..p + |tag|][2] == s[p + 2];
    }
  }

  /** An encoded byte reads back as itself, does not look like an end tag, and is white space only if it is a space. */
  lemma ReadEncodedChar(s: bytes, p: Ptr, c: byte)
    requires Occurs(s, p, EncodeChar(c))
    ensures Live(s, p) && CharAt(s, p) == CharRead([c], p + |EncodeChar(c)|)
    ensures s[p] != LT && s[p] != QUOTE && s[p] != APOS
    ensures IsWhiteSpace(s[p]) <==> c == SPACE
    ensures c == SPACE ==> |EncodeChar(c)| == 1
  {
    assert s[p + 0] == EncodeChar(c)[0];
    if c == AMP || c == LT || c == GT || c == QUOTE || c == APOS {
      ReadNamed(s, p, c);
    } else if c < 32 {
      ReadControl(s, p, c);
    }
  }

  predicate IsEndTag(tag: bytes) {
    tag != [] && (tag[0] == LT || tag[0] == QUOTE || tag[0] == APOS)
  }

  lemma NotEndTag(s: bytes, p: Ptr, tag: bytes)
    requires Live(s, p) && IsEndTag(tag)
    requires s[p] != LT && s[p] != QUOTE && s[p] != APOS
    ensures !TagAt(s, p, tag)
  {
    if TagAt(s, p, tag) {
      TagAtFirst(s, p, tag);
    }
  }

  // ------------------------------------------------------------------ reading encoded text back

  /** One step through encoded text without references. */
  lemma EncodedStep(s: bytes, p: Ptr, t: bytes, i: nat)
    requires i < |t| && NoHexRef(t) && Occurs(s, p, EncodeFrom(t, i))
    ensures EncodeFrom(t, i) == EncodeChar(t[i]) + EncodeFrom(t, i + 1)
    ensures Occurs(s, p, EncodeChar(t[i])) && Occurs(s, p + |EncodeChar(t[i])|, EncodeFrom(t, i + 1))
  {
    hide EncodeChar;
    assert !HexRefAt(t, i);
    OccursSplit(s, p, EncodeChar(t[i]), EncodeFrom(t, i + 1));
  }

  /** With white space kept, reading encoded text up to an end tag gives back the text itself. */
  lemma {:induction false} KeepEncoded(s: bytes, p: Ptr, t: bytes, i: nat, tag: bytes)
    requires i <= |t| && NoHexRef(t) && IsEndTag(tag)
    requires Occurs(s, p, EncodeFrom(t, i))
    requires p + |EncodeFrom(t, i)| < |s| ==> TagAt(s, p + |EncodeFrom(t, i)|, tag)
    ensures KeepText(s, p, tag) == Read(t[i..], p + |EncodeFrom(t, i)|)
    decreases |t| - i
  {
    hide EncodeChar, CharAt;
    if i == |t| {
    } else {
      EncodedStep(s, p, t, i);
      ReadEncodedChar(s, p, t[i]);
      NotEndTag(s, p, tag);
      KeepEncoded(s, p + |EncodeChar(t[i])|, t, i + 1, tag);
      assert t[i..] == [t[i]] + t[i + 1..];
    }
  }

  /** The text with runs of spaces collapsed, as a single pass sees it. */
  function Squeeze(t: bytes, pending: bool): bytes {
    if t == [] then []
    else if t[0] == SPACE then Squeeze(t[1..], true)
    else (if pending then [SPACE] else []) + [t[0]] + Squeeze(t[1..], false)
  }

  lemma {:induction false} TrimWhite(s: bytes, p: Ptr, pending: bool, e: Ptr, tag: bytes)
    requires Gap(s, p, e) && IsEndTag(tag)
    requires e < |s| ==> TagAt(s, e, tag)
    ensures TrimText(s, p, pending, tag) == Read([], e)
    decreases e - p
  {
    if p < e {
      NotEndTag(s, p, tag);
      TrimWhite(s, p + 1, true, e, tag);
    }
  }

  /** With white space condensed, spaces collapse and white space before the end tag vanishes. */
  lemma {:induction false} TrimEncoded(s: bytes, p: Ptr, pending: bool, t: bytes, i: nat, e: Ptr, tag: bytes)
    requires i <= |t| && NoHexRef(t) && IsEndTag(tag)
    requires Occurs(s, p, EncodeFrom(t, i))
    requires Gap(s, p + |EncodeFrom(t, i)|, e)
    requires e < |s| ==> TagAt(s, e, tag)
    ensures TrimText(s, p, pending, tag) == Read(Squeeze(t[i..], pending), e)
    decreases |t| - i
  {
    hide EncodeChar, CharAt;
    if i == |t| {
      TrimWhite(s, p, pending, e, tag);
    } else {
      EncodedStep(s, p, t, i);
      ReadEncodedChar(s, p, t[i]);
      NotEndTag(s, p, tag);
      TrimEncoded(s, p + |EncodeChar(t[i])|, t[i] == SPACE, t, i + 1, e, tag);
      assert t[i..][1..] == t[i + 1..];
    }
  }

  // ------------------------------------------------------------------ what collapsing means

  function WordLength(t: bytes): (n: nat)
    ensures n <= |t|
    ensures n < |t| ==> t[n] == SPACE
    ensures forall i :: 0 <= i < n ==> t[i] != SPACE
  {
    if t == [] || t[0] == SPACE then 0 else 1 + WordLength(t[1..])
  }

  /** The maximal space-free stretches of the text. */
  function Words(t: bytes): seq<bytes>
    decreases |t|
  {
    if t == [] then []
    else if t[0] == SPACE then Words(t[1..])
    else [t[..WordLength(t)]] + Words(t[WordLength(t)..])
  }

  function Join(words: seq<bytes>): bytes {
    if words == [] then []
    else if |words| == 1 then words[0]
    else words[0] + [SPACE] + Join(words[1..])
  }

  /** Runs of 0x20 collapsed to one, spaces at both ends removed; every other byte kept. */
  function Collapse(t: bytes): bytes {
    Join(Words(t))
  }

  lemma {:induction false} SqueezeWord(t: bytes, n: nat)
    requires n <= |t|
    requires forall i :: 0 <= i < n ==> t[i] != SPACE
    ensures Squeeze(t, false) == t[..n] + Squeeze(t[n..], false)
    decreases n
  {
    if n == 0 {
      assert t[0..] == t;
    } else {
      SqueezeWord(t[1..], n - 1);
      assert t[1..][n - 1..] == t[n..];
      assert t[..n] == [t[0]] + t[1..][..n - 1];
    }
  }

  lemma CollapseWord(t: bytes)
    requires t != [] && t[0] != SPACE
    ensures var n := WordLength(t);
            Collapse(t) == t[..n] + if Words(t[n..]) == [] then [] else [SPACE] + Collapse(t[n..])
  {
    var n := WordLength(t);
    assert Words(t) == [t[..n]] + Words(t[n..]);
    assert Words(t)[1..] == Words(t[n..]);
  }

  lemma SqueezePending(t: bytes)
    ensures t != [] && t[0] != SPACE ==> Squeeze(t, true) == [SPACE] + Squeeze(t, false)
    ensures t == [] || t[0] == SPACE ==> Squeeze(t, true) == Squeeze(t, false)
  {
    if t != [] && t[0] != SPACE {
      assert [SPACE] + [t[0]] + Squeeze(t[1..], false) == [SPACE] + ([] + [t[0]] + Squeeze(t[1..], false));
    }
  }

  lemma SqueezeFirstWord(t: bytes)
    requires t != [] && t[0] != SPACE
    requires var rest := t[WordLength(t)..];
             Squeeze(rest, true) == if Words(rest) == [] then [] else [SPACE] + Collapse(rest)
    ensures Squeeze(t, false) == Collapse(t)
  {
    hide Squeeze, Collapse, Words;
    var n := WordLength(t);
    SqueezePending(t[n..]);
    SqueezeWord(t, n);
    CollapseWord(t);
  }

  lemma {:induction false} SqueezeWords(t: bytes)
    ensures Squeeze(t, true) == if Words(t) == [] then [] else [SPACE] + Collapse(t)
    ensures t == [] || t[0] != SPACE ==> Squeeze(t, false) == Collapse(t)
    decreases |t|
  {
    if t == [] {
    } else if t[0] == SPACE {
      SqueezeWords(t[1..]);
    } else {
      SqueezeWords(t[WordLength(t)..]);
      SqueezeFirstWord(t);
      SqueezePending(t);
    }
  }

  lemma {:induction false} SqueezeKeeps(t: bytes, pending: bool, c: byte)
    requires c in t && c != SPACE
    ensures c in Squeeze(t, pending)
    decreases |t|
  {
    if t[0] != c {
      SqueezeKeeps(t[1..], t[0] == SPACE, c);
    }
  }

  /** Collapsing keeps every byte that is no space. */
  lemma CollapseKeeps(t: bytes, c: byte)
    requires c in t && c != SPACE
    ensures c in Collapse(t)
  {
    hide Squeeze, Words, Collapse;
    SqueezeKeeps(t, true, c);
    SqueezeWords(t);
  }

  /** A text that collapsing leaves alone: no space at either end and no two in a row. */
  predicate SpaceNormal(t: bytes) {
    && (t != [] ==> t[0] != SPACE && t[|t| - 1] != SPACE)
    && forall i :: 0 < i < |t| ==> t[i - 1] != SPACE || t[i] != SPACE
  }

  lemma {:induction false} SqueezeNormal(t: bytes, pending: bool)
    requires t != [] ==> t[|t| - 1] != SPACE
    requires t != [] && pending ==> t[0] != SPACE
    requires forall i :: 0 < i < |t| ==> t[i - 1] != SPACE || t[i] != SPACE
    ensures Squeeze(t, pending) == (if pending && t != [] then [SPACE] else []) + t
  {
    if t == [] {
    } else {
      var u := t[1..];
      forall i | 0 < i < |u|
        ensures u[i - 1] != SPACE || u[i] != SPACE
      {
        assert t[i] != SPACE || t[i + 1] != SPACE;
      }
      assert u != [] ==> t[1 - 1] != SPACE || t[1] != SPACE;
      assert u != [] ==> u[|u| - 1] == t[|t| - 1];
      SqueezeNormal(u, t[0] == SPACE);
      assert t == [t[0]] + u;
    }
  }

  lemma {:induction false} JoinNormal(words: seq<bytes>)
    requires forall k :: 0 <= k < |words| ==> words[k] != [] && SPACE !in words[k]
    ensures SpaceNormal(Join(words))
    ensures words != [] ==> Join(words) != []
  {
    if |words| <= 1 {
    } else {
      var w, r := words[0], Join(words[1..]);
      JoinNormal(words[1..]);
      var t := w + [SPACE] + r;
      forall i | 0 < i < |t|
        ensures t[i - 1] != SPACE || t[i] != SPACE
      {
        if i < |w| {
          assert t[i] == w[i] && w[i] in w;
        } else if i == |w| {
          assert t[i - 1] == w[i - 1] && w[i - 1] in w;
        } else if i == |w| + 1 {
          assert t[i] == r[0];
        } else {
          var j := i - |w| - 1;
          assert t[i] == r[j] && t[i - 1] == r[j - 1];
        }
      }
      assert t[0] == w[0] && w[0] in w;
      assert t[|t| - 1] == r[|r| - 1];
    }
  }

  lemma {:induction false} WordsAreWords(t: bytes)
    ensures forall k :: 0 <= k < |Words(t)| ==> Words(t)[k] != [] && SPACE !in Words(t)[k]
    decreases |t|
  {
    if t == [] {
    } else if t[0] == SPACE {
      WordsAreWords(t[1..]);
    } else {
      WordsAreWords(t[WordLength(t)..]);
    }
  }

  /** The texts that survive condensing are exactly the space-normal ones. */
  lemma CollapseFixpoint(t: bytes)
    ensures SpaceNormal(Collapse(t))
    ensures Collapse(t) == t <==> SpaceNormal(t)
  {
    WordsAreWords(t);
    JoinNormal(Words(t));
    if SpaceNormal(t) {
      SqueezeNormal(t, false);
      SqueezeWords(t);
    }
  }

  lemma {:induction false} SqueezeDropsLead(t: bytes, n: nat)
    requires n <= |t|
    requires forall i :: 0 <= i < n ==> t[i] == SPACE
    ensures Collapse(t[n..]) == Collapse(t)
    decreases n
  {
    if n == 0 {
      assert t[0..] == t;
    } else {
      SqueezeDropsLead(t[1..], n - 1);
      assert t[1..][n - 1..] == t[n..];
    }
  }

  /** How many spaces the text starts with, and where its encoding resumes after them. */
  lemma {:induction false} SkipEncodedSpaces(s: bytes, p: Ptr, t: bytes, i: nat, e: Ptr) returns (n: nat)
    requires i <= |t| && NoHexRef(t) && Occurs(s, p, EncodeFrom(t, i))
    requires Gap(s, p + |EncodeFrom(t, i)|, e) && e < |s|
    requires !IsWhiteSpace(s[e])
    ensures i <= n <= |t| && 0 <= p
    ensures forall k :: i <= k < n ==> t[k] == SPACE
    ensures n < |t| ==> t[n] != SPACE
    ensures n < |t| ==> SkipRun(s, p) == p + n - i && Occurs(s, p + n - i, EncodeFrom(t, n))
    ensures n < |t| ==> |EncodeFrom(t, i)| == n - i + |EncodeFrom(t, n)|
    ensures n == |t| ==> SkipRun(s, p) == e
    decreases |t| - i
  {
    hide EncodeChar, CharAt;
    if i == |t| {
      SkipRunOver(s, p, e);
      n := i;
    } else {
      EncodedStep(s, p, t, i);
      ReadEncodedChar(s, p, t[i]);
      if t[i] != SPACE {
        n := i;
      } else {
        n := SkipEncodedSpaces(s, p + 1, t, i + 1, e);
      }
    }
  }

  lemma TrimmedText(s: bytes, p: Ptr, text: bytes, e: Ptr, tag: bytes)
    requires 0 <= p <= e < |s| && e + |tag| < |s|
    requires TrimText(s, SkipRun(s, p), false, tag) == Read(text, e)
    ensures TextAt(s, p, true, tag) == Read(text, e + |tag|)
  {
    assert Live(s, p);
  }

  lemma GapOfNothing(s: bytes, p: Ptr)
    requires 0 <= p <= |s|
    ensures Gap(s, p, p)
  {}

  lemma TrimFromWord(s: bytes, p: Ptr, t: bytes, n: nat, e: Ptr, tag: bytes)
    requires n < |t| && t[n] != SPACE && NoHexRef(t) && IsEndTag(tag)
    requires Occurs(s, p, EncodeFrom(t, n)) && Gap(s, p + |EncodeFrom(t, n)|, e)
    requires e < |s| ==> TagAt(s, e, tag)
    ensures TrimText(s, p, false, tag) == Read(Collapse(t[n..]), e)
  {
    hide TrimText, Collapse, Squeeze, EncodeFrom, Occurs, HexRefAt;
    TrimEncoded(s, p, false, t, n, e, tag);
    SqueezeWords(t[n..]);
  }

  /**
   Trimming ReadText over EncodeString output followed by white space and an end tag, with more input after it:
   the text comes back collapsed.
   */
  lemma TrimmedReadUndoesEncode(s: bytes, p: Ptr, t: bytes, e: Ptr, tag: bytes)
    requires NoHexRef(t) && IsEndTag(tag) && Occurs(s, p, Encode(t))
    requires Gap(s, p + |Encode(t)|, e) && 0 <= e && e + |tag| < |s|
    requires TagAt(s, e, tag)
    ensures TextAt(s, p, true, tag) == Read(Collapse(t), e + |tag|)
  {
    hide TextAt, Collapse, HexRefAt, TrimText, EncodeFrom, Occurs;
    TagAtFirst(s, e, tag);
    var n := SkipEncodedSpaces(s, p, t, 0, e);
    SqueezeDropsLead(t, n);
    if n < |t| {
      TrimFromWord(s, p + n, t, n, e, tag);
    } else {
      TrimWhite(s, e, false, e, tag);
      CollapseNothing(t[n..]);
    }
    TrimmedText(s, p, Collapse(t), e, tag);
  }

  lemma CollapseNothing(t: bytes)
    requires t == []
    ensures Collapse(t) == []
  {}

  /** Non-trimming ReadText over EncodeString output, an end tag and more input: the text itself comes back. */
  lemma KeptReadUndoesEncode(s: bytes, p: Ptr, t: bytes, tag: bytes)
    requires NoHexRef(t) && IsEndTag(tag) && Occurs(s, p, Encode(t))
    requires p + |Encode(t)| + |tag| < |s| && TagAt(s, p + |Encode(t)|, tag)
    ensures TextAt(s, p, false, tag) == Read(t, p + |Encode(t)| + |tag|)
  {
    KeepEncoded(s, p, t, 0, tag);
    assert t[0..] == t;
  }

  /** The reference rule of EncodeString is why `&#x` must be excluded: this text does not come back. */
  lemma HexRefIsNotPreserved()
    ensures var t: bytes := [AMP, HASH, LOWER_X, '4' as int, '1' as int, SEMI];
            var s: bytes := Encode(t) + [LT, SLASH];
            TextAt(s, 0, false, [LT]) == Read(['A' as int], |s| - 1)
  {
    var t: bytes := [AMP, HASH, LOWER_X, '4' as int, '1' as int, SEMI];
    assert PassEnd(t, 4) == 5 && PassEnd(t, 3) == 5 && PassEnd(t, 2) == 5;
    assert PassEnd(t, 1) == 5 && PassEnd(t, 0) == 5;
    assert EncodeFrom(t, 6) == [];
    assert EncodeFrom(t, 5) == [SEMI];
    assert Encode(t) == t[0..5] + [SEMI] == t;
    var s: bytes := t + [LT, SLASH];
    assert s == [AMP, HASH, LOWER_X, '4' as int, '1' as int, SEMI, LT, SLASH];
    FindIs(s, 3, SEMI, 5);
    assert DigitsFrom(s, 2, 2, 16, 256, 65) == Some(65);
    assert DigitsFrom(s, 3, 2, 16, 16, 1) == Some(65);
    assert DigitsFrom(s, 4, 2, 16, 1, 0) == Some(65);
    assert CharAt(s, 0) == CharRead([65], 6);
    assert s[6..7] == [LT];
    assert !TagAt(s, 0, [LT]) by { if TagAt(s, 0, [LT]) { TagAtFirst(s, 0, [LT]); } }
    assert KeepText(s, 6, [LT]) == Read([], 6);
    assert KeepText(s, 0, [LT]) == Read([65], 6);
  }
}
