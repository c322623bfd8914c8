/**
 The newline pass of LoadFile: a read head and a write head over one buffer, computing the end-of-line handling
 of section 2.11 of XML 1.0 on the bytes before the first NUL.
 */
module XmlNewlines {
  import opened Octets
  import opened XmlBytes

  /** Every CR LF pair, and every CR that is not followed by LF, becomes one LF. */
  function Normalize(s: bytes): (r: bytes)
    ensures CR !in r && |r| <= |s|
    ensures 0 !in s ==> 0 !in r
    decreases |s|
  {
    if s == [] then []
    else if s[0] != CR then [s[0]] + Normalize(s[1..])
    else if |s| > 1 && s[1] == LF then [LF] + Normalize(s[2..])
    else [LF] + Normalize(s[1..])
  }

  method NormalizeInPlace(buf: array<byte>, length: nat) returns (end: nat)
    requires buf.Length == length + 1
    modifies buf
    ensures end <= length && buf[end] == 0
    ensures buf[..end] == Normalize(CStr(old(buf[..length])))
  {
    hide Normalize, CStr, NextHead;
    ghost var text := CStr(buf[..length]);
    TextIn(buf[..length]);
    var p, q := 0, 0;
    buf[length] := 0;
    ghost var done: bytes := [];
    Unread(text);
    while buf[p] != 0
      invariant 0 <= q <= p <= |text|
      invariant forall k :: p <= k < |text| ==> buf[k] == text[k]
      invariant buf[|text|] == 0
      invariant buf[..q] == done
      invariant Normalize(text) == done + Normalize(text[p..])
      decreases |text| - p
    {
      NormalizeStep(text, p, done);
      ghost var head := NextHead(text, p);
      done := done + [if text[p] == CR then LF else text[p]];
      if buf[p] == CR {
        buf[q] := LF;
        q := q + 1;
        p := p + 1;
        if buf[p] == LF {
          p := p + 1;
        }
      } else {
        buf[q] := buf[p];
        q := q + 1;
        p := p + 1;
      }
      assert p == head;
    }
    buf[q] := 0;
    NormalizeNothing(text, p, done);
    end := q;
  }

  /** Where the read head goes from p. */
  ghost function NextHead(t: bytes, p: nat): (q: nat)
    requires p < |t|
    ensures q == if t[p] == CR && p + 1 < |t| && t[p + 1] == LF then p + 2 else p + 1
  {
    if t[p] == CR && p + 1 < |t| && t[p + 1] == LF then p + 2 else p + 1
  }

  lemma NormalizeStep(t: bytes, p: nat, done: bytes)
    requires p < |t| && Normalize(t) == done + Normalize(t[p..])
    ensures Normalize(t) == done + [if t[p] == CR then LF else t[p]] + Normalize(t[NextHead(t, p)..])
  {
    NormalizeOnce(t, p);
    Associate(done, if t[p] == CR then LF else t[p], Normalize(t[NextHead(t, p)..]));
  }

  lemma NormalizeOnce(t: bytes, p: nat)
    requires p < |t|
    ensures Normalize(t[p..]) == [if t[p] == CR then LF else t[p]] + Normalize(t[NextHead(t, p)..])
  {
    assert t[p..][1..] == t[p + 1..];
    assert p + 1 < |t| ==> t[p..][2..] == t[p + 2..];
  }

  lemma Associate(a: bytes, c: byte, b: bytes)
    ensures a + ([c] + b) == a + [c] + b
  {}

  lemma Unread(t: bytes)
    ensures Normalize(t) == [] + Normalize(t[0..])
  {
    assert t[0..] == t;
  }

  lemma NormalizeNothing(t: bytes, p: nat, done: bytes)
    requires p == |t| && Normalize(t) == done + Normalize(t[p..])
    ensures Normalize(t) == done
  {}

  lemma TextIn(s: bytes)
    ensures |CStr(s)| <= |s| && (|CStr(s)| < |s| ==> s[|CStr(s)|] == 0)
    ensures forall k :: 0 <= k < |CStr(s)| ==> s[k] == CStr(s)[k] && s[k] != 0
  {
    assert forall k :: 0 <= k < |CStr(s)| ==> CStr(s)[k] in CStr(s);
  }

  // ------------------------------------------------------------------ what the pass means

  /** The text without every CR that stands right before an LF. */
  function DropPaired(s: bytes): bytes {
    if s == [] then []
    else if s[0] == CR && |s| > 1 && s[1] == LF then DropPaired(s[1..])
    else [s[0]] + DropPaired(s[1..])
  }

  function Translate(s: bytes): (r: bytes)
    ensures |r| == |s| && forall i :: 0 <= i < |s| ==> r[i] == if s[i] == CR then LF else s[i]
  {
    seq(|s|, i requires 0 <= i < |s| => if s[i] == CR then LF else s[i])
  }

  /** The rule of the standard in two passes: pairs first, then the CRs that are left. */
  lemma {:induction false} NormalizeIsTranslation(s: bytes)
    ensures Normalize(s) == Translate(DropPaired(s))
    decreases |s|
  {
    if s != [] {
      if s[0] == CR && |s| > 1 && s[1] == LF {
        NormalizeIsTranslation(s[2..]);
        assert s[1..][1..] == s[2..];
        assert DropPaired(s) == [LF] + DropPaired(s[2..]);
      } else {
        NormalizeIsTranslation(s[1..]);
      }
    }
  }

  /** A text is its own normal form exactly when it has no CR; so a second pass changes nothing. */
  lemma {:induction false} NormalizeFixpoint(s: bytes)
    ensures Normalize(s) == s <==> CR !in s
    ensures Normalize(Normalize(s)) == Normalize(s)
    decreases |s|
  {
    if CR !in s {
      FixedWithoutCR(s);
    }
    FixedWithoutCR(Normalize(s));
  }

  lemma {:induction false} FixedWithoutCR(s: bytes)
    requires CR !in s
    ensures Normalize(s) == s
  {
    if s != [] {
      FixedWithoutCR(s[1..]);
    }
  }

  function IsEol(c: byte): bool {
    c == CR || c == LF
  }

  function Rest(s: bytes): bytes {
    if s == [] then [] else (if IsEol(s[0]) then [] else [s[0]]) + Rest(s[1..])
  }

  /** Every other byte is kept, in order. */
  lemma {:induction false} OthersKept(s: bytes)
    ensures Rest(Normalize(s)) == Rest(s)
    decreases |s|
  {
    if s != [] {
      if s[0] == CR && |s| > 1 && s[1] == LF {
        OthersKept(s[2..]);
        assert s[1..][1..] == s[2..];
        assert Normalize(s)[1..] == Normalize(s[2..]);
      } else {
        OthersKept(s[1..]);
        assert Normalize(s)[1..] == Normalize(s[1..]);
      }
    }
  }
}
