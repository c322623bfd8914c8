/**
 Markup is read as what it means: the other direction of the grammar. An ampersand that starts no reference may become
 one by what follows it, so it is left to the direction from what is read; and so are declarations.
 */
module XmlGrammarReads {
  import opened Octets
  import opened XmlBytes
  import opened XmlScanner
  import opened XmlTree
  import opened XmlParser
  import opened XmlMarkup
  import opened XmlGrammar
  import opened XmlRoundTrip
  import XmlEncoder

  predicate IsSureValue(v: ValueMarkup) {
    v.Quoted? ==> AllCertain(v.text)
  }

  /** It is read in one way, whatever follows it. */
  predicate IsSure(m: Markup)
    decreases m
  {
    match m
    case ElementMarkup(_, attributes, _, body) =>
      (forall i :: 0 <= i < |attributes| ==> IsSureValue(attributes[i].value)) && IsSureBody(body)
    case CommentMarkup(_, closed) => closed
    case CdataMarkup(_) => true
    case UnknownMarkup(_, closed) => closed
    case DeclarationMarkup(_, _) => false
  }

  predicate IsSureBody(body: Body)
    decreases body
  {
    body.Open? ==> IsSureContent(body.content)
  }

  predicate IsSureContent(c: Content)
    decreases c
  {
    AllCertain(c.text) && (c.More? ==> IsSure(c.node) && IsSureContent(c.rest))
  }

  // ------------------------------------------------------------------ attributes

  predicate EndsBare(c: byte) {
    IsWhiteSpace(c) || c == SLASH || c == GT
  }

  lemma {:induction false} BareReads(s: bytes, p: Ptr, raw: bytes)
    requires IsValue(Bare(raw)) && Occurs(s, p, raw) && p + |raw| < |s| && EndsBare(s[p + |raw|])
    ensures Unquoted(s, p) == Read(raw, p + |raw|) && !IsQuote(s[p]) && (raw != [] ==> !IsWhiteSpace(s[p]))
    decreases |raw|
  {
    if raw != [] {
      OccursByte(s, p, raw, 0);
      assert raw == [raw[0]] + raw[1..];
      OccursSplit(s, p, [raw[0]], raw[1..]);
      BareReads(s, p + 1, raw[1..]);
    }
  }

  lemma QuotedReads(s: bytes, v: Ptr, q: byte, text: seq<CharMarkup>)
    requires IsValue(Quoted(q, text)) && AllCertain(text) && Occurs(s, v, WrittenValue(Quoted(q, text)))
    requires v + |WrittenValue(Quoted(q, text))| < |s|
    ensures Live(s, v) && s[v] == q
    ensures TextAt(s, v + 1, false, [q]) == Read(AllMeant(text), v + |WrittenValue(Quoted(q, text))|)
  {
    hide KeepText, AllWritten, AllMeant, Occurs;
    OccursSplit3(s, v, [q], AllWritten(text), [q]);
    FirstByte(s, v, [q]);
    FirstByte(s, v + 1 + |AllWritten(text)|, [q]);
    KeptReads(s, v + 1, text, q);
  }

  /** What the attribute parser takes as the value that starts there. */
  function ValueOf(s: bytes, v: Ptr): Read
    requires Live(s, v)
  {
    if IsQuote(s[v]) then TextAt(s, v + 1, false, [s[v]]) else Unquoted(s, v)
  }

  lemma ValueReads(s: bytes, v: Ptr, m: ValueMarkup)
    requires IsValue(m) && IsSureValue(m) && Occurs(s, v, WrittenValue(m))
    requires var e := v + |WrittenValue(m)|;
             e < |s| && (m.Bare? ==> EndsBare(s[e])) && (m == Bare([]) ==> !IsWhiteSpace(s[e]))
    ensures Live(s, v) && !IsWhiteSpace(s[v]) && ValueOf(s, v) == Read(MeantValue(m), v + |WrittenValue(m)|)
  {
    hide TextAt, Unquoted, Occurs;
    match m
    case Quoted(q, text) => QuotedReads(s, v, q, text);
    case Bare(raw) => BareReads(s, v, raw); OccursBounds(s, v, raw);
  }

  lemma AttributeComputes(s: bytes, p: Ptr, name: bytes, n: Ptr, eq: Ptr, v: Ptr, error: Error)
    requires Live(s, p) && SkipWhite(s, p) == p && NameAt(s, p) == Read(name, n) && Live(s, n)
    requires SkipWhite(s, n) == eq && Live(s, eq) && s[eq] == EQ && SkipWhite(s, eq + 1) == v && Live(s, v)
    requires ValueOf(s, v).next != NULL
    ensures AttributeAt(s, p, true, error)
         == AttributeRead(Attribute(name, ValueOf(s, v).text), ValueOf(s, v).next, error)
  {
    hide TextAt, Unquoted, NameAt, SkipWhite;
  }

  /** White space in front of a byte that is none is skipped. */
  lemma GapSkipped(s: bytes, p: Ptr, w: bytes)
    requires AllWhite(w) && Occurs(s, p, w) && Live(s, p + |w|) && !IsWhiteSpace(s[p + |w|])
    ensures SkipWhite(s, p) == p + |w|
  {
    GapOf(s, p, w);
    SkipTo(s, p, p + |w|);
  }

  lemma AttributeSplits(s: bytes, start: Ptr, a: AttributeMarkup)
    requires IsAttribute(a) && Occurs(s, start, WrittenAttribute(a))
    ensures var p := start + |a.lead|;
            var n := p + |a.name|;
            var eq := n + |a.before|;
            var v := eq + 1 + |a.after|;
            && Occurs(s, start, a.lead) && Occurs(s, p, a.name) && Occurs(s, n, a.before) && 0 <= p && Live(s, eq) && s[eq] == EQ
            && Occurs(s, eq + 1, a.after) && Occurs(s, v, WrittenValue(a.value))
            && v + |WrittenValue(a.value)| == start + |WrittenAttribute(a)|
  {
    hide Occurs, WrittenValue, IsValue, AllWhite, ValidName, Ascii;
    Signs();
    OccursSplit(s, start, a.lead + a.name + a.before + [EQ] + a.after, WrittenValue(a.value));
    OccursSplit(s, start, a.lead + a.name + a.before + [EQ], a.after);
    OccursSplit(s, start, a.lead + a.name + a.before, [EQ]);
    OccursSplit3(s, start, a.lead, a.name, a.before);
    FirstByte(s, start + |a.lead| + |a.name| + |a.before|, [EQ]);
    OccursBounds(s, start, a.lead);
  }

  /** Behind a name comes white space or an equals sign, neither of which can be part of it. */
  lemma NameEnds(s: bytes, n: Ptr, before: bytes)
    requires AllWhite(before) && Occurs(s, n, before) && Live(s, n + |before|) && s[n + |before|] == EQ
    ensures Live(s, n) && !IsNameChar(s[n])
  {
    if before != [] {
      OccursByte(s, n, before, 0);
    }
  }

  lemma NameBegins(s: bytes, p: Ptr, name: bytes)
    requires ValidName(name) && Occurs(s, p, name)
    ensures Live(s, p) && IsNameStart(s[p]) && !IsWhiteSpace(s[p])
  {
    OccursByte(s, p, name, 0);
  }

  lemma AttributeReads(s: bytes, start: Ptr, a: AttributeMarkup, error: Error)
    requires IsAttribute(a) && IsSureValue(a.value) && Occurs(s, start, WrittenAttribute(a))
    requires var e := start + |WrittenAttribute(a)|;
             e < |s| && (a.value.Bare? ==> EndsBare(s[e])) && (a.value == Bare([]) ==> !IsWhiteSpace(s[e]))
    ensures Live(s, start)
    ensures var p := SkipWhite(s, start);
            && Live(s, p) && IsNameStart(s[p])
            && AttributeAt(s, p, true, error) == AttributeRead(MeantAttribute(a), start + |WrittenAttribute(a)|, error)
  {
    hide Occurs, WrittenValue, MeantValue, IsValue, IsSureValue, AttributeAt, NameAt, SkipWhite, AllWhite, ValidName,
         IsWhiteSpace, IsNameStart, IsNameChar, WrittenAttribute, EndsBare, ValueOf;
    AttributeSplits(s, start, a);
    var p := start + |a.lead|;
    var n := p + |a.name|;
    var eq := n + |a.before|;
    var v := eq + 1 + |a.after|;
    NameEnds(s, n, a.before);
    NameBegins(s, p, a.name);
    NameBack(s, p, a.name);
    ValueReads(s, v, a.value);
    EqIsNoGap();
    GapSkipped(s, start, a.lead);
    GapSkipped(s, n, a.before);
    GapSkipped(s, eq + 1, a.after);
    XmlEncoder.GapOfNothing(s, p);
    SkipTo(s, p, p);
    OccursBounds(s, start, a.lead);
    AttributeComputes(s, p, a.name, n, eq, v, error);
  }

  lemma EqIsNoGap()
    ensures !IsWhiteSpace(EQ)
  {}

  // ------------------------------------------------------------------ elements

  predicate AreSure(l: seq<AttributeMarkup>) {
    forall i :: 0 <= i < |l| ==> IsSureValue(l[i].value)
  }

  lemma BodyStarts(s: bytes, p: Ptr, name: bytes, body: Body)
    requires IsBody(body) && Occurs(s, p, WrittenBody(name, body))
    ensures Live(s, p) && s[p] == if body.Open? then GT else SLASH
  {
    hide WrittenContent, IsContent;
    Signs();
    OccursByte(s, p, WrittenBody(name, body), 0);
  }

  /** What may stand behind a value, by its kind. */
  lemma InsideStarts(s: bytes, p: Ptr, name: bytes, x: Inside, value: ValueMarkup)
    requires IsInside(x, value.Bare?) && IsInside(x, false) && Occurs(s, p, WrittenInside(name, x))
    requires value == Bare([]) ==> x.attributes == [] && x.gap == []
    ensures Live(s, p) && (value.Bare? ==> EndsBare(s[p])) && (value == Bare([]) ==> !IsWhiteSpace(s[p]))
  {
    hide WrittenBody, IsBody, Occurs, IsValue, WrittenAttribute, IsAttribute;
    var l := x.attributes;
    OccursSplit3(s, p, WrittenAttributes(l), x.gap, WrittenBody(name, x.body));
    BodyStarts(s, p + |WrittenAttributes(l)| + |x.gap|, name, x.body);
    if l != [] {
      OccursSplit(s, p, WrittenAttribute(l[0]), WrittenAttributes(l[1..]));
      AttributeLives(s, p, l[0]);
    } else if x.gap != [] {
      GapLeads(s, p, x.gap);
    }
  }

  lemma AttributeLives(s: bytes, p: Ptr, a: AttributeMarkup)
    requires IsAttribute(a) && Occurs(s, p, WrittenAttribute(a))
    ensures Live(s, p) && (a.lead != [] ==> IsWhiteSpace(s[p]))
  {
    hide WrittenValue, IsValue;
    AttributeSplits(s, p, a);
    if a.lead != [] {
      GapLeads(s, p, a.lead);
    }
  }

  /** The first attribute, and what is behind it. */
  lemma FirstAttribute(s: bytes, start: Ptr, name: bytes, done: seq<Attribute>, x: Inside) returns (y: Inside)
    requires IsInside(x, false) && x.attributes != [] && Occurs(s, start, WrittenInside(name, x)) && AreSure(x.attributes)
    requires forall i :: 0 <= i < |x.attributes| ==> !HasName(done, x.attributes[i].name)
    ensures y == Inside(x.attributes[1..], x.gap, x.body) && AreSure(y.attributes)
    ensures var a := x.attributes[0];
            && IsAttribute(a) && IsSureValue(a.value) && IsInside(y, a.value.Bare?) && IsInside(y, false)
            && (a.value == Bare([]) ==> y.attributes == [] && y.gap == [])
            && Occurs(s, start, WrittenAttribute(a)) && Occurs(s, start + |WrittenAttribute(a)|, WrittenInside(name, y))
            && !HasName(done, a.name)
            && (forall i :: 0 <= i < |y.attributes| ==> !HasName(done + [MeantAttribute(a)], y.attributes[i].name))
  {
    hide WrittenBody, IsBody, Occurs, WrittenAttribute, IsAttribute, IsSureValue;
    var l := x.attributes;
    y := Inside(l[1..], x.gap, x.body);
    RestOfAttributes(l, x.gap);
    FourConcat(WrittenAttribute(l[0]), WrittenAttributes(l[1..]), x.gap, WrittenBody(name, x.body));
    OccursSplit(s, start, WrittenAttribute(l[0]), WrittenInside(name, y));
    forall i | 0 <= i < |y.attributes|
      ensures !HasName(done + [MeantAttribute(l[0])], y.attributes[i].name)
    {
      assert y.attributes[i] == l[i + 1];
    }
  }

  lemma RestOfAttributes(l: seq<AttributeMarkup>, gap: bytes)
    requires l != [] && AreAttributes(l, false) && GapFits(l, gap)
    ensures AreAttributes(l[1..], l[0].value.Bare?) && AreAttributes(l[1..], false) && GapFits(l[1..], gap)
    ensures l[0].value == Bare([]) ==> l[1..] == [] && gap == []
  {
    hide IsAttribute;
    var r := l[1..];
    assert forall i :: 0 <= i < |r| ==> r[i] == l[i + 1];
    if r != [] {
      assert Apart(l[0], l[1]);
      assert r[0] == l[1] && r[|r| - 1] == l[|l| - 1];
    }
  }

  /** A turn of the attribute loop that takes up an attribute. */
  lemma AttributeTaken(s: bytes, start: Ptr, p: Ptr, name: bytes, done: seq<Attribute>, a: Attribute, e: Ptr, condense: bool,
                       error: Error)
    requires Live(s, start) && p == SkipWhite(s, start) && Live(s, p) && IsNameStart(s[p]) && Live(s, e)
    requires AttributeAt(s, p, true, error) == AttributeRead(a, e, error) && !HasName(done, a.name)
    ensures start < e
    ensures ElementFrom(s, start, name, done, condense, error) == ElementFrom(s, e, name, done + [a], condense, error)
  {
    hide ElementFrom, AttributeAt, HasName, SkipWhite;
    FromOnce(s, start, name, done, condense, error);
  }

  /** Without attributes, the body stands behind the gap. */
  lemma BodyBehindGap(s: bytes, start: Ptr, name: bytes, x: Inside)
    requires IsInside(x, false) && x.attributes == [] && Occurs(s, start, WrittenInside(name, x))
    ensures var p := start + |x.gap|;
            && Live(s, start) && Live(s, p) && SkipWhite(s, start) == p && s[start..p] == x.gap
            && IsBody(x.body) && Occurs(s, p, WrittenBody(name, x.body)) && s[p] == if x.body.Open? then GT else SLASH
  {
    hide WrittenBody, IsBody, Occurs, SkipWhite;
    var p := start + |x.gap|;
    assert [] + x.gap + WrittenBody(name, x.body) == x.gap + WrittenBody(name, x.body);
    OccursSplit(s, start, x.gap, WrittenBody(name, x.body));
    BodyStarts(s, p, name, x.body);
    OccursBounds(s, start, x.gap);
    OccursSlice(s, start, x.gap);
    GapSkipped(s, start, x.gap);
  }

  lemma EmptyTaken(s: bytes, start: Ptr, name: bytes, done: seq<Attribute>, condense: bool, error: Error, x: Inside)
    requires IsInside(x, false) && x.attributes == [] && x.body.Empty? && Occurs(s, start, WrittenInside(name, x))
    ensures Live(s, start) && ReadsInside(s, start, name, done, condense, error, x)
  {
    hide ReadsInside, IsInside, WrittenInside, ElementFrom;
    BodyBehindGap(s, start, name, x);
    var p := start + |x.gap|;
    Signs();
    assert Ascii("/>")[1] == GT && s[p + 1] == Ascii("/>")[1];
    FromOnce(s, start, name, done, condense, error);
    var z := EmptyInside(s, start, name, done, condense, error, false);
  }

  lemma OpenTaken(s: bytes, start: Ptr, name: bytes, done: seq<Attribute>, condense: bool, error: Error, x: Inside)
    requires IsInside(x, false) && x.attributes == [] && x.body.Open? && Occurs(s, start, WrittenInside(name, x))
    requires var p := start + |x.gap|;
             && Live(s, p)
             && ElementContent(s, p + 1, Element(name, done, []), condense, error)
                == NodeRead(Element(name, done, MeantBody(x.body, condense)), p + |WrittenBody(name, x.body)|, error)
    ensures Live(s, start) && ReadsInside(s, start, name, done, condense, error, x)
  {
    hide ReadsInside, IsInside, WrittenInside, ElementFrom, ElementContent, IsBody, WrittenBody, MeantBody, Occurs;
    BodyBehindGap(s, start, name, x);
    FromOnce(s, start, name, done, condense, error);
    var z := BodyInside(s, start, name, done, condense, error, false, x.body);
  }

  lemma {:induction false} InsideReads(s: bytes, start: Ptr, name: bytes, done: seq<Attribute>, condense: bool, error: Error,
                                       x: Inside)
    requires IsInside(x, false) && ValidName(name) && Occurs(s, start, WrittenInside(name, x))
    requires AreSure(x.attributes) && IsSureBody(x.body)
    requires forall i :: 0 <= i < |x.attributes| ==> !HasName(done, x.attributes[i].name)
    ensures Live(s, start) && ReadsInside(s, start, name, done, condense, error, x)
    decreases x.body, 1, |x.attributes|
  {
    hide ElementFrom, AttributeAt, HasName, Occurs, IsInside, WrittenInside, IsAttribute, WrittenAttribute,
         MeantAttribute, ValidName, IsNameStart, IsBody, WrittenBody, MeantBody, SkipWhite, IsSureBody, AreSure,
         IsSureValue, ReadsInside, EndsBare, ElementContent;
    InsideLives(s, start, name, x);
    if x.attributes == [] && x.body.Empty? {
      EmptyTaken(s, start, name, done, condense, error, x);
    } else if x.attributes == [] {
      BodyBehindGap(s, start, name, x);
      BodyReads(s, start + |x.gap|, Element(name, done, []), x.body, condense, error);
      OpenTaken(s, start, name, done, condense, error, x);
    } else {
      var a := x.attributes[0];
      var y := FirstAttribute(s, start, name, done, x);
      var e := start + |WrittenAttribute(a)|;
      InsideStarts(s, e, name, y, a.value);
      AttributeReads(s, start, a, error);
      AttributeTaken(s, start, SkipWhite(s, start), name, done, MeantAttribute(a), e, condense, error);
      InsideReads(s, e, name, done + [MeantAttribute(a)], condense, error, y);
      var z := AttributeJoins(s, start, name, done, condense, error, false, a, y);
      assert [a] + x.attributes[1..] == x.attributes;
    }
  }

  lemma InsideLives(s: bytes, p: Ptr, name: bytes, x: Inside)
    requires IsInside(x, false) && Occurs(s, p, WrittenInside(name, x))
    ensures Live(s, p)
  {
    hide WrittenBody, IsBody, WrittenAttributes, IsAttribute;
    OccursSplit3(s, p, WrittenAttributes(x.attributes), x.gap, WrittenBody(name, x.body));
    BodyStarts(s, p + |WrittenAttributes(x.attributes)| + |x.gap|, name, x.body);
  }

  /** The parts of an element that is open. */
  lemma BodySplits(s: bytes, p: Ptr, name: bytes, c: Content, close: bytes)
    requires IsBody(Open(c, close)) && Occurs(s, p, WrittenBody(name, Open(c, close)))
    ensures var e := p + 1 + |WrittenContent(c)|;
            var q := e + 2 + |name| + |close|;
            && Live(s, p) && s[p] == GT && Occurs(s, p + 1, WrittenContent(c)) && Occurs(s, e, END_OPEN + name)
            && Occurs(s, e + 2 + |name|, close) && Live(s, q) && s[q] == GT
            && p + |WrittenBody(name, Open(c, close))| == q + 1
  {
    hide Occurs, WrittenContent, IsContent, Ascii, AllWhite;
    Signs();
    var w := WrittenContent(c);
    assert WrittenBody(name, Open(c, close)) == [GT] + w + (END_OPEN + name + close + [GT]);
    OccursSplit3(s, p, [GT], w, END_OPEN + name + close + [GT]);
    OccursSplit3(s, p + 1 + |w|, END_OPEN + name, close, [GT]);
    FirstByte(s, p, [GT]);
    FirstByte(s, p + 1 + |w| + 2 + |name| + |close|, [GT]);
  }

  lemma EndTagReads(s: bytes, p: Ptr, e: Node, close: bytes, error: Error)
    requires e.Element? && Occurs(s, p, END_OPEN + e.name) && AllWhite(close) && Occurs(s, p + 2 + |e.name|, close)
    requires var q := p + 2 + |e.name| + |close|; Live(s, q) && s[q] == GT
    ensures Live(s, p) && ElementEnd(s, p, e, error) == NodeRead(e, p + 2 + |e.name| + |close| + 1, error)
  {
    hide Occurs, AllWhite, SkipWhite;
    TagAtOccurs(s, p, END_OPEN + e.name);
    FirstByte(s, p, END_OPEN + e.name);
    GapSkipped(s, p + 2 + |e.name|, close);
  }

  lemma {:induction false} BodyReads(s: bytes, p: Ptr, e: Node, body: Body, condense: bool, error: Error)
    requires IsBody(body) && body.Open? && IsSureBody(body) && e.Element? && e.children == []
    requires Occurs(s, p, WrittenBody(e.name, body))
    ensures Live(s, p)
    ensures ElementContent(s, p + 1, e, condense, error)
         == NodeRead(Element(e.name, e.attributes, MeantBody(body, condense)), p + |WrittenBody(e.name, body)|, error)
    decreases body, 0, 0
  {
    hide ValueAt, Occurs, WrittenContent, MeantChildren, IsContent, IsSureContent, ElementEnd, WrittenBody,
         ReadsContent;
    var c, close := body.content, body.close;
    BodySplits(s, p, e.name, c, close);
    var q := p + 1 + |WrittenContent(c)|;
    OccursSplit(s, q, END_OPEN, e.name);
    ContentReads(s, p + 1, [], condense, error, c);
    ContentIs(s, p + 1, condense, error, c);
    EndTagReads(s, q, e.(children := MeantChildren(c, condense)), close, error);
  }

  lemma ContentIs(s: bytes, p: Ptr, condense: bool, error: Error, c: Content)
    requires p <= |s| && ReadsContent(s, p, [], condense, error, c)
    ensures IsContent(c)
    ensures ValueAt(s, p, [], condense, error) == ValueRead(MeantChildren(c, condense), p + |WrittenContent(c)|, error)
  {
    hide ValueAt, WrittenContent, MeantChildren, IsContent;
    assert [] + MeantChildren(c, condense) == MeantChildren(c, condense);
  }

  // ------------------------------------------------------------------ content

  lemma {:induction false} BlankMeans(t: seq<CharMarkup>)
    requires AreChars(t) && AllBlank(t)
    ensures AllWhite(AllWritten(t)) && AllMeant(t) == AllWritten(t) && Condensed(t) == []
  {
    if t != [] {
      BlankMeans(t[1..]);
    }
  }

  lemma BlankMeansNothing(t: seq<CharMarkup>, condense: bool)
    requires AreChars(t) && AllBlank(t)
    ensures MeantText(t, condense) == []
  {
    BlankMeans(t);
  }

  /** The text from its first character that is no white space on. */
  lemma {:induction false} Inked(s: bytes, start: Ptr, t: seq<CharMarkup>) returns (u: seq<CharMarkup>, p: Ptr)
    requires AreChars(t) && AllCertain(t) && NotRaw(t, LT) && !AllBlank(t) && Occurs(s, start, AllWritten(t))
    ensures AreChars(u) && AllCertain(u) && NotRaw(u, LT) && u != [] && !IsBlank(u[0]) && Occurs(s, p, AllWritten(u))
    ensures Condensed(t) == Condensed(u) && p + |AllWritten(u)| == start + |AllWritten(t)|
    ensures Gap(s, start, p) && Live(s, p) && s[p] != LT && !IsWhiteSpace(s[p])
    decreases |t|
  {
    hide Written, Meant, IsChar, Occurs, IsBlank, CondensedOn;
    FirstChar(s, start, t, LT);
    if IsBlank(t[0]) {
      RestHasInk(t);
      u, p := Inked(s, start + 1, t[1..]);
    } else {
      u, p := t, start;
    }
  }

  lemma RestHasInk(t: seq<CharMarkup>)
    requires t != [] && IsBlank(t[0]) && !AllBlank(t)
    ensures !AllBlank(t[1..])
  {
    hide IsBlank;
    var i :| 0 <= i < |t| && !IsBlank(t[i]);
    assert t[1..][i - 1] == t[i];
  }

  /** Text that is not all white space, before a tag. */
  lemma PlainReads(s: bytes, start: Ptr, t: seq<CharMarkup>, condense: bool)
    requires AreChars(t) && AllCertain(t) && NotRaw(t, LT) && !AllBlank(t) && Occurs(s, start, AllWritten(t))
    requires var q := start + |AllWritten(t)|; q + 1 < |s| && s[q] == LT
    ensures Live(s, start) && Live(s, SkipWhite(s, start)) && s[SkipWhite(s, start)] != LT
    ensures PlainTextAt(s, if condense then SkipWhite(s, start) else start, condense)
         == Read(if condense then Condensed(t) else AllMeant(t), start + |AllWritten(t)|)
  {
    hide KeepText, TrimText, AllWritten, AllMeant, Condensed, CondensedOn, AreChars, AllCertain, NotRaw, AllBlank,
         Occurs, IsBlank;
    var u, p := Inked(s, start, t);
    SkipTo(s, start, p);
    XmlEncoder.GapOfNothing(s, p);
    SkipTo(s, p, p);
    if condense {
      TrimmedReads(s, p, false, u);
      InkFirst(u);
    } else {
      KeptReads(s, start, t, LT);
    }
  }

  lemma TextReads(s: bytes, start: Ptr, done: seq<Node>, condense: bool, error: Error, t: seq<CharMarkup>)
    requires AreChars(t) && AllCertain(t) && NotRaw(t, LT) && Occurs(s, start, AllWritten(t))
    requires var q := start + |AllWritten(t)|; q + 1 < |s| && s[q] == LT
    ensures start <= |s|
    ensures ValueAt(s, start, done, condense, error)
         == ValueAt(s, start + |AllWritten(t)|, done + MeantText(t, condense), condense, error)
  {
    hide ValueAt, PlainTextAt, AllWritten, AllMeant, Condensed, AreChars, AllCertain, NotRaw, AllBlank, Occurs, Blank;
    var q := start + |AllWritten(t)|;
    OccursBounds(s, start, AllWritten(t));
    if AllBlank(t) {
      BlankMeansNothing(t, condense);
      BlankMeans(t);
      GapSkipped(s, start, AllWritten(t));
      XmlEncoder.GapOfNothing(s, q);
      SkipTo(s, q, q);
      SameTurn(s, start, q, done, condense, error);
      assert done + [] == done;
    } else {
      PlainReads(s, start, t, condense);
      ValueOnce(s, start, done, condense, error);
      assert done + [] == done;
    }
  }

  lemma SameTurn(s: bytes, p: Ptr, q: Ptr, done: seq<Node>, condense: bool, error: Error)
    requires 0 <= p <= |s| && Live(s, q) && SkipWhite(s, p) == q == SkipWhite(s, q) && s[q] == LT
    ensures ValueAt(s, p, done, condense, error) == ValueAt(s, q, done, condense, error)
  {
    hide ValueAt, PlainTextAt, NodeAt;
    ValueOnce(s, p, done, condense, error);
    ValueOnce(s, q, done, condense, error);
  }

  lemma NodeTaken(s: bytes, p: Ptr, done: seq<Node>, condense: bool, error: Error)
    requires Live(s, p) && s[p] == LT && !TagAt(s, p, END_OPEN)
    ensures var r := NodeAt(s, p, condense, error);
            ValueAt(s, p, done, condense, error) == ValueAt(s, r.next, done + [r.node], condense, r.error)
  {
    hide ValueAt, PlainTextAt, NodeAt;
    XmlEncoder.GapOfNothing(s, p);
    SkipTo(s, p, p);
    ValueOnce(s, p, done, condense, error);
  }

  /** Content starts a tag where its text ends. */
  lemma ContentSplits(s: bytes, start: Ptr, c: Content)
    requires IsContent(c) && IsSureContent(c) && Occurs(s, start, WrittenContent(c))
    requires var n := start + |WrittenContent(c)|; 0 <= n <= |s| && TagAt(s, n, END_OPEN)
    ensures var q := start + |AllWritten(c.text)|;
            && 0 <= start && Occurs(s, start, AllWritten(c.text)) && q + 1 < |s| && s[q] == LT
            && (c.Last? ==> start + |WrittenContent(c)| == q)
            && (c.More? ==>
                  var e := q + |WrittenNode(c.node)|;
                  && Occurs(s, q, WrittenNode(c.node)) && Occurs(s, e, WrittenContent(c.rest))
                  && e < |s| && e + |WrittenContent(c.rest)| == start + |WrittenContent(c)|)
  {
    hide AllWritten, WrittenNode, Occurs;
    var t := AllWritten(c.text);
    var n := start + |WrittenContent(c)|;
    OccursTag(s, n, END_OPEN);
    FirstByte(s, n, END_OPEN);
    if c.Last? {
      assert WrittenContent(c) == t;
      OccursBounds(s, start, t);
    } else {
      OccursSplit(s, start, t, WrittenNode(c.node) + WrittenContent(c.rest));
      OccursSplit(s, start + |t|, WrittenNode(c.node), WrittenContent(c.rest));
      OccursBounds(s, start, t);
      NodeStarts(s, start + |t|, c.node);
    }
  }

  lemma NodeStarts(s: bytes, p: Ptr, m: Markup)
    requires IsMarkup(m) && IsClosed(m) && Occurs(s, p, WrittenNode(m)) && IsSure(m)
    ensures 0 <= p && p + 1 < |s| && s[p] == LT && |WrittenNode(m)| > 1
  {
    Signs();
    hide WrittenBody, WrittenAttributes, IsBody;
    var x := WrittenNode(m);
    OccursByte(s, p, x, 0);
    OccursByte(s, p, x, 1);
  }

  lemma {:induction false} ContentReads(s: bytes, start: Ptr, done: seq<Node>, condense: bool, error: Error, c: Content)
    requires IsContent(c) && IsSureContent(c) && Occurs(s, start, WrittenContent(c))
    requires var n := start + |WrittenContent(c)|; 0 <= n <= |s| && TagAt(s, n, END_OPEN)
    ensures start <= |s| && ReadsContent(s, start, done, condense, error, c)
    decreases c, 0, 0
  {
    hide ValueAt, NodeAt, Occurs, WrittenContent, MeantChildren, SkipWhite, IsMarkup, WrittenNode, MeantNode,
         MeantText, AllWritten, AreChars, NotRaw, TagAt, IsSure, AllCertain;
    ContentSplits(s, start, c);
    var t := MeantText(c.text, condense);
    var q := start + |AllWritten(c.text)|;
    TextReads(s, start, done, condense, error, c.text);
    if c.Last? {
      EndsHere(s, q, done + t, condense, error);
      LastMeans(c, condense);
    } else {
      var node := MeantNode(c.node, condense);
      NodeReads(s, q, c.node, condense, error);
      ChildIsNoEnd(s, q, c.node);
      NodeTaken(s, q, done + t, condense, error);
      ContentReads(s, q + |WrittenNode(c.node)|, done + t + [node], condense, error, c.rest);
      MoreMeans(c, condense, done);
    }
  }

  lemma EndsHere(s: bytes, p: Ptr, done: seq<Node>, condense: bool, error: Error)
    requires Live(s, p) && s[p] == LT && TagAt(s, p, END_OPEN)
    ensures ValueAt(s, p, done, condense, error) == ValueRead(done, p, error)
  {
    XmlEncoder.GapOfNothing(s, p);
    SkipTo(s, p, p);
    LastTurn(s, p, p, done, condense, error);
  }

  lemma LastMeans(c: Content, condense: bool)
    requires IsContent(c) && c.Last?
    ensures MeantChildren(c, condense) == MeantText(c.text, condense)
  {
    hide MeantText;
  }

  lemma MoreMeans(c: Content, condense: bool, done: seq<Node>)
    requires IsContent(c) && c.More?
    ensures var t, node := MeantText(c.text, condense), MeantNode(c.node, condense);
            done + t + [node] + MeantChildren(c.rest, condense) == done + MeantChildren(c, condense)
  {
    hide MeantText, MeantNode, IsMarkup;
    var t, node, rest := MeantText(c.text, condense), MeantNode(c.node, condense), MeantChildren(c.rest, condense);
    assert MeantChildren(c, condense) == t + ([node] + rest);
  }

  /** No child starts like an end tag. */
  lemma ChildIsNoEnd(s: bytes, p: Ptr, m: Markup)
    requires IsMarkup(m) && IsChild(m) && IsSure(m) && Occurs(s, p, WrittenNode(m))
    ensures 0 <= p <= |s| && !TagAt(s, p, END_OPEN)
  {
    NodeStarts(s, p, m);
    hide WrittenBody, WrittenAttributes, IsBody, AreAttributes;
    Signs();
    OccursByte(s, p, WrittenNode(m), 1);
    TagDiffers(s, p, END_OPEN, 1);
  }

  lemma {:induction false} ElementReads(s: bytes, p: Ptr, m: Markup, condense: bool, error: Error)
    requires IsMarkup(m) && IsSure(m) && m.ElementMarkup? && Occurs(s, p, WrittenNode(m))
    ensures Live(s, p) && s[p] == LT
    ensures NodeAt(s, p, condense, error) == NodeRead(MeantNode(m, condense), p + |WrittenNode(m)|, error)
    decreases m, 0, 0
  {
    hide NodeAt, ElementFrom, NameAt, Occurs, IsInside, WrittenInside, Identify, WrittenNode, MeantNode, ValidName,
         IsNameChar, MeantAttributes, MeantBody, ReadsInside, IsSureBody, HasName;
    var x := Inside(m.attributes, m.gap, m.body);
    InsideOf(m, x);
    ElementWritten(m, x, condense);
    var n := p + 1 + |m.name|;
    OccursSplit3(s, p, [LT], m.name, WrittenInside(m.name, x));
    FirstByte(s, p, [LT]);
    InsideStarts(s, n, m.name, x, Bare([0]));
    NoNameChar(s[n]);
    NameBegins(s, p + 1, m.name);
    NameBack(s, p + 1, m.name);
    ElementIdentified(s, p);
    ElementStarts(s, p, condense, error);
    NoneHeld(x.attributes);
    InsideReads(s, n, m.name, [], condense, error, x);
    InsideIs(s, n, m.name, condense, error, x);
  }

  lemma NoneHeld(l: seq<AttributeMarkup>)
    ensures forall i :: 0 <= i < |l| ==> !HasName([], l[i].name)
  {}

  lemma NoNameChar(c: byte)
    requires EndsBare(c)
    ensures !IsNameChar(c)
  {}

  lemma InsideOf(m: Markup, x: Inside)
    requires IsMarkup(m) && IsSure(m) && m.ElementMarkup? && x == Inside(m.attributes, m.gap, m.body)
    ensures IsInside(x, true) && IsInside(x, false) && ValidName(m.name) && AreSure(x.attributes) && IsSureBody(x.body)
  {}

  lemma InsideIs(s: bytes, start: Ptr, name: bytes, condense: bool, error: Error, x: Inside)
    requires Live(s, start) && ReadsInside(s, start, name, [], condense, error, x)
    ensures IsInside(x, false)
    ensures ElementFrom(s, start, name, [], condense, error)
         == NodeRead(Element(name, MeantAttributes(x.attributes), MeantBody(x.body, condense)),
                     start + |WrittenInside(name, x)|, error)
  {
    hide ElementFrom, MeantAttributes, MeantBody, WrittenInside;
    assert [] + MeantAttributes(x.attributes) == MeantAttributes(x.attributes);
  }

  lemma CommentReads(s: bytes, p: Ptr, m: Markup, condense: bool, error: Error)
    requires IsMarkup(m) && m.CommentMarkup? && m.closed && Occurs(s, p, WrittenNode(m))
    ensures Live(s, p) && s[p] == LT
    ensures NodeAt(s, p, condense, error) == NodeRead(MeantNode(m, condense), p + |WrittenNode(m)|, error)
  {
    hide NodeAt, CommentAt, Identify, Occurs, Without, Ascii;
    Signs();
    CommentBack(s, p, m.raw, error);
    NodeIs(s, p, condense, error);
  }

  lemma CdataReads(s: bytes, p: Ptr, m: Markup, condense: bool, error: Error)
    requires IsMarkup(m) && m.CdataMarkup? && Occurs(s, p, WrittenNode(m)) && p + |WrittenNode(m)| < |s|
    ensures Live(s, p) && s[p] == LT
    ensures NodeAt(s, p, condense, error) == NodeRead(MeantNode(m, condense), p + |WrittenNode(m)|, error)
  {
    hide NodeAt, CdataAt, Identify, Occurs, Without, Ascii;
    Signs();
    CdataBack(s, p, m.raw, error);
    NodeIs(s, p, condense, error);
  }

  lemma UnknownReads(s: bytes, p: Ptr, m: Markup, condense: bool, error: Error)
    requires IsMarkup(m) && m.UnknownMarkup? && m.closed && Occurs(s, p, WrittenNode(m))
    ensures Live(s, p) && s[p] == LT
    ensures NodeAt(s, p, condense, error) == NodeRead(MeantNode(m, condense), p + |WrittenNode(m)|, error)
  {
    hide NodeAt, Identify, Occurs, IsUnknown, Ascii, TagAt, TagAtIgnoreCase, UntilGreater;
    Signs();
    var raw := m.raw;
    assert WrittenNode(m) == [LT] + raw + [GT] == [LT] + (raw + [GT]);
    OccursSplit3(s, p, [LT], raw, [GT]);
    OccursSplit(s, p, [LT], raw + [GT]);
    OccursSplit(s, p, [LT] + raw, [GT]);
    FirstByte(s, p, [LT]);
    FirstByte(s, p + 1 + |raw|, [GT]);
    UnknownIdentified(s, p, raw);
    RawUnknown(raw);
    GreaterBack(s, p + 1, raw, 0);
    assert raw[0..] == raw;
    NodeIs(s, p, condense, error);
  }

  lemma RawUnknown(raw: bytes)
    requires IsUnknown(raw)
    ensures GT !in raw
  {}

  lemma UnknownIdentified(s: bytes, p: Ptr, raw: bytes)
    requires IsUnknown(raw) && Occurs(s, p, [LT] + raw) && Live(s, p + 1 + |raw|) && s[p + 1 + |raw|] == GT && Live(s, p) && s[p] == LT
    ensures Identify(s, p) == UnknownKind
  {
    hide TagAt, TagAtIgnoreCase, Ascii;
    Signs();
    var u := [LT] + raw;
    NotInside(s, p, u, COMMENT_OPEN);
    NotInside(s, p, u, CDATA_OPEN);
    NotInsideIgnoreCase(s, p, u, XML_OPEN);
    if raw != [] {
      assert u[1] == raw[0] == s[p + 1];
    }
  }

  /** Markup is read as what it means, whatever stands around it. */
  lemma {:induction false} NodeReads(s: bytes, p: Ptr, m: Markup, condense: bool, error: Error)
    requires IsMarkup(m) && IsSure(m) && Occurs(s, p, WrittenNode(m))
    requires m.CdataMarkup? ==> p + |WrittenNode(m)| < |s|
    ensures Live(s, p) && s[p] == LT
    ensures NodeAt(s, p, condense, error) == NodeRead(MeantNode(m, condense), p + |WrittenNode(m)|, error)
    decreases m, 1, 0
  {
    hide NodeAt, IsMarkup, WrittenNode, MeantNode, Occurs;
    match m
    case ElementMarkup(_, _, _, _) => ElementReads(s, p, m, condense, error);
    case CommentMarkup(_, _) => CommentReads(s, p, m, condense, error);
    case CdataMarkup(_) => CdataReads(s, p, m, condense, error);
    case UnknownMarkup(_, _) => UnknownReads(s, p, m, condense, error);
  }
}
