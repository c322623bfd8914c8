/**
 When reading fails, and how that is reported. The reader sets errors in a dozen places and keeps the first: an element
 is not read to its end exactly when an error stands in the document, and a document without an error is markup.
 */
module XmlErrors {
  import opened Octets
  import opened XmlBytes
  import opened XmlScanner
  import opened XmlTree
  import opened XmlParser
  import opened XmlMarkup
  import opened XmlGrammar
  import opened XmlGrammarReads
  import opened XmlRoundTrip
  import XmlEncoder

  // ------------------------------------------------------------------ elements fail with an error

  /** It failed and says so, with the first error that was there or that it met. */
  predicate Reported(before: Error, after: Error) {
    after != NoError && (before != NoError ==> after == before)
  }

  /** The first error of a run is kept, and reading on never clears it. */
  predicate Keeps(before: Error, after: Error) {
    before != NoError ==> after == before
  }

  lemma AttributeKeeps(s: bytes, p: Ptr, error: Error)
    requires p <= |s|
    ensures Keeps(error, AttributeAt(s, p, true, error).error)
  {
    hide TextAt, Unquoted, NameAt, SkipWhite;
  }

  lemma LeafKeeps(s: bytes, p: Ptr, error: Error)
    requires Live(s, p)
    ensures Keeps(error, CommentAt(s, p, error).error) && Keeps(error, CdataAt(s, p, error).error)
    ensures Keeps(error, UnknownAt(s, p, error).error) && Keeps(error, DeclarationAt(s, p, error).error)
  {
    hide RawText, TextAt, UntilGreater, SkipWhite, TagAt, DeclarationFrom;
    var q := SkipWhite(s, p);
    if Live(s, q) && TagAtIgnoreCase(s, q, XML_OPEN) {
      DeclarationKeeps(s, q + 5, Declaration([], [], []), error);
    }
  }

  lemma {:induction false} NodeKeeps(s: bytes, p: Ptr, condense: bool, error: Error)
    requires Live(s, p) && s[p] == LT
    ensures Keeps(error, NodeAt(s, p, condense, error).error)
    ensures Identify(s, p) == ElementKind && NodeAt(s, p, condense, error).next == NULL ==>
              Reported(error, NodeAt(s, p, condense, error).error)
    decreases |s| - p, 3
  {
    hide NodeAt, CommentAt, CdataAt, UnknownAt, DeclarationAt, ElementFrom, NameAt, Identify;
    NodeIs(s, p, condense, error);
    if Identify(s, p) == ElementKind {
      ElementStarts(s, p, condense, error);
      var name := NameAt(s, p + 1);
      if Live(s, name.next) {
        FromReports(s, name.next, name.text, [], condense, error);
      }
    } else {
      LeafKeeps(s, p, error);
    }
  }

  lemma {:induction false} FromReports(s: bytes, start: Ptr, name: bytes, done: seq<Attribute>, condense: bool, error: Error)
    requires Live(s, start)
    ensures var r := ElementFrom(s, start, name, done, condense, error);
            Keeps(error, r.error) && (r.next == NULL ==> Reported(error, r.error))
    decreases |s| - start, 1
  {
    hide ElementFrom, AttributeAt, HasName, ElementContent, SkipWhite;
    FromOnce(s, start, name, done, condense, error);
    var p := SkipWhite(s, start);
    if Live(s, p) && s[p] == GT {
      ContentReports(s, p + 1, Element(name, done, []), condense, error);
    } else if Live(s, p) && s[p] != SLASH {
      var a := AttributeAt(s, p, true, error);
      AttributeKeeps(s, p, error);
      if Live(s, a.next) && !HasName(done, a.attribute.name) {
        FromReports(s, a.next, name, done + [a.attribute], condense, a.error);
      }
    }
  }

  lemma {:induction false} ContentReports(s: bytes, p: Ptr, e: Node, condense: bool, error: Error)
    requires 0 <= p <= |s| && e.Element?
    ensures var r := ElementContent(s, p, e, condense, error);
            Keeps(error, r.error) && (r.next == NULL ==> Reported(error, r.error))
    decreases |s| - p, 5
  {
    hide ValueAt, TagAt, SkipWhite;
    ValueKeeps(s, p, [], condense, error);
  }

  lemma {:induction false} ValueKeeps(s: bytes, start: Ptr, children: seq<Node>, condense: bool, error: Error)
    requires start <= |s|
    ensures Keeps(error, ValueAt(s, start, children, condense, error).error)
    decreases if Live(s, start) then |s| - start else 0, 4
  {
    hide ValueAt, PlainTextAt, NodeAt, Blank, TagAt;
    ValueOnce(s, start, children, condense, error);
    var p := SkipWhite(s, start);
    if Live(s, p) && s[p] != LT {
      var text := PlainTextAt(s, if condense then p else start, condense);
      var more := if Blank(text.text) then children else children + [Text(text.text, false)];
      TextMoves(s, start, condense);
      ValueKeeps(s, text.next, more, condense, error);
    } else if Live(s, p) && !TagAt(s, p, END_OPEN) {
      var r := NodeAt(s, p, condense, error);
      NodeKeeps(s, p, condense, error);
      ValueKeeps(s, r.next, children + [r.node], condense, r.error);
    }
  }

  lemma TextMoves(s: bytes, start: Ptr, condense: bool)
    requires Live(s, start) && Live(s, SkipWhite(s, start)) && s[SkipWhite(s, start)] != LT
    ensures var r := PlainTextAt(s, if condense then SkipWhite(s, start) else start, condense); r.next == NULL || start < r.next
  {
    if s[start] == LT {
      XmlEncoder.GapOfNothing(s, start);
      SkipTo(s, start, start);
    }
  }

  /** From a document without an error, an element is not read to its end exactly when an error is there afterwards. */
  lemma ElementReports(s: bytes, p: Ptr, condense: bool)
    requires Live(s, p) && s[p] == LT && 0 !in s && Identify(s, p) == ElementKind
    ensures var r := NodeAt(s, p, condense, NoError); r.next == NULL <==> r.error != NoError
  {
    hide NodeAt, Identify, IsMarkup, WrittenNode, MeantNode;
    NodeKeeps(s, p, condense, NoError);
    if NodeAt(s, p, condense, NoError).next != NULL {
      var m := NodeIsMarkup(s, p, condense, NoError);
    }
  }

  // ------------------------------------------------------------------ where an element ends

  /** An empty-element tag or an end tag with that name ends at e. */
  ghost predicate EndsElement(s: bytes, name: bytes, e: Ptr) {
    || (Occurs(s, e - 2, Ascii("/>")))
    || (exists k :: Occurs(s, k, Ascii("</") + name) && k + 2 + |name| < e <= |s| && AllWhite(s[k + 2 + |name|..e - 1])
                    && s[e - 1] == '>' as int)
  }

  lemma EmptyEnds(s: bytes, p: Ptr, name: bytes)
    requires Occurs(s, p, WrittenBody(name, Empty))
    ensures EndsElement(s, name, p + |WrittenBody(name, Empty)|)
  {
    hide Occurs;
    Signs();
    assert p + |Ascii("/>")| - 2 == p;
  }

  lemma OpenEnds(s: bytes, k: Ptr, name: bytes, close: bytes)
    requires Occurs(s, k, END_OPEN + name) && AllWhite(close) && Occurs(s, k + 2 + |name|, close)
    requires var q := k + 2 + |name| + |close|; Live(s, q) && s[q] == GT
    ensures EndsElement(s, name, k + 2 + |name| + |close| + 1)
  {
    hide Occurs, AllWhite, Ascii;
    Signs();
    OccursSlice(s, k + 2 + |name|, close);
    OccursBounds(s, k, END_OPEN + name);
  }

  lemma BodyEnds(s: bytes, p: Ptr, name: bytes, body: Body)
    requires IsBody(body) && Occurs(s, p, WrittenBody(name, body))
    ensures EndsElement(s, name, p + |WrittenBody(name, body)|)
  {
    hide WrittenContent, IsContent, Occurs, WrittenBody, EndsElement;
    if body.Open? {
      BodySplits(s, p, name, body.content, body.close);
      OpenEnds(s, p + 1 + |WrittenContent(body.content)|, name, body.close);
    } else {
      EmptyEnds(s, p, name);
    }
  }

  /** What is read to its end ends with its own end tag, and one that is read without an error does. */
  lemma ElementEnds(s: bytes, p: Ptr, condense: bool, error: Error)
    requires Live(s, p) && s[p] == LT && 0 !in s && Identify(s, p) == ElementKind
    requires NodeAt(s, p, condense, error).next != NULL
    ensures var r := NodeAt(s, p, condense, error); r.node.Element? && r.error == error && EndsElement(s, r.node.name, r.next)
  {
    hide NodeAt, Identify, Occurs, EndsElement, IsInside, WrittenInside, WrittenBody, IsBody, WrittenNode, MeantNode,
         IsMarkup;
    var m := ElementIsMarkup(s, p, condense, error);
    var x := Inside(m.attributes, m.gap, m.body);
    InsideIn(m, x);
    ElementWritten(m, x, condense);
    OccursSplit(s, p, [LT] + m.name, WrittenInside(m.name, x));
    InsideEnds(s, p + 1 + |m.name|, m.name, x);
  }

  lemma InsideIn(m: Markup, x: Inside)
    requires IsMarkup(m) && m.ElementMarkup? && x == Inside(m.attributes, m.gap, m.body)
    ensures IsInside(x, true) && IsInside(x, false) && ValidName(m.name)
  {}

  lemma InsideEnds(s: bytes, p: Ptr, name: bytes, x: Inside)
    requires IsInside(x, false) && Occurs(s, p, WrittenInside(name, x))
    ensures EndsElement(s, name, p + |WrittenInside(name, x)|)
  {
    hide EndsElement, Occurs, WrittenBody, IsBody, IsAttribute;
    OccursSplit(s, p, WrittenAttributes(x.attributes) + x.gap, WrittenBody(name, x.body));
    BodyEnds(s, p + |WrittenAttributes(x.attributes) + x.gap|, name, x.body);
  }

  // ------------------------------------------------------------------ which error it is

  /** The attributes of a start tag are taken up, and the loop goes on behind them. */
  lemma {:induction false} AttributesRead(s: bytes, start: Ptr, name: bytes, done: seq<Attribute>, l: seq<AttributeMarkup>,
                                          condense: bool, error: Error)
    requires AreAttributes(l, false) && AreSure(l) && Occurs(s, start, WrittenAttributes(l))
    requires forall i :: 0 <= i < |l| ==> !HasName(done, l[i].name)
    requires Live(s, start + |WrittenAttributes(l)|) && MayFollow(l, s[start + |WrittenAttributes(l)|])
    ensures Live(s, start)
    ensures ElementFrom(s, start, name, done, condense, error)
         == ElementFrom(s, start + |WrittenAttributes(l)|, name, done + MeantAttributes(l), condense, error)
    decreases |l|
  {
    hide ElementFrom, AttributeAt, HasName, Occurs, IsAttribute, WrittenAttribute, MeantAttribute, SkipWhite,
         IsSureValue, EndsBare, AreSure, MayFollow, MeantAttributes;
    OccursBounds(s, start, WrittenAttributes(l));
    AllMeantBehind(done, l);
    if l != [] {
      var a, e := l[0], start + |WrittenAttribute(l[0])|;
      OccursSplit(s, start, WrittenAttribute(a), WrittenAttributes(l[1..]));
      FirstOf(s, start, done, l);
      AttributeReads(s, start, a, error);
      AttributeTaken(s, start, SkipWhite(s, start), name, done, MeantAttribute(a), e, condense, error);
      AttributesRead(s, e, name, done + [MeantAttribute(a)], l[1..], condense, error);
    }
  }

  lemma AllMeantBehind(done: seq<Attribute>, l: seq<AttributeMarkup>)
    requires forall i :: 0 <= i < |l| ==> IsAttribute(l[i])
    ensures l == [] ==> done + MeantAttributes(l) == done
    ensures l != [] ==> done + MeantAttributes(l) == done + [MeantAttribute(l[0])] + MeantAttributes(l[1..])
  {
    hide IsAttribute, MeantAttribute;
  }

  /** What may stand right behind a list of attributes. */
  predicate MayFollow(l: seq<AttributeMarkup>, c: byte) {
    l != [] ==> var v := l[|l| - 1].value; (v.Bare? ==> EndsBare(c)) && (v == Bare([]) ==> !IsWhiteSpace(c))
  }

  lemma FirstOf(s: bytes, start: Ptr, done: seq<Attribute>, l: seq<AttributeMarkup>)
    requires l != [] && AreAttributes(l, false) && AreSure(l)
    requires forall i :: 0 <= i < |l| ==> !HasName(done, l[i].name)
    requires Occurs(s, start, WrittenAttribute(l[0])) && Occurs(s, start + |WrittenAttribute(l[0])|, WrittenAttributes(l[1..]))
    requires Live(s, start + |WrittenAttributes(l)|) && MayFollow(l, s[start + |WrittenAttributes(l)|])
    ensures var a, e := l[0], start + |WrittenAttribute(l[0])|;
            && AreAttributes(l[1..], false) && AreSure(l[1..]) && IsSureValue(a.value) && Live(s, e)
            && e + |WrittenAttributes(l[1..])| == start + |WrittenAttributes(l)| && MayFollow(l[1..], s[start + |WrittenAttributes(l)|])
            && (a.value.Bare? ==> EndsBare(s[e])) && (a.value == Bare([]) ==> !IsWhiteSpace(s[e]))
            && (forall i :: 0 <= i < |l[1..]| ==> !HasName(done + [MeantAttribute(a)], l[1..][i].name))
  {
    hide HasName, Occurs, IsAttribute, WrittenAttribute, IsSureValue, AreSure;
    var e, r := start + |WrittenAttribute(l[0])|, l[1..];
    RestIs(l);
    OthersApart(done, l);
    if r != [] {
      OccursSplit(s, e, WrittenAttribute(r[0]), WrittenAttributes(r[1..]));
      AttributeLives(s, e, r[0]);
    }
  }

  lemma RestIs(l: seq<AttributeMarkup>)
    requires l != [] && AreAttributes(l, false) && AreSure(l)
    ensures var r := l[1..];
            && AreAttributes(r, false) && AreSure(r) && IsSureValue(l[0].value)
            && (r != [] ==> Apart(l[0], r[0]) && r[|r| - 1] == l[|l| - 1])
  {
    hide IsAttribute, IsSureValue;
    RestOfAttributes(l, []);
    var r := l[1..];
    assert forall i :: 0 <= i < |r| ==> r[i] == l[i + 1];
    if r != [] {
      assert Apart(l[0], l[1]);
    }
  }

  lemma OthersApart(done: seq<Attribute>, l: seq<AttributeMarkup>)
    requires l != [] && AreAttributes(l, false) && forall i :: 0 <= i < |l| ==> !HasName(done, l[i].name)
    ensures forall i :: 0 <= i < |l[1..]| ==> !HasName(done + [MeantAttribute(l[0])], l[1..][i].name)
  {
    hide IsAttribute;
    forall i | 0 <= i < |l[1..]|
      ensures !HasName(done + [MeantAttribute(l[0])], l[1..][i].name)
    {
      assert l[1..][i] == l[i + 1];
    }
  }

  /** A start tag of that name with those attributes stands at p, up to e. */
  ghost predicate StartsElement(s: bytes, p: Ptr, name: bytes, l: seq<AttributeMarkup>, e: Ptr) {
    && ValidName(name) && AreAttributes(l, true) && AreSure(l)
    && Occurs(s, p, Ascii("<") + name + WrittenAttributes(l)) && e == p + 1 + |name| + |WrittenAttributes(l)|
    && Live(s, e) && (if l == [] then EndsBare(s[e]) else MayFollow(l, s[e]))
  }

  lemma StartTagReads(s: bytes, p: Ptr, name: bytes, l: seq<AttributeMarkup>, e: Ptr, condense: bool, error: Error)
    requires StartsElement(s, p, name, l, e)
    ensures Live(s, p) && s[p] == LT && Identify(s, p) == ElementKind && Live(s, e)
    ensures AreAttributes(l, false)
    ensures NodeAt(s, p, condense, error) == ElementFrom(s, e, name, MeantAttributes(l), condense, error)
  {
    hide NodeAt, ElementFrom, NameAt, Occurs, Identify, ValidName, WrittenAttributes, MeantAttributes, AreSure,
         MayFollow, EndsBare;
    Signs();
    var n := p + 1 + |name|;
    OccursSplit3(s, p, [LT], name, WrittenAttributes(l));
    FirstByte(s, p, [LT]);
    NameStops(s, n, l);
    NameBegins(s, p + 1, name);
    NameBack(s, p + 1, name);
    ElementIdentified(s, p);
    ElementStarts(s, p, condense, error);
    NoneHeld(l);
    NothingFollows(s[e]);
    AttributesRead(s, n, name, [], l, condense, error);
    assert [] + MeantAttributes(l) == MeantAttributes(l);
  }

  lemma NothingFollows(c: byte)
    ensures MayFollow([], c)
  {}

  /** A name stops before the attributes, and before what may stand in their place. */
  lemma NameStops(s: bytes, n: Ptr, l: seq<AttributeMarkup>)
    requires AreAttributes(l, true) && Occurs(s, n, WrittenAttributes(l)) && Live(s, n + |WrittenAttributes(l)|)
    requires l == [] ==> EndsBare(s[n + |WrittenAttributes(l)|])
    ensures AreAttributes(l, false) && Live(s, n) && !IsNameChar(s[n])
  {
    hide IsAttribute, WrittenAttribute, Occurs;
    if l != [] {
      OccursSplit(s, n, WrittenAttribute(l[0]), WrittenAttributes(l[1..]));
      AttributeLives(s, n, l[0]);
    }
  }

  lemma SlashIs()
    ensures Ascii("/") == [SLASH] && !IsWhiteSpace(SLASH)
  {}

  /** A slash that no `>` follows. */
  lemma BrokenEmptyTag(s: bytes, p: Ptr, name: bytes, l: seq<AttributeMarkup>, e: Ptr, gap: bytes, condense: bool, error: Error)
    requires StartsElement(s, p, name, l, e) && AllWhite(gap) && Occurs(s, e, gap + Ascii("/"))
    requires e + |gap| + 1 < |s| ==> s[e + |gap| + 1] != '>' as int
    ensures Live(s, p) && s[p] == LT && AreAttributes(l, false)
    ensures NodeAt(s, p, condense, error) == NodeRead(Element(name, MeantAttributes(l), []), NULL, Raise(error, ParsingEmpty))
  {
    hide ElementFrom, StartsElement, MeantAttributes, IsAttribute, NodeAt, Occurs, HasName, AttributeAt,
         ElementContent, SkipWhite, AllWhite, Ascii;
    StartTagReads(s, p, name, l, e, condense, error);
    SlashIs();
    OccursSplit(s, e, gap, [SLASH]);
    FirstByte(s, e + |gap|, [SLASH]);
    GapSkipped(s, e, gap);
    FromOnce(s, e, name, MeantAttributes(l), condense, error);
  }

  /** An attribute whose name was there before. */
  lemma RepeatedAttribute(s: bytes, p: Ptr, name: bytes, l: seq<AttributeMarkup>, e: Ptr, a: AttributeMarkup, condense: bool,
                          error: Error)
    requires StartsElement(s, p, name, l, e) && IsAttribute(a) && IsSureValue(a.value) && Occurs(s, e, WrittenAttribute(a))
    requires exists i :: 0 <= i < |l| && l[i].name == a.name
    requires var n := e + |WrittenAttribute(a)|; Live(s, n) && MayFollow([a], s[n])
    ensures Live(s, p) && s[p] == LT && AreAttributes(l, false)
    ensures NodeAt(s, p, condense, error) == NodeRead(Element(name, MeantAttributes(l), []), NULL, Raise(error, ParsingElement))
  {
    hide ElementFrom, StartsElement, NodeAt, Occurs, WrittenAttribute, MeantAttribute, AttributeAt, IsAttribute,
         EndsBare, MeantAttributes, SkipWhite;
    StartTagReads(s, p, name, l, e, condense, error);
    AttributeReads(s, e, a, error);
    NamesAreHeld(l, a.name);
    FromOnce(s, e, name, MeantAttributes(l), condense, error);
  }

  lemma NamesAreHeld(l: seq<AttributeMarkup>, name: bytes)
    requires AreAttributes(l, false) && exists i :: 0 <= i < |l| && l[i].name == name
    ensures HasName(MeantAttributes(l), name)
  {
    hide IsAttribute;
    var i :| 0 <= i < |l| && l[i].name == name;
    assert MeantAttributes(l)[i].name == name;
  }

  /** What can start neither an attribute nor the end of the tag. */
  lemma NoAttribute(s: bytes, p: Ptr, name: bytes, l: seq<AttributeMarkup>, e: Ptr, gap: bytes, condense: bool, error: Error)
    requires StartsElement(s, p, name, l, e) && AllWhite(gap) && Occurs(s, e, gap) && Live(s, e + |gap|)
    requires var c := s[e + |gap|]; !EndsBare(c) && !IsNameStart(c)
    ensures Live(s, p) && s[p] == LT && AreAttributes(l, false)
    ensures NodeAt(s, p, condense, error) == NodeRead(Element(name, MeantAttributes(l), []), NULL, Raise(error, ReadingAttributes))
  {
    hide ElementFrom, StartsElement, NodeAt, Occurs, MeantAttributes, IsAttribute, HasName;
    StartTagReads(s, p, name, l, e, condense, error);
    GapSkipped(s, e, gap);
    XmlEncoder.GapOfNothing(s, e + |gap|);
    SkipTo(s, e + |gap|, e + |gap|);
    FromOnce(s, e, name, MeantAttributes(l), condense, error);
  }

  /** A start tag that is cut off in white space. */
  lemma CutStartTag(s: bytes, p: Ptr, name: bytes, l: seq<AttributeMarkup>, e: Ptr, condense: bool, error: Error)
    requires StartsElement(s, p, name, l, e) && AllWhite(s[e..])
    ensures Live(s, p) && s[p] == LT && AreAttributes(l, false)
    ensures NodeAt(s, p, condense, error) == NodeRead(Element(name, MeantAttributes(l), []), NULL, Raise(error, ReadingAttributes))
  {
    hide ElementFrom, StartsElement, NodeAt, MeantAttributes, IsAttribute;
    StartTagReads(s, p, name, l, e, condense, error);
    assert forall i :: e <= i < |s| ==> s[i] == s[e..][i - e];
    SkipRunOver(s, e, |s|);
    FromOnce(s, e, name, MeantAttributes(l), condense, error);
  }

  /** No end tag of that name stands at q. */
  ghost predicate NoEndTagOf(s: bytes, q: Ptr, name: bytes) {
    forall close :: AllWhite(close) ==> !Occurs(s, q, Ascii("</") + name + close + Ascii(">"))
  }

  lemma ContentWithoutEnd(s: bytes, p: Ptr, e: Node, c: Content, condense: bool, error: Error)
    requires e.Element? && e.children == [] && IsContent(c) && IsSureContent(c)
    requires Occurs(s, p, WrittenContent(c)) && Occurs(s, p + |WrittenContent(c)|, END_OPEN)
    requires NoEndTagOf(s, p + |WrittenContent(c)|, e.name)
    ensures 0 <= p <= |s|
    ensures ElementContent(s, p, e, condense, error)
         == NodeRead(e.(children := MeantChildren(c, condense)), NULL, Raise(error, ReadingEndTag))
  {
    hide Occurs, WrittenContent, MeantChildren, IsContent, IsSureContent, ValueAt, ReadsContent, NoEndTagOf, ElementEnd, TagAt;
    var q := p + |WrittenContent(c)|;
    OccursBounds(s, p, WrittenContent(c));
    FirstByte(s, q, END_OPEN);
    TagAtOccurs(s, q, END_OPEN);
    ContentReads(s, p, [], condense, error, c);
    ContentIs(s, p, condense, error, c);
    NoEnd(s, q, e.(children := MeantChildren(c, condense)), error);
  }

  /** Content in front of an end tag that is not the element's own. */
  lemma WrongEndTag(s: bytes, p: Ptr, name: bytes, l: seq<AttributeMarkup>, e: Ptr, gap: bytes, c: Content, condense: bool,
                    error: Error)
    requires StartsElement(s, p, name, l, e) && AllWhite(gap) && IsContent(c) && IsSureContent(c)
    requires Occurs(s, e, gap + Ascii(">") + WrittenContent(c) + Ascii("</"))
    requires NoEndTagOf(s, e + |gap| + 1 + |WrittenContent(c)|, name)
    ensures Live(s, p) && s[p] == LT && AreAttributes(l, false)
    ensures NodeAt(s, p, condense, error)
         == NodeRead(Element(name, MeantAttributes(l), MeantChildren(c, condense)), NULL, Raise(error, ReadingEndTag))
  {
    hide ElementFrom, StartsElement, NodeAt, Occurs, MeantAttributes, IsAttribute, WrittenContent, MeantChildren, IsContent,
         IsSureContent, NoEndTagOf, ElementContent, SkipWhite, AllWhite, Ascii, HasName, AttributeAt;
    Signs();
    var g := e + |gap|;
    StartTagReads(s, p, name, l, e, condense, error);
    OccursSplit(s, e, gap + [GT] + WrittenContent(c), END_OPEN);
    OccursSplit3(s, e, gap, [GT], WrittenContent(c));
    FirstByte(s, g, [GT]);
    GapSkipped(s, e, gap);
    FromOnce(s, e, name, MeantAttributes(l), condense, error);
    ContentWithoutEnd(s, g + 1, Element(name, MeantAttributes(l), []), c, condense, error);
  }

  lemma NoEnd(s: bytes, q: Ptr, e: Node, error: Error)
    requires e.Element? && Live(s, q) && NoEndTagOf(s, q, e.name)
    ensures ElementEnd(s, q, e, error) == NodeRead(e, NULL, Raise(error, ReadingEndTag))
  {
    hide Occurs, AllWhite, TagAt, SkipWhite, Ascii;
    Signs();
    var end := END_OPEN + e.name;
    if TagAt(s, q, end) {
      OccursTag(s, q, end);
      OccursBounds(s, q, end);
      var k := q + |end|;
      var z := SkipWhite(s, k);
      if Live(s, z) && s[z] == GT {
        XmlGrammar.SkipLive(s, k);
        SkipIsGap(s, k);
        OneByteOccurs(s, z, GT);
        OccursJoin(s, q, end, s[k..z]);
        OccursJoin(s, q, end + s[k..z], [GT]);
      }
    }
  }

  /** An element without attributes and children whose end tag names another is reported, whatever the two names are. */
  lemma OtherNameIsReported(name: bytes, other: bytes, condense: bool)
    requires ValidName(name) && ValidName(other) && name != other
    ensures ParseDocument(Ascii("<") + name + Ascii("></") + other + Ascii(">"), condense)
         == ValueRead([Element(name, [], [])], NULL, ReadingEndTag)
  {
    hide NodeAt, Occurs, ValidName, ParseDocument, StartsElement, NoEndTagOf, Ascii, MeantAttributes;
    var s := Ascii("<") + name + Ascii("></") + other + Ascii(">");
    Signs();
    OpenThenEnd();
    assert s == ([LT] + name) + ([] + [GT] + [] + END_OPEN) + (other + [GT]);
    OccursSelf(s);
    OccursSplit3(s, 0, [LT] + name, [] + [GT] + [] + END_OPEN, other + [GT]);
    var e := 1 + |name|;
    OccursOther(s, e + 1, name, other);
    EmptyContent();
    assert s[e] == GT;
    PlainStart(s, name);
    WrongEndTag(s, 0, name, [], e, [], Last([]), condense, NoError);
    FailsAtOnce(s, condense);
  }

  lemma OpenThenEnd()
    ensures Ascii("></") == [GT] + END_OPEN
  {}

  lemma PlainStart(s: bytes, name: bytes)
    requires ValidName(name) && Occurs(s, 0, [LT] + name) && Live(s, 1 + |name|) && s[1 + |name|] == GT
    ensures StartsElement(s, 0, name, [], 1 + |name|)
    ensures MeantAttributes([]) == []
  {
    hide Occurs, Ascii;
    Signs();
    assert [LT] + name + [] == [LT] + name;
  }

  lemma EmptyContent()
    ensures IsContent(Last([])) && IsSureContent(Last([])) && WrittenContent(Last([])) == []
    ensures MeantChildren(Last([]), true) == MeantChildren(Last([]), false) == []
  {
    WhiteMeansNothing([], true);
    WhiteMeansNothing([], false);
    assert Raws([]) == [];
  }

  lemma OccursSelf(s: bytes)
    ensures Occurs(s, 0, s)
  {}

  lemma OccursOther(s: bytes, q: Ptr, name: bytes, other: bytes)
    requires ValidName(name) && ValidName(other) && name != other && Occurs(s, q + 2, other + [GT])
    ensures NoEndTagOf(s, q, name)
  {
    hide Occurs, ValidName, AllWhite, Ascii, NameAt;
    Signs();
    OccursSplit(s, q + 2, other, [GT]);
    FirstByte(s, q + 2 + |other|, [GT]);
    NameBack(s, q + 2, other);
    forall close | AllWhite(close)
      ensures !Occurs(s, q, Ascii("</") + name + close + Ascii(">"))
    {
      if Occurs(s, q, END_OPEN + name + close + [GT]) {
        NameBefore(s, q, name, close);
      }
    }
  }

  lemma NameBefore(s: bytes, q: Ptr, name: bytes, close: bytes)
    requires ValidName(name) && AllWhite(close) && Occurs(s, q, END_OPEN + name + close + [GT])
    ensures q + 2 <= |s| && NameAt(s, q + 2) == Read(name, q + 2 + |name|)
  {
    hide Occurs, ValidName, AllWhite, NameAt;
    OccursSplit(s, q, END_OPEN + name + close, [GT]);
    OccursSplit3(s, q, END_OPEN, name, close);
    FirstByte(s, q + 2 + |name| + |close|, [GT]);
    if close != [] {
      GapLeads(s, q + 2 + |name|, close);
    }
    NameBack(s, q + 2, name);
  }

  lemma FailsAtOnce(s: bytes, condense: bool)
    requires Live(s, 0) && s[0] == LT && NodeAt(s, 0, condense, NoError).next == NULL
    ensures var r := NodeAt(s, 0, condense, NoError); ParseDocument(s, condense) == ValueRead([r.node], NULL, r.error)
  {
    hide NodeAt;
    XmlEncoder.GapOfNothing(s, 0);
    SkipTo(s, 0, 0);
    var r := NodeAt(s, 0, condense, NoError);
    assert [] + [r.node] == [r.node];
    assert DocumentFrom(s, NULL, [r.node], condense, r.error) == ValueRead([r.node], NULL, r.error);
  }
}
