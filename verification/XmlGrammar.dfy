/**
 The markup of nodes as a grammar of its own, beside the loops that read it: a tree of markup has the bytes that it is
 written as and the node that it means. What the reader reads to its end is markup and means what was read, and markup
 is read as what it means. An element is not read to its end exactly when an error is reported.
 */
module XmlGrammar {
  import opened Octets
  import opened XmlBytes
  import opened XmlScanner
  import opened XmlTree
  import opened XmlParser
  import opened XmlMarkup
  import opened XmlRoundTrip
  import XmlEncoder
  import XmlLayout
  import XmlExactness

  // ------------------------------------------------------------------ the grammar

  datatype ValueMarkup = Quoted(q: byte, text: seq<CharMarkup>) | Bare(raw: bytes)

  datatype AttributeMarkup = AttributeMarkup(lead: bytes, name: bytes, before: bytes, after: bytes, value: ValueMarkup)

  datatype Markup =
    | ElementMarkup(name: bytes, attributes: seq<AttributeMarkup>, gap: bytes, body: Body)
    | CommentMarkup(raw: bytes, closed: bool)
    | CdataMarkup(raw: bytes)
    | UnknownMarkup(raw: bytes, closed: bool)
    | DeclarationMarkup(raw: bytes, node: Node)

  datatype Body = Empty | Open(content: Content, close: bytes)

  datatype Content = Last(text: seq<CharMarkup>) | More(text: seq<CharMarkup>, node: Markup, rest: Content)

  predicate IsQuote(c: byte) {
    c == '\"' as int || c == '\'' as int
  }

  /** A value between quotes may hold anything but its quote; a bare one ends at white space, a slash or `>`. */
  predicate IsValue(v: ValueMarkup) {
    match v
    case Quoted(q, text) => IsQuote(q) && AreChars(text) && NotRaw(text, q)
    case Bare(raw) =>
      forall i :: 0 <= i < |raw| ==>
        !IsWhiteSpace(raw[i]) && !IsQuote(raw[i]) && raw[i] != '/' as int && raw[i] != '>' as int
  }

  ghost predicate IsAttribute(a: AttributeMarkup) {
    AllWhite(a.lead) && ValidName(a.name) && AllWhite(a.before) && AllWhite(a.after) && IsValue(a.value)
  }

  /** A bare value ends before white space. */
  predicate Apart(a: AttributeMarkup, b: AttributeMarkup) {
    a.value.Bare? ==> a.value.raw != [] && b.lead != []
  }

  /**
   White space is needed before the first attribute, and behind a bare value that is not empty. Nothing at all may stand
   between an empty one and the end of the tag: what follows would be its value.
   */
  ghost predicate AreAttributes(l: seq<AttributeMarkup>, needLead: bool) {
    && (forall i :: 0 <= i < |l| ==> IsAttribute(l[i]))
    && (forall i, j :: 0 <= i < j < |l| ==> l[i].name != l[j].name)
    && (l != [] && needLead ==> l[0].lead != [])
    && (forall i, j :: 0 <= i < j < |l| && j == i + 1 ==> Apart(l[i], l[j]))
  }

  predicate GapFits(l: seq<AttributeMarkup>, gap: bytes) {
    l != [] && l[|l| - 1].value == Bare([]) ==> gap == []
  }

  predicate IsUnknown(raw: bytes) {
    && '>' as int !in raw && (raw != [] ==> !IsNameStart(raw[0]))
    && !TagAtIgnoreCase(Ascii("<") + raw, 0, Ascii("<?xml"))
    && !TagAt(Ascii("<") + raw, 0, Ascii("<!--")) && !TagAt(Ascii("<") + raw, 0, Ascii("<![CDATA["))
  }

  ghost predicate IsMarkup(m: Markup)
    decreases m
  {
    match m
    case ElementMarkup(name, attributes, gap, body) =>
      ValidName(name) && AreAttributes(attributes, true) && AllWhite(gap) && GapFits(attributes, gap) && IsBody(body)
    case CommentMarkup(raw, _) => Without(raw, Ascii("-->"))
    case CdataMarkup(raw) => Without(raw, Ascii("]]>"))
    case UnknownMarkup(raw, _) => IsUnknown(raw)
    case DeclarationMarkup(raw, node) =>
      TagAtIgnoreCase(raw, 0, Ascii("<?xml")) && raw[|raw| - 1] == '>' as int && node.Declaration?
  }

  ghost predicate IsBody(body: Body)
    decreases body
  {
    body.Open? ==> IsContent(body.content) && AllWhite(body.close)
  }

  /** It does not rely on the end of the buffer. */
  predicate IsClosed(m: Markup) {
    (m.CommentMarkup? || m.UnknownMarkup?) ==> m.closed
  }

  /** And does not look like an end tag. */
  predicate IsChild(m: Markup) {
    IsClosed(m) && (m.UnknownMarkup? && m.raw != [] ==> m.raw[0] != '/' as int)
  }

  ghost predicate IsContent(c: Content)
    decreases c
  {
    && AreChars(c.text) && NotRaw(c.text, '<' as int)
    && (c.More? ==> IsMarkup(c.node) && IsChild(c.node) && IsContent(c.rest))
  }

  function WrittenValue(v: ValueMarkup): bytes
    requires IsValue(v)
  {
    match v
    case Quoted(q, text) => [q] + AllWritten(text) + [q]
    case Bare(raw) => raw
  }

  function MeantValue(v: ValueMarkup): bytes
    requires IsValue(v)
  {
    match v
    case Quoted(_, text) => AllMeant(text)
    case Bare(raw) => raw
  }

  ghost function WrittenAttribute(a: AttributeMarkup): bytes
    requires IsAttribute(a)
  {
    a.lead + a.name + a.before + Ascii("=") + a.after + WrittenValue(a.value)
  }

  ghost function WrittenAttributes(l: seq<AttributeMarkup>): bytes
    requires forall i :: 0 <= i < |l| ==> IsAttribute(l[i])
  {
    if l == [] then [] else WrittenAttribute(l[0]) + WrittenAttributes(l[1..])
  }

  ghost function MeantAttribute(a: AttributeMarkup): (r: Attribute)
    requires IsAttribute(a)
    ensures r.name == a.name
  {
    Attribute(a.name, MeantValue(a.value))
  }

  ghost function MeantAttributes(l: seq<AttributeMarkup>): (r: seq<Attribute>)
    requires forall i :: 0 <= i < |l| ==> IsAttribute(l[i])
    ensures |r| == |l| && forall i :: 0 <= i < |l| ==> r[i].name == l[i].name
  {
    if l == [] then []
    else
      [MeantAttribute(l[0])] + MeantAttributes(l[1..])
  }

  ghost function WrittenNode(m: Markup): bytes
    requires IsMarkup(m)
    decreases m
  {
    match m
    case ElementMarkup(name, attributes, gap, body) =>
      Ascii("<") + name + (WrittenAttributes(attributes) + gap + WrittenBody(name, body))
    case CommentMarkup(raw, closed) => Ascii("<!--") + raw + if closed then Ascii("-->") else []
    case CdataMarkup(raw) => Ascii("<![CDATA[") + raw + Ascii("]]>")
    case UnknownMarkup(raw, closed) => Ascii("<") + raw + if closed then Ascii(">") else []
    case DeclarationMarkup(raw, _) => raw
  }

  ghost function WrittenBody(name: bytes, body: Body): bytes
    requires IsBody(body)
    decreases body
  {
    match body
    case Empty => Ascii("/>")
    case Open(content, close) => Ascii(">") + WrittenContent(content) + (Ascii("</") + name + close + Ascii(">"))
  }

  ghost function WrittenContent(c: Content): bytes
    requires IsContent(c)
    decreases c
  {
    AllWritten(c.text) + if c.Last? then [] else WrittenNode(c.node) + WrittenContent(c.rest)
  }

  /** The text child that a stretch of text means, unless it is blank. */
  function MeantText(text: seq<CharMarkup>, condense: bool): seq<Node>
    requires AreChars(text)
  {
    var value := if condense then Condensed(text) else AllMeant(text);
    if Blank(value) then [] else [Text(value, false)]
  }

  ghost function MeantNode(m: Markup, condense: bool): Node
    requires IsMarkup(m)
    decreases m
  {
    match m
    case ElementMarkup(name, attributes, _, body) =>
      Element(name, MeantAttributes(attributes), MeantBody(body, condense))
    case CommentMarkup(raw, _) => Comment(raw)
    case CdataMarkup(raw) => Text(raw, true)
    case UnknownMarkup(raw, _) => Unknown(raw)
    case DeclarationMarkup(_, node) => node
  }

  ghost function MeantBody(body: Body, condense: bool): seq<Node>
    requires IsBody(body)
    decreases body
  {
    if body.Empty? then [] else MeantChildren(body.content, condense)
  }

  ghost function MeantChildren(c: Content, condense: bool): seq<Node>
    requires IsContent(c)
    decreases c
  {
    MeantText(c.text, condense)
    + if c.Last? then [] else [MeantNode(c.node, condense)] + MeantChildren(c.rest, condense)
  }

  // ------------------------------------------------------------------ white space as text

  function Raws(w: bytes): (t: seq<CharMarkup>)
    ensures |t| == |w| && forall i :: 0 <= i < |w| ==> t[i] == Raw(w[i])
  {
    seq(|w|, i requires 0 <= i < |w| => Raw(w[i]))
  }

  lemma {:induction false} WhiteText(w: bytes)
    requires AllWhite(w)
    ensures var t := Raws(w);
            AreChars(t) && NotRaw(t, LT) && AllBlank(t) && AllWritten(t) == w && AllMeant(t) == w && Condensed(t) == []
    decreases |w|
  {
    var t := Raws(w);
    if w != [] {
      WhiteText(w[1..]);
      assert t[1..] == Raws(w[1..]);
      assert w == [w[0]] + w[1..];
    }
  }

  lemma WhiteMeansNothing(w: bytes, condense: bool)
    requires AllWhite(w)
    ensures AreChars(Raws(w)) && MeantText(Raws(w), condense) == []
  {
    WhiteText(w);
  }

  lemma {:induction false} TextConcat(a: seq<CharMarkup>, b: seq<CharMarkup>)
    requires AreChars(a) && AreChars(b)
    ensures AreChars(a + b) && AllWritten(a + b) == AllWritten(a) + AllWritten(b)
    ensures AllBlank(a) ==> Condensed(a + b) == Condensed(b)
    decreases |a|
  {
    hide Written, IsChar, Meant;
    if a == [] {
      assert a + b == b;
    } else {
      assert (a + b)[1..] == a[1..] + b;
      TextConcat(a[1..], b);
    }
  }

  lemma InkFirst(t: seq<CharMarkup>)
    requires AreChars(t) && t != [] && !IsBlank(t[0])
    ensures Condensed(t) == CondensedOn(t)
  {
    assert !AllBlank(t);
  }

  // ------------------------------------------------------------------ what is read is markup: attributes

  lemma Signs()
    ensures Ascii("<") == [LT] && Ascii(">") == [GT] && Ascii("=") == [EQ] && Ascii("/>") == [SLASH, GT]
    ensures Ascii("</") == END_OPEN && Ascii("<!--") == COMMENT_OPEN && Ascii("-->") == COMMENT_CLOSE
    ensures Ascii("<![CDATA[") == CDATA_OPEN && Ascii("]]>") == CDATA_CLOSE && Ascii("<?xml") == XML_OPEN
  {
    XmlLayout.Marks();
  }

  lemma GapIsWhite(s: bytes, p: Ptr, q: Ptr)
    requires 0 <= p <= q <= |s| && forall i :: p <= i < q ==> IsWhiteSpace(s[i])
    ensures AllWhite(s[p..q]) && Occurs(s, p, s[p..q])
  {}

  /** Skipping white space, as a stretch of it. */
  lemma SkipIsGap(s: bytes, p: Ptr)
    requires Live(s, p)
    ensures var q := SkipWhite(s, p); p <= q <= |s| && AllWhite(s[p..q]) && Occurs(s, p, s[p..q])
    ensures SkipWhite(s, p) == p <==> !IsWhiteSpace(s[p])
  {}

  lemma {:induction false} BareIs(s: bytes, p: Ptr)
    requires 0 <= p <= |s| && Unquoted(s, p).next != NULL
    ensures var r := Unquoted(s, p);
            && r.text == s[p..r.next] && IsValue(Bare(r.text)) && Occurs(s, p, r.text)
            && (Live(s, r.next) ==> IsWhiteSpace(s[r.next]) || s[r.next] == SLASH || s[r.next] == GT)
    decreases |s| - p
  {
    if Live(s, p) && !IsWhiteSpace(s[p]) && s[p] != SLASH && s[p] != GT {
      BareIs(s, p + 1);
      var r := Unquoted(s, p + 1);
      assert s[p..r.next] == [s[p]] + s[p + 1..r.next];
    }
  }

  lemma NameIs(s: bytes, p: Ptr)
    requires p <= |s| && NameAt(s, p).next != NULL
    ensures var r := NameAt(s, p);
            && 0 <= p && ValidName(r.text) && r.text == s[p..r.next] && Occurs(s, p, r.text)
            && (Live(s, r.next) ==> !IsNameChar(s[r.next]) && !IsNameStart(s[r.next]))
  {
    XmlExactness.NameShaped(s, p);
  }

  /** The value of an attribute that is read to its end. */
  lemma ValueIsMarkup(s: bytes, v: Ptr) returns (m: ValueMarkup)
    requires Live(s, v)
    requires if IsQuote(s[v]) then Live(s, TextAt(s, v + 1, false, [s[v]]).next) else Live(s, Unquoted(s, v).next)
    ensures IsValue(m) && Occurs(s, v, WrittenValue(m))
    ensures var r := if IsQuote(s[v]) then TextAt(s, v + 1, false, [s[v]]) else Unquoted(s, v);
            && MeantValue(m) == r.text && r.next == v + |WrittenValue(m)|
            && (m.Bare? ==> IsWhiteSpace(s[r.next]) || s[r.next] == SLASH || s[r.next] == GT)
            && (m == Bare([]) ==> r.next == v)
  {
    hide KeepText, Unquoted, AllWritten, AllMeant;
    if IsQuote(s[v]) {
      var q := s[v];
      var t := KeptIsText(s, v + 1, q);
      m := Quoted(q, t);
      var e := v + 1 + |AllWritten(t)|;
      TagIsByteAt(s, e, q);
      OccursInPlace(s, v, v + 1);
      OccursInPlace(s, e, e + 1);
      assert s[v..v + 1] == [q] && s[e..e + 1] == [q];
      OccursJoin(s, v, [q], AllWritten(t));
      OccursJoin(s, v, [q] + AllWritten(t), [q]);
    } else {
      BareIs(s, v);
      m := Bare(Unquoted(s, v).text);
    }
  }

  /** The positions that the attribute parser passes when it does not fail. */
  lemma AttributePasses(s: bytes, p: Ptr, error: Error)
    requires Live(s, p) && !IsWhiteSpace(s[p]) && Live(s, AttributeAt(s, p, true, error).next)
    ensures var n := NameAt(s, p);
            && Live(s, n.next)
            && var eq := SkipWhite(s, n.next);
            && Live(s, eq) && s[eq] == EQ
            && var v := SkipWhite(s, eq + 1);
            && Live(s, v)
            && var x := if IsQuote(s[v]) then TextAt(s, v + 1, false, [s[v]]) else Unquoted(s, v);
            AttributeAt(s, p, true, error) == AttributeRead(Attribute(n.text, x.text), x.next, error)
  {
    hide TextAt, Unquoted, NameAt, SkipRun;
    SkipIsGap(s, p);
  }

  /** An attribute that is read to its end, with the white space before it. */
  lemma AttributeIsMarkup(s: bytes, start: Ptr, error: Error) returns (m: AttributeMarkup)
    requires Live(s, start) && Live(s, SkipWhite(s, start)) && Live(s, AttributeAt(s, SkipWhite(s, start), true, error).next)
    ensures var r := AttributeAt(s, SkipWhite(s, start), true, error);
            && IsAttribute(m) && Occurs(s, start, WrittenAttribute(m)) && r.next == start + |WrittenAttribute(m)|
            && r.attribute == MeantAttribute(m) && r.error == error
            && (m.lead == [] <==> !IsWhiteSpace(s[start]))
            && (m.lead == [] ==> IsNameStart(s[start]))
            && (m.value.Bare? ==> IsWhiteSpace(s[r.next]) || s[r.next] == SLASH || s[r.next] == GT)
            && (m.value == Bare([]) ==> !IsWhiteSpace(s[r.next]))
  {
    hide TextAt, Unquoted, NameAt, Occurs, IsValue, SkipWhite, AttributeAt, AllWhite, ValidName, WrittenValue,
         MeantValue, WrittenAttribute;
    var p := SkipWhite(s, start);
    SkipIsGap(s, start);
    AttributePasses(s, p, error);
    NameIs(s, p);
    var n := NameAt(s, p);
    SkipIsGap(s, n.next);
    var eq := SkipWhite(s, n.next);
    SkipLive(s, eq + 1);
    SkipIsGap(s, eq + 1);
    var v := SkipWhite(s, eq + 1);
    var value := ValueIsMarkup(s, v);
    m := AttributeMarkup(s[start..p], n.text, s[n.next..eq], s[eq + 1..v], value);
    AttributeParts(s, start, m);
    NameStarts(s, p, n.text);
  }

  lemma SkipLive(s: bytes, p: Ptr)
    requires 0 <= p <= |s| && Live(s, SkipWhite(s, p))
    ensures Live(s, p)
  {}

  lemma NameStarts(s: bytes, p: Ptr, name: bytes)
    requires ValidName(name) && Occurs(s, p, name)
    ensures Live(s, p) && IsNameStart(s[p])
  {
    assert s[p + 0] == name[0];
  }

  lemma AttributeParts(s: bytes, start: Ptr, m: AttributeMarkup)
    requires IsAttribute(m)
    requires Occurs(s, start, m.lead) && Occurs(s, start + |m.lead|, m.name)
    requires var n := start + |m.lead| + |m.name|;
             && Occurs(s, n, m.before) && n + |m.before| < |s| && s[n + |m.before|] == EQ
             && Occurs(s, n + |m.before| + 1, m.after) && Occurs(s, n + |m.before| + 1 + |m.after|, WrittenValue(m.value))
    ensures Occurs(s, start, WrittenAttribute(m))
    ensures |WrittenAttribute(m)| == |m.lead| + |m.name| + |m.before| + 1 + |m.after| + |WrittenValue(m.value)|
  {
    hide Occurs, WrittenValue, IsValue, Ascii;
    Signs();
    var e := start + |m.lead| + |m.name| + |m.before|;
    OccursBounds(s, start, m.lead);
    OccursInPlace(s, e, e + 1);
    assert s[e..e + 1] == [EQ];
    OccursJoin(s, start, m.lead, m.name);
    OccursJoin(s, start, m.lead + m.name, m.before);
    OccursJoin(s, start, m.lead + m.name + m.before, [EQ]);
    OccursJoin(s, start, m.lead + m.name + m.before + [EQ], m.after);
    OccursJoin(s, start, m.lead + m.name + m.before + [EQ] + m.after, WrittenValue(m.value));
  }

  // ------------------------------------------------------------------ what is read is markup: nodes

  lemma CommentWritten(raw: bytes, closed: bool, condense: bool)
    requires Without(raw, COMMENT_CLOSE)
    ensures var m := CommentMarkup(raw, closed);
            && IsMarkup(m) && WrittenNode(m) == COMMENT_OPEN + raw + (if closed then COMMENT_CLOSE else [])
            && MeantNode(m, condense) == Comment(raw)
  {
    hide Without;
    Signs();
  }

  lemma CdataWritten(raw: bytes, condense: bool)
    requires Without(raw, CDATA_CLOSE)
    ensures var m := CdataMarkup(raw);
            && IsMarkup(m) && WrittenNode(m) == CDATA_OPEN + raw + CDATA_CLOSE && MeantNode(m, condense) == Text(raw, true)
  {
    hide Without;
    Signs();
  }

  lemma UnknownWritten(raw: bytes, closed: bool, condense: bool)
    requires IsUnknown(raw)
    ensures var m := UnknownMarkup(raw, closed);
            && IsMarkup(m) && WrittenNode(m) == [LT] + raw + (if closed then [GT] else [])
            && MeantNode(m, condense) == Unknown(raw)
  {
    hide IsUnknown;
    Signs();
  }

  lemma NodeIs(s: bytes, p: Ptr, condense: bool, error: Error)
    requires Live(s, p) && s[p] == LT
    ensures NodeAt(s, p, condense, error)
         == match Identify(s, p)
            case DeclarationKind => DeclarationAt(s, p, error)
            case CommentKind => CommentAt(s, p, error)
            case CdataKind => CdataAt(s, p, error)
            case UnknownKind => UnknownAt(s, p, error)
            case ElementKind => ElementAt(s, p, condense, error)
    ensures SkipWhite(s, p) == p
  {
    hide DeclarationAt, CommentAt, CdataAt, UnknownAt, ElementAt, Identify;
    XmlEncoder.GapOfNothing(s, p);
    SkipTo(s, p, p);
  }

  lemma CommentIsMarkup(s: bytes, p: Ptr, condense: bool, error: Error) returns (m: Markup)
    requires Live(s, p) && s[p] == LT && 0 !in s && Identify(s, p) == CommentKind
    ensures var r := NodeAt(s, p, condense, error);
            && IsMarkup(m) && Occurs(s, p, WrittenNode(m)) && r == NodeRead(MeantNode(m, condense), p + |WrittenNode(m)|, error)
            && (IsClosed(m) || r.next == |s|)
  {
    hide RawText, Without, Identify, NodeAt, IsMarkup, WrittenNode, MeantNode, Occurs;
    NodeIs(s, p, condense, error);
    IdentifiedTag(s, p);
    OccursTag(s, p, COMMENT_OPEN);
    var text := RawText(s, p + 4, COMMENT_CLOSE);
    XmlExactness.RawIs(s, p + 4, COMMENT_CLOSE);
    XmlExactness.RawShaped(s, p + 4, COMMENT_CLOSE);
    var closed := Live(s, text.next);
    m := CommentMarkup(text.text, closed);
    CommentWritten(text.text, closed, condense);
    OccursInPlace(s, p + 4, text.next);
    OccursJoin(s, p, COMMENT_OPEN, text.text);
    if closed {
      OccursTag(s, text.next, COMMENT_CLOSE);
      OccursJoin(s, p, COMMENT_OPEN + text.text, COMMENT_CLOSE);
    } else {
      assert COMMENT_OPEN + text.text + [] == COMMENT_OPEN + text.text;
    }
  }

  /** The tag by which a kind of node is told. */
  lemma IdentifiedTag(s: bytes, p: Ptr)
    requires Live(s, p) && s[p] == LT
    ensures Identify(s, p) == CommentKind ==> TagAt(s, p, COMMENT_OPEN)
    ensures Identify(s, p) == CdataKind ==> TagAt(s, p, CDATA_OPEN)
    ensures Identify(s, p) == UnknownKind ==>
              && !TagAtIgnoreCase(s, p, XML_OPEN) && !TagAt(s, p, COMMENT_OPEN) && !TagAt(s, p, CDATA_OPEN)
              && (Live(s, p + 1) ==> !IsNameStart(s[p + 1]))
    ensures Identify(s, p) == ElementKind ==> Live(s, p + 1) && IsNameStart(s[p + 1])
  {
    if TagAt(s, p, DTD_OPEN) {
      OccursTag(s, p, DTD_OPEN);
      OccursByte(s, p, DTD_OPEN, 1);
    }
  }

  lemma CdataIsMarkup(s: bytes, p: Ptr, condense: bool, error: Error) returns (m: Markup)
    requires Live(s, p) && s[p] == LT && 0 !in s && Identify(s, p) == CdataKind && NodeAt(s, p, condense, error).next != NULL
    ensures var r := NodeAt(s, p, condense, error);
            && IsMarkup(m) && IsClosed(m) && Occurs(s, p, WrittenNode(m)) && r == NodeRead(MeantNode(m, condense), p + |WrittenNode(m)|, error)
  {
    hide RawText, Without, Identify, NodeAt, IsMarkup, WrittenNode, MeantNode, Occurs;
    NodeIs(s, p, condense, error);
    IdentifiedTag(s, p);
    OccursTag(s, p, CDATA_OPEN);
    var text := RawText(s, p + 9, CDATA_CLOSE);
    XmlExactness.RawIs(s, p + 9, CDATA_CLOSE);
    XmlExactness.RawShaped(s, p + 9, CDATA_CLOSE);
    m := CdataMarkup(text.text);
    CdataWritten(text.text, condense);
    OccursInPlace(s, p + 9, text.next);
    OccursJoin(s, p, CDATA_OPEN, text.text);
    assert Live(s, text.next);
    OccursTag(s, text.next, CDATA_CLOSE);
    OccursJoin(s, p, CDATA_OPEN + text.text, CDATA_CLOSE);
    assert KeepText(s, text.next, CDATA_CLOSE) == Read([], text.next);
  }

  lemma {:induction false} GreaterIs(s: bytes, p: Ptr)
    requires 0 <= p <= |s|
    ensures var r := UntilGreater(s, p);
            r.text == s[p..r.next] && GT !in r.text && (Live(s, r.next) ==> s[r.next] == GT)
    decreases |s| - p
  {
    if Live(s, p) && s[p] != GT {
      GreaterIs(s, p + 1);
      var r := UntilGreater(s, p + 1);
      assert s[p..r.next] == [s[p]] + s[p + 1..r.next];
    }
  }

  lemma UnknownIsMarkup(s: bytes, p: Ptr, condense: bool, error: Error) returns (m: Markup)
    requires Live(s, p) && s[p] == LT && 0 !in s && Identify(s, p) == UnknownKind
    ensures var r := NodeAt(s, p, condense, error);
            && IsMarkup(m) && Occurs(s, p, WrittenNode(m)) && r == NodeRead(MeantNode(m, condense), p + |WrittenNode(m)|, error)
            && (IsClosed(m) || r.next == |s|)
  {
    hide UntilGreater, Identify, Occurs, IsUnknown, TagAt, TagAtIgnoreCase, NodeAt, IsMarkup, WrittenNode, MeantNode;
    NodeIs(s, p, condense, error);
    IdentifiedTag(s, p);
    GreaterIs(s, p + 1);
    var text := UntilGreater(s, p + 1);
    var closed := Live(s, text.next);
    m := UnknownMarkup(text.text, closed);
    OneByteOccurs(s, p, LT);
    OccursInPlace(s, p + 1, text.next);
    OccursJoin(s, p, [LT], text.text);
    UnknownRaw(s, p, text.text);
    UnknownWritten(text.text, closed, condense);
    if closed {
      OneByteOccurs(s, text.next, GT);
      OccursJoin(s, p, [LT] + text.text, [GT]);
    } else {
      assert [LT] + text.text + [] == [LT] + text.text;
    }
  }

  lemma OneByteOccurs(s: bytes, p: Ptr, c: byte)
    requires Live(s, p) && s[p] == c
    ensures Occurs(s, p, [c])
  {}

  lemma UnknownRaw(s: bytes, p: Ptr, raw: bytes)
    requires Occurs(s, p, [LT] + raw) && GT !in raw
    requires !TagAtIgnoreCase(s, p, XML_OPEN) && !TagAt(s, p, COMMENT_OPEN) && !TagAt(s, p, CDATA_OPEN)
    requires Live(s, p + 1) ==> !IsNameStart(s[p + 1])
    ensures IsUnknown(raw)
  {
    Signs();
    var u := [LT] + raw;
    TagsMove(s, p, u, COMMENT_OPEN);
    TagsMove(s, p, u, CDATA_OPEN);
    TagsMove(s, p, u, XML_OPEN);
    if raw != [] {
      assert u[1] == s[p + 1];
    }
  }

  lemma TagsMove(s: bytes, p: Ptr, u: bytes, tag: bytes)
    requires Occurs(s, p, u)
    ensures TagAt(u, 0, tag) ==> TagAt(s, p, tag)
    ensures TagAtIgnoreCase(u, 0, tag) ==> TagAtIgnoreCase(s, p, tag)
  {
    if |tag| <= |u| {
      OccursSlices(s, p, u);
      assert s[p..p + |tag|] == u[0..|tag|];
      assert forall i :: 0 <= i < |tag| ==> u[i] == s[p + i];
    }
  }

  lemma DeclarationIsMarkup(s: bytes, p: Ptr, condense: bool, error: Error) returns (m: Markup)
    requires Live(s, p) && s[p] == LT && 0 !in s && Identify(s, p) == DeclarationKind && NodeAt(s, p, condense, error).next != NULL
    ensures var r := NodeAt(s, p, condense, error);
            && IsMarkup(m) && IsClosed(m) && Occurs(s, p, WrittenNode(m)) && r == NodeRead(MeantNode(m, condense), p + |WrittenNode(m)|, error)
  {
    hide DeclarationAt, TagAt;
    Signs();
    XmlEncoder.GapOfNothing(s, p);
    SkipTo(s, p, p);
    XmlExactness.DeclarationStays(s, p, error);
    var r := DeclarationAt(s, p, error);
    DeclarationError(s, p, error);
    m := DeclarationMarkup(s[p..r.next], r.node);
    OccursInPlace(s, p, r.next);
  }

  lemma DeclarationError(s: bytes, p: Ptr, error: Error)
    requires Live(s, p)
    ensures var r := DeclarationAt(s, p, error); r.next != NULL ==> r.error == error && p + 5 < r.next && s[r.next - 1] == GT
  {
    hide DeclarationFrom;
    var q := SkipWhite(s, p);
    if TagAtIgnoreCase(s, q, XML_OPEN) {
      DeclarationKeeps(s, q + 5, Declaration([], [], []), error);
    }
  }

  lemma {:induction false} DeclarationKeeps(s: bytes, p: Ptr, d: Node, error: Error)
    requires p <= |s| && d.Declaration?
    ensures var r := DeclarationFrom(s, p, d, error); r.error == error && (r.next != NULL ==> s[r.next - 1] == GT)
    decreases if Live(s, p) then |s| - p else 0
  {
    hide DeclarationItem;
    if Live(s, p) && s[p] != GT {
      var item := DeclarationItem(s, SkipWhite(s, p), d);
      DeclarationKeeps(s, item.1, item.0, error);
    }
  }

  /** Markup of the attributes, the white space behind them and the body of an element. */
  datatype Inside = Inside(attributes: seq<AttributeMarkup>, gap: bytes, body: Body)

  ghost predicate IsInside(x: Inside, needLead: bool) {
    AreAttributes(x.attributes, needLead) && AllWhite(x.gap) && GapFits(x.attributes, x.gap) && IsBody(x.body)
  }

  ghost function WrittenInside(name: bytes, x: Inside): bytes
    requires IsInside(x, false)
  {
    WrittenAttributes(x.attributes) + x.gap + WrittenBody(name, x.body)
  }

  /** Whatever node is read to its end is markup, and means what was read. */
  lemma {:induction false} NodeIsMarkup(s: bytes, p: Ptr, condense: bool, error: Error) returns (m: Markup)
    requires Live(s, p) && s[p] == LT && 0 !in s && NodeAt(s, p, condense, error).next != NULL
    ensures var r := NodeAt(s, p, condense, error);
            && IsMarkup(m) && Occurs(s, p, WrittenNode(m)) && r == NodeRead(MeantNode(m, condense), p + |WrittenNode(m)|, error)
            && (IsClosed(m) || r.next == |s|)
    decreases |s| - p, 3
  {
    hide NodeAt, IsMarkup, WrittenNode, MeantNode, Occurs, IsClosed, Identify;
    match Identify(s, p)
    case DeclarationKind => m := DeclarationIsMarkup(s, p, condense, error);
    case CommentKind => m := CommentIsMarkup(s, p, condense, error);
    case CdataKind => m := CdataIsMarkup(s, p, condense, error);
    case UnknownKind => m := UnknownIsMarkup(s, p, condense, error);
    case ElementKind => m := ElementIsMarkup(s, p, condense, error);
  }

  lemma {:induction false} ElementIsMarkup(s: bytes, p: Ptr, condense: bool, error: Error) returns (m: Markup)
    requires Live(s, p) && s[p] == LT && 0 !in s && Identify(s, p) == ElementKind && NodeAt(s, p, condense, error).next != NULL
    ensures var r := NodeAt(s, p, condense, error);
            && IsMarkup(m) && m.ElementMarkup? && IsClosed(m)
            && Occurs(s, p, WrittenNode(m)) && r == NodeRead(MeantNode(m, condense), p + |WrittenNode(m)|, error)
    decreases |s| - p, 2
  {
    hide NodeAt, ElementFrom, ElementAt, NameAt, Occurs, IsInside, WrittenInside, Identify, IsMarkup, WrittenNode,
         MeantNode, MeantAttributes, MeantBody, ValidName, IsNameChar;
    ElementStarts(s, p, condense, error);
    var name := NameAt(s, p + 1);
    NameIs(s, p + 1);
    var x := InsideIsMarkup(s, name.next, name.text, [], condense, error, true);
    m := ElementMarkup(name.text, x.attributes, x.gap, x.body);
    ElementWritten(m, x, condense);
    OneByteOccurs(s, p, LT);
    OccursJoin(s, p, [LT], name.text);
    OccursJoin(s, p, [LT] + name.text, WrittenInside(name.text, x));
  }

  lemma NameStartsHere(s: bytes, p: Ptr)
    requires Live(s, p) && IsNameStart(s[p])
    ensures SkipWhite(s, p) == p && NameAt(s, p).next != NULL
  {
    XmlEncoder.GapOfNothing(s, p);
    SkipTo(s, p, p);
  }

  lemma ElementStarts(s: bytes, p: Ptr, condense: bool, error: Error)
    requires Live(s, p) && s[p] == LT && Identify(s, p) == ElementKind
    ensures Live(s, p + 1) && IsNameStart(s[p + 1])
    ensures var name := NameAt(s, p + 1);
            && name.next != NULL
            && NodeAt(s, p, condense, error)
               == if Live(s, name.next) then ElementFrom(s, name.next, name.text, [], condense, error)
                  else NodeRead(Element(name.text, [], []), NULL, Raise(error, FailedToReadElementName))
  {
    hide NodeAt, ElementFrom, NameAt, Identify, SkipWhite;
    NodeIs(s, p, condense, error);
    IdentifiedTag(s, p);
    NameStartsHere(s, p + 1);
  }

  lemma ElementWritten(m: Markup, x: Inside, condense: bool)
    requires m.ElementMarkup? && ValidName(m.name) && IsInside(x, true)
    requires x == Inside(m.attributes, m.gap, m.body)
    ensures IsInside(x, false) && IsMarkup(m) && WrittenNode(m) == [LT] + m.name + WrittenInside(m.name, x)
    ensures MeantNode(m, condense) == Element(m.name, MeantAttributes(m.attributes), MeantBody(m.body, condense))
  {
    hide WrittenBody, IsBody, MeantBody;
    Signs();
  }

  /** One turn of the attribute loop. */
  lemma FromOnce(s: bytes, start: Ptr, name: bytes, attributes: seq<Attribute>, condense: bool, error: Error)
    requires Live(s, start)
    ensures var p := SkipWhite(s, start);
            var e := Element(name, attributes, []);
            ElementFrom(s, start, name, attributes, condense, error)
            == if !Live(s, p) then NodeRead(e, NULL, Raise(error, ReadingAttributes))
               else if s[p] == SLASH then
                 if Peek(s, p + 1) != GT then NodeRead(e, NULL, Raise(error, ParsingEmpty)) else NodeRead(e, p + 2, error)
               else if s[p] == GT then ElementContent(s, p + 1, e, condense, error)
               else
                 var a := AttributeAt(s, p, true, error);
                 if !Live(s, a.next) || HasName(attributes, a.attribute.name) then NodeRead(e, NULL, Raise(a.error, ParsingElement))
                 else ElementFrom(s, a.next, name, attributes + [a.attribute], condense, a.error)
  {
    hide AttributeAt, HasName, ElementContent;
  }

  lemma EmptyInside(s: bytes, start: Ptr, name: bytes, done: seq<Attribute>, condense: bool, error: Error, needLead: bool)
    returns (x: Inside)
    requires Live(s, start)
    requires var p := SkipWhite(s, start);
             && Live(s, p) && s[p] == SLASH
             && ElementFrom(s, start, name, done, condense, error).next != NULL
    ensures IsInside(x, needLead) && ReadsInside(s, start, name, done, condense, error, x)
    ensures x == Inside([], s[start..SkipWhite(s, start)], Empty)
  {
    hide Occurs;
    Signs();
    FromOnce(s, start, name, done, condense, error);
    var p := SkipWhite(s, start);
    SkipIsGap(s, start);
    OneByteOccurs(s, p, SLASH);
    OneByteOccurs(s, p + 1, GT);
    OccursJoin(s, p, [SLASH], [GT]);
    OccursJoin(s, start, s[start..p], [SLASH, GT]);
    x := Inside([], s[start..p], Empty);
    assert [] + s[start..p] + [SLASH, GT] == s[start..p] + [SLASH, GT];
    assert [SLASH] + [GT] == [SLASH, GT];
    assert done + [] == done;
  }

  lemma BodyInside(s: bytes, start: Ptr, name: bytes, done: seq<Attribute>, condense: bool, error: Error, needLead: bool, body: Body)
    returns (x: Inside)
    requires Live(s, start)
    requires var p := SkipWhite(s, start);
             && Live(s, p) && IsBody(body) && Occurs(s, p, WrittenBody(name, body))
             && ElementFrom(s, start, name, done, condense, error)
                == NodeRead(Element(name, done, MeantBody(body, condense)), p + |WrittenBody(name, body)|, error)
    ensures IsInside(x, needLead) && ReadsInside(s, start, name, done, condense, error, x)
    ensures x == Inside([], s[start..SkipWhite(s, start)], body)
  {
    hide WrittenBody, IsBody, MeantBody, Occurs, ElementFrom;
    var p := SkipWhite(s, start);
    SkipIsGap(s, start);
    OccursJoin(s, start, s[start..p], WrittenBody(name, body));
    x := Inside([], s[start..p], body);
    assert [] + s[start..p] + WrittenBody(name, body) == s[start..p] + WrittenBody(name, body);
    assert done + [] == done;
  }

  /** The attribute's name is none of those behind it. */
  lemma NamesApart(m: AttributeMarkup, l: seq<AttributeMarkup>, done: seq<Attribute>, a: Attribute)
    requires a.name == m.name && !HasName(done, m.name)
    requires forall i :: 0 <= i < |l| ==> !HasName(done + [a], l[i].name)
    ensures forall i :: 0 <= i < |l| ==> l[i].name != m.name && !HasName(done, l[i].name)
    ensures forall i :: 0 <= i < |[m] + l| ==> !HasName(done, ([m] + l)[i].name)
  {
    forall i | 0 <= i < |l|
      ensures l[i].name != m.name && !HasName(done, l[i].name)
    {
      var names := done + [a];
      assert names[|done|].name == m.name;
      forall k | 0 <= k < |done|
        ensures done[k].name != l[i].name
      {
        assert names[k] == done[k];
      }
    }
  }

  lemma AttributesBefore(m: AttributeMarkup, l: seq<AttributeMarkup>, needLead: bool)
    requires IsAttribute(m) && AreAttributes(l, m.value.Bare?) && (needLead ==> m.lead != [])
    requires m.value == Bare([]) ==> l == []
    requires forall i :: 0 <= i < |l| ==> l[i].name != m.name
    ensures AreAttributes([m] + l, needLead) && AreAttributes([m] + l, false) && AreAttributes(l, false)
  {
    hide IsAttribute;
    var all := [m] + l;
    assert forall i :: 0 < i < |all| ==> all[i] == l[i - 1];
    forall i, j | 0 <= i < j < |all| && j == i + 1
      ensures Apart(all[i], all[j])
    {
      if i > 0 {
        assert Apart(l[i - 1], l[j - 1]);
      }
    }
  }

  lemma AttributesConcat(m: AttributeMarkup, l: seq<AttributeMarkup>)
    requires IsAttribute(m) && forall i :: 0 <= i < |l| ==> IsAttribute(l[i])
    ensures forall i :: 0 <= i < |[m] + l| ==> IsAttribute(([m] + l)[i])
    ensures WrittenAttributes([m] + l) == WrittenAttribute(m) + WrittenAttributes(l)
    ensures MeantAttributes([m] + l) == [MeantAttribute(m)] + MeantAttributes(l)
  {
    hide IsAttribute, WrittenAttribute, MeantValue;
    var all := [m] + l;
    assert all[1..] == l && all[0] == m;
    assert forall i :: 0 < i < |all| ==> all[i] == l[i - 1];
  }

  lemma FourConcat(a: bytes, b: bytes, c: bytes, d: bytes)
    ensures a + b + c + d == a + (b + c + d)
  {}

  /** An attribute in front of the inside of an element. */
  lemma AttributeBefore(m: AttributeMarkup, x: Inside, name: bytes, done: seq<Attribute>, needLead: bool)
    requires IsAttribute(m) && IsInside(x, m.value.Bare?) && (needLead ==> m.lead != [])
    requires m.value == Bare([]) ==> x.attributes == [] && x.gap == []
    requires !HasName(done, m.name)
    requires forall i :: 0 <= i < |x.attributes| ==>
      !HasName(done + [MeantAttribute(m)], x.attributes[i].name)
    ensures var y := Inside([m] + x.attributes, x.gap, x.body);
            && IsInside(y, needLead) && IsInside(y, false) && IsInside(x, false)
            && WrittenInside(name, y) == WrittenAttribute(m) + WrittenInside(name, x)
            && done + MeantAttributes(y.attributes)
               == done + [MeantAttribute(m)] + MeantAttributes(x.attributes)
            && (forall i :: 0 <= i < |y.attributes| ==> !HasName(done, y.attributes[i].name))
  {
    hide IsAttribute, WrittenAttribute, MeantAttribute, WrittenBody, IsBody, HasName, AllWhite, WrittenAttributes,
         MeantAttributes;
    var a := MeantAttribute(m);
    NamesApart(m, x.attributes, done, a);
    AttributesBefore(m, x.attributes, needLead);
    AttributesConcat(m, x.attributes);
    FourConcat(WrittenAttribute(m), WrittenAttributes(x.attributes), x.gap, WrittenBody(name, x.body));
    assert done + ([a] + MeantAttributes(x.attributes)) == done + [a] + MeantAttributes(x.attributes);
  }

  /** What is read from there, behind those attributes, is what x means. */
  ghost predicate ReadsInside(s: bytes, start: Ptr, name: bytes, done: seq<Attribute>, condense: bool, error: Error, x: Inside)
    requires Live(s, start)
  {
    && IsInside(x, false) && Occurs(s, start, WrittenInside(name, x))
    && (forall i :: 0 <= i < |x.attributes| ==> !HasName(done, x.attributes[i].name))
    && ElementFrom(s, start, name, done, condense, error)
       == NodeRead(Element(name, done + MeantAttributes(x.attributes), MeantBody(x.body, condense)),
                   start + |WrittenInside(name, x)|, error)
  }

  lemma AttributeJoins(s: bytes, start: Ptr, name: bytes, done: seq<Attribute>, condense: bool, error: Error, needLead: bool,
                       m: AttributeMarkup, y: Inside)
    returns (x: Inside)
    requires Live(s, start) && IsAttribute(m) && Occurs(s, start, WrittenAttribute(m)) && (needLead ==> m.lead != [])
    requires var n, more := start + |WrittenAttribute(m)|, done + [MeantAttribute(m)];
             && Live(s, n) && !HasName(done, m.name) && (m.value == Bare([]) ==> !IsWhiteSpace(s[n]))
             && IsInside(y, m.value.Bare?) && ReadsInside(s, n, name, more, condense, error, y)
             && ElementFrom(s, start, name, done, condense, error) == ElementFrom(s, n, name, more, condense, error)
    ensures ReadsInside(s, start, name, done, condense, error, x) && IsInside(x, needLead)
    ensures x == Inside([m] + y.attributes, y.gap, y.body)
  {
    hide ElementFrom, HasName, Occurs, IsInside, WrittenInside, MeantAttributes, MeantBody, IsAttribute,
         WrittenAttribute, MeantAttribute;
    NothingBehind(s, start + |WrittenAttribute(m)|, name, y, m.value);
    AttributeBefore(m, y, name, done, needLead);
    x := Inside([m] + y.attributes, y.gap, y.body);
    OccursJoin(s, start, WrittenAttribute(m), WrittenInside(name, y));
  }

  lemma {:induction false} InsideIsMarkup(s: bytes, start: Ptr, name: bytes, attributes: seq<Attribute>, condense: bool,
                                          error: Error, needLead: bool)
    returns (x: Inside)
    requires Live(s, start) && 0 !in s && ValidName(name) && (needLead ==> !IsNameStart(s[start]))
    requires ElementFrom(s, start, name, attributes, condense, error).next != NULL
    ensures IsInside(x, needLead) && ReadsInside(s, start, name, attributes, condense, error, x)
    decreases |s| - start, 1
  {
    hide ReadsInside, ElementFrom, AttributeAt, HasName, ElementContent, Occurs, IsInside, IsAttribute,
         WrittenAttribute, MeantAttribute, ValidName, IsNameStart, IsBody, WrittenBody, MeantBody, SkipWhite;
    FromOnce(s, start, name, attributes, condense, error);
    var p := SkipWhite(s, start);
    if s[p] == SLASH {
      x := EmptyInside(s, start, name, attributes, condense, error, needLead);
    } else if s[p] == GT {
      var body := BodyIsMarkup(s, p, Element(name, attributes, []), condense, error);
      x := BodyInside(s, start, name, attributes, condense, error, needLead, body);
    } else {
      var m := AttributeIsMarkup(s, start, error);
      var a := AttributeAt(s, p, true, error);
      NotNameStart(s, a.next);
      var y := InsideIsMarkup(s, a.next, name, attributes + [a.attribute], condense, error, m.value.Bare?);
      x := AttributeJoins(s, start, name, attributes, condense, error, needLead, m, y);
    }
  }

  /** Where no white space stands, neither an attribute that needs it nor a gap does. */
  lemma NothingBehind(s: bytes, p: Ptr, name: bytes, x: Inside, value: ValueMarkup)
    requires Live(s, p) && IsInside(x, false) && IsInside(x, value.Bare?) && Occurs(s, p, WrittenInside(name, x))
    requires value == Bare([]) ==> !IsWhiteSpace(s[p])
    ensures value == Bare([]) ==> x.attributes == [] && x.gap == []
  {
    hide WrittenBody, IsBody, WrittenValue;
    if value == Bare([]) {
      OccursSplit3(s, p, WrittenAttributes(x.attributes), x.gap, WrittenBody(name, x.body));
      if x.attributes != [] {
        OccursSplit(s, p, WrittenAttribute(x.attributes[0]), WrittenAttributes(x.attributes[1..]));
        WhiteLeads(s, p, x.attributes[0]);
      } else if x.gap != [] {
        GapLeads(s, p, x.gap);
      }
    }
  }

  lemma GapLeads(s: bytes, p: Ptr, w: bytes)
    requires w != [] && AllWhite(w) && Occurs(s, p, w)
    ensures Live(s, p) && IsWhiteSpace(s[p])
  {
    OccursByte(s, p, w, 0);
  }

  lemma WhiteLeads(s: bytes, p: Ptr, a: AttributeMarkup)
    requires IsAttribute(a) && a.lead != [] && Occurs(s, p, WrittenAttribute(a))
    ensures Live(s, p) && IsWhiteSpace(s[p])
  {
    hide WrittenValue, ValidName;
    OccursByte(s, p, WrittenAttribute(a), 0);
    assert WrittenAttribute(a)[0] == a.lead[0];
  }

  lemma NotNameStart(s: bytes, p: Ptr)
    requires Live(s, p)
    ensures IsWhiteSpace(s[p]) || s[p] == SLASH || s[p] == GT ==> !IsNameStart(s[p])
  {}

  /** The content and end tag of an element. */
  lemma {:induction false} BodyIsMarkup(s: bytes, p: Ptr, e: Node, condense: bool, error: Error) returns (body: Body)
    requires Live(s, p) && s[p] == GT && 0 !in s && e.Element? && ValidName(e.name) && e.children == []
    requires ElementContent(s, p + 1, e, condense, error).next != NULL
    ensures IsBody(body) && Occurs(s, p, WrittenBody(e.name, body))
    ensures ElementContent(s, p + 1, e, condense, error)
         == NodeRead(Element(e.name, e.attributes, MeantBody(body, condense)), p + |WrittenBody(e.name, body)|, error)
    decreases |s| - p, 0
  {
    hide ValueAt, Occurs, ValidName, WrittenContent, MeantChildren, IsContent;
    var value := ValueAt(s, p + 1, [], condense, error);
    var end := END_OPEN + e.name;
    EndTagStarts(s, value.next, e.name);
    var c := ContentIsMarkup(s, p + 1, [], condense, error);
    OccursTag(s, value.next, end);
    var q := SkipWhite(s, value.next + 2 + |e.name|);
    SkipIsGap(s, value.next + 2 + |e.name|);
    var close := s[value.next + 2 + |e.name|..q];
    body := Open(c, close);
    assert [] + MeantChildren(c, condense) == MeantChildren(c, condense);
    OneByteOccurs(s, p, GT);
    OneByteOccurs(s, q, GT);
    BodyParts(s, p, e.name, c, close);
  }

  lemma EndTagStarts(s: bytes, p: Ptr, name: bytes)
    requires Live(s, p) && TagAt(s, p, END_OPEN + name)
    ensures TagAt(s, p, END_OPEN)
  {
    OccursTag(s, p, END_OPEN + name);
    OccursSplit(s, p, END_OPEN, name);
    TagAtOccurs(s, p, END_OPEN);
  }

  lemma BodyParts(s: bytes, p: Ptr, name: bytes, c: Content, close: bytes)
    requires IsContent(c) && AllWhite(close) && Occurs(s, p, [GT]) && Occurs(s, p + 1, WrittenContent(c))
    requires var e := p + 1 + |WrittenContent(c)|;
             && Occurs(s, e, END_OPEN + name) && Occurs(s, e + 2 + |name|, close) && Occurs(s, e + 2 + |name| + |close|, [GT])
    ensures IsBody(Open(c, close)) && Occurs(s, p, WrittenBody(name, Open(c, close)))
    ensures |WrittenBody(name, Open(c, close))| == 1 + |WrittenContent(c)| + 2 + |name| + |close| + 1
  {
    hide Occurs, WrittenContent, IsContent, Ascii;
    Signs();
    var e := p + 1 + |WrittenContent(c)|;
    OccursJoin(s, e, END_OPEN + name, close);
    OccursJoin(s, e, END_OPEN + name + close, [GT]);
    OccursJoin(s, p, [GT], WrittenContent(c));
    OccursJoin(s, p, [GT] + WrittenContent(c), END_OPEN + name + close + [GT]);
  }

  /** One turn of the loop over children. */
  lemma ValueOnce(s: bytes, start: Ptr, children: seq<Node>, condense: bool, error: Error)
    requires start <= |s|
    ensures var p := SkipWhite(s, start);
            ValueAt(s, start, children, condense, error)
            == if !Live(s, p) then ValueRead(children, p, if p == NULL then Raise(error, ReadingElementValue) else error)
               else if s[p] != LT then
                 var text := PlainTextAt(s, if condense then p else start, condense);
                 var more := if Blank(text.text) then children else children + [Text(text.text, false)];
                 ValueAt(s, text.next, more, condense, error)
               else if TagAt(s, p, END_OPEN) then ValueRead(children, p, error)
               else
                 var r := NodeAt(s, p, condense, error);
                 ValueAt(s, r.next, children + [r.node], condense, r.error)
  {
    hide PlainTextAt, NodeAt, Blank;
  }

  lemma NoValue(s: bytes, children: seq<Node>, condense: bool, error: Error)
    ensures ValueAt(s, NULL, children, condense, error).next == NULL
  {}

  /** The plain text that is read from there, with the white space before it. */
  lemma PlainIsMarkup(s: bytes, start: Ptr, condense: bool) returns (t: seq<CharMarkup>)
    requires Live(s, start) && Live(s, SkipWhite(s, start)) && s[SkipWhite(s, start)] != LT
    requires PlainTextAt(s, if condense then SkipWhite(s, start) else start, condense).next != NULL
    ensures AreChars(t) && NotRaw(t, LT) && Occurs(s, start, AllWritten(t))
    ensures var r := PlainTextAt(s, if condense then SkipWhite(s, start) else start, condense);
            && r.next == start + |AllWritten(t)| && Live(s, r.next) && s[r.next] == LT
            && MeantText(t, condense) == if Blank(r.text) then [] else [Text(r.text, false)]
  {
    hide KeepText, TrimText, AllWritten, AllMeant, Condensed, CondensedOn, Blank, Occurs;
    var p := SkipWhite(s, start);
    SkipIsGap(s, start);
    SkipIsGap(s, p);
    if condense {
      var u := TrimmedIsText(s, p, false);
      var w := s[start..p];
      WhiteText(w);
      TextConcat(Raws(w), u);
      t := Raws(w) + u;
      OccursJoin(s, start, w, AllWritten(u));
      TextStarts(s, p, u);
    } else {
      t := KeptIsText(s, start, LT);
    }
  }

  /** Text that starts where neither white space nor the stop byte stands. */
  lemma TextStarts(s: bytes, p: Ptr, u: seq<CharMarkup>)
    requires AreChars(u) && NotRaw(u, LT) && Occurs(s, p, AllWritten(u)) && Live(s, p) && !IsWhiteSpace(s[p])
    ensures u != [] ==> Condensed(u) == CondensedOn(u)
    ensures u == [] ==> Condensed(u) == CondensedOn(u) == []
  {
    hide Written, IsChar, Meant;
    if u != [] {
      OccursSplit(s, p, Written(u[0]), AllWritten(u[1..]));
      StopIsNoStart(s, p, u[0], LT);
      InkFirst(u);
    }
  }

  lemma NoTextHere(s: bytes, p: Ptr, u: seq<CharMarkup>)
    requires AreChars(u) && NotRaw(u, LT) && Occurs(s, p, AllWritten(u)) && Live(s, p) && s[p] == LT
    ensures u == []
  {
    hide Written, IsChar, Meant;
    if u != [] {
      OccursSplit(s, p, Written(u[0]), AllWritten(u[1..]));
      StopIsNoStart(s, p, u[0], LT);
    }
  }

  /** A turn of the loop over children that reads text. */
  lemma TextTurn(s: bytes, start: Ptr, children: seq<Node>, condense: bool, error: Error) returns (t: seq<CharMarkup>)
    requires Live(s, start) && Live(s, SkipWhite(s, start)) && s[SkipWhite(s, start)] != LT
    requires ValueAt(s, start, children, condense, error).next != NULL
    ensures AreChars(t) && NotRaw(t, LT) && Occurs(s, start, AllWritten(t))
    ensures var n := start + |AllWritten(t)|;
            && start < n && Live(s, n) && s[n] == LT
            && ValueAt(s, start, children, condense, error)
               == ValueAt(s, n, children + MeantText(t, condense), condense, error)
  {
    hide ValueAt, PlainTextAt, Blank, Occurs, SkipWhite, MeantText, AllWritten;
    ValueOnce(s, start, children, condense, error);
    var r := PlainTextAt(s, if condense then SkipWhite(s, start) else start, condense);
    NoValue(s, children, condense, error);
    NoValue(s, children + [Text(r.text, false)], condense, error);
    t := PlainIsMarkup(s, start, condense);
    SomethingRead(s, start, t);
    assert children + [] == children;
  }

  /** A turn of the loop over children that reads a node. */
  lemma NodeTurn(s: bytes, start: Ptr, p: Ptr, children: seq<Node>, condense: bool, error: Error)
    requires Live(s, start) && p == SkipWhite(s, start) && Live(s, p) && s[p] == LT && !TagAt(s, p, END_OPEN)
    requires Live(s, ValueAt(s, start, children, condense, error).next)
    ensures var r := NodeAt(s, p, condense, error);
            && p < r.next && Live(s, r.next)
            && ValueAt(s, start, children, condense, error) == ValueAt(s, r.next, children + [r.node], condense, r.error)
  {
    hide ValueAt, NodeAt, SkipWhite;
    ValueOnce(s, start, children, condense, error);
    var r := NodeAt(s, p, condense, error);
    NoValue(s, children + [r.node], condense, r.error);
    LiveStart(s, r.next, children + [r.node], condense, r.error);
  }

  lemma LastTurn(s: bytes, start: Ptr, p: Ptr, children: seq<Node>, condense: bool, error: Error)
    requires Live(s, start) && p == SkipWhite(s, start) && Live(s, p) && s[p] == LT && TagAt(s, p, END_OPEN)
    ensures ValueAt(s, start, children, condense, error) == ValueRead(children, p, error)
  {}

  lemma NoTurn(s: bytes, start: Ptr, children: seq<Node>, condense: bool, error: Error)
    requires Live(s, start) && Live(s, ValueAt(s, start, children, condense, error).next)
    ensures Live(s, SkipWhite(s, start))
  {}

  /** The children that are read from there, up to an end tag, are what c means. */
  ghost predicate ReadsContent(s: bytes, start: Ptr, children: seq<Node>, condense: bool, error: Error, c: Content)
    requires start <= |s|
  {
    && IsContent(c) && Occurs(s, start, WrittenContent(c))
    && ValueAt(s, start, children, condense, error)
       == ValueRead(children + MeantChildren(c, condense), start + |WrittenContent(c)|, error)
  }

  lemma TextJoins(s: bytes, start: Ptr, children: seq<Node>, condense: bool, error: Error, t: seq<CharMarkup>, d: Content)
    returns (c: Content)
    requires AreChars(t) && NotRaw(t, LT) && Occurs(s, start, AllWritten(t))
    requires var n, more := start + |AllWritten(t)|, children + MeantText(t, condense);
             && ValueAt(s, start, children, condense, error) == ValueAt(s, n, more, condense, error)
             && d.text == [] && ReadsContent(s, n, more, condense, error, d)
    ensures ReadsContent(s, start, children, condense, error, c)
  {
    hide ValueAt, Occurs, MeantText, AllWritten, AreChars, NotRaw;
    c := TextBefore(s, start, t, d, condense);
    ConcatNodes(children, MeantText(t, condense), MeantChildren(d, condense));
  }

  lemma NodeJoins(s: bytes, start: Ptr, p: Ptr, children: seq<Node>, condense: bool, error: Error, m: Markup, d: Content)
    returns (c: Content)
    requires 0 <= start <= p && Live(s, p) && !TagAt(s, p, END_OPEN)
    requires AllWhite(s[start..p]) && IsMarkup(m) && IsClosed(m) && Occurs(s, p, WrittenNode(m))
    requires var n, more := p + |WrittenNode(m)|, children + [MeantNode(m, condense)];
             && ValueAt(s, start, children, condense, error) == ValueAt(s, n, more, condense, error)
             && ReadsContent(s, n, more, condense, error, d)
    ensures ReadsContent(s, start, children, condense, error, c) && (p == start ==> c.text == [])
  {
    hide ValueAt, Occurs, IsMarkup, WrittenNode, MeantNode, IsClosed, AllWhite;
    c := NodeBefore(s, start, p, m, d, condense);
    ConcatNodes(children, [MeantNode(m, condense)], MeantChildren(d, condense));
  }

  lemma LastJoins(s: bytes, start: Ptr, p: Ptr, children: seq<Node>, condense: bool, error: Error) returns (c: Content)
    requires Live(s, start) && p == SkipWhite(s, start) && Live(s, p) && s[p] == LT && TagAt(s, p, END_OPEN)
    ensures ReadsContent(s, start, children, condense, error, c) && (p == start ==> c.text == [])
  {
    hide ValueAt, Occurs, IsContent, WrittenContent, MeantChildren, AllWhite;
    SkipIsGap(s, start);
    LastTurn(s, start, p, children, condense, error);
    c := Last(Raws(s[start..p]));
    LastContent(s[start..p], condense);
    ConcatNodes(children, [], []);
  }

  /** The children of an element, up to its end tag. */
  lemma {:induction false} ContentIsMarkup(s: bytes, start: Ptr, children: seq<Node>, condense: bool, error: Error)
    returns (c: Content)
    requires Live(s, start) && 0 !in s
    requires var e := ValueAt(s, start, children, condense, error).next; Live(s, e) && TagAt(s, e, END_OPEN)
    ensures ReadsContent(s, start, children, condense, error, c)
    ensures s[start] == LT ==> c.text == []
    decreases |s| - start, 4
  {
    hide ReadsContent, ValueAt, NodeAt, Occurs, SkipWhite, IsMarkup, WrittenNode, MeantNode, IsClosed, MeantText,
         AllWritten, TagAt, AreChars, NotRaw, IsWhiteSpace, AllWhite;
    NoTurn(s, start, children, condense, error);
    var p := SkipWhite(s, start);
    SkipIsGap(s, start);
    NoGap(s[start]);
    if s[p] != LT {
      var t := TextTurn(s, start, children, condense, error);
      var d := ContentIsMarkup(s, start + |AllWritten(t)|, children + MeantText(t, condense), condense, error);
      c := TextJoins(s, start, children, condense, error, t, d);
    } else if TagAt(s, p, END_OPEN) {
      c := LastJoins(s, start, p, children, condense, error);
    } else {
      NodeTurn(s, start, p, children, condense, error);
      var m := NodeIsMarkup(s, p, condense, error);
      var d := ContentIsMarkup(s, p + |WrittenNode(m)|, children + [MeantNode(m, condense)], condense, error);
      c := NodeJoins(s, start, p, children, condense, error, m, d);
    }
  }

  lemma NoGap(c: byte)
    ensures c == LT ==> !IsWhiteSpace(c)
  {}

  lemma ConcatNodes(a: seq<Node>, b: seq<Node>, c: seq<Node>)
    ensures a + b + c == a + (b + c) && a + [] == a
  {}

  /** White space and a node in front of content. */
  lemma NodeBefore(s: bytes, start: Ptr, p: Ptr, m: Markup, d: Content, condense: bool) returns (c: Content)
    requires 0 <= start <= p <= |s| && AllWhite(s[start..p]) && IsMarkup(m) && IsClosed(m) && IsContent(d)
    requires Live(s, p) && !TagAt(s, p, END_OPEN)
    requires Occurs(s, p, WrittenNode(m)) && Occurs(s, p + |WrittenNode(m)|, WrittenContent(d))
    ensures IsContent(c) && Occurs(s, start, WrittenContent(c))
    ensures |WrittenContent(c)| == p - start + |WrittenNode(m)| + |WrittenContent(d)|
    ensures MeantChildren(c, condense) == [MeantNode(m, condense)] + MeantChildren(d, condense)
    ensures p == start ==> c.text == []
  {
    hide Occurs, IsContent, WrittenContent, MeantChildren, IsMarkup, WrittenNode, MeantNode, IsClosed, AllWhite;
    var w := s[start..p];
    c := More(Raws(w), m, d);
    NoEndTag(s, p, m);
    MoreContent(w, m, d, condense);
    OccursInPlace(s, start, p);
    OccursJoin(s, p, WrittenNode(m), WrittenContent(d));
    OccursJoin(s, start, w, WrittenNode(m) + WrittenContent(d));
  }

  lemma NoEndTag(s: bytes, p: Ptr, m: Markup)
    requires Live(s, p) && !TagAt(s, p, END_OPEN) && IsMarkup(m) && IsClosed(m) && Occurs(s, p, WrittenNode(m))
    ensures IsChild(m)
  {
    if m.UnknownMarkup? && m.raw != [] && m.raw[0] == SLASH {
      SlashIsEnd(s, p, m);
    }
  }

  lemma SlashIsEnd(s: bytes, p: Ptr, m: Markup)
    requires IsMarkup(m) && m.UnknownMarkup? && m.raw != [] && m.raw[0] == SLASH && Occurs(s, p, WrittenNode(m))
    ensures 0 <= p <= |s| && TagAt(s, p, END_OPEN)
  {
    hide IsUnknown;
    Signs();
    OccursByte(s, p, WrittenNode(m), 0);
    OccursByte(s, p, WrittenNode(m), 1);
    assert s[p..p + 2] == [s[p], s[p + 1]];
  }

  lemma LiveStart(s: bytes, p: Ptr, children: seq<Node>, condense: bool, error: Error)
    requires p <= |s| && Live(s, ValueAt(s, p, children, condense, error).next)
    ensures Live(s, p)
  {}

  lemma SomethingRead(s: bytes, start: Ptr, t: seq<CharMarkup>)
    requires Live(s, start) && AreChars(t) && Live(s, start + |AllWritten(t)|) && s[start + |AllWritten(t)|] == LT
    requires Live(s, SkipWhite(s, start)) && s[SkipWhite(s, start)] != LT
    ensures |AllWritten(t)| > 0
  {
    if |AllWritten(t)| == 0 {
      XmlEncoder.GapOfNothing(s, start);
      SkipTo(s, start, start);
    }
  }

  lemma LastContent(w: bytes, condense: bool)
    requires AllWhite(w)
    ensures var c := Last(Raws(w)); IsContent(c) && WrittenContent(c) == w && MeantChildren(c, condense) == []
  {
    WhiteText(w);
    WhiteMeansNothing(w, condense);
    assert w + [] == w;
  }

  lemma MoreContent(w: bytes, m: Markup, d: Content, condense: bool)
    requires AllWhite(w) && IsMarkup(m) && IsChild(m) && IsContent(d)
    ensures var c := More(Raws(w), m, d);
            && IsContent(c) && WrittenContent(c) == w + (WrittenNode(m) + WrittenContent(d))
            && MeantChildren(c, condense) == [MeantNode(m, condense)] + MeantChildren(d, condense)
  {
    hide MeantText, AllWritten, IsMarkup, IsChild, WrittenNode, MeantNode;
    WhiteText(w);
    WhiteMeansNothing(w, condense);
    var c := More(Raws(w), m, d);
    assert c.node == m && c.rest == d && c.text == Raws(w);
    assert [] + ([MeantNode(m, condense)] + MeantChildren(d, condense)) == [MeantNode(m, condense)] + MeantChildren(d, condense);
  }

  /** A text in front of content that starts with a tag. */
  lemma TextBefore(s: bytes, start: Ptr, t: seq<CharMarkup>, d: Content, condense: bool) returns (c: Content)
    requires AreChars(t) && NotRaw(t, LT) && Occurs(s, start, AllWritten(t)) && IsContent(d) && d.text == []
    requires Occurs(s, start + |AllWritten(t)|, WrittenContent(d))
    ensures IsContent(c) && WrittenContent(c) == AllWritten(t) + WrittenContent(d) && Occurs(s, start, WrittenContent(c))
    ensures MeantChildren(c, condense) == MeantText(t, condense) + MeantChildren(d, condense)
    ensures c.text == t
  {
    hide Occurs, IsMarkup, IsChild, WrittenNode, MeantNode;
    c := d.(text := t);
    WhiteMeansNothing([], condense);
    assert Raws([]) == [];
    OccursJoin(s, start, AllWritten(t), WrittenContent(d));
    if d.More? {
      var tail := WrittenNode(d.node) + WrittenContent(d.rest);
      assert WrittenContent(d) == [] + tail == tail;
      var kids := [MeantNode(d.node, condense)] + MeantChildren(d.rest, condense);
      assert MeantChildren(d, condense) == [] + kids == kids;
    }
  }
}
