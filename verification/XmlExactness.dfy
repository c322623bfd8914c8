/**
 What a parser can answer at all, for any buffer; and so which documents come back from their printed form.
 */
module XmlExactness {
  import opened Octets
  import opened XmlBytes
  import opened XmlScanner
  import opened XmlEncoder
  import opened XmlTree
  import opened XmlParser
  import opened XmlPrinter
  import opened XmlRoundTrip

  // ------------------------------------------------------------------ what the parser can answer

  ghost predicate ShapedAttributes(attributes: seq<Attribute>) {
    DistinctNames(attributes) && forall i :: 0 <= i < |attributes| ==> ValidName(attributes[i].name)
  }

  /** No two plain texts stand next to each other. */
  predicate TextsApart(nodes: seq<Node>) {
    forall i :: 0 < i < |nodes| ==> !IsPlainText(nodes[i - 1]) || !IsPlainText(nodes[i])
  }

  /** A node as some input could have made it. */
  ghost predicate Shaped(node: Node)
    decreases node
  {
    match node
    case Element(name, attributes, children) =>
      && ValidName(name) && ShapedAttributes(attributes) && TextsApart(children)
      && (forall i :: 0 <= i < |children| ==> Shaped(children[i]))
    case Text(value, cdata) => if cdata then 0 !in value && Without(value, CDATA_CLOSE) else !Blank(value)
    case Comment(value) => 0 !in value && Without(value, COMMENT_CLOSE)
    case Unknown(_) => true
    case Declaration(_, _, _) => true
  }

  ghost predicate ShapedChildren(nodes: seq<Node>) {
    TextsApart(nodes) && forall i :: 0 <= i < |nodes| ==> Shaped(nodes[i])
  }

  lemma {:induction false} RawIs(s: bytes, p: Ptr, tag: bytes)
    requires 0 <= p <= |s|
    ensures var r := RawText(s, p, tag); r.text == s[p..r.next] && forall i :: p <= i < r.next ==> !TagAt(s, i, tag)
    decreases |s| - p
  {
    if Live(s, p) && !TagAt(s, p, tag) {
      RawIs(s, p + 1, tag);
      assert s[p..RawText(s, p + 1, tag).next] == [s[p]] + s[p + 1..RawText(s, p + 1, tag).next];
    }
  }

  lemma RawShaped(s: bytes, p: Ptr, tag: bytes)
    requires 0 <= p <= |s| && 0 !in s && tag != []
    ensures var t := RawText(s, p, tag).text; 0 !in t && Without(t, tag)
  {
    hide RawText;
    RawIs(s, p, tag);
    var r := RawText(s, p, tag);
    forall i | 0 <= i < |r.text|
      ensures !TagAt(r.text, i, tag)
    {
      TagInSlice(s, p, r.next, i, tag);
    }
  }

  lemma TagInSlice(s: bytes, p: nat, e: nat, i: nat, tag: bytes)
    requires p <= e <= |s| && i <= e - p
    ensures TagAt(s[p..e], i, tag) ==> TagAt(s, p + i, tag)
  {
    if i + |tag| <= e - p {
      var a, b := s[p..e][i..i + |tag|], s[p + i..p + i + |tag|];
      assert |a| == |b| && forall k :: 0 <= k < |a| ==> a[k] == b[k];
    }
  }

  lemma NameShaped(s: bytes, p: Ptr)
    requires p <= |s| && NameAt(s, p).next != NULL
    ensures ValidName(NameAt(s, p).text)
  {
    var e := NameEnd(s, p);
    assert IsNameChar(s[p]);
  }

  lemma AttributeShaped(s: bytes, start: Ptr, inDocument: bool, error: Error)
    requires start <= |s| && Live(s, AttributeAt(s, start, inDocument, error).next)
    ensures ValidName(AttributeAt(s, start, inDocument, error).attribute.name)
  {
    hide TextAt, Unquoted, NameAt;
    NameShaped(s, SkipWhite(s, start));
  }

  lemma OneMoreAttribute(attributes: seq<Attribute>, a: Attribute)
    requires ShapedAttributes(attributes) && ValidName(a.name) && !HasName(attributes, a.name)
    ensures ShapedAttributes(attributes + [a])
  {}

  lemma OneMoreChild(children: seq<Node>, n: Node)
    requires ShapedChildren(children) && Shaped(n)
    requires IsPlainText(n) && children != [] ==> !IsPlainText(children[|children| - 1])
    ensures ShapedChildren(children + [n])
  {
    hide Shaped;
  }

  lemma LeafShaped(s: bytes, p: Ptr, condense: bool, error: Error)
    requires Live(s, p) && s[p] == LT && 0 !in s && Identify(s, p) != ElementKind
    ensures var n := NodeAt(s, p, condense, error).node; Shaped(n) && !IsPlainText(n)
  {
    hide RawText, DeclarationAt, UnknownAt, TextAt;
    NothingWithout(COMMENT_CLOSE);
    NothingWithout(CDATA_CLOSE);
    match Identify(s, p)
    case DeclarationKind => DeclarationStays(s, p, error);
    case CommentKind =>
      if TagAt(s, SkipWhite(s, p), COMMENT_OPEN) {
        RawShaped(s, SkipWhite(s, p) + 4, COMMENT_CLOSE);
      }
    case CdataKind => RawShaped(s, p + 9, CDATA_CLOSE);
    case UnknownKind => UnknownStays(s, p, error);
  }

  lemma NothingWithout(tag: bytes)
    ensures Without([], tag)
  {}

  lemma UnknownStays(s: bytes, p: Ptr, error: Error)
    requires Live(s, p)
    ensures UnknownAt(s, p, error).node.Unknown?
  {}

  lemma DeclarationStays(s: bytes, p: Ptr, error: Error)
    requires Live(s, p)
    ensures DeclarationAt(s, p, error).node.Declaration?
  {
    hide DeclarationFrom;
    var q := SkipWhite(s, p);
    if TagAtIgnoreCase(s, q, XML_OPEN) {
      DeclarationRuns(s, q + 5, Declaration([], [], []), error);
    }
  }

  lemma {:induction false} DeclarationRuns(s: bytes, p: Ptr, d: Node, error: Error)
    requires p <= |s| && d.Declaration?
    ensures DeclarationFrom(s, p, d, error).node.Declaration?
    decreases if Live(s, p) then |s| - p else 0
  {
    hide DeclarationItem;
    if Live(s, p) && s[p] != GT {
      var item := DeclarationItem(s, SkipWhite(s, p), d);
      DeclarationRuns(s, item.1, item.0, error);
    }
  }

  /** Whatever node is read, it is shaped, and no plain text. */
  lemma {:induction false} NodeShaped(s: bytes, p: Ptr, condense: bool, error: Error)
    requires Live(s, p) && s[p] == LT && 0 !in s
    ensures var n := NodeAt(s, p, condense, error).node; Shaped(n) && !IsPlainText(n)
    decreases |s| - p, 3
  {
    if Identify(s, p) != ElementKind {
      LeafShaped(s, p, condense, error);
    } else {
      ElementShaped(s, p, condense, error);
    }
  }

  lemma {:induction false} ElementShaped(s: bytes, p: Ptr, condense: bool, error: Error)
    requires Live(s, p) && s[p] == LT && 0 !in s && Identify(s, p) == ElementKind
    ensures var n := NodeAt(s, p, condense, error).node; Shaped(n) && n.Element?
    decreases |s| - p, 2
  {
    hide ElementFrom, NameAt, Shaped;
    SkipTo(s, p, p);
    SkipTo(s, p + 1, p + 1);
    NameRead(s, p + 1);
    NameShaped(s, p + 1);
    var name := NameAt(s, p + 1);
    if !Live(s, name.next) {
      BareElement(name.text);
    } else {
      FromShaped(s, name.next, name.text, [], condense, error);
    }
  }

  lemma NameRead(s: bytes, p: Ptr)
    requires Live(s, p) && IsNameStart(s[p])
    ensures NameAt(s, p).next != NULL
  {}

  lemma BareElement(name: bytes)
    requires ValidName(name)
    ensures Shaped(Element(name, [], []))
  {}

  lemma WithAttributes(name: bytes, attributes: seq<Attribute>)
    requires ValidName(name) && ShapedAttributes(attributes)
    ensures Shaped(Element(name, attributes, []))
  {}

  lemma {:induction false} FromShaped(s: bytes, start: Ptr, name: bytes, attributes: seq<Attribute>, condense: bool, error: Error)
    requires Live(s, start) && 0 !in s && ValidName(name) && ShapedAttributes(attributes)
    ensures var n := ElementFrom(s, start, name, attributes, condense, error).node; Shaped(n) && n.Element?
    decreases |s| - start, 1
  {
    hide Shaped, AttributeAt, ElementContent, ShapedAttributes, ValidName;
    WithAttributes(name, attributes);
    var e := Element(name, attributes, []);
    var p := SkipWhite(s, start);
    if Live(s, p) && s[p] == GT {
      ContentShaped(s, p + 1, e, condense, error);
    } else if Live(s, p) && s[p] != SLASH {
      var a := AttributeAt(s, p, true, error);
      if Live(s, a.next) && !HasName(attributes, a.attribute.name) {
        AttributeShaped(s, p, true, error);
        OneMoreAttribute(attributes, a.attribute);
        FromShaped(s, a.next, name, attributes + [a.attribute], condense, a.error);
      }
    }
  }

  lemma {:induction false} ContentShaped(s: bytes, p: Ptr, e: Node, condense: bool, error: Error)
    requires 0 <= p <= |s| && 0 !in s && e.Element? && Shaped(e) && e.children == []
    ensures var n := ElementContent(s, p, e, condense, error).node; Shaped(n) && n.Element?
    decreases |s| - p, 5
  {
    hide ValueAt, ElementEnd;
    ValueShaped(s, p, [], condense, error);
  }

  /** Reading children adds shaped ones, and never a plain text behind another. */
  lemma {:induction false} ValueShaped(s: bytes, start: Ptr, children: seq<Node>, condense: bool, error: Error)
    requires start <= |s| && 0 !in s && ShapedChildren(children)
    requires children != [] && IsPlainText(children[|children| - 1]) && Live(s, start) ==> s[start] == LT
    ensures ShapedChildren(ValueAt(s, start, children, condense, error).children)
    decreases if Live(s, start) then |s| - start else 0, 4
  {
    hide Shaped, NodeAt, PlainTextAt, Blank, ShapedChildren;
    var p := SkipWhite(s, start);
    if Live(s, p) && s[p] != LT {
      var text := PlainTextAt(s, if condense then p else start, condense);
      var more := if Blank(text.text) then children else children + [Text(text.text, false)];
      assert s[start] != LT by {
        if s[start] == LT {
          SkipTo(s, start, start);
        }
      }
      if !Blank(text.text) {
        TextShaped(text.text);
        OneMoreChild(children, Text(text.text, false));
      }
      ValueShaped(s, text.next, more, condense, error);
    } else if Live(s, p) && !TagAt(s, p, END_OPEN) {
      var r := NodeAt(s, p, condense, error);
      NodeShaped(s, p, condense, error);
      OneMoreChild(children, r.node);
      ValueShaped(s, r.next, children + [r.node], condense, r.error);
    }
  }

  lemma TextShaped(value: bytes)
    requires !Blank(value)
    ensures Shaped(Text(value, false))
  {}

  ghost predicate ShapedDocument(nodes: seq<Node>) {
    forall i :: 0 <= i < |nodes| ==> Shaped(nodes[i]) && !IsPlainText(nodes[i])
  }

  /** Every document that any input is read as is shaped, and holds no plain text of its own. */
  lemma {:induction false} DocumentShaped(s: bytes, p: Ptr, children: seq<Node>, condense: bool, error: Error)
    requires p <= |s| && 0 !in s && ShapedDocument(children)
    ensures ShapedDocument(DocumentFrom(s, p, children, condense, error).children)
    decreases if Live(s, p) then |s| - p else 0
  {
    hide Shaped, NodeAt, IsPlainText;
    if Live(s, p) && s[p] == LT {
      var r := NodeAt(s, p, condense, error);
      NodeShaped(s, p, condense, error);
      DocumentShaped(s, SkipWhite(s, r.next), children + [r.node], condense, r.error);
    }
  }

  // ------------------------------------------------------------------ which documents come back

  /** Nothing in the node is printed other than it is meant: no `&#x`, no markup in what is printed as it is. */
  ghost predicate Printable(node: Node)
    decreases node
  {
    match node
    case Element(_, attributes, children) =>
      && (forall i :: 0 <= i < |attributes| ==> NoHexRef(attributes[i].value))
      && (forall i :: 0 <= i < |children| ==> Printable(children[i]))
    case Text(value, cdata) => cdata || NoHexRef(value)
    case Comment(_) => true
    case Unknown(value) => ValidUnknown(value)
    case Declaration(version, encoding, standalone) =>
      ValidField(version) && ValidField(encoding) && ValidField(standalone)
  }

  lemma {:induction false} ShapedIsValid(node: Node)
    requires Printable(node)
    ensures Shaped(node) <==> ValidNode(node)
    decreases node
  {
    match node
    case Element(_, _, children) =>
      forall i | 0 <= i < |children|
        ensures Shaped(children[i]) <==> ValidNode(children[i])
      {
        ShapedIsValid(children[i]);
      }
    case Text(_, _) =>
    case Comment(_) =>
    case Unknown(_) =>
    case Declaration(_, _, _) =>
  }

  /**
   Of the documents that are printed as they are meant, exactly those come back whose names, attributes, comments and
   CDATA sections are valid, whose plain texts are inside of elements, apart from each other and more than white space,
   and, when white space is condensed, space-normal.
   */
  lemma ComesBackExactly(nodes: seq<Node>, indent: bytes, lineBreak: bytes, condense: bool)
    requires ValidLayout(indent, lineBreak, condense) && forall i :: 0 <= i < |nodes| ==> Printable(nodes[i])
    ensures ParseDocument(CStr(PrintDocument(nodes, indent, lineBreak)), condense).children == nodes
       <==> ValidDocument(nodes) && (condense ==> AllSpacesNormal(nodes))
  {
    hide Shaped, Printable, ValidNode, DocumentFrom, AllSpacesNormal, PrintDocument, ValidLayout, IsPlainText;
    var s := CStr(PrintDocument(nodes, indent, lineBreak));
    forall i | 0 <= i < |nodes|
      ensures Shaped(nodes[i]) <==> ValidNode(nodes[i])
    {
      ShapedIsValid(nodes[i]);
    }
    assert ShapedDocument(nodes) <==> ValidDocument(nodes);
    AnswerIsShaped(s, condense);
    if ValidDocument(nodes) {
      PrintThenParse(nodes, indent, lineBreak, condense);
    }
  }

  lemma AnswerIsShaped(s: bytes, condense: bool)
    requires 0 !in s
    ensures ShapedDocument(ParseDocument(s, condense).children)
  {
    hide DocumentFrom, Shaped;
    if s != [] {
      DocumentShaped(s, SkipWhite(s, 0), [], condense, NoError);
    }
  }
}
