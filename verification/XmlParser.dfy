/**
 The recursive parser of documents, elements, attributes, text, CDATA, comments, declarations and unknown
 nodes in the single-byte (LEGACY) encoding, with errors recorded as the document records them.

 The functions give the parse of a buffer as a value. Their termination is the termination of the reader:
 every node parser answers NULL or a position strictly after its start and at most the terminator, so the
 distance to the terminator decreases through the whole mutual recursion.
 */
module XmlParser {
  import opened Octets
  import opened XmlBytes
  import opened XmlScanner
  import opened XmlTree

  const COMMENT_OPEN: bytes := [60, 33, 45, 45]                          // <!--
  const COMMENT_CLOSE: bytes := [45, 45, 62]                             // -->
  const CDATA_OPEN: bytes := [60, 33, 91, 67, 68, 65, 84, 65, 91]        // <![CDATA[
  const CDATA_CLOSE: bytes := [93, 93, 62]                               // ]]>
  const DTD_OPEN: bytes := [60, 33]                                      // <!
  const XML_OPEN: bytes := [60, 63, 120, 109, 108]                       // <?xml
  const END_OPEN: bytes := [60, 47]                                      // </
  const VERSION: bytes := [118, 101, 114, 115, 105, 111, 110]            // version
  const ENCODING: bytes := [101, 110, 99, 111, 100, 105, 110, 103]       // encoding
  const STANDALONE: bytes := [115, 116, 97, 110, 100, 97, 108, 111, 110, 101] // standalone

  // ------------------------------------------------------------------ attributes

  datatype AttributeRead = AttributeRead(attribute: Attribute, next: Ptr, error: Error)

  /** An unquoted attribute value: up to white space, a slash or `>`; a quote inside it is an error. */
  function Unquoted(s: bytes, p: Ptr): (r: Read)
    requires 0 <= p <= |s|
    ensures r.next == NULL || p <= r.next <= |s|
    decreases |s| - p
  {
    if !Live(s, p) || IsWhiteSpace(s[p]) || s[p] == SLASH || s[p] == GT then Read([], p)
    else if s[p] == APOS || s[p] == QUOTE then Read([], NULL)
    else Prepend([s[p]], Unquoted(s, p + 1))
  }

  /** TiXmlAttribute::Parse; an attribute without a document records no error. */
  function AttributeAt(s: bytes, start: Ptr, inDocument: bool, error: Error): (r: AttributeRead)
    requires start <= |s|
    ensures r.next == NULL || start < r.next <= |s|
  {
    var failed := if inDocument then Raise(error, ReadingAttributes) else error;
    var p := SkipWhite(s, start);
    if !Live(s, p) then AttributeRead(Attribute([], []), NULL, error)
    else
      var name := NameAt(s, p);
      if !Live(s, name.next) then AttributeRead(Attribute(name.text, []), NULL, failed)
      else
        var eq := SkipWhite(s, name.next);
        if !Live(s, eq) || s[eq] != EQ then AttributeRead(Attribute(name.text, []), NULL, failed)
        else
          var v := SkipWhite(s, eq + 1);
          if !Live(s, v) then AttributeRead(Attribute(name.text, []), NULL, failed)
          else if s[v] == APOS || s[v] == QUOTE then
            var text := TextAt(s, v + 1, false, [s[v]]);
            AttributeRead(Attribute(name.text, text.text), text.next, error)
          else
            var text := Unquoted(s, v);
            AttributeRead(Attribute(name.text, text.text), text.next, if text.next == NULL then failed else error)
  }

  // ------------------------------------------------------------------ leaves

  datatype NodeRead = NodeRead(node: Node, next: Ptr, error: Error)

  /** The raw bytes from p up to the tag, or up to the terminator. */
  function RawText(s: bytes, p: Ptr, tag: bytes): (r: Read)
    requires 0 <= p <= |s|
    ensures p <= r.next <= |s|
    ensures r.next < |s| ==> TagAt(s, r.next, tag)
    decreases |s| - p
  {
    if !Live(s, p) || TagAt(s, p, tag) then Read([], p)
    else Prepend([s[p]], RawText(s, p + 1, tag))
  }

  /** TiXmlComment::Parse; a comment that never ends runs to the terminator without an error. */
  function CommentAt(s: bytes, start: Ptr, error: Error): (r: NodeRead)
    requires Live(s, start)
    ensures r.next == NULL || start < r.next <= |s|
  {
    var p := SkipWhite(s, start);
    if !TagAt(s, p, COMMENT_OPEN) then NodeRead(Comment([]), NULL, Raise(error, ParsingComment))
    else
      var text := RawText(s, p + 4, COMMENT_CLOSE);
      NodeRead(Comment(text.text), if Live(s, text.next) then text.next + 3 else text.next, error)
  }

  /** TiXmlText::Parse of a CDATA section. */
  function CdataAt(s: bytes, p: Ptr, error: Error): (r: NodeRead)
    requires Live(s, p)
    ensures r.next == NULL || p < r.next <= |s|
  {
    if !TagAt(s, p, CDATA_OPEN) then NodeRead(Text([], true), NULL, Raise(error, ParsingCdata))
    else
      var text := RawText(s, p + 9, CDATA_CLOSE);
      NodeRead(Text(text.text, true), TextAt(s, text.next, false, CDATA_CLOSE).next, error)
  }

  /** TiXmlText::Parse of plain text: it stops at the next `<`, which it leaves. */
  function PlainTextAt(s: bytes, p: Ptr, condense: bool): (r: Read)
    requires Live(s, p)
    ensures r.next == NULL || (p <= r.next < |s| && s[r.next] == LT)
    ensures s[p] != LT && !(condense && IsWhiteSpace(s[p])) ==> r.next == NULL || p < r.next
  {
    var r := TextAt(s, p, condense, [LT]);
    if r.next == NULL then r
    else
      assert s[r.next - 1..r.next - 1 + 1][0] == LT;
      Read(r.text, r.next - 1)
  }

  /** TiXmlText::Blank */
  predicate Blank(value: bytes) {
    forall i :: 0 <= i < |value| ==> IsWhiteSpace(value[i])
  }

  function UntilGreater(s: bytes, p: Ptr): (r: Read)
    requires 0 <= p <= |s|
    ensures p <= r.next <= |s|
    decreases |s| - p
  {
    if !Live(s, p) || s[p] == GT then Read([], p) else Prepend([s[p]], UntilGreater(s, p + 1))
  }

  /** TiXmlUnknown::Parse */
  function UnknownAt(s: bytes, start: Ptr, error: Error): (r: NodeRead)
    requires Live(s, start)
    ensures r.next == NULL || start < r.next <= |s|
  {
    var p := SkipWhite(s, start);
    if !Live(s, p) || s[p] != LT then NodeRead(Unknown([]), NULL, Raise(error, ParsingUnknown))
    else
      var text := UntilGreater(s, p + 1);
      NodeRead(Unknown(text.text), if Live(s, text.next) then text.next + 1 else text.next, error)
  }

  function PassWord(s: bytes, p: Ptr): (q: Ptr)
    requires 0 <= p <= |s|
    ensures p <= q <= |s|
    ensures Live(s, p) && s[p] != GT && !IsWhiteSpace(s[p]) ==> p < q
    decreases |s| - p
  {
    if !Live(s, p) || s[p] == GT || IsWhiteSpace(s[p]) then p else PassWord(s, p + 1)
  }

  /** One turn of the declaration loop: an attribute it knows, or a word to read over. */
  function DeclarationItem(s: bytes, p: Ptr, d: Node): (r: (Node, Ptr))
    requires 0 <= p <= |s| && d.Declaration?
    ensures r.0.Declaration?
    ensures r.1 == NULL || p <= r.1 <= |s|
    ensures Live(s, p) && s[p] != GT && !IsWhiteSpace(s[p]) ==> r.1 == NULL || p < r.1
  {
    if TagAtIgnoreCase(s, p, VERSION) then
      var a := AttributeAt(s, p, false, NoError);
      (d.(version := a.attribute.value), a.next)
    else if TagAtIgnoreCase(s, p, ENCODING) then
      var a := AttributeAt(s, p, false, NoError);
      (d.(encoding := a.attribute.value), a.next)
    else if TagAtIgnoreCase(s, p, STANDALONE) then
      var a := AttributeAt(s, p, false, NoError);
      (d.(standalone := a.attribute.value), a.next)
    else (d, PassWord(s, p))
  }

  /** The loop of TiXmlDeclaration::Parse. */
  function DeclarationFrom(s: bytes, p: Ptr, d: Node, error: Error): (r: NodeRead)
    requires p <= |s| && d.Declaration?
    ensures r.next == NULL || p < r.next <= |s|
    decreases if Live(s, p) then |s| - p else 0
  {
    if !Live(s, p) then NodeRead(d, NULL, error)
    else if s[p] == GT then NodeRead(d, p + 1, error)
    else
      var item := DeclarationItem(s, SkipWhite(s, p), d);
      DeclarationFrom(s, item.1, item.0, error)
  }

  function DeclarationAt(s: bytes, start: Ptr, error: Error): (r: NodeRead)
    requires Live(s, start)
    ensures r.next == NULL || start < r.next <= |s|
  {
    var p := SkipWhite(s, start);
    if !TagAtIgnoreCase(s, p, XML_OPEN)
    then NodeRead(Declaration([], [], []), NULL, Raise(error, ParsingDeclaration))
    else DeclarationFrom(s, p + 5, Declaration([], [], []), error)
  }

  // ------------------------------------------------------------------ elements

  datatype Kind = DeclarationKind | CommentKind | CdataKind | UnknownKind | ElementKind

  /** TiXmlNode::Identify at a `<`. */
  function Identify(s: bytes, p: Ptr): Kind
    requires Live(s, p) && s[p] == LT
  {
    if TagAtIgnoreCase(s, p, XML_OPEN) then DeclarationKind
    else if TagAt(s, p, COMMENT_OPEN) then CommentKind
    else if TagAt(s, p, CDATA_OPEN) then CdataKind
    else if TagAt(s, p, DTD_OPEN) then UnknownKind
    else if IsNameStart(Peek(s, p + 1)) then ElementKind
    else UnknownKind
  }

  datatype ValueRead = ValueRead(children: seq<Node>, next: Ptr, error: Error)

  /** The node that Identify announces at p. */
  function NodeAt(s: bytes, p: Ptr, condense: bool, error: Error): (r: NodeRead)
    requires Live(s, p) && s[p] == LT
    ensures r.next == NULL || p < r.next <= |s|
    decreases |s| - p, 3
  {
    match Identify(s, p)
    case DeclarationKind => DeclarationAt(s, p, error)
    case CommentKind => CommentAt(s, p, error)
    case CdataKind => CdataAt(s, p, error)
    case UnknownKind => UnknownAt(s, p, error)
    case ElementKind => ElementAt(s, p, condense, error)
  }

  /** TiXmlElement::Parse */
  function ElementAt(s: bytes, start: Ptr, condense: bool, error: Error): (r: NodeRead)
    requires Live(s, start)
    ensures r.next == NULL || start < r.next <= |s|
    decreases |s| - start, 2
  {
    var p := SkipWhite(s, start);
    if !Live(s, p) || s[p] != LT then NodeRead(Element([], [], []), NULL, Raise(error, ParsingElement))
    else
      var name := NameAt(s, SkipWhite(s, p + 1));
      if !Live(s, name.next) then NodeRead(Element(name.text, [], []), NULL, Raise(error, FailedToReadElementName))
      else ElementFrom(s, name.next, name.text, [], condense, error)
  }

  /** The attribute loop of TiXmlElement::Parse, with what follows it. */
  function ElementFrom(s: bytes, start: Ptr, name: bytes, attributes: seq<Attribute>, condense: bool, error: Error)
    : (r: NodeRead)
    requires Live(s, start)
    ensures r.next == NULL || start < r.next <= |s|
    decreases |s| - start, 1
  {
    var e := Element(name, attributes, []);
    var p := SkipWhite(s, start);
    if !Live(s, p) then NodeRead(e, NULL, Raise(error, ReadingAttributes))
    else if s[p] == SLASH then
      if Peek(s, p + 1) != GT then NodeRead(e, NULL, Raise(error, ParsingEmpty)) else NodeRead(e, p + 2, error)
    else if s[p] == GT then
      ElementContent(s, p + 1, e, condense, error)
    else
      var a := AttributeAt(s, p, true, error);
      if !Live(s, a.next) then NodeRead(e, NULL, Raise(a.error, ParsingElement))
      else if HasName(attributes, a.attribute.name) then NodeRead(e, NULL, Raise(a.error, ParsingElement))
      else ElementFrom(s, a.next, name, attributes + [a.attribute], condense, a.error)
  }

  /** The children of an element and its end tag. */
  function ElementContent(s: bytes, p: Ptr, e: Node, condense: bool, error: Error): (r: NodeRead)
    requires 0 <= p <= |s| && e.Element?
    ensures r.next == NULL || p < r.next <= |s|
    decreases |s| - p, 5
  {
    var value := ValueAt(s, p, [], condense, error);
    ElementEnd(s, value.next, e.(children := value.children), value.error)
  }

  /** The end tag. */
  function ElementEnd(s: bytes, p: Ptr, e: Node, error: Error): (r: NodeRead)
    requires p <= |s| && e.Element?
    ensures r.next == NULL || p < r.next <= |s|
    ensures r.node == e
  {
    if !Live(s, p) || !TagAt(s, p, END_OPEN + e.name) then NodeRead(e, NULL, Raise(error, ReadingEndTag))
    else
      var q := SkipWhite(s, p + 2 + |e.name|);
      if Live(s, q) && s[q] == GT then NodeRead(e, q + 1, error) else NodeRead(e, NULL, Raise(error, ReadingEndTag))
  }

  /** TiXmlElement::ReadValue: text and nodes up to an end tag, whatever its name. */
  function ValueAt(s: bytes, start: Ptr, children: seq<Node>, condense: bool, error: Error): (r: ValueRead)
    requires start <= |s|
    ensures r.next == NULL || start <= r.next <= |s|
    decreases if Live(s, start) then |s| - start else 0, 4
  {
    var p := SkipWhite(s, start);
    if !Live(s, p) then ValueRead(children, p, if p == NULL then Raise(error, ReadingElementValue) else error)
    else if s[p] != LT then
      var text := PlainTextAt(s, if condense then p else start, condense);
      var more := if Blank(text.text) then children else children + [Text(text.text, false)];
      ValueAt(s, text.next, more, condense, error)
    else if TagAt(s, p, END_OPEN) then ValueRead(children, p, error)
    else
      var r := NodeAt(s, p, condense, error);
      ValueAt(s, r.next, children + [r.node], condense, r.error)
  }

  // ------------------------------------------------------------------ documents

  function DocumentFrom(s: bytes, p: Ptr, children: seq<Node>, condense: bool, error: Error): (r: ValueRead)
    requires p <= |s|
    decreases if Live(s, p) then |s| - p else 0
  {
    if !Live(s, p) || s[p] != LT then ValueRead(children, p, error)
    else
      var r := NodeAt(s, p, condense, error);
      DocumentFrom(s, SkipWhite(s, r.next), children + [r.node], condense, r.error)
  }

  /** TiXmlDocument::Parse: the nodes go behind those that the document holds already. */
  function ParseInto(before: seq<Node>, s: bytes, condense: bool): ValueRead {
    if s == [] then ValueRead(before, NULL, DocumentEmpty)
    else
      var r := DocumentFrom(s, SkipWhite(s, 0), before, condense, NoError);
      if r.children == [] then ValueRead([], NULL, Raise(r.error, DocumentEmpty)) else r
  }

  /** TiXmlDocument::Parse into an empty document. */
  function ParseDocument(s: bytes, condense: bool): ValueRead {
    ParseInto([], s, condense)
  }
}
