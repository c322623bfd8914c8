/**
 TiXmlPrinter: the visitor that appends a tree to its buffer, and the text it is proved to append.
 */
module XmlPrinter {
  import opened Octets
  import opened XmlBytes
  import opened XmlEncoder
  import opened XmlTree
  import opened XmlParser
  import opened XmlAttributeSet

  // ------------------------------------------------------------------ what is printed

  function Repeat(piece: bytes, n: nat): bytes {
    if n == 0 then [] else Repeat(piece, n - 1) + piece
  }

  function QuoteFor(value: bytes): byte {
    if QUOTE in value then APOS else QUOTE
  }

  function PrintAttribute(a: Attribute): bytes {
    [SPACE] + Encode(a.name) + [EQ, QuoteFor(a.value)] + Encode(a.value) + [QuoteFor(a.value)]
  }

  function PrintAttributes(attributes: seq<Attribute>): bytes {
    if attributes == [] then [] else PrintAttribute(attributes[0]) + PrintAttributes(attributes[1..])
  }

  /** An element with one plain text child is printed on one line. */
  predicate IsSimple(children: seq<Node>) {
    |children| == 1 && children[0].Text? && !children[0].cdata
  }

  /** A start tag up to its end: of the attributes it holds those that a walk sees. */
  function OpenTag(name: bytes, attributes: seq<Attribute>): bytes {
    [LT] + CStr(name) + PrintAttributes(Walked(attributes))
  }

  function EndTag(name: bytes): bytes {
    END_OPEN + CStr(name) + [GT]
  }

  function PrintField(key: bytes, value: bytes): bytes {
    if value == [] then [] else key + [EQ, QUOTE] + value + [QUOTE, SPACE]
  }

  function PrintDeclaration(version: bytes, encoding: bytes, standalone: bytes): bytes {
    XML_OPEN + [SPACE] + PrintField(VERSION, version) + PrintField(ENCODING, encoding)
    + PrintField(STANDALONE, standalone) + ['?' as int, GT]
  }

  /** A node between its indentation and its line break. */
  function PrintBody(node: Node, depth: nat, indent: bytes, lineBreak: bytes): bytes
    decreases node, 0
  {
    match node
    case Element(name, attributes, children) =>
      if children == [] then OpenTag(name, attributes) + [SPACE, SLASH, GT]
      else if IsSimple(children)
      then OpenTag(name, attributes) + [GT] + Encode(children[0].value) + EndTag(name)
      else OpenTag(name, attributes) + [GT] + lineBreak
           + (PrintNodes(children, depth + 1, indent, lineBreak) + Repeat(indent, depth) + EndTag(name))
    case Text(value, cdata) => if cdata then CDATA_OPEN + CStr(value) + CDATA_CLOSE else Encode(value)
    case Comment(value) => COMMENT_OPEN + CStr(value) + COMMENT_CLOSE
    case Unknown(value) => [LT] + CStr(value) + [GT]
    case Declaration(version, encoding, standalone) => PrintDeclaration(version, encoding, standalone)
  }

  function PrintNode(node: Node, depth: nat, indent: bytes, lineBreak: bytes): bytes
    decreases node, 1
  {
    Repeat(indent, depth) + PrintBody(node, depth, indent, lineBreak) + lineBreak
  }

  function PrintNodes(nodes: seq<Node>, depth: nat, indent: bytes, lineBreak: bytes): bytes
    decreases nodes
  {
    if nodes == [] then [] else
      PrintNode(nodes[0], depth, indent, lineBreak) + PrintNodes(nodes[1..], depth, indent, lineBreak)
  }

  function PrintDocument(children: seq<Node>, indent: bytes, lineBreak: bytes): bytes {
    PrintNodes(children, 0, indent, lineBreak)
  }

  lemma {:induction false} PrintNodesAppend(a: seq<Node>, b: seq<Node>, depth: nat, indent: bytes, lineBreak: bytes)
    ensures PrintNodes(a + b, depth, indent, lineBreak)
         == PrintNodes(a, depth, indent, lineBreak) + PrintNodes(b, depth, indent, lineBreak)
    decreases |a|
  {
    hide PrintNode;
    if a == [] {
      assert a + b == b;
    } else {
      assert (a + b)[1..] == a[1..] + b;
      PrintNodesAppend(a[1..], b, depth, indent, lineBreak);
    }
  }

  lemma PrintPrefix(nodes: seq<Node>, i: nat, depth: nat, indent: bytes, lineBreak: bytes)
    requires i < |nodes|
    ensures PrintNodes(nodes[..i + 1], depth, indent, lineBreak)
         == PrintNodes(nodes[..i], depth, indent, lineBreak) + PrintNode(nodes[i], depth, indent, lineBreak)
  {
    hide PrintNode;
    assert nodes[..i + 1] == nodes[..i] + [nodes[i]];
    PrintNodesAppend(nodes[..i], [nodes[i]], depth, indent, lineBreak);
    assert PrintNodes([nodes[i]], depth, indent, lineBreak) == PrintNode(nodes[i], depth, indent, lineBreak) + [];
  }

  lemma {:induction false} PrintAttributesAppend(a: seq<Attribute>, x: Attribute)
    ensures PrintAttributes(a + [x]) == PrintAttributes(a) + PrintAttribute(x)
    decreases |a|
  {
    hide PrintAttribute;
    if a == [] {
      assert a + [x] == [x];
    } else {
      assert (a + [x])[1..] == a[1..] + [x];
      PrintAttributesAppend(a[1..], x);
    }
  }

  /** A printed element is what entering it, its children and leaving it append. */
  lemma ElementPieces(e: Node, depth: nat, indent: bytes, lineBreak: bytes)
    requires e.Element?
    ensures PrintNode(e, depth, indent, lineBreak)
         == (Repeat(indent, depth) + OpenTag(e.name, e.attributes)
             + (if e.children == [] then [SPACE, SLASH, GT] else [GT])
             + (if IsSimple(e.children) then [] else lineBreak))
          + (if IsSimple(e.children) then Encode(e.children[0].value)
             else PrintNodes(e.children, depth + 1, indent, lineBreak))
          + (if e.children == [] then []
             else (if IsSimple(e.children) then [] else Repeat(indent, depth)) + EndTag(e.name) + lineBreak)
  {
    hide OpenTag, EndTag, Encode, Repeat, PrintNode;
    var open := OpenTag(e.name, e.attributes);
    var pad := Repeat(indent, depth);
    var close := EndTag(e.name);
    var body := PrintBody(e, depth, indent, lineBreak);
    assert PrintNode(e, depth, indent, lineBreak) == pad + body + lineBreak by { NodePieces(e, depth, indent, lineBreak); }
    if e.children == [] {
      assert PrintNodes(e.children, depth + 1, indent, lineBreak) == [];
      assert body == open + [SPACE, SLASH, GT];
    } else if IsSimple(e.children) {
      assert body == open + [GT] + Encode(e.children[0].value) + close;
    } else {
      assert body == open + [GT] + lineBreak + (PrintNodes(e.children, depth + 1, indent, lineBreak) + pad + close);
    }
  }

  lemma NodePieces(node: Node, depth: nat, indent: bytes, lineBreak: bytes)
    ensures PrintNode(node, depth, indent, lineBreak)
         == Repeat(indent, depth) + PrintBody(node, depth, indent, lineBreak) + lineBreak
  {
    hide PrintBody, Repeat;
  }

  // ------------------------------------------------------------------ the visitor

  class Printer {
    var depth: nat
    var simpleTextPrint: bool
    var buffer: bytes
    const indent: bytes
    const lineBreak: bytes

    constructor (indent: bytes, lineBreak: bytes)
      ensures depth == 0 && !simpleTextPrint && buffer == []
      ensures this.indent == indent && this.lineBreak == lineBreak
    {
      depth, simpleTextPrint, buffer := 0, false, [];
      this.indent, this.lineBreak := indent, lineBreak;
    }

    /** Appends x to the buffer, of which `done` is what was appended since it was `start`. */
    method Append(x: bytes, ghost start: bytes, ghost done: bytes)
      requires buffer == start + done
      modifies this`buffer
      ensures buffer == start + (done + x)
    {
      assert start + done + x == start + (done + x);
      buffer := buffer + x;
    }

    method DoIndent()
      modifies this`buffer
      ensures buffer == old(buffer) + Repeat(indent, depth)
    {
      for i := 0 to depth
        invariant buffer == old(buffer) + Repeat(indent, i)
      {
        buffer := buffer + indent;
      }
    }

    /** The attributes before the i-th have been seen, and the walk is not over. */
    ghost predicate WalkAt(attributes: seq<Attribute>, i: nat, seen: seq<Attribute>) {
      && i <= |attributes|
      && if i == 0 then seen == [] else Walked(attributes) == seen + UntilBlank(attributes[i..])
    }

    /** The loop of VisitEnter: Next() takes an attribute without name and value for the end of the list. */
    method PrintAttributeList(attributes: seq<Attribute>)
      modifies this`buffer
      ensures buffer == old(buffer) + PrintAttributes(Walked(attributes))
    {
      hide PrintAttributes, PrintAttribute, Walked, UntilBlank, Printer.WalkAt;
      ghost var start := buffer;
      ghost var seen: seq<Attribute> := [];
      WalkStarts(attributes);
      for i := 0 to |attributes|
        invariant WalkAt(attributes, i, seen) && buffer == start + PrintAttributes(seen)
      {
        if i > 0 && attributes[i] == Attribute([], []) {
          WalkEnds(attributes, i, seen);
          return;
        }
        WalkGoesOn(attributes, i, seen);
        PrintAttributesAppend(seen, attributes[i]);
        PrintOne(attributes[i], start, PrintAttributes(seen));
        seen := seen + [attributes[i]];
      }
      WalkEnds(attributes, |attributes|, seen);
    }

    /** A blank and TiXmlAttribute::Print. */
    method PrintOne(a: Attribute, ghost start: bytes, ghost done: bytes)
      requires buffer == start + done
      modifies this`buffer
      ensures buffer == start + (done + PrintAttribute(a))
    {
      hide Encode;
      var n := EncodeString(a.name);
      var v := EncodeString(a.value);
      var q := if QUOTE in a.value then APOS else QUOTE;
      Append([SPACE] + n + [EQ, q] + v + [q], start, done);
    }

    lemma WalkStarts(attributes: seq<Attribute>)
      ensures WalkAt(attributes, 0, []) && PrintAttributes([]) == []
    {}

    lemma WalkEnds(attributes: seq<Attribute>, i: nat, seen: seq<Attribute>)
      requires WalkAt(attributes, i, seen)
      requires i == |attributes| || (i > 0 && attributes[i] == Attribute([], []))
      ensures Walked(attributes) == seen
    {
      if i == 0 {
        WalkedStart(attributes);
      } else {
        UntilBlankStep(attributes, i);
      }
    }

    lemma WalkGoesOn(attributes: seq<Attribute>, i: nat, seen: seq<Attribute>)
      requires i < |attributes| && (i > 0 ==> attributes[i] != Attribute([], [])) && WalkAt(attributes, i, seen)
      ensures WalkAt(attributes, i + 1, seen + [attributes[i]])
    {
      hide Walked, UntilBlank;
      WalkedStart(attributes);
      if i > 0 {
        UntilBlankStep(attributes, i);
      }
    }

    lemma OpenTagIs(name: bytes, attributes: seq<Attribute>)
      ensures OpenTag(name, attributes) == [LT] + CStr(name) + PrintAttributes(Walked(attributes))
    {}

    method VisitEnter(e: Node)
      requires e.Element?
      modifies this
      ensures depth == old(depth) + 1
      ensures simpleTextPrint == (old(simpleTextPrint) || IsSimple(e.children))
      ensures buffer == old(buffer) + (Repeat(indent, old(depth)) + OpenTag(e.name, e.attributes)
                        + (if e.children == [] then [SPACE, SLASH, GT] else [GT])
                        + (if IsSimple(e.children) then [] else lineBreak))
    {
      hide OpenTag, Repeat, CStr, PrintAttributes, Walked;
      ghost var start, pad := buffer, Repeat(indent, depth);
      DoIndent();
      Append([LT], start, pad);
      Append(CStr(e.name), start, pad + [LT]);
      PrintAttributeList(e.attributes);
      ghost var opening := OpenTag(e.name, e.attributes);
      assert buffer == start + (pad + opening) by {
        assert opening == [LT] + CStr(e.name) + PrintAttributes(Walked(e.attributes)) by { OpenTagIs(e.name, e.attributes); }
      }
      if e.children == [] {
        Append([SPACE, SLASH, GT], start, pad + opening);
        Append(lineBreak, start, pad + opening + [SPACE, SLASH, GT]);
      } else {
        Append([GT], start, pad + opening);
        if e.children[0].Text? && |e.children| == 1 && !e.children[0].cdata {
          simpleTextPrint := true;
        } else {
          Append(lineBreak, start, pad + opening + [GT]);
        }
      }
      depth := depth + 1;
    }

    method VisitExit(e: Node)
      requires e.Element? && depth > 0
      modifies this
      ensures depth == old(depth) - 1
      ensures simpleTextPrint == (old(simpleTextPrint) && e.children == [])
      ensures buffer == old(buffer) + if e.children == [] then []
                                      else (if old(simpleTextPrint) then [] else Repeat(indent, depth))
                                           + EndTag(e.name) + lineBreak
    {
      hide Repeat, CStr;
      depth := depth - 1;
      if e.children != [] {
        ghost var start := buffer;
        ghost var pad := if simpleTextPrint then [] else Repeat(indent, depth);
        if simpleTextPrint {
          simpleTextPrint := false;
        } else {
          DoIndent();
        }
        Append(END_OPEN, start, pad);
        Append(CStr(e.name), start, pad + END_OPEN);
        Append([GT], start, pad + END_OPEN + CStr(e.name));
        assert pad + END_OPEN + CStr(e.name) + [GT] == pad + EndTag(e.name);
        Append(lineBreak, start, pad + EndTag(e.name));
      }
    }

    method VisitText(value: bytes, cdata: bool)
      modifies this`buffer
      ensures buffer == old(buffer) + if simpleTextPrint && !cdata then Encode(value)
                                      else PrintNode(Text(value, cdata), depth, indent, lineBreak)
    {
      if simpleTextPrint && !cdata {
        var str := EncodeString(value);
        buffer := buffer + str;
      } else {
        var str;
        if cdata {
          str := CDATA_OPEN + CStr(value) + CDATA_CLOSE;
        } else {
          str := EncodeString(value);
        }
        PrintLine(str);
      }
    }

    /** Indentation, the text, a line break: how every leaf is printed. */
    method PrintLine(str: bytes)
      modifies this`buffer
      ensures buffer == old(buffer) + (Repeat(indent, depth) + str + lineBreak)
    {
      ghost var start := buffer;
      DoIndent();
      Append(str, start, Repeat(indent, depth));
      Append(lineBreak, start, Repeat(indent, depth) + str);
    }

    method VisitDeclaration(version: bytes, encoding: bytes, standalone: bytes)
      modifies this`buffer
      ensures buffer == old(buffer) + PrintNode(Declaration(version, encoding, standalone), depth, indent, lineBreak)
    {
      hide PrintField;
      var str := AppendField(XML_OPEN + [SPACE], VERSION, version);
      str := AppendField(str, ENCODING, encoding);
      str := AppendField(str, STANDALONE, standalone);
      str := str + ['?' as int, GT];
      PrintLine(str);
    }

    static method AppendField(str: bytes, key: bytes, value: bytes) returns (r: bytes)
      ensures r == str + PrintField(key, value)
    {
      r := str;
      if value != [] {
        r := r + (key + [EQ, QUOTE] + value + [QUOTE, SPACE]);
      }
    }

    method VisitComment(value: bytes)
      modifies this`buffer
      ensures buffer == old(buffer) + PrintNode(Comment(value), depth, indent, lineBreak)
    {
      PrintLine(COMMENT_OPEN + CStr(value) + COMMENT_CLOSE);
    }

    method VisitUnknown(value: bytes)
      modifies this`buffer
      ensures buffer == old(buffer) + PrintNode(Unknown(value), depth, indent, lineBreak)
    {
      PrintLine([LT] + CStr(value) + [GT]);
    }

    /** TiXmlElement::Accept: enter, every child in order, exit. */
    method AcceptElement(e: Node)
      requires e.Element? && !simpleTextPrint
      modifies this
      ensures depth == old(depth) && !simpleTextPrint
      ensures buffer == old(buffer) + PrintNode(e, depth, indent, lineBreak)
      decreases e, 0
    {
      hide PrintNode, PrintNodes, OpenTag, EndTag, Encode, Repeat;
      ghost var d := depth;
      VisitEnter(e);
      ghost var entered := buffer;
      PrintNothing(d + 1);
      for i := 0 to |e.children|
        invariant depth == d + 1 && simpleTextPrint == IsSimple(e.children)
        invariant IsSimple(e.children) ==> buffer == entered + if i == 0 then [] else Encode(e.children[0].value)
        invariant !IsSimple(e.children) ==> buffer == entered + PrintNodes(e.children[..i], d + 1, indent, lineBreak)
      {
        PrintPrefix(e.children, i, d + 1, indent, lineBreak);
        Accept(e.children[i]);
      }
      assert e.children[..|e.children|] == e.children;
      VisitExit(e);
      ElementPieces(e, d, indent, lineBreak);
    }

    lemma PrintNothing(depth: nat)
      ensures PrintNodes([], depth, indent, lineBreak) == []
    {}

    /** Accept of each node type. The one-line mode is on only while the text child of a simple element is visited. */
    method Accept(node: Node)
      requires simpleTextPrint ==> node.Text? && !node.cdata
      modifies this
      ensures depth == old(depth) && simpleTextPrint == old(simpleTextPrint)
      ensures buffer == old(buffer) + if simpleTextPrint then Encode(node.value)
                                      else PrintNode(node, depth, indent, lineBreak)
      decreases node, 1
    {
      hide PrintNode, Encode;
      match node
      case Element(name, attributes, children) => AcceptElement(node);
      case Text(value, cdata) => VisitText(value, cdata);
      case Comment(value) => VisitComment(value);
      case Unknown(value) => VisitUnknown(value);
      case Declaration(version, encoding, standalone) => VisitDeclaration(version, encoding, standalone);
    }

    /** TiXmlDocument::Accept */
    method AcceptDocument(children: seq<Node>)
      requires !simpleTextPrint
      modifies this
      ensures depth == old(depth) && !simpleTextPrint
      ensures buffer == old(buffer) + PrintNodes(children, depth, indent, lineBreak)
    {
      hide PrintNode, PrintNodes;
      PrintNothing(depth);
      for i := 0 to |children|
        invariant depth == old(depth) && !simpleTextPrint
        invariant buffer == old(buffer) + PrintNodes(children[..i], depth, indent, lineBreak)
      {
        PrintPrefix(children, i, depth, indent, lineBreak);
        Accept(children[i]);
      }
      assert children[..|children|] == children;
    }
  }
}
