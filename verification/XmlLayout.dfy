/**
 How a printed document looks: the markup of every node, byte for byte, and where it stands, which the round trip
 cannot see because the parser skips white space.
 */
module XmlLayout {
  import opened Octets
  import opened XmlBytes
  import opened XmlScanner
  import opened XmlEncoder
  import opened XmlTree
  import opened XmlParser
  import opened XmlPrinter
  import opened XmlAttributeSet

  // ------------------------------------------------------------------ markup

  /** What stands for a byte in values and texts. */
  lemma CharLayout(c: byte)
    ensures c == '&' as int ==> EncodeChar(c) == Ascii("&amp;")
    ensures c == '<' as int ==> EncodeChar(c) == Ascii("&lt;")
    ensures c == '>' as int ==> EncodeChar(c) == Ascii("&gt;")
    ensures c == '\"' as int ==> EncodeChar(c) == Ascii("&quot;")
    ensures c == '\'' as int ==> EncodeChar(c) == Ascii("&apos;")
    ensures var digits := Ascii("0123456789ABCDEF");
            c < 32 ==> EncodeChar(c) == Ascii("&#x") + [digits[c / 16], digits[c % 16]] + Ascii(";")
    ensures c >= 32 && c !in Ascii("&<>\"'") ==> EncodeChar(c) == [c]
  {
    assert Ascii("&amp;") == ENT_AMP && Ascii("&lt;") == ENT_LT && Ascii("&gt;") == ENT_GT;
    assert Ascii("&quot;") == ENT_QUOT && Ascii("&apos;") == ENT_APOS;
    assert Ascii("&<>\"'") == [AMP, LT, GT, QUOTE, APOS];
    if c < 32 {
      DigitIs(c / 16);
      DigitIs(c % 16);
    }
  }

  lemma DigitIs(n: nat)
    requires n < 16
    ensures HexDigit(n) == Ascii("0123456789ABCDEF")[n]
  {}

  /** `&#x` is taken for a reference: up to the first semicolon behind it, or the last byte, it is written as it is. */
  lemma ReferenceLayout(t: bytes, i: nat, n: nat)
    requires i < n < |t| && i + 2 < |t| && t[i..i + 3] == Ascii("&#x")
    requires (t[n] == ';' as int || n == |t| - 1) && forall k :: i < k < n ==> t[k] != ';' as int
    ensures EncodeFrom(t, i) == t[i..n] + EncodeFrom(t, n)
  {
    assert Ascii("&#x") == [AMP, HASH, LOWER_X];
    assert t[i] == t[i..i + 3][0] && t[i + 1] == t[i..i + 3][1] && t[i + 2] == t[i..i + 3][2];
    PassedTo(t, i, n);
  }

  lemma {:induction false} PassedTo(t: bytes, i: nat, n: nat)
    requires i <= n < |t| && (i < n ==> t[n] == SEMI || n == |t| - 1) && forall k :: i < k < n ==> t[k] != SEMI
    ensures i < n ==> PassEnd(t, i) == n
    decreases n - i
  {
    if i + 1 < n {
      PassedTo(t, i + 1, n);
    } else if i < n && t[n] != SEMI {
      assert PassEnd(t, n) == n;
    }
  }

  /** The markup of an attribute: quotation marks, or apostrophes when the value holds a quotation mark. */
  lemma AttributeLayout(a: Attribute)
    ensures var q := if '\"' as int in a.value then Ascii("'") else Ascii("\"");
            PrintAttribute(a) == Ascii(" ") + Encode(a.name) + Ascii("=") + q + Encode(a.value) + q
  {
    hide Encode;
    assert Ascii(" ") == [SPACE] && Ascii("=") == [EQ] && Ascii("'") == [APOS] && Ascii("\"") == [QUOTE];
  }

  /** The markup of every kind of node. */
  lemma BodyLayout(node: Node, depth: nat, indent: bytes, lineBreak: bytes)
    ensures var body := PrintBody(node, depth, indent, lineBreak);
            match node
            case Element(name, attributes, children) =>
              var open := Ascii("<") + CStr(name) + PrintAttributes(Walked(attributes));
              var close := Ascii("</") + CStr(name) + Ascii(">");
              body == if children == [] then open + Ascii(" />")
                      else if |children| == 1 && children[0].Text? && !children[0].cdata
                      then open + Ascii(">") + Encode(children[0].value) + close
                      else open + Ascii(">") + lineBreak
                           + (PrintNodes(children, depth + 1, indent, lineBreak) + Repeat(indent, depth) + close)
            case Text(value, cdata) => body == if cdata then Ascii("<![CDATA[") + CStr(value) + Ascii("]]>") else Encode(value)
            case Comment(value) => body == Ascii("<!--") + CStr(value) + Ascii("-->")
            case Unknown(value) => body == Ascii("<") + CStr(value) + Ascii(">")
            case Declaration(version, encoding, standalone) =>
              body == Ascii("<?xml ") + Field("version", version) + Field("encoding", encoding)
                      + Field("standalone", standalone) + Ascii("?>")
  {
    hide Encode, CStr, PrintAttributes, Walked, PrintNodes, Repeat;
    Marks();
    match node
    case Element(_, _, _) =>
    case Text(_, _) =>
    case Comment(_) =>
    case Unknown(_) =>
    case Declaration(version, encoding, standalone) =>
      FieldIs("version", VERSION, version);
      FieldIs("encoding", ENCODING, encoding);
      FieldIs("standalone", STANDALONE, standalone);
      assert Ascii("<?xml ") == XML_OPEN + [SPACE];
  }

  /** A field of a declaration, which is printed unless it is empty. */
  function Field(key: string, value: bytes): bytes
    requires forall i :: 0 <= i < |key| ==> key[i] as int < 128
  {
    if value == [] then [] else Ascii(key) + Ascii("=\"") + value + Ascii("\" ")
  }

  lemma FieldIs(name: string, key: bytes, value: bytes)
    requires forall i :: 0 <= i < |name| ==> name[i] as int < 128
    requires key == Ascii(name)
    ensures PrintField(key, value) == Field(name, value)
  {
    assert Ascii("=\"") == [EQ, QUOTE] && Ascii("\" ") == [QUOTE, SPACE];
  }

  lemma Marks()
    ensures Ascii("<") == [LT] && Ascii(">") == [GT] && Ascii(" />") == [SPACE, SLASH, GT]
    ensures Ascii("</") == END_OPEN && Ascii("<!--") == COMMENT_OPEN && Ascii("-->") == COMMENT_CLOSE
    ensures Ascii("<![CDATA[") == CDATA_OPEN && Ascii("]]>") == CDATA_CLOSE && Ascii("?>") == ['?' as int, GT]
    ensures Ascii("version") == VERSION && Ascii("encoding") == ENCODING && Ascii("standalone") == STANDALONE
    ensures Ascii("<?xml") == XML_OPEN && Ascii("<!") == DTD_OPEN
  {}

  // ------------------------------------------------------------------ indentation

  /** Repeating is concatenating that many copies. */
  lemma {:induction false} RepeatAdds(piece: bytes, m: nat, n: nat)
    ensures Repeat(piece, 0) == [] && Repeat(piece, 1) == piece
    ensures Repeat(piece, m + n) == Repeat(piece, m) + Repeat(piece, n)
    ensures |Repeat(piece, n)| == n * |piece|
    decreases n
  {
    hide Repeat;
    RepeatOne(piece, 0);
    if n > 0 {
      RepeatAdds(piece, m, n - 1);
      RepeatOne(piece, n - 1);
      RepeatOne(piece, m + (n - 1));
      assert n * |piece| == (n - 1) * |piece| + |piece|;
    }
  }

  lemma RepeatOne(piece: bytes, n: nat)
    ensures Repeat(piece, 0) == [] && Repeat(piece, n + 1) == Repeat(piece, n) + piece
  {
    assert Repeat(piece, 0) == [];
  }

  /** The node that a path of positions leads to. */
  function NodeOn(nodes: seq<Node>, path: seq<nat>): Option<Node>
    decreases |path|
  {
    if path == [] || path[0] >= |nodes| then None
    else if |path| == 1 then Some(nodes[path[0]])
    else if nodes[path[0]].Element? then NodeOn(nodes[path[0]].children, path[1..])
    else None
  }

  /** No element on the way is printed on one line. */
  predicate HasOwnLine(nodes: seq<Node>, path: seq<nat>)
    decreases |path|
  {
    |path| <= 1 || path[0] >= |nodes| || !nodes[path[0]].Element?
    || (!IsSimple(nodes[path[0]].children) && HasOwnLine(nodes[path[0]].children, path[1..]))
  }

  predicate EndsWith(x: bytes, tail: bytes) {
    |tail| <= |x| && x[|x| - |tail|..] == tail
  }

  /** A line starts here: nothing stands before, or a line break right before. */
  predicate LineStart(before: bytes, lineBreak: bytes) {
    before == [] || EndsWith(before, lineBreak)
  }

  /**
   Where a node stands that is k levels down: at the start of a line, behind exactly k copies of the indentation, and
   its line break follows it.
   */
  lemma {:induction false} StandsIndented(nodes: seq<Node>, path: seq<nat>, depth: nat, indent: bytes, lineBreak: bytes)
    returns (before: bytes, after: bytes)
    requires NodeOn(nodes, path).Some? && HasOwnLine(nodes, path)
    ensures var k := depth + |path| - 1;
            PrintNodes(nodes, depth, indent, lineBreak)
            == before + Repeat(indent, k) + PrintBody(NodeOn(nodes, path).value, k, indent, lineBreak) + lineBreak + after
    ensures LineStart(before, lineBreak)
    decreases |path|
  {
    hide PrintBody, Repeat, PrintNodes;
    var i := path[0];
    var n := nodes[i];
    var head, tail := PrintNodes(nodes[..i], depth, indent, lineBreak), PrintNodes(nodes[i + 1..], depth, indent, lineBreak);
    NodesAround(nodes, i, depth, indent, lineBreak);
    LinesEnd(nodes[..i], depth, indent, lineBreak);
    if |path| == 1 {
      before, after := head, tail;
    } else {
      var b, a := StandsIndented(n.children, path[1..], depth + 1, indent, lineBreak);
      var k := depth + |path| - 1;
      var mid := Repeat(indent, k) + PrintBody(NodeOn(nodes, path).value, k, indent, lineBreak) + lineBreak;
      assert b + mid + a == PrintNodes(n.children, depth + 1, indent, lineBreak);
      before, after := Deeper(n, depth, indent, lineBreak, head, tail, b, mid, a);
      assert before + mid + after
          == before + Repeat(indent, k) + PrintBody(NodeOn(nodes, path).value, k, indent, lineBreak) + lineBreak + after;
    }
  }

  /** What stands at the start of a line among the children of a node does so around the node. */
  lemma Deeper(n: Node, depth: nat, indent: bytes, lineBreak: bytes, head: bytes, tail: bytes, b: bytes, mid: bytes, a: bytes)
    returns (before: bytes, after: bytes)
    requires n.Element? && n.children != [] && !IsSimple(n.children)
    requires PrintNodes(n.children, depth + 1, indent, lineBreak) == b + mid + a && LineStart(b, lineBreak)
    ensures head + (Repeat(indent, depth) + PrintBody(n, depth, indent, lineBreak) + lineBreak) + tail == before + mid + after
    ensures LineStart(before, lineBreak)
  {
    hide PrintBody, Repeat, PrintNodes;
    var pad, open, close := Repeat(indent, depth), OpenTag(n.name, n.attributes) + [GT], Repeat(indent, depth) + EndTag(n.name);
    FullBody(n, depth, indent, lineBreak);
    before, after := head + pad + open + lineBreak + b, a + close + lineBreak + tail;
    Regroup(head, pad, open, lineBreak, b, mid, a, close, tail);
    StartsLater(head + pad + open, lineBreak, b);
  }

  lemma Regroup(head: bytes, pad: bytes, open: bytes, lb: bytes, b: bytes, mid: bytes, a: bytes, close: bytes, tail: bytes)
    ensures head + (pad + (open + lb + (b + mid + a) + close) + lb) + tail
         == (head + pad + open + lb + b) + mid + (a + close + lb + tail)
  {}

  lemma StartsLater(x: bytes, lineBreak: bytes, b: bytes)
    requires LineStart(b, lineBreak)
    ensures LineStart(x + lineBreak + b, lineBreak)
  {
    if b == [] {
      assert x + lineBreak + b == x + lineBreak;
    } else {
      var y := x + lineBreak + b;
      assert y[|y| - |lineBreak|..] == b[|b| - |lineBreak|..];
    }
  }

  lemma FullBody(e: Node, depth: nat, indent: bytes, lineBreak: bytes)
    requires e.Element? && e.children != [] && !IsSimple(e.children)
    ensures PrintBody(e, depth, indent, lineBreak)
         == (OpenTag(e.name, e.attributes) + [GT]) + lineBreak + PrintNodes(e.children, depth + 1, indent, lineBreak)
            + (Repeat(indent, depth) + EndTag(e.name))
  {
    hide OpenTag, EndTag, Repeat, PrintNodes;
  }

  lemma NodesAround(nodes: seq<Node>, i: nat, depth: nat, indent: bytes, lineBreak: bytes)
    requires i < |nodes|
    ensures PrintNodes(nodes, depth, indent, lineBreak)
         == PrintNodes(nodes[..i], depth, indent, lineBreak)
            + (Repeat(indent, depth) + PrintBody(nodes[i], depth, indent, lineBreak) + lineBreak)
            + PrintNodes(nodes[i + 1..], depth, indent, lineBreak)
  {
    hide PrintBody, Repeat;
    assert nodes == nodes[..i + 1] + nodes[i + 1..];
    PrintNodesAppend(nodes[..i + 1], nodes[i + 1..], depth, indent, lineBreak);
    PrintPrefix(nodes, i, depth, indent, lineBreak);
    NodePieces(nodes[i], depth, indent, lineBreak);
  }

  /** Whatever is printed before a sibling ends a line. */
  lemma LinesEnd(nodes: seq<Node>, depth: nat, indent: bytes, lineBreak: bytes)
    ensures LineStart(PrintNodes(nodes, depth, indent, lineBreak), lineBreak)
  {
    hide PrintBody, Repeat;
    if nodes != [] {
      var i := |nodes| - 1;
      NodesAround(nodes, i, depth, indent, lineBreak);
      assert nodes[i + 1..] == [];
      var x := PrintNodes(nodes[..i], depth, indent, lineBreak) + Repeat(indent, depth) + PrintBody(nodes[i], depth, indent, lineBreak);
      assert PrintNodes(nodes, depth, indent, lineBreak) == x + lineBreak;
    }
  }

  /** The end tag of an element that is not on one line stands on its own line, behind as many copies as its start tag. */
  lemma EndTagIndented(e: Node, depth: nat, indent: bytes, lineBreak: bytes) returns (before: bytes)
    requires e.Element? && e.children != [] && !IsSimple(e.children)
    ensures PrintBody(e, depth, indent, lineBreak) == before + Repeat(indent, depth) + (Ascii("</") + CStr(e.name) + Ascii(">"))
    ensures EndsWith(before, lineBreak)
  {
    hide OpenTag, Repeat, PrintNodes, CStr;
    Marks();
    FullBody(e, depth, indent, lineBreak);
    var inner := PrintNodes(e.children, depth + 1, indent, lineBreak);
    LinesEnd(e.children, depth + 1, indent, lineBreak);
    before := OpenTag(e.name, e.attributes) + [GT] + lineBreak + inner;
    StartsLater(OpenTag(e.name, e.attributes) + [GT], lineBreak, inner);
    assert before + (Repeat(indent, depth) + EndTag(e.name)) == before + Repeat(indent, depth) + EndTag(e.name);
  }
}
