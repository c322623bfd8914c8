/**
 The parser as the loops and recursive calls that the document runs, with the error recorded in the document.
 Each method is proved to compute the parse that XmlParser gives for the buffer.
 */
module XmlReader {
  import opened Octets
  import opened XmlBytes
  import opened XmlScanner
  import opened XmlTree
  import opened XmlParser

  /** A loop that copies raw bytes up to a tag. */
  method CopyRaw(s: bytes, start: Ptr, tag: bytes) returns (value: bytes, p: Ptr)
    requires 0 <= start <= |s| && tag != []
    ensures Read(value, p) == RawText(s, start, tag)
  {
    value, p := [], start;
    var atEnd := StringEqual(s, p, tag, false);
    while Live(s, p) && !atEnd
      invariant 0 <= p <= |s| && atEnd == TagAt(s, p, tag)
      invariant Prepend(value, RawText(s, p, tag)) == RawText(s, start, tag)
      decreases |s| - p
    {
      PrependStep(value, [s[p]], RawText(s, p + 1, tag));
      value, p := value + [s[p]], p + 1;
      atEnd := StringEqual(s, p, tag, false);
    }
  }

  method CopyUntilGreater(s: bytes, start: Ptr) returns (value: bytes, p: Ptr)
    requires 0 <= start <= |s|
    ensures Read(value, p) == UntilGreater(s, start)
  {
    value, p := [], start;
    while Live(s, p) && s[p] != GT
      invariant 0 <= p <= |s|
      invariant Prepend(value, UntilGreater(s, p)) == UntilGreater(s, start)
      decreases |s| - p
    {
      PrependStep(value, [s[p]], UntilGreater(s, p + 1));
      value, p := value + [s[p]], p + 1;
    }
  }

  method SkipWord(s: bytes, start: Ptr) returns (p: Ptr)
    requires 0 <= start <= |s|
    ensures p == PassWord(s, start)
  {
    p := start;
    while Live(s, p) && s[p] != GT && !IsWhiteSpace(s[p])
      invariant start <= p <= |s|
      invariant PassWord(s, p) == PassWord(s, start)
      decreases |s| - p
    {
      p := p + 1;
    }
  }

  lemma PrependStep(a: bytes, b: bytes, r: Read)
    ensures Prepend(a, Prepend(b, r)) == Prepend(a + b, r)
  {
    assert a + (b + r.text) == a + b + r.text;
  }

  lemma EmptyTag(s: bytes, start: Ptr, p: Ptr, name: bytes, attributes: seq<Attribute>, condense: bool, error: Error)
    requires Live(s, start) && p == SkipWhite(s, start)
    requires Live(s, p) && s[p] == SLASH && Live(s, p + 1) && s[p + 1] == GT
    ensures ElementFrom(s, start, name, attributes, condense, error)
         == NodeRead(Element(name, attributes, []), p + 2, error)
  {
    assert Peek(s, p + 1) == GT;
  }

  class Document {
    var error: Error
    var children: seq<Node>

    constructor ()
      ensures error == NoError && children == []
    {
      error := NoError;
      children := [];
    }

    method SetError(code: Error)
      modifies this`error
      ensures error == Raise(old(error), code)
    {
      if error == NoError {
        error := code;
      }
    }

    method ParseUnquoted(s: bytes, start: Ptr, inDocument: bool) returns (value: bytes, p: Ptr)
      requires 0 <= start <= |s|
      modifies this`error
      ensures Read(value, p) == Unquoted(s, start)
      ensures error == if p == NULL && inDocument then Raise(old(error), ReadingAttributes) else old(error)
    {
      value, p := [], start;
      while Live(s, p) && !IsWhiteSpace(s[p]) && s[p] != SLASH && s[p] != GT
        invariant 0 <= p <= |s| && error == old(error)
        invariant Prepend(value, Unquoted(s, p)) == Unquoted(s, start)
        decreases |s| - p
      {
        if s[p] == APOS || s[p] == QUOTE {
          if inDocument {
            SetError(ReadingAttributes);
          }
          return value, NULL;
        }
        PrependStep(value, [s[p]], Unquoted(s, p + 1));
        value, p := value + [s[p]], p + 1;
      }
    }

    method ParseAttribute(s: bytes, start: Ptr, inDocument: bool) returns (a: Attribute, p: Ptr)
      requires start <= |s|
      modifies this`error
      ensures AttributeRead(a, p, error) == AttributeAt(s, start, inDocument, old(error))
    {
      hide NameAt, TextAt, Unquoted, SkipRun, SkipWhite;
      var name, value := [], [];
      p := SkipWhiteSpace(s, start);
      if !Live(s, p) {
        return Attribute(name, value), NULL;
      }
      name, p := ReadName(s, p);
      if Live(s, p) {
        p := SkipWhiteSpace(s, p);
        if Live(s, p) && s[p] == EQ {
          p := SkipWhiteSpace(s, p + 1);
          if Live(s, p) {
            if s[p] == APOS || s[p] == QUOTE {
              value, p := ReadText(s, p + 1, false, true, [s[p]]);
            } else {
              value, p := ParseUnquoted(s, p, inDocument);
            }
            return Attribute(name, value), p;
          }
        }
      }
      if inDocument {
        SetError(ReadingAttributes);
      }
      return Attribute(name, value), NULL;
    }

    method ParseComment(s: bytes, start: Ptr) returns (node: Node, p: Ptr)
      requires Live(s, start)
      modifies this`error
      ensures NodeRead(node, p, error) == CommentAt(s, start, old(error))
    {
      p := SkipWhiteSpace(s, start);
      var opens := StringEqual(s, p, COMMENT_OPEN, false);
      if !opens {
        SetError(ParsingComment);
        return Comment([]), NULL;
      }
      var value;
      value, p := CopyRaw(s, p + 4, COMMENT_CLOSE);
      if Live(s, p) {
        p := p + 3;
      }
      node := Comment(value);
    }

    method ParseCdata(s: bytes, start: Ptr) returns (node: Node, p: Ptr)
      requires Live(s, start)
      modifies this`error
      ensures NodeRead(node, p, error) == CdataAt(s, start, old(error))
    {
      var opens := StringEqual(s, start, CDATA_OPEN, false);
      if !opens {
        SetError(ParsingCdata);
        return Text([], true), NULL;
      }
      var value, dummy;
      value, p := CopyRaw(s, start + 9, CDATA_CLOSE);
      dummy, p := ReadText(s, p, false, true, CDATA_CLOSE);
      node := Text(value, true);
    }

    method ParsePlainText(s: bytes, start: Ptr, condense: bool) returns (value: bytes, p: Ptr)
      requires Live(s, start)
      ensures Read(value, p) == PlainTextAt(s, start, condense)
    {
      value, p := ReadText(s, start, true, condense, [LT]);
      p := if Live(s, p) then p - 1 else NULL;
    }

    method IsBlank(value: bytes) returns (r: bool)
      ensures r == Blank(value)
    {
      for i := 0 to |value|
        invariant Blank(value[..i])
      {
        if !IsWhiteSpace(value[i]) {
          return false;
        }
      }
      assert value[..|value|] == value;
      return true;
    }

    method ParseUnknown(s: bytes, start: Ptr) returns (node: Node, p: Ptr)
      requires Live(s, start)
      modifies this`error
      ensures NodeRead(node, p, error) == UnknownAt(s, start, old(error))
    {
      p := SkipWhiteSpace(s, start);
      if !Live(s, p) || s[p] != LT {
        SetError(ParsingUnknown);
        return Unknown([]), NULL;
      }
      var value;
      value, p := CopyUntilGreater(s, p + 1);
      if Live(s, p) {
        p := p + 1;
      }
      node := Unknown(value);
    }

    /** One turn of the declaration loop: an attribute it knows, or a word to read over. */
    method ParseDeclarationItem(s: bytes, start: Ptr, d: Node) returns (node: Node, p: Ptr)
      requires 0 <= start <= |s| && d.Declaration?
      modifies this`error
      ensures error == old(error) && node.Declaration? && p <= |s|
      ensures (node, p) == DeclarationItem(s, start, d)
    {
      node := d;
      var version := StringEqual(s, start, VERSION, true);
      var encoding := StringEqual(s, start, ENCODING, true);
      var standalone := StringEqual(s, start, STANDALONE, true);
      if version || encoding || standalone {
        var a;
        a, p := ParseAttribute(s, start, false);
        node := if version then d.(version := a.value)
                else if encoding then d.(encoding := a.value)
                else d.(standalone := a.value);
      } else {
        p := SkipWord(s, start);
      }
    }

    method ParseDeclaration(s: bytes, start: Ptr) returns (node: Node, p: Ptr)
      requires Live(s, start)
      modifies this`error
      ensures NodeRead(node, p, error) == DeclarationAt(s, start, old(error))
    {
      p := SkipWhiteSpace(s, start);
      node := Declaration([], [], []);
      var opens := StringEqual(s, p, XML_OPEN, true);
      if !opens {
        SetError(ParsingDeclaration);
        return node, NULL;
      }
      p := p + 5;
      while Live(s, p)
        invariant p <= |s| && error == old(error) && node.Declaration?
        invariant DeclarationFrom(s, p, node, error) == DeclarationAt(s, start, old(error))
        decreases if Live(s, p) then |s| - p else 0
      {
        if s[p] == GT {
          return node, p + 1;
        }
        p := SkipWhiteSpace(s, p);
        node, p := ParseDeclarationItem(s, p, node);
      }
      return node, NULL;
    }

    method ParseNode(s: bytes, start: Ptr, condense: bool) returns (node: Node, p: Ptr)
      requires Live(s, start) && s[start] == LT
      modifies this`error
      ensures NodeRead(node, p, error) == NodeAt(s, start, condense, old(error))
      decreases |s| - start, 3
    {
      var xml := StringEqual(s, start, XML_OPEN, true);
      var comment := StringEqual(s, start, COMMENT_OPEN, false);
      var cdata := StringEqual(s, start, CDATA_OPEN, false);
      var dtd := StringEqual(s, start, DTD_OPEN, false);
      if xml {
        node, p := ParseDeclaration(s, start);
      } else if comment {
        node, p := ParseComment(s, start);
      } else if cdata {
        node, p := ParseCdata(s, start);
      } else if dtd {
        node, p := ParseUnknown(s, start);
      } else if IsNameStart(Peek(s, start + 1)) {
        node, p := ParseElement(s, start, condense);
      } else {
        node, p := ParseUnknown(s, start);
      }
    }

    method ParseElement(s: bytes, start: Ptr, condense: bool) returns (node: Node, p: Ptr)
      requires Live(s, start)
      modifies this`error
      ensures NodeRead(node, p, error) == ElementAt(s, start, condense, old(error))
      decreases |s| - start, 2
    {
      p := SkipWhiteSpace(s, start);
      if !Live(s, p) || s[p] != LT {
        SetError(ParsingElement);
        return Element([], [], []), NULL;
      }
      p := SkipWhiteSpace(s, p + 1);
      var name;
      name, p := ReadName(s, p);
      if !Live(s, p) {
        SetError(FailedToReadElementName);
        return Element(name, [], []), NULL;
      }
      node, p := ParseAttributes(s, p, name, condense);
    }

    /** The attribute loop of the element parser, with the children and the end tag that follow it. */
    method ParseAttributes(s: bytes, start: Ptr, name: bytes, condense: bool) returns (node: Node, p: Ptr)
      requires Live(s, start)
      modifies this`error
      ensures NodeRead(node, p, error) == ElementFrom(s, start, name, [], condense, old(error))
      decreases |s| - start, 1
    {
      hide AttributeAt, ElementContent, SkipRun, SkipWhite;
      p := start;
      var attributes := [];
      while true
        invariant Live(s, p) && start <= p
        invariant ElementFrom(s, p, name, attributes, condense, error) == ElementFrom(s, start, name, [], condense, old(error))
        decreases |s| - p
      {
        ghost var was := p;
        p := SkipWhiteSpace(s, p);
        if !Live(s, p) {
          SetError(ReadingAttributes);
          return Element(name, attributes, []), NULL;
        }
        if s[p] == SLASH {
          if Peek(s, p + 1) != GT {
            SetError(ParsingEmpty);
            return Element(name, attributes, []), NULL;
          }
          EmptyTag(s, was, p, name, attributes, condense, error);
          return Element(name, attributes, []), p + 2;
        } else if s[p] == GT {
          node, p := ParseContent(s, p + 1, Element(name, attributes, []), condense);
          return;
        } else {
          var a;
          a, p := ParseAttribute(s, p, true);
          if !Live(s, p) || HasName(attributes, a.name) {
            SetError(ParsingElement);
            return Element(name, attributes, []), NULL;
          }
          attributes := attributes + [a];
        }
      }
    }

    method ParseContent(s: bytes, start: Ptr, e: Node, condense: bool) returns (node: Node, p: Ptr)
      requires 0 <= start <= |s| && e.Element?
      modifies this`error
      ensures NodeRead(node, p, error) == ElementContent(s, start, e, condense, old(error))
      decreases |s| - start, 5
    {
      var children;
      children, p := ReadValue(s, start, condense);
      node := e.(children := children);
      p := ParseEndTag(s, p, node);
    }

    method ParseEndTag(s: bytes, start: Ptr, e: Node) returns (p: Ptr)
      requires start <= |s| && e.Element?
      modifies this`error
      ensures NodeRead(e, p, error) == ElementEnd(s, start, e, old(error))
    {
      var ends := StringEqual(s, start, END_OPEN + e.name, false);
      if ends {
        p := SkipWhiteSpace(s, start + 2 + |e.name|);
        if Live(s, p) && s[p] == GT {
          return p + 1;
        }
      }
      SetError(ReadingEndTag);
      return NULL;
    }

    method ReadValue(s: bytes, start: Ptr, condense: bool) returns (children: seq<Node>, p: Ptr)
      requires start <= |s|
      modifies this`error
      ensures ValueRead(children, p, error) == ValueAt(s, start, [], condense, old(error))
      decreases if Live(s, start) then |s| - start else 0, 4
    {
      children := [];
      var withWhiteSpace := start;
      p := SkipWhiteSpace(s, start);
      while Live(s, p)
        invariant withWhiteSpace <= |s| && p == SkipWhite(s, withWhiteSpace)
        invariant Live(s, withWhiteSpace) ==> start <= withWhiteSpace
        invariant ValueAt(s, withWhiteSpace, children, condense, error) == ValueAt(s, start, [], condense, old(error))
        decreases if Live(s, withWhiteSpace) then |s| - withWhiteSpace else 0
      {
        if s[p] != LT {
          var value;
          value, p := ParsePlainText(s, if condense then p else withWhiteSpace, condense);
          var blank := IsBlank(value);
          if !blank {
            children := children + [Text(value, false)];
          }
        } else {
          var ends := StringEqual(s, p, END_OPEN, false);
          if ends {
            return;
          }
          var node;
          node, p := ParseNode(s, p, condense);
          children := children + [node];
        }
        withWhiteSpace := p;
        p := SkipWhiteSpace(s, p);
      }
      if p == NULL {
        SetError(ReadingElementValue);
      }
    }

    method Parse(s: bytes, condense: bool) returns (p: Ptr)
      modifies this
      ensures ValueRead(children, p, error) == ParseInto(old(children), s, condense)
    {
      error := NoError;
      if s == [] {
        SetError(DocumentEmpty);
        return NULL;
      }
      p := SkipWhiteSpace(s, 0);
      while Live(s, p)
        invariant p <= |s|
        invariant DocumentFrom(s, p, children, condense, error) == DocumentFrom(s, SkipWhite(s, 0), old(children), condense, NoError)
        decreases if Live(s, p) then |s| - p else 0
      {
        if s[p] != LT {
          break;
        }
        var node;
        node, p := ParseNode(s, p, condense);
        children := children + [node];
        p := SkipWhiteSpace(s, p);
      }
      if children == [] {
        SetError(DocumentEmpty);
        return NULL;
      }
    }
  }
}
