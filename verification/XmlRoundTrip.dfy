/**
 Printing a document and parsing the result gives the document back.
 */
module XmlRoundTrip {
  import opened Octets
  import opened XmlBytes
  import opened XmlScanner
  import opened XmlEncoder
  import opened XmlTree
  import opened XmlParser
  import opened XmlPrinter
  import opened XmlAttributeSet
  import XmlReader

  // ------------------------------------------------------------------ the trees that survive

  predicate ValidName(name: bytes) {
    name != [] && IsNameStart(name[0]) && forall i :: 0 <= i < |name| ==> IsNameChar(name[i])
  }

  ghost predicate ValidAttributes(attributes: seq<Attribute>) {
    && DistinctNames(attributes)
    && forall i :: 0 <= i < |attributes| ==> ValidName(attributes[i].name) && NoHexRef(attributes[i].value)
  }

  /** The value does not hold the tag that would end it early. */
  predicate Without(value: bytes, tag: bytes) {
    forall i :: 0 <= i < |value| ==> !TagAt(value, i, tag)
  }

  /** Plain text: it must hold more than white space, which is not read as a child. */
  ghost predicate ValidText(value: bytes) {
    NoHexRef(value) && !Blank(value)
  }

  /** The inside of an unknown tag, which must not be taken for another kind of node or for an end tag. */
  predicate ValidUnknown(value: bytes) {
    && 0 !in value && GT !in value
    && (value != [] ==> value[0] != SLASH && !IsNameStart(value[0]))
    && !TagAtIgnoreCase([LT] + value, 0, XML_OPEN)
    && !TagAt([LT] + value, 0, COMMENT_OPEN)
    && !TagAt([LT] + value, 0, CDATA_OPEN)
  }

  /** A field of a declaration: it is printed as it is, so nothing in it may be read as more than itself. */
  predicate ValidField(value: bytes) {
    0 !in value && QUOTE !in value && AMP !in value
  }

  predicate IsPlainText(node: Node) {
    node.Text? && !node.cdata
  }

  ghost predicate ValidNode(node: Node)
    decreases node
  {
    match node
    case Element(name, attributes, children) =>
      && ValidName(name) && ValidAttributes(attributes)
      && (forall i :: 0 <= i < |children| ==> ValidNode(children[i]))
      && (forall i :: 0 < i < |children| ==> !IsPlainText(children[i - 1]) || !IsPlainText(children[i]))
    case Text(value, cdata) =>
      if cdata then 0 !in value && Without(value, CDATA_CLOSE) else ValidText(value)
    case Comment(value) => 0 !in value && Without(value, COMMENT_CLOSE)
    case Unknown(value) => ValidUnknown(value)
    case Declaration(version, encoding, standalone) =>
      ValidField(version) && ValidField(encoding) && ValidField(standalone)
  }

  ghost predicate ValidChildren(nodes: seq<Node>) {
    && (forall i :: 0 <= i < |nodes| ==> ValidNode(nodes[i]))
    && (forall i :: 0 < i < |nodes| ==> !IsPlainText(nodes[i - 1]) || !IsPlainText(nodes[i]))
  }

  /** Document level: everything but plain text. */
  ghost predicate ValidDocument(nodes: seq<Node>) {
    forall i :: 0 <= i < |nodes| ==> ValidNode(nodes[i]) && !IsPlainText(nodes[i])
  }

  /** What comes back of a tree: condensing leaves one space of every run in a text, and none at its ends. */
  function Normal(node: Node, condense: bool): Node
    decreases node, 0
  {
    match node
    case Element(name, attributes, children) => Element(name, attributes, NormalAll(children, condense))
    case Text(value, cdata) => if condense && !cdata then Text(Collapse(value), false) else node
    case Comment(_) => node
    case Unknown(_) => node
    case Declaration(_, _, _) => node
  }

  function NormalAll(nodes: seq<Node>, condense: bool): (r: seq<Node>)
    ensures |r| == |nodes|
    decreases nodes, 0
  {
    if nodes == [] then [] else [Normal(nodes[0], condense)] + NormalAll(nodes[1..], condense)
  }

  /** Every plain text in the tree is space-normal. */
  predicate SpacesNormal(node: Node)
    decreases node
  {
    match node
    case Element(_, _, children) => forall i :: 0 <= i < |children| ==> SpacesNormal(children[i])
    case Text(value, cdata) => cdata || SpaceNormal(value)
    case Comment(_) => true
    case Unknown(_) => true
    case Declaration(_, _, _) => true
  }

  predicate AllSpacesNormal(nodes: seq<Node>) {
    forall i :: 0 <= i < |nodes| ==> SpacesNormal(nodes[i])
  }

  /** A tree comes back as it was exactly when its texts are space-normal, or white space is kept. */
  lemma {:induction false} NormalExactly(node: Node, condense: bool)
    ensures Normal(node, condense) == node <==> (condense ==> SpacesNormal(node))
    decreases node, 0
  {
    hide SpaceNormal, Collapse;
    match node
    case Element(name, attributes, children) => NormalAllExactly(children, condense);
    case Text(value, cdata) => CollapseFixpoint(value);
    case Comment(_) =>
    case Unknown(_) =>
    case Declaration(_, _, _) =>
  }

  lemma {:induction false} NormalAllExactly(nodes: seq<Node>, condense: bool)
    ensures NormalAll(nodes, condense) == nodes <==> (condense ==> AllSpacesNormal(nodes))
    decreases nodes, 0
  {
    hide Normal, SpacesNormal;
    if nodes != [] {
      var later := nodes[1..];
      NormalExactly(nodes[0], condense);
      NormalAllExactly(later, condense);
      assert nodes == [nodes[0]] + later;
      assert AllSpacesNormal(nodes) <==> SpacesNormal(nodes[0]) && AllSpacesNormal(later) by {
        assert forall i :: 0 <= i < |later| ==> later[i] == nodes[i + 1];
        assert forall i :: 1 <= i < |nodes| ==> nodes[i] == later[i - 1];
      }
    }
  }

  /** Indentation and line breaks: white space, or nothing when white space is kept. */
  ghost predicate ValidLayout(indent: bytes, lineBreak: bytes, condense: bool) {
    && AllWhite(indent) && AllWhite(lineBreak)
    && (!condense ==> indent == [] && lineBreak == [])
  }

  // ------------------------------------------------------------------ names and attributes

  lemma SkipTo(s: bytes, p: Ptr, q: Ptr)
    requires Gap(s, p, q) && q < |s| && !IsWhiteSpace(s[q])
    ensures SkipWhite(s, p) == q
  {
    SkipRunOver(s, p, q);
  }

  lemma NameBack(s: bytes, p: Ptr, name: bytes)
    requires ValidName(name) && Occurs(s, p, name)
    requires p + |name| < |s| && !IsNameChar(s[p + |name|])
    ensures NameAt(s, p) == Read(name, p + |name|)
    ensures !IsWhiteSpace(s[p])
  {
    assert s[p + 0] == name[0];
    forall i | p <= i < p + |name|
      ensures IsNameChar(s[i])
    {
      assert s[p + (i - p)] == name[i - p];
    }
    NameEndOver(s, p, p + |name|);
    OccursSlice(s, p, name);
  }

  lemma {:induction false} EncodeName(name: bytes, i: nat)
    requires i <= |name| && forall k :: 0 <= k < |name| ==> IsNameChar(name[k])
    ensures EncodeFrom(name, i) == name[i..]
    decreases |name| - i
  {
    hide EncodeChar;
    if i < |name| {
      NameCharIsPlain(name[i]);
      assert !HexRefAt(name, i);
      EncodeName(name, i + 1);
    }
  }

  lemma NameCharIsPlain(c: byte)
    requires IsNameChar(c)
    ensures EncodeChar(c) == [c] && c != AMP && c != 0
  {}

  lemma NameIsPlain(name: bytes)
    requires ValidName(name)
    ensures Encode(name) == name && CStr(name) == name
  {
    EncodeName(name, 0);
    assert name[0..] == name;
    assert 0 !in name;
    CStrOfNulFree(name);
  }

  lemma AttributePieces(a: Attribute)
    requires ValidName(a.name)
    ensures PrintAttribute(a)
         == [SPACE] + (a.name + ([EQ, QuoteFor(a.value)] + (Encode(a.value) + [QuoteFor(a.value)])))
  {
    hide Encode, EncodeFrom;
    NameIsPlain(a.name);
  }

  lemma OccursOne(s: bytes, p: Ptr, c: byte)
    requires Occurs(s, p, [c])
    ensures p < |s| && s[p] == c
  {
    assert [c][0] == s[p + 0];
  }

  lemma FirstByte(s: bytes, p: Ptr, x: bytes)
    requires Occurs(s, p, x) && x != []
    ensures 0 <= p && p + |x| <= |s| && s[p] == x[0]
  {
    assert x[0] == s[p + 0];
  }

  lemma OccursTwo(s: bytes, p: Ptr, c: byte, d: byte)
    requires Occurs(s, p, [c, d])
    ensures p + 1 < |s| && s[p] == c && s[p + 1] == d
  {
    assert [c, d][0] == s[p + 0] && [c, d][1] == s[p + 1];
  }

  /** Where the parts of a printed attribute stand. */
  lemma AttributeParts(s: bytes, p: Ptr, a: Attribute)
    requires ValidName(a.name) && Occurs(s, p, PrintAttribute(a))
    ensures var q, v, e := QuoteFor(a.value), Encode(a.value), p + 1 + |a.name|;
            && |PrintAttribute(a)| == |a.name| + |v| + 4 && p + |PrintAttribute(a)| <= |s| && 0 <= p
            && s[p] == SPACE && Occurs(s, p + 1, a.name) && s[e] == EQ && s[e + 1] == q
            && Occurs(s, e + 2, v) && s[e + 2 + |v|] == q && IsNameStart(s[p + 1])
  {
    hide Encode, PrintAttribute;
    var q, v, e := QuoteFor(a.value), Encode(a.value), p + 1 + |a.name|;
    AttributePieces(a);
    OccursSplit(s, p, [SPACE], a.name + ([EQ, q] + (v + [q])));
    OccursSplit(s, p + 1, a.name, [EQ, q] + (v + [q]));
    OccursSplit(s, e, [EQ, q], v + [q]);
    OccursSplit(s, e + 2, v, [q]);
    OccursOne(s, p, SPACE);
    OccursTwo(s, e, EQ, q);
    OccursOne(s, e + 2 + |v|, q);
    FirstByte(s, p + 1, a.name);
  }

  /** A quoted attribute whose value is read as `value`. */
  lemma QuotedAttribute(s: bytes, p: Ptr, name: bytes, value: bytes, next: Ptr, inDocument: bool, error: Error)
    requires ValidName(name) && Occurs(s, p, name) && p + |name| + 1 < |s|
    requires s[p + |name|] == EQ && (s[p + |name| + 1] == QUOTE || s[p + |name| + 1] == APOS)
    requires TextAt(s, p + |name| + 2, false, [s[p + |name| + 1]]) == Read(value, next)
    ensures AttributeAt(s, p, inDocument, error) == AttributeRead(Attribute(name, value), next, error)
  {
    hide NameAt, TextAt, SkipWhite, Occurs;
    var e := p + |name|;
    FirstByte(s, p, name);
    NameBack(s, p, name);
    GapOfNothing(s, p);
    GapOfNothing(s, e);
    GapOfNothing(s, e + 1);
    SkipTo(s, p, p);
    SkipTo(s, e, e);
    SkipTo(s, e + 1, e + 1);
  }

  lemma AttributeBack(s: bytes, p: Ptr, a: Attribute, error: Error)
    requires ValidName(a.name) && NoHexRef(a.value)
    requires Occurs(s, p, PrintAttribute(a)) && p + |PrintAttribute(a)| < |s|
    ensures AttributeAt(s, p + 1, true, error) == AttributeRead(a, p + |PrintAttribute(a)|, error)
    ensures s[p] == SPACE && IsNameStart(s[p + 1])
  {
    hide Encode, TextAt, PrintAttribute, Occurs, AttributeAt, NoHexRef, ValidName;
    var q, v, e := QuoteFor(a.value), Encode(a.value), p + 1 + |a.name|;
    AttributeParts(s, p, a);
    TagIsByte(s, e + 2 + |v|, q);
    KeptReadUndoesEncode(s, e + 2, a.value, [q]);
    QuotedAttribute(s, p + 1, a.name, a.value, e + 2 + |v| + 1, true, error);
  }

  /** The attribute loop takes up printed attributes in order. */
  lemma {:induction false} AttributesBack(s: bytes, p: Ptr, name: bytes, done: seq<Attribute>, rest: seq<Attribute>,
                                          condense: bool, error: Error)
    requires ValidAttributes(done + rest)
    requires Occurs(s, p, PrintAttributes(rest)) && p + |PrintAttributes(rest)| < |s|
    ensures ElementFrom(s, p, name, done, condense, error)
         == ElementFrom(s, p + |PrintAttributes(rest)|, name, done + rest, condense, error)
    decreases |rest|
  {
    hide PrintAttribute, AttributeAt, ElementFrom;
    if rest == [] {
      assert done + rest == done;
    } else {
      var a := rest[0];
      assert a == (done + rest)[|done|];
      OccursSplit(s, p, PrintAttribute(a), PrintAttributes(rest[1..]));
      AttributeBack(s, p, a, error);
      assert !HasName(done, a.name) by {
        forall i | 0 <= i < |done|
          ensures done[i].name != a.name
        {
          assert (done + rest)[i] == done[i];
        }
      }
      OneAttribute(s, p, name, done, a, |PrintAttribute(a)|, condense, error);
      assert done + [a] + rest[1..] == done + rest;
      AttributesBack(s, p + |PrintAttribute(a)|, name, done + [a], rest[1..], condense, error);
    }
  }

  lemma OneAttribute(s: bytes, p: Ptr, name: bytes, done: seq<Attribute>, a: Attribute, n: nat, condense: bool, error: Error)
    requires 0 <= p && 1 < n && p + n < |s| && s[p] == SPACE && IsNameStart(s[p + 1])
    requires AttributeAt(s, p + 1, true, error) == AttributeRead(a, p + n, error)
    requires !HasName(done, a.name)
    ensures ElementFrom(s, p, name, done, condense, error) == ElementFrom(s, p + n, name, done + [a], condense, error)
  {
    hide AttributeAt, HasName;
    SkipTo(s, p, p + 1);
  }

  // ------------------------------------------------------------------ comments, CDATA, unknown nodes

  lemma {:induction false} FirstDifference(a: bytes, b: bytes) returns (k: nat)
    requires |a| == |b| && a != b
    ensures k < |a| && a[k] != b[k]
  {
    k := 0;
    while a[k] == b[k]
      invariant k < |a| && a[..k] == b[..k]
      decreases |a| - k
    {
      assert a[..k + 1] == a[..k] + [a[k]] && b[..k + 1] == b[..k] + [b[k]];
      assert a[..|a|] == a && b[..|b|] == b;
      k := k + 1;
    }
  }

  /** A three-byte tag that ends in `>` only there does not occur before the end of a value without it. */
  lemma NotEarlier(s: bytes, p: Ptr, value: bytes, i: nat, tag: bytes)
    requires |tag| == 3 && tag[2] == GT && tag[0] != GT && tag[1] != GT
    requires i < |value| && Without(value, tag)
    requires Occurs(s, p, value) && Occurs(s, p + |value|, tag)
    ensures !TagAt(s, p + i, tag)
  {
    if i + 3 <= |value| {
      assert !TagAt(value, i, tag);
      var k := FirstDifference(value[i..i + |tag|], tag);
      assert s[p + (i + k)] == value[i + k];
      TagDiffers(s, p + i, tag, k);
    } else {
      assert s[p + |value| + (i + 2 - |value|)] == tag[i + 2 - |value|];
      TagDiffers(s, p + i, tag, 2);
    }
  }

  lemma {:induction false} RawBack(s: bytes, p: Ptr, value: bytes, i: nat, tag: bytes)
    requires |tag| == 3 && tag[2] == GT && tag[0] != GT && tag[1] != GT
    requires i <= |value| && Without(value, tag) && Occurs(s, p, value + tag)
    ensures RawText(s, p + i, tag) == Read(value[i..], p + |value|)
    decreases |value| - i
  {
    hide Without, TagAt;
    OccursSplit(s, p, value, tag);
    if i == |value| {
      TagAtOccurs(s, p + i, tag);
    } else {
      assert s[p + i] == value[i];
      NotEarlier(s, p, value, i, tag);
      RawBack(s, p, value, i + 1, tag);
    }
  }

  /** A tag that stands in the value ends it there. */
  lemma {:induction false} RawShorter(s: bytes, p: Ptr, value: bytes, i: nat, k: nat, tag: bytes)
    requires i <= k && k + |tag| <= |value| && value[k..k + |tag|] == tag && Occurs(s, p, value)
    ensures |RawText(s, p + i, tag).text| <= k - i
    decreases k - i
  {
    if i == k {
      assert Occurs(s, p + k, tag) by {
        forall j | 0 <= j < |tag|
          ensures s[p + k + j] == tag[j]
        {
          assert value[k..k + |tag|][j] == value[k + j] == s[p + (k + j)];
        }
      }
      TagAtOccurs(s, p + k, tag);
    } else if !TagAt(s, p + i, tag) {
      RawShorter(s, p, value, i + 1, k, tag);
    }
  }

  /** The text before the first end tag is the value exactly when the value does not hold the tag. */
  lemma RawExactly(s: bytes, p: Ptr, value: bytes, tag: bytes)
    requires |tag| == 3 && tag[2] == GT && tag[0] != GT && tag[1] != GT && Occurs(s, p, value + tag)
    ensures RawText(s, p, tag).text == value <==> Without(value, tag)
    ensures Without(value, tag) ==> RawText(s, p, tag) == Read(value, p + |value|)
  {
    hide RawText;
    OccursSplit(s, p, value, tag);
    if Without(value, tag) {
      RawBack(s, p, value, 0, tag);
      assert value[0..] == value;
    } else {
      var k :| 0 <= k < |value| && TagAt(value, k, tag);
      RawShorter(s, p, value, 0, k, tag);
    }
  }

  lemma CommentIdentified(s: bytes, p: Ptr)
    requires Occurs(s, p, COMMENT_OPEN)
    ensures Live(s, p) && s[p] == LT && Identify(s, p) == CommentKind
  {
    assert s[p + 0] == COMMENT_OPEN[0] && s[p + 1] == COMMENT_OPEN[1];
    TagAtOccurs(s, p, COMMENT_OPEN);
    TagDiffersIgnoreCase(s, p, XML_OPEN, 1);
  }

  /** A printed comment is read back exactly when it does not hold its end. */
  lemma CommentBack(s: bytes, p: Ptr, value: bytes, error: Error)
    requires Occurs(s, p, COMMENT_OPEN + value + COMMENT_CLOSE)
    ensures Live(s, p) && s[p] == LT && Identify(s, p) == CommentKind
    ensures CommentAt(s, p, error).node == Comment(value) <==> Without(value, COMMENT_CLOSE)
    ensures Without(value, COMMENT_CLOSE) ==> CommentAt(s, p, error) == NodeRead(Comment(value), p + |value| + 7, error)
  {
    hide Identify, RawText, Occurs, Without;
    assert COMMENT_OPEN + value + COMMENT_CLOSE == COMMENT_OPEN + (value + COMMENT_CLOSE);
    OccursSplit(s, p, COMMENT_OPEN, value + COMMENT_CLOSE);
    OccursSplit(s, p + 4, value, COMMENT_CLOSE);
    CommentIdentified(s, p);
    TagAtOccurs(s, p, COMMENT_OPEN);
    GapOfNothing(s, p);
    SkipTo(s, p, p);
    RawExactly(s, p + 4, value, COMMENT_CLOSE);
    TagAtOccurs(s, p + 4 + |value|, COMMENT_CLOSE);
  }

  lemma CdataIdentified(s: bytes, p: Ptr)
    requires Occurs(s, p, CDATA_OPEN)
    ensures Live(s, p) && s[p] == LT && Identify(s, p) == CdataKind
  {
    assert s[p + 0] == CDATA_OPEN[0] && s[p + 1] == CDATA_OPEN[1] && s[p + 2] == CDATA_OPEN[2];
    TagAtOccurs(s, p, CDATA_OPEN);
    TagDiffersIgnoreCase(s, p, XML_OPEN, 1);
    TagDiffers(s, p, COMMENT_OPEN, 2);
  }

  /** A printed CDATA section is read back exactly when it does not hold its end. */
  lemma CdataBack(s: bytes, p: Ptr, value: bytes, error: Error)
    requires Occurs(s, p, CDATA_OPEN + value + CDATA_CLOSE)
    ensures Live(s, p) && s[p] == LT && Identify(s, p) == CdataKind
    ensures CdataAt(s, p, error).node == Text(value, true) <==> Without(value, CDATA_CLOSE)
    ensures var e := p + |value| + 12;
            Without(value, CDATA_CLOSE) ==>
              CdataAt(s, p, error) == NodeRead(Text(value, true), if e < |s| then e else NULL, error)
  {
    hide Identify, RawText, Without;
    assert CDATA_OPEN + value + CDATA_CLOSE == CDATA_OPEN + (value + CDATA_CLOSE);
    OccursSplit(s, p, CDATA_OPEN, value + CDATA_CLOSE);
    OccursSplit(s, p + 9, value, CDATA_CLOSE);
    CdataIdentified(s, p);
    TagAtOccurs(s, p, CDATA_OPEN);
    RawExactly(s, p + 9, value, CDATA_CLOSE);
    var q := p + 9 + |value|;
    TagAtOccurs(s, q, CDATA_CLOSE);
    assert KeepText(s, q, CDATA_CLOSE) == Read([], q);
  }

  lemma {:induction false} GreaterBack(s: bytes, p: Ptr, value: bytes, i: nat)
    requires i <= |value| && GT !in value && Occurs(s, p, value + [GT])
    ensures UntilGreater(s, p + i) == Read(value[i..], p + |value|)
    decreases |value| - i
  {
    assert (value + [GT])[i] == s[p + i];
    if i < |value| {
      assert value[i] in value;
      GreaterBack(s, p, value, i + 1);
    }
  }

  lemma UnknownBack(s: bytes, p: Ptr, value: bytes, error: Error)
    requires ValidUnknown(value) && Occurs(s, p, [LT] + value + [GT])
    ensures Live(s, p) && s[p] == LT && Identify(s, p) == UnknownKind && !TagAt(s, p, END_OPEN)
    ensures UnknownAt(s, p, error) == NodeRead(Unknown(value), p + |value| + 2, error)
  {
    var u := [LT] + value;
    OccursSplit(s, p, u, [GT]);
    assert u + [GT] == [LT] + (value + [GT]);
    OccursSplit(s, p, [LT], value + [GT]);
    OccursOne(s, p, LT);
    OccursOne(s, p + |u|, GT);
    SkipTo(s, p, p);
    GreaterBack(s, p + 1, value, 0);
    assert value[0..] == value;
    NotInside(s, p, u, COMMENT_OPEN);
    NotInside(s, p, u, CDATA_OPEN);
    NotInsideIgnoreCase(s, p, u, XML_OPEN);
    if value != [] {
      assert u[1] == s[p + 1] == value[0];
    }
    TagDiffers(s, p, END_OPEN, 1);
  }

  /** A tag without `>` that is not a prefix of u does not stand where u stands followed by `>`. */
  lemma NotInside(s: bytes, p: Ptr, u: bytes, tag: bytes)
    requires Occurs(s, p, u) && p + |u| < |s| && s[p + |u|] == GT && GT !in tag
    requires !TagAt(u, 0, tag)
    ensures !TagAt(s, p, tag)
  {
    if |tag| <= |u| {
      var k := FirstDifference(u[0..|tag|], tag);
      assert u[k] == s[p + k];
      TagDiffers(s, p, tag, k);
    } else {
      assert tag[|u|] in tag;
      TagDiffers(s, p, tag, |u|);
    }
  }

  lemma NotInsideIgnoreCase(s: bytes, p: Ptr, u: bytes, tag: bytes)
    requires Occurs(s, p, u) && p + |u| < |s| && s[p + |u|] == GT && GT !in tag
    requires !TagAtIgnoreCase(u, 0, tag)
    ensures !TagAtIgnoreCase(s, p, tag)
  {
    if |tag| <= |u| {
      var k :| 0 <= k < |tag| && ToLower(u[0 + k]) != ToLower(tag[k]);
      assert u[k] == s[p + k];
      TagDiffersIgnoreCase(s, p, tag, k);
    } else {
      assert tag[|u|] in tag;
      TagDiffersIgnoreCase(s, p, tag, |u|);
    }
  }

  // ------------------------------------------------------------------ declarations

  lemma {:induction false} RawKept(s: bytes, p: Ptr, value: bytes, i: nat)
    requires i <= |value| && AMP !in value && QUOTE !in value && Occurs(s, p, value)
    requires p + |value| < |s| && s[p + |value|] == QUOTE
    ensures KeepText(s, p + i, [QUOTE]) == Read(value[i..], p + |value|)
    decreases |value| - i
  {
    hide EntityAt, TagAt;
    if i == |value| {
      TagIsByte(s, p + i, QUOTE);
    } else {
      assert s[p + i] == value[i];
      assert value[i] in value;
      if TagAt(s, p + i, [QUOTE]) {
        TagAtFirst(s, p + i, [QUOTE]);
      }
      RawKept(s, p, value, i + 1);
      assert value[i..] == [value[i]] + value[i + 1..];
    }
  }

  /** The declaration with the field that the key names set. */
  function WithField(d: Node, key: bytes, value: bytes): Node
    requires d.Declaration?
  {
    if key == VERSION then d.(version := value)
    else if key == ENCODING then d.(encoding := value)
    else d.(standalone := value)
  }

  lemma KeyAt(s: bytes, p: Ptr, key: bytes)
    requires key == VERSION || key == ENCODING || key == STANDALONE
    requires Occurs(s, p, key)
    ensures TagAtIgnoreCase(s, p, key) && !IsWhiteSpace(s[p]) && s[p] != GT
    ensures key != VERSION ==> !TagAtIgnoreCase(s, p, VERSION)
    ensures key == STANDALONE ==> !TagAtIgnoreCase(s, p, ENCODING)
  {
    assert s[p + 0] == key[0];
    if key != VERSION {
      TagDiffersIgnoreCase(s, p, VERSION, 0);
    }
    if key == STANDALONE {
      TagDiffersIgnoreCase(s, p, ENCODING, 0);
    }
  }

  lemma KeyIsName(key: bytes)
    requires key == VERSION || key == ENCODING || key == STANDALONE
    ensures ValidName(key)
  {}

  lemma FieldIs(key: bytes, value: bytes)
    requires value != []
    ensures PrintField(key, value) == key + [EQ, QUOTE] + value + [QUOTE, SPACE]
  {}

  lemma FieldParts(s: bytes, p: Ptr, key: bytes, value: bytes)
    requires key != [] && value != [] && Occurs(s, p, PrintField(key, value))
    ensures var e := p + |key|;
            && 0 <= p && e + |value| + 4 <= |s| && |PrintField(key, value)| == |key| + |value| + 4
            && Occurs(s, p, key) && s[e] == EQ && s[e + 1] == QUOTE && Occurs(s, e + 2, value)
            && s[e + 2 + |value|] == QUOTE && s[e + 3 + |value|] == SPACE
  {
    hide Occurs, PrintField;
    var e := p + |key|;
    var q0, q1: bytes := [EQ, QUOTE], [QUOTE, SPACE];
    FieldIs(key, value);
    OccursSplit(s, p, key + q0 + value, q1);
    OccursSplit3(s, p, key, q0, value);
    FirstByte(s, p, key);
    OccursTwo(s, e, EQ, QUOTE);
    OccursTwo(s, e + 2 + |value|, QUOTE, SPACE);
  }

  /** The declaration loop takes up a printed field, if there is one, and stops on the space after it. */
  lemma FieldBack(s: bytes, p: Ptr, key: bytes, value: bytes, d: Node, error: Error)
    requires key == VERSION || key == ENCODING || key == STANDALONE
    requires d.Declaration? && ValidField(value)
    requires 0 <= p && p + 1 + |PrintField(key, value)| < |s|
    requires s[p] == SPACE && Occurs(s, p + 1, PrintField(key, value))
    ensures s[p + |PrintField(key, value)|] == SPACE
    ensures value != [] ==> (DeclarationFrom(s, p, d, error)
                             == DeclarationFrom(s, p + |PrintField(key, value)|, WithField(d, key, value), error))
  {
    hide AttributeAt, TextAt, Occurs, TagAtIgnoreCase, SkipWhite, WithField, DeclarationFrom, DeclarationItem,
         PrintField;
    if value != [] {
      FieldParts(s, p + 1, key, value);
      var e := p + 1 + |key|;
      KeyAt(s, p + 1, key);
      KeyIsName(key);
      FieldText(s, e + 2, value);
      QuotedAttribute(s, p + 1, key, value, e + 3 + |value|, false, NoError);
      SkipTo(s, p, p + 1);
      FieldItem(s, p + 1, key, value, e + 3 + |value|, d);
      DeclarationStep(s, p, d, error);
    } else {
      NoField(key);
    }
  }

  lemma NoField(key: bytes)
    ensures PrintField(key, []) == []
  {}

  lemma DeclarationStep(s: bytes, p: Ptr, d: Node, error: Error)
    requires d.Declaration? && Live(s, p) && s[p] == SPACE
    ensures var item := DeclarationItem(s, SkipWhite(s, p), d);
            DeclarationFrom(s, p, d, error) == DeclarationFrom(s, item.1, item.0, error)
  {
    hide DeclarationItem;
  }

  lemma FieldItem(s: bytes, p: Ptr, key: bytes, value: bytes, next: Ptr, d: Node)
    requires key == VERSION || key == ENCODING || key == STANDALONE
    requires d.Declaration? && 0 <= p <= |s| && TagAtIgnoreCase(s, p, key)
    requires key != VERSION ==> !TagAtIgnoreCase(s, p, VERSION)
    requires key == STANDALONE ==> !TagAtIgnoreCase(s, p, ENCODING)
    requires AttributeAt(s, p, false, NoError) == AttributeRead(Attribute(key, value), next, NoError)
    ensures DeclarationItem(s, p, d) == (WithField(d, key, value), next)
  {
    hide AttributeAt, TagAtIgnoreCase;
  }

  lemma FieldText(s: bytes, p: Ptr, value: bytes)
    requires ValidField(value) && Occurs(s, p, value)
    requires p + |value| + 1 < |s| && s[p + |value|] == QUOTE
    ensures TextAt(s, p, false, [QUOTE]) == Read(value, p + |value| + 1)
  {
    RawKept(s, p, value, 0);
    assert value[0..] == value;
  }

  lemma DeclarationClose(s: bytes, p: Ptr, d: Node, error: Error)
    requires d.Declaration? && 0 <= p && p + 2 < |s|
    requires s[p] == SPACE && s[p + 1] == '?' as int && s[p + 2] == GT
    ensures DeclarationFrom(s, p, d, error) == NodeRead(d, p + 3, error)
  {
    hide AttributeAt;
    assert Gap(s, p, p + 1);
    SkipTo(s, p, p + 1);
    NoKey(s, p + 1, VERSION);
    NoKey(s, p + 1, ENCODING);
    NoKey(s, p + 1, STANDALONE);
    assert PassWord(s, p + 2) == p + 2;
    assert DeclarationItem(s, p + 1, d) == (d, p + 2);
  }

  lemma NoKey(s: bytes, p: Ptr, key: bytes)
    requires Live(s, p) && s[p] == '?' as int && key != [] && IsLetter(key[0])
    ensures !TagAtIgnoreCase(s, p, key)
  {
    TagDiffersIgnoreCase(s, p, key, 0);
  }

  /** Where the fields of a printed declaration stand. */
  lemma DeclarationParts(s: bytes, q: Ptr, d: Node)
    requires d.Declaration? && Occurs(s, q, PrintDeclaration(d.version, d.encoding, d.standalone))
    ensures var v, e, a := PrintField(VERSION, d.version), PrintField(ENCODING, d.encoding), PrintField(STANDALONE, d.standalone);
            && Occurs(s, q, XML_OPEN) && q + |v| + |e| + |a| + 8 <= |s| && s[q + 5] == SPACE
            && |PrintDeclaration(d.version, d.encoding, d.standalone)| == |v| + |e| + |a| + 8
            && Occurs(s, q + 6, v) && Occurs(s, q + 6 + |v|, e) && Occurs(s, q + 6 + |v| + |e|, a)
            && s[q + 6 + |v| + |e| + |a|] == '?' as int && s[q + 7 + |v| + |e| + |a|] == GT
  {
    hide PrintField;
    var v, e, a := PrintField(VERSION, d.version), PrintField(ENCODING, d.encoding), PrintField(STANDALONE, d.standalone);
    var close: bytes := ['?' as int, GT];
    OccursSplit(s, q, XML_OPEN + [SPACE] + v + e + a, close);
    OccursSplit(s, q, XML_OPEN + [SPACE] + v + e, a);
    OccursSplit(s, q, XML_OPEN + [SPACE] + v, e);
    OccursSplit3(s, q, XML_OPEN, [SPACE], v);
    OccursOne(s, q + 5, SPACE);
    OccursTwo(s, q + 6 + |v| + |e| + |a|, '?' as int, GT);
  }

  /** As FieldBack, for a declaration whose field is still empty. */
  lemma OneField(s: bytes, p: Ptr, key: bytes, value: bytes, d: Node, error: Error)
    requires key == VERSION || key == ENCODING || key == STANDALONE
    requires d.Declaration? && ValidField(value) && WithField(d, key, []) == d
    requires 0 <= p && p + 1 + |PrintField(key, value)| < |s|
    requires s[p] == SPACE && Occurs(s, p + 1, PrintField(key, value))
    ensures s[p + |PrintField(key, value)|] == SPACE
    ensures DeclarationFrom(s, p, d, error)
         == DeclarationFrom(s, p + |PrintField(key, value)|, WithField(d, key, value), error)
  {
    hide DeclarationFrom, Occurs, ValidField, PrintField;
    FieldBack(s, p, key, value, d, error);
    if value == [] {
      NoField(key);
    }
  }

  lemma DeclarationFields(s: bytes, p: Ptr, d: Node, error: Error)
    requires d.Declaration? && ValidField(d.version) && ValidField(d.encoding) && ValidField(d.standalone)
    requires var v, e, a := PrintField(VERSION, d.version), PrintField(ENCODING, d.encoding), PrintField(STANDALONE, d.standalone);
             && 0 <= p && p + |v| + |e| + |a| + 2 < |s| && s[p] == SPACE
             && Occurs(s, p + 1, v) && Occurs(s, p + 1 + |v|, e) && Occurs(s, p + 1 + |v| + |e|, a)
             && s[p + 1 + |v| + |e| + |a|] == '?' as int && s[p + 2 + |v| + |e| + |a|] == GT
    ensures var v, e, a := PrintField(VERSION, d.version), PrintField(ENCODING, d.encoding), PrintField(STANDALONE, d.standalone);
            DeclarationFrom(s, p, Declaration([], [], []), error) == NodeRead(d, p + |v| + |e| + |a| + 3, error)
  {
    hide DeclarationFrom, Occurs, ValidField, PrintField;
    var v, e, a := |PrintField(VERSION, d.version)|, |PrintField(ENCODING, d.encoding)|, |PrintField(STANDALONE, d.standalone)|;
    var d0 := Declaration([], [], []);
    var d1 := d0.(version := d.version);
    var d2 := d1.(encoding := d.encoding);
    OneField(s, p, VERSION, d.version, d0, error);
    OneField(s, p + v, ENCODING, d.encoding, d1, error);
    OneField(s, p + v + e, STANDALONE, d.standalone, d2, error);
    DeclarationClose(s, p + v + e + a, d, error);
    assert d2.(standalone := d.standalone) == d;
  }

  lemma DeclarationNode(s: bytes, q: Ptr, d: Node, condense: bool, error: Error)
    requires d.Declaration? && ValidField(d.version) && ValidField(d.encoding) && ValidField(d.standalone)
    requires Occurs(s, q, PrintDeclaration(d.version, d.encoding, d.standalone))
    ensures Live(s, q) && s[q] == LT && !TagAt(s, q, END_OPEN)
    ensures NodeAt(s, q, condense, error)
         == NodeRead(d, q + |PrintDeclaration(d.version, d.encoding, d.standalone)|, error)
  {
    hide DeclarationFrom, PrintField, PrintDeclaration, ValidField, CommentAt, CdataAt, UnknownAt, ElementAt;
    DeclarationParts(s, q, d);
    assert s[q + 0] == XML_OPEN[0] && s[q + 1] == XML_OPEN[1];
    assert TagAtIgnoreCase(s, q, XML_OPEN);
    TagDiffers(s, q, END_OPEN, 1);
    GapOfNothing(s, q);
    SkipTo(s, q, q);
    DeclarationFields(s, q + 5, d, error);
  }

  // ------------------------------------------------------------------ plain text

  lemma GapOf(s: bytes, p: Ptr, w: bytes)
    requires Occurs(s, p, w) && AllWhite(w)
    ensures Gap(s, p, p + |w|)
  {
    forall i | p <= i < p + |w|
      ensures IsWhiteSpace(s[i])
    {
      assert w[i - p] == s[p + (i - p)];
    }
  }

  lemma GapJoin(s: bytes, p: Ptr, q: Ptr, r: Ptr)
    requires Gap(s, p, q) && Gap(s, q, r)
    ensures Gap(s, p, r)
  {}

  lemma TagIsByte(s: bytes, p: Ptr, c: byte)
    requires Live(s, p) && s[p] == c
    ensures TagAt(s, p, [c])
  {}

  /** A printed text child, white space condensed: it comes back collapsed, and reading stops at the tag that follows. */
  lemma CondensedText(s: bytes, p: Ptr, q: Ptr, e: Ptr, value: bytes)
    requires Gap(s, p, q) && ValidText(value) && Occurs(s, q, Encode(value))
    requires Gap(s, q + |Encode(value)|, e) && 0 <= e && e + 1 < |s| && s[e] == LT
    ensures var b := SkipWhite(s, p);
            Live(s, p) && Live(s, b) && s[b] != LT && PlainTextAt(s, b, true) == Read(Collapse(value), e)
  {
    hide TextAt, Collapse, EncodeFrom, CharAt, EncodeChar, Blank;
    TagIsByte(s, e, LT);
    var n := SkipEncodedSpaces(s, q, value, 0, e);
    NotAllSpaces(value, n);
    EncodedStep(s, q + n, value, n);
    ReadEncodedChar(s, q + n, value[n]);
    SkipsTogether(s, p, q);
    GapOfNothing(s, q + n);
    SkipTo(s, q + n, q + n);
    TrimmedReadUndoesEncode(s, q, value, e, [LT]);
    SkipTwice(s, q, q + n, [LT]);
    CollapseNotBlank(value);
  }

  /** A text that is more than white space has a first byte that is no space, and so has the collapsed text. */
  lemma NotAllSpaces(value: bytes, n: nat)
    requires !Blank(value) && n <= |value| && forall k :: 0 <= k < n ==> value[k] == SPACE
    ensures n < |value|
  {}

  lemma CollapseNotBlank(value: bytes)
    requires !Blank(value)
    ensures !Blank(Collapse(value))
  {
    hide Collapse;
    var i :| 0 <= i < |value| && !IsWhiteSpace(value[i]);
    CollapseKeeps(value, value[i]);
  }

  lemma SkipTwice(s: bytes, p: Ptr, q: Ptr, tag: bytes)
    requires Live(s, p) && Live(s, q) && SkipRun(s, p) == q && SkipRun(s, q) == q
    ensures TextAt(s, p, true, tag) == TextAt(s, q, true, tag)
  {
    hide TrimText;
  }

  lemma FirstEncoded(s: bytes, q: Ptr, value: bytes)
    requires value != [] && NoHexRef(value) && Occurs(s, q, Encode(value))
    ensures Live(s, q) && s[q] != LT && (value[0] != SPACE ==> !IsWhiteSpace(s[q]))
  {
    hide EncodeFrom, EncodeChar, CharAt;
    EncodedStep(s, q, value, 0);
    ReadEncodedChar(s, q, value[0]);
  }

  /** A printed text child, white space kept: any spaces it holds come back as well. */
  lemma KeptText(s: bytes, p: Ptr, value: bytes)
    requires ValidText(value) && Occurs(s, p, Encode(value))
    requires var e := p + |Encode(value)|; e + 1 < |s| && s[e] == LT
    ensures Live(s, SkipWhite(s, p)) && s[SkipWhite(s, p)] != LT && Live(s, p)
    ensures PlainTextAt(s, p, false) == Read(value, p + |Encode(value)|)
  {
    hide TextAt, EncodeFrom, CharAt, EncodeChar;
    var e := p + |Encode(value)|;
    TagIsByte(s, e, LT);
    KeptReadUndoesEncode(s, p, value, [LT]);
    GapOfNothing(s, e);
    var n := SkipEncodedSpaces(s, p, value, 0, e);
    assert n < |value|;
    EncodedStep(s, p + n, value, n);
    ReadEncodedChar(s, p + n, value[n]);
  }

  lemma TextChild(s: bytes, p: Ptr, q: Ptr, e: Ptr, value: bytes, done: seq<Node>, condense: bool, error: Error)
    requires Gap(s, p, q) && ValidText(value) && Occurs(s, q, Encode(value))
    requires Gap(s, q + |Encode(value)|, e) && 0 <= e && e + 1 < |s| && s[e] == LT
    requires !condense ==> p == q && e == q + |Encode(value)|
    ensures ValueAt(s, p, done, condense, error)
         == ValueAt(s, e, done + [Normal(Text(value, false), condense)], condense, error)
  {
    hide PlainTextAt, Encode, SkipWhite, NodeAt, NoHexRef, Blank, Collapse;
    if condense {
      CondensedText(s, p, q, e, value);
      CollapseNotBlank(value);
    } else {
      KeptText(s, p, value);
    }
  }

  lemma SkipNull(s: bytes, p: Ptr)
    requires 0 <= p <= |s|
    ensures SkipWhite(s, p) != NULL <==> Live(s, p)
  {}

  // ------------------------------------------------------------------ children, and the tag that follows them

  /** What follows the line break after a child: its later siblings, the closing indentation, the end tag. */
  function Follow(nodes: seq<Node>, depth: nat, indent: bytes, lineBreak: bytes): bytes
    requires depth > 0
  {
    PrintNodes(nodes, depth, indent, lineBreak) + Repeat(indent, depth - 1) + END_OPEN
  }

  /** Follow without its leading indentation. */
  function Tail(nodes: seq<Node>, depth: nat, indent: bytes, lineBreak: bytes): bytes
    requires depth > 0
  {
    if nodes == [] then END_OPEN
    else PrintBody(nodes[0], depth, indent, lineBreak) + lineBreak + Follow(nodes[1..], depth, indent, lineBreak)
  }

  function PadOf(nodes: seq<Node>, depth: nat, indent: bytes): bytes
    requires depth > 0
  {
    Repeat(indent, if nodes == [] then depth - 1 else depth)
  }

  lemma FollowIsTail(nodes: seq<Node>, depth: nat, indent: bytes, lineBreak: bytes)
    requires depth > 0
    ensures Follow(nodes, depth, indent, lineBreak) == PadOf(nodes, depth, indent) + Tail(nodes, depth, indent, lineBreak)
  {
    hide PrintBody, Repeat;
    var close := Repeat(indent, depth - 1) + END_OPEN;
    if nodes == [] {
      assert [] + Repeat(indent, depth - 1) + END_OPEN == close;
    } else {
      var pad, body := Repeat(indent, depth), PrintBody(nodes[0], depth, indent, lineBreak);
      var rest := PrintNodes(nodes[1..], depth, indent, lineBreak);
      NodePieces(nodes[0], depth, indent, lineBreak);
      assert PrintNodes(nodes, depth, indent, lineBreak) == (pad + body + lineBreak) + rest;
      assert Follow(nodes[1..], depth, indent, lineBreak) == rest + Repeat(indent, depth - 1) + END_OPEN;
      assert (pad + body + lineBreak) + rest + Repeat(indent, depth - 1) + END_OPEN
          == pad + (body + lineBreak + (rest + Repeat(indent, depth - 1) + END_OPEN));
    }
  }

  lemma {:induction false} RepeatWhite(piece: bytes, n: nat)
    requires AllWhite(piece)
    ensures AllWhite(Repeat(piece, n))
    ensures piece == [] ==> Repeat(piece, n) == []
  {
    if n > 0 {
      RepeatWhite(piece, n - 1);
      AllWhiteConcat(Repeat(piece, n - 1), piece);
    }
  }

  /** From a point where Follow stands, white space leads to where Tail stands. */
  lemma FindTail(s: bytes, p: Ptr, nodes: seq<Node>, depth: nat, indent: bytes, lineBreak: bytes) returns (q: Ptr)
    requires depth > 0 && AllWhite(indent)
    requires Occurs(s, p, Follow(nodes, depth, indent, lineBreak))
    ensures Gap(s, p, q) && Occurs(s, q, Tail(nodes, depth, indent, lineBreak))
    ensures q + |Tail(nodes, depth, indent, lineBreak)| == p + |Follow(nodes, depth, indent, lineBreak)|
    ensures indent == [] ==> q == p
  {
    hide Follow, Tail;
    FollowIsTail(nodes, depth, indent, lineBreak);
    var pad := PadOf(nodes, depth, indent);
    RepeatWhite(indent, if nodes == [] then depth - 1 else depth);
    OccursSplit(s, p, pad, Tail(nodes, depth, indent, lineBreak));
    GapOf(s, p, pad);
    q := p + |pad|;
  }

  /** A tail starts with `<`, unless a plain text comes first. */
  lemma TailStart(s: bytes, q: Ptr, nodes: seq<Node>, depth: nat, indent: bytes, lineBreak: bytes)
    requires depth > 0 && Occurs(s, q, Tail(nodes, depth, indent, lineBreak))
    requires nodes != [] ==> !IsPlainText(nodes[0])
    ensures q + 1 < |s| && s[q] == LT
  {
    if nodes == [] {
      OccursTwo(s, q, LT, SLASH);
    } else {
      var rest := Follow(nodes[1..], depth, indent, lineBreak);
      var body := PrintBody(nodes[0], depth, indent, lineBreak);
      assert |rest| >= 2;
      OccursSplit3(s, q, body, lineBreak, rest);
      BodyStart(nodes[0], depth, indent, lineBreak);
      assert body[0] == s[q + 0];
    }
  }

  lemma BodyStart(node: Node, depth: nat, indent: bytes, lineBreak: bytes)
    requires !IsPlainText(node)
    ensures var body := PrintBody(node, depth, indent, lineBreak); body != [] && body[0] == LT
  {}

  lemma TailIs(nodes: seq<Node>, depth: nat, indent: bytes, lineBreak: bytes)
    requires depth > 0 && nodes != []
    ensures var rest := Follow(nodes[1..], depth, indent, lineBreak);
            && Tail(nodes, depth, indent, lineBreak) == PrintBody(nodes[0], depth, indent, lineBreak) + lineBreak + rest
            && |rest| >= 2
  {
    hide PrintBody, PrintNodes, Repeat;
  }

  /** The first child of a tail, and where the tail of its siblings starts. */
  lemma FirstChild(s: bytes, q: Ptr, nodes: seq<Node>, depth: nat, indent: bytes, lineBreak: bytes) returns (next: Ptr)
    requires depth > 0 && nodes != [] && AllWhite(indent) && AllWhite(lineBreak)
    requires Occurs(s, q, Tail(nodes, depth, indent, lineBreak))
    ensures var body := PrintBody(nodes[0], depth, indent, lineBreak);
            && Occurs(s, q, body) && Gap(s, q + |body|, next) && q + |body| < |s|
            && (indent == [] && lineBreak == [] ==> next == q + |body|)
    ensures Occurs(s, next, Tail(nodes[1..], depth, indent, lineBreak))
    ensures next + |Tail(nodes[1..], depth, indent, lineBreak)| == q + |Tail(nodes, depth, indent, lineBreak)|
  {
    hide PrintBody, Occurs, Follow, Tail;
    var body, rest := PrintBody(nodes[0], depth, indent, lineBreak), Follow(nodes[1..], depth, indent, lineBreak);
    TailIs(nodes, depth, indent, lineBreak);
    OccursSplit3(s, q, body, lineBreak, rest);
    GapOf(s, q + |body|, lineBreak);
    next := FindTail(s, q + |body| + |lineBreak|, nodes[1..], depth, indent, lineBreak);
    GapJoin(s, q + |body|, q + |body| + |lineBreak|, next);
  }

  lemma LaterChildren(nodes: seq<Node>, condense: bool)
    requires nodes != [] && ValidChildren(nodes)
    ensures ValidNode(nodes[0]) && ValidChildren(nodes[1..])
    ensures IsPlainText(nodes[0]) && nodes[1..] != [] ==> !IsPlainText(nodes[1])
  {
    hide ValidText, ValidName, ValidAttributes, ValidUnknown, Without, ValidField;
    var later := nodes[1..];
    forall i | 0 < i < |later|
      ensures !IsPlainText(later[i - 1]) || !IsPlainText(later[i])
    {
      assert !IsPlainText(nodes[i]) || !IsPlainText(nodes[i + 1]);
    }
    if later != [] {
      assert !IsPlainText(nodes[1 - 1]) || !IsPlainText(nodes[1]);
    }
  }

  lemma NoChildren(s: bytes, p: Ptr, q: Ptr, done: seq<Node>, condense: bool, error: Error)
    requires Gap(s, p, q) && Occurs(s, q, END_OPEN)
    ensures ValueAt(s, p, done, condense, error) == ValueRead(done, q, error)
  {
    hide PlainTextAt, NodeAt;
    OccursTwo(s, q, LT, SLASH);
    TagAtOccurs(s, q, END_OPEN);
    SkipTo(s, p, q);
  }

  lemma ChildIsNode(s: bytes, p: Ptr, q: Ptr, done: seq<Node>, n: Node, e: Ptr, condense: bool, error: Error)
    requires Gap(s, p, q) && Live(s, q) && s[q] == LT && !TagAt(s, q, END_OPEN)
    requires NodeAt(s, q, condense, error) == NodeRead(n, e, error)
    ensures ValueAt(s, p, done, condense, error) == ValueAt(s, e, done + [n], condense, error)
  {
    hide PlainTextAt, NodeAt;
    SkipTo(s, p, q);
  }

  lemma ChildIsText(s: bytes, p: Ptr, q: Ptr, next: Ptr, done: seq<Node>, nodes: seq<Node>, depth: nat,
                    indent: bytes, lineBreak: bytes, condense: bool, error: Error)
    requires depth > 0 && nodes != [] && IsPlainText(nodes[0])
    requires ValidNode(nodes[0]) && (nodes[1..] != [] ==> !IsPlainText(nodes[1]))
    requires Gap(s, p, q) && Occurs(s, q, PrintBody(nodes[0], depth, indent, lineBreak))
    requires Gap(s, q + |PrintBody(nodes[0], depth, indent, lineBreak)|, next) && 0 <= next
    requires !condense ==> p == q && next == q + |PrintBody(nodes[0], depth, indent, lineBreak)|
    requires Occurs(s, next, Tail(nodes[1..], depth, indent, lineBreak))
    ensures ValueAt(s, p, done, condense, error) == ValueAt(s, next, done + [Normal(nodes[0], condense)], condense, error)
  {
    hide ValueAt, Tail, Encode, ValidText;
    TailStart(s, next, nodes[1..], depth, indent, lineBreak);
    TextChild(s, p, q, next, nodes[0].value, done, condense, error);
  }

  lemma TailOfNothing(depth: nat, indent: bytes, lineBreak: bytes)
    requires depth > 0
    ensures Tail([], depth, indent, lineBreak) == END_OPEN
  {}

  lemma LayoutIs(indent: bytes, lineBreak: bytes, condense: bool)
    requires ValidLayout(indent, lineBreak, condense)
    ensures AllWhite(indent) && AllWhite(lineBreak) && (!condense ==> indent == [] && lineBreak == [])
  {}

  /** Reading the children of an element from where they were printed. */
  lemma {:induction false} ChildrenBack(s: bytes, p: Ptr, q: Ptr, done: seq<Node>, nodes: seq<Node>, depth: nat,
                                        indent: bytes, lineBreak: bytes, condense: bool, error: Error)
    requires depth > 0 && ValidLayout(indent, lineBreak, condense) && ValidChildren(nodes)
    requires Gap(s, p, q) && (!condense ==> p == q)
    requires Occurs(s, q, Tail(nodes, depth, indent, lineBreak))
    ensures ValueAt(s, p, done, condense, error)
         == ValueRead(done + NormalAll(nodes, condense), q + |Tail(nodes, depth, indent, lineBreak)| - 2, error)
    decreases nodes, 0
  {
    hide Normal, ValueAt, Tail, PrintBody, ValidNode, NodeAt, Occurs, ValidLayout;
    if nodes == [] {
      TailOfNothing(depth, indent, lineBreak);
      NoChildren(s, p, q, done, condense, error);
      assert done + NormalAll(nodes, condense) == done;
    } else {
      var n, later := nodes[0], nodes[1..];
      var body := PrintBody(n, depth, indent, lineBreak);
      LayoutIs(indent, lineBreak, condense);
      var next := FirstChild(s, q, nodes, depth, indent, lineBreak);
      LaterChildren(nodes, condense);
      var m := Normal(n, condense);
      assert done + [m] + NormalAll(later, condense) == done + NormalAll(nodes, condense);
      if IsPlainText(n) {
        ChildIsText(s, p, q, next, done, nodes, depth, indent, lineBreak, condense, error);
        GapOfNothing(s, next);
        ChildrenBack(s, next, next, done + [m], later, depth, indent, lineBreak, condense, error);
      } else {
        NodeBack(s, q, n, depth, indent, lineBreak, condense, error);
        ChildIsNode(s, p, q, done, m, q + |body|, condense, error);
        ChildrenBack(s, q + |body|, next, done + [m], later, depth, indent, lineBreak, condense, error);
      }
    }
  }

  // ------------------------------------------------------------------ nodes

  /** Where a node parser stops: a CDATA section at the very end of the buffer reports no position. */
  function StopOf(s: bytes, node: Node, e: Ptr): Ptr {
    if node.Text? && e >= |s| then NULL else e
  }

  /** Reading a node from where it was printed. */
  lemma {:induction false} NodeBack(s: bytes, q: Ptr, node: Node, depth: nat, indent: bytes, lineBreak: bytes,
                                    condense: bool, error: Error)
    requires ValidLayout(indent, lineBreak, condense) && ValidNode(node) && !IsPlainText(node)
    requires Occurs(s, q, PrintBody(node, depth, indent, lineBreak))
    ensures Live(s, q) && s[q] == LT && !TagAt(s, q, END_OPEN)
    ensures NodeAt(s, q, condense, error)
         == NodeRead(Normal(node, condense), StopOf(s, node, q + |PrintBody(node, depth, indent, lineBreak)|), error)
    decreases node, 2
  {
    hide NodeAt, PrintBody, ValidNode, Occurs;
    if node.Element? {
      ElementBack(s, q, node, depth, indent, lineBreak, condense, error);
    } else {
      LeafBack(s, q, node, depth, indent, lineBreak, condense, error);
    }
  }

  lemma LeafBack(s: bytes, q: Ptr, node: Node, depth: nat, indent: bytes, lineBreak: bytes, condense: bool, error: Error)
    requires ValidNode(node) && !IsPlainText(node) && !node.Element?
    requires Occurs(s, q, PrintBody(node, depth, indent, lineBreak))
    ensures Live(s, q) && s[q] == LT && !TagAt(s, q, END_OPEN)
    ensures NodeAt(s, q, condense, error)
         == NodeRead(Normal(node, condense), StopOf(s, node, q + |PrintBody(node, depth, indent, lineBreak)|), error)
  {
    hide NodeAt, PrintNodes, Encode, OpenTag, EndTag, Repeat, Occurs, TagAt, Without, ValidUnknown, PrintDeclaration,
         ValidField;
    match node
    case Text(value, cdata) => CdataNode(s, q, value, condense, error);
    case Comment(value) => CommentNode(s, q, value, condense, error);
    case Unknown(value) => UnknownNode(s, q, value, condense, error);
    case Declaration(version, encoding, standalone) => DeclarationNode(s, q, node, condense, error);
  }

  lemma CdataNode(s: bytes, q: Ptr, value: bytes, condense: bool, error: Error)
    requires 0 !in value && Without(value, CDATA_CLOSE)
    requires Occurs(s, q, CDATA_OPEN + CStr(value) + CDATA_CLOSE)
    ensures Live(s, q) && s[q] == LT && !TagAt(s, q, END_OPEN)
    ensures NodeAt(s, q, condense, error)
         == NodeRead(Text(value, true), StopOf(s, Text(value, true), q + |CDATA_OPEN + CStr(value) + CDATA_CLOSE|), error)
  {
    hide CdataAt, Identify, Without;
    CStrOfNulFree(value);
    CdataBack(s, q, value, error);
    NotEnd(s, q, CDATA_OPEN + value + CDATA_CLOSE);
  }

  lemma CommentNode(s: bytes, q: Ptr, value: bytes, condense: bool, error: Error)
    requires 0 !in value && Without(value, COMMENT_CLOSE)
    requires Occurs(s, q, COMMENT_OPEN + CStr(value) + COMMENT_CLOSE)
    ensures Live(s, q) && s[q] == LT && !TagAt(s, q, END_OPEN)
    ensures NodeAt(s, q, condense, error)
         == NodeRead(Comment(value), q + |COMMENT_OPEN + CStr(value) + COMMENT_CLOSE|, error)
  {
    hide CommentAt, Identify, Without;
    CStrOfNulFree(value);
    CommentBack(s, q, value, error);
    NotEnd(s, q, COMMENT_OPEN + value + COMMENT_CLOSE);
  }

  lemma UnknownNode(s: bytes, q: Ptr, value: bytes, condense: bool, error: Error)
    requires ValidUnknown(value) && Occurs(s, q, [LT] + CStr(value) + [GT])
    ensures Live(s, q) && s[q] == LT && !TagAt(s, q, END_OPEN)
    ensures NodeAt(s, q, condense, error) == NodeRead(Unknown(value), q + |[LT] + CStr(value) + [GT]|, error)
  {
    hide UnknownAt, Identify, ValidUnknown;
    UnknownIsNulFree(value);
    CStrOfNulFree(value);
    UnknownBack(s, q, value, error);
  }

  lemma UnknownIsNulFree(value: bytes)
    requires ValidUnknown(value)
    ensures 0 !in value
  {}

  lemma NotEnd(s: bytes, q: Ptr, x: bytes)
    requires Occurs(s, q, x) && |x| > 1 && x[1] != SLASH
    ensures !TagAt(s, q, END_OPEN)
  {
    assert x[1] == s[q + 1];
    if q + |END_OPEN| <= |s| {
      TagDiffers(s, q, END_OPEN, 1);
    }
  }

  // ------------------------------------------------------------------ elements

  lemma ElementIdentified(s: bytes, q: Ptr)
    requires q >= 0 && q + 1 < |s| && s[q] == LT && IsNameStart(s[q + 1])
    ensures Identify(s, q) == ElementKind && !TagAt(s, q, END_OPEN)
  {
    TagDiffersIgnoreCase(s, q, XML_OPEN, 1);
    TagDiffers(s, q, COMMENT_OPEN, 1);
    TagDiffers(s, q, CDATA_OPEN, 1);
    TagDiffers(s, q, DTD_OPEN, 1);
    TagDiffers(s, q, END_OPEN, 1);
  }

  /** Up to the end of its attributes, a printed element reads back. */
  lemma OpenBack(s: bytes, q: Ptr, name: bytes, attributes: seq<Attribute>, condense: bool, error: Error)
    requires ValidName(name) && ValidAttributes(attributes) && Occurs(s, q, OpenTag(name, attributes))
    requires var a := q + |OpenTag(name, attributes)|; a < |s| && (s[a] == SPACE || s[a] == GT)
    ensures Live(s, q) && s[q] == LT && !TagAt(s, q, END_OPEN)
    ensures NodeAt(s, q, condense, error)
         == ElementFrom(s, q + |OpenTag(name, attributes)|, name, attributes, condense, error)
  {
    hide PrintAttributes, ElementFrom, Identify, NameAt, Walked, OpenTag, Occurs, ValidName;
    OpenParts(s, q, name, attributes);
    ElementIdentified(s, q);
    var a := q + 1 + |name|;
    NameBack(s, q + 1, name);
    SkipTo(s, q, q);
    SkipTo(s, q + 1, q + 1);
    assert [] + attributes == attributes;
    AttributesBack(s, a, name, [], attributes, condense, error);
  }

  lemma OpenParts(s: bytes, q: Ptr, name: bytes, attributes: seq<Attribute>)
    requires ValidName(name) && ValidAttributes(attributes) && Occurs(s, q, OpenTag(name, attributes))
    requires var a := q + |OpenTag(name, attributes)|; a < |s| && (s[a] == SPACE || s[a] == GT)
    ensures var a := q + 1 + |name|;
            && Live(s, q) && s[q] == LT && Occurs(s, q + 1, name) && Occurs(s, a, PrintAttributes(attributes))
            && a + |PrintAttributes(attributes)| == q + |OpenTag(name, attributes)|
            && Live(s, q + 1) && IsNameStart(s[q + 1]) && Live(s, a) && !IsNameChar(s[a])
  {
    hide PrintAttribute, CStr, Encode, EncodeFrom, Walked;
    NameIsPlain(name);
    AllWalked(attributes);
    var printed, a := PrintAttributes(attributes), q + 1 + |name|;
    OccursSplit3(s, q, [LT], name, printed);
    OccursOne(s, q, LT);
    assert s[q + 1 + 0] == name[0];
    if attributes != [] {
      OccursSplit(s, a, PrintAttribute(attributes[0]), PrintAttributes(attributes[1..]));
      AttributeStart(s, a, attributes[0]);
    }
  }

  /** No named attribute ends the walk. */
  lemma AllWalked(attributes: seq<Attribute>)
    requires forall i :: 0 <= i < |attributes| ==> ValidName(attributes[i].name)
    ensures Walked(attributes) == attributes
  {
    WalkIsComplete(attributes);
  }

  lemma AttributeStart(s: bytes, p: Ptr, a: Attribute)
    requires Occurs(s, p, PrintAttribute(a))
    ensures Live(s, p) && s[p] == SPACE
  {
    hide Encode;
    assert PrintAttribute(a)[0] == s[p + 0];
  }

  lemma EndBack(s: bytes, p: Ptr, e: Node, error: Error)
    requires e.Element? && ValidName(e.name) && Occurs(s, p, EndTag(e.name))
    ensures ElementEnd(s, p, e, error) == NodeRead(e, p + |EndTag(e.name)|, error)
  {
    hide CStr;
    NameIsPlain(e.name);
    OccursSplit(s, p, END_OPEN + e.name, [GT]);
    OccursOne(s, p + 2 + |e.name|, GT);
    TagAtOccurs(s, p, END_OPEN + e.name);
    SkipTo(s, p + 2 + |e.name|, p + 2 + |e.name|);
  }

  lemma EndStart(s: bytes, p: Ptr, name: bytes)
    requires Occurs(s, p, EndTag(name))
    ensures Occurs(s, p, END_OPEN) && p + 2 < |s| && s[p] == LT
  {
    hide CStr;
    assert EndTag(name) == END_OPEN + (CStr(name) + [GT]);
    OccursSplit(s, p, END_OPEN, CStr(name) + [GT]);
    OccursTwo(s, p, LT, SLASH);
  }

  /** The text of a simple element. */
  lemma SimpleContent(s: bytes, p: Ptr, e: Node, condense: bool, error: Error)
    requires e.Element? && ValidNode(e) && IsSimple(e.children)
    requires Occurs(s, p, Encode(e.children[0].value) + EndTag(e.name))
    ensures ElementContent(s, p, e.(children := []), condense, error)
         == NodeRead(Normal(e, condense), p + |Encode(e.children[0].value) + EndTag(e.name)|, error)
  {
    hide Encode, EndTag, ValueAt, ElementEnd, ValidText, ValidAttributes, ValidName;
    var child := e.children[0];
    assert ValidNode(child);
    var text := Encode(child.value);
    var q := p + |text|;
    OccursSplit(s, p, text, EndTag(e.name));
    EndStart(s, q, e.name);
    GapOfNothing(s, p);
    GapOfNothing(s, q);
    TextChild(s, p, p, q, child.value, [], condense, error);
    var children := [Normal(child, condense)];
    assert [] + children == children && e.children == [child];
    assert NormalAll(e.children, condense) == children;
    NoChildren(s, q, q, children, condense, error);
    EndBack(s, q, Normal(e, condense), error);
  }

  /** The children of any other element. */
  lemma FullContent(s: bytes, p: Ptr, e: Node, depth: nat, indent: bytes, lineBreak: bytes, condense: bool, error: Error)
    requires ValidLayout(indent, lineBreak, condense) && e.Element? && ValidNode(e)
    requires Occurs(s, p, lineBreak + (PrintNodes(e.children, depth + 1, indent, lineBreak) + Repeat(indent, depth)
                                       + EndTag(e.name)))
    ensures ElementContent(s, p, e.(children := []), condense, error)
         == NodeRead(Normal(e, condense), p + |lineBreak| + |PrintNodes(e.children, depth + 1, indent, lineBreak)| + |Repeat(indent, depth)|
                        + |EndTag(e.name)|, error)
    decreases e, 0
  {
    hide ValueAt, ElementEnd, PrintNodes, Repeat, CStr, Tail, ValidAttributes, ValidName, EndTag, Occurs;
    var inner := PrintNodes(e.children, depth + 1, indent, lineBreak) + Repeat(indent, depth);
    OccursSplit(s, p, lineBreak, inner + EndTag(e.name));
    var c := p + |lineBreak|;
    OccursSplit(s, c, inner, EndTag(e.name));
    EndStart(s, c + |inner|, e.name);
    OccursJoin(s, c, inner, END_OPEN);
    assert Follow(e.children, depth + 1, indent, lineBreak) == inner + END_OPEN;
    var q := FindTail(s, c, e.children, depth + 1, indent, lineBreak);
    GapOf(s, p, lineBreak);
    GapJoin(s, p, c, q);
    ChildrenBack(s, p, q, [], e.children, depth + 1, indent, lineBreak, condense, error);
    var children := NormalAll(e.children, condense);
    assert [] + children == children;
    EndBack(s, c + |inner|, Normal(e, condense), error);
  }

  lemma EmptyElement(s: bytes, a: Ptr, name: bytes, attributes: seq<Attribute>, condense: bool, error: Error)
    requires Occurs(s, a, [SPACE, SLASH, GT])
    ensures ElementFrom(s, a, name, attributes, condense, error)
         == NodeRead(Element(name, attributes, []), a + 3, error)
  {
    hide AttributeAt, ElementContent;
    var x: bytes := [SPACE, SLASH, GT];
    assert x[0] == s[a + 0] && x[1] == s[a + 1] && x[2] == s[a + 2];
    SkipTo(s, a, a + 1);
    assert Peek(s, a + 2) == GT;
  }

  lemma OpenElement(s: bytes, a: Ptr, name: bytes, attributes: seq<Attribute>, condense: bool, error: Error)
    requires Live(s, a) && s[a] == GT
    ensures ElementFrom(s, a, name, attributes, condense, error)
         == ElementContent(s, a + 1, Element(name, attributes, []), condense, error)
  {
    hide AttributeAt, ElementContent;
    SkipTo(s, a, a);
  }

  /** What is printed of an element after its attributes. */
  function AfterAttributes(e: Node, depth: nat, indent: bytes, lineBreak: bytes): bytes
    requires e.Element?
  {
    if e.children == [] then [SPACE, SLASH, GT]
    else if IsSimple(e.children) then [GT] + (Encode(e.children[0].value) + EndTag(e.name))
    else [GT] + (lineBreak + (PrintNodes(e.children, depth + 1, indent, lineBreak) + Repeat(indent, depth)
                              + EndTag(e.name)))
  }

  lemma ElementParts(e: Node, depth: nat, indent: bytes, lineBreak: bytes)
    requires e.Element?
    ensures PrintBody(e, depth, indent, lineBreak)
         == OpenTag(e.name, e.attributes) + AfterAttributes(e, depth, indent, lineBreak)
  {
    hide OpenTag, EndTag, Repeat, PrintNodes, Encode;
  }

  lemma AfterBack(s: bytes, a: Ptr, e: Node, depth: nat, indent: bytes, lineBreak: bytes, condense: bool, error: Error)
    requires ValidLayout(indent, lineBreak, condense) && e.Element? && ValidNode(e)
    requires Occurs(s, a, AfterAttributes(e, depth, indent, lineBreak))
    ensures Live(s, a) && (s[a] == SPACE || s[a] == GT)
    ensures ElementFrom(s, a, e.name, e.attributes, condense, error)
         == NodeRead(Normal(e, condense), a + |AfterAttributes(e, depth, indent, lineBreak)|, error)
    decreases e, 1, 0
  {
    hide ElementFrom, EndTag, Repeat, PrintNodes, Encode, ElementContent, ValidNode, ValidLayout, Occurs;
    var bare := Element(e.name, e.attributes, []);
    if e.children == [] {
      FirstByte(s, a, [SPACE, SLASH, GT]);
      EmptyElement(s, a, e.name, e.attributes, condense, error);
    } else if IsSimple(e.children) {
      OccursSplit(s, a, [GT], Encode(e.children[0].value) + EndTag(e.name));
      OccursOne(s, a, GT);
      OpenElement(s, a, e.name, e.attributes, condense, error);
      assert e.(children := []) == bare;
      SimpleContent(s, a + 1, e, condense, error);
    } else {
      OccursSplit(s, a, [GT], lineBreak + (PrintNodes(e.children, depth + 1, indent, lineBreak) + Repeat(indent, depth)
                                           + EndTag(e.name)));
      OccursOne(s, a, GT);
      OpenElement(s, a, e.name, e.attributes, condense, error);
      assert e.(children := []) == bare;
      FullContent(s, a + 1, e, depth, indent, lineBreak, condense, error);
    }
  }

  lemma {:induction false} ElementBack(s: bytes, q: Ptr, e: Node, depth: nat, indent: bytes, lineBreak: bytes,
                                       condense: bool, error: Error)
    requires ValidLayout(indent, lineBreak, condense) && e.Element? && ValidNode(e)
    requires Occurs(s, q, PrintBody(e, depth, indent, lineBreak))
    ensures Live(s, q) && s[q] == LT && !TagAt(s, q, END_OPEN)
    ensures NodeAt(s, q, condense, error) == NodeRead(Normal(e, condense), q + |PrintBody(e, depth, indent, lineBreak)|, error)
    decreases e, 1, 1
  {
    hide NodeAt, ElementFrom, OpenTag, PrintBody, AfterAttributes, Occurs, ValidName, ValidAttributes;
    var open, after := OpenTag(e.name, e.attributes), AfterAttributes(e, depth, indent, lineBreak);
    ElementParts(e, depth, indent, lineBreak);
    OccursSplit(s, q, open, after);
    AfterBack(s, q + |open|, e, depth, indent, lineBreak, condense, error);
    OpenBack(s, q, e.name, e.attributes, condense, error);
  }

  // ------------------------------------------------------------------ documents

  lemma DocumentStep(s: bytes, p: Ptr, e: Ptr, q: Ptr, done: seq<Node>, node: Node, condense: bool)
    requires Live(s, p) && s[p] == LT && Gap(s, e, q)
    requires NodeAt(s, p, condense, NoError) == NodeRead(node, StopOf(s, node, e), NoError)
    ensures e < |s| ==> (DocumentFrom(s, SkipWhite(s, p), done, condense, NoError)
                         == DocumentFrom(s, SkipRun(s, q), done + [node], condense, NoError))
    ensures e == |s| ==> var r := DocumentFrom(s, SkipWhite(s, p), done, condense, NoError);
                         r.children == done + [node] && r.error == NoError
  {
    hide NodeAt;
    GapOfNothing(s, p);
    SkipTo(s, p, p);
    SkipsTogether(s, e, q);
  }

  lemma SkipLive(s: bytes, q: Ptr)
    requires 0 <= q <= |s|
    ensures q < |s| ==> SkipWhite(s, q) == SkipRun(s, q)
    ensures q == |s| ==> SkipRun(s, q) == q
  {}

  lemma DocumentEnd(s: bytes, p: Ptr, done: seq<Node>, condense: bool)
    requires p <= |s| && !Live(s, p)
    ensures DocumentFrom(s, p, done, condense, NoError) == ValueRead(done, p, NoError)
  {}

  /** Reading the nodes of a document from where they were printed. */
  lemma {:induction false} NodesBack(s: bytes, p: Ptr, done: seq<Node>, nodes: seq<Node>,
                                     indent: bytes, lineBreak: bytes, condense: bool)
    requires ValidLayout(indent, lineBreak, condense) && ValidDocument(nodes)
    requires Occurs(s, p, PrintNodes(nodes, 0, indent, lineBreak))
    requires p + |PrintNodes(nodes, 0, indent, lineBreak)| == |s|
    ensures var r := DocumentFrom(s, SkipWhite(s, p), done, condense, NoError);
            r.children == done + NormalAll(nodes, condense) && r.error == NoError
    decreases |nodes|
  {
    hide Normal, NodeAt, PrintBody, ValidNode, Occurs, SkipRun, SkipWhite, DocumentFrom, StopOf;
    if nodes == [] {
      assert done + NormalAll(nodes, condense) == done;
      SkipNull(s, p);
      DocumentEnd(s, SkipWhite(s, p), done, condense);
    } else {
      var n, later := nodes[0], nodes[1..];
      var body := PrintBody(n, 0, indent, lineBreak);
      var e := p + |body|;
      var q := e + |lineBreak|;
      DocumentPieces(s, p, nodes, indent, lineBreak);
      NodeBack(s, p, n, 0, indent, lineBreak, condense, NoError);
      GapOf(s, e, lineBreak);
      var m := Normal(n, condense);
      NormalStops(s, n, e, condense);
      DocumentStep(s, p, e, q, done, m, condense);
      assert done + [m] + NormalAll(later, condense) == done + NormalAll(nodes, condense);
      NodesBack(s, q, done + [m], later, indent, lineBreak, condense);
      SkipLive(s, q);
      if e == |s| {
        DocumentEnd(s, SkipWhite(s, q), done + [m], condense);
      } else if q == |s| {
        DocumentEnd(s, SkipWhite(s, q), done + [m], condense);
        DocumentEnd(s, q, done + [m], condense);
      }
    }
  }

  lemma NormalStops(s: bytes, node: Node, e: Ptr, condense: bool)
    ensures StopOf(s, Normal(node, condense), e) == StopOf(s, node, e)
  {}

  lemma DocumentPieces(s: bytes, p: Ptr, nodes: seq<Node>, indent: bytes, lineBreak: bytes)
    requires nodes != [] && Occurs(s, p, PrintNodes(nodes, 0, indent, lineBreak))
    ensures var body, rest := PrintBody(nodes[0], 0, indent, lineBreak), PrintNodes(nodes[1..], 0, indent, lineBreak);
            && Occurs(s, p, body) && Occurs(s, p + |body|, lineBreak) && Occurs(s, p + |body| + |lineBreak|, rest)
            && |PrintNodes(nodes, 0, indent, lineBreak)| == |body| + |lineBreak| + |rest|
  {
    hide PrintBody, Occurs;
    var body, rest := PrintBody(nodes[0], 0, indent, lineBreak), PrintNodes(nodes[1..], 0, indent, lineBreak);
    assert Repeat(indent, 0) + body + lineBreak == body + lineBreak;
    OccursSplit3(s, p, body, lineBreak, rest);
  }

  lemma {:induction false} SkipsTogether(s: bytes, p: Ptr, q: Ptr)
    requires Gap(s, p, q)
    ensures SkipRun(s, p) == SkipRun(s, q)
    decreases q - p
  {
    if p < q {
      SkipsTogether(s, p + 1, q);
    }
  }

  // ------------------------------------------------------------------ what is printed is a C string

  lemma {:induction false} EncodeNulFree(t: bytes, i: nat)
    requires i <= |t| && NoHexRef(t)
    ensures 0 !in EncodeFrom(t, i)
    decreases |t| - i
  {
    hide EncodeChar;
    if i < |t| {
      assert !HexRefAt(t, i);
      CharIsNulFree(t[i]);
      EncodeNulFree(t, i + 1);
    }
  }

  lemma CharIsNulFree(c: byte)
    ensures 0 !in EncodeChar(c)
  {}

  lemma {:induction false} RepeatNulFree(piece: bytes, n: nat)
    requires 0 !in piece
    ensures 0 !in Repeat(piece, n)
  {
    if n > 0 {
      RepeatNulFree(piece, n - 1);
    }
  }

  lemma {:induction false} AttributesNulFree(attributes: seq<Attribute>)
    requires forall i :: 0 <= i < |attributes| ==> ValidName(attributes[i].name) && NoHexRef(attributes[i].value)
    ensures 0 !in PrintAttributes(attributes)
    decreases |attributes|
  {
    hide EncodeFrom, ValidName, NoHexRef;
    if attributes != [] {
      NameIsPlain(attributes[0].name);
      EncodeNulFree(attributes[0].value, 0);
      assert 0 !in attributes[0].name by { CStrOfName(attributes[0].name); }
      AttributesNulFree(attributes[1..]);
    }
  }

  lemma CStrOfName(name: bytes)
    requires ValidName(name)
    ensures 0 !in name
  {
    forall i | 0 <= i < |name|
      ensures name[i] != 0
    {
      assert IsNameChar(name[i]);
    }
  }

  lemma {:induction false} BodyNulFree(node: Node, depth: nat, indent: bytes, lineBreak: bytes)
    requires ValidNode(node) && 0 !in indent && 0 !in lineBreak
    ensures 0 !in PrintBody(node, depth, indent, lineBreak)
    decreases node, 0
  {
    hide Encode, Repeat, PrintNodes, PrintAttributes, ValidName, ValidUnknown, Without;
    match node
    case Element(name, attributes, children) =>
      AttributesNulFree(attributes);
      AllWalked(attributes);
      RepeatNulFree(indent, depth);
      assert 0 !in OpenTag(name, attributes) && 0 !in EndTag(name);
      if IsSimple(children) {
        assert ValidNode(children[0]);
        EncodeIsNulFree(children[0].value);
      } else {
        NodesNulFree(children, depth + 1, indent, lineBreak);
      }
    case Text(value, cdata) =>
      if !cdata {
        EncodeIsNulFree(value);
      }
    case Comment(value) =>
    case Unknown(value) =>
    case Declaration(version, encoding, standalone) =>
      assert 0 !in PrintField(VERSION, version) && 0 !in PrintField(ENCODING, encoding);
      assert 0 !in PrintField(STANDALONE, standalone);
  }

  lemma EncodeIsNulFree(value: bytes)
    requires NoHexRef(value)
    ensures 0 !in Encode(value)
  {
    EncodeNulFree(value, 0);
  }

  lemma {:induction false} NodesNulFree(nodes: seq<Node>, depth: nat, indent: bytes, lineBreak: bytes)
    requires (forall i :: 0 <= i < |nodes| ==> ValidNode(nodes[i])) && 0 !in indent && 0 !in lineBreak
    ensures 0 !in PrintNodes(nodes, depth, indent, lineBreak)
    decreases nodes
  {
    hide PrintBody, Repeat, ValidNode;
    if nodes != [] {
      BodyNulFree(nodes[0], depth, indent, lineBreak);
      RepeatNulFree(indent, depth);
      NodesNulFree(nodes[1..], depth, indent, lineBreak);
    }
  }

  // ------------------------------------------------------------------ the theorem

  /**
   Printing a document and parsing what was printed gives the document back, with its texts space-normalised when
   white space is condensed: the same nodes in the same order, with their attributes in order, and no error. This holds
   for any white-space indentation and line break when white space is condensed, and for stream printing when it is
   kept. So the very document comes back exactly when its texts are space-normal, or white space is kept.
   */
  lemma PrintThenParse(nodes: seq<Node>, indent: bytes, lineBreak: bytes, condense: bool)
    requires ValidLayout(indent, lineBreak, condense) && ValidDocument(nodes)
    ensures var printed := PrintDocument(nodes, indent, lineBreak);
            && CStr(printed) == printed
            && ParseDocument(printed, condense).children == NormalAll(nodes, condense)
            && (ParseDocument(printed, condense).children == nodes <==> (condense ==> AllSpacesNormal(nodes)))
            && ParseDocument(printed, condense).error == if nodes == [] then DocumentEmpty else NoError
  {
    hide PrintNodes, DocumentFrom, ValidNode, SkipWhite, AllSpacesNormal, Normal;
    var printed := PrintDocument(nodes, indent, lineBreak);
    NodesNulFree(nodes, 0, indent, lineBreak);
    CStrOfNulFree(printed);
    NormalAllExactly(nodes, condense);
    if nodes == [] {
      PrintedNothing(indent, lineBreak);
    } else {
      PrintedSomething(nodes, indent, lineBreak);
      WholeOccurs(printed);
      NodesBack(printed, 0, [], nodes, indent, lineBreak, condense);
      assert [] + NormalAll(nodes, condense) == NormalAll(nodes, condense);
    }
  }

  lemma WholeOccurs(s: bytes)
    ensures Occurs(s, 0, s)
  {}

  lemma PrintedNothing(indent: bytes, lineBreak: bytes)
    ensures PrintNodes([], 0, indent, lineBreak) == []
  {}

  lemma PrintedSomething(nodes: seq<Node>, indent: bytes, lineBreak: bytes)
    requires nodes != [] && !IsPlainText(nodes[0])
    ensures PrintNodes(nodes, 0, indent, lineBreak) != []
  {
    hide PrintBody;
    BodyStart(nodes[0], 0, indent, lineBreak);
  }

  /** The same statement about the printer and the reader as they run. */
  method SaveAndLoad(nodes: seq<Node>, indent: bytes, lineBreak: bytes, condense: bool) returns (doc: XmlReader.Document)
    requires ValidLayout(indent, lineBreak, condense) && ValidDocument(nodes) && nodes != []
    ensures doc.children == NormalAll(nodes, condense) && doc.error == NoError
    ensures (condense ==> AllSpacesNormal(nodes)) ==> doc.children == nodes
  {
    hide PrintNodes, ParseInto, ValidDocument, ValidLayout;
    var printer := new Printer(indent, lineBreak);
    printer.AcceptDocument(nodes);
    assert printer.buffer == PrintDocument(nodes, indent, lineBreak);
    PrintThenParse(nodes, indent, lineBreak, condense);
    doc := new XmlReader.Document();
    var p := doc.Parse(CStr(printer.buffer), condense);
  }
}
