/**
 Whole documents as markup: what a document holds after reading without an error is what its markup means, and markup
 is read without an error.
 */
module XmlDocuments {
  import opened Octets
  import opened XmlBytes
  import opened XmlScanner
  import opened XmlTree
  import opened XmlParser
  import opened XmlMarkup
  import opened XmlGrammar
  import opened XmlGrammarReads
  import opened XmlErrors
  import opened XmlRoundTrip
  import XmlEncoder
  import XmlExactness

  /** Nodes with white space before them, up to what starts no node, or to a section or declaration that is cut off. */
  datatype DocumentMarkup =
    | NoMore(rest: bytes)
    | CutOff(gap: bytes, rest: bytes, node: Node)
    | Then(gap: bytes, markup: Markup, more: DocumentMarkup)

  /** The first byte that is no white space, if there is one, opens no tag. */
  ghost predicate NoTag(rest: bytes) {
    forall k :: 0 <= k < |rest| && AllWhite(rest[..k]) ==> rest[k] != '<' as int
  }

  ghost predicate IsDocument(d: DocumentMarkup)
    decreases d, 0
  {
    match d
    case NoMore(rest) => NoTag(rest)
    case CutOff(gap, rest, node) =>
      && AllWhite(gap)
      && ((TagAt(rest, 0, Ascii("<![CDATA[")) && node.Text? && node.cdata)
          || (TagAtIgnoreCase(rest, 0, Ascii("<?xml")) && node.Declaration?))
    case Then(gap, m, more) =>
      AllWhite(gap) && IsMarkup(m) && IsDocument(more) && (IsClosed(m) || WrittenDocument(more) == [])
  }

  ghost function WrittenDocument(d: DocumentMarkup): bytes
    requires IsDocument(d)
    decreases d, 1
  {
    match d
    case NoMore(rest) => rest
    case CutOff(gap, rest, _) => gap + rest
    case Then(gap, m, more) => gap + WrittenNode(m) + WrittenDocument(more)
  }

  ghost function MeantDocument(d: DocumentMarkup, condense: bool): seq<Node>
    requires IsDocument(d)
  {
    match d
    case NoMore(_) => []
    case CutOff(_, _, node) => [node]
    case Then(_, m, more) => [MeantNode(m, condense)] + MeantDocument(more, condense)
  }

  // ------------------------------------------------------------------ what is read without an error

  lemma RunOnce(s: bytes, start: Ptr, children: seq<Node>, condense: bool, error: Error)
    requires start <= |s|
    ensures var p := SkipWhite(s, start);
            DocumentFrom(s, p, children, condense, error)
            == if !Live(s, p) || s[p] != LT then ValueRead(children, p, error)
               else
                 var r := NodeAt(s, p, condense, error);
                 DocumentFrom(s, SkipWhite(s, r.next), children + [r.node], condense, r.error)
  {
    hide NodeAt, SkipWhite;
  }

  lemma {:induction false} RunKeeps(s: bytes, p: Ptr, children: seq<Node>, condense: bool, error: Error)
    requires p <= |s|
    ensures Keeps(error, DocumentFrom(s, p, children, condense, error).error)
    decreases if Live(s, p) then |s| - p else 0
  {
    hide NodeAt, SkipWhite;
    if Live(s, p) && s[p] == LT {
      var r := NodeAt(s, p, condense, error);
      NodeKeeps(s, p, condense, error);
      RunKeeps(s, SkipWhite(s, r.next), children + [r.node], condense, r.error);
    }
  }

  /** Only a CDATA section and a declaration can fail without an error. */
  lemma SilentFailure(s: bytes, p: Ptr, condense: bool)
    requires Live(s, p) && s[p] == LT && 0 !in s
    requires var r := NodeAt(s, p, condense, NoError); r.next == NULL && r.error == NoError
    ensures IsDocument(CutOff([], s[p..], NodeAt(s, p, condense, NoError).node))
  {
    hide NodeAt, Identify, IsMarkup, WrittenNode, MeantNode, CdataAt, DeclarationAt, CommentAt, UnknownAt, ElementAt,
         Ascii;
    Signs();
    NodeIs(s, p, condense, NoError);
    match Identify(s, p)
    case DeclarationKind => DeclarationCut(s, p);
    case CommentKind => var m := CommentIsMarkup(s, p, condense, NoError);
    case CdataKind => CdataCut(s, p);
    case UnknownKind => var m := UnknownIsMarkup(s, p, condense, NoError);
    case ElementKind => ElementReports(s, p, condense);
  }

  lemma CdataCut(s: bytes, p: Ptr)
    requires Live(s, p) && s[p] == LT && Identify(s, p) == CdataKind
    ensures TagAt(s[p..], 0, CDATA_OPEN) && CdataAt(s, p, NoError).node.Text? && CdataAt(s, p, NoError).node.cdata
  {
    IdentifiedTag(s, p);
    assert s[p..][0..9] == s[p..p + 9];
  }

  lemma DeclarationCut(s: bytes, p: Ptr)
    requires Live(s, p) && s[p] == LT && Identify(s, p) == DeclarationKind
    ensures TagAtIgnoreCase(s[p..], 0, XML_OPEN) && DeclarationAt(s, p, NoError).node.Declaration?
  {
    XmlExactness.DeclarationStays(s, p, NoError);
  }

  /** It stands from there to the end of the buffer, and is what is read from there without an error. */
  ghost predicate ReadsRun(s: bytes, start: Ptr, children: seq<Node>, condense: bool, error: Error, d: DocumentMarkup)
    requires start <= |s|
  {
    && IsDocument(d) && Occurs(s, start, WrittenDocument(d)) && start + |WrittenDocument(d)| == |s|
    && var r := DocumentFrom(s, SkipWhite(s, start), children, condense, error);
    && r.children == children + MeantDocument(d, condense) && r.error == error
  }

  lemma NoMoreRead(s: bytes, start: Ptr, children: seq<Node>, condense: bool, error: Error)
    requires 0 <= start <= |s|
    ensures var p := SkipWhite(s, start); (!Live(s, p) || s[p] != LT) <==> NoTag(s[start..])
    ensures NoTag(s[start..]) ==> ReadsRun(s, start, children, condense, error, NoMore(s[start..]))
  {
    hide NodeAt;
    var p := SkipWhite(s, start);
    var rest := s[start..];
    assert children + [] == children;
    OccursInPlace(s, start, |s|);
    if Live(s, p) {
      SkipIsGap(s, start);
      var k := p - start;
      assert rest[..k] == s[start..p] && rest[k] == s[p];
      forall i | k < i < |rest|
        ensures !AllWhite(rest[..i])
      {
        assert rest[..i][k] == s[p];
      }
      forall i | 0 <= i < k
        ensures rest[i] != LT
      {
        assert s[start..p][i] == rest[i];
      }
    } else if start < |s| {
      SkipIsGap(s, start);
      assert forall i :: 0 <= i < |rest| ==> rest[i] == s[start + i];
    }
  }

  lemma CutOffRead(s: bytes, start: Ptr, p: Ptr, children: seq<Node>, condense: bool)
    returns (d: DocumentMarkup)
    requires Live(s, start) && p == SkipWhite(s, start) && Live(s, p) && s[p] == LT && 0 !in s
    requires var r := NodeAt(s, p, condense, NoError); r.next == NULL && r.error == NoError
    ensures ReadsRun(s, start, children, condense, NoError, d)
  {
    hide NodeAt, SkipWhite, Occurs, TagAt, TagAtIgnoreCase;
    var r := NodeAt(s, p, condense, NoError);
    SilentFailure(s, p, condense);
    SkipIsGap(s, start);
    d := CutOff(s[start..p], s[p..], r.node);
    OccursInPlace(s, p, |s|);
    OccursJoin(s, start, s[start..p], s[p..]);
    NothingBehindNull(s, children + [r.node], condense);
  }

  lemma NothingBehindNull(s: bytes, children: seq<Node>, condense: bool)
    ensures DocumentFrom(s, SkipWhite(s, NULL), children, condense, NoError) == ValueRead(children, NULL, NoError)
  {}

  /** White space and a node in front of the rest of a document. */
  lemma ThenRead(s: bytes, start: Ptr, gap: bytes, children: seq<Node>, condense: bool, error: Error, m: Markup, more: DocumentMarkup)
    requires AllWhite(gap) && Occurs(s, start, gap) && IsMarkup(m) && Occurs(s, start + |gap|, WrittenNode(m))
    requires var p, n := start + |gap|, start + |gap| + |WrittenNode(m)|;
             && start <= |s| && p == SkipWhite(s, start) && Live(s, p) && s[p] == LT && n <= |s| && (IsClosed(m) || n == |s|)
             && NodeAt(s, p, condense, error) == NodeRead(MeantNode(m, condense), n, error)
             && ReadsRun(s, n, children + [MeantNode(m, condense)], condense, error, more)
    ensures ReadsRun(s, start, children, condense, error, Then(gap, m, more))
  {
    hide NodeAt, SkipWhite, Occurs, IsMarkup, WrittenNode, MeantNode, DocumentFrom, AllWhite, IsClosed;
    var node := MeantNode(m, condense);
    var d := Then(gap, m, more);
    RunOnce(s, start, children, condense, error);
    OccursJoin(s, start, gap, WrittenNode(m));
    OccursJoin(s, start, gap + WrittenNode(m), WrittenDocument(more));
    ConcatNodes(children, [node], MeantDocument(more, condense));
  }

  lemma {:induction false} RunIsMarkup(s: bytes, start: Ptr, children: seq<Node>, condense: bool) returns (d: DocumentMarkup)
    requires 0 <= start <= |s| && 0 !in s
    requires DocumentFrom(s, SkipWhite(s, start), children, condense, NoError).error == NoError
    ensures ReadsRun(s, start, children, condense, NoError, d)
    decreases |s| - start
  {
    hide NodeAt, SkipWhite, Occurs, IsMarkup, WrittenNode, MeantNode, DocumentFrom, AllWhite, IsClosed, ReadsRun, NoTag;
    NoMoreRead(s, start, children, condense, NoError);
    RunOnce(s, start, children, condense, NoError);
    var p := SkipWhite(s, start);
    if NoTag(s[start..]) {
      d := NoMore(s[start..]);
    } else {
      var r := NodeAt(s, p, condense, NoError);
      RunKeeps(s, SkipWhite(s, r.next), children + [r.node], condense, r.error);
      if r.next == NULL {
        d := CutOffRead(s, start, p, children, condense);
      } else {
        var m := NodeIsMarkup(s, p, condense, NoError);
        var more := RunIsMarkup(s, r.next, children + [r.node], condense);
        SkipIsGap(s, start);
        ThenRead(s, start, s[start..p], children, condense, NoError, m, more);
        d := Then(s[start..p], m, more);
      }
    }
  }

  lemma ParseIsRun(s: bytes, condense: bool)
    requires s != []
    ensures var r := DocumentFrom(s, SkipWhite(s, 0), [], condense, NoError);
            ParseDocument(s, condense) == if r.children == [] then ValueRead([], NULL, Raise(r.error, DocumentEmpty)) else r
  {}

  lemma OccursAll(s: bytes, x: bytes)
    requires Occurs(s, 0, x) && |x| == |s|
    ensures s == x
  {
    OccursSlice(s, 0, x);
  }

  /** A document that is read without an error is markup, all of it, and holds what that means. */
  lemma DocumentIsMarkup(s: bytes, condense: bool) returns (d: DocumentMarkup)
    requires 0 !in s && ParseDocument(s, condense).error == NoError
    ensures IsDocument(d) && s == WrittenDocument(d)
    ensures MeantDocument(d, condense) != [] && ParseDocument(s, condense).children == MeantDocument(d, condense)
  {
    hide DocumentFrom, Occurs, WrittenDocument, IsDocument, MeantDocument, SkipWhite;
    ParseIsRun(s, condense);
    d := RunIsMarkup(s, 0, [], condense);
    OccursAll(s, WrittenDocument(d));
    assert [] + MeantDocument(d, condense) == MeantDocument(d, condense);
  }

  // ------------------------------------------------------------------ markup is read

  /** It is read in one way: nothing is cut off, and a CDATA section is not the last thing in the buffer. */
  ghost predicate IsSureDocument(d: DocumentMarkup)
    requires IsDocument(d)
  {
    match d
    case NoMore(_) => true
    case CutOff(_, _, _) => false
    case Then(_, m, more) => IsSure(m) && IsSureDocument(more) && (m.CdataMarkup? ==> WrittenDocument(more) != [])
  }

  lemma {:induction false} RunReads(s: bytes, start: Ptr, children: seq<Node>, condense: bool, error: Error, d: DocumentMarkup)
    requires IsDocument(d) && IsSureDocument(d) && Occurs(s, start, WrittenDocument(d)) && start + |WrittenDocument(d)| == |s|
    ensures start <= |s| && ReadsRun(s, start, children, condense, error, d)
    decreases d
  {
    hide NodeAt, SkipWhite, Occurs, IsMarkup, WrittenNode, MeantNode, DocumentFrom, AllWhite, IsClosed, ReadsRun,
         NoTag, IsSure;
    OccursBounds(s, start, WrittenDocument(d));
    match d
    case NoMore(rest) =>
      OccursSlice(s, start, rest);
      assert s[start..] == rest;
      NoMoreRead(s, start, children, condense, error);
    case Then(gap, m, more) =>
      OccursSplit3(s, start, gap, WrittenNode(m), WrittenDocument(more));
      var p, node := start + |gap|, MeantNode(m, condense);
      NodeReads(s, p, m, condense, error);
      TagIsNoGap(s, p);
      GapSkipped(s, start, gap);
      RunReads(s, p + |WrittenNode(m)|, children + [node], condense, error, more);
      OccursBounds(s, p, WrittenNode(m));
      ThenRead(s, start, gap, children, condense, error, m, more);
  }

  lemma TagIsNoGap(s: bytes, p: Ptr)
    requires Live(s, p) && s[p] == LT
    ensures !IsWhiteSpace(s[p])
  {}

  /** Markup of a document is read as what it means; the only error there can be is that it holds no node. */
  lemma DocumentReads(d: DocumentMarkup, condense: bool)
    requires IsDocument(d) && IsSureDocument(d)
    ensures var r := ParseDocument(WrittenDocument(d), condense);
            && r.children == MeantDocument(d, condense)
            && r.error == if MeantDocument(d, condense) == [] then DocumentEmpty else NoError
  {
    hide DocumentFrom, Occurs, SkipWhite, IsMarkup, IsSure, AllWhite, NoTag, WrittenNode, MeantNode, IsClosed;
    var s := WrittenDocument(d);
    if s == [] {
      NothingWritten(d);
    } else {
      OccursSelf(s);
      ParseIsRun(s, condense);
      RunReads(s, 0, [], condense, NoError, d);
      assert [] + MeantDocument(d, condense) == MeantDocument(d, condense);
    }
  }

  lemma NothingWritten(d: DocumentMarkup)
    requires IsDocument(d) && IsSureDocument(d) && WrittenDocument(d) == []
    ensures d == NoMore([])
  {
    hide IsMarkup, WrittenNode, Occurs;
    if d.Then? {
      OccursSelf(WrittenNode(d.markup));
      NodeStarts(WrittenNode(d.markup), 0, d.markup);
    }
  }

  // ------------------------------------------------------------------ a document that holds nodes already

  lemma {:induction false} RunAppends(s: bytes, p: Ptr, before: seq<Node>, children: seq<Node>, condense: bool, error: Error)
    requires p <= |s|
    ensures var r := DocumentFrom(s, p, children, condense, error);
            && DocumentFrom(s, p, before + children, condense, error) == ValueRead(before + r.children, r.next, r.error)
            && children <= r.children
    decreases if Live(s, p) then |s| - p else 0
  {
    hide NodeAt, SkipWhite;
    if Live(s, p) && s[p] == LT {
      var r := NodeAt(s, p, condense, error);
      assert before + children + [r.node] == before + (children + [r.node]);
      RunAppends(s, SkipWhite(s, r.next), before, children + [r.node], condense, r.error);
    }
  }

  /** What is read goes behind the nodes that are there; only a document that has none afterwards is an empty one. */
  lemma ParseAppends(before: seq<Node>, s: bytes, condense: bool)
    requires s != []
    ensures var r, alone := ParseInto(before, s, condense), ParseDocument(s, condense);
            && r.children == before + alone.children
            && r.error == if alone.children == [] && before != [] then NoError else alone.error
    ensures ParseInto(before, [], condense) == ValueRead(before, NULL, DocumentEmpty)
  {
    hide NodeAt, SkipWhite, DocumentFrom;
    var p := SkipWhite(s, 0);
    RunAppends(s, p, before, [], condense, NoError);
    assert before + [] == before;
    if DocumentFrom(s, p, [], condense, NoError).children == [] {
      NoNodeNoError(s, p, condense);
    }
  }

  lemma NoNodeNoError(s: bytes, p: Ptr, condense: bool)
    requires p <= |s| && DocumentFrom(s, p, [], condense, NoError).children == []
    ensures DocumentFrom(s, p, [], condense, NoError).error == NoError
  {
    hide NodeAt, SkipWhite;
    if Live(s, p) && s[p] == LT {
      var r := NodeAt(s, p, condense, NoError);
      RunAppends(s, SkipWhite(s, r.next), [], [r.node], condense, r.error);
    }
  }
}
