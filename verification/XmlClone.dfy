/**
 What Clone copies. Strings pass through C strings, and attributes through a walk of the list and SetAttribute, so
 that a copy is the same tree only when nothing in it is lost on the way.
 */
module XmlClone {
  import opened Octets
  import opened XmlTree
  import opened XmlAttributeSet

  /** The type of a node and its values. */
  datatype Content =
    | DocumentContent(name: bytes)
    | ElementContent(name: bytes, attributes: seq<Attribute>)
    | TextContent(value: bytes, cdata: bool)
    | CommentContent(value: bytes)
    | UnknownContent(value: bytes)
    | DeclarationContent(version: bytes, encoding: bytes, standalone: bytes)

  datatype Tree = Tree(content: Content, children: seq<Tree>)

  /** `for each attribute: target->SetAttribute(Name(), Value())` */
  function SetAll(target: seq<Attribute>, attributes: seq<Attribute>): seq<Attribute>
    decreases |attributes|
  {
    if attributes == [] then target
    else SetAll(Set(target, CStr(attributes[0].name), CStr(attributes[0].value)), attributes[1..])
  }

  /** CopyTo of each class of nodes. */
  function CopyContent(c: Content): Content {
    match c
    case DocumentContent(name) => DocumentContent(CStr(name))
    case ElementContent(name, attributes) => ElementContent(CStr(name), SetAll([], Walked(attributes)))
    case TextContent(value, cdata) => TextContent(CStr(value), cdata)
    case CommentContent(value) => CommentContent(CStr(value))
    case UnknownContent(value) => UnknownContent(CStr(value))
    case DeclarationContent(_, _, _) => c
  }

  function CloneOf(t: Tree): Tree {
    Tree(CopyContent(t.content), CloneAll(t.children))
  }

  function CloneAll(ts: seq<Tree>): (r: seq<Tree>)
    ensures |r| == |ts|
  {
    if ts == [] then [] else [CloneOf(ts[0])] + CloneAll(ts[1..])
  }

  // ------------------------------------------------------------------ what survives

  predicate NulFree(attributes: seq<Attribute>) {
    forall i :: 0 <= i < |attributes| ==> 0 !in attributes[i].name && 0 !in attributes[i].value
  }

  /** No attribute after the first is taken for the sentinel. */
  predicate NoBlank(attributes: seq<Attribute>) {
    forall i :: 1 <= i < |attributes| ==> attributes[i] != Attribute([], [])
  }

  predicate Copyable(c: Content) {
    match c
    case DocumentContent(name) => 0 !in name
    case ElementContent(name, attributes) =>
      0 !in name && NulFree(attributes) && NoBlank(attributes) && DistinctNames(attributes)
    case TextContent(value, _) => 0 !in value
    case CommentContent(value) => 0 !in value
    case UnknownContent(value) => 0 !in value
    case DeclarationContent(_, _, _) => true
  }

  predicate AllCopyable(t: Tree) {
    Copyable(t.content) && forall i :: 0 <= i < |t.children| ==> AllCopyable(t.children[i])
  }

  lemma CStrSame(s: bytes)
    ensures CStr(s) == s <==> 0 !in s
  {
    if 0 !in s {
      CStrOfNulFree(s);
    }
  }

  /** What SetAll makes has distinct names and no NULs, if the target has. */
  lemma {:induction false} SetAllIsClean(target: seq<Attribute>, attributes: seq<Attribute>)
    requires DistinctNames(target) && NulFree(target)
    ensures var r := SetAll(target, attributes);
            DistinctNames(r) && NulFree(r) && |r| <= |target| + |attributes|
    decreases |attributes|
  {
    hide CStr, DistinctNames;
    if attributes != [] {
      SetKeepsDistinct(target, CStr(attributes[0].name), CStr(attributes[0].value));
      SetAllIsClean(Set(target, CStr(attributes[0].name), CStr(attributes[0].value)), attributes[1..]);
    }
  }

  /** Attributes that are all new and NUL-free are appended as they are. */
  lemma {:induction false} SetAllAppends(target: seq<Attribute>, attributes: seq<Attribute>)
    requires DistinctNames(target + attributes) && NulFree(attributes)
    ensures SetAll(target, attributes) == target + attributes
    decreases |attributes|
  {
    if attributes == [] {
      assert target + [] == target;
    } else {
      var a := attributes[0];
      CStrSame(a.name);
      CStrSame(a.value);
      assert target + attributes == target + [a] + attributes[1..];
      NewName(target, a, attributes[1..]);
      SetAllAppends(target + [a], attributes[1..]);
    }
  }

  lemma NewName(target: seq<Attribute>, a: Attribute, rest: seq<Attribute>)
    requires DistinctNames(target + [a] + rest)
    ensures Set(target, a.name, a.value) == target + [a]
  {
    var all := target + [a] + rest;
    assert all[|target|] == a && forall i :: 0 <= i < |target| ==> all[i] == target[i];
  }

  lemma AttributesCopied(attributes: seq<Attribute>)
    ensures SetAll([], Walked(attributes)) == attributes
       <==> NulFree(attributes) && NoBlank(attributes) && DistinctNames(attributes)
  {
    WalkIsComplete(attributes);
    SetAllIsClean([], Walked(attributes));
    if NulFree(attributes) && NoBlank(attributes) && DistinctNames(attributes) {
      assert [] + attributes == attributes;
      SetAllAppends([], attributes);
    }
  }

  /** The list with every string up to its first NUL. */
  function Cut(attributes: seq<Attribute>): (r: seq<Attribute>)
    ensures |r| == |attributes|
    ensures forall i :: 0 <= i < |r| ==> r[i] == Attribute(CStr(attributes[i].name), CStr(attributes[i].value))
  {
    seq(|attributes|, i requires 0 <= i < |attributes| => Attribute(CStr(attributes[i].name), CStr(attributes[i].value)))
  }

  lemma {:induction false} SetAllOfCut(target: seq<Attribute>, attributes: seq<Attribute>)
    ensures SetAll(target, Cut(attributes)) == SetAll(target, attributes)
    decreases |attributes|
  {
    if attributes != [] {
      var a, c := attributes[0], Cut(attributes);
      assert c[1..] == Cut(attributes[1..]);
      CStrSame(CStr(a.name));
      CStrSame(CStr(a.value));
      SetAllOfCut(Set(target, CStr(a.name), CStr(a.value)), attributes[1..]);
    }
  }

  /**
   What a copy holds when something is lost: every string ends before its first NUL, and when the names that are left
   differ and the walk is complete, no attribute is lost.
   */
  lemma StringsAreCut(c: Content)
    ensures match c
            case DocumentContent(name) => CopyContent(c) == DocumentContent(CStr(name))
            case ElementContent(name, attributes) =>
              DistinctNames(Cut(attributes)) && NoBlank(attributes) ==>
                CopyContent(c) == ElementContent(CStr(name), Cut(attributes))
            case TextContent(value, cdata) => CopyContent(c) == TextContent(CStr(value), cdata)
            case CommentContent(value) => CopyContent(c) == CommentContent(CStr(value))
            case UnknownContent(value) => CopyContent(c) == UnknownContent(CStr(value))
            case DeclarationContent(_, _, _) => CopyContent(c) == c
  {
    hide CStr, SetAll, DistinctNames, NoBlank;
    if c.ElementContent? && DistinctNames(Cut(c.attributes)) && NoBlank(c.attributes) {
      var cut := Cut(c.attributes);
      WalkedWhole(c.attributes);
      SetAllOfCut([], c.attributes);
      assert [] + cut == cut;
      SetAllAppends([], cut);
    }
  }

  lemma WalkedWhole(attributes: seq<Attribute>)
    requires NoBlank(attributes)
    ensures Walked(attributes) == attributes
  {
    WalkIsComplete(attributes);
  }

  /** A clone is structurally equal to its original exactly when everything in the original can be copied. */
  lemma {:induction false} CloneIsFaithful(t: Tree)
    ensures CloneOf(t) == t <==> AllCopyable(t)
    decreases t, 0
  {
    ContentCopied(t.content);
    AllFaithful(t.children);
    assert CloneAll(t.children) == t.children <==> forall i :: 0 <= i < |t.children| ==> AllCopyable(t.children[i]);
  }

  lemma ContentCopied(c: Content)
    ensures CopyContent(c) == c <==> Copyable(c)
  {
    hide CStr, SetAll, Walked, NulFree, NoBlank, DistinctNames;
    match c
    case DocumentContent(name) => CStrSame(name);
    case ElementContent(name, attributes) => CStrSame(name); AttributesCopied(attributes);
    case TextContent(value, _) => CStrSame(value);
    case CommentContent(value) => CStrSame(value);
    case UnknownContent(value) => CStrSame(value);
    case DeclarationContent(_, _, _) =>
  }

  lemma {:induction false} AllFaithful(ts: seq<Tree>)
    ensures CloneAll(ts) == ts <==> forall i :: 0 <= i < |ts| ==> AllCopyable(ts[i])
    decreases ts, 1
  {
    if ts != [] {
      CloneIsFaithful(ts[0]);
      AllFaithful(ts[1..]);
      assert ts == [ts[0]] + ts[1..];
      assert (forall i :: 0 <= i < |ts| ==> AllCopyable(ts[i]))
        <==> AllCopyable(ts[0]) && forall i :: 0 <= i < |ts[1..]| ==> AllCopyable(ts[1..][i]);
    }
  }
}
