/**
 The edits of the document object model. The nodes that are allocated form a forest before and after every edit;
 deleted nodes are freed once, and nothing that is left points to them.
 */
module XmlDomEdit {
  import opened Octets
  import opened XmlClone
  import opened XmlDom

  /** The position of x in s. */
  ghost function PositionOf(s: seq<DomNode>, x: DomNode): (i: nat)
    requires x in s
    ensures i < |s| && s[i] == x
  {
    if s[0] == x then 0 else 1 + PositionOf(s[1..], x)
  }

  /** Contents are as they were, and so are the children of every node but p. */
  twostate predicate OnlyChildrenOf(s: set<DomNode>, new p: DomNode)
    reads s
  {
    && (forall n :: n in s ==> n.content == old(n.content))
    && (forall n :: n in s && n != p ==> n.children == old(n.children))
  }

  /** Nobody's ancestors changed. */
  twostate predicate UpsStay(s: set<DomNode>)
    reads s
  {
    forall n :: n in s ==> n.up == old(n.up)
  }

  /** TiXmlNode::Value(); a declaration keeps its values elsewhere. */
  function Value(c: Content): bytes {
    match c
    case DocumentContent(name) => name
    case ElementContent(name, _) => name
    case TextContent(value, _) => value
    case CommentContent(value) => value
    case UnknownContent(value) => value
    case DeclarationContent(_, _, _) => []
  }

  /** The node is not being read: its parent, if it names one, has it among the children. */
  ghost predicate Settled(n: DomNode)
    reads n
  {
    n.parent == n.host
  }

  /** A document is never a child. */
  ghost predicate Nested(s: set<DomNode>)
    reads s
  {
    forall n :: n in s && n.host != null ==> !n.content.DocumentContent?
  }

  class Dom {
    /** The nodes that are allocated. */
    ghost var live: set<DomNode>

    ghost predicate Valid()
      reads this, live
    {
      Forest(live) && Nested(live)
    }

    constructor ()
      ensures Valid() && live == {}
    {
      live := {};
    }

    method Create(content: Content) returns (n: DomNode)
      requires Valid()
      modifies this`live
      ensures Valid() && fresh(n) && live == old(live) + {n} && n.content == content && n.children == []
      ensures n.parent == null && n.host == null && n.up == {n} && Below(n, live) == {n}
    {
      hide Forest, Below;
      n := new DomNode(content);
      AddRoot(live, n);
      live := live + {n};
    }

    /** What Identify does with the node it creates: the node names its parent already, so that it can report errors. */
    method Identify(self: DomNode, content: Content) returns (n: DomNode)
      requires Valid() && self in live && !content.DocumentContent?
      modifies this`live
      ensures Valid() && fresh(n) && live == old(live) + {n} && n.content == content && n.children == []
      ensures n.parent == self && n.host == null && n.up == {n} && Below(n, live) == {n}
    {
      hide Forest, Below;
      n := new DomNode(content);
      n.parent := self;
      AddRoot(live, n);
      live := live + {n};
    }

    /** The destructor: every node at and under n is freed, once, and none is used after that. */
    method Delete(n: DomNode, ghost s: set<DomNode>)
      requires Hangs(n, s) && Below(n, s) <= live
      modifies this`live
      ensures live == old(live) - Below(n, s)
      decreases s - n.up
    {
      hide Below, BelowAll, Hangs;
      BelowIs(n, s);
      NotUnderItself(n, s);
      ChildLinks(n, s);
      var node := n.firstChild;
      ghost var i := 0;
      BelowNone(s);
      while node != null
        invariant i <= |n.children| && node == if i < |n.children| then n.children[i] else null
        invariant live == old(live) - BelowAll(n.children[..i], s)
        decreases |n.children| - i
      {
        var temp := node;
        BelowNext(n, i, s);
        assert node in live;
        node := node.next;
        ChildHangs(n, temp, s);
        Delete(temp, s);
        i := i + 1;
      }
      assert n.children[..i] == n.children;
      assert n in live;
      live := live - {n};
    }

    // ---------------------------------------------------------------- finding

    /** FirstChild(value) */
    method FirstChild(self: DomNode, value: bytes) returns (found: DomNode?)
      requires Valid() && self in live
      ensures found == null ==> forall c :: c in self.children ==> CStr(Value(c.content)) != CStr(value)
      ensures found != null ==> found in self.children && CStr(Value(found.content)) == CStr(value)
      ensures found != null ==> (forall k :: 0 <= k < PositionOf(self.children, found) ==>
                                   CStr(Value(self.children[k].content)) != CStr(value))
    {
      hide Forest, CStr, Value, PositionOf;
      LinksForward(self, live);
      var node := self.firstChild;
      ghost var i := 0;
      while node != null
        invariant i <= |self.children| && node == if i < |self.children| then self.children[i] else null
        invariant forall k :: 0 <= k < i ==> CStr(Value(self.children[k].content)) != CStr(value)
        decreases |self.children| - i
      {
        if CStr(Value(node.content)) == CStr(value) {
          PositionUnique(self, i, live);
          return node;
        }
        node := node.next;
        i := i + 1;
      }
      return null;
    }

    /** LastChild(value) */
    method LastChild(self: DomNode, value: bytes) returns (found: DomNode?)
      requires Valid() && self in live
      ensures found == null ==> forall c :: c in self.children ==> CStr(Value(c.content)) != CStr(value)
      ensures found != null ==> found in self.children && CStr(Value(found.content)) == CStr(value)
      ensures found != null ==> (forall k :: PositionOf(self.children, found) < k < |self.children| ==>
                                   CStr(Value(self.children[k].content)) != CStr(value))
    {
      hide Forest, CStr, Value, PositionOf;
      LinksBack(self, live);
      var node := self.lastChild;
      ghost var i := |self.children|;
      while node != null
        invariant 0 <= i <= |self.children| && node == if i > 0 then self.children[i - 1] else null
        invariant forall k :: i <= k < |self.children| ==> CStr(Value(self.children[k].content)) != CStr(value)
        decreases i
      {
        if CStr(Value(node.content)) == CStr(value) {
          PositionUnique(self, i - 1, live);
          return node;
        }
        node := node.prev;
        i := i - 1;
      }
      return null;
    }

    // ---------------------------------------------------------------- linking

    ghost method Adopt(self: DomNode, node: DomNode, list: seq<DomNode>, under: set<DomNode>, s: set<DomNode>)
      requires self in s && under == Below(node, s)
      modifies self`children, under`up
      ensures self.children == list && Raised(s, old(self.up), node)
    {
      forall m | m in under {
        m.up := m.up + self.up;
      }
      self.children := list;
    }

    /** The pointers of LinkEndChild. */
    method Append(self: DomNode, node: DomNode, ghost near: set<DomNode>)
      requires self in live && node in live && self != node && near <= live
      requires near == {self, node} + if self.lastChild != null then {self.lastChild} else {}
      requires self.lastChild != null ==> self.lastChild != node
      modifies near`parent, near`host, near`prev, near`next, self`firstChild, self`lastChild
      ensures node.parent == self && node.host == self
      ensures Touched(live, self, old(self.lastChild), null, node)
      ensures Joined(self, old(self.lastChild), node, null, old(self.firstChild), old(self.lastChild))
    {
      node.parent := self;
      node.host := self;
      node.prev := self.lastChild;
      node.next := null;
      if self.lastChild != null {
        self.lastChild.next := node;
      } else {
        self.firstChild := node;
      }
      self.lastChild := node;
    }

    method Attach(self: DomNode, node: DomNode, ghost list: seq<DomNode>, ghost near: set<DomNode>, ghost under: set<DomNode>)
      requires self in live && node in live && self != node && under == Below(node, live) && near <= live
      requires near == {self, node} + if self.lastChild != null then {self.lastChild} else {}
      requires self.lastChild != null ==> self.lastChild != node
      modifies near`parent, near`host, near`prev, near`next, self`firstChild, self`lastChild, self`children, under`up
      ensures self.children == list && node.parent == self && node.host == self
      ensures Touched(live, self, old(self.lastChild), null, node)
      ensures Joined(self, old(self.lastChild), node, null, old(self.firstChild), old(self.lastChild))
      ensures Raised(live, old(self.up), node)
    {
      hide Below;
      Adopt(self, node, list, under, live);
      Append(self, node, near);
    }

    /** Puts a node that hangs nowhere at the end of the children; a document is deleted instead. */
    method LinkEndChild(self: DomNode, node: DomNode) returns (r: DomNode?)
      requires Valid() && self in live && node in live && node.host == null && node !in self.up
      requires node.parent == null || node.parent == self
      modifies this`live, self, self.lastChild, Below(node, live)
      ensures Valid() && (!node.content.DocumentContent? ==> live == old(live))
      ensures node.content.DocumentContent? ==> r == null && live == old(live - Below(node, live)) && unchanged(old(live))
      ensures !node.content.DocumentContent? ==>
        r == node && live == old(live) && self.children == old(self.children) + [node] && OnlyChildrenOf(live, self)
        && OnlyUnder(live, self, node) && Raised(live, old(self.up), node)
    {
      hide Forest, Splice, Without, Below, Hangs, OnlyUnder, Touched, Joined, Raised;
      RootHangs(node, live);
      if node.content.DocumentContent? {
        Delete(node, live);
        return null;
      }
      ghost var n := |self.children|;
      EndIsApart(self, node, live);
      ghost var near := {self, node} + if self.lastChild != null then {self.lastChild} else {};
      Attach(self, node, Splice(self.children, n, n, [node]), near, Below(node, live));
      EditDone(live, self, n, n, node, null);
      WithoutNone(live);
      StillNested(live, self, node);
      SpliceAtEnd(old(self.children), node);
      return node;
    }

    /** A copy of the node and all under it, in fresh nodes; s is the forest in which the node is. */
    method Clone(n: DomNode, ghost s: set<DomNode>) returns (c: DomNode)
      requires Valid() && Forest(s) && Nested(s) && n in s && s <= live
      modifies this`live
      ensures Valid() && old(live) <= live && fresh(live - old(live)) && c in live - old(live)
      ensures c.parent == null && c.host == null && Below(c, live) == live - old(live)
      ensures TreeOf(c, live) == CloneOf(TreeOf(n, s))
      ensures c.content == CopyContent(n.content)
      decreases s - n.up, 1
    {
      c := Create(CopyContent(n.content));
      NoTreesYet(c, live);
      CopyChildren(n, c, s);
    }

    /** The loop of CopyTo over the children. */
    method CopyChildren(n: DomNode, c: DomNode, ghost s: set<DomNode>)
      requires Valid() && Forest(s) && Nested(s) && n in s && s <= live && c in live && c !in s
      requires c.parent == null && c.host == null && Below(c, live) == {c} && c.children == []
      modifies this`live, c
      ensures Valid() && old(live) <= live && fresh(live - old(live))
      ensures c.parent == null && c.host == null && c.content == old(c.content) && Below(c, live) == {c} + (live - old(live))
      ensures TreesOf(c, 0, live) == CloneAll(TreesOf(n, 0, s))
      decreases s - n.up, 0
    {
      hide Forest, Linked, Placed, TreesOf, TreeOf, CloneOf, CloneAll, Below, Nested;
      CopyStart(n, c, s, live);
      var node := n.firstChild;
      ghost var i := 0;
      while node != null
        invariant Forest(s) && Nested(s)
        invariant i <= |n.children| && node == if i < |n.children| then n.children[i] else null
        invariant Valid() && old(live) <= live && fresh(live - old(live))
        invariant c.parent == null && c.host == null && c.content == old(c.content) && Below(c, live) == {c} + (live - old(live))
        invariant TreesOf(c, 0, live) + CloneAll(TreesOf(n, i, s)) == CloneAll(TreesOf(n, 0, s))
        decreases |n.children| - i
      {
        ChildOfForest(n, i, s);
        Outside(c, s, live);
        ghost var done := TreesOf(c, 0, live);
        CopyChild(node, c, s);
        AppendCopy(done, n, i, s);
        node := node.next;
        i := i + 1;
      }
      NoMoreTrees(n, s);
    }

    method CopyChild(node: DomNode, c: DomNode, ghost s: set<DomNode>)
      requires Valid() && Forest(s) && Nested(s) && node in s && node.host != null && s <= live && c in live && c !in s
      requires c.parent == null && c.host == null
      modifies this`live, Below(c, live)
      ensures Valid() && old(live) <= live && fresh(live - old(live))
      ensures c.parent == null && c.host == null && c.content == old(c.content) && Below(c, live) == old(Below(c, live)) + (live - old(live))
      ensures TreesOf(c, 0, live) == old(TreesOf(c, 0, live)) + [CloneOf(TreeOf(node, s))]
      decreases s - node.up, 2
    {
      hide Forest, Linked, Placed, TreesOf, TreeOf, CopyContent, CloneOf, Below, Raised;
      Rootless(c, live);
      Outside(c, s, live);
      var child := Clone(node, s);
      TreesGrow(c, 0, old(live), live);
      CopyIsNoDocument(node, s);
      Apart(c, old(live), child, live);
      label cloned:
      var r := LinkEndChild(c, child);
      TreesLinked@cloned(live, c, child, 0);
      BelowRaised@cloned(live, c, child);
    }

    // ---------------------------------------------------------------- inserting copies

    /** InsertEndChild: a copy is linked; a document is not copied. */
    method InsertEndChild(self: DomNode, addThis: DomNode) returns (r: DomNode?)
      requires Valid() && self in live && addThis in live
      modifies this`live, live
      ensures Valid() && UpsStay(old(live))
      ensures r == null ==> live == old(live) && unchanged(old(live))
      ensures r != null ==> r in live && old(live) <= live && fresh(live - old(live)) && fresh(r)
      ensures r != null ==> OnlyChildrenOf(old(live), self) && TreeOf(r, live) == CloneOf(old(TreeOf(addThis, live)))
      ensures r != null <==> !addThis.content.DocumentContent?
      ensures r != null ==> self.children == old(self.children) + [r]
    {
      hide Forest, Nested, Below, TreeOf, CloneOf, Raised;
      if addThis.content.DocumentContent? {
        return null;
      }
      assert !CopyContent(addThis.content).DocumentContent?;
      var node := CloneFor(self, addThis);
      ghost var all := live;
      label cloned:
      r := LinkRoot(self, node);
      RaisedElsewhere@cloned(all, old@cloned(self.up), node, old(live));
    }

    method CloneFor(self: DomNode, addThis: DomNode) returns (c: DomNode)
      requires Valid() && self in live && addThis in live
      modifies this`live
      ensures Valid() && old(live) <= live && fresh(live - old(live)) && c in live - old(live)
      ensures c.parent == null && c.host == null && c !in self.up && c.content == CopyContent(addThis.content)
      ensures forall n :: n in old(live) ==> c !in n.up
      ensures TreeOf(c, live) == CloneOf(TreeOf(addThis, old(live)))
    {
      hide Forest, Nested, Below, TreeOf, CloneOf;
      c := Clone(addThis, live);
      RootApart(self, old(live), c, live);
      AllApart(old(live), c);
    }

    method LinkRoot(self: DomNode, node: DomNode) returns (r: DomNode?)
      requires Valid() && self in live && node in live && node.parent == null && node.host == null && node !in self.up
      requires !node.content.DocumentContent?
      modifies this`live, live
      ensures Valid() && live == old(live) && r == node && OnlyChildrenOf(live, self)
      ensures self.children == old(self.children) + [node] && TreeOf(node, live) == old(TreeOf(node, live))
      ensures Raised(live, old(self.up), node)
    {
      hide Forest, Nested, Below, TreeOf, OnlyUnder, Raised;
      EndIsApart(self, node, live);
      RootHangs(node, live);
      r := LinkEndChild(self, node);
      TreeKept(live, self, node);
    }

    /** The pointers of InsertBeforeChild. */
    method WireBefore(self: DomNode, beforeThis: DomNode, node: DomNode)
      requires self in live && node in live && beforeThis in live && beforeThis != node
      requires beforeThis.prev != null ==> beforeThis.prev in live && beforeThis.prev != node && beforeThis.prev != beforeThis
      requires beforeThis.prev == null ==> self.firstChild == beforeThis
      modifies node`parent, node`host, live`prev, live`next, self`firstChild
      ensures node.parent == self && node.host == self
      ensures Touched(live, self, old(beforeThis.prev), beforeThis, node)
      ensures Joined(self, old(beforeThis.prev), node, beforeThis, old(self.firstChild), old(self.lastChild))
    {
      node.parent := self;
      node.host := self;
      node.next := beforeThis;
      node.prev := beforeThis.prev;
      if beforeThis.prev != null {
        beforeThis.prev.next := node;
      } else {
        self.firstChild := node;
      }
      beforeThis.prev := node;
    }

    /** The pointers of InsertAfterChild. */
    method WireAfter(self: DomNode, afterThis: DomNode, node: DomNode)
      requires self in live && node in live && afterThis in live && afterThis != node
      requires afterThis.next != null ==> afterThis.next in live && afterThis.next != node && afterThis.next != afterThis
      modifies node`parent, node`host, live`prev, live`next, self`lastChild
      ensures node.parent == self && node.host == self
      ensures Touched(live, self, afterThis, old(afterThis.next), node)
      ensures Joined(self, afterThis, node, old(afterThis.next), old(self.firstChild), old(self.lastChild))
    {
      node.parent := self;
      node.host := self;
      node.prev := afterThis;
      node.next := afterThis.next;
      if afterThis.next != null {
        afterThis.next.prev := node;
      } else {
        self.lastChild := node;
      }
      afterThis.next := node;
    }

    /** Puts the node, of which self is not a part, before the i-th child or after the one before that. */
    method Put(self: DomNode, node: DomNode, place: DomNode, before: bool, ghost i: nat)
      requires Valid() && self in live && node in live && node.host == null && node !in self.up
      requires !node.content.DocumentContent?
      requires if before then i < |self.children| && self.children[i] == place
               else 0 < i <= |self.children| && self.children[i - 1] == place
      modifies live
      ensures Valid() && self.children == Splice(old(self.children), i, i, [node]) && OnlyChildrenOf(live, self)
      ensures TreeOf(node, live) == old(TreeOf(node, live)) && Raised(live, old(self.up), node)
    {
      hide Forest, Splice, Without, Below, OnlyUnder, Touched, Joined, Raised, Nested, TreeOf;
      RootHangs(node, live);
      Neighbours(self, if before then i else i - 1, live);
      EndIsApart(self, node, live);
      PutPointers(self, node, place, before, Splice(self.children, i, i, [node]), Below(node, live));
      EditDone(live, self, i, i, node, null);
      StillNested(live, self, node);
      WithoutNone(live);
      TreeKept(live, self, node);
    }

    method PutPointers(self: DomNode, node: DomNode, place: DomNode, before: bool, ghost list: seq<DomNode>, ghost under: set<DomNode>)
      requires self in live && node in live && place in live && place != node && under == Below(node, live) && under <= live
      requires place.prev != null ==> place.prev in live && place.prev != node && place.prev != place
      requires place.next != null ==> place.next in live && place.next != node && place.next != place
      requires before && place.prev == null ==> self.firstChild == place
      modifies live
      ensures self.children == list && node.parent == self && node.host == self && Raised(live, old(self.up), node)
      ensures Touched(live, self, if before then old(place.prev) else place, if before then place else old(place.next), node)
      ensures Joined(self, if before then old(place.prev) else place, node, if before then place else old(place.next),
                     old(self.firstChild), old(self.lastChild))
    {
      hide Below;
      Adopt(self, node, list, under, live);
      if before {
        WireBefore(self, place, node);
      } else {
        WireAfter(self, place, node);
      }
    }

    method InsertBeforeChild(self: DomNode, beforeThis: DomNode?, addThis: DomNode) returns (r: DomNode?)
      requires Valid() && self in live && addThis in live && (beforeThis != null ==> beforeThis in live && Settled(beforeThis))
      modifies this`live, live
      ensures Valid() && UpsStay(old(live))
      ensures r == null ==> live == old(live) && unchanged(old(live))
      ensures r != null ==> r in live && old(live) <= live && fresh(live - old(live)) && fresh(r)
      ensures r != null ==> OnlyChildrenOf(old(live), self) && TreeOf(r, live) == CloneOf(old(TreeOf(addThis, live)))
      ensures r != null
         <==> beforeThis != null && old(beforeThis.parent) == self && !addThis.content.DocumentContent?
      ensures r != null ==> beforeThis in old(self.children)
      ensures r != null ==> (var i := PositionOf(old(self.children), beforeThis);
                             self.children == Splice(old(self.children), i, i, [r]))
    {
      hide Forest, Nested, Below, TreeOf, CloneOf, Splice, PositionOf, Raised;
      if beforeThis == null || beforeThis.parent != self {
        return null;
      }
      if addThis.content.DocumentContent? {
        return null;
      }
      ParentHas(beforeThis, live);
      assert !CopyContent(addThis.content).DocumentContent?;
      var node := CloneFor(self, addThis);
      ghost var all := live;
      label cloned:
      Put(self, node, beforeThis, true, PositionOf(self.children, beforeThis));
      RaisedElsewhere@cloned(all, old@cloned(self.up), node, old(live));
      return node;
    }

    method InsertAfterChild(self: DomNode, afterThis: DomNode?, addThis: DomNode) returns (r: DomNode?)
      requires Valid() && self in live && addThis in live && (afterThis != null ==> afterThis in live && Settled(afterThis))
      modifies this`live, live
      ensures Valid() && UpsStay(old(live))
      ensures r == null ==> live == old(live) && unchanged(old(live))
      ensures r != null ==> r in live && old(live) <= live && fresh(live - old(live)) && fresh(r)
      ensures r != null ==> OnlyChildrenOf(old(live), self) && TreeOf(r, live) == CloneOf(old(TreeOf(addThis, live)))
      ensures r != null
         <==> afterThis != null && old(afterThis.parent) == self && !addThis.content.DocumentContent?
      ensures r != null ==> afterThis in old(self.children)
      ensures r != null ==> (var i := PositionOf(old(self.children), afterThis) + 1;
                             self.children == Splice(old(self.children), i, i, [r]))
    {
      hide Forest, Nested, Below, TreeOf, CloneOf, Splice, PositionOf, Raised;
      if afterThis == null || afterThis.parent != self {
        return null;
      }
      if addThis.content.DocumentContent? {
        return null;
      }
      ParentHas(afterThis, live);
      assert !CopyContent(addThis.content).DocumentContent?;
      var node := CloneFor(self, addThis);
      ghost var all := live;
      label cloned:
      Put(self, node, afterThis, false, PositionOf(self.children, afterThis) + 1);
      RaisedElsewhere@cloned(all, old@cloned(self.up), node, old(live));
      return node;
    }

    /** The copy takes the place of the child, and all under the child is freed. */
    method ReplaceChild(self: DomNode, replaceThis: DomNode?, withThis: DomNode) returns (r: DomNode?)
      requires Valid() && self in live && withThis in live && (replaceThis != null ==> replaceThis in live && Settled(replaceThis))
      modifies this`live, live
      ensures Valid() && UpsStay(old(live))
      ensures r == null ==> live == old(live) && unchanged(old(live))
      ensures r != null ==> r in live && fresh(live - old(live)) && fresh(r)
      ensures r != null ==> forall n :: n in old(live) ==> (n in live <==> replaceThis !in old(n.up))
      ensures r != null ==> OnlyChildrenOf(old(live), self) && TreeOf(r, live) == CloneOf(old(TreeOf(withThis, live)))
      ensures r != null
         <==> replaceThis != null && old(replaceThis.parent) == self && !withThis.content.DocumentContent?
      ensures r != null ==> replaceThis in old(self.children)
      ensures r != null ==> (var i := PositionOf(old(self.children), replaceThis);
                             self.children == Splice(old(self.children), i, i + 1, [r]))
    {
      hide Forest, Nested, TreeOf, CloneOf, Splice, PositionOf, Raised;
      if replaceThis == null {
        return null;
      }
      if replaceThis.parent != self {
        return null;
      }
      if withThis.content.DocumentContent? {
        return null;
      }
      ParentHas(replaceThis, live);
      assert !CopyContent(withThis.content).DocumentContent?;
      var node := CloneFor(self, withThis);
      ghost var all := live;
      label cloned:
      Exchange(self, replaceThis, node, PositionOf(self.children, replaceThis));
      RaisedElsewhere@cloned(all, old@cloned(self.up), node, old(live));
      return node;
    }

    /** The pointers of ReplaceChild, but for the parent, which is set after the child is deleted. */
    method WireInstead(self: DomNode, replaceThis: DomNode, node: DomNode, ghost near: set<DomNode>)
      requires self in live && node in live && replaceThis in live && replaceThis != node
      requires replaceThis.prev != null ==> replaceThis.prev in live && replaceThis.prev != node && replaceThis.prev != replaceThis
      requires replaceThis.next != null ==> replaceThis.next in live && replaceThis.next != node && replaceThis.next != replaceThis
      requires near == {node} + (if replaceThis.prev != null then {replaceThis.prev} else {})
                              + (if replaceThis.next != null then {replaceThis.next} else {})
      modifies near`prev, near`next, self`firstChild, self`lastChild
      ensures Raised(live, {}, null)
      ensures Touched(live, self, old(replaceThis.prev), old(replaceThis.next), node)
      ensures Joined(self, old(replaceThis.prev), node, old(replaceThis.next), old(self.firstChild), old(self.lastChild))
    {
      node.next := replaceThis.next;
      node.prev := replaceThis.prev;
      WireNext(self, replaceThis.next, node, near);
      if replaceThis.prev != null {
        replaceThis.prev.next := node;
      } else {
        self.firstChild := node;
      }
    }

    /** What follows the node points back to it. */
    method WireNext(self: DomNode, next: DomNode?, node: DomNode, ghost near: set<DomNode>)
      requires next != null ==> next in near
      modifies near`prev, self`lastChild
      ensures if next != null then next.prev == node && self.lastChild == old(self.lastChild) else self.lastChild == node
      ensures forall n :: n in near && n != next ==> n.prev == old(n.prev)
    {
      if next != null {
        next.prev := node;
      } else {
        self.lastChild := node;
      }
    }

    method Exchange(self: DomNode, replaceThis: DomNode, node: DomNode, ghost i: nat)
      requires Valid() && self in live && i < |self.children| && self.children[i] == replaceThis
      requires node in live && node.host == null && node !in self.up && !node.content.DocumentContent?
      modifies this`live, live
      ensures Valid() && live == old(live - Below(replaceThis, live)) && node in live
      ensures self.children == Splice(old(self.children), i, i + 1, [node]) && OnlyChildrenOf(old(live), self)
      ensures TreeOf(node, live) == old(TreeOf(node, live)) && Raised(old(live), old(self.up), node)
    {
      hide Forest, Splice, Without, Below, OnlyUnder, Touched, Joined, Raised, Nested, TreeOf, Hangs;
      ghost var s := live;
      Neighbours(self, i, live);
      EndIsApart(self, node, live);
      RootHangs(node, live);
      ghost var list := Splice(self.children, i, i + 1, [node]);
      ExchangePointers(self, replaceThis, node, i, list, Below(node, live));
      EditDone(s, self, i, i + 1, node, replaceThis);
      StillNested(s, self, node);
      NestedPart(s, live);
      ReplacedApart(s, self, node, replaceThis);
      WithoutIs(s, replaceThis);
      TreeSwapped(s, self, node, replaceThis, live);
    }

    method ExchangePointers(self: DomNode, replaceThis: DomNode, node: DomNode, ghost i: nat, ghost list: seq<DomNode>, ghost under: set<DomNode>)
      requires Forest(live) && self in live && i < |self.children| && self.children[i] == replaceThis
      requires node in live && node.host == null && node != self && under == Below(node, live) && under <= live
      modifies this`live, live
      ensures live == old(live - Below(replaceThis, live)) && self.children == list && node.parent == self && node.host == self
      ensures Touched(old(live), self, old(replaceThis.prev), old(replaceThis.next), node)
      ensures Joined(self, old(replaceThis.prev), node, old(replaceThis.next), old(self.firstChild), old(self.lastChild))
      ensures Raised(old(live), old(self.up), node)
    {
      hide Forest, Below;
      ghost var s := live;
      SwapAndDelete(self, replaceThis, node, i);
      SetParent(self, node, list, under, s);
    }

    method SetParent(self: DomNode, node: DomNode, ghost list: seq<DomNode>, ghost under: set<DomNode>, ghost s: set<DomNode>)
      requires self in s && node in s && under == Below(node, s) && node != self
      modifies self`children, under`up, node`parent, node`host
      ensures self.children == list && node.parent == self && node.host == self && Raised(s, old(self.up), node)
    {
      Adopt(self, node, list, under, s);
      node.parent := self;
      node.host := self;
    }

    method SwapAndDelete(self: DomNode, replaceThis: DomNode, node: DomNode, ghost i: nat)
      requires Forest(live) && self in live && i < |self.children| && self.children[i] == replaceThis
      requires node in live && node.host == null && node != self
      modifies this`live, live`prev, live`next, self`firstChild, self`lastChild
      ensures live == old(live - Below(replaceThis, live))
      ensures Below(node, old(live)) == old(Below(node, live))
      ensures Touched(old(live), self, old(replaceThis.prev), old(replaceThis.next), node)
      ensures Joined(self, old(replaceThis.prev), node, old(replaceThis.next), old(self.firstChild), old(self.lastChild))
    {
      hide Forest, Below, OnlyUnder, Hangs, Touched, Raised, Joined;
      ghost var s := live;
      Neighbours(self, i, s);
      EndIsApart(self, node, s);
      ListDistinct(self, s);
      ghost var near := {node} + (if replaceThis.prev != null then {replaceThis.prev} else {})
                               + (if replaceThis.next != null then {replaceThis.next} else {});
      WireInstead(self, replaceThis, node, near);
      BelowSame(s, node);
      TouchedOnly(s, self, i, i + 1, node);
      StillHangs(s, self, node, replaceThis);
      BelowWithin(replaceThis, s);
      Delete(replaceThis, s);
    }

    // ---------------------------------------------------------------- edits

    /** Unlinks the child and frees all that is under it; null, or a node that is not a child, is refused. */
    method RemoveChild(self: DomNode, removeThis: DomNode?) returns (r: bool)
      requires Valid() && self in live && (removeThis != null ==> removeThis in live && Settled(removeThis))
      modifies this`live, self, live
      ensures Valid() && UpsStay(old(live))
      ensures r <==> removeThis != null && old(removeThis.parent) == self
      ensures !r ==> live == old(live) && unchanged(live)
      ensures r ==> live == old(live - Below(removeThis, live)) && OnlyChildrenOf(old(live), self)
      ensures r ==> removeThis in old(self.children)
      ensures r ==> self.children == old(var i := PositionOf(self.children, removeThis); Splice(self.children, i, i + 1, []))
    {
      hide Forest, Splice, Hangs;
      if removeThis == null {
        return false;
      }
      if removeThis.parent != self {
        return false;
      }
      ParentHas(removeThis, live);
      Unlink(self, removeThis, PositionOf(self.children, removeThis));
      Delete(removeThis, live);
      return true;
    }

    method Unlink(self: DomNode, removeThis: DomNode, ghost i: nat)
      requires Valid() && self in live && i < |self.children| && self.children[i] == removeThis
      modifies live
      ensures Forest(live - Below(removeThis, live)) && Hangs(removeThis, live) && Nested(live)
      ensures Below(removeThis, live) == old(Below(removeThis, live))
      ensures self.children == Splice(old(self.children), i, i + 1, []) && OnlyChildrenOf(live, self)
      ensures UpsStay(live)
    {
      hide Forest, Splice, Without, Below, Hangs, OnlyUnder, Touched, Joined;
      Neighbours(self, i, live);
      Bypass(self, removeThis, Splice(self.children, i, i + 1, []));
      EditDone(live, self, i, i + 1, null, removeThis);
      StillHangs(live, self, null, removeThis);
      StillNested(live, self, null);
      WithoutIs(live, removeThis);
    }

    /** The pointers around the child, as RemoveChild rewrites them. */
    method Bypass(self: DomNode, removeThis: DomNode, ghost list: seq<DomNode>)
      requires self in live && removeThis in live
      requires removeThis.prev != null ==> removeThis.prev in live && removeThis.prev != removeThis
      requires removeThis.next != null ==> removeThis.next in live && removeThis.next != removeThis
      modifies live`prev, live`next, self`firstChild, self`lastChild, self`children
      ensures self.children == list
      ensures Touched(live, self, old(removeThis.prev), old(removeThis.next), null)
      ensures Joined(self, old(removeThis.prev), null, old(removeThis.next), old(self.firstChild), old(self.lastChild))
    {
      if removeThis.next != null {
        removeThis.next.prev := removeThis.prev;
      } else {
        self.lastChild := removeThis.prev;
      }
      if removeThis.prev != null {
        removeThis.prev.next := removeThis.next;
      } else {
        self.firstChild := removeThis.next;
      }
      self.children := list;
    }
  }

  twostate lemma RaisedElsewhere(s: set<DomNode>, new above: set<DomNode>, new x: DomNode, new t: set<DomNode>)
    requires Raised(s, above, x) && t <= s && forall n :: n in t ==> x !in old(n.up)
    ensures UpsStay(t)
  {}

  /** Under p, x stands between a and b, each if given; where a or b is not, x is at the end of the list. */
  ghost predicate Joined(p: DomNode, a: DomNode?, x: DomNode?, b: DomNode?, first: DomNode?, last: DomNode?)
    reads p, a, x, b
  {
    && (if a != null then a.next == (if x != null then x else b) && p.firstChild == first
        else p.firstChild == if x != null then x else b)
    && (if b != null then b.prev == (if x != null then x else a) && p.lastChild == last
        else p.lastChild == if x != null then x else a)
    && (x != null ==> x.prev == a && x.next == b)
  }

  /** Of the links among the nodes of s only these changed: the list of p, a.next, b.prev, and the place of x. */
  twostate predicate Touched(s: set<DomNode>, new p: DomNode, new a: DomNode?, new b: DomNode?, new x: DomNode?)
    reads s
  {
    forall n :: n in s ==>
      && n.content == old(n.content)
      && (n != p ==> n.firstChild == old(n.firstChild) && n.lastChild == old(n.lastChild) && n.children == old(n.children))
      && (n != x ==> n.parent == old(n.parent) && n.host == old(n.host))
      && (n != x && n != a ==> n.next == old(n.next))
      && (n != x && n != b ==> n.prev == old(n.prev))
  }

  lemma AddRoot(s: set<DomNode>, n: DomNode)
    requires Forest(s) && n !in s && n.host == null && n.children == [] && n.up == {n}
    requires n.firstChild == null && n.lastChild == null
    ensures Forest(s + {n}) && Below(n, s + {n}) == {n}
  {
    assert Linked(n) && Placed(n);
    hide Linked, Placed;
    assert forall m :: m in s ==> n !in m.up;
  }

  lemma ListDistinct(n: DomNode, s: set<DomNode>)
    requires Forest(s) && n in s
    ensures forall k, l :: 0 <= k < l < |n.children| ==> n.children[k] != n.children[l]
    ensures forall c :: c in n.children ==> c.host == n && c in s
  {
    assert Linked(n);
    forall c | c in n.children
      ensures c.host == n
    {
      ChildOf(n, c);
    }
  }

  lemma KeptMembers(s: seq<DomNode>, i: nat, j: nat, mid: seq<DomNode>)
    requires i <= j <= |s|
    ensures forall k :: 0 <= k < |s| && (k < i || j <= k) ==> s[k] in Splice(s, i, j, mid)
    ensures forall x :: x in mid ==> x in Splice(s, i, j, mid)
  {}

  lemma EndsOf(s: seq<DomNode>, i: nat, j: nat, mid: seq<DomNode>)
    requires i <= j <= |s|
    ensures First(Splice(s, i, j, mid)) == if i > 0 then s[0] else if mid != [] then mid[0] else if j < |s| then s[j] else null
    ensures Last(Splice(s, i, j, mid))
         == if j < |s| then s[|s| - 1] else if mid != [] then mid[|mid| - 1] else if i > 0 then s[i - 1] else null
  {}

  lemma RootHangs(n: DomNode, s: set<DomNode>)
    requires Forest(s) && n in s && n.host == null
    ensures Hangs(n, s) && n in Below(n, s) && Below(n, s) <= s && Forest(s - Below(n, s))
  {
    hide Linked, Hangs;
    ForestHangs(n, s);
    assert Placed(n);
    forall m | m in s && n !in m.up
      ensures m.host != null ==> n !in m.host.up
      ensures forall c :: c in m.children ==> n !in c.up
    {
      NotUnderRoot(n, m, s);
    }
  }

  /** What is not under a root has neither its parent nor a child under it. */
  lemma NotUnderRoot(n: DomNode, m: DomNode, s: set<DomNode>)
    requires Forest(s) && n in s && n.host == null && m in s && n !in m.up
    ensures m.host != null ==> n !in m.host.up
    ensures forall c :: c in m.children ==> n !in c.up
  {
    hide Siblings;
    assert Placed(m);
    forall c | c in m.children
      ensures n !in c.up
    {
      assert Linked(m) && Placed(c);
      ParentIs(m, c);
      ChildOf(m, c);
    }
  }

  lemma ChildOfForest(n: DomNode, i: nat, s: set<DomNode>)
    requires Forest(s) && n in s && i < |n.children|
    ensures n.children[i] in s && n.children[i].host == n && s - n.children[i].up < s - n.up
    ensures n.children[i].next == if i + 1 < |n.children| then n.children[i + 1] else null
  {
    ForestHangs(n, s);
    ChildHangs(n, n.children[i], s);
    ChildUp(n, n.children[i], s);
    ChildLinks(n, s);
  }

  lemma AppendCopy(done: seq<Tree>, n: DomNode, i: nat, s: set<DomNode>)
    requires Forest(s) && n in s && i < |n.children|
    ensures n.children[i] in s
    ensures done + CloneAll(TreesOf(n, i, s))
         == (done + [CloneOf(TreeOf(n.children[i], s))]) + CloneAll(TreesOf(n, i + 1, s))
  {
    ChildOfForest(n, i, s);
    var t := TreesOf(n, i, s);
    assert t == [TreeOf(n.children[i], s)] + TreesOf(n, i + 1, s);
    assert t[1..] == TreesOf(n, i + 1, s);
  }

  /** A tree does not change when the forest around it grows. */
  lemma {:induction false} TreeGrows(n: DomNode, s: set<DomNode>, t: set<DomNode>)
    requires Forest(s) && Forest(t) && s <= t && n in s
    ensures TreeOf(n, s) == TreeOf(n, t)
    decreases s - n.up
  {
    TreesGrow(n, 0, s, t);
  }

  lemma {:induction false} TreesGrow(n: DomNode, i: nat, s: set<DomNode>, t: set<DomNode>)
    requires Forest(s) && Forest(t) && s <= t && n in s && i <= |n.children|
    ensures TreesOf(n, i, s) == TreesOf(n, i, t)
    decreases s - n.up, |n.children| - i
  {
    hide Linked, Placed;
    if i < |n.children| {
      ChildOfForest(n, i, s);
      TreeGrows(n.children[i], s, t);
      TreesGrow(n, i + 1, s, t);
    }
  }

  /** Linking x at the end of the children of c adds its tree to theirs. */
  twostate lemma {:induction false} TreesLinked(s: set<DomNode>, new c: DomNode, new x: DomNode, new i: nat)
    requires old(Forest(s)) && Forest(s) && c in s && x in s && old(x.host) == null && x !in old(c.up)
    requires OnlyChildrenOf(s, c) && c.children == old(c.children) + [x] && i <= |old(c.children)|
    ensures TreesOf(c, i, s) == old(TreesOf(c, i, s)) + [old(TreeOf(x, s))]
    decreases |old(c.children)| - i
  {
    hide Linked, Siblings;
    if i == |old(c.children)| {
      TreeStays(s, x, s);
      assert TreesOf(c, i + 1, s) == [];
    } else {
      OldChildUp(s, c, c.children[i]);
      TreeStays(s, c.children[i], s);
      TreesLinked(s, c, x, i + 1);
    }
  }

  /** A tree that is linked under p keeps its shape. */
  twostate lemma TreeKept(s: set<DomNode>, new p: DomNode, new x: DomNode)
    requires old(Forest(s)) && Forest(s) && x in s && p in s && x !in old(p.up) && OnlyChildrenOf(s, p)
    ensures TreeOf(x, s) == old(TreeOf(x, s))
  {
    TreeStays(s, x, s);
  }

  /** As TreeKept, when x took the place of r and the nodes under r are gone. */
  twostate lemma TreeSwapped(s: set<DomNode>, new p: DomNode, new x: DomNode, new r: DomNode, new t: set<DomNode>)
    requires old(Forest(s)) && Forest(t) && x in s && p in s && x !in old(p.up) && OnlyChildrenOf(s, p)
    requires old(x.host) == null && r in old(p.children) && t == s - old(Below(r, s))
    ensures x in t && TreeOf(x, t) == old(TreeOf(x, s))
  {
    OldChildUp(s, p, r);
    assert old(Placed(x));
    forall m | m in s && x in old(m.up)
      ensures m in t
    {
      if r in old(m.up) {
        RootAbove(s, m, x, r);
      }
    }
    hide Forest, Linked, Placed;
    TreeStays(s, x, t);
  }

  twostate lemma {:induction false} RootAbove(s: set<DomNode>, new m: DomNode, new x: DomNode, new r: DomNode)
    requires old(Forest(s)) && m in s && x in s && x in old(m.up) && r in old(m.up) && old(x.host) == null
    ensures x in old(r.up)
    decreases old(m.up)
  {
    hide Linked;
    assert old(Placed(m)) && old(Placed(x));
    if m != r && m != x {
      RootAbove(s, old(m.host), x, r);
    }
  }

  lemma RootApart(p: DomNode, s: set<DomNode>, x: DomNode, t: set<DomNode>)
    requires Forest(s) && p in s && s <= t && x !in s
    ensures x !in p.up
  {}

  lemma AllApart(s: set<DomNode>, x: DomNode)
    requires Forest(s) && x !in s
    ensures forall n :: n in s ==> x !in n.up
  {}

  lemma Rootless(c: DomNode, s: set<DomNode>)
    requires Forest(s) && c in s && c.host == null
    ensures c.up == {c} && c in Below(c, s)
    ensures c.lastChild != null ==> c.lastChild in Below(c, s)
  {
    assert Placed(c) && Linked(c);
    if c.children != [] {
      ForestHangs(c, s);
      ChildUp(c, c.children[|c.children| - 1], s);
    }
  }

  lemma CopyIsNoDocument(n: DomNode, s: set<DomNode>)
    requires Nested(s) && n in s && n.host != null
    ensures !CopyContent(n.content).DocumentContent?
  {}

  lemma Apart(c: DomNode, s: set<DomNode>, child: DomNode, t: set<DomNode>)
    requires Forest(t) && s <= t && Below(child, t) == t - s
    requires c in s && c.host == null && child in t && child.host == null && child !in s
    ensures Below(c, t) == Below(c, s) && child !in c.up
  {
    hide Linked;
    assert Placed(c);
    forall m | m in t - s
      ensures c !in m.up
    {
      if c in m.up {
        OneRoot(m, c, child, t);
      }
    }
  }

  lemma {:induction false} OneRoot(m: DomNode, a: DomNode, b: DomNode, s: set<DomNode>)
    requires Forest(s) && m in s && a in m.up && b in m.up && a.host == null && b.host == null
    ensures a == b
    decreases m.up
  {
    hide Linked;
    assert Placed(m);
    if m.host != null {
      OneRoot(m.host, a, b, s);
    }
  }

  lemma Outside(c: DomNode, s: set<DomNode>, t: set<DomNode>)
    requires Forest(s) && c !in s
    ensures Below(c, t) !! s
  {}

  /** The nodes under x come under c. */
  twostate lemma BelowRaised(s: set<DomNode>, new c: DomNode, new x: DomNode)
    requires old(Forest(s)) && c in s && x in s && old(x.host) == null && old(c.up) == {c} && c != x
    requires Raised(s, {c}, x)
    ensures Below(c, s) == old(Below(c, s)) + old(Below(x, s))
  {}

  lemma CopyStart(n: DomNode, c: DomNode, s: set<DomNode>, t: set<DomNode>)
    requires Forest(s) && n in s && Forest(t) && c in t && c.children == []
    ensures n.firstChild == First(n.children)
    ensures TreesOf(c, 0, t) + CloneAll(TreesOf(n, 0, s)) == CloneAll(TreesOf(n, 0, s))
  {
    assert Linked(n);
  }

  lemma NoMoreTrees(n: DomNode, s: set<DomNode>)
    requires Forest(s) && n in s
    ensures forall done: seq<Tree> :: done + CloneAll(TreesOf(n, |n.children|, s)) == done
  {}

  lemma NoTreesYet(c: DomNode, s: set<DomNode>)
    requires Forest(s) && c in s && c.children == []
    ensures TreesOf(c, 0, s) == []
  {}

  lemma EndIsApart(p: DomNode, node: DomNode, s: set<DomNode>)
    requires Forest(s) && p in s && node in s && node.host == null
    ensures p in p.up && p.lastChild == Last(p.children) && (p.lastChild != null ==> p.lastChild in s && p.lastChild != node)
  {
    assert Linked(p) && Placed(p);
    if p.children != [] {
      ListDistinct(p, s);
    }
  }

  lemma SpliceAtEnd(l: seq<DomNode>, x: DomNode)
    ensures Splice(l, |l|, |l|, [x]) == l + [x]
  {}

  lemma ParentHas(n: DomNode, s: set<DomNode>)
    requires Forest(s) && n in s && n.host != null
    ensures n.host in s && n in n.host.children
  {
    assert Placed(n);
  }

  /** The links around the i-th child of p. */
  lemma Neighbours(p: DomNode, i: nat, s: set<DomNode>)
    requires Forest(s) && p in s && i < |p.children|
    ensures var l := p.children;
            && l[i] in s && l[i].host == p
            && l[i].prev == (if i > 0 then l[i - 1] else null)
            && l[i].next == (if i + 1 < |l| then l[i + 1] else null)
            && (i > 0 ==> l[i - 1] in s && l[i - 1].host == p && l[i - 1].next == l[i] && l[i - 1] != l[i])
            && (i + 1 < |l| ==> l[i + 1] in s && l[i + 1].host == p && l[i + 1].prev == l[i] && l[i + 1] != l[i])
            && (i > 0 && i + 1 < |l| ==> l[i - 1] != l[i + 1])
            && p.firstChild == l[0] && p.lastChild == l[|l| - 1]
  {
    var l := p.children;
    assert Linked(p);
    assert l[i] in l;
    if i > 0 {
      assert l[i - 1] in l && l[i - 1].host == p && l[i - 1].next == l[i];
    }
    if i + 1 < |l| {
      assert l[i + 1] in l && l[i + 1].host == p && l[i + 1].prev == l[i];
    }
  }

  lemma ChildLinks(n: DomNode, s: set<DomNode>)
    requires Hangs(n, s)
    ensures n.firstChild == First(n.children)
    ensures forall i {:trigger n.children[i].next} :: 0 <= i < |n.children| ==>
      n.children[i].next == if i + 1 < |n.children| then n.children[i + 1] else null
  {
    assert Linked(n);
  }

  lemma LinksForward(n: DomNode, s: set<DomNode>)
    requires Forest(s) && n in s
    ensures n.firstChild == First(n.children)
    ensures forall i {:trigger n.children[i].next} :: 0 <= i < |n.children| ==>
      n.children[i].next == if i + 1 < |n.children| then n.children[i + 1] else null
  {
    assert Linked(n);
  }

  lemma PositionUnique(n: DomNode, i: nat, s: set<DomNode>)
    requires Forest(s) && n in s && i < |n.children|
    ensures PositionOf(n.children, n.children[i]) == i
  {
    ListDistinct(n, s);
    assert n.children[PositionOf(n.children, n.children[i])] == n.children[i];
  }

  lemma LinksBack(n: DomNode, s: set<DomNode>)
    requires Forest(s) && n in s
    ensures n.lastChild == Last(n.children)
    ensures forall i {:trigger n.children[i].prev} :: 0 <= i < |n.children| ==>
      n.children[i].prev == if i > 0 then n.children[i - 1] else null
  {
    assert Linked(n);
  }

  lemma BelowNone(s: set<DomNode>)
    ensures BelowAll([], s) == {}
  {}

  /** The nodes under the i-th child are not under an earlier one. */
  lemma BelowNext(n: DomNode, i: nat, s: set<DomNode>)
    requires Hangs(n, s) && i < |n.children|
    ensures var c := n.children[i];
            && c in s
            && c in Below(c, s)
            && Below(c, s) <= BelowAll(n.children, s)
            && Below(c, s) !! BelowAll(n.children[..i], s)
            && BelowAll(n.children[..i + 1], s) == BelowAll(n.children[..i], s) + Below(c, s)
  {
    var c := n.children[i];
    hide Linked, Siblings;
    ChildUp(n, c, s);
    HangingDistinct(n, s);
    forall m | m in Below(c, s)
      ensures m !in BelowAll(n.children[..i], s)
    {
      forall d | d in n.children[..i]
        ensures d !in m.up
      {
        ChildrenApart(n, c, d, m, s);
      }
    }
    assert n.children[..i + 1] == n.children[..i] + [c];
  }

  lemma HangingDistinct(n: DomNode, s: set<DomNode>)
    requires Hangs(n, s)
    ensures forall k, l :: 0 <= k < l < |n.children| ==> n.children[k] != n.children[l]
  {
    assert Linked(n);
  }

  lemma NotUnderItself(n: DomNode, s: set<DomNode>)
    requires Hangs(n, s)
    ensures n in Below(n, s) && n !in BelowAll(n.children, s)
  {
    forall d | d in n.children
      ensures d !in n.up
    {
      ChildUp(n, d, s);
    }
  }

  twostate lemma TouchedOnly(s: set<DomNode>, new p: DomNode, new i: nat, new j: nat, new x: DomNode?)
    requires old(Forest(s)) && p in s && i <= j <= |old(p.children)|
    requires x != null ==> x !in old(p.children)
    requires var l := old(p.children);
             Touched(s, p, if i > 0 then l[i - 1] else null, if j < |l| then l[j] else null, x)
    ensures OutsideSame(old(p.children), i, j) && OnlyUnder(s, p, x) && OnlyChildrenOf(s, p)
  {
    hide Forest, Linked, Placed, Siblings;
    var l := old(p.children);
    OldList(s, p);
    forall k {:trigger l[k].next} | 0 <= k < |l| && (k + 1 < i || j <= k)
      ensures l[k].next == old(l[k].next)
    {
      assert l[k] in l;
    }
    forall k {:trigger l[k].prev} | 0 <= k < |l| && (k < i || j < k)
      ensures l[k].prev == old(l[k].prev)
    {
      assert l[k] in l;
    }
    forall k {:trigger l[k].host} | 0 <= k < |l| && (k < i || j <= k)
      ensures l[k].host == old(l[k].host)
    {
      assert l[k] in l;
    }
    assert i > 0 ==> l[i - 1] in l;
    assert j < |l| ==> l[j] in l;
  }

  twostate lemma OldList(s: set<DomNode>, new p: DomNode)
    requires old(Forest(s)) && p in s
    ensures forall k, l :: 0 <= k < l < |old(p.children)| ==> old(p.children)[k] != old(p.children)[l]
    ensures forall c :: c in old(p.children) ==> c in s && old(c.host) == p
  {
    assert old(Linked(p));
    forall c | c in old(p.children)
      ensures old(c.host) == p
    {
      OldChildOf(p, c);
    }
  }

  twostate lemma TouchedMoves(s: set<DomNode>, new p: DomNode, new i: nat, new j: nat, new x: DomNode?, new r: DomNode?)
    requires old(Forest(s)) && p in s && i <= j <= |old(p.children)| && j <= i + 1
    requires OnlyUnder(s, p, x) && Raised(s, old(p.up), x)
    requires p.children == Splice(old(p.children), i, j, if x == null then [] else [x])
    requires r == if j > i then old(p.children)[i] else null
    requires x != null ==> x in s && old(x.host) == null && x !in old(p.up) && x.parent == p && x.host == p
    ensures Moved(s, p, x, r)
  {
    hide Forest, OnlyUnder, Raised, Splice;
    KeptMembers(old(p.children), i, j, if x == null then [] else [x]);
    forall c | c in old(p.children) && c != r
      ensures c in p.children
    {
      var k :| 0 <= k < |old(p.children)| && old(p.children)[k] == c;
    }
  }

  lemma WithoutNone(s: set<DomNode>)
    ensures Without(s, null) == s
  {}

  lemma WithoutIs(s: set<DomNode>, r: DomNode)
    ensures Without(s, r) == s - Below(r, s)
  {}

  ghost function Before(l: seq<DomNode>, i: nat): DomNode?
    requires i <= |l|
  {
    if i > 0 then l[i - 1] else null
  }

  ghost function After(l: seq<DomNode>, j: nat): DomNode?
    requires j <= |l|
  {
    if j < |l| then l[j] else null
  }

  /** An edit: x, if given, takes the place of the children of p from the i-th up to the j-th, at most one. */
  twostate lemma EditDone(s: set<DomNode>, new p: DomNode, new i: nat, new j: nat, new x: DomNode?, new r: DomNode?)
    requires old(Forest(s)) && p in s && i <= j <= |old(p.children)| && j <= i + 1
    requires r == if j > i then old(p.children)[i] else null
    requires x != null ==> x in s && old(x.host) == null && x !in old(p.up) && x.parent == p && x.host == p
    requires Touched(s, p, Before(old(p.children), i), After(old(p.children), j), x)
    requires Joined(p, Before(old(p.children), i), x, After(old(p.children), j), old(p.firstChild), old(p.lastChild))
    requires Raised(s, old(p.up), x)
    requires p.children == Splice(old(p.children), i, j, if x == null then [] else [x])
    ensures Forest(Without(s, r)) && OnlyUnder(s, p, x) && OnlyChildrenOf(s, p)
  {
    hide Forest, Splice, Without, OutsideSame, OnlyUnder, Moved, Touched, Raised;
    var l, mid := old(p.children), if x == null then [] else [x];
    OldList(s, p);
    OldEnds(s, p);
    EndsOf(l, i, j, mid);
    TouchedOnly(s, p, i, j, x);
    TouchedMoves(s, p, i, j, x, r);
    assert Seam(l, i, j, mid, p);
    EditKeepsForest(s, p, i, j, mid, x, r);
  }

  twostate lemma StillNested(s: set<DomNode>, new p: DomNode, new x: DomNode?)
    requires old(Nested(s)) && OnlyUnder(s, p, x) && OnlyChildrenOf(s, p)
    requires x != null ==> x in s && !x.content.DocumentContent?
    ensures Nested(s)
  {}

  lemma NestedPart(s: set<DomNode>, t: set<DomNode>)
    requires Nested(s) && t <= s
    ensures Nested(t)
  {}

  lemma BelowWithin(n: DomNode, s: set<DomNode>)
    ensures Below(n, s) <= s
  {}

  twostate lemma BelowSame(s: set<DomNode>, new n: DomNode)
    requires n in s && Raised(s, {}, null)
    ensures Below(n, s) == old(Below(n, s))
  {}

  /** Inserting x under p puts nothing under r, which p does not hang under. */
  twostate lemma ReplacedApart(s: set<DomNode>, new p: DomNode, new x: DomNode, new r: DomNode)
    requires old(Forest(s)) && p in s && r in old(p.children) && Raised(s, old(p.up), x)
    requires x in s && old(x.host) == null
    ensures Below(r, s) == old(Below(r, s)) && x !in Below(r, s)
  {
    assert old(Linked(p));
    OldChildOf(p, r);
    assert old(Placed(r)) && old(Placed(x));
  }

  twostate lemma OldEnds(s: set<DomNode>, new p: DomNode)
    requires old(Forest(s)) && p in s
    ensures old(p.firstChild) == First(old(p.children)) && old(p.lastChild) == Last(old(p.children))
  {
    assert old(Linked(p));
  }

  /** What hung under p still hangs together when it is unlinked from p. */
  twostate lemma StillHangs(s: set<DomNode>, new p: DomNode, new x: DomNode?, new r: DomNode)
    requires old(Forest(s)) && p in s && r in old(p.children)
    requires x != null ==> x in s && old(x.host) == null
    requires OnlyUnder(s, p, x) && Raised(s, {}, null)
    ensures Hangs(r, s) && Below(r, s) == old(Below(r, s))
  {
    OthersLinked(s, p, x);
    OldList(s, p);
    hide Linked, Siblings;
    assert old(Placed(r));
    assert x != null ==> old(Placed(x));
    forall m | m in s && r in m.up
      ensures Linked(m) && (m != r ==> m.host != null && m.host in s && Placed(m))
    {
      assert m != p && m != x;
      if m != r {
        StillPlaced(s, p, x, r, m);
      }
    }
    forall m, c | m in s && r in m.up && c in m.children
      ensures c in s && c != r && r in c.up
    {
      assert SameList(m);
      OldChildUp(s, m, c);
    }
  }

  twostate lemma StillPlaced(s: set<DomNode>, new p: DomNode, new x: DomNode?, new r: DomNode, new m: DomNode)
    requires old(Forest(s)) && p in s && r in s && r !in p.up && m in s && r in m.up && m != r && m != x
    requires OnlyUnder(s, p, x) && Raised(s, {}, null)
    ensures m.host != null && m.host in s && Placed(m)
  {
    hide Linked;
    assert old(Placed(m));
    assert SameList(m.host);
  }
}
