/**
 Runs of edits of one node's children: what the list of children is after them, as a list of trees.
 */
module XmlDomRuns {
  import opened Octets
  import opened XmlClone
  import opened XmlDom
  import opened XmlDomEdit

  /** An edit of the children of a node; x is what a copy is inserted of. */
  datatype Edit<X> =
    | LinkNew(content: Content)
    | InsertEnd(x: X)
    | InsertBefore(i: nat, x: X)
    | InsertAfter(i: nat, x: X)
    | ReplaceAt(i: nat, x: X)
    | RemoveAt(i: nat)

  predicate HasSource<X>(e: Edit<X>) {
    !e.LinkNew? && !e.RemoveAt?
  }

  /** The edit of the list of trees. A document, or a place that is not there, is refused. */
  function Edited(l: seq<Tree>, e: Edit<Tree>): seq<Tree> {
    if HasSource(e) && e.x.content.DocumentContent? then l
    else
      match e
      case LinkNew(content) => if content.DocumentContent? then l else l + [Tree(content, [])]
      case InsertEnd(x) => l + [CloneOf(x)]
      case InsertBefore(i, x) => if i < |l| then l[..i] + [CloneOf(x)] + l[i..] else l
      case InsertAfter(i, x) => if i < |l| then l[..i + 1] + [CloneOf(x)] + l[i + 1..] else l
      case ReplaceAt(i, x) => if i < |l| then l[..i] + [CloneOf(x)] + l[i + 1..] else l
      case RemoveAt(i) => if i < |l| then l[..i] + l[i + 1..] else l
  }

  function EditedAll(l: seq<Tree>, edits: seq<Edit<Tree>>): seq<Tree>
    decreases |edits|
  {
    if edits == [] then l else EditedAll(Edited(l, edits[0]), edits[1..])
  }

  /** The same edit with the tree of its source. */
  ghost function Valued(e: Edit<DomNode>, s: set<DomNode>): Edit<Tree>
    requires Forest(s) && (HasSource(e) ==> e.x in s)
    reads s
  {
    match e
    case LinkNew(content) => LinkNew(content)
    case InsertEnd(x) => InsertEnd(TreeOf(x, s))
    case InsertBefore(i, x) => InsertBefore(i, TreeOf(x, s))
    case InsertAfter(i, x) => InsertAfter(i, TreeOf(x, s))
    case ReplaceAt(i, x) => ReplaceAt(i, TreeOf(x, s))
    case RemoveAt(i) => RemoveAt(i)
  }

  /** Nodes that are not at or under p are still there, as they were. */
  twostate predicate OthersStay(s: set<DomNode>, new t: set<DomNode>, new p: DomNode)
    reads s
  {
    forall n :: n in s && p !in old(n.up) ==>
      n in t && n.content == old(n.content) && n.children == old(n.children) && n.up == old(n.up)
  }

  // ------------------------------------------------------------------ trees of a list of children

  lemma {:induction false} TreesAt(p: DomNode, i: nat, s: set<DomNode>)
    requires Forest(s) && p in s && i <= |p.children|
    ensures forall k :: i <= k < |p.children| ==> p.children[k] in s && TreesOf(p, i, s)[k - i] == TreeOf(p.children[k], s)
    decreases |p.children| - i
  {
    hide Linked, Placed;
    if i < |p.children| {
      ChildOfForest(p, i, s);
      TreesAt(p, i + 1, s);
    }
  }

  /** No node is under two children of p. */
  lemma OnlyUnderOne(p: DomNode, s: set<DomNode>)
    requires Forest(s) && p in s
    ensures forall c, d, m :: c in p.children && d in p.children && c != d && m in s && c in m.up ==> d !in m.up
  {
    ForestHangs(p, s);
    forall c, d, m | c in p.children && d in p.children && c != d && m in s && c in m.up
      ensures d !in m.up
    {
      ChildrenApart(p, c, d, m, s);
    }
  }

  /** A child that is still there, with all under it, has the tree it had. */
  twostate lemma ChildTreeStays(s: set<DomNode>, new p: DomNode, new c: DomNode, new t: set<DomNode>)
    requires old(Forest(s)) && p in s && c in old(p.children) && Forest(t) && OnlyChildrenOf(s, p)
    requires forall m :: m in s && c in old(m.up) ==> m in t
    ensures c in t && TreeOf(c, t) == old(TreeOf(c, s))
  {
    OldChildUp(s, p, c);
    TreeStays(s, c, t);
  }

  /** What was under the children of p in s that are not removed is there in t. */
  twostate predicate KeptIn(s: set<DomNode>, new p: DomNode, new i: nat, new j: nat, new t: set<DomNode>)
    requires p in s && i <= j <= |old(p.children)|
    reads s, p
  {
    forall k, m :: 0 <= k < |old(p.children)| && (k < i || j <= k) && m in s && old(p.children)[k] in old(m.up) ==> m in t
  }

  /** When the list of children is spliced, so is the list of their trees. */
  twostate lemma TreesSpliced(s: set<DomNode>, new p: DomNode, new i: nat, new j: nat, new mid: seq<DomNode>, new t: set<DomNode>)
    requires old(Forest(s)) && p in s && Forest(t) && p in t && OnlyChildrenOf(s, p)
    requires i <= j <= |old(p.children)| && |mid| <= 1 && p.children == Splice(old(p.children), i, j, mid)
    requires forall k :: 0 <= k < |old(p.children)| ==> old(p.children)[k] in s && old(TreesOf(p, 0, s)[k]) == old(TreeOf(p.children[k], s))
    requires KeptIn(s, p, i, j, t)
    ensures mid != [] ==> mid[0] in t
    ensures TreesOf(p, 0, t) == old(TreesOf(p, 0, s))[..i] + (if mid == [] then [] else [TreeOf(mid[0], t)]) + old(TreesOf(p, 0, s))[j..]
  {
    hide Forest, TreeOf, TreesOf, Linked, Placed;
    TreesAt(p, 0, t);
    var was, now := old(TreesOf(p, 0, s)), TreesOf(p, 0, t);
    var l := old(p.children);
    forall k | 0 <= k < |l| && (k < i || j <= k)
      ensures l[k] in t && TreeOf(l[k], t) == was[k]
    {
      ChildTreeStays(s, p, l[k], t);
    }
    if mid != [] {
      assert p.children[i] == mid[0];
    }
    var r := was[..i] + (if mid == [] then [] else [TreeOf(mid[0], t)]) + was[j..];
    assert |now| == |r|;
    forall k | 0 <= k < |now|
      ensures now[k] == r[k]
    {
      if k < i {
        assert p.children[k] == l[k];
      } else if k >= i + |mid| {
        assert p.children[k] == l[k - i - |mid| + j];
      }
    }
  }

  // ------------------------------------------------------------------ one edit

  /** The i-th child, found by walking; null when there are not that many. */
  method ChildAt(dom: Dom, self: DomNode, i: nat) returns (c: DomNode?)
    requires dom.Valid() && self in dom.live
    ensures c == if i < |self.children| then self.children[i] else null
    ensures c != null ==> c in dom.live && c.parent == self && Settled(c) && PositionOf(self.children, c) == i
  {
    hide Forest, Nested, PositionOf;
    LinksForward(self, dom.live);
    c := self.firstChild;
    var k := 0;
    while c != null && k < i
      invariant 0 <= k <= i && (c == null ==> k >= |self.children|)
      invariant k <= |self.children| && c == if k < |self.children| then self.children[k] else null
      decreases i - k
    {
      c := c.next;
      k := k + 1;
    }
    if c != null {
      IsSettled(self, i, dom.live);
      PositionUnique(self, i, dom.live);
    }
  }

  lemma IsSettled(p: DomNode, i: nat, s: set<DomNode>)
    requires Forest(s) && p in s && i < |p.children|
    ensures var c := p.children[i]; c in s && c.parent == p && Settled(c)
  {
    var c := p.children[i];
    assert Linked(p);
    ChildOf(p, c);
    assert c in p.children;
    assert Placed(c);
  }

  /** What is known of the children before an edit. */
  ghost predicate Before(p: DomNode, s: set<DomNode>)
    requires Forest(s) && p in s
    reads s
  {
    && (forall k :: 0 <= k < |p.children| ==> p.children[k] in s && TreesOf(p, 0, s)[k] == TreeOf(p.children[k], s))
    && (forall c, d, m :: c in p.children && d in p.children && c != d && m in s && c in m.up ==> d !in m.up)
    && (forall k, l :: 0 <= k < l < |p.children| ==> p.children[k] != p.children[l])
  }

  lemma BeforeEdit(p: DomNode, s: set<DomNode>)
    requires Forest(s) && p in s
    ensures Before(p, s)
  {
    hide Forest, TreeOf, TreesOf;
    TreesAt(p, 0, s);
    OnlyUnderOne(p, s);
    ListDistinct(p, s);
  }

  /** An edit that removes nothing. */
  twostate lemma Inserted(s: set<DomNode>, new p: DomNode, new i: nat, new x: DomNode, new t: set<DomNode>)
    requires old(Forest(s)) && p in s && old(Before(p, s)) && Forest(t) && s <= t && OnlyChildrenOf(s, p) && UpsStay(s)
    requires i <= |old(p.children)| && p.children == Splice(old(p.children), i, i, [x])
    ensures x in t && OthersStay(s, t, p)
    ensures TreesOf(p, 0, t) == old(TreesOf(p, 0, s))[..i] + [TreeOf(x, t)] + old(TreesOf(p, 0, s))[i..]
  {
    hide Forest, TreeOf, TreesOf, Splice;
    TreesSpliced(s, p, i, i, [x], t);
    OthersKept(s, t, p);
  }

  twostate lemma OthersKept(s: set<DomNode>, new t: set<DomNode>, new p: DomNode)
    requires old(Forest(s)) && p in s && OnlyChildrenOf(s, p) && UpsStay(s)
    requires forall n :: n in s && p !in old(n.up) ==> n in t
    ensures OthersStay(s, t, p)
  {
    hide Linked;
    assert old(Placed(p));
  }

  /** An edit that removes the i-th child, and puts x, if given, in its place. */
  twostate lemma TakenOut(s: set<DomNode>, new p: DomNode, new i: nat, new mid: seq<DomNode>, new t: set<DomNode>)
    requires old(Forest(s)) && p in s && old(Before(p, s)) && Forest(t) && p in t && OnlyChildrenOf(s, p) && UpsStay(s)
    requires i < |old(p.children)| && |mid| <= 1 && p.children == Splice(old(p.children), i, i + 1, mid)
    requires forall n :: n in s && old(p.children)[i] !in old(n.up) ==> n in t
    ensures (mid != [] ==> mid[0] in t) && OthersStay(s, t, p)
    ensures TreesOf(p, 0, t)
         == old(TreesOf(p, 0, s))[..i] + (if mid == [] then [] else [TreeOf(mid[0], t)]) + old(TreesOf(p, 0, s))[i + 1..]
  {
    hide Forest, TreeOf, TreesOf, Splice;
    var l := old(p.children);
    forall k, m | 0 <= k < |l| && (k < i || i + 1 <= k) && m in s && l[k] in old(m.up)
      ensures m in t
    {
      assert l[k] != l[i] && l[k] in l && l[i] in l;
    }
    OldChildUp(s, p, l[i]);
    TreesSpliced(s, p, i, i + 1, mid, t);
    OthersKept(s, t, p);
  }

  lemma OwnUp(p: DomNode, s: set<DomNode>)
    requires Forest(s) && p in s
    ensures p in p.up
  {
    assert Placed(p);
  }

  twostate lemma NothingDone(s: set<DomNode>, new p: DomNode, new t: set<DomNode>)
    requires old(Forest(s)) && p in s && unchanged(s) && t == s
    ensures Forest(t) && TreesOf(p, 0, t) == old(TreesOf(p, 0, s)) && OthersStay(s, t, p) && p.up == old(p.up)
  {}

  method LinkOne(dom: Dom, self: DomNode, content: Content)
    requires dom.Valid() && self in dom.live
    modifies dom`live, dom.live
    ensures dom.Valid() && self in dom.live && self.up == old(self.up) && OthersStay(old(dom.live), dom.live, self)
    ensures fresh(dom.live - old(dom.live))
    ensures TreesOf(self, 0, dom.live) == Edited(old(TreesOf(self, 0, dom.live)), LinkNew(content))
  {
    hide Forest, Nested, TreeOf, TreesOf, Raised, OnlyUnder, Splice;
    ghost var s, n := dom.live, |self.children|;
    BeforeEdit(self, s);
    OwnUp(self, s);
    var node := dom.Create(content);
    ghost var all := dom.live;
    AllApart(s, node);
    EndIsApart(self, node, all);
    label created:
    var r := dom.LinkEndChild(self, node);
    if r == null {
      NothingDone(s, self, dom.live);
    } else {
      RaisedElsewhere@created(all, old@created(self.up), node, s);
      SpliceAtEnd(old(self.children), node);
      Inserted(s, self, n, node, dom.live);
      LeafTree(node, dom.live);
    }
  }

  lemma LeafTree(n: DomNode, s: set<DomNode>)
    requires Forest(s) && n in s && n.children == []
    ensures TreeOf(n, s) == Tree(n.content, [])
  {}

  method InsertOne(dom: Dom, self: DomNode, addThis: DomNode)
    requires dom.Valid() && self in dom.live && addThis in dom.live
    modifies dom`live, dom.live
    ensures dom.Valid() && self in dom.live && self.up == old(self.up) && OthersStay(old(dom.live), dom.live, self)
    ensures fresh(dom.live - old(dom.live))
    ensures TreesOf(self, 0, dom.live)
         == Edited(old(TreesOf(self, 0, dom.live)), old(InsertEnd(TreeOf(addThis, dom.live))))
  {
    hide Forest, Nested, TreeOf, TreesOf, CloneOf, Splice;
    ghost var s, n := dom.live, |self.children|;
    BeforeEdit(self, s);
    OwnUp(self, s);
    RootContent(addThis, s);
    var r := dom.InsertEndChild(self, addThis);
    if r == null {
      NothingDone(s, self, dom.live);
    } else {
      SpliceAtEnd(old(self.children), r);
      Inserted(s, self, n, r, dom.live);
    }
  }

  lemma RootContent(n: DomNode, s: set<DomNode>)
    requires Forest(s) && n in s
    ensures TreeOf(n, s).content == n.content
  {}

  method InsertAt(dom: Dom, self: DomNode, i: nat, before: bool, addThis: DomNode)
    requires dom.Valid() && self in dom.live && addThis in dom.live
    modifies dom`live, dom.live
    ensures dom.Valid() && self in dom.live && self.up == old(self.up) && OthersStay(old(dom.live), dom.live, self)
    ensures fresh(dom.live - old(dom.live))
    ensures var t := old(TreeOf(addThis, dom.live));
            TreesOf(self, 0, dom.live)
            == Edited(old(TreesOf(self, 0, dom.live)), if before then InsertBefore(i, t) else InsertAfter(i, t))
  {
    hide Forest, Nested, TreeOf, TreesOf, CloneOf, Splice, PositionOf;
    ghost var s := dom.live;
    BeforeEdit(self, s);
    OwnUp(self, s);
    RootContent(addThis, s);
    var place := ChildAt(dom, self, i);
    var r;
    if before {
      r := dom.InsertBeforeChild(self, place, addThis);
    } else {
      r := dom.InsertAfterChild(self, place, addThis);
    }
    if r == null {
      NothingDone(s, self, dom.live);
    } else {
      Inserted(s, self, if before then i else i + 1, r, dom.live);
    }
  }

  method ReplaceOne(dom: Dom, self: DomNode, i: nat, withThis: DomNode)
    requires dom.Valid() && self in dom.live && withThis in dom.live
    modifies dom`live, dom.live
    ensures dom.Valid() && self in dom.live && self.up == old(self.up) && OthersStay(old(dom.live), dom.live, self)
    ensures fresh(dom.live - old(dom.live))
    ensures TreesOf(self, 0, dom.live)
         == Edited(old(TreesOf(self, 0, dom.live)), old(ReplaceAt(i, TreeOf(withThis, dom.live))))
  {
    hide Forest, Nested, TreeOf, TreesOf, CloneOf, Splice, PositionOf;
    ghost var s := dom.live;
    BeforeEdit(self, s);
    OwnUp(self, s);
    RootContent(withThis, s);
    var place := ChildAt(dom, self, i);
    var r := dom.ReplaceChild(self, place, withThis);
    if r == null {
      NothingDone(s, self, dom.live);
    } else {
      OldChildUp(s, self, place);
      TakenOut(s, self, i, [r], dom.live);
    }
  }

  method RemoveOne(dom: Dom, self: DomNode, i: nat)
    requires dom.Valid() && self in dom.live
    modifies dom`live, dom.live
    ensures dom.Valid() && self in dom.live && self.up == old(self.up) && OthersStay(old(dom.live), dom.live, self)
    ensures fresh(dom.live - old(dom.live))
    ensures TreesOf(self, 0, dom.live) == Edited(old(TreesOf(self, 0, dom.live)), RemoveAt(i))
  {
    hide Forest, Nested, TreeOf, TreesOf, Splice, PositionOf;
    ghost var s := dom.live;
    BeforeEdit(self, s);
    OwnUp(self, s);
    var place := ChildAt(dom, self, i);
    var r := dom.RemoveChild(self, place);
    if !r {
      NothingDone(s, self, dom.live);
    } else {
      OldChildUp(s, self, place);
      TakenOut(s, self, i, [], dom.live);
    }
  }

  // ------------------------------------------------------------------ runs

  /** The source of an edit of p: neither part of the other. */
  ghost predicate Apart(x: DomNode, p: DomNode)
    reads x, p
  {
    x !in p.up && p !in x.up
  }

  method ApplyEdit(dom: Dom, self: DomNode, e: Edit<DomNode>)
    requires dom.Valid() && self in dom.live && (HasSource(e) ==> e.x in dom.live)
    modifies dom`live, dom.live
    ensures dom.Valid() && self in dom.live && self.up == old(self.up) && OthersStay(old(dom.live), dom.live, self)
    ensures fresh(dom.live - old(dom.live))
    ensures TreesOf(self, 0, dom.live) == Edited(old(TreesOf(self, 0, dom.live)), old(Valued(e, dom.live)))
  {
    hide Forest, Nested, TreeOf, TreesOf, Edited, OthersStay;
    match e
    case LinkNew(content) => LinkOne(dom, self, content);
    case InsertEnd(x) => InsertOne(dom, self, x);
    case InsertBefore(i, x) => InsertAt(dom, self, i, true, x);
    case InsertAfter(i, x) => InsertAt(dom, self, i, false, x);
    case ReplaceAt(i, x) => ReplaceOne(dom, self, i, x);
    case RemoveAt(i) => RemoveOne(dom, self, i);
  }

  /** The edits with the trees that their sources have in s. */
  ghost function ValuedAll(edits: seq<Edit<DomNode>>, s: set<DomNode>): (r: seq<Edit<Tree>>)
    requires Forest(s) && forall i :: 0 <= i < |edits| && HasSource(edits[i]) ==> edits[i].x in s
    reads s
    ensures |r| == |edits|
  {
    seq(|edits|, i requires 0 <= i < |edits| reads s requires Forest(s) && (HasSource(edits[i]) ==> edits[i].x in s) => Valued(edits[i], s))
  }

  lemma {:induction false} EditedOneMore(l: seq<Tree>, edits: seq<Edit<Tree>>, k: nat)
    requires k < |edits|
    ensures EditedAll(l, edits[..k + 1]) == Edited(EditedAll(l, edits[..k]), edits[k])
    decreases k
  {
    hide Edited;
    if k == 0 {
      assert edits[..1] == [edits[0]] && edits[..1][1..] == [];
    } else {
      EditedOneMore(Edited(l, edits[0]), edits[1..], k - 1);
      assert edits[..k + 1][1..] == edits[1..][..k] && edits[..k][1..] == edits[1..][..k - 1];
    }
  }

  /** Of two nodes above a third, one is above the other. */
  lemma {:induction false} AboveEachOther(m: DomNode, a: DomNode, b: DomNode, s: set<DomNode>)
    requires Forest(s) && m in s && a in m.up && b in m.up
    ensures a in b.up || b in a.up
    decreases m.up
  {
    hide Linked;
    assert Placed(m);
    if a != m && b != m {
      AboveEachOther(m.host, a, b, s);
    }
  }

  lemma AllUnderApart(x: DomNode, p: DomNode, s: set<DomNode>)
    requires Forest(s) && x in s && Apart(x, p)
    ensures forall m :: m in s && x in m.up ==> p !in m.up
  {
    forall m | m in s && x in m.up
      ensures p !in m.up
    {
      if p in m.up {
        AboveEachOther(m, x, p, s);
      }
    }
  }

  /** A source keeps its tree. */
  twostate lemma SourceStays(s: set<DomNode>, new x: DomNode, new p: DomNode, new t: set<DomNode>)
    requires old(Forest(s)) && x in s && p in s && Forest(t) && OthersStay(s, t, p)
    requires forall m :: m in s && x in old(m.up) ==> p !in old(m.up)
    ensures x in t && TreeOf(x, t) == old(TreeOf(x, s))
  {
    hide Linked;
    assert old(Placed(x));
    TreeStays(s, x, t);
  }

  /**
   Any run of edits of the children of a node, with sources that are no part of it and that it is no part of: walking
   next from the first child shows exactly the list that the edits make of the list of trees, walking prev from the
   last child shows it in reverse, every child names its parent, and all nodes elsewhere are as they were.
   */
  method RunEdits(dom: Dom, self: DomNode, edits: seq<Edit<DomNode>>)
    requires dom.Valid() && self in dom.live
    requires forall i :: 0 <= i < |edits| && HasSource(edits[i]) ==> edits[i].x in dom.live && Apart(edits[i].x, self)
    modifies dom`live, dom.live
    ensures dom.Valid() && self in dom.live && OthersStay(old(dom.live), dom.live, self)
    ensures TreesOf(self, 0, dom.live) == EditedAll(old(TreesOf(self, 0, dom.live)), old(ValuedAll(edits, dom.live)))
    ensures Forward(self.firstChild, dom.live, |self.children|) == self.children
    ensures Backward(self.lastChild, dom.live, |self.children|) == Reversed(self.children)
    ensures forall c :: c in self.children ==> c.parent == self
    ensures forall k :: 0 <= k < |self.children| ==>
              self.children[k] in dom.live && TreesOf(self, 0, dom.live)[k] == TreeOf(self.children[k], dom.live)
  {
    hide Forest, Nested, TreeOf, TreesOf, Edited, EditedAll, Valued;
    ghost var s := dom.live;
    ghost var values := ValuedAll(edits, s);
    ghost var trees := TreesOf(self, 0, s);
    forall i | 0 <= i < |edits| && HasSource(edits[i])
      ensures forall m :: m in s && edits[i].x in m.up ==> self !in m.up
    {
      AllUnderApart(edits[i].x, self, s);
    }
    NoEdits(trees, values);
    for k := 0 to |edits|
      invariant dom.Valid() && self in dom.live && OthersStay(s, dom.live, self) && fresh(dom.live - s)
      invariant TreesOf(self, 0, dom.live) == EditedAll(trees, values[..k])
    {
      if HasSource(edits[k]) {
        SourceStays(s, edits[k].x, self, dom.live);
      }
      SameValue(s, edits[k], dom.live);
      EditedOneMore(trees, values, k);
      ApplyEdit(dom, self, edits[k]);
    }
    assert values[..|edits|] == values;
    WalksAgree(self, dom.live, |self.children|);
    TreesAt(self, 0, dom.live);
  }

  lemma NoEdits(l: seq<Tree>, edits: seq<Edit<Tree>>)
    ensures EditedAll(l, edits[..0]) == l
  {}

  twostate lemma SameValue(s: set<DomNode>, new e: Edit<DomNode>, new t: set<DomNode>)
    requires old(Forest(s)) && Forest(t)
    requires HasSource(e) ==> e.x in s && e.x in t && TreeOf(e.x, t) == old(TreeOf(e.x, s))
    ensures Valued(e, t) == old(Valued(e, s))
  {}
}
