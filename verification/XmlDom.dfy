/**
 The document object model as linked nodes: parent, first and last child, previous and next sibling. Each edit is
 proved to be the edit of the sequence of children that it stands for, and to leave all other lists alone.
 */
module XmlDom {
  import opened Octets
  import opened XmlClone

  class DomNode {
    var content: Content
    var parent: DomNode?
    var firstChild: DomNode?
    var lastChild: DomNode?
    var prev: DomNode?
    var next: DomNode?
    /** The node whose child this one is; a node that is being read has a parent already, but hangs nowhere yet. */
    ghost var host: DomNode?
    /** The list of children that the links stand for. */
    ghost var children: seq<DomNode>
    /** The node itself, its parent, the parent of that, and so on. */
    ghost var up: set<DomNode>

    constructor (content: Content)
      ensures this.content == content && children == [] && up == {this} && host == null
      ensures parent == null && firstChild == null && lastChild == null && prev == null && next == null
    {
      this.content := content;
      parent, firstChild, lastChild, prev, next := null, null, null, null, null;
      host, children, up := null, [], {this};
    }
  }

  function First(s: seq<DomNode>): (r: DomNode?) {
    if s == [] then null else s[0]
  }

  function Last(s: seq<DomNode>): (r: DomNode?) {
    if s == [] then null else s[|s| - 1]
  }

  /** The nodes of s are siblings under p, in this order along next and in reverse along prev. */
  ghost predicate Siblings(s: seq<DomNode>, p: DomNode)
    reads s
  {
    && (forall i, j :: 0 <= i < j < |s| ==> s[i] != s[j])
    && (forall i {:trigger s[i].host} :: 0 <= i < |s| ==> s[i].host == p)
    && (forall i {:trigger s[i].prev} :: 0 <= i < |s| ==> s[i].prev == if i > 0 then s[i - 1] else null)
    && (forall i {:trigger s[i].next} :: 0 <= i < |s| ==> s[i].next == if i + 1 < |s| then s[i + 1] else null)
  }

  ghost predicate Linked(n: DomNode)
    reads n, n.children
  {
    n.firstChild == First(n.children) && n.lastChild == Last(n.children) && Siblings(n.children, n)
  }

  /** What a node says about its parent; a root that is being read names one, and is not among its children. */
  ghost predicate Placed(n: DomNode)
    reads n, n.host
  {
    if n.host == null then n.up == {n}
    else n.parent == n.host && n in n.host.children && n.up == {n} + n.host.up && n !in n.host.up
  }

  /** A set of nodes closed under links, without cycles. */
  ghost predicate Forest(s: set<DomNode>)
    reads s
  {
    && (forall n, c :: n in s && c in n.children ==> c in s)
    && (forall n :: n in s && n.host != null ==> n.host in s)
    && (forall n :: n in s ==> Linked(n))
    && (forall n :: n in s ==> Placed(n))
    && (forall n, a :: n in s && a in n.up ==> a in s && a.up <= n.up)
  }

  /** The nodes of s at and under n. */
  ghost function Below(n: DomNode, s: set<DomNode>): set<DomNode>
    reads s
  {
    set m | m in s && n in m.up
  }

  // ------------------------------------------------------------------ walking

  /** The nodes met by following next from n, at most that many. */
  ghost function Forward(n: DomNode?, s: set<DomNode>, steps: nat): seq<DomNode>
    reads s
  {
    if n == null || n !in s || steps == 0 then [] else [n] + Forward(n.next, s, steps - 1)
  }

  /** The nodes met by following prev from n, at most that many. */
  ghost function Backward(n: DomNode?, s: set<DomNode>, steps: nat): seq<DomNode>
    reads s
  {
    if n == null || n !in s || steps == 0 then [] else [n] + Backward(n.prev, s, steps - 1)
  }

  function Reversed(l: seq<DomNode>): seq<DomNode> {
    if l == [] then [] else Reversed(l[1..]) + [l[0]]
  }

  /**
   In a forest, next from the first child visits the children in order and then stops, prev from the last child
   visits them in reverse and then stops, and every child names its parent.
   */
  lemma WalksAgree(p: DomNode, s: set<DomNode>, steps: nat)
    requires Forest(s) && p in s && steps >= |p.children|
    ensures Forward(p.firstChild, s, steps) == p.children
    ensures Backward(p.lastChild, s, steps) == Reversed(p.children)
    ensures forall c :: c in p.children ==> c.parent == p
  {
    assert Linked(p);
    forall c | c in p.children
      ensures c.parent == p
    {
      ChildOf(p, c);
      assert Placed(c);
    }
    ForwardFrom(p, s, 0, steps);
    BackwardFrom(p, s, |p.children|, steps);
    assert p.children[..|p.children|] == p.children;
  }

  lemma {:induction false} ForwardFrom(p: DomNode, s: set<DomNode>, i: nat, steps: nat)
    requires Forest(s) && p in s && i <= |p.children| <= i + steps
    ensures Forward(if i < |p.children| then p.children[i] else null, s, steps) == p.children[i..]
    decreases |p.children| - i
  {
    if i < |p.children| {
      assert Linked(p);
      var c := p.children[i];
      assert c in p.children && c.next == if i + 1 < |p.children| then p.children[i + 1] else null;
      ForwardFrom(p, s, i + 1, steps - 1);
    }
  }

  lemma {:induction false} BackwardFrom(p: DomNode, s: set<DomNode>, i: nat, steps: nat)
    requires Forest(s) && p in s && i <= |p.children| && i <= steps
    ensures Backward(if i > 0 then p.children[i - 1] else null, s, steps) == Reversed(p.children[..i])
    decreases i
  {
    if i > 0 {
      assert Linked(p);
      var c := p.children[i - 1];
      assert c in p.children && c.prev == if i - 1 > 0 then p.children[i - 2] else null;
      BackwardFrom(p, s, i - 1, steps - 1);
      ReversedLast(p.children[..i - 1], c);
      assert p.children[..i] == p.children[..i - 1] + [c];
    }
  }

  lemma {:induction false} ReversedLast(l: seq<DomNode>, x: DomNode)
    ensures Reversed(l + [x]) == [x] + Reversed(l)
  {
    if l != [] {
      assert (l + [x])[1..] == l[1..] + [x];
      ReversedLast(l[1..], x);
    }
  }

  // ------------------------------------------------------------------ splicing

  /** Of the list s, only links between and beyond the positions i and j changed. */
  twostate predicate OutsideSame(s: seq<DomNode>, i: nat, j: nat)
    reads s
  {
    && (forall k {:trigger s[k].host} :: 0 <= k < |s| && (k < i || j <= k) ==> s[k].host == old(s[k].host))
    && (forall k {:trigger s[k].next} :: 0 <= k < |s| && (k + 1 < i || j <= k) ==> s[k].next == old(s[k].next))
    && (forall k {:trigger s[k].prev} :: 0 <= k < |s| && (k < i || j < k) ==> s[k].prev == old(s[k].prev))
  }

  function Splice(s: seq<DomNode>, i: nat, j: nat, mid: seq<DomNode>): (r: seq<DomNode>)
    requires i <= j <= |s|
    ensures |r| == |s| - (j - i) + |mid|
    ensures forall k :: 0 <= k < i ==> r[k] == s[k]
    ensures forall k :: i + |mid| <= k < |r| ==> r[k] == s[k - i - |mid| + j]
    ensures mid != [] ==> r[i] == mid[0]
  {
    s[..i] + mid + s[j..]
  }

  /** The links at the seam of Splice(s, i, j, mid) are right. */
  ghost predicate Seam(s: seq<DomNode>, i: nat, j: nat, mid: seq<DomNode>, p: DomNode)
    requires i <= j <= |s|
    reads s, mid
  {
    && |mid| <= 1
    && (mid != [] ==>
          && (forall k :: 0 <= k < |s| && (k < i || j <= k) ==> mid[0] != s[k])
          && mid[0].host == p
          && mid[0].prev == (if i > 0 then s[i - 1] else null)
          && mid[0].next == (if j < |s| then s[j] else null))
    && (i > 0 ==> s[i - 1].next == if mid != [] then mid[0] else if j < |s| then s[j] else null)
    && (j < |s| ==> s[j].prev == if mid != [] then mid[0] else if i > 0 then s[i - 1] else null)
  }

  lemma SpliceDistinct(s: seq<DomNode>, i: nat, j: nat, mid: seq<DomNode>, p: DomNode)
    requires i <= j <= |s| && Seam(s, i, j, mid, p)
    requires forall k, l :: 0 <= k < l < |s| ==> s[k] != s[l]
    ensures var r := Splice(s, i, j, mid); forall k, l :: 0 <= k < l < |r| ==> r[k] != r[l]
  {
    hide Splice;
  }

  twostate lemma SplicedPrev(p: DomNode, new i: nat, new j: nat, new mid: seq<DomNode>, new k: nat)
    requires old(Siblings(p.children, p)) && i <= j <= |old(p.children)| && Seam(old(p.children), i, j, mid, p)
    requires OutsideSame(old(p.children), i, j)
    requires k < |Splice(old(p.children), i, j, mid)|
    ensures var r := Splice(old(p.children), i, j, mid);
            r[k].host == p && r[k].prev == if k > 0 then r[k - 1] else null
  {
    hide Splice;
    var s := old(p.children);
    var m := i + |mid|;
    if k < i {
      assert s[k].prev == old(s[k].prev) && s[k].host == old(s[k].host);
    } else if k >= m {
      var l := k - m + j;
      assert s[l].host == old(s[l].host);
      if l > j {
        assert s[l].prev == old(s[l].prev);
      }
    }
  }

  twostate lemma SplicedNext(p: DomNode, new i: nat, new j: nat, new mid: seq<DomNode>, new k: nat)
    requires old(Siblings(p.children, p)) && i <= j <= |old(p.children)| && Seam(old(p.children), i, j, mid, p)
    requires OutsideSame(old(p.children), i, j)
    requires k < |Splice(old(p.children), i, j, mid)|
    ensures var r := Splice(old(p.children), i, j, mid);
            r[k].next == if k + 1 < |r| then r[k + 1] else null
  {
    hide Splice;
    var s := old(p.children);
    var m := i + |mid|;
    if k + 1 < i {
      assert s[k].next == old(s[k].next);
    } else if k >= m {
      assert s[k - m + j].next == old(s[k - m + j].next);
    }
  }

  /** The children of p from position i up to j were replaced by those of mid. */
  twostate lemma Spliced(p: DomNode, new i: nat, new j: nat, new mid: seq<DomNode>)
    requires old(Siblings(p.children, p)) && i <= j <= |old(p.children)| && Seam(old(p.children), i, j, mid, p)
    requires OutsideSame(old(p.children), i, j)
    ensures Siblings(Splice(old(p.children), i, j, mid), p)
  {
    hide Splice, Seam, OutsideSame;
    var r := Splice(old(p.children), i, j, mid);
    SpliceDistinct(old(p.children), i, j, mid, p);
    forall k {:trigger r[k].host} | 0 <= k < |r|
      ensures r[k].host == p
    {
      SplicedPrev(p, i, j, mid, k);
    }
    forall k {:trigger r[k].prev} | 0 <= k < |r|
      ensures r[k].prev == if k > 0 then r[k - 1] else null
    {
      SplicedPrev(p, i, j, mid, k);
    }
    forall k {:trigger r[k].next} | 0 <= k < |r|
      ensures r[k].next == if k + 1 < |r| then r[k + 1] else null
    {
      SplicedNext(p, i, j, mid, k);
    }
  }

  // ------------------------------------------------------------------ one edit

  /** Nothing about the list of children of n changed. */
  twostate predicate SameList(n: DomNode)
    reads n
  {
    n.firstChild == old(n.firstChild) && n.lastChild == old(n.lastChild) && n.children == old(n.children)
  }

  twostate predicate SamePlace(c: DomNode)
    reads c
  {
    c.parent == old(c.parent) && c.host == old(c.host) && c.prev == old(c.prev) && c.next == old(c.next)
  }

  /** In s, only the list of p and the places of its children and of x changed. */
  twostate predicate OnlyUnder(s: set<DomNode>, new p: DomNode, new x: DomNode?)
    reads s
  {
    && (forall n :: n in s && n != p ==> SameList(n))
    && (forall c :: c in s && c != x && old(c.host) != p ==> SamePlace(c))
    && (forall c :: c in s && c != x ==> c.parent == old(c.parent) && c.host == old(c.host))
  }

  /** The nodes under x, and no others, got more ancestors. */
  twostate predicate Raised(s: set<DomNode>, new above: set<DomNode>, new x: DomNode?)
    reads s
  {
    forall m :: m in s ==> m.up == if x != null && x in old(m.up) then old(m.up) + above else old(m.up)
  }

  twostate lemma LinkedStays(n: DomNode)
    requires old(Linked(n)) && SameList(n)
    requires forall c :: c in n.children ==> SamePlace(c)
    ensures Linked(n)
  {
    var l := n.children;
    forall i {:trigger l[i].host} | 0 <= i < |l|
      ensures l[i].host == n
    {
      assert SamePlace(l[i]);
    }
    forall i {:trigger l[i].prev} | 0 <= i < |l|
      ensures l[i].prev == if i > 0 then l[i - 1] else null
    {
      assert SamePlace(l[i]);
    }
    forall i {:trigger l[i].next} | 0 <= i < |l|
      ensures l[i].next == if i + 1 < |l| then l[i + 1] else null
    {
      assert SamePlace(l[i]);
    }
  }

  lemma ChildOf(n: DomNode, c: DomNode)
    requires Linked(n) && c in n.children
    ensures c.host == n
  {
    var i :| 0 <= i < |n.children| && n.children[i] == c;
    assert n.children[i].host == n;
  }

  twostate lemma OthersLinked(s: set<DomNode>, new p: DomNode, new x: DomNode?)
    requires old(Forest(s)) && OnlyUnder(s, p, x)
    requires x != null ==> x in s && old(x.host) == null
    ensures forall n :: n in s && n != p ==> Linked(n)
  {
    hide Linked;
    forall n | n in s && n != p
      ensures Linked(n)
    {
      assert SameList(n) && old(Linked(n));
      forall c | c in n.children
        ensures SamePlace(c)
      {
        assert old(c.host) == n by {
          OldChildOf(n, c);
        }
      }
      LinkedStays(n);
    }
  }

  twostate lemma OldChildOf(n: DomNode, new c: DomNode)
    requires old(Linked(n)) && c in old(n.children)
    ensures old(c.host) == n
  {
    var i :| 0 <= i < |old(n.children)| && old(n.children)[i] == c;
    assert old(n.children[i].host) == n;
  }

  /** x, if given, went under p, and r, if given, left it. */
  twostate predicate Moved(s: set<DomNode>, new p: DomNode, new x: DomNode?, new r: DomNode?)
    reads s, p
  {
    && p in s && old(Forest(s)) && OnlyUnder(s, p, x) && Raised(s, old(p.up), x)
    && (x != null ==> x in s && old(x.host) == null && x !in old(p.up) && x.parent == p && x.host == p && x in p.children)
    && (r != null ==> r in old(p.children))
    && (forall c :: c in old(p.children) && c != r ==> c in p.children)
  }

  twostate lemma UpAfter(s: set<DomNode>, new p: DomNode, new x: DomNode?, new r: DomNode?, new n: DomNode, new a: DomNode)
    requires Moved(s, p, x, r) && n in s && a in n.up && r !in n.up
    ensures a in s && a.up <= n.up
  {
    hide Linked, Placed, OnlyUnder;
    if x != null && x in old(n.up) && a !in old(n.up) {
      assert a in old(p.up);
      assert old(a.up) <= old(p.up);
    } else {
      assert old(a.up) <= old(n.up);
    }
  }

  twostate lemma PlacedAfter(s: set<DomNode>, new p: DomNode, new x: DomNode?, new r: DomNode?, new n: DomNode)
    requires Moved(s, p, x, r) && n in s && r !in n.up
    ensures n.host != null ==> n.host in s
    ensures Placed(n)
  {
    assert old(Placed(n));
    if n == x {
      assert x !in old(p.up);
    } else if n.host != null {
      var q := n.host;
      assert q == old(n.host) && q in s;
      if q == p {
        assert n != r;
      } else {
        assert SameList(q);
      }
      assert n in old(p.up) ==> old(n.up) <= old(p.up);
    }
  }

  ghost function Without(s: set<DomNode>, r: DomNode?): set<DomNode>
    reads s
  {
    if r == null then s else s - Below(r, s)
  }

  twostate lemma MovedKeepsForest(s: set<DomNode>, new p: DomNode, new x: DomNode?, new r: DomNode?)
    requires Moved(s, p, x, r)
    requires Linked(p) && (r != null ==> r !in p.children)
    requires forall y :: y in p.children ==> y == x || y in old(p.children)
    ensures Forest(Without(s, r))
  {
    hide Linked, Placed, Moved;
    var t := Without(s, r);
    assert forall n :: n in t <==> n in s && r !in n.up;
    OthersMoved(s, p, x, r);
    forall n | n in t
      ensures Linked(n) && Placed(n)
      ensures n.host != null ==> n.host in t
    {
      PlacedAfter(s, p, x, r, n);
      if n.host != null {
        PlacedUp(n);
      }
    }
    forall n, a | n in t && a in n.up
      ensures a in t && a.up <= n.up
    {
      UpAfter(s, p, x, r, n, a);
    }
    forall n, c | n in t && c in n.children
      ensures c in t
    {
      ChildStays(s, p, x, r, n, c);
    }
  }

  /** Every edit is a splice of the children of p, after which the nodes that are not under r are a forest. */
  twostate lemma EditKeepsForest(s: set<DomNode>, new p: DomNode, new i: nat, new j: nat, new mid: seq<DomNode>, new x: DomNode?, new r: DomNode?)
    requires Moved(s, p, x, r)
    requires i <= j <= |old(p.children)| && j <= i + 1
    requires mid == (if x == null then [] else [x]) && r == if j > i then old(p.children)[i] else null
    requires Seam(old(p.children), i, j, mid, p) && OutsideSame(old(p.children), i, j)
    requires p.children == Splice(old(p.children), i, j, mid)
    requires p.firstChild == First(p.children) && p.lastChild == Last(p.children)
    requires x != null ==> x !in old(p.children)
    ensures Forest(Without(s, r))
  {
    hide Linked, Placed, Moved, OnlyUnder, Raised, Seam, OutsideSame, Siblings, Forest, Splice, Without;
    MovedBasics(s, p, x, r);
    LinkedAfter(p, i, j, mid);
    SplicedMembers(old(p.children), i, j, mid);
    MovedKeepsForest(s, p, x, r);
  }

  lemma PlacedUp(n: DomNode)
    requires Placed(n) && n.host != null
    ensures n.up == {n} + n.host.up
  {}

  twostate lemma LinkedAfter(p: DomNode, new i: nat, new j: nat, new mid: seq<DomNode>)
    requires old(Linked(p)) && i <= j <= |old(p.children)| && Seam(old(p.children), i, j, mid, p)
    requires OutsideSame(old(p.children), i, j)
    requires p.children == Splice(old(p.children), i, j, mid)
    requires p.firstChild == First(p.children) && p.lastChild == Last(p.children)
    ensures Linked(p)
  {
    hide Siblings, Seam, OutsideSame, Splice;
    Spliced(p, i, j, mid);
  }

  twostate lemma OthersMoved(s: set<DomNode>, new p: DomNode, new x: DomNode?, new r: DomNode?)
    requires Moved(s, p, x, r)
    ensures forall n :: n in s && n != p ==> Linked(n)
  {
    OthersLinked(s, p, x);
  }

  twostate lemma ChildStays(s: set<DomNode>, new p: DomNode, new x: DomNode?, new r: DomNode?, new n: DomNode, new c: DomNode)
    requires Moved(s, p, x, r) && n in s && r !in n.up && c in n.children
    requires Linked(n) && (r != null ==> r !in p.children)
    requires n == p ==> forall y :: y in n.children ==> y == x || y in old(p.children)
    ensures c in s && r !in c.up
  {}

  twostate lemma MovedBasics(s: set<DomNode>, new p: DomNode, new x: DomNode?, new r: DomNode?)
    requires Moved(s, p, x, r)
    ensures p in s && old(Linked(p)) && (r != null ==> r in s)
    ensures forall k, l :: 0 <= k < l < |old(p.children)| ==> old(p.children)[k] != old(p.children)[l]
  {}

  lemma SplicedMembers(s: seq<DomNode>, i: nat, j: nat, mid: seq<DomNode>)
    requires i <= j <= |s| && forall k, l :: 0 <= k < l < |s| ==> s[k] != s[l]
    ensures forall y :: y in Splice(s, i, j, mid) ==> y in mid || y in s
    ensures forall k :: i <= k < j && s[k] !in mid ==> s[k] !in Splice(s, i, j, mid)
  {}

  // ------------------------------------------------------------------ subtrees

  ghost function BelowAll(l: seq<DomNode>, s: set<DomNode>): set<DomNode>
    reads s
  {
    set m | m in s && exists c :: c in l && c in m.up
  }

  /** The nodes of s under n are a tree, wherever n itself may hang. */
  ghost predicate Hangs(n: DomNode, s: set<DomNode>)
    reads s
  {
    && n in s && n in n.up
    && (forall m :: m in s && n in m.up ==> (forall c :: c in m.children ==> c in s && c != n && n in c.up) && Linked(m))
    && (forall m :: m in s && n in m.up && m != n ==> m.host != null && m.host in s && Placed(m))
    && (forall m, a :: m in s && a in m.up && a in s && n in a.up ==> a.up <= m.up)
  }

  lemma ForestHangs(n: DomNode, s: set<DomNode>)
    requires Forest(s) && n in s
    ensures Hangs(n, s)
  {
    hide Linked;
    forall m, c | m in s && n in m.up && c in m.children
      ensures c in s && c != n && n in c.up
    {
      assert Linked(m) && Placed(c);
      ParentIs(m, c);
    }
    assert Placed(n);
  }

  lemma ParentIs(m: DomNode, c: DomNode)
    requires Linked(m) && c in m.children && Placed(c)
    ensures c.up == {c} + m.up && c !in m.up
  {
    ChildOf(m, c);
  }

  /** A node under n is n or is under one of its children. */
  lemma {:induction false} UnderChild(n: DomNode, m: DomNode, s: set<DomNode>)
    requires Hangs(n, s) && m in s && n in m.up && m != n
    ensures exists c :: c in n.children && c in m.up
    decreases m.up
  {
    hide Linked;
    assert Placed(m);
    if m.host == n {
      assert m in n.children && m in m.up;
    } else {
      UnderChild(n, m.host, s);
      var c :| c in n.children && c in m.host.up;
      assert c in m.up;
    }
  }

  lemma ChildUp(n: DomNode, c: DomNode, s: set<DomNode>)
    requires Hangs(n, s) && c in n.children
    ensures c in s && c.host == n && c.up == {c} + n.up && c !in n.up && n in c.up && c != n
  {
    assert Linked(n);
    ChildOf(n, c);
    assert Placed(c);
  }

  lemma BelowIs(n: DomNode, s: set<DomNode>)
    requires Hangs(n, s)
    ensures Below(n, s) == {n} + BelowAll(n.children, s)
  {
    forall m | m in Below(n, s) && m != n
      ensures m in BelowAll(n.children, s)
    {
      UnderChild(n, m, s);
    }
    forall m | m in BelowAll(n.children, s)
      ensures m in Below(n, s)
    {
      var c :| c in n.children && c in m.up;
      ChildUp(n, c, s);
      assert c.up <= m.up;
    }
  }

  lemma ChildHangs(n: DomNode, c: DomNode, s: set<DomNode>)
    requires Hangs(n, s) && c in n.children
    ensures Hangs(c, s) && s - c.up < s - n.up
  {
    hide Linked, Placed;
    ChildUp(n, c, s);
    forall m, d | m in s && c in m.up && d in m.children
      ensures n in m.up && d in s && d != c && c in d.up
    {
      assert c.up <= m.up;
      assert Linked(m) && Placed(d);
      ParentIs(m, d);
    }
    assert c in s - n.up && c !in s - c.up;
  }

  /** No node is under two children of n. */
  lemma {:induction false} ChildrenApart(n: DomNode, c: DomNode, d: DomNode, m: DomNode, s: set<DomNode>)
    requires Hangs(n, s) && c in n.children && d in n.children && c != d
    requires m in s && c in m.up
    ensures d !in m.up
    decreases m.up
  {
    hide Linked;
    ChildUp(n, c, s);
    ChildUp(n, d, s);
    if m != c {
      assert c.up <= m.up;
      assert Placed(m);
      ChildrenApart(n, c, d, m.host, s);
    }
  }

  // ------------------------------------------------------------------ the tree at a node

  ghost function TreeOf(n: DomNode, s: set<DomNode>): Tree
    reads s
    requires Forest(s) && n in s
    decreases s - n.up
  {
    Tree(n.content, TreesOf(n, 0, s))
  }

  /** The trees at the children of n from the i-th on. */
  ghost function TreesOf(n: DomNode, i: nat, s: set<DomNode>): (r: seq<Tree>)
    reads s
    requires Forest(s) && n in s && i <= |n.children|
    ensures |r| == |n.children| - i
    decreases s - n.up, |n.children| - i
  {
    if i == |n.children| then []
    else
      ForestHangs(n, s);
      ChildUp(n, n.children[i], s);
      [TreeOf(n.children[i], s)] + TreesOf(n, i + 1, s)
  }

  /** A tree depends only on the contents and lists of children in it. */
  twostate lemma {:induction false} TreeStays(s: set<DomNode>, new n: DomNode, new t: set<DomNode>)
    requires old(Forest(s)) && n in s && Forest(t)
    requires forall m :: m in s && n in old(m.up) ==> m in t && m.content == old(m.content) && m.children == old(m.children)
    ensures n in t && TreeOf(n, t) == old(TreeOf(n, s))
    decreases old(s - n.up)
  {
    assert old(Placed(n));
    TreesStay(s, n, 0, t);
  }

  twostate lemma {:induction false} TreesStay(s: set<DomNode>, new n: DomNode, new i: nat, new t: set<DomNode>)
    requires old(Forest(s)) && n in s && Forest(t) && n in t && i <= |n.children|
    requires n.children == old(n.children)
    requires forall m :: m in s && n in old(m.up) ==> m in t && m.content == old(m.content) && m.children == old(m.children)
    ensures TreesOf(n, i, t) == old(TreesOf(n, i, s))
    decreases old(s - n.up), |n.children| - i
  {
    hide Linked, Placed;
    if i < |n.children| {
      OldChildUp(s, n, n.children[i]);
      TreeStays(s, n.children[i], t);
      TreesStay(s, n, i + 1, t);
    }
  }

  twostate lemma OldChildUp(s: set<DomNode>, new n: DomNode, new c: DomNode)
    requires old(Forest(s)) && n in s && c in old(n.children)
    ensures c in s && old(c.up) == {c} + old(n.up) && c !in old(n.up)
    ensures forall m :: m in s && c in old(m.up) ==> n in old(m.up)
  {
    assert old(Linked(n));
    OldChildOf(n, c);
    assert old(Placed(c));
  }
}
