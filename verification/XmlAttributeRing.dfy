/**
 TiXmlAttributeSet as linked objects: a ring through a sentinel, every operation proved against the sequence of
 attributes that it stands for.
 */
module XmlAttributeRing {
  import opened Octets
  import opened XmlBytes
  import opened XmlTree
  import opened XmlAttributeSet

  class Link {
    var name: bytes
    var value: bytes
    var prev: Link?
    var next: Link?

    constructor (name: bytes, value: bytes)
      ensures this.name == name && this.value == value && prev == null && next == null
    {
      this.name, this.value, prev, next := name, value, null, null;
    }

    /** What tells a link from the sentinel when a list is walked. */
    predicate IsBlank()
      reads this
    {
      name == [] && value == []
    }
  }

  /** The attributes of the links, the sentinel ring[0] left out. */
  ghost function Attributes(ring: seq<Link>): (r: seq<Attribute>)
    requires ring != []
    reads ring
    ensures |r| == |ring| - 1
    ensures forall i :: 0 <= i < |r| ==> r[i] == Attribute(ring[i + 1].name, ring[i + 1].value)
  {
    seq(|ring| - 1, i requires 0 <= i < |ring| - 1 reads ring => Attribute(ring[i + 1].name, ring[i + 1].value))
  }

  /** next and prev are mutually inverse cycles through the links. */
  ghost predicate IsRing(ring: seq<Link>)
    reads ring
  {
    && ring != []
    && (forall i, j :: 0 <= i < j < |ring| ==> ring[i] != ring[j])
    && (forall i {:trigger ring[i].next} :: 0 <= i < |ring| ==> ring[i].next == ring[if i + 1 < |ring| then i + 1 else 0])
    && (forall i {:trigger ring[i].prev} :: 0 <= i < |ring| ==> ring[i].prev == ring[if i > 0 then i - 1 else |ring| - 1])
  }

  lemma LinksToRing(ring: seq<Link>)
    requires IsRing(ring)
    ensures forall l :: l in ring ==> l.next in ring && l.prev in ring
  {}

  lemma RingIsNotEmpty(ring: seq<Link>)
    requires IsRing(ring)
    ensures ring != []
  {}

  lemma DistinctLinks(ring: seq<Link>, i: nat)
    requires IsRing(ring) && i < |ring|
    ensures forall k :: 0 <= k < |ring| && k != i ==> ring[k] != ring[i]
  {}

  /** The neighbours of a link. */
  lemma Around(ring: seq<Link>, i: nat)
    requires IsRing(ring) && i < |ring|
    ensures ring[i].next == ring[if i + 1 < |ring| then i + 1 else 0]
    ensures ring[i].prev == ring[if i > 0 then i - 1 else |ring| - 1]
  {}

  /** The links of the ring still point where they pointed. */
  twostate predicate SameLinks(ring: seq<Link>)
    reads ring
  {
    forall l :: l in ring ==> l.next == old(l.next) && l.prev == old(l.prev)
  }

  /** Every link but two still points to the same next one, and every link but two to the same previous one. */
  twostate predicate OthersSame(ring: seq<Link>, i: Link, a: Link, b: Link)
    reads ring
  {
    && (forall l :: l in ring && l != i && l != a ==> l.next == old(l.next))
    && (forall l :: l in ring && l != i && l != b ==> l.prev == old(l.prev))
  }

  twostate predicate SameTexts(ring: seq<Link>)
    reads ring
  {
    forall l :: l in ring ==> l.name == old(l.name) && l.value == old(l.value)
  }

  twostate lemma RingStays(ring: seq<Link>)
    requires old(IsRing(ring)) && SameLinks(ring)
    ensures IsRing(ring)
  {}

  twostate lemma RingWith(ring: seq<Link>, new a: Link)
    requires old(IsRing(ring)) && a !in ring
    requires a.next == ring[0] && a.prev == ring[|ring| - 1]
    requires ring[0].prev == a && ring[|ring| - 1].next == a
    requires forall l :: l in ring[1..] ==> l.prev == old(l.prev)
    requires forall l :: l in ring[..|ring| - 1] ==> l.next == old(l.next)
    ensures IsRing(ring + [a])
  {
    var r := ring + [a];
    forall i {:trigger r[i].next} | 0 <= i < |r|
      ensures r[i].next == r[if i + 1 < |r| then i + 1 else 0]
    {
      if i + 1 < |ring| {
        assert ring[..|ring| - 1][i] == r[i];
      }
    }
    forall i {:trigger r[i].prev} | 0 <= i < |r|
      ensures r[i].prev == r[if i > 0 then i - 1 else |r| - 1]
    {
      if 0 < i < |ring| {
        assert ring[1..][i - 1] == r[i];
      }
    }
  }

  /** The ring without its i-th link. */
  function Cut(ring: seq<Link>, i: nat): (r: seq<Link>)
    requires i < |ring|
    ensures |r| == |ring| - 1
    ensures forall k :: 0 <= k < |r| ==> r[k] == ring[if k < i then k else k + 1]
  {
    ring[..i] + ring[i + 1..]
  }

  twostate lemma LinkWithout(ring: seq<Link>, new i: nat, new after: Link, new k: nat)
    requires old(IsRing(ring)) && 1 <= i < |ring| && k < |ring| - 1
    requires after == ring[if i + 1 < |ring| then i + 1 else 0]
    requires ring[i - 1].next == after && after.prev == ring[i - 1]
    requires OthersSame(ring, ring[i], ring[i - 1], after)
    ensures var r := Cut(ring, i);
            && r[k].next == r[if k + 1 < |r| then k + 1 else 0]
            && r[k].prev == r[if k > 0 then k - 1 else |r| - 1]
  {
    hide Cut;
    var m := if k < i then k else k + 1;
    assert ring[m] in ring && ring[m] != ring[i];
    if m != i - 1 {
      assert ring[m].next == old(ring[m].next);
    }
    if ring[m] != after {
      assert ring[m].prev == old(ring[m].prev);
    }
  }

  twostate lemma RingWithout(ring: seq<Link>, new i: nat, new after: Link)
    requires old(IsRing(ring)) && 1 <= i < |ring|
    requires after == ring[if i + 1 < |ring| then i + 1 else 0]
    requires ring[i - 1].next == after && after.prev == ring[i - 1]
    requires OthersSame(ring, ring[i], ring[i - 1], after)
    ensures IsRing(ring[..i] + ring[i + 1..])
  {
    hide OthersSame;
    var r := Cut(ring, i);
    forall k {:trigger r[k].next} | 0 <= k < |r|
      ensures r[k].next == r[if k + 1 < |r| then k + 1 else 0]
    {
      LinkWithout(ring, i, after, k);
    }
    forall k {:trigger r[k].prev} | 0 <= k < |r|
      ensures r[k].prev == r[if k > 0 then k - 1 else |r| - 1]
    {
      LinkWithout(ring, i, after, k);
    }
  }

  /** Only the attribute of one link changed. */
  twostate lemma OneRewritten(ring: seq<Link>, new i: nat)
    requires 1 <= i < |ring|
    requires forall k :: 0 <= k < |ring| && k != i ==> ring[k].name == old(ring[k].name) && ring[k].value == old(ring[k].value)
    ensures Attributes(ring) == old(Attributes(ring))[i - 1 := Attribute(ring[i].name, ring[i].value)]
  {}

  twostate lemma AttributesWithout(ring: seq<Link>, new i: nat)
    requires 1 <= i < |ring|
    requires SameTexts(ring)
    ensures Attributes(ring[..i] + ring[i + 1..]) == old(Attributes(ring)[..i - 1] + Attributes(ring)[i..])
  {}

  twostate lemma AttributesWith(ring: seq<Link>, new a: Link)
    requires ring != []
    requires SameTexts(ring)
    ensures Attributes(ring + [a]) == old(Attributes(ring)) + [Attribute(a.name, a.value)]
  {}

  class AttributeSet {
    const sentinel: Link
    ghost var ring: seq<Link>

    ghost predicate Valid()
      reads this, ring
    {
      IsRing(ring) && ring[0] == sentinel && sentinel.IsBlank()
    }

    ghost function Contents(): seq<Attribute>
      reads this, ring
      requires Valid()
    {
      Attributes(ring)
    }

    constructor ()
      ensures Valid() && fresh(ring) && Contents() == []
    {
      sentinel := new Link([], []);
      new;
      sentinel.next := sentinel;
      sentinel.prev := sentinel;
      ring := [sentinel];
    }

    /** The link is put before the sentinel, that is, at the end. */
    method Add(addMe: Link)
      requires Valid() && addMe !in ring
      modifies this`ring, ring, addMe`prev, addMe`next
      ensures Valid() && ring == old(ring) + [addMe]
      ensures Contents() == old(Contents()) + [old(Attribute(addMe.name, addMe.value))]
    {
      hide IsRing, Attributes;
      RingIsNotEmpty(ring);
      Around(ring, 0);
      Around(ring, |ring| - 1);
      DistinctLinks(ring, 0);
      DistinctLinks(ring, |ring| - 1);
      addMe.next := sentinel;
      addMe.prev := sentinel.prev;
      sentinel.prev.next := addMe;
      sentinel.prev := addMe;
      RingWith(ring, addMe);
      AttributesWith(ring, addMe);
      ring := ring + [addMe];
    }

    method Unlink(node: Link, ghost i: nat)
      requires Valid() && 1 <= i < |ring| && ring[i] == node
      modifies this`ring, ring
      ensures Valid() && ring == old(ring[..i] + ring[i + 1..])
      ensures Contents() == old(Contents()[..i - 1] + Contents()[i..])
      ensures node.next == null && node.prev == null
    {
      hide IsRing, Attributes;
      Around(ring, i);
      DistinctLinks(ring, i);
      DistinctLinks(ring, 0);
      node.prev.next := node.next;
      node.next.prev := node.prev;
      node.next := null;
      node.prev := null;
      RingWithout(ring, i, ring[if i + 1 < |ring| then i + 1 else 0]);
      AttributesWithout(ring, i);
      ring := ring[..i] + ring[i + 1..];
    }

    /** The link is looked for first; one that is not in the list changes nothing. */
    method Remove(removeMe: Link)
      requires Valid()
      modifies this`ring, ring
      ensures Valid()
      ensures removeMe !in old(ring[1..]) ==> ring == old(ring) && Contents() == old(Contents())
      ensures forall i {:trigger old(ring)[i]} :: 1 <= i < |old(ring)| && old(ring)[i] == removeMe ==>
        && ring == old(ring[..i] + ring[i + 1..])
        && Contents() == old(Contents()[..i - 1] + Contents()[i..])
        && removeMe.next == null && removeMe.prev == null
    {
      hide IsRing, Attributes;
      RingIsNotEmpty(ring);
      Around(ring, 0);
      DistinctLinks(ring, 0);
      var node := sentinel.next;
      ghost var i := 1;
      while node != sentinel
        invariant ring == old(ring) && unchanged(ring)
        invariant 1 <= i <= |ring| && node == ring[if i < |ring| then i else 0]
        invariant removeMe !in ring[1..i]
        decreases |ring| - i
      {
        if node == removeMe {
          DistinctLinks(ring, i);
          Unlink(node, i);
          return;
        }
        assert ring[1..i + 1] == ring[1..i] + [ring[i]];
        Around(ring, i);
        node := node.next;
        i := i + 1;
      }
      assert ring[1..i] == ring[1..];
    }

    method Find(name: bytes) returns (found: Link?)
      requires Valid()
      ensures var i := IndexOf(Contents(), name);
              if i < |Contents()| then found == ring[i + 1] else found == null
    {
      Around(ring, 0);
      var node := sentinel.next;
      ghost var i := 1;
      while node != sentinel
        invariant 1 <= i <= |ring| && node == ring[if i < |ring| then i else 0]
        invariant forall k :: 1 <= k < i ==> ring[k].name != name
        decreases |ring| - i
      {
        if node.name == name {
          assert Contents()[i - 1].name == name;
          return node;
        }
        Around(ring, i);
        node := node.next;
        i := i + 1;
      }
      return null;
    }

    method FindOrCreate(name: bytes) returns (attrib: Link)
      requires Valid()
      modifies this`ring, ring
      ensures Valid()
      ensures var i := IndexOf(old(Contents()), name);
              if i < |old(Contents())|
              then ring == old(ring) && attrib == ring[i + 1] && Contents() == old(Contents())
              else fresh(attrib) && ring == old(ring) + [attrib] && Contents() == old(Contents()) + [Attribute(name, [])]
    {
      hide IsRing;
      var found := Find(name);
      if found != null {
        return found;
      }
      attrib := new Link([], []);
      Add(attrib);
      label added:
      attrib.name := name;
      RingStays@added(ring);
      OneRewritten@added(ring, |ring| - 1);
    }

    /** TiXmlElement::SetAttribute, with strings that end at their first NUL. */
    method SetAttribute(name: bytes, value: bytes)
      requires Valid()
      modifies this`ring, ring
      ensures Valid() && Contents() == Set(old(Contents()), CStr(name), CStr(value))
      ensures old(ring) <= ring && fresh(ring[|old(ring)|..])
    {
      hide IsRing, CStr, Attributes;
      RingIsNotEmpty(ring);
      LinksToRing(ring);
      ghost var was, i := Contents(), IndexOf(Contents(), CStr(name));
      var attrib := FindOrCreate(CStr(name));
      assert Contents()[i].name == attrib.name == CStr(name);
      SetValue(attrib, i + 1, CStr(value));
      AppendThenSet(was, Attribute(CStr(name), []), Attribute(CStr(name), CStr(value)));
    }

    method SetValue(attrib: Link, ghost i: nat, value: bytes)
      requires Valid() && 1 <= i < |ring| && ring[i] == attrib
      modifies attrib`value
      ensures Valid() && Contents() == old(Contents())[i - 1 := Attribute(attrib.name, value)]
    {
      hide IsRing, Attributes;
      DistinctLinks(ring, i);
      attrib.value := value;
      RingStays(ring);
      OneRewritten(ring, i);
    }

    /** TiXmlElement::RemoveAttribute */
    method RemoveAttribute(name: bytes)
      requires Valid()
      modifies this`ring, ring
      ensures Valid() && Contents() == Unset(old(Contents()), CStr(name))
      ensures forall l :: l in ring ==> l in old(ring)
    {
      hide IsRing, Attributes, CStr, IndexOf;
      RingIsNotEmpty(ring);
      ghost var i := IndexOf(Contents(), CStr(name));
      var node := Find(CStr(name));
      if node != null {
        assert ring[i + 1] == node;
        Remove(node);
        assert ring == old(ring[..i + 1] + ring[i + 2..]);
      }
    }

    method First() returns (first: Link?)
      requires Valid()
      ensures if Contents() == [] then first == null else first == ring[1]
    {
      Around(ring, 0);
      first := if sentinel.next == sentinel then null else sentinel.next;
    }

    method Last() returns (last: Link?)
      requires Valid()
      ensures if Contents() == [] then last == null else last == ring[|ring| - 1]
    {
      Around(ring, 0);
      last := if sentinel.prev == sentinel then null else sentinel.prev;
    }

    /** TiXmlAttribute::Next: the sentinel is told by having neither name nor value. */
    method Next(link: Link) returns (next: Link?)
      requires Valid() && link in ring
      ensures forall i {:trigger ring[i]} :: 0 <= i < |ring| && ring[i] == link ==>
        if i + 1 == |ring| || ring[i + 1].IsBlank() then next == null else next == ring[i + 1]
    {
      ghost var i :| 0 <= i < |ring| && ring[i] == link;
      Around(ring, i);
      next := if link.next.IsBlank() then null else link.next;
    }

    /** TiXmlAttribute::Previous */
    method Previous(link: Link) returns (previous: Link?)
      requires Valid() && link in ring
      ensures forall i {:trigger ring[i]} :: 0 < i < |ring| && ring[i] == link ==>
        if i == 1 || ring[i - 1].IsBlank() then previous == null else previous == ring[i - 1]
    {
      ghost var i :| 0 <= i < |ring| && ring[i] == link;
      Around(ring, i);
      previous := if link.prev.IsBlank() then null else link.prev;
    }

    /** `for (a = First(); a; a = a->Next())`, as Print, Accept and CopyTo walk the attributes. */
    method Walk() returns (seen: seq<Attribute>)
      requires Valid()
      ensures seen == Walked(Contents())
    {
      hide IsRing, Attributes, Walked, UntilBlank;
      RingIsNotEmpty(ring);
      ghost var c := Contents();
      WalkedStart(c);
      seen := [];
      var a := First();
      ghost var i := 0;
      while a != null
        invariant 0 <= i && |c| == |ring| - 1 && (a != null ==> i < |c| && a == ring[i + 1])
        invariant Walked(c) == if a == null then seen else seen + [c[i]] + UntilBlank(c[i + 1..])
        decreases |c| - i, a != null
      {
        ghost var before := seen;
        seen := seen + [Attribute(a.name, a.value)];
        a := Next(a);
        UntilBlankStep(c, i + 1);
        i := i + 1;
        assert a != null ==> before + [c[i - 1]] + ([c[i]] + UntilBlank(c[i + 1..])) == seen + [c[i]] + UntilBlank(c[i + 1..]);
      }
    }
  }

  lemma AppendThenSet(c: seq<Attribute>, a: Attribute, b: Attribute)
    ensures (c + [a])[|c| := b] == c + [b]
  {}
}
