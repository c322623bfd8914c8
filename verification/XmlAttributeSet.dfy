/**
 The attributes of an element: a circular doubly linked list through a sentinel, refining a sequence with
 distinct names in order of insertion, which in turn refines a map.
 */
module XmlAttributeSet {
  import opened Octets
  import opened XmlBytes
  import opened XmlTree

  // ------------------------------------------------------------------ the sequence

  /** The position of the first attribute of that name, or the length. */
  function IndexOf(attributes: seq<Attribute>, name: bytes): (i: nat)
    ensures i <= |attributes|
    ensures i < |attributes| ==> attributes[i].name == name
    ensures forall k :: 0 <= k < i ==> attributes[k].name != name
  {
    if attributes == [] || attributes[0].name == name then 0 else 1 + IndexOf(attributes[1..], name)
  }

  /** SetAttribute: an attribute that is there keeps its place, a new one goes to the end. */
  function Set(attributes: seq<Attribute>, name: bytes, value: bytes): seq<Attribute> {
    var i := IndexOf(attributes, name);
    if i < |attributes| then attributes[i := Attribute(name, value)] else attributes + [Attribute(name, value)]
  }

  /** RemoveAttribute */
  function Unset(attributes: seq<Attribute>, name: bytes): seq<Attribute> {
    var i := IndexOf(attributes, name);
    if i < |attributes| then attributes[..i] + attributes[i + 1..] else attributes
  }

  ghost function AsMap(attributes: seq<Attribute>): map<bytes, bytes> {
    map n | n in Names(attributes) :: attributes[IndexOf(attributes, n)].value
  }

  function Names(attributes: seq<Attribute>): (names: seq<bytes>)
    ensures |names| == |attributes| && forall i :: 0 <= i < |names| ==> names[i] == attributes[i].name
    ensures forall n :: n in names <==> IndexOf(attributes, n) < |attributes|
  {
    var names := seq(|attributes|, i requires 0 <= i < |attributes| => attributes[i].name);
    assert forall n :: IndexOf(attributes, n) < |attributes| ==> names[IndexOf(attributes, n)] == n;
    names
  }

  datatype Edit = SetTo(name: bytes, value: bytes) | Remove(name: bytes)

  function Apply(attributes: seq<Attribute>, e: Edit): seq<Attribute> {
    match e
    case SetTo(name, value) => Set(attributes, name, value)
    case Remove(name) => Unset(attributes, name)
  }

  function ApplyAll(attributes: seq<Attribute>, edits: seq<Edit>): seq<Attribute>
    decreases |edits|
  {
    if edits == [] then attributes else ApplyAll(Apply(attributes, edits[0]), edits[1..])
  }

  function MapAll(m: map<bytes, bytes>, edits: seq<Edit>): map<bytes, bytes>
    decreases |edits|
  {
    if edits == [] then m
    else
      var next := match edits[0]
        case SetTo(name, value) => m[name := value]
        case Remove(name) => m - {name};
      MapAll(next, edits[1..])
  }

  lemma IndexIs(attributes: seq<Attribute>, name: bytes, i: nat)
    requires DistinctNames(attributes) && i < |attributes| && attributes[i].name == name
    ensures IndexOf(attributes, name) == i
  {}

  lemma SetNames(attributes: seq<Attribute>, name: bytes, value: bytes)
    ensures var names := Names(attributes);
            Names(Set(attributes, name, value)) == if name in names then names else names + [name]
  {}

  lemma SetKeepsDistinct(attributes: seq<Attribute>, name: bytes, value: bytes)
    requires DistinctNames(attributes)
    ensures DistinctNames(Set(attributes, name, value))
  {}

  lemma SetOne(attributes: seq<Attribute>, name: bytes, value: bytes, n: bytes)
    requires DistinctNames(attributes)
    ensures var after := Set(attributes, name, value);
            && (IndexOf(after, n) < |after| <==> IndexOf(attributes, n) < |attributes| || n == name)
            && (IndexOf(after, n) < |after|
                ==> after[IndexOf(after, n)].value
                    == if n == name then value else attributes[IndexOf(attributes, n)].value)
  {
    var at, i, after := IndexOf(attributes, name), IndexOf(attributes, n), Set(attributes, name, value);
    SetKeepsDistinct(attributes, name, value);
    assert forall j :: 0 <= j < |after| && j != at ==> after[j] == attributes[j];
    if i < |attributes| || n == name {
      IndexIs(after, n, i);
    }
  }

  lemma SetIsUpdate(attributes: seq<Attribute>, name: bytes, value: bytes)
    requires DistinctNames(attributes)
    ensures DistinctNames(Set(attributes, name, value))
    ensures AsMap(Set(attributes, name, value)) == AsMap(attributes)[name := value]
  {
    var after := Set(attributes, name, value);
    SetKeepsDistinct(attributes, name, value);
    hide Set, DistinctNames;
    forall n
      ensures n in Names(after) <==> n in Names(attributes) || n == name
      ensures n in Names(after) ==> AsMap(after)[n] == AsMap(attributes)[name := value][n]
    {
      SetOne(attributes, name, value, n);
    }
  }

  lemma UnsetIsRemoval(attributes: seq<Attribute>, name: bytes)
    requires DistinctNames(attributes)
    ensures DistinctNames(Unset(attributes, name))
    ensures AsMap(Unset(attributes, name)) == AsMap(attributes) - {name}
  {
    var after := Unset(attributes, name);
    UnsetKeepsDistinct(attributes, name);
    hide Unset, DistinctNames;
    forall n
      ensures n in Names(after) <==> n in Names(attributes) && n != name
      ensures n in Names(after) ==> AsMap(after)[n] == AsMap(attributes)[n]
    {
      UnsetOne(attributes, name, n);
    }
  }

  lemma UnsetKeepsDistinct(attributes: seq<Attribute>, name: bytes)
    requires DistinctNames(attributes)
    ensures DistinctNames(Unset(attributes, name))
  {}

  lemma UnsetOne(attributes: seq<Attribute>, name: bytes, n: bytes)
    requires DistinctNames(attributes)
    ensures var after := Unset(attributes, name);
            && (IndexOf(after, n) < |after| <==> IndexOf(attributes, n) < |attributes| && n != name)
            && (IndexOf(after, n) < |after|
                ==> after[IndexOf(after, n)].value == attributes[IndexOf(attributes, n)].value)
  {
    var at, i, after := IndexOf(attributes, name), IndexOf(attributes, n), Unset(attributes, name);
    UnsetKeepsDistinct(attributes, name);
    if i < |attributes| && n != name {
      var j := if at < i then i - 1 else i;
      assert after[j] == attributes[i];
      IndexIs(after, n, j);
    } else {
      hide DistinctNames, IndexOf;
      NotAfterUnset(attributes, name, n);
    }
  }

  lemma NotAfterUnset(attributes: seq<Attribute>, name: bytes, n: bytes)
    requires DistinctNames(attributes)
    requires n == name || IndexOf(attributes, n) == |attributes|
    ensures var after := Unset(attributes, name); forall j :: 0 <= j < |after| ==> after[j].name != n
  {
    var at, after := IndexOf(attributes, name), Unset(attributes, name);
    forall j | 0 <= j < |after|
      ensures after[j].name != n
    {
      var k := if j < at then j else j + 1;
      assert after[j] == attributes[k] && k != IndexOf(attributes, n);
    }
  }

  /** One edit on the sequence is the edit on the map; names stay distinct. */
  lemma ApplyIsMapEdit(attributes: seq<Attribute>, e: Edit)
    requires DistinctNames(attributes)
    ensures DistinctNames(Apply(attributes, e))
    ensures AsMap(Apply(attributes, e)) == MapAll(AsMap(attributes), [e])
  {
    hide AsMap, DistinctNames, Set, Unset;
    match e
    case SetTo(name, value) => SetIsUpdate(attributes, name, value);
    case Remove(name) => UnsetIsRemoval(attributes, name);
  }

  /** Any run of edits: the attributes are the map that the edits make, with distinct names. */
  lemma {:induction false} RunsRefineMap(attributes: seq<Attribute>, edits: seq<Edit>)
    requires DistinctNames(attributes)
    ensures DistinctNames(ApplyAll(attributes, edits))
    ensures AsMap(ApplyAll(attributes, edits)) == MapAll(AsMap(attributes), edits)
    decreases |edits|
  {
    hide Apply, AsMap, DistinctNames, Names;
    if edits != [] {
      ApplyIsMapEdit(attributes, edits[0]);
      RunsRefineMap(Apply(attributes, edits[0]), edits[1..]);
    }
  }

  // ------------------------------------------------------------------ walking

  /** The attributes that a walk sees: after the first one, an attribute without name and value ends it. */
  function Walked(attributes: seq<Attribute>): seq<Attribute> {
    if attributes == [] then [] else [attributes[0]] + UntilBlank(attributes[1..])
  }

  function UntilBlank(attributes: seq<Attribute>): seq<Attribute> {
    if attributes == [] || attributes[0] == Attribute([], []) then []
    else [attributes[0]] + UntilBlank(attributes[1..])
  }

  lemma WalkedStart(c: seq<Attribute>)
    ensures Walked(c) == if c == [] then [] else [] + [c[0]] + UntilBlank(c[1..])
  {}

  lemma UntilBlankStep(c: seq<Attribute>, i: nat)
    requires i <= |c|
    ensures UntilBlank(c[i..])
         == if i == |c| || c[i] == Attribute([], []) then [] else [c[i]] + UntilBlank(c[i + 1..])
  {}

  /** A walk shows every attribute exactly when none after the first lacks both name and value. */
  lemma {:induction false} WalkIsComplete(attributes: seq<Attribute>)
    ensures Walked(attributes) <= attributes
    ensures Walked(attributes) == attributes <==> forall i :: 1 <= i < |attributes| ==> attributes[i] != Attribute([], [])
  {
    if attributes != [] {
      UntilBlankIsComplete(attributes[1..]);
      assert attributes == [attributes[0]] + attributes[1..];
      assert forall i :: 1 <= i < |attributes| ==> attributes[i] == attributes[1..][i - 1];
    }
  }

  lemma {:induction false} UntilBlankIsComplete(attributes: seq<Attribute>)
    ensures UntilBlank(attributes) <= attributes
    ensures UntilBlank(attributes) == attributes <==> Attribute([], []) !in attributes
  {
    if attributes != [] && attributes[0] != Attribute([], []) {
      UntilBlankIsComplete(attributes[1..]);
      assert attributes == [attributes[0]] + attributes[1..];
    }
  }
}
