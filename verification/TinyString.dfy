/**
 TiXmlString, the string class used when the standard one is not: a counted, NUL-terminated buffer that grows,
 and one shared representation for all empty strings. Arguments are byte strings apart from the string itself.
 */
module TinyString {
  import opened Octets

  // ------------------------------------------------------------------ the cost of growing

  /** Length, capacity and the bytes that reserve has copied so far. */
  datatype Size = Size(length: nat, capacity: nat, copied: nat)

  const EMPTY := Size(0, 0, 0)

  /** reserve */
  function Reserved(s: Size, cap: nat): Size {
    if cap > s.capacity then Size(s.length, cap, s.copied + s.length) else s
  }

  /** append of that many bytes: when it must grow, the new capacity is the new length plus the old capacity. */
  function Appended(s: Size, n: nat): Size {
    var newsize := s.length + n;
    (if newsize > s.capacity then Reserved(s, newsize + s.capacity) else s).(length := newsize)
  }

  function AppendedAll(s: Size, ns: seq<nat>): Size
    decreases |ns|
  {
    if ns == [] then s else AppendedAll(Appended(s, ns[0]), ns[1..])
  }

  function Sum(ns: seq<nat>): nat {
    if ns == [] then 0 else ns[0] + Sum(ns[1..])
  }

  ghost predicate Thrifty(s: Size) {
    s.copied <= s.capacity <= 2 * s.length && s.length <= s.capacity
  }

  /** An append-only run copies at most twice the final length, and wastes at most as much room. */
  lemma {:induction false} GrowthIsLinear(s: Size, ns: seq<nat>)
    requires Thrifty(s)
    ensures var r := AppendedAll(s, ns); Thrifty(r) && r.length == s.length + Sum(ns)
    decreases |ns|
  {
    if ns != [] {
      GrowthIsLinear(Appended(s, ns[0]), ns[1..]);
    }
  }

  lemma AppendsFromEmpty(ns: seq<nat>)
    ensures AppendedAll(EMPTY, ns).copied <= 2 * Sum(ns)
  {
    GrowthIsLinear(EMPTY, ns);
  }

  // ------------------------------------------------------------------ the string

  class Rep {
    var size: nat
    const capacity: nat
    const str: array<byte>

    ghost predicate Valid()
      reads this, str
    {
      size <= capacity && str.Length == capacity + 1 && str[size] == 0
    }

    constructor (size: nat, capacity: nat)
      requires size <= capacity
      ensures Valid() && this.size == size && this.capacity == capacity && fresh(str)
    {
      this.size, this.capacity := size, capacity;
      str := new byte[capacity + 1];
      new;
      str[size] := 0;
    }
  }

  class TiXmlString {
    /** The representation that all strings without capacity share. */
    const nullrep: Rep
    var rep: Rep
    ghost var copied: nat

    ghost predicate Valid()
      reads this, rep, rep.str, nullrep, nullrep.str
    {
      && rep.Valid()
      && nullrep.Valid() && nullrep.size == 0 && nullrep.capacity == 0
      && (rep != nullrep ==> rep.capacity > 0 && rep.str != nullrep.str)
    }

    ghost function Contents(): bytes
      reads this, rep, rep.str, nullrep, nullrep.str
      requires Valid()
    {
      rep.str[..rep.size]
    }

    ghost function Measure(): Size
      reads this, rep
    {
      Size(rep.size, rep.capacity, copied)
    }

    constructor (nullrep: Rep)
      requires nullrep.Valid() && nullrep.size == 0 && nullrep.capacity == 0
      ensures Valid() && this.nullrep == nullrep && rep == nullrep && Contents() == [] && Measure() == EMPTY
    {
      this.nullrep, rep, copied := nullrep, nullrep, 0;
    }

    /** init(size, capacity), of a temporary. */
    method Init(size: nat, capacity: nat) returns (r: Rep)
      requires Valid() && size <= capacity
      ensures r.Valid() && r.size == size && r.capacity == capacity
      ensures if capacity > 0 then fresh(r) && fresh(r.str) else r == nullrep
    {
      if capacity > 0 {
        r := new Rep(size, capacity);
      } else {
        r := nullrep;
      }
    }

    /** memcpy to the start of a representation of that size. */
    method Copy(r: Rep, str: bytes)
      requires r.Valid() && r.size == |str|
      modifies r.str
      ensures r.Valid() && r.str[..r.size] == str
      ensures str == [] ==> r.str[..] == old(r.str[..])
    {
      for i := 0 to |str|
        invariant r.Valid() && r.str[..i] == str[..i]
        invariant i == 0 ==> r.str[..] == old(r.str[..])
      {
        r.str[i] := str[i];
      }
      assert str[..|str|] == str;
    }

    method Reserve(cap: nat)
      requires Valid()
      modifies this`rep, this`copied
      ensures Valid() && Contents() == old(Contents()) && Measure() == Reserved(old(Measure()), cap)
      ensures rep.capacity == if cap > old(rep.capacity) then cap else old(rep.capacity)
      ensures rep == old(rep) <==> cap <= old(rep.capacity)
      ensures rep == old(rep) || (fresh(rep) && fresh(rep.str))
    {
      if cap > rep.capacity {
        var r := Init(rep.size, cap);
        Copy(r, rep.str[..rep.size]);
        copied := copied + rep.size;
        rep := r;
      }
    }

    /** memmove to a place in the buffer, and set_size. */
    method Put(at: nat, str: bytes)
      requires Valid() && at <= rep.size && at + |str| <= rep.capacity
      modifies rep, rep.str
      ensures Valid() && rep.size == at + |str|
      ensures Contents() == old(Contents()[..at]) + str
    {
      var r := rep;
      for i := 0 to |str|
        invariant r.str[..at + i] == old(rep.str[..at]) + str[..i]
        invariant r == nullrep ==> i == 0 && r.str[0] == 0
      {
        r.str[at + i] := str[i];
      }
      r.size := at + |str|;
      r.str[r.size] := 0;
      assert str[..|str|] == str;
    }

    method Append(str: bytes)
      requires Valid()
      modifies this`rep, this`copied, rep, rep.str
      ensures Valid() && Contents() == old(Contents()) + str && Measure() == Appended(old(Measure()), |str|)
      ensures rep == old(rep) <==> |old(Contents())| + |str| <= old(rep.capacity)
      ensures rep != old(rep) ==> rep.capacity == |old(Contents())| + |str| + old(rep.capacity)
      ensures rep == old(rep) || (fresh(rep) && fresh(rep.str))
    {
      var newsize := rep.size + |str|;
      if newsize > rep.capacity {
        Reserve(newsize + rep.capacity);
      }
      ghost var before := Contents();
      Put(rep.size, str);
      assert before[..|before|] == before;
    }

    /** A buffer that is too small, or much too large, is replaced. */
    method Assign(str: bytes)
      requires Valid()
      modifies this`rep, this`copied, rep, rep.str
      ensures Valid() && Contents() == str
      ensures |str| <= old(rep.capacity) <= 3 * (|str| + 8) ==> rep == old(rep)
      ensures !(|str| <= old(rep.capacity) <= 3 * (|str| + 8)) ==> rep.capacity == |str|
      ensures rep == old(rep) || rep == nullrep || (fresh(rep) && fresh(rep.str))
    {
      var cap := rep.capacity;
      if |str| > cap || cap > 3 * (|str| + 8) {
        var r := Init(|str|, |str|);
        if str != [] {  // otherwise nothing is copied, and the shared representation is not written
          Copy(r, str);
        }
        rep := r;
      } else {
        Put(0, str);
      }
    }

    method Clear()
      requires Valid()
      modifies this`rep
      ensures Valid() && Contents() == [] && rep == nullrep
    {
      rep := nullrep;
    }

    /** Appends another string; neither it nor a third one changes. */
    method AppendOf(other: TiXmlString, third: TiXmlString)
      requires Valid() && other.Valid() && third.Valid() && nullrep == other.nullrep == third.nullrep
      requires this != other && this != third
      requires rep == nullrep || (rep != other.rep && rep != third.rep && rep.str != other.rep.str && rep.str != third.rep.str)
      modifies this`rep, this`copied, rep, rep.str
      ensures Valid() && other.Valid() && third.Valid() && other.rep == old(other.rep) && third.rep == old(third.rep)
      ensures Contents() == old(Contents()) + old(other.Contents())
      ensures other.Contents() == old(other.Contents()) && third.Contents() == old(third.Contents())
      ensures Measure() == Appended(old(Measure()), |old(other.Contents())|)
      ensures rep == old(rep) || (fresh(rep) && fresh(rep.str))
    {
      hide Appended;
      Append(other.rep.str[..other.rep.size]);
    }

    /** operator+: room for both is reserved once. */
    static method Plus(a: TiXmlString, b: TiXmlString) returns (tmp: TiXmlString)
      requires a.Valid() && b.Valid() && a.nullrep == b.nullrep
      modifies a.nullrep, a.nullrep.str
      ensures fresh(tmp) && tmp.Valid() && tmp.Contents() == old(a.Contents() + b.Contents())
      ensures a.Valid() && b.Valid() && a.Contents() == old(a.Contents()) && b.Contents() == old(b.Contents())
      ensures tmp.Measure() == Size(|a.Contents()| + |b.Contents()|, |a.Contents()| + |b.Contents()|, 0)
    {
      hide Appended, Reserved;
      ghost var m, n := a.rep.size, b.rep.size;
      tmp := WithRoom(a.nullrep, a.rep.size + b.rep.size);
      tmp.AppendOf(a, b);
      tmp.AppendOf(b, a);
      NoGrowth(m, n);
    }

    static method WithRoom(nullrep: Rep, cap: nat) returns (tmp: TiXmlString)
      requires nullrep.Valid() && nullrep.size == 0 && nullrep.capacity == 0
      ensures fresh(tmp) && tmp.Valid() && tmp.nullrep == nullrep && tmp.Contents() == []
      ensures tmp.rep == nullrep || (fresh(tmp.rep) && fresh(tmp.rep.str))
      ensures tmp.Measure() == Reserved(EMPTY, cap)
    {
      tmp := new TiXmlString(nullrep);
      tmp.Reserve(cap);
    }

    static lemma NoGrowth(m: nat, n: nat)
      ensures Appended(Appended(Reserved(EMPTY, m + n), m), n) == Size(m + n, m + n, 0)
    {}
  }
}
