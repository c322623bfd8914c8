/**
 Who owns the chunks of the memory pool. A chunk is named by its offset in the pool's buffer; streams and
 connections are identified by values of any type.
 */
module IcsPool {
  import opened Octets
  import opened IcsWire

  /** The pool's free list, the chunk of each live write stream, each connection's send list, and what nobody holds. */
  datatype State<S(==), C(==)> = State(
    size: nat,
    count: nat,
    free: seq<nat>,
    streams: map<S, nat>,
    queues: map<C, seq<nat>>,
    lost: set<nat>)

  datatype Event<S, C> =
    | Accept(c: C)
    | Open(s: S)
    | Destroy(s: S)
    | Send(s: S, c: C)
    | Sent(c: C)
    | Close(c: C)

  /** The addresses that MemoryPool::init puts into the free list. */
  function Starts(size: nat, count: nat): (r: seq<nat>)
    ensures |r| == count && forall i :: 0 <= i < count ==> r[i] == i * size
  {
    seq(count, i requires 0 <= i => i * size)
  }

  function Init<S, C>(size: nat, count: nat): State<S, C> {
    State(size, count, Starts(size, count), map[], map[], {})
  }

  function QueueOf<S, C>(s: State<S, C>, c: C): seq<nat> {
    if c in s.queues then s.queues[c] else []
  }

  /**
   One step. Opening takes the first free chunk, and throws when there is none; a chunk too small for a head is
   taken and then forgotten when the constructor throws. Handing a stream's chunk over empties the stream.
   Closing a connection drops its send list.
   */
  function Step<S, C>(s: State<S, C>, e: Event<S, C>): State<S, C> {
    match e
    case Accept(c) => if c in s.queues then s else s.(queues := s.queues[c := []])
    case Open(x) =>
      if x in s.streams || s.free == [] then s
      else if s.size < HEAD + CRC then s.(free := s.free[1..], lost := s.lost + {s.free[0]})
      else s.(free := s.free[1..], streams := s.streams[x := s.free[0]])
    case Destroy(x) =>
      if x in s.streams then s.(free := s.free + [s.streams[x]], streams := s.streams - {x}) else s
    case Send(x, c) =>
      if x in s.streams
      then s.(streams := s.streams - {x}, queues := s.queues[c := QueueOf(s, c) + [s.streams[x]]])
      else s
    case Sent(c) =>
      if QueueOf(s, c) == [] then s
      else s.(free := s.free + [s.queues[c][0]], queues := s.queues[c := s.queues[c][1..]])
    case Close(c) =>
      s.(queues := s.queues - {c}, lost := s.lost + set k | k in QueueOf(s, c))
  }

  function Run<S, C>(s: State<S, C>, events: seq<Event<S, C>>): State<S, C>
    decreases |events|
  {
    if events == [] then s else Run(Step(s, events[0]), events[1..])
  }

  // ------------------------------------------------------------------ one owner

  datatype Place<S, C> = InFree(i: nat) | InStream(s: S) | InQueue(c: C, i: nat) | Nowhere

  predicate Holds<S, C>(s: State<S, C>, p: Place<S, C>, k: nat) {
    match p
    case InFree(i) => i < |s.free| && s.free[i] == k
    case InStream(x) => x in s.streams && s.streams[x] == k
    case InQueue(c, i) => i < |QueueOf(s, c)| && QueueOf(s, c)[i] == k
    case Nowhere => k in s.lost
  }

  function Chunks(size: nat, count: nat): set<nat> {
    set k | k in Starts(size, count)
  }

  /** Every place holds chunks of the pool, and no chunk is in two places. */
  ghost predicate AtMostOne<S(!new), C(!new)>(s: State<S, C>) {
    && (forall p, k :: Holds(s, p, k) ==> k in Chunks(s.size, s.count))
    && (forall p, q, k :: Holds(s, p, k) && Holds(s, q, k) ==> p == q)
  }

  ghost predicate AtLeastOne<S(!new), C(!new)>(s: State<S, C>) {
    forall k :: k in Chunks(s.size, s.count) ==> exists p :: Holds(s, p, k)
  }

  ghost predicate OneOwner<S(!new), C(!new)>(s: State<S, C>) {
    AtMostOne(s) && AtLeastOne(s)
  }

  /** Where the chunk k, found in the place p after the step, was before it. */
  ghost function Was<S, C>(s: State<S, C>, e: Event<S, C>, p: Place<S, C>, k: nat): Place<S, C>
    requires Holds(Step(s, e), p, k)
  {
    match e
    case Accept(_) => p
    case Open(x) =>
      if x in s.streams || s.free == [] then p
      else if p == InStream(x) || (p == Nowhere && k !in s.lost) then InFree(0)
      else if p.InFree? then InFree(p.i + 1)
      else p
    case Destroy(x) => if x in s.streams && p == InFree(|s.free|) then InStream(x) else p
    case Send(x, c) => if x in s.streams && p == InQueue(c, |QueueOf(s, c)|) then InStream(x) else p
    case Sent(c) =>
      if QueueOf(s, c) == [] then p
      else if p == InFree(|s.free|) then InQueue(c, 0)
      else if p.InQueue? && p.c == c then InQueue(c, p.i + 1)
      else p
    case Close(c) =>
      if p == Nowhere && k !in s.lost then
        var i :| 0 <= i < |QueueOf(s, c)| && QueueOf(s, c)[i] == k;
        InQueue(c, i)
      else p
  }

  lemma WasHeld<S, C>(s: State<S, C>, e: Event<S, C>, p: Place<S, C>, k: nat)
    requires Holds(Step(s, e), p, k)
    ensures Holds(s, Was(s, e, p, k), k)
  {}

  /** Where the chunk k, found in the place p before the step, is after it. */
  ghost function Now<S, C>(s: State<S, C>, e: Event<S, C>, p: Place<S, C>, k: nat): Place<S, C> {
    match e
    case Accept(_) => p
    case Open(x) =>
      if x in s.streams || s.free == [] || !p.InFree? then p
      else if p.i > 0 then InFree(p.i - 1)
      else if s.size < HEAD + CRC then Nowhere
      else InStream(x)
    case Destroy(x) => if p == InStream(x) then InFree(|s.free|) else p
    case Send(x, c) => if p == InStream(x) then InQueue(c, |QueueOf(s, c)|) else p
    case Sent(c) =>
      if !p.InQueue? || p.c != c then p else if p.i == 0 then InFree(|s.free|) else InQueue(c, p.i - 1)
    case Close(c) => if p.InQueue? && p.c == c then Nowhere else p
  }

  lemma NowHolds<S, C>(s: State<S, C>, e: Event<S, C>, p: Place<S, C>, k: nat)
    requires Holds(s, p, k)
    ensures Holds(Step(s, e), Now(s, e, p, k), k)
  {}

  /** A step moves a chunk from one place to one other. */
  lemma NowWas<S(!new), C(!new)>(s: State<S, C>, e: Event<S, C>, p: Place<S, C>, k: nat)
    requires AtMostOne(s) && Holds(Step(s, e), p, k)
    ensures Now(s, e, Was(s, e, p, k), k) == p
  {
    WasHeld(s, e, p, k);
  }

  lemma StepKeepsOneOwner<S(!new), C(!new)>(s: State<S, C>, e: Event<S, C>)
    requires OneOwner(s)
    ensures OneOwner(Step(s, e))
  {
    hide Holds, Was, Now, Chunks;
    var t := Step(s, e);
    assert t.size == s.size && t.count == s.count;
    forall p, k | Holds(t, p, k)
      ensures k in Chunks(s.size, s.count)
    {
      WasHeld(s, e, p, k);
    }
    forall p, q, k | Holds(t, p, k) && Holds(t, q, k)
      ensures p == q
    {
      WasHeld(s, e, p, k);
      WasHeld(s, e, q, k);
      NowWas(s, e, p, k);
      NowWas(s, e, q, k);
    }
    forall k | k in Chunks(s.size, s.count)
      ensures exists p :: Holds(t, p, k)
    {
      var p :| Holds(s, p, k);
      NowHolds(s, e, p, k);
    }
  }

  lemma InitHasOneOwner<S(!new), C(!new)>(size: nat, count: nat)
    requires size > 0
    ensures OneOwner(Init<S, C>(size, count))
  {
    var s := Init<S, C>(size, count);
    forall p, q, k | Holds(s, p, k) && Holds(s, q, k)
      ensures p == q
    {
      StartsDistinct(size, p.i, q.i);
    }
    forall k | k in Chunks(size, count)
      ensures exists p :: Holds(s, p, k)
    {
      var i :| 0 <= i < count && Starts(size, count)[i] == k;
      assert Holds(s, InFree(i), k);
    }
  }

  lemma StartsDistinct(size: nat, i: nat, j: nat)
    requires size > 0 && i * size == j * size
    ensures i == j
  {}

  /** In every run, from a pool that has been set up: each chunk is in exactly one place. */
  lemma {:induction false} ExactlyOneOwner<S(!new), C(!new)>(s: State<S, C>, events: seq<Event<S, C>>)
    requires OneOwner(s)
    ensures OneOwner(Run(s, events))
    decreases |events|
  {
    if events != [] {
      StepKeepsOneOwner(s, events[0]);
      ExactlyOneOwner(Step(s, events[0]), events[1..]);
    }
  }

  // ------------------------------------------------------------------ what is lost

  /** The two ways in which a chunk slips away: a send list that is not empty is dropped, or no chunk can hold a head. */
  predicate Leaks<S, C>(s: State<S, C>, e: Event<S, C>) {
    || (e.Close? && QueueOf(s, e.c) != [])
    || (e.Open? && e.s !in s.streams && s.free != [] && s.size < HEAD + CRC)
  }

  predicate LeakFree<S, C>(s: State<S, C>, events: seq<Event<S, C>>)
    decreases |events|
  {
    events == [] || (!Leaks(s, events[0]) && LeakFree(Step(s, events[0]), events[1..]))
  }

  lemma StepLoses<S(!new), C(!new)>(s: State<S, C>, e: Event<S, C>)
    requires OneOwner(s)
    ensures s.lost <= Step(s, e).lost
    ensures s.lost == Step(s, e).lost <==> !Leaks(s, e)
  {
    if e.Close? && QueueOf(s, e.c) != [] {
      var k := QueueOf(s, e.c)[0];
      assert Holds(s, InQueue(e.c, 0), k);
      assert !Holds(s, Nowhere, k);
      assert k in Step(s, e).lost;
    } else if e.Open? && Leaks(s, e) {
      assert Holds(s, InFree(0), s.free[0]);
      assert !Holds(s, Nowhere, s.free[0]);
      assert s.free[0] in Step(s, e).lost;
    }
  }

  /** A run loses a chunk exactly when one of its steps leaks. */
  lemma {:induction false} LostExactlyByLeaks<S(!new), C(!new)>(s: State<S, C>, events: seq<Event<S, C>>)
    requires OneOwner(s)
    ensures s.lost <= Run(s, events).lost
    ensures s.lost == Run(s, events).lost <==> LeakFree(s, events)
    decreases |events|
  {
    hide OneOwner, Leaks, Step;
    if events != [] {
      StepKeepsOneOwner(s, events[0]);
      StepLoses(s, events[0]);
      LostExactlyByLeaks(Step(s, events[0]), events[1..]);
    }
  }

  /** When nothing was lost and everything given back, the free list is the one the pool started with, reordered. */
  lemma AllReturned<S(!new), C(!new)>(s: State<S, C>)
    requires OneOwner(s) && s.size > 0
    requires s.lost == {} && s.streams == map[] && forall c :: c in s.queues ==> s.queues[c] == []
    ensures multiset(s.free) == multiset(Starts(s.size, s.count))
  {
    var starts := Starts(s.size, s.count);
    forall i, j | 0 <= i < j < |s.free|
      ensures s.free[i] != s.free[j]
    {
      assert Holds(s, InFree(i), s.free[i]) && Holds(s, InFree(j), s.free[j]);
    }
    forall i, j | 0 <= i < j < |starts|
      ensures starts[i] != starts[j]
    {
      if starts[i] == starts[j] {
        StartsDistinct(s.size, i, j);
      }
    }
    forall k
      ensures k in s.free <==> k in starts
    {
      if k in s.free {
        var i :| 0 <= i < |s.free| && s.free[i] == k;
        assert Holds(s, InFree(i), k);
      }
      if k in starts {
        assert k in Chunks(s.size, s.count);
        var p :| Holds(s, p, k);
        assert p.InFree?;
      }
    }
    SameElements(s.free, starts);
  }

  ghost predicate Distinct(a: seq<nat>) {
    forall i, j :: 0 <= i < j < |a| ==> a[i] != a[j]
  }

  lemma {:induction false} CountOfDistinct(a: seq<nat>, k: nat)
    requires Distinct(a)
    ensures multiset(a)[k] == if k in a then 1 else 0
    decreases |a|
  {
    if a != [] {
      assert a == [a[0]] + a[1..];
      CountOfDistinct(a[1..], k);
    }
  }

  lemma SameElements(a: seq<nat>, b: seq<nat>)
    requires Distinct(a) && Distinct(b) && forall k :: k in a <==> k in b
    ensures multiset(a) == multiset(b)
  {
    forall k: nat
      ensures multiset(a)[k] == multiset(b)[k]
    {
      CountOfDistinct(a, k);
      CountOfDistinct(b, k);
    }
  }

  // ------------------------------------------------------------------ first in, first out

  /** What a step adds behind the free list that was there. */
  function Freed<S, C>(s: State<S, C>, e: Event<S, C>): seq<nat> {
    var t := Step(s, e);
    if s.free <= t.free then t.free[|s.free|..] else []
  }

  /** What the completions of transmissions to c put back, in this order. */
  function SentBack<S, C(==)>(s: State<S, C>, events: seq<Event<S, C>>, c: C): seq<nat>
    decreases |events|
  {
    if events == [] then [] else
      (if events[0] == Sent(c) then Freed(s, events[0]) else []) + SentBack(Step(s, events[0]), events[1..], c)
  }

  /** The chunks that streams handed over to c, in this order. */
  function HandedTo<S(==), C(==)>(s: State<S, C>, events: seq<Event<S, C>>, c: C): seq<nat>
    decreases |events|
  {
    if events == [] then [] else
      (if events[0].Send? && events[0].c == c && events[0].s in s.streams then [s.streams[events[0].s]] else [])
      + HandedTo(Step(s, events[0]), events[1..], c)
  }

  lemma StepIsInOrder<S, C>(s: State<S, C>, e: Event<S, C>, c: C)
    requires e != Close(c)
    ensures (if e == Sent(c) then Freed(s, e) else []) + QueueOf(Step(s, e), c)
         == QueueOf(s, c) + if e.Send? && e.c == c && e.s in s.streams then [s.streams[e.s]] else []
  {
    if e == Sent(c) && QueueOf(s, c) != [] {
      assert Freed(s, e) == [QueueOf(s, c)[0]];
    }
  }

  /**
   Over every run of a connection that is not closed: the chunks put back after their transmission, followed by those
   that still wait, are those that waited at the start followed by those handed over since, all in order.
   */
  lemma {:induction false} SentInOrder<S, C>(s: State<S, C>, events: seq<Event<S, C>>, c: C)
    requires Close(c) !in events
    ensures SentBack(s, events, c) + QueueOf(Run(s, events), c) == QueueOf(s, c) + HandedTo(s, events, c)
    decreases |events|
  {
    hide Step, Freed, QueueOf;
    if events != [] {
      var e, t := events[0], Step(s, events[0]);
      StepIsInOrder(s, e, c);
      SentInOrder(t, events[1..], c);
      var freed := if e == Sent(c) then Freed(s, e) else [];
      var handed := if e.Send? && e.c == c && e.s in s.streams then [s.streams[e.s]] else [];
      var back, left := SentBack(t, events[1..], c), QueueOf(Run(t, events[1..]), c);
      var later := HandedTo(t, events[1..], c);
      assert freed + back + left == freed + (back + left);
      assert freed + (QueueOf(t, c) + later) == (freed + QueueOf(t, c)) + later;
      assert QueueOf(s, c) + handed + later == QueueOf(s, c) + (handed + later);
    }
  }

  // ------------------------------------------------------------------ memory

  lemma Apart(size: nat, i: nat, j: nat)
    requires i < j
    ensures i * size + size <= j * size
  {
    assert (i + 1) * size <= j * size;
  }

  /** Chunks in different places lie apart from each other and inside the buffer. */
  lemma ChunksApart<S(!new), C(!new)>(s: State<S, C>, p: Place<S, C>, k: nat, q: Place<S, C>, l: nat)
    requires OneOwner(s) && Holds(s, p, k) && Holds(s, q, l) && p != q
    ensures k + s.size <= l || l + s.size <= k
    ensures k + s.size <= s.count * s.size
  {
    assert k in Chunks(s.size, s.count) && l in Chunks(s.size, s.count);
    var i :| 0 <= i < s.count && Starts(s.size, s.count)[i] == k;
    var j :| 0 <= j < s.count && Starts(s.size, s.count)[j] == l;
    Apart(s.size, i, s.count);
    assert i != j by {
      assert i == j ==> k == l;
    }
    if i < j {
      Apart(s.size, i, j);
    } else {
      Apart(s.size, j, i);
    }
  }

  /** What is written into the chunk of one place does not reach the chunk of another. */
  lemma WritesStayInside<S(!new), C(!new)>(s: State<S, C>, p: Place<S, C>, k: nat, q: Place<S, C>, l: nat,
                                           before: bytes, after: bytes)
    requires OneOwner(s) && Holds(s, p, k) && Holds(s, q, l) && p != q
    requires |before| == |after| == s.count * s.size
    requires forall i :: 0 <= i < |before| && !(k <= i < k + s.size) ==> after[i] == before[i]
    ensures l + s.size <= |before| && after[l..l + s.size] == before[l..l + s.size]
  {
    ChunksApart(s, p, k, q, l);
    ChunksApart(s, q, l, p, k);
  }
}
