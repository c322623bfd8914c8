/**
 The terminal registry of the proxy as a state machine: terminals authenticate, take over a gateway from one
 another and fail, in any order, while online and offline notices go out to the centers that are connected.
 Connections and centers are identified by values of any type.
 */
module IcsRegistry {
  import opened Octets
  import IcsWire

  /** The answer to an authentication: "ok" behind its length, and a 16-bit number, after the head. */
  const AUTH_ANSWER := IcsWire.HEAD + 1 + 2 + 2

  /** What the proxy knows of a terminal connection. An empty gateway id means that it has not authenticated. */
  datatype Connection = Connection(gwid: bytes, kind: nat, valid: bool, replaced: bool)

  const FRESH := Connection([], 0, true, false)

  datatype Notice = Notice(gateway: bytes, kind: nat, online: bool)

  datatype Event<C, K> =
    | Connect(c: C)
    | Authenticate(c: C, gateway: bytes, kind: nat)
    | Fail(c: C)
    | AddCenter(k: K)
    | RemoveCenter(k: K)

  /**
   Besides the two connection maps: all notices ever broadcast, what each center was sent, and the connections
   that authenticated after they had failed.
   */
  datatype State<C(==), K(==)> = State(
    connections: map<C, Connection>,
    registry: map<bytes, C>,
    centers: set<K>,
    inboxes: map<K, seq<Notice>>,
    notices: seq<Notice>,
    late: set<C>)

  function Initial<C, K>(): State<C, K> {
    State(map[], map[], {}, map[], [], {})
  }

  /** sendToIcsCenter: every connected center is sent the notice. */
  function Broadcast<C, K>(s: State<C, K>, notice: Notice): State<C, K> {
    s.(inboxes := map k | k in s.inboxes :: if k in s.centers then s.inboxes[k] + [notice] else s.inboxes[k],
       notices := s.notices + [notice])
  }

  /** replaced(): the connection is marked first, so that its error() leaves the registry alone. */
  function Supersede(c: Connection): Connection {
    c.(replaced := true, valid := false)
  }

  /** addTerminalClient */
  function Register<C, K>(s: State<C, K>, gateway: bytes, c: C): State<C, K> {
    if gateway in s.registry && s.registry[gateway] in s.connections then
      var previous := s.registry[gateway];
      s.(connections := s.connections[previous := Supersede(s.connections[previous])],
         registry := s.registry[gateway := c])
    else s.(registry := s.registry[gateway := c])
  }

  /** handleAuthRequest, once the request is read: a second authentication is only answered. */
  function Admit<C, K>(s: State<C, K>, c: C, gateway: bytes, kind: nat): State<C, K>
    requires c in s.connections
  {
    if s.connections[c].gwid != [] then s
    else Broadcast(Register(Named(s, c, gateway, kind), gateway, c), Notice(gateway, kind, true))
  }

  function Named<C, K>(s: State<C, K>, c: C, gateway: bytes, kind: nat): State<C, K>
    requires c in s.connections
  {
    s.(connections := s.connections[c := s.connections[c].(gwid := gateway, kind := kind)],
       late := if s.connections[c].valid then s.late else s.late + {c})
  }

  /** error(): an authenticated connection that was not superseded leaves the registry. */
  function Leave<C, K>(s: State<C, K>, c: C): State<C, K>
    requires c in s.connections
  {
    var x := s.connections[c];
    if x.replaced || x.gwid == [] then s
    else
      var gone := Broadcast(s.(registry := s.registry - {x.gwid}), Notice(x.gwid, x.kind, false));
      gone.(connections := gone.connections[c := x.(gwid := [])])
  }

  /** do_error(): only the first failure of a connection is acted on. */
  function Drop<C, K>(s: State<C, K>, c: C): State<C, K>
    requires c in s.connections
  {
    if !s.connections[c].valid then s
    else Leave(s.(connections := s.connections[c := s.connections[c].(valid := false)]), c)
  }

  function Step<C, K>(s: State<C, K>, e: Event<C, K>): State<C, K> {
    match e
    case Connect(c) => if c in s.connections then s else s.(connections := s.connections[c := FRESH])
    case Authenticate(c, gateway, kind) => if c in s.connections then Admit(s, c, gateway, kind) else s
    case Fail(c) => if c in s.connections then Drop(s, c) else s
    case AddCenter(k) =>
      s.(centers := s.centers + {k}, inboxes := if k in s.inboxes then s.inboxes else s.inboxes[k := []])
    case RemoveCenter(k) => s.(centers := s.centers - {k})
  }

  function Run<C, K>(s: State<C, K>, events: seq<Event<C, K>>): State<C, K>
    decreases |events|
  {
    if events == [] then s else Run(Step(s, events[0]), events[1..])
  }

  /**
   handleMessage with an authentication request, when the chunks of the pool have that size. The answer needs a chunk
   with room for a head and a checksum to be begun, and is then written before the registration but after the id is
   set; the checksum is written last, after the registration. Where one of them finds no room the connection fails.
   */
  function AuthMessage<C, K>(s: State<C, K>, c: C, gateway: bytes, kind: nat, chunk: nat): State<C, K>
    requires c in s.connections
  {
    if chunk < IcsWire.HEAD + IcsWire.CRC then Drop(s, c)
    else if chunk < AUTH_ANSWER
    then Drop(if s.connections[c].gwid == [] then Named(s, c, gateway, kind) else s, c)
    else if chunk < AUTH_ANSWER + IcsWire.CRC then Drop(Admit(s, c, gateway, kind), c)
    else Admit(s, c, gateway, kind)
  }

  function StepIn<C, K>(s: State<C, K>, e: Event<C, K>, chunk: nat): State<C, K> {
    if e.Authenticate? && e.c in s.connections then AuthMessage(s, e.c, e.gateway, e.kind, chunk) else Step(s, e)
  }

  /** A run of a proxy with chunks of that size. */
  function RunIn<C, K>(s: State<C, K>, events: seq<Event<C, K>>, chunk: nat): State<C, K>
    decreases |events|
  {
    if events == [] then s else RunIn(StepIn(s, events[0], chunk), events[1..], chunk)
  }

  // ------------------------------------------------------------------ what every run keeps

  /** The last notice about the gateway, if there is one, says online. */
  predicate Online(notices: seq<Notice>, gateway: bytes) {
    notices != [] &&
    var last := notices[|notices| - 1];
    if last.gateway == gateway then last.online else Online(notices[..|notices| - 1], gateway)
  }

  predicate Mentioned(notices: seq<Notice>, gateway: bytes) {
    exists i :: 0 <= i < |notices| && notices[i].gateway == gateway
  }

  /** An entry for g is a connection that was not superseded and whose own id is g. */
  ghost predicate EntriesAreOwn<C, K>(s: State<C, K>) {
    forall g :: g in s.registry ==>
      && g != []
      && s.registry[g] in s.connections
      && s.connections[s.registry[g]].gwid == g
      && !s.connections[s.registry[g]].replaced
  }

  /** An authenticated connection that was not superseded is the entry for its id. */
  ghost predicate OwnersAreEntries<C, K>(s: State<C, K>) {
    forall c :: c in s.connections && s.connections[c].gwid != [] && !s.connections[c].replaced ==>
      s.connections[c].gwid in s.registry && s.registry[s.connections[c].gwid] == c
  }

  /** A superseded connection has failed and keeps its id; any other holds an id after failing only if it came late. */
  ghost predicate FailuresAreKnown<C, K>(s: State<C, K>) {
    && s.late <= s.connections.Keys
    && forall c :: c in s.connections ==>
      var x := s.connections[c];
      && (x.replaced ==> !x.valid && x.gwid != [])
      && (c in s.late ==> !x.valid)
      && (!x.valid && !x.replaced && x.gwid != [] ==> c in s.late)
  }

  ghost predicate NoticesAgree<C, K>(s: State<C, K>) {
    forall g :: Online(s.notices, g) <==> g in s.registry
  }

  ghost predicate Inv<C, K>(s: State<C, K>) {
    EntriesAreOwn(s) && OwnersAreEntries(s) && FailuresAreKnown(s) && NoticesAgree(s) && s.centers <= s.inboxes.Keys
  }

  /** No terminal authenticates with an empty gateway id. */
  predicate NamesGiven<C, K>(events: seq<Event<C, K>>) {
    forall i :: 0 <= i < |events| && events[i].Authenticate? ==> events[i].gateway != []
  }

  lemma OnlineAfter(notices: seq<Notice>, n: Notice, gateway: bytes)
    ensures Online(notices + [n], gateway) == if n.gateway == gateway then n.online else Online(notices, gateway)
  {
    assert (notices + [n])[..|notices|] == notices;
  }

  lemma BroadcastAgrees<C, K>(s: State<C, K>, was: State<C, K>, n: Notice)
    requires NoticesAgree(was) && s.notices == was.notices
    requires forall g :: g in s.registry <==> if g == n.gateway then n.online else g in was.registry
    ensures NoticesAgree(Broadcast(s, n))
  {
    hide Online;
    forall g
      ensures Online(Broadcast(s, n).notices, g) <==> g in s.registry
    {
      OnlineAfter(s.notices, n, g);
    }
  }

  lemma AdmitKeepsEntries<C, K>(s: State<C, K>, c: C, gateway: bytes, kind: nat)
    requires EntriesAreOwn(s) && OwnersAreEntries(s) && FailuresAreKnown(s)
    requires c in s.connections && s.connections[c].gwid == [] && gateway != []
    ensures var r := Register(Named(s, c, gateway, kind), gateway, c);
            EntriesAreOwn(r) && OwnersAreEntries(r) && FailuresAreKnown(r)
  {
    var n := Named(s, c, gateway, kind);
    assert gateway in s.registry ==> s.registry[gateway] != c;
    assert !s.connections[c].replaced;
    var r := Register(n, gateway, c);
    assert EntriesAreOwn(r) by {
      forall g | g in r.registry
        ensures g != [] && r.registry[g] in r.connections
        ensures r.connections[r.registry[g]].gwid == g && !r.connections[r.registry[g]].replaced
      {
        assert g != gateway ==> g in s.registry;
      }
    }
  }

  lemma AdmitKeepsInv<C, K>(s: State<C, K>, c: C, gateway: bytes, kind: nat)
    requires Inv(s) && c in s.connections && gateway != []
    ensures Inv(Admit(s, c, gateway, kind))
  {
    hide NoticesAgree, EntriesAreOwn, OwnersAreEntries, FailuresAreKnown;
    if s.connections[c].gwid == [] {
      var r := Register(Named(s, c, gateway, kind), gateway, c);
      AdmitKeepsEntries(s, c, gateway, kind);
      BroadcastKeeps(r, Notice(gateway, kind, true));
      BroadcastAgrees(r, s, Notice(gateway, kind, true));
    }
  }

  lemma BroadcastKeeps<C, K>(s: State<C, K>, n: Notice)
    requires EntriesAreOwn(s) && OwnersAreEntries(s) && FailuresAreKnown(s)
    ensures var b := Broadcast(s, n); EntriesAreOwn(b) && OwnersAreEntries(b) && FailuresAreKnown(b)
  {}

  lemma LeaveKeepsEntries<C, K>(s: State<C, K>, c: C)
    requires EntriesAreOwn(s) && OwnersAreEntries(s) && c in s.connections && s.connections[c].valid
    requires FailuresAreKnown(s)
    requires s.connections[c].gwid != []
    ensures !s.connections[c].replaced
    ensures var l := Drop(s, c); EntriesAreOwn(l) && OwnersAreEntries(l) && FailuresAreKnown(l)
  {}

  lemma DropKeepsInv<C, K>(s: State<C, K>, c: C)
    requires Inv(s) && c in s.connections
    ensures Inv(Drop(s, c))
  {
    var x := s.connections[c];
    var t := s.(connections := s.connections[c := x.(valid := false)]);
    if x.valid && x.gwid != [] {
      hide Online;
      LeaveKeepsEntries(s, c);
      BroadcastAgrees(t.(registry := t.registry - {x.gwid}), t, Notice(x.gwid, x.kind, false));
    }
  }

  lemma StepKeepsInv<C, K>(s: State<C, K>, e: Event<C, K>)
    requires Inv(s) && (e.Authenticate? ==> e.gateway != [])
    ensures Inv(Step(s, e))
  {
    match e
    case Authenticate(c, gateway, kind) =>
      if c in s.connections {
        AdmitKeepsInv(s, c, gateway, kind);
      }
    case Fail(c) =>
      if c in s.connections {
        DropKeepsInv(s, c);
      }
    case Connect(_) =>
    case AddCenter(_) =>
    case RemoveCenter(_) =>
  }

  lemma {:induction false} RunKeepsInv<C, K>(s: State<C, K>, events: seq<Event<C, K>>)
    requires Inv(s) && NamesGiven(events)
    ensures Inv(Run(s, events))
    decreases |events|
  {
    hide Inv;
    if events != [] {
      StepKeepsInv(s, events[0]);
      RunKeepsInv(Step(s, events[0]), events[1..]);
    }
  }

  // ------------------------------------------------------------------ the kinds in the notices

  /** The kind of device that the last notice about the gateway says is online. */
  function OnlineKind(notices: seq<Notice>, gateway: bytes): Option<nat> {
    if notices == [] then None
    else
      var last := notices[|notices| - 1];
      if last.gateway != gateway then OnlineKind(notices[..|notices| - 1], gateway)
      else if last.online then Some(last.kind)
      else None
  }

  /**
   The last online notice about a registered gateway has the kind of its owner, and every offline notice has the kind
   that was online before it.
   */
  ghost predicate KindsAgree<C, K>(s: State<C, K>) {
    && (forall g :: g in s.registry && s.registry[g] in s.connections ==>
          OnlineKind(s.notices, g) == Some(s.connections[s.registry[g]].kind))
    && OfflineAfterOnline(s.notices)
  }

  predicate OfflineAfterOnline(notices: seq<Notice>) {
    forall i :: 0 <= i < |notices| && !notices[i].online ==>
      OnlineKind(notices[..i], notices[i].gateway) == Some(notices[i].kind)
  }

  lemma KindAfter(notices: seq<Notice>, n: Notice, gateway: bytes)
    ensures OnlineKind(notices + [n], gateway)
         == if n.gateway != gateway then OnlineKind(notices, gateway) else if n.online then Some(n.kind) else None
  {
    assert (notices + [n])[..|notices|] == notices;
  }

  lemma OneMoreNotice(notices: seq<Notice>, n: Notice)
    requires OfflineAfterOnline(notices) && (!n.online ==> OnlineKind(notices, n.gateway) == Some(n.kind))
    ensures OfflineAfterOnline(notices + [n])
  {
    hide OnlineKind;
    var all := notices + [n];
    forall i | 0 <= i < |all| && !all[i].online
      ensures OnlineKind(all[..i], all[i].gateway) == Some(all[i].kind)
    {
      assert all[..i] == notices[..i];
      assert i == |notices| ==> notices[..i] == notices;
    }
  }

  lemma StepKeepsKinds<C, K>(s: State<C, K>, e: Event<C, K>)
    requires Inv(s) && KindsAgree(s) && (e.Authenticate? ==> e.gateway != [])
    ensures KindsAgree(Step(s, e))
  {
    hide OnlineKind, OfflineAfterOnline, NoticesAgree;
    var t := Step(s, e);
    if e.Authenticate? && e.c in s.connections && s.connections[e.c].gwid == [] {
      var n := Notice(e.gateway, e.kind, true);
      assert t.notices == s.notices + [n];
      OneMoreNotice(s.notices, n);
      forall g | g in t.registry && t.registry[g] in t.connections
        ensures OnlineKind(t.notices, g) == Some(t.connections[t.registry[g]].kind)
      {
        KindAfter(s.notices, n, g);
      }
    } else if e.Fail? && e.c in s.connections && s.connections[e.c].valid && s.connections[e.c].gwid != [] {
      var x := s.connections[e.c];
      var n := Notice(x.gwid, x.kind, false);
      LeaveKeepsEntries(s, e.c);
      assert t.notices == s.notices + [n];
      OneMoreNotice(s.notices, n);
      forall g | g in t.registry && t.registry[g] in t.connections
        ensures OnlineKind(t.notices, g) == Some(t.connections[t.registry[g]].kind)
      {
        KindAfter(s.notices, n, g);
      }
    } else {
      assert t.notices == s.notices && t.registry == s.registry;
    }
  }

  lemma {:induction false} RunKeepsKinds<C, K>(s: State<C, K>, events: seq<Event<C, K>>)
    requires Inv(s) && KindsAgree(s) && NamesGiven(events)
    ensures KindsAgree(Run(s, events))
    decreases |events|
  {
    hide Inv, KindsAgree;
    if events != [] {
      StepKeepsInv(s, events[0]);
      StepKeepsKinds(s, events[0]);
      RunKeepsKinds(Step(s, events[0]), events[1..]);
    }
  }

  // ------------------------------------------------------------------ every size of chunks

  /** With room for the framed answer, a run is a run. */
  lemma {:induction false} RoomSuffices<C, K>(s: State<C, K>, events: seq<Event<C, K>>, chunk: nat)
    requires chunk >= AUTH_ANSWER + IcsWire.CRC
    ensures RunIn(s, events, chunk) == Run(s, events)
    decreases |events|
  {
    if events != [] {
      RoomSuffices(Step(s, events[0]), events[1..], chunk);
    }
  }

  /** Every authentication is followed by the failure of the connection. */
  function WithFailures<C, K>(events: seq<Event<C, K>>): seq<Event<C, K>>
    decreases |events|
  {
    if events == [] then [] else
      (if events[0].Authenticate? then [events[0], Fail(events[0].c)] else [events[0]]) + WithFailures(events[1..])
  }

  /** With room for the answer but not for its checksum, every connection that authenticates fails right after it. */
  lemma {:induction false} NoRoomForChecksum<C, K>(s: State<C, K>, events: seq<Event<C, K>>, chunk: nat)
    requires AUTH_ANSWER <= chunk < AUTH_ANSWER + IcsWire.CRC
    ensures RunIn(s, events, chunk) == Run(s, WithFailures(events))
    decreases |events|
  {
    hide Admit, Drop;
    if events != [] {
      var e, rest := events[0], WithFailures(events[1..]);
      var all := WithFailures(events);
      var t := Step(s, e);
      if e.Authenticate? {
        assert all == [e] + ([Fail(e.c)] + rest);
        RunOnce(s, e, [Fail(e.c)] + rest);
        RunOnce(t, Fail(e.c), rest);
        AdmitKeepsKnown(s, e);
        NoRoomForChecksum(Step(t, Fail(e.c)), events[1..], chunk);
      } else {
        assert all == [e] + rest;
        RunOnce(s, e, rest);
        NoRoomForChecksum(t, events[1..], chunk);
      }
    }
  }

  lemma RunOnce<C, K>(s: State<C, K>, e: Event<C, K>, rest: seq<Event<C, K>>)
    ensures Run(s, [e] + rest) == Run(Step(s, e), rest)
  {
    assert ([e] + rest)[1..] == rest;
  }

  lemma AdmitKeepsKnown<C, K>(s: State<C, K>, e: Event<C, K>)
    requires e.Authenticate?
    ensures Step(s, e).connections.Keys == s.connections.Keys
  {}

  lemma {:induction false} FailuresGiven<C, K>(events: seq<Event<C, K>>)
    requires NamesGiven(events)
    ensures NamesGiven(WithFailures(events))
    decreases |events|
  {
    if events != [] {
      FailuresGiven(events[1..]);
    }
  }

  /** Then only connections that failed before they authenticated are in the registry. */
  ghost predicate OnlyLate<C, K>(s: State<C, K>) {
    forall g :: g in s.registry ==> s.registry[g] in s.late
  }

  lemma {:induction false} OnlyLateStay<C, K>(s: State<C, K>, events: seq<Event<C, K>>)
    requires Inv(s) && OnlyLate(s) && NamesGiven(events)
    ensures OnlyLate(Run(s, WithFailures(events)))
    decreases |events|
  {
    hide Inv, OnlyLate, Step;
    if events != [] {
      var e, rest := events[0], WithFailures(events[1..]);
      var t := Step(s, e);
      StepKeepsInv(s, e);
      if e.Authenticate? {
        assert WithFailures(events) == [e] + ([Fail(e.c)] + rest);
        RunOnce(s, e, [Fail(e.c)] + rest);
        RunOnce(t, Fail(e.c), rest);
        StepKeepsInv(t, Fail(e.c));
        FailedIsLate(s, e);
        OnlyLateStay(Step(t, Fail(e.c)), events[1..]);
      } else {
        assert WithFailures(events) == [e] + rest;
        RunOnce(s, e, rest);
        OthersStayLate(s, e);
        OnlyLateStay(t, events[1..]);
      }
    }
  }

  lemma FailedIsLate<C, K>(s: State<C, K>, e: Event<C, K>)
    requires Inv(s) && OnlyLate(s) && e.Authenticate? && e.gateway != []
    ensures OnlyLate(Step(Step(s, e), Fail(e.c)))
  {
    hide NoticesAgree;
  }

  lemma OthersStayLate<C, K>(s: State<C, K>, e: Event<C, K>)
    requires Inv(s) && OnlyLate(s) && !e.Authenticate?
    ensures OnlyLate(Step(s, e))
  {
    hide NoticesAgree;
  }

  /** Nobody is registered and nobody was announced to be online. */
  ghost predicate Idle<C, K>(s: State<C, K>) {
    s.registry == map[] && forall g :: !Online(s.notices, g)
  }

  /** Without room for the answer nothing is ever registered. */
  lemma {:induction false} NoRoomForAnswer<C, K>(s: State<C, K>, events: seq<Event<C, K>>, chunk: nat)
    requires Idle(s) && chunk < AUTH_ANSWER
    ensures Idle(RunIn(s, events, chunk))
    decreases |events|
  {
    hide Idle, StepIn;
    if events != [] {
      StaysIdle(s, events[0], chunk);
      NoRoomForAnswer(StepIn(s, events[0], chunk), events[1..], chunk);
    }
  }

  lemma StaysIdle<C, K>(s: State<C, K>, e: Event<C, K>, chunk: nat)
    requires Idle(s) && chunk < AUTH_ANSWER
    ensures Idle(StepIn(s, e, chunk))
  {
    hide Idle, Online, Drop;
    if e.Authenticate? && e.c in s.connections {
      NamingStaysIdle(s, e.c, e.gateway, e.kind);
      DropStaysIdle(s, e.c);
      DropStaysIdle(Named(s, e.c, e.gateway, e.kind), e.c);
    } else if e.Fail? && e.c in s.connections {
      DropStaysIdle(s, e.c);
    } else {
      assert Step(s, e).registry == s.registry && Step(s, e).notices == s.notices;
      SameIsIdle(s, Step(s, e));
    }
  }

  lemma SameIsIdle<C, K>(s: State<C, K>, t: State<C, K>)
    requires Idle(s) && t.registry == s.registry && t.notices == s.notices
    ensures Idle(t)
  {}

  lemma NamingStaysIdle<C, K>(s: State<C, K>, c: C, gateway: bytes, kind: nat)
    requires Idle(s) && c in s.connections
    ensures Idle(Named(s, c, gateway, kind))
  {}

  lemma DropStaysIdle<C, K>(s: State<C, K>, c: C)
    requires Idle(s) && c in s.connections
    ensures Idle(Drop(s, c))
  {
    hide Online;
    var x := s.connections[c];
    forall g
      ensures !Online(Drop(s, c).notices, g)
    {
      OnlineAfter(s.notices, Notice(x.gwid, x.kind, false), g);
    }
    assert s.registry - {x.gwid} == map[];
  }

  /** The registry maps an id to its only unsuperseded owner, and the notices say so. */
  ghost predicate Safe<C, K>(s: State<C, K>) {
    && (forall c, g | c in s.connections && g != [] ::
          (s.connections[c].gwid == g && !s.connections[c].replaced) <==> (g in s.registry && s.registry[g] == c))
    && (forall g | g in s.registry :: g != [] && s.registry[g] in s.connections)
    && (forall g :: g in s.registry <==> Online(s.notices, g))
    && KindsAgree(s)
  }

  lemma InvIsSafe<C, K>(s: State<C, K>)
    requires Inv(s) && KindsAgree(s)
    ensures Safe(s)
  {
    hide KindsAgree;
  }

  /**
   After every run of the proxy, whatever the size of its chunks: with room for the answer to an authentication the
   registry is safe; without room for its checksum too, it holds only connections that failed before they
   authenticated; without room for the answer it stays empty.
   */
  lemma RegistrySafety<C, K>(events: seq<Event<C, K>>, chunk: nat)
    requires NamesGiven(events)
    ensures var s := RunIn(Initial(), events, chunk);
            && (chunk >= AUTH_ANSWER ==> Safe(s))
            && (AUTH_ANSWER <= chunk < AUTH_ANSWER + IcsWire.CRC ==> OnlyLate(s))
            && (chunk < AUTH_ANSWER ==> s.registry == map[] && forall g :: !Online(s.notices, g))
  {
    hide Inv, Safe, RunIn, Run, KindsAgree;
    var s := Initial<C, K>();
    InitialIsFine<C, K>();
    if chunk < AUTH_ANSWER {
      NoRoomForAnswer(s, events, chunk);
    } else if chunk < AUTH_ANSWER + IcsWire.CRC {
      NoRoomForChecksum(s, events, chunk);
      FailuresGiven(events);
      RunKeepsInv(s, WithFailures(events));
      RunKeepsKinds(s, WithFailures(events));
      InvIsSafe(Run(s, WithFailures(events)));
      OnlyLateStay(s, events);
    } else {
      RoomSuffices(s, events, chunk);
      RunKeepsInv(s, events);
      RunKeepsKinds(s, events);
      InvIsSafe(Run(s, events));
    }
  }

  lemma InitialIsFine<C, K>()
    ensures Inv(Initial<C, K>()) && Idle(Initial<C, K>()) && OnlyLate(Initial<C, K>()) && KindsAgree(Initial<C, K>())
  {}

  // ------------------------------------------------------------------ failing

  /** An authenticated connection that fails takes its gateway offline exactly when it was neither superseded nor late. */
  lemma FailEvicts<C, K>(s: State<C, K>, c: C)
    requires Inv(s) && c in s.connections && s.connections[c].gwid != []
    ensures var g, t := s.connections[c].gwid, Step(s, Fail(c));
            && (s.connections[c].replaced || c in s.late ==> t == s)
            && (!s.connections[c].replaced && c !in s.late ==>
                  && g in s.registry && s.registry[g] == c
                  && t.registry == s.registry - {g}
                  && !Online(t.notices, g)
                  && t.connections == s.connections[c := s.connections[c].(gwid := [], valid := false)])
  {
    DropKeepsInv(s, c);
  }

  /** Failing undoes authenticating, for every id but the empty one, which leaves an entry that nothing removes. */
  lemma FailUndoesAuthenticate<C, K>(s: State<C, K>, c: C, gateway: bytes, kind: nat)
    requires Inv(s) && c in s.connections
    requires s.connections[c].gwid == [] && s.connections[c].valid
    ensures var t := Step(Step(s, Authenticate(c, gateway, kind)), Fail(c));
            && (gateway !in t.registry <==> gateway != [])
            && (Online(t.notices, gateway) <==> gateway == [])
  {
    hide Online;
    var n := Notice(gateway, kind, true);
    var a := Step(s, Authenticate(c, gateway, kind));
    OnlineAfter(s.notices, n, gateway);
    assert a.connections[c].valid && a.connections[c].gwid == gateway && !a.connections[c].replaced;
    if gateway != [] {
      OnlineAfter(a.notices, Notice(gateway, kind, false), gateway);
    }
  }

  /** Such a run: a terminal that authenticates after it failed stays registered, even when it fails once more. */
  lemma LateTerminalStays<C, K>(c: C, g: bytes, kind: nat)
    requires g != []
    ensures var t := Run(Initial<C, K>(), [Connect(c), Fail(c), Authenticate(c, g, kind), Fail(c)]);
            g in t.registry && t.registry[g] == c && c in t.connections && !t.connections[c].valid && Online(t.notices, g)
  {
    var again: seq<Event<C, K>> := [Fail(c)];
    var late: seq<Event<C, K>> := [Authenticate(c, g, kind)] + again;
    var failed: seq<Event<C, K>> := [Fail(c)] + late;
    var s := Initial<C, K>();
    assert [Connect(c), Fail(c), Authenticate(c, g, kind), Fail(c)] == [Connect(c)] + failed;
    RunOnce(s, Connect(c), failed);
    s := Step(s, Connect(c));
    RunOnce(s, Fail(c), late);
    s := Step(s, Fail(c));
    RunOnce(s, Authenticate(c, g, kind), again);
    s := Step(s, Authenticate(c, g, kind));
    assert again == [Fail(c)] + [];
    RunOnce(s, Fail(c), []);
  }

  /** No event of the run concerns the entry of the gateway g. */
  predicate Spares<C(==), K>(events: seq<Event<C, K>>, g: bytes, owner: C, dead: bool) {
    forall i :: 0 <= i < |events| ==>
      && (events[i].Authenticate? ==> events[i].gateway != g && events[i].gateway != [])
      && (events[i].Fail? && events[i].c == owner ==> dead)
  }

  /**
   Whatever other connections do, superseded ones among them, the entry of a gateway stays until its owner fails or
   another connection takes the gateway over; and when the owner had failed before it came, only the latter ends it.
   */
  lemma {:induction false} EntryPersists<C, K>(s: State<C, K>, events: seq<Event<C, K>>, g: bytes)
    requires Inv(s) && g in s.registry && Spares(events, g, s.registry[g], s.registry[g] in s.late)
    ensures var t := Run(s, events);
            g in t.registry && t.registry[g] == s.registry[g] && Online(t.notices, g)
    decreases |events|
  {
    if events != [] {
      var e := events[0];
      assert e.Authenticate? ==> e.gateway != g && e.gateway != [];
      StepKeepsInv(s, e);
      StepSpares(s, e, g);
      EntryPersists(Step(s, e), events[1..], g);
    }
  }

  lemma StepSpares<C, K>(s: State<C, K>, e: Event<C, K>, g: bytes)
    requires Inv(s) && g in s.registry && s.registry[g] in s.connections
    requires e.Authenticate? ==> e.gateway != g
    requires e.Fail? && e.c == s.registry[g] ==> s.registry[g] in s.late
    ensures var t := Step(s, e); g in t.registry && t.registry[g] == s.registry[g] && s.late <= t.late
  {
    hide NoticesAgree;
  }

  // ------------------------------------------------------------------ what a center is told

  lemma {:induction false} OnlineOfConcat(a: seq<Notice>, b: seq<Notice>, g: bytes)
    ensures Online(a + b, g) == if Mentioned(b, g) then Online(b, g) else Online(a, g)
    decreases |b|
  {
    if b == [] {
      assert a + b == a;
    } else {
      var front, last := b[..|b| - 1], b[|b| - 1];
      assert a + b == (a + front) + [last] && b == front + [last];
      OnlineAfter(a + front, last, g);
      OnlineAfter(front, last, g);
      OnlineOfConcat(a, front, g);
      assert last.gateway != g && Mentioned(b, g) ==> Mentioned(front, g);
      assert Mentioned(front, g) ==> Mentioned(b, g) by {
        if Mentioned(front, g) {
          var i :| 0 <= i < |front| && front[i].gateway == g;
          assert b[i].gateway == g;
        }
      }
      assert b[|b| - 1] == last;
    }
  }

  lemma OnlineIsMentioned(a: seq<Notice>, g: bytes)
    requires Online(a, g)
    ensures Mentioned(a, g)
    decreases |a|
  {
    var last := a[|a| - 1];
    if last.gateway != g {
      OnlineIsMentioned(a[..|a| - 1], g);
    }
  }

  /** While a center stays connected it is sent every notice, once and in order. */
  lemma {:induction false} CenterReceives<C, K>(s: State<C, K>, events: seq<Event<C, K>>, k: K)
    requires k in s.centers && k in s.inboxes && RemoveCenter(k) !in events
    ensures var t := Run(s, events);
            && s.notices <= t.notices && k in t.inboxes
            && t.inboxes[k] == s.inboxes[k] + t.notices[|s.notices|..]
    decreases |events|
  {
    hide Step;
    if events != [] {
      var u, t := Step(s, events[0]), Run(s, events);
      StepReceives(s, events[0], k);
      CenterReceives(u, events[1..], k);
      TailInSteps(s.notices, u.notices, t.notices);
      Associate(s.inboxes[k], u.notices[|s.notices|..], t.notices[|u.notices|..]);
    }
  }

  lemma TailInSteps(a: seq<Notice>, b: seq<Notice>, c: seq<Notice>)
    requires a <= b <= c
    ensures c[|a|..] == b[|a|..] + c[|b|..]
  {}

  lemma Associate(a: seq<Notice>, b: seq<Notice>, c: seq<Notice>)
    ensures a + b + c == a + (b + c)
  {}

  lemma StepReceives<C, K>(s: State<C, K>, e: Event<C, K>, k: K)
    requires k in s.centers && k in s.inboxes && e != RemoveCenter(k)
    ensures var t := Step(s, e);
            && s.notices <= t.notices && k in t.centers && k in t.inboxes
            && t.inboxes[k] == s.inboxes[k] + t.notices[|s.notices|..]
  {
    if e.Authenticate? && e.c in s.connections && s.connections[e.c].gwid == [] {
      var n := Notice(e.gateway, e.kind, true);
      assert Step(s, e).notices == s.notices + [n];
    }
  }

  /** Through all events the entry of g is the same connection. */
  predicate Keeps<C(==), K(==)>(s: State<C, K>, events: seq<Event<C, K>>, g: bytes)
    decreases |events|
  {
    && g in s.registry
    && (events == [] || (SameEntry(s, Step(s, events[0]), g) && Keeps(Step(s, events[0]), events[1..], g)))
  }

  predicate SameEntry<C(==), K(==)>(s: State<C, K>, t: State<C, K>, g: bytes) {
    g in s.registry && g in t.registry && s.registry[g] == t.registry[g]
  }

  lemma {:induction false} KeptToTheEnd<C, K>(s: State<C, K>, events: seq<Event<C, K>>, g: bytes)
    requires Keeps(s, events, g)
    ensures g in Run(s, events).registry
    decreases |events|
  {
    if events != [] {
      KeptToTheEnd(Step(s, events[0]), events[1..], g);
    }
  }

  /** One step tells of a registered gateway exactly when its entry changes. */
  lemma StepMentions<C, K>(s: State<C, K>, e: Event<C, K>, g: bytes)
    requires Inv(s) && g in s.registry
    ensures var t := Step(s, e);
            s.notices <= t.notices && (Mentioned(t.notices[|s.notices|..], g) <==> !SameEntry(s, t, g))
  {
    hide NoticesAgree;
    var t := Step(s, e);
    if e.Authenticate? && e.c in s.connections && s.connections[e.c].gwid == [] {
      assert t.notices[|s.notices|..] == [Notice(e.gateway, e.kind, true)];
      MentionedOne(Notice(e.gateway, e.kind, true), g);
    } else if e.Fail? && e.c in s.connections && Drop(s, e.c).notices != s.notices {
      var x := s.connections[e.c];
      assert t.notices[|s.notices|..] == [Notice(x.gwid, x.kind, false)];
      MentionedOne(Notice(x.gwid, x.kind, false), g);
    } else {
      assert t.notices == s.notices;
    }
  }

  lemma MentionedOne(n: Notice, g: bytes)
    ensures Mentioned([n], g) <==> n.gateway == g
  {
    assert [n][0] == n;
  }

  lemma MentionedInSteps(a: seq<Notice>, b: seq<Notice>, g: bytes)
    ensures Mentioned(a + b, g) <==> Mentioned(a, g) || Mentioned(b, g)
  {
    if Mentioned(a, g) {
      var i :| 0 <= i < |a| && a[i].gateway == g;
      assert (a + b)[i] == a[i];
    }
    if Mentioned(b, g) {
      var i :| 0 <= i < |b| && b[i].gateway == g;
      assert (a + b)[|a| + i] == b[i];
    }
  }

  lemma {:induction false} MentionedUnlessKept<C, K>(s: State<C, K>, events: seq<Event<C, K>>, g: bytes)
    requires Inv(s) && NamesGiven(events) && g in s.registry
    ensures var t := Run(s, events);
            s.notices <= t.notices && (Mentioned(t.notices[|s.notices|..], g) <==> !Keeps(s, events, g))
    decreases |events|
  {
    hide Step, Mentioned, Inv;
    if events != [] {
      var u, t := Step(s, events[0]), Run(s, events);
      StepKeepsInv(s, events[0]);
      StepMentions(s, events[0], g);
      NoticesGrow(u, events[1..]);
      TailInSteps(s.notices, u.notices, t.notices);
      MentionedInSteps(u.notices[|s.notices|..], t.notices[|u.notices|..], g);
      if SameEntry(s, u, g) {
        MentionedUnlessKept(u, events[1..], g);
      }
    } else {
      NothingMentioned(s.notices, g);
    }
  }

  lemma NothingMentioned(a: seq<Notice>, g: bytes)
    ensures !Mentioned(a[|a|..], g)
  {}

  lemma {:induction false} NoticesGrow<C, K>(s: State<C, K>, events: seq<Event<C, K>>)
    ensures s.notices <= Run(s, events).notices
    decreases |events|
  {
    if events != [] {
      NoticesGrow(Step(s, events[0]), events[1..]);
    }
  }

  /** What other connections do keeps an entry. */
  lemma {:induction false} SparedIsKept<C, K>(s: State<C, K>, events: seq<Event<C, K>>, g: bytes)
    requires Inv(s) && g in s.registry && Spares(events, g, s.registry[g], s.registry[g] in s.late)
    ensures Keeps(s, events, g)
    decreases |events|
  {
    if events != [] {
      var e := events[0];
      assert e.Authenticate? ==> e.gateway != g && e.gateway != [];
      StepKeepsInv(s, e);
      StepSpares(s, e, g);
      SparedIsKept(Step(s, e), events[1..], g);
    }
  }

  /**
   What a center believes that connects at s. It is not told who is online already, so its notices agree with the
   registry exactly when no gateway that was online then keeps its entry from there on.
   */
  lemma CenterView<C, K>(s: State<C, K>, k: K, events: seq<Event<C, K>>)
    requires Inv(s) && k !in s.inboxes && NamesGiven(events) && RemoveCenter(k) !in events
    ensures var j := Step(s, AddCenter(k));
            var t := Run(j, events);
            && k in t.inboxes
            && (forall g :: Online(t.inboxes[k], g) ==> g in t.registry)
            && ((forall g :: g in t.registry ==> Online(t.inboxes[k], g))
                <==> (forall g :: g in s.registry ==> !Keeps(j, events, g)))
  {
    hide Inv, Online, Mentioned, Keeps;
    var j := Step(s, AddCenter(k));
    StepKeepsInv(s, AddCenter(k));
    RunKeepsInv(j, events);
    CenterReceives(j, events, k);
    var t := Run(j, events);
    var news := t.inboxes[k];
    assert t.notices == s.notices + news;
    RegistryIsOnline(t);
    RegistryIsOnline(s);
    forall g
      ensures Online(news, g) <==> g in t.registry && Mentioned(news, g)
      ensures g in s.registry ==> (Mentioned(news, g) <==> !Keeps(j, events, g))
      ensures Keeps(j, events, g) ==> g in t.registry
      ensures g in t.registry && g !in s.registry ==> Mentioned(news, g)
    {
      OnlineOfConcat(s.notices, news, g);
      if Online(news, g) {
        OnlineIsMentioned(news, g);
      }
      if g in s.registry {
        MentionedUnlessKept(j, events, g);
      }
      if Keeps(j, events, g) {
        KeptToTheEnd(j, events, g);
      }
    }
  }

  /** Such a run: a terminal that is online before the center connects is unknown to it. */
  lemma LateCenterMisses<C, K>(c: C, g: bytes, kind: nat, k: K)
    requires g != []
    ensures var t := Run(Initial(), [Connect(c), Authenticate(c, g, kind), AddCenter(k)]);
            g in t.registry && k in t.inboxes && !Online(t.inboxes[k], g)
  {
    var late: seq<Event<C, K>> := [AddCenter(k)];
    var events := [Connect(c), Authenticate(c, g, kind)] + late;
    var s0 := Initial<C, K>();
    var s1 := Step(s0, Connect(c));
    var s2 := Step(s1, Authenticate(c, g, kind));
    assert events == [Connect(c), Authenticate(c, g, kind), AddCenter(k)];
    assert events[1..] == [Authenticate(c, g, kind)] + late && events[1..][1..] == late && late[1..] == [];
    assert Run(s0, events) == Run(s1, events[1..]) == Run(s2, late) == Step(s2, AddCenter(k));
  }

  lemma RegistryIsOnline<C, K>(s: State<C, K>)
    requires Inv(s)
    ensures forall g :: g in s.registry <==> Online(s.notices, g)
  {}
}
