/**
 The proxy server and its connections as objects. Every operation is proved to be the step of the registry's
 state machine that it stands for, so what holds of all runs of the machine holds of the server.
 */
module IcsServer {
  import opened Octets
  import opened IcsRegistry
  import IcsWire

  class Terminal {
    var gwid: bytes
    var kind: nat
    var valid: bool
    var replaced: bool

    constructor ()
      ensures Seen() == FRESH
    {
      gwid, kind, valid, replaced := [], 0, true, false;
    }

    function Seen(): Connection
      reads this
    {
      Connection(gwid, kind, valid, replaced)
    }
  }

  class Center {
    /** What was sent to this center. */
    var inbox: seq<Notice>

    constructor ()
      ensures inbox == []
    {
      inbox := [];
    }
  }

  /** IcsPorxyServer, with the handlers of its terminal connections. */
  class Server {
    /** The size of the chunks of the memory pool, which is set once. */
    const chunkSize: nat
    var terminals: map<bytes, Terminal>
    var centers: set<Center>
    /** The mutex of the terminal map, which is not recursive: to take it while it is held is an error. */
    var terminalsLocked: bool
    ghost var known: set<Terminal>
    ghost var everCenters: set<Center>
    ghost var notices: seq<Notice>
    ghost var late: set<Terminal>

    ghost predicate Valid()
      reads this
    {
      && (forall g :: g in terminals ==> terminals[g] in known)
      && centers <= everCenters
    }

    ghost function Abstract(): State<Terminal, Center>
      reads this, known, everCenters
    {
      State(map c | c in known :: c.Seen(), terminals, centers, map k | k in everCenters :: k.inbox, notices, late)
    }

    constructor (chunkSize: nat)
      ensures Valid() && !terminalsLocked && Abstract() == Initial() && this.chunkSize == chunkSize
    {
      this.chunkSize := chunkSize;
      terminals, centers, terminalsLocked := map[], {}, false;
      known, everCenters, notices, late := {}, {}, [], {};
    }

    /** When only the fields of one connection changed. */
    twostate lemma Changed(c: Terminal)
      requires old(Valid()) && c in known
      requires known == old(known) && everCenters == old(everCenters) && centers == old(centers)
      requires terminals == old(terminals) && notices == old(notices) && late == old(late)
      requires forall d :: d in known && d != c ==> d.Seen() == old(d.Seen())
      requires forall k :: k in everCenters ==> k.inbox == old(k.inbox)
      ensures Valid() && Abstract() == old(Abstract()).(connections := old(Abstract()).connections[c := c.Seen()])
    {}

    lemma Known(c: Terminal)
      requires c in known
      ensures c in Abstract().connections && Abstract().connections[c] == c.Seen()
      ensures Abstract().registry == terminals && Abstract().late == late
    {}

    /** When only the terminal map changed. */
    twostate lemma Remapped()
      requires known == old(known) && everCenters == old(everCenters) && centers == old(centers)
      requires notices == old(notices) && late == old(late)
      requires forall d :: d in known ==> d.Seen() == old(d.Seen())
      requires forall k :: k in everCenters ==> k.inbox == old(k.inbox)
      ensures Abstract() == old(Abstract()).(registry := terminals)
    {}

    method SendToIcsCenters(notice: Notice)
      requires centers <= everCenters
      modifies this`notices, centers
      ensures Abstract() == Broadcast(old(Abstract()), notice)
    {
      var rest := centers;
      while rest != {}
        invariant rest <= centers
        invariant forall k :: k in centers - rest ==> k.inbox == old(k.inbox) + [notice]
        invariant forall k :: k in everCenters - (centers - rest) ==> k.inbox == old(k.inbox)
        invariant forall c :: c in known ==> c.Seen() == old(c.Seen())
        invariant notices == old(notices)
        decreases rest
      {
        var it :| it in rest;
        it.inbox := it.inbox + [notice];
        rest := rest - {it};
      }
      notices := notices + [notice];
    }

    // ---------------------------------------------------------------- the connection maps

    method RemoveTerminalClient(id: bytes)
      requires !terminalsLocked
      modifies this`terminals, this`terminalsLocked
      ensures !terminalsLocked && terminals == old(terminals) - {id}
    {
      terminalsLocked := true;
      terminals := terminals - {id};
      terminalsLocked := false;
    }

    method FindTerminalClient(id: bytes) returns (conn: Terminal?)
      requires !terminalsLocked
      modifies this`terminalsLocked
      ensures !terminalsLocked
      ensures if id in terminals then conn == terminals[id] else conn == null
      ensures Inv(Abstract()) && conn != null ==> conn in known && conn.gwid == id && !conn.replaced
    {
      terminalsLocked := true;
      conn := if id in terminals then terminals[id] else null;
      terminalsLocked := false;
      assert Inv(Abstract()) && conn != null ==> Abstract().connections[conn] == conn.Seen();
    }

    /** The mutex is held while the superseded connection runs its error(), which must not take it again. */
    method AddTerminalClient(id: bytes, conn: Terminal)
      requires Valid() && !terminalsLocked && conn in known
      modifies this`terminals, this`terminalsLocked, this`notices, known, centers
      ensures Valid() && !terminalsLocked
      ensures Abstract() == Register(old(Abstract()), id, conn)
    {
      hide Server.Abstract;
      Known(conn);
      terminalsLocked := true;
      Remapped();
      if id in terminals {
        Known(terminals[id]);
        Replaced(terminals[id]);
      }
      Known(conn);
      label replaced:
      terminals := terminals[id := conn];
      Remapped@replaced();
      label mapped:
      terminalsLocked := false;
      Remapped@mapped();
    }

    method AddIcsCenterConn(k: Center)
      requires Valid() && (k !in everCenters ==> k.inbox == [])
      modifies this`centers, this`everCenters
      ensures Valid() && Abstract() == Step(old(Abstract()), AddCenter(k))
    {
      centers := centers + {k};
      everCenters := everCenters + {k};
    }

    method RemoveIcsCenterConn(k: Center)
      requires Valid()
      modifies this`centers
      ensures Valid() && Abstract() == Step(old(Abstract()), RemoveCenter(k))
    {
      centers := centers - {k};
    }

    // ---------------------------------------------------------------- a terminal connection

    method Accept() returns (c: Terminal)
      requires Valid()
      modifies this`known
      ensures Valid() && fresh(c) && c in known && Abstract() == Step(old(Abstract()), Connect(c))
    {
      c := new Terminal();
      known := known + {c};
    }

    method Replaced(c: Terminal)
      requires Valid() && c in known
      modifies this`terminals, this`terminalsLocked, this`notices, c, centers
      ensures Valid() && terminalsLocked == old(terminalsLocked)
      ensures var s := old(Abstract());
              Abstract() == s.(connections := s.connections[c := Supersede(s.connections[c])])
    {
      hide Server.Abstract;
      Known(c);
      c.replaced := true;
      Changed(c);
      Known(c);
      ghost var was, m := old(Abstract()).connections, Abstract().connections;
      DoError(c);
      assert m[c := Supersede(was[c])] == was[c := Supersede(was[c])];
      assert m[c := m[c]] == m;
    }

    method DoError(c: Terminal)
      requires Valid() && c in known && (terminalsLocked ==> c.replaced)
      modifies this`terminals, this`terminalsLocked, this`notices, c, centers
      ensures Valid() && terminalsLocked == old(terminalsLocked)
      ensures Abstract() == Step(old(Abstract()), Fail(c))
    {
      hide Server.Abstract;
      Known(c);
      if c.valid {
        c.valid := false;
        Changed(c);
        Error(c);
      }
    }

    method Error(c: Terminal)
      requires Valid() && c in known && (terminalsLocked ==> c.replaced)
      modifies this`terminals, this`terminalsLocked, this`notices, c, centers
      ensures Valid() && terminalsLocked == old(terminalsLocked)
      ensures Abstract() == Leave(old(Abstract()), c)
    {
      hide Server.Abstract;
      Known(c);
      if !c.replaced && c.gwid != [] {
        RemoveTerminalClient(c.gwid);
        Remapped();
        SendToIcsCenters(Notice(c.gwid, c.kind, false));
        label sent:
        c.gwid := [];
        Changed@sent(c);
      }
    }

    ghost method NoteLate(c: Terminal)
      requires Valid()
      modifies this`late
      ensures Valid()
      ensures Abstract() == old(Abstract()).(late := if c.valid then old(late) else old(late) + {c})
    {
      if !c.valid {
        late := late + {c};
      }
    }

    /**
     handleAuthRequest, once the request is read: false when the answer finds no room in its chunk, which makes it
     throw. The answer is as long both times.
     */
    method HandleAuthRequest(c: Terminal, gateway: bytes, kind: nat) returns (answered: bool)
      requires Valid() && !terminalsLocked && c in known
      modifies this`terminals, this`terminalsLocked, this`notices, this`late, known, centers
      ensures Valid() && !terminalsLocked && answered == (AUTH_ANSWER <= chunkSize)
      ensures answered ==> Abstract() == Step(old(Abstract()), Authenticate(c, gateway, kind))
      ensures !answered ==> Abstract() == if old(c.gwid) == [] then Named(old(Abstract()), c, gateway, kind) else old(Abstract())
    {
      hide Server.Abstract;
      Known(c);
      if c.gwid != [] {
        return AUTH_ANSWER <= chunkSize;
      }
      c.kind := kind;
      c.gwid := gateway;
      Changed(c);
      Known(c);
      NoteLate(c);
      assert Abstract() == Named(old(Abstract()), c, gateway, kind);
      if chunkSize < AUTH_ANSWER {
        return false;
      }
      AddTerminalClient(gateway, c);
      SendToIcsCenters(Notice(gateway, kind, true));
      return true;
    }

    /**
     handleMessage with an authentication request. The stream for the answer, the handler and the framing of the
     answer can all throw, and each fails the connection.
     */
    method HandleAuthMessage(c: Terminal, gateway: bytes, kind: nat)
      requires Valid() && !terminalsLocked && c in known
      modifies this`terminals, this`terminalsLocked, this`notices, this`late, known, centers
      ensures Valid() && !terminalsLocked
      ensures Abstract() == AuthMessage(old(Abstract()), c, gateway, kind, chunkSize)
    {
      hide Server.Abstract, Drop, Named, Admit;
      Known(c);
      if chunkSize < IcsWire.HEAD + IcsWire.CRC {
        DoError(c);
        return;
      }
      var answered := HandleAuthRequest(c, gateway, kind);
      if !answered || chunkSize < AUTH_ANSWER + IcsWire.CRC {
        Known(c);
        DoError(c);
      }
    }
  }
}
