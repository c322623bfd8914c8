/**
 End to end: what reaches a remote terminal of a web command, and what reaches the center of a terminal's message.
 */
module IcsTransparency {
  import opened Octets
  import opened IcsWire
  import opened IcsStream
  import opened IcsReceive
  import opened IcsRelay

  /** A web command as it arrives: the ids are whatever bytes their one-byte prefix counts. */
  function WebBody(enterprise: bytes, gateway: bytes, id: nat, rest: bytes): bytes
    requires |enterprise| < 256 && |gateway| < 256
  {
    [|enterprise|] + enterprise + ([|gateway|] + gateway + LittleEndian(id, 2) + rest)
  }

  /**
   The chunk sizes, send numbers and environment of one relay: who is connected to center and proxy, and the rest of
   what they look up.
   */
  datatype Route = Route(proxies: set<bytes>, path: PathLookup, connected: set<bytes>, loads: FileLoader,
                         centerChunk: nat, proxyChunk: nat, centerNum: nat, proxyNum: nat, crc: Checksum)

  /** What a terminal is sent, and under which gateway id the proxy looked it up. */
  datatype Delivery = Delivery(gateway: bytes, packet: bytes)

  /** What the proxy makes of a message from the center. The answer is in a chunk of the same pool as what is sent on. */
  function ProxyStep(packet: bytes, route: Route): Option<Delivery> {
    if !Reaches(packet, FORWARD_TO_TERMINAL, route.crc) then None
    else
      var data := packet[..|packet| - CRC];
      var sent := Dispatched(data, route.connected, route.loads, route.proxyNum, route.proxyChunk, route.proxyChunk, route.crc);
      if sent.None? then None else Some(Delivery(ReadForwarded(data).value.gateway, sent.value))
  }

  /** The center receives the web command and forwards it, the proxy receives what was forwarded and dispatches it. */
  function Relay(packet: bytes, route: Route): Option<Delivery> {
    if !Reaches(packet, SEND_TO_REMOTE, route.crc) then None
    else
      var sent := WebForward(packet[..|packet| - CRC], route.proxies, route.path, route.centerNum, route.centerChunk, route.crc);
      if sent.None? then None else ProxyStep(sent.value, route)
  }

  /** The terminal's message: the id, asking for a response, with the rest of the command as its body. */
  function Expected(id: nat, rest: bytes): bytes {
    InitRequest(FRESH_HEAD, id, true) + rest
  }

  function FileIdOf(rest: bytes): nat
    requires |rest| >= 8
  {
    FromLittleEndian(rest[4..8])
  }

  /** What an upgrade request needs to go through beyond room. */
  predicate UpgradeRelays(enterprise: bytes, gateway: bytes, rest: bytes, route: Route) {
    && |rest| >= 8
    && var p := route.path(FileIdOf(rest), enterprise);
       p != [] && Carried(gateway, 1) && |CStr(p)| < 256 && route.loads(FileIdOf(rest), CStr(p))
  }

  /** The bytes by which the center's message exceeds the command without its enterprise. */
  function PathRoom(enterprise: bytes, id: nat, rest: bytes, route: Route): nat {
    if id == UPGRADE_REQUEST && |rest| >= 8 then 1 + |CStr(route.path(FileIdOf(rest), enterprise))| else 0
  }

  /**
   What it takes: proxy and terminal are connected, the fields can be carried, every message on the way fits the chunk
   it is written in and the buffer it is received in, and the proxy has room for the ids of its answer.
   */
  predicate Relays(enterprise: bytes, gateway: bytes, id: nat, rest: bytes, route: Route) {
    var size := HEAD + 1 + |gateway| + 2 + PathRoom(enterprise, id, rest, route) + |rest| + CRC;
    && enterprise in route.proxies && gateway != [] && gateway in route.connected && |rest| >= 4
    && (id == UPGRADE_REQUEST ==> UpgradeRelays(enterprise, gateway, rest, route))
    && HEAD + 1 + |enterprise| + 1 + |gateway| + 2 + |rest| + CRC <= RECEIVE
    && size <= route.centerChunk && size <= RECEIVE
    && AnswerFits(gateway, route.proxyChunk) && HEAD + |rest| + CRC <= route.proxyChunk
  }

  // ------------------------------------------------------------------ reading what was written

  /** A string as it arrives, with its real length before it. */
  lemma WireText(data: bytes, pos: nat, text: bytes)
    requires |text| < 256 && StandsAt(data, pos, [|text|] + text)
    ensures ReadText(data, pos, 1) == Some((text, pos + 1 + |text|))
  {
    StandsSplit(data, pos, [|text|], text);
    OneByte(|text|);
    Pow256Values();
    WordRead(data, pos, 1, |text|);
  }

  lemma StandsTail(data: bytes, pos: nat, x: bytes)
    requires pos <= |data| && data[pos..] == x
    ensures StandsAt(data, pos, x)
  {
    assert data[pos..pos + |x|] == data[pos..];
  }

  lemma TailStands(data: bytes, pos: nat, x: bytes)
    requires StandsAt(data, pos, x) && pos + |x| == |data|
    ensures data[pos..] == x
  {
    assert data[pos..pos + |x|] == data[pos..];
  }

  lemma CommandRead(data: bytes, enterprise: bytes, gateway: bytes, id: nat, rest: bytes)
    requires |enterprise| < 256 && |gateway| < 256 && id < TWO_16
    requires HEAD <= |data| && data[HEAD..] == WebBody(enterprise, gateway, id, rest)
    ensures var at := HEAD + 1 + |enterprise|;
            var end := at + 1 + |gateway| + 2;
            && ReadCommand(data) == Some(Command(enterprise, at, gateway, id, end))
            && end <= |data| && data[end..] == rest && data[at..] == [|gateway|] + gateway + LittleEndian(id, 2) + rest
  {
    hide LittleEndian, ReadText, ReadInteger;
    var e, g, i: bytes := [|enterprise|] + enterprise, [|gateway|] + gateway, LittleEndian(id, 2);
    StandsTail(data, HEAD, e + (g + i + rest));
    StandsSplit(data, HEAD, e, g + i + rest);
    var at := HEAD + |e|;
    TailStands(data, at, g + i + rest);
    StandsSplit(data, at, g + i, rest);
    TailStands(data, at + |g| + 2, rest);
    StandsSplit(data, at, g, i);
    WireText(data, HEAD, enterprise);
    WireText(data, at, gateway);
    Pow256Values();
    WordRead(data, at + |g|, 2, id);
  }

  /** A message without a path, read by the proxy. */
  lemma PlainForwarded(data: bytes, gateway: bytes, id: nat, rest: bytes)
    requires |gateway| < 256 && id < TWO_16 && id != UPGRADE_REQUEST
    requires HEAD <= |data| && data[HEAD..] == [|gateway|] + gateway + LittleEndian(id, 2) + rest
    ensures var end := HEAD + 1 + |gateway| + 2;
            ReadForwarded(data) == Some(Forwarded(gateway, id, [], end)) && data[end..] == rest
  {
    hide LittleEndian, ReadText, ReadInteger;
    var g, i: bytes := [|gateway|] + gateway, LittleEndian(id, 2);
    StandsTail(data, HEAD, g + i + rest);
    StandsSplit(data, HEAD, g + i, rest);
    TailStands(data, HEAD + |g| + 2, rest);
    StandsSplit(data, HEAD, g, i);
    WireText(data, HEAD, gateway);
    Pow256Values();
    WordRead(data, HEAD + |g|, 2, id);
  }

  /** Where the parts of an upgrade request stand. */
  lemma UpgradeParts(data: bytes, gateway: bytes, path: bytes, rest: bytes)
    requires HEAD <= |data| && data[HEAD..] == UpgradeBody(gateway, path, rest)
    ensures var g, i, p := EncodeText(gateway, 1), LittleEndian(UPGRADE_REQUEST, 2), EncodeText(path, 1);
            && |data| == HEAD + |g| + 2 + |p| + |rest|
            && StandsAt(data, HEAD, g) && StandsAt(data, HEAD + |g|, i) && StandsAt(data, HEAD + |g| + 2, p)
            && data[HEAD + |g| + 2 + |p|..] == rest
  {
    hide EncodeText, LittleEndian;
    var g, i, p := EncodeText(gateway, 1), LittleEndian(UPGRADE_REQUEST, 2), EncodeText(path, 1);
    StandsTail(data, HEAD, g + i + p + rest);
    StandsSplit(data, HEAD, g + i + p, rest);
    StandsSplit(data, HEAD, g + i, p);
    StandsSplit(data, HEAD, g, i);
    TailStands(data, HEAD + |g| + 2 + |p|, rest);
  }

  /**
   An upgrade request, read by the proxy: with a path of at most 255 bytes the rest is exactly the rest of the
   command; a longer path spills into it.
   */
  lemma UpgradeForwarded(data: bytes, gateway: bytes, path: bytes, rest: bytes)
    requires HEAD <= |data| && data[HEAD..] == UpgradeBody(gateway, path, rest)
    requires Carried(gateway, 1)
    ensures var f := ReadForwarded(data);
            && f.Some? && f.value.gateway == gateway && f.value.id == UPGRADE_REQUEST
            && (|CStr(path)| < 256 ==> f.value.filename == CStr(path) && data[f.value.rest..] == rest)
            && (|CStr(path)| >= 256 ==> |data| - f.value.rest > |rest|)
  {
    hide LittleEndian, ReadText, ReadInteger, CStr, Carried;
    UpgradeParts(data, gateway, path, rest);
    var g, p := EncodeText(gateway, 1), EncodeText(path, 1);
    TextBack(data, HEAD, 1, gateway);
    Pow256Values();
    WordRead(data, HEAD + |g|, 2, UPGRADE_REQUEST);
    TextRead(data, HEAD + |g| + 2, 1, path);
    var name := Counted(CStr(path), 1);
  }

  lemma OtherGateway(data: bytes, gateway: bytes, path: bytes, rest: bytes)
    requires HEAD <= |data| && data[HEAD..] == UpgradeBody(gateway, path, rest)
    requires !Carried(gateway, 1)
    ensures ReadForwarded(data).Some? ==> ReadForwarded(data).value.gateway != gateway
  {
    hide LittleEndian, ReadText, ReadInteger, CStr, Carried;
    UpgradeParts(data, gateway, path, rest);
    TextBack(data, HEAD, 1, gateway);
  }

  // ------------------------------------------------------------------ framing between the two servers

  lemma InitKeepsStart(b: bytes, id: nat, needResponse: bool, body: bytes)
    requires |b| == HEAD && b[..LENGTH_AT] == FRESH_HEAD[..LENGTH_AT]
    ensures var w := InitRequest(b, id, needResponse) + body;
            w[..LENGTH_AT] == FRESH_HEAD[..LENGTH_AT] && w[HEAD..] == body && |w| == HEAD + |body|
  {
    var w := InitRequest(b, id, needResponse) + body;
    forall i | 0 <= i < LENGTH_AT
      ensures w[..LENGTH_AT][i] == FRESH_HEAD[..LENGTH_AT][i]
    {
      assert b[..LENGTH_AT][i] == b[i];
    }
  }

  /** A body sent in a fresh message reaches the handler for its id exactly when it fits the chunk and the receive buffer. */
  lemma Hop(body: bytes, id: nat, needResponse: bool, sendNum: nat, capacity: nat, crc: Checksum)
    ensures var sent := Send(Some(InitRequest(FRESH_HEAD, id, needResponse) + body), sendNum, capacity, crc);
            && (sent.Some? <==> HEAD + |body| + CRC <= capacity)
            && (sent.Some? ==> (&& |sent.value| == HEAD + |body| + CRC
                                && (id < TWO_16 ==> (Reaches(sent.value, id, crc) <==> HEAD + |body| + CRC <= RECEIVE))
                                && sent.value[..|sent.value| - CRC][HEAD..] == body))
  {
    hide InitRequest, Verify;
    var w := InitRequest(FRESH_HEAD, id, needResponse) + body;
    InitKeepsStart(FRESH_HEAD, id, needResponse, body);
    if HEAD + |body| + CRC <= capacity {
      SerializedVerifies(w, sendNum, capacity, crc);
      var packet := Serialize(w, sendNum, capacity, crc).value;
      assert packet[..|packet| - CRC][HEAD..] == packet[HEAD..|w|];
      StillRequest(packet, id, needResponse, body);
    }
  }

  lemma StillRequest(packet: bytes, id: nat, needResponse: bool, body: bytes)
    requires var w := InitRequest(FRESH_HEAD, id, needResponse) + body;
             |w| <= |packet| && packet[FLAG_AT..SEND_AT] == w[FLAG_AT..SEND_AT] && packet[ACK_AT..HEAD] == w[ACK_AT..HEAD]
    ensures !IsResponse(packet) && (id < TWO_16 ==> Word(packet, ID_AT) == id)
  {
    HeadBytes(packet, InitRequest(FRESH_HEAD, id, needResponse) + body);
  }

  /** A message that the proxy takes apart with `rest` left is passed on when it fits, in one way only. */
  lemma LastHop(data: bytes, id: nat, rest: bytes, route: Route)
    requires HEAD <= |data| && ReadForwarded(data).Some? && ReadForwarded(data).value.id == id
    ensures var f := ReadForwarded(data).value;
            var sent := Dispatched(data, route.connected, route.loads, route.proxyNum, route.proxyChunk, route.proxyChunk, route.crc);
            var goes := AnswerFits(f.gateway, route.proxyChunk) && f.gateway in route.connected && f.rest + 4 <= |data|
                        && (id == UPGRADE_REQUEST ==>
                              f.rest + 8 <= |data| && route.loads(ReadFileId(data, f.rest).value, f.filename));
            && (sent.Some? ==> goes && |sent.value| == HEAD + (|data| - f.rest) + CRC)
            && (data[f.rest..] == rest ==>
                  (goes && HEAD + |rest| + CRC <= route.proxyChunk
                   <==> sent.Some? && sent == Serialize(Expected(id, rest), route.proxyNum, route.proxyChunk, route.crc)))
  {
    hide InitRequest, Serialize, ReadForwarded, AnswerFits, Reaches;
    var f := ReadForwarded(data).value;
    Hop(data[f.rest..], id, true, route.proxyNum, route.proxyChunk, route.crc);
  }

  // ------------------------------------------------------------------ the theorems

  /** The terminal of this gateway was sent exactly the message id and the rest of the command. */
  ghost predicate DeliveredAs(r: Option<Delivery>, gateway: bytes, id: nat, rest: bytes, route: Route) {
    && r.Some? && r.value.gateway == gateway
    && Serialize(Expected(id, rest), route.proxyNum, route.proxyChunk, route.crc) == Some(r.value.packet)
  }

  /** What the center writes of a command, byte for byte. */
  lemma CenterWrites(data: bytes, enterprise: bytes, gateway: bytes, id: nat, rest: bytes, path: PathLookup)
    requires |enterprise| < 256 && |gateway| < 256 && id < TWO_16
    requires HEAD <= |data| && data[HEAD..] == [|enterprise|] + enterprise + ([|gateway|] + gateway + [id % 256, id / 256] + rest)
    ensures id != 0x0201 ==>
              CenterMessage(data, path)
              == Some(InitRequest(FRESH_HEAD, 0x4004, false) + ([|gateway|] + gateway + [id % 256, id / 256] + rest))
    ensures id == 0x0201 && |rest| >= 8 && Carried(gateway, 1) ==>
              var p := path(FromLittleEndian(rest[4..8]), enterprise);
              && (p == [] ==> CenterMessage(data, path).None?)
              && (p != [] && Carried(p, 1) ==>
                    CenterMessage(data, path) == Some(InitRequest(FRESH_HEAD, 0x4004, false)
                                                      + ([|gateway|] + gateway + [1, 2] + [|p|] + p + rest)))
  {
    hide ReadCommand, UpgradeBody, InitRequest, LittleEndian, Carried, FromLittleEndian;
    TwoBytes(id);
    CommandRead(data, enterprise, gateway, id, rest);
    var c := ReadCommand(data).value;
    if id == UPGRADE_REQUEST && |rest| >= 8 && Carried(gateway, 1) {
      FileIdIs(data, c.rest);
      assert data[c.rest + 4..c.rest + 8] == rest[4..8];
      var p := path(FromLittleEndian(rest[4..8]), enterprise);
      if Carried(p, 1) {
        UpgradeLayout(gateway, p, rest);
      }
    }
  }

  /** What the terminal is sent, byte for byte: the command's id, asking for a response, and its rest. */
  lemma TerminalReceives(id: nat, rest: bytes, route: Route)
    requires id < TWO_16 && 20 + |rest| <= route.proxyChunk && 20 + |rest| < TWO_16
    ensures var s := Serialize(Expected(id, rest), route.proxyNum, route.proxyChunk, route.crc);
            && s.Some? && |s.value| == 20 + |rest|
            && s.value[..6] == Ascii("ICS#") + [1, 1] && s.value[8] == 0 && s.value[9] == 2
            && s.value[14] == id % 256 && s.value[15] == id / 256 && s.value[16..16 + |rest|] == rest
  {
    hide InitRequest, Serialize;
    var head := InitRequest(FRESH_HEAD, id, true);
    var w := head + rest;
    HeadLayout(FRESH_HEAD, id, true, 0);
    PacketLayout(w, route.proxyNum, route.proxyChunk, route.crc);
    var p := Serialize(w, route.proxyNum, route.proxyChunk, route.crc).value;
    assert w[..6] == head[..8][..6] == FRESH_HEAD[..8][..6];
    assert p[8] == p[8..10][0] == w[8..10][0] == head[8] && p[9] == p[8..10][1] == w[8..10][1] == head[9];
    assert p[14] == p[12..|w|][2] == w[12..][2] == head[14] && p[15] == p[12..|w|][3] == w[12..][3] == head[15];
    assert p[16..16 + |rest|] == p[12..|w|][4..] == w[12..][4..] == rest;
    assert Ascii("ICS#") + [1, 1] == FRESH_HEAD[..6];
  }

  /** On every path but an upgrade, the proxy's part. */
  lemma PlainProxy(packet: bytes, gateway: bytes, id: nat, rest: bytes, route: Route)
    requires |gateway| < 256 && id < TWO_16 && id != UPGRADE_REQUEST && |packet| >= HEAD + CRC && |rest| >= 4
    requires packet[..|packet| - CRC][HEAD..] == [|gateway|] + gateway + LittleEndian(id, 2) + rest
    ensures && Reaches(packet, FORWARD_TO_TERMINAL, route.crc) && HEAD + |rest| + CRC <= route.proxyChunk
            && gateway in route.connected && AnswerFits(gateway, route.proxyChunk)
            <==> DeliveredAs(ProxyStep(packet, route), gateway, id, rest, route)
  {
    hide Reaches, Dispatched, ReadForwarded, Serialize, LittleEndian, Expected, AnswerFits;
    var data := packet[..|packet| - CRC];
    PlainForwarded(data, gateway, id, rest);
    LastHop(data, id, rest, route);
  }

  lemma FileIdRead(data: bytes, pos: nat, rest: bytes)
    requires pos <= |data| && data[pos..] == rest && |rest| >= 8
    ensures ReadFileId(data, pos) == Some(FileIdOf(rest))
  {
    assert data[pos + 4..pos + 8] == rest[4..8];
  }

  /** On the upgrade path, the proxy's part. */
  lemma UpgradeProxy(packet: bytes, gateway: bytes, path: bytes, rest: bytes, route: Route)
    requires |packet| >= HEAD + CRC && |rest| >= 8
    requires packet[..|packet| - CRC][HEAD..] == UpgradeBody(gateway, path, rest)
    ensures && Reaches(packet, FORWARD_TO_TERMINAL, route.crc) && HEAD + |rest| + CRC <= route.proxyChunk
            && gateway in route.connected && AnswerFits(gateway, route.proxyChunk)
            && Carried(gateway, 1) && |CStr(path)| < 256 && route.loads(FileIdOf(rest), CStr(path))
            <==> DeliveredAs(ProxyStep(packet, route), gateway, UPGRADE_REQUEST, rest, route)
  {
    hide Reaches, Dispatched, ReadForwarded, UpgradeBody, Expected, FileIdOf, CStr, Carried, ReadFileId, AnswerFits;
    var data := packet[..|packet| - CRC];
    if !Carried(gateway, 1) {
      OtherGateway(data, gateway, path, rest);
      DispatchedReads(data, route);
    } else {
      UpgradeForwarded(data, gateway, path, rest);
      LastHop(data, UPGRADE_REQUEST, rest, route);
      if |CStr(path)| < 256 {
        FileIdRead(data, ReadForwarded(data).value.rest, rest);
      } else {
        ExpectedLength(UPGRADE_REQUEST, rest, route);
      }
    }
  }

  lemma DispatchedReads(data: bytes, route: Route)
    requires HEAD <= |data|
    ensures Dispatched(data, route.connected, route.loads, route.proxyNum, route.proxyChunk, route.proxyChunk, route.crc).Some?
            ==> ReadForwarded(data).Some?
  {}

  lemma ExpectedLength(id: nat, rest: bytes, route: Route)
    ensures var s := Serialize(Expected(id, rest), route.proxyNum, route.proxyChunk, route.crc);
            s.Some? ==> |s.value| == HEAD + |rest| + CRC
  {}

  /**
   The relay is transparent: the terminal that the proxy holds under the gateway id of a web command is sent exactly
   the command's message id and rest, if and only if the packet is a command for a remote terminal and the ids, the
   path and the sizes can be carried.
   */
  lemma RelayTransparent(packet: bytes, enterprise: bytes, gateway: bytes, id: nat, rest: bytes, route: Route)
    requires |enterprise| < 256 && |gateway| < 256 && id < TWO_16
    requires Verify(packet, route.crc)
    requires packet[..|packet| - CRC][HEAD..] == WebBody(enterprise, gateway, id, rest)
    ensures !IsResponse(packet) && Word(packet, ID_AT) == SEND_TO_REMOTE && Relays(enterprise, gateway, id, rest, route)
            <==> DeliveredAs(Relay(packet, route), gateway, id, rest, route)
  {
    hide ReadCommand, Send, ProxyStep, Serialize, UpgradeBody, Verify, InitRequest, FileIdOf, ReadFileId, CStr,
         LittleEndian, Carried, DeliveredAs, AnswerFits, UpgradeRelays, WebForward, Reaches, Word, IsResponse;
    CommandArrives(packet, route.crc);
    NothingDelivered(gateway, id, rest, route);
    var data := packet[..|packet| - CRC];
    assert |data[HEAD..]| == 1 + |enterprise| + 1 + |gateway| + 2 + |rest|;
    if |packet| <= RECEIVE {
      CenterHop(data, enterprise, gateway, id, rest, route);
    }
  }

  lemma CommandArrives(packet: bytes, crc: Checksum)
    requires Verify(packet, crc)
    ensures HEAD + CRC <= |packet|
    ensures Reaches(packet, SEND_TO_REMOTE, crc)
       <==> !IsResponse(packet) && Word(packet, ID_AT) == SEND_TO_REMOTE && |packet| <= RECEIVE
  {}

  /** From the command that the center has received to the terminal. */
  lemma CenterHop(data: bytes, enterprise: bytes, gateway: bytes, id: nat, rest: bytes, route: Route)
    requires |enterprise| < 256 && |gateway| < 256 && id < TWO_16
    requires HEAD <= |data| && data[HEAD..] == WebBody(enterprise, gateway, id, rest)
    requires HEAD + 1 + |enterprise| + 1 + |gateway| + 2 + |rest| + CRC <= RECEIVE
    ensures var sent := WebForward(data, route.proxies, route.path, route.centerNum, route.centerChunk, route.crc);
            Relays(enterprise, gateway, id, rest, route)
            <==> sent.Some? && DeliveredAs(ProxyStep(sent.value, route), gateway, id, rest, route)
  {
    hide ReadCommand, Send, ProxyStep, Serialize, UpgradeBody, Verify, InitRequest, FileIdOf, ReadFileId, CStr,
         WebBody, LittleEndian, Carried, DeliveredAs, AnswerFits;
    CommandRead(data, enterprise, gateway, id, rest);
    var c := ReadCommand(data).value;
    SendNothing(route);
    if |rest| >= 4 && gateway != [] && enterprise in route.proxies {
      if id != UPGRADE_REQUEST {
        PlainHop(gateway, id, rest, route);
      } else if |rest| >= 8 {
        FileIdRead(data, c.rest, rest);
        UpgradeHop(gateway, route.path(FileIdOf(rest), enterprise), rest, route);
      } else {
        ShortRest(data, c.rest);
      }
    }
  }

  lemma UpgradeSize(gateway: bytes, path: bytes, rest: bytes)
    ensures |UpgradeBody(gateway, path, rest)| == 1 + |CStr(gateway)| + 2 + 1 + |CStr(path)| + |rest|
    ensures Carried(gateway, 1) ==> CStr(gateway) == gateway
  {
    hide LittleEndian;
    if Carried(gateway, 1) {
      CStrOfNulFree(gateway);
    }
  }

  /** An upgrade request from the center's chunk to the terminal. */
  lemma UpgradeHop(gateway: bytes, path: bytes, rest: bytes, route: Route)
    requires |rest| >= 8
    ensures var body := UpgradeBody(gateway, path, rest);
            var message := InitRequest(FRESH_HEAD, FORWARD_TO_TERMINAL, false) + body;
            var sent := Send(Some(message), route.centerNum, route.centerChunk, route.crc);
            var size := HEAD + 1 + |gateway| + 2 + 1 + |CStr(path)| + |rest| + CRC;
            && (sent.Some? && DeliveredAs(ProxyStep(sent.value, route), gateway, UPGRADE_REQUEST, rest, route)
                <==> (&& Carried(gateway, 1) && |CStr(path)| < 256 && route.loads(FileIdOf(rest), CStr(path))
                      && gateway in route.connected && AnswerFits(gateway, route.proxyChunk)
                      && size <= route.centerChunk && size <= RECEIVE
                      && HEAD + |rest| + CRC <= route.proxyChunk))
  {
    hide UpgradeBody, InitRequest, Send, ProxyStep, DeliveredAs, Reaches, CStr, Carried, FileIdOf, AnswerFits;
    var body := UpgradeBody(gateway, path, rest);
    UpgradeSize(gateway, path, rest);
    Hop(body, FORWARD_TO_TERMINAL, false, route.centerNum, route.centerChunk, route.crc);
    var message := InitRequest(FRESH_HEAD, FORWARD_TO_TERMINAL, false) + body;
    var sent := Send(Some(message), route.centerNum, route.centerChunk, route.crc);
    if sent.Some? {
      UpgradeProxy(sent.value, gateway, path, rest, route);
    }
  }

  /** Every other command from the center's chunk to the terminal. */
  lemma PlainHop(gateway: bytes, id: nat, rest: bytes, route: Route)
    requires |gateway| < 256 && id < TWO_16 && id != UPGRADE_REQUEST && |rest| >= 4
    ensures var body := [|gateway|] + gateway + LittleEndian(id, 2) + rest;
            var message := InitRequest(FRESH_HEAD, FORWARD_TO_TERMINAL, false) + body;
            var sent := Send(Some(message), route.centerNum, route.centerChunk, route.crc);
            var size := HEAD + 1 + |gateway| + 2 + |rest| + CRC;
            && (sent.Some? && DeliveredAs(ProxyStep(sent.value, route), gateway, id, rest, route)
                <==> (&& size <= route.centerChunk && size <= RECEIVE
                      && gateway in route.connected && AnswerFits(gateway, route.proxyChunk)
                      && HEAD + |rest| + CRC <= route.proxyChunk))
  {
    hide InitRequest, Send, ProxyStep, DeliveredAs, Reaches, LittleEndian, AnswerFits;
    var body := [|gateway|] + gateway + LittleEndian(id, 2) + rest;
    assert |body| == 1 + |gateway| + 2 + |rest|;
    Hop(body, FORWARD_TO_TERMINAL, false, route.centerNum, route.centerChunk, route.crc);
    var message := InitRequest(FRESH_HEAD, FORWARD_TO_TERMINAL, false) + body;
    var sent := Send(Some(message), route.centerNum, route.centerChunk, route.crc);
    if sent.Some? {
      PlainProxy(sent.value, gateway, id, rest, route);
    }
  }

  lemma SendNothing(route: Route)
    ensures Send(None, route.centerNum, route.centerChunk, route.crc) == None
  {}

  lemma NothingDelivered(gateway: bytes, id: nat, rest: bytes, route: Route)
    ensures !DeliveredAs(None, gateway, id, rest, route)
  {}

  lemma ShortRest(data: bytes, pos: nat)
    requires pos <= |data| && pos + 8 > |data|
    ensures ReadFileId(data, pos).None?
  {}

  /** What is delivered is a message that the terminal accepts, with that id, asking for a response, and that body. */
  lemma DeliveredIsReadable(id: nat, rest: bytes, route: Route)
    requires id < TWO_16 && HEAD + |rest| + CRC <= route.proxyChunk && HEAD + |rest| + CRC < TWO_16
    ensures var packet := Serialize(Expected(id, rest), route.proxyNum, route.proxyChunk, route.crc).value;
            && Verify(packet, route.crc) && Word(packet, ID_AT) == id && NeedsResponse(packet)
            && packet[HEAD..|packet| - CRC] == rest
  {
    hide Verify, InitRequest;
    var head := InitRequest(FRESH_HEAD, id, true);
    HeadBack(FRESH_HEAD, id, true, 0);
    InitKeepsStart(FRESH_HEAD, id, true, rest);
    SerializedVerifies(head + rest, route.proxyNum, route.proxyChunk, route.crc);
    var packet := Serialize(head + rest, route.proxyNum, route.proxyChunk, route.crc).value;
    HeadBytes(packet, head + rest);
  }

  /** Framing keeps the flag and id bytes of the head. */
  lemma HeadBytes(packet: bytes, written: bytes)
    requires HEAD <= |written| <= |packet|
    requires packet[FLAG_AT..SEND_AT] == written[FLAG_AT..SEND_AT] && packet[ACK_AT..HEAD] == written[ACK_AT..HEAD]
    ensures packet[FLAG_AT + 1] == written[FLAG_AT + 1] && Word(packet, ID_AT) == Word(written, ID_AT)
  {
    assert packet[FLAG_AT..SEND_AT][1] == written[FLAG_AT..SEND_AT][1];
    assert packet[ACK_AT..HEAD][2] == written[ACK_AT..HEAD][2] && packet[ACK_AT..HEAD][3] == written[ACK_AT..HEAD][3];
  }

  /**
   The proxy's answer, framed, accepted and decoded by the center: everything comes back and nothing is left over
   exactly when it fits the chunk and the gateway and the reason are C strings of at most 255 bytes.
   */
  lemma AckTransparent(gateway: bytes, id: nat, requestId: nat, reason: Option<bytes>, num: nat, capacity: nat,
                       crc: Checksum)
    requires id < TWO_16 && requestId < TWO_32
    ensures var body := AckBody(gateway, id, requestId, reason);
            var sent := Send(Some(InitRequest(FRESH_HEAD, FORWARD_RESPONSE, false) + body), num, capacity, crc);
            && sent.Some? && Reaches(sent.value, FORWARD_RESPONSE, crc)
            && DecodeAck(sent.value[..|sent.value| - CRC]) == Some(AckOf(gateway, id, requestId, reason))
            <==> (&& HEAD + |body| + CRC <= capacity
                  && Carried(gateway, 1) && (reason.Some? ==> Carried(reason.value, 1)))
  {
    hide AckBody, InitRequest, Send, Reaches, DecodeAck, Carried, AckOf;
    var body := AckBody(gateway, id, requestId, reason);
    Hop(body, FORWARD_RESPONSE, false, num, capacity, crc);
    var sent := Send(Some(InitRequest(FRESH_HEAD, FORWARD_RESPONSE, false) + body), num, capacity, crc);
    if sent.Some? {
      AckBack(sent.value[..|sent.value| - CRC], gateway, id, requestId, reason);
    }
    if Carried(gateway, 1) && (reason.Some? ==> Carried(reason.value, 1)) {
      AckIsSmall(gateway, id, requestId, reason);
    }
  }

  /** What can be carried always fits the buffer of the receiver. */
  lemma AckIsSmall(gateway: bytes, id: nat, requestId: nat, reason: Option<bytes>)
    requires Carried(gateway, 1) && (reason.Some? ==> Carried(reason.value, 1))
    ensures HEAD + |AckBody(gateway, id, requestId, reason)| + CRC <= RECEIVE
  {
    hide LittleEndian;
    Pow256Values();
  }

  /** A reason that the proxy's handler can give, when exceptions describe themselves in C strings of at most 255 bytes. */
  ghost predicate CanAnswer(reason: Option<bytes>, describe: Fault -> bytes) {
    Describes(describe) && (reason.Some? ==> reason.value == NOT_FOUND || exists f :: reason.value == describe(f))
  }

  /**
   Every answer that the handler gives, to success, to a failed dispatch and to a missing terminal, is accepted and
   decoded completely, for every gateway id that can be carried.
   */
  lemma EveryAnswerIsDecoded(gateway: bytes, id: nat, requestId: nat, reason: Option<bytes>, describe: Fault -> bytes,
                             num: nat, capacity: nat, crc: Checksum)
    requires id < TWO_16 && requestId < TWO_32 && Carried(gateway, 1) && CanAnswer(reason, describe)
    requires HEAD + |AckBody(gateway, id, requestId, reason)| + CRC <= capacity
    ensures var body := AckBody(gateway, id, requestId, reason);
            var sent := Send(Some(InitRequest(FRESH_HEAD, FORWARD_RESPONSE, false) + body), num, capacity, crc);
            && sent.Some? && Reaches(sent.value, FORWARD_RESPONSE, crc)
            && DecodeAck(sent.value[..|sent.value| - CRC]) == Some(AckOf(gateway, id, requestId, reason))
  {
    hide InitRequest, Send, Reaches, DecodeAck, AckOf, AckBody, Carried, CanAnswer;
    ReasonIsCarried(reason, describe);
    AckTransparent(gateway, id, requestId, reason, num, capacity, crc);
  }

  lemma ReasonIsCarried(reason: Option<bytes>, describe: Fault -> bytes)
    requires CanAnswer(reason, describe)
    ensures reason.Some? ==> Carried(reason.value, 1)
  {
    Pow256Values();
  }

  // ------------------------------------------------------------------ from a terminal to the center

  /** The proxy wraps what a terminal sent and sends it to a center, which receives and unwraps it. */
  function Uplink(data: bytes, gateway: bytes, names: NameLookup, num: nat, capacity: nat, crc: Checksum): Option<HandedOver>
    requires HEAD <= |data|
  {
    var sent := Send(Some(UplinkMessage(gateway, data)), num, capacity, crc);
    if sent.None? || !Reaches(sent.value, FORWARD_TO_ICS, crc) then None else HandOver(sent.value[..|sent.value| - CRC], names)
  }

  /**
   A terminal's message reaches the center's handler for terminals with its own id and body, under the local name of
   its gateway id, if and only if that id is a C string of at most 255 bytes with a local name, and what is wrapped
   fits the chunk and the receive buffer.
   */
  lemma UplinkTransparent(data: bytes, gateway: bytes, names: NameLookup, num: nat, capacity: nat, crc: Checksum)
    requires HEAD <= |data|
    ensures var size := |data| + 1 + |CStr(gateway)| + 2 + CRC;
            Uplink(data, gateway, names, num, capacity, crc)
            == Some(HandedOver(gateway, names(gateway), Word(data, ID_AT), data[HEAD..]))
            <==> Carried(gateway, 1) && names(gateway) != [] && size <= capacity && size <= RECEIVE
  {
    hide InitRequest, Send, Reaches, HandOver, CStr, Carried, Word, LittleEndian;
    var body := EncodeText(gateway, 1) + LittleEndian(Word(data, ID_AT), 2) + data[HEAD..];
    Hop(body, FORWARD_TO_ICS, false, num, capacity, crc);
    var sent := Send(Some(UplinkMessage(gateway, data)), num, capacity, crc);
    if sent.Some? {
      UplinkRead(sent.value[..|sent.value| - CRC], data, gateway, names);
    }
  }

  /** What is handed over of a wrapped message that arrived. */
  lemma UplinkRead(center: bytes, data: bytes, gateway: bytes, names: NameLookup)
    requires HEAD <= |data| && HEAD <= |center|
    requires center[HEAD..] == EncodeText(gateway, 1) + LittleEndian(Word(data, ID_AT), 2) + data[HEAD..]
    ensures HandOver(center, names) == Some(HandedOver(gateway, names(gateway), Word(data, ID_AT), data[HEAD..]))
            <==> Carried(gateway, 1) && names(gateway) != []
  {
    hide EncodeText, LittleEndian, ReadText, ReadInteger, Carried, Word;
    var g, i := EncodeText(gateway, 1), LittleEndian(Word(data, ID_AT), 2);
    var rest := data[HEAD..];
    StandsTail(center, HEAD, g + i + rest);
    StandsSplit(center, HEAD, g + i, rest);
    TailStands(center, HEAD + |g| + |i|, rest);
    StandsSplit(center, HEAD, g, i);
    TextBack(center, HEAD, 1, gateway);
    Pow256Values();
    WordIsSmall(data);
    WordRead(center, HEAD + |g|, 2, Word(data, ID_AT));
  }

  lemma WordIsSmall(data: bytes)
    requires HEAD <= |data|
    ensures Word(data, ID_AT) < TWO_16
  {}
}
