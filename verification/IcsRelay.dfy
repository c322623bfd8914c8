/**
 The relay of a command from the web client through the center and the proxy to a terminal, the proxy's
 acknowledgement, and the way back up from a terminal to the center.

 A web command is: enterprise id, gateway id, message id, then the rest, which starts with a request id and, in an
 upgrade request, a file id. Each handler is given as the message it produces from the bytes it received, and as the
 stream operations that it runs.
 */
module IcsRelay {
  import opened Octets
  import opened IcsWire
  import opened IcsStream

  const UPGRADE_REQUEST := 0x0201
  const SEND_TO_REMOTE := 0x2004
  const FORWARD_TO_TERMINAL := 0x4004
  const FORWARD_RESPONSE := 0x4005
  const FORWARD_TO_ICS := 0x4007

  /** The file path that the database holds for a file of an enterprise; empty when it holds none. */
  type PathLookup = (nat, bytes) -> bytes

  /** Whether the proxy can load a file under the name it was sent. */
  type FileLoader = (nat, bytes) -> bool

  // ------------------------------------------------------------------ the center

  /** Enterprise, gateway and message id of a web command, each with the position after it. */
  datatype Command = Command(enterprise: bytes, gatewayAt: nat, gateway: bytes, id: nat, rest: nat)

  function ReadCommand(data: bytes): (r: Option<Command>)
    requires HEAD <= |data|
    ensures r.Some? ==> HEAD <= r.value.gatewayAt <= r.value.rest <= |data|
  {
    var ent := ReadText(data, HEAD, 1);
    if ent.None? then None else
      var gw := ReadText(data, ent.value.1, 1);
      if gw.None? then None else
        var id := ReadInteger(data, gw.value.1, 2);
        if id.None? then None
        else Some(Command(ent.value.0, ent.value.1, gw.value.0, id.value.0, id.value.1))
  }

  /** An upgrade request as the center writes it, with the file path put in before the rest. */
  function UpgradeBody(gateway: bytes, filepath: bytes, rest: bytes): bytes {
    EncodeText(gateway, 1) + LittleEndian(UPGRADE_REQUEST, 2) + EncodeText(filepath, 1) + rest
  }

  /** IcsRemoteProxyClient::dispatch: what it writes for the proxy, or None when it throws first. */
  function CenterMessage(data: bytes, path: PathLookup): (r: Option<bytes>)
    requires HEAD <= |data|
    ensures r.Some? ==> |r.value| >= HEAD
  {
    var head := InitRequest(FRESH_HEAD, FORWARD_TO_TERMINAL, false);
    var c := ReadCommand(data);
    if c.None? then None
    else if c.value.id != UPGRADE_REQUEST then Some(head + data[c.value.gatewayAt..])
    else
      var file := ReadFileId(data, c.value.rest);
      if file.None? || path(file.value, c.value.enterprise) == [] then None
      else Some(head + UpgradeBody(c.value.gateway, path(file.value, c.value.enterprise), data[c.value.rest..]))
  }

  /** The file id of an upgrade request: the second of two words. */
  function ReadFileId(data: bytes, pos: nat): (r: Option<nat>)
    requires pos <= |data|
    ensures r.Some? <==> pos + 8 <= |data|
  {
    var request := ReadInteger(data, pos, 4);
    if request.None? then None else
      var file := ReadInteger(data, request.value.1, 4);
      if file.None? then None else Some(file.value.0)
  }

  /** What is sent of a written message: framed, when it and its checksum fit the chunk. */
  function Send(written: Option<bytes>, sendNum: nat, capacity: nat, crc: Checksum): Option<bytes>
    requires written.Some? ==> |written.value| >= HEAD
  {
    if written.None? || HEAD + CRC > capacity then None else Serialize(written.value, sendNum, capacity, crc)
  }

  lemma SendFits(written: Option<bytes>, sendNum: nat, capacity: nat, crc: Checksum)
    requires written.Some? ==> |written.value| >= HEAD
    ensures Send(written, sendNum, capacity, crc).Some? <==> written.Some? && |written.value| + CRC <= capacity
  {}

  /** The reads that the center starts with: enterprise, over the gateway, message id. */
  method ReadIds(request: ProtocolStream) returns (status: Status, enterprise: bytes, id: nat)
    requires request.Valid() && request.pos == HEAD
    modifies request`pos
    ensures request.Valid() && (status.Done? <==> ReadCommand(request.Data()).Some?)
    ensures status.Done? ==> var c := ReadCommand(request.Data()).value;
                             enterprise == c.enterprise && id == c.id && request.pos == c.rest
  {
    hide ReadInteger, ReadText;
    enterprise, id := [], 0;
    enterprise :- request.GetText(1);
    :- request.SkipText(1);
    id :- request.GetInteger(2);
    return Done, enterprise, id;
  }

  /** `response << gateway << id` */
  method PutIds(response: ProtocolStream, gateway: bytes, id: nat) returns (status: Status)
    requires response.Valid()
    modifies response`pos, response.buf
    ensures response.Valid()
    ensures var ids := EncodeText(gateway, 1) + LittleEndian(id, 2);
            && (status.Done? <==> old(response.pos) + |ids| <= response.end)
            && (status.Done? ==> response.Written() == old(response.Written()) + ids)
  {
    hide LittleEndian, EncodeText;
    ghost var start := response.Written();
    :- response.PutText(gateway, 1);
    :- response.PutInteger(id, 2);
    assert response.Written() == start + (EncodeText(gateway, 1) + LittleEndian(id, 2));
    return Done;
  }

  /** Copies the gateway and the message id of an upgrade request. */
  method CopyIds(request: ProtocolStream, response: ProtocolStream) returns (status: Status)
    requires request.Valid() && response.Valid() && request.buf != response.buf && request != response
    requires ReadCommand(request.Data()).Some?
    modifies request`pos, response`pos, response.buf
    ensures request.Valid() && response.Valid() && response.end == old(response.end)
    ensures var c := ReadCommand(request.Data()).value;
            var ids := EncodeText(c.gateway, 1) + LittleEndian(c.id, 2);
            && (status.Done? <==> old(response.pos) + |ids| <= response.end)
            && (status.Done? ==> response.Written() == old(response.Written()) + ids && request.pos == c.rest)
  {
    hide LittleEndian, ReadInteger, ReadText, EncodeText;
    request.Rewind();
    :- request.SkipText(1);
    var gateway, id;
    gateway :- request.GetText(1);
    :- response.PutText(gateway, 1);
    id :- request.GetInteger(2);
    :- response.PutInteger(id, 2);
    return Done;
  }

  /** The copying part of an upgrade request: gateway, id, path, what is left. */
  method WriteUpgrade(request: ProtocolStream, response: ProtocolStream, filepath: bytes) returns (status: Status)
    requires request.Valid() && response.Valid() && request.buf != response.buf && request != response
    requires ReadCommand(request.Data()).Some? && ReadCommand(request.Data()).value.id == UPGRADE_REQUEST
    modifies request`pos, response`pos, response.buf
    ensures request.Valid() && response.Valid() && response.end == old(response.end)
    ensures var c := ReadCommand(request.Data()).value;
            var body := UpgradeBody(c.gateway, filepath, request.Data()[c.rest..]);
            && (status.Done? <==> old(response.pos) + |body| <= response.end)
            && (status.Done? ==> response.Written() == old(response.Written()) + body)
  {
    hide LittleEndian, EncodeText, ReadCommand;
    ghost var start := response.Written();
    ghost var c := ReadCommand(request.Data()).value;
    ghost var ids, p := EncodeText(c.gateway, 1) + LittleEndian(UPGRADE_REQUEST, 2), EncodeText(filepath, 1);
    ghost var rest := request.Data()[c.rest..];
    :- CopyIds(request, response);
    :- response.PutText(filepath, 1);
    assert response.Written() == start + (ids + p);
    assert request.Rest() == rest;
    :- response.PutStream(request);
    assert response.Written() == start + (ids + p + rest);
    return Done;
  }

  method CenterDispatch(request: ProtocolStream, chunk: array<byte>, path: PathLookup, sendNum: nat, crc: Checksum)
    returns (status: Status, sent: bytes)
    requires request.Valid() && request.pos == HEAD && request.buf != chunk
    modifies request`pos, chunk
    ensures request.Valid()
    ensures status.Done? <==> Send(CenterMessage(request.Data(), path), sendNum, chunk.Length, crc).Some?
    ensures status.Done? ==> Send(CenterMessage(request.Data(), path), sendNum, chunk.Length, crc) == Some(sent)
  {
    hide InitRequest, Serialize, ReadCommand, CenterMessage;
    sent := [];
    SendFits(CenterMessage(request.Data(), path), sendNum, chunk.Length, crc);
    NoCommand(request.Data(), path);
    var response;
    response :- ProtocolStream.OpenWrite(chunk, chunk.Length);
    response.InitHead(FORWARD_TO_TERMINAL, false);
    var enterprise, id;
    enterprise, id :- ReadIds(request);
    :- WriteCommand(request, response, path, enterprise, id);
    :- response.Finish(sendNum, crc);
    return Done, response.buf[..response.pos];
  }

  lemma NoCommand(data: bytes, path: PathLookup)
    requires HEAD <= |data|
    ensures ReadCommand(data).None? ==> CenterMessage(data, path).None?
  {
    hide ReadCommand;
  }

  /** What the center writes once it has read the ids. */
  method WriteCommand(request: ProtocolStream, response: ProtocolStream, path: PathLookup, enterprise: bytes, id: nat)
    returns (status: Status)
    requires request.Valid() && response.Valid() && request.buf != response.buf && request != response
    requires ReadCommand(request.Data()).Some?
    requires var c := ReadCommand(request.Data()).value; enterprise == c.enterprise && id == c.id && request.pos == c.rest
    requires response.pos == HEAD && response.Written() == InitRequest(FRESH_HEAD, FORWARD_TO_TERMINAL, false)
    modifies request`pos, response`pos, response.buf
    ensures request.Valid() && response.Valid() && response.end == old(response.end)
    ensures var m := CenterMessage(request.Data(), path);
            && (status.Done? <==> m.Some? && |m.value| <= response.end)
            && (status.Done? ==> response.Written() == m.value)
  {
    hide InitRequest, UpgradeBody, ReadCommand;
    if id == UPGRADE_REQUEST {
      var fileId;
      :- request.SkipInteger(4);
      fileId :- request.GetInteger(4);
      var filepath := path(fileId, enterprise);
      if filepath == [] {
        return Thrown(NoFilePath);
      }
      status := WriteUpgrade(request, response, filepath);
    } else {
      SkipFirst(request);
      status := response.PutStream(request);
    }
  }

  /** rewind and moveForward over the enterprise of a command that has been read before. */
  method SkipFirst(request: ProtocolStream)
    requires request.Valid() && ReadCommand(request.Data()).Some?
    modifies request`pos
    ensures request.Valid() && request.Rest() == request.Data()[ReadCommand(request.Data()).value.gatewayAt..]
  {
    hide ReadInteger, ReadText;
    request.Rewind();
    var status := request.SkipText(1);
  }

  /** handleRemoteForward: a command that names a gateway goes to the proxy of its enterprise, if that is connected. */
  function WebForward(data: bytes, proxies: set<bytes>, path: PathLookup, sendNum: nat, capacity: nat, crc: Checksum): Option<bytes>
    requires HEAD <= |data|
  {
    var c := ReadCommand(data);
    if c.None? || c.value.rest + 4 > |data| || c.value.gateway == [] || c.value.enterprise !in proxies then None
    else Send(CenterMessage(data, path), sendNum, capacity, crc)
  }

  /** What the dispatch throws is caught here; only a command that cannot be read ends the web client's connection. */
  method HandleRemoteForward(request: ProtocolStream, proxies: set<bytes>, chunk: array<byte>, path: PathLookup,
                             sendNum: nat, crc: Checksum)
    returns (status: Status, sent: Option<bytes>)
    requires request.Valid() && request.pos == HEAD && request.buf != chunk
    modifies request`pos, chunk
    ensures request.Valid()
    ensures sent == WebForward(request.Data(), proxies, path, sendNum, chunk.Length, crc)
    ensures var c := ReadCommand(request.Data()); status.Done? <==> c.Some? && c.value.rest + 4 <= |request.Data()|
  {
    hide ReadCommand, Send, CenterMessage;
    sent := None;
    var enterprise, gateway;
    enterprise, gateway :- ReadRemoteIds(request);
    request.Rewind();
    if gateway != [] && enterprise in proxies {
      var dispatched, packet := CenterDispatch(request, chunk, path, sendNum, crc);
      if dispatched.Done? {
        sent := Some(packet);
      }
    }
    return Done, sent;
  }

  method ReadRemoteIds(request: ProtocolStream) returns (status: Status, enterprise: bytes, gateway: bytes)
    requires request.Valid() && request.pos == HEAD
    modifies request`pos
    ensures request.Valid()
    ensures var c := ReadCommand(request.Data());
            && (status.Done? <==> c.Some? && c.value.rest + 4 <= |request.Data()|)
            && (status.Done? ==> enterprise == c.value.enterprise && gateway == c.value.gateway)
  {
    hide ReadText;
    enterprise, gateway := [], [];
    enterprise :- request.GetText(1);
    gateway :- request.GetText(1);
    :- request.SkipInteger(2);
    :- request.SkipInteger(4);
    return Done, enterprise, gateway;
  }

  // ------------------------------------------------------------------ the proxy

  /** A forwarded message as the proxy takes it apart: what the terminal is to be sent starts at `rest`. */
  datatype Forwarded = Forwarded(gateway: bytes, id: nat, filename: bytes, rest: nat)

  /** Gateway, message id and, in an upgrade request, the file name. */
  function ReadForwarded(data: bytes): (r: Option<Forwarded>)
    requires HEAD <= |data|
    ensures r.Some? ==> HEAD <= r.value.rest <= |data|
  {
    var gw := ReadText(data, HEAD, 1);
    if gw.None? then None else
      var id := ReadInteger(data, gw.value.1, 2);
      if id.None? then None
      else if id.value.0 != UPGRADE_REQUEST then Some(Forwarded(gw.value.0, id.value.0, [], id.value.1))
      else
        var name := ReadText(data, id.value.1, 1);
        if name.None? then None else Some(Forwarded(gw.value.0, id.value.0, name.value.0, name.value.1))
  }

  /** IcsProxyTerminalClient::dispatch: what it writes for the terminal, or None when it throws first. */
  function TerminalMessage(data: bytes, loads: FileLoader): (r: Option<bytes>)
    requires HEAD <= |data|
    ensures r.Some? ==> |r.value| >= HEAD
  {
    var f := ReadForwarded(data);
    if f.None? then None
    else
      var message := InitRequest(FRESH_HEAD, f.value.id, true) + data[f.value.rest..];
      if f.value.id != UPGRADE_REQUEST then Some(message)
      else
        var file := ReadFileId(data, f.value.rest);
        if file.None? || !loads(file.value, f.value.filename) then None else Some(message)
  }

  /** What the reads of the dispatch throw, if anything. */
  function ReadFault(data: bytes, loads: FileLoader): (r: Option<Fault>)
    requires HEAD <= |data|
    ensures r.None? <==> TerminalMessage(data, loads).Some?
    ensures r == Some(CannotLoadFile)
       <==> && ReadForwarded(data).Some? && ReadForwarded(data).value.id == UPGRADE_REQUEST
            && ReadFileId(data, ReadForwarded(data).value.rest).Some?
            && !loads(ReadFileId(data, ReadForwarded(data).value.rest).value, ReadForwarded(data).value.filename)
    ensures r.Some? && r != Some(CannotLoadFile) ==> r == Some(NoData)
  {
    var f := ReadForwarded(data);
    if f.None? then Some(NoData)
    else if f.value.id != UPGRADE_REQUEST then None
    else
      var file := ReadFileId(data, f.value.rest);
      if file.None? then Some(NoData)
      else if !loads(file.value, f.value.filename) then Some(CannotLoadFile)
      else None
  }

  /** Why the dispatch throws, when it does: what is read first, then the chunk, then the room in it. */
  function FaultOf(data: bytes, loads: FileLoader, capacity: nat): (f: Fault)
    requires HEAD <= |data|
    ensures ReadFault(data, loads).Some? ==> ReadFault(data, loads) == Some(f)
    ensures ReadFault(data, loads).None? ==> f == if capacity < HEAD + CRC then BadBuffer else NoRoom
  {
    var r := ReadFault(data, loads);
    if r.Some? then r.value else if capacity < HEAD + CRC then BadBuffer else NoRoom
  }

  method TerminalDispatch(request: ProtocolStream, chunk: array<byte>, loads: FileLoader, sendNum: nat, crc: Checksum)
    returns (status: Status, sent: bytes)
    requires request.Valid() && request.pos == HEAD && request.buf != chunk
    modifies request`pos, chunk
    ensures request.Valid()
    ensures status.Done? <==> Send(TerminalMessage(request.Data(), loads), sendNum, chunk.Length, crc).Some?
    ensures status.Done? ==> Send(TerminalMessage(request.Data(), loads), sendNum, chunk.Length, crc) == Some(sent)
    ensures status.Thrown? ==> status.fault == FaultOf(request.Data(), loads, chunk.Length)
  {
    hide InitRequest, Serialize, ReadForwarded, TerminalMessage, ReadFault, FaultOf;
    sent := [];
    SendFits(TerminalMessage(request.Data(), loads), sendNum, chunk.Length, crc);
    var messageId :- SkipToRest(request, loads);
    var forward;
    forward :- ProtocolStream.OpenWrite(chunk, chunk.Length);
    forward.InitHead(messageId, true);
    assert request.Rest() == request.Data()[request.pos..];
    :- forward.PutStream(request);
    assert Some(forward.Written()) == TerminalMessage(request.Data(), loads);
    :- forward.Finish(sendNum, crc);
    return Done, forward.buf[..forward.pos];
  }

  /** Goes to what the terminal is to be sent, if the file of an upgrade can be loaded. */
  method SkipToRest(request: ProtocolStream, loads: FileLoader) returns (status: Status, id: nat)
    requires request.Valid() && request.pos == HEAD
    modifies request`pos
    ensures request.Valid() && (status.Done? <==> TerminalMessage(request.Data(), loads).Some?)
    ensures status.Thrown? ==> ReadFault(request.Data(), loads) == Some(status.fault)
    ensures status.Done? ==>
              TerminalMessage(request.Data(), loads) == Some(InitRequest(FRESH_HEAD, id, true) + request.Rest())
  {
    hide InitRequest, ReadForwarded, ReadInteger;
    id := 0;
    var filename, fileId;
    id, filename :- ReadForward(request);
    if id == UPGRADE_REQUEST {
      :- request.SkipInteger(4);
      fileId :- request.GetInteger(4);
      :- request.MoveBack(8);
      if !loads(fileId, filename) {
        return Thrown(CannotLoadFile), id;
      }
    }
    assert request.Rest() == request.Data()[request.pos..];
    return Done, id;
  }

  /** The reads that the terminal's dispatch starts with: over the gateway, message id, perhaps the file name. */
  method ReadForward(request: ProtocolStream) returns (status: Status, id: nat, filename: bytes)
    requires request.Valid() && request.pos == HEAD
    modifies request`pos
    ensures request.Valid() && (status.Done? <==> ReadForwarded(request.Data()).Some?)
    ensures status.Thrown? ==> status.fault == NoData
    ensures status.Done? ==> var f := ReadForwarded(request.Data()).value;
                             id == f.id && filename == f.filename && request.pos == f.rest
  {
    hide ReadInteger, ReadText;
    id, filename := 0, [];
    :- request.SkipText(1);
    id :- request.GetInteger(2);
    if id == UPGRADE_REQUEST {
      filename :- request.GetText(1);
    }
    return Done, id, filename;
  }

  // ------------------------------------------------------------------ the acknowledgement

  /** "Terminal can't be found" */
  const NOT_FOUND: bytes :=
    [84, 101, 114, 109, 105, 110, 97, 108, 32, 99, 97, 110, 39, 116, 32, 98, 101, 32, 102, 111, 117, 110, 100]

  /** What the proxy answers: gateway, message id, request id, then 0, or 1 and a reason. */
  function AckBody(gateway: bytes, id: nat, requestId: nat, reason: Option<bytes>): bytes {
    EncodeText(gateway, 1) + LittleEndian(id, 2) + LittleEndian(requestId, 4)
    + if reason.None? then [0] else [1] + EncodeText(reason.value, 1)
  }

  /** The request id that the proxy reads for its answer. */
  function ReadRequestId(data: bytes): (r: Option<nat>)
    requires HEAD <= |data|
  {
    var f := ReadForwarded(data);
    if f.None? then None else
      var n := ReadInteger(data, f.value.rest, 4);
      if n.None? then None else Some(n.value.0)
  }

  /** The ids that the answer starts with find room. */
  predicate AnswerFits(gateway: bytes, room: nat) {
    HEAD + 1 + |CStr(gateway)| + 2 + 4 <= room
  }

  /**
   What the terminal is sent in the handler for forwarded messages. The ids of the answer are written first, outside
   of what is caught, so without room for them nothing is dispatched.
   */
  function Dispatched(data: bytes, connected: set<bytes>, loads: FileLoader, sendNum: nat, capacity: nat, room: nat,
                      crc: Checksum): (r: Option<bytes>)
    requires HEAD <= |data|
    ensures r.Some? ==> ReadRequestId(data).Some?
  {
    if ReadRequestId(data).None? then None else
      var gateway := ReadForwarded(data).value.gateway;
      if !AnswerFits(gateway, room) || gateway !in connected then None
      else Send(TerminalMessage(data, loads), sendNum, capacity, crc)
  }

  /** IcsException::message is formatted into 256 bytes, so it is a C string of at most 255. */
  ghost predicate Describes(describe: Fault -> bytes) {
    forall f :: Carried(describe(f), 1)
  }

  /**
   IcsCenter::handleForwardToTermianl. Whether it throws or not, `sent` is what the terminal was sent; an answer that
   is written reports success exactly when that is something.
   */
  method HandleForwardToTerminal(request: ProtocolStream, response: ProtocolStream, connected: set<bytes>,
                                 chunk: array<byte>, loads: FileLoader, describe: Fault -> bytes,
                                 sendNum: nat, crc: Checksum)
    returns (status: Status, sent: Option<bytes>, reason: Option<bytes>)
    requires request.Valid() && response.Valid() && request.pos == HEAD && response.pos == HEAD
    requires request.buf != response.buf && request != response && request.buf != chunk && response.buf != chunk
    modifies request`pos, response`pos, response.buf, chunk
    ensures request.Valid() && response.Valid() && response.end == old(response.end)
    ensures sent == Dispatched(request.Data(), connected, loads, sendNum, chunk.Length, response.end, crc)
    ensures ReadRequestId(request.Data()).None? ==> status.Thrown?
    ensures ReadRequestId(request.Data()).Some? ==>
              var f := ReadForwarded(request.Data()).value;
              var body := AckBody(f.gateway, f.id, ReadRequestId(request.Data()).value, reason);
              && (status.Done? ==> response.Written() == InitRequest(old(response.Written()), FORWARD_RESPONSE, false) + body)
              && (status.Done? <==> HEAD + |body| <= response.end)
    ensures status.Done? ==> (reason.None? <==> sent.Some?)
    ensures status.Done? ==>
              var gateway := ReadForwarded(request.Data()).value.gateway;
              && (gateway !in connected ==> reason == Some(NOT_FOUND))
              && (gateway in connected && sent.None? ==>
                    reason == Some(describe(FaultOf(request.Data(), loads, chunk.Length))))
    ensures reason.Some? ==> reason.value == NOT_FOUND || exists fault :: reason.value == describe(fault)
  {
    hide InitRequest, ReadForwarded, ReadRequestId, LittleEndian, EncodeText, Send, TerminalMessage, FaultOf;
    sent, reason := None, None;
    var gateway, id, requestId;
    gateway, id, requestId :- ReadAckIds(request);
    response.InitHead(FORWARD_RESPONSE, false);
    ghost var start := response.Written();
    ghost var ids := EncodeText(gateway, 1) + LittleEndian(id, 2) + LittleEndian(requestId, 4);
    reason := if gateway in connected then None else Some(NOT_FOUND);
    :- PutAnswerIds(response, gateway, id, requestId);
    assert response.Written() == start + ids;
    if gateway in connected {
      request.Rewind();
      var dispatched, packet := TerminalDispatch(request, chunk, loads, sendNum, crc);
      if dispatched.Done? {
        sent := Some(packet);
        dispatched := PutResult(response, None, start, ids);
        if dispatched.Done? {
          return Done, sent, None;
        }
      }
      reason := Some(describe(dispatched.fault));
    }
    status := PutResult(response, reason, start, ids);
  }

  /** `response << gateway << id << requestId` */
  method PutAnswerIds(response: ProtocolStream, gateway: bytes, id: nat, requestId: nat) returns (status: Status)
    requires response.Valid() && response.pos == HEAD
    modifies response`pos, response.buf
    ensures response.Valid() && (status.Done? <==> AnswerFits(gateway, response.end))
    ensures var ids := EncodeText(gateway, 1) + LittleEndian(id, 2) + LittleEndian(requestId, 4);
            && |ids| == 1 + |CStr(gateway)| + 2 + 4
            && (status.Done? ==> response.Written() == old(response.Written()) + ids)
  {
    hide LittleEndian;
    ghost var start := response.Written();
    ghost var ids, r := EncodeText(gateway, 1) + LittleEndian(id, 2), LittleEndian(requestId, 4);
    :- PutIds(response, gateway, id);
    :- response.PutInteger(requestId, 4);
    assert start + ids + r == start + (ids + r);
    return Done;
  }

  /** The reads that the answer needs. */
  method ReadAckIds(request: ProtocolStream) returns (status: Status, gateway: bytes, id: nat, requestId: nat)
    requires request.Valid() && request.pos == HEAD
    modifies request`pos
    ensures request.Valid() && (status.Done? <==> ReadRequestId(request.Data()).Some?)
    ensures status.Done? ==> var f := ReadForwarded(request.Data()).value;
                             gateway == f.gateway && id == f.id && Some(requestId) == ReadRequestId(request.Data())
  {
    hide ReadInteger, ReadText;
    gateway, id, requestId := [], 0, 0;
    gateway :- request.GetText(1);
    id :- request.GetInteger(2);
    if id == UPGRADE_REQUEST {
      :- request.SkipText(1);
    }
    requestId :- request.GetInteger(4);
    return Done, gateway, id, requestId;
  }

  /** The last part of the answer. */
  method PutResult(response: ProtocolStream, reason: Option<bytes>, ghost start: bytes, ghost done: bytes)
    returns (status: Status)
    requires response.Valid() && response.Written() == start + done
    modifies response`pos, response.buf
    ensures response.Valid() && response.end == old(response.end)
    ensures var tail := if reason.None? then [0] else [1] + EncodeText(reason.value, 1);
            && (status.Done? <==> |start| + |done| + |tail| <= response.end)
            && (status.Done? ==> response.Written() == start + (done + tail))
    ensures status.Thrown? && reason.None? ==> response.pos == old(response.pos) && response.Written() == start + done
  {
    hide EncodeText;
    var x: bytes := [if reason.None? then 0 else 1];
    status := response.Append(x);
    assert status.Done? ==> response.Written() == start + (done + x);
    if status.Thrown? || reason.None? {
      return;
    }
    ghost var t := EncodeText(reason.value, 1);
    :- response.PutText(reason.value, 1);
    assert response.Written() == start + (done + ([1] + t));
    return Done;
  }

  /** What the center's record of a forwarded command holds. */
  datatype Ack = Ack(gateway: bytes, id: nat, requestId: nat, result: nat, reason: bytes)

  /** IcsRemoteProxyClient::handleForwardResponse, with the assertion that nothing is left over. */
  function DecodeAck(data: bytes): Option<Ack>
    requires HEAD <= |data|
  {
    var gw := ReadText(data, HEAD, 1);
    if gw.None? then None else
      var id := ReadInteger(data, gw.value.1, 2);
      if id.None? then None else
        var n := ReadInteger(data, id.value.1, 4);
        if n.None? then None else
          var result := ReadInteger(data, n.value.1, 1);
          if result.None? then None
          else if result.value.0 == 0 then
            if result.value.1 == |data| then Some(Ack(gw.value.0, id.value.0, n.value.0, 0, [])) else None
          else
            var why := ReadText(data, result.value.1, 1);
            if why.None? || why.value.1 != |data| then None
            else Some(Ack(gw.value.0, id.value.0, n.value.0, result.value.0, why.value.0))
  }

  method HandleForwardResponse(request: ProtocolStream) returns (status: Status, ack: Ack)
    requires request.Valid() && request.pos == HEAD
    modifies request`pos
    ensures request.Valid() && (status.Done? <==> DecodeAck(request.Data()).Some?)
    ensures status.Done? ==> DecodeAck(request.Data()) == Some(ack)
  {
    hide ReadInteger, ReadText;
    var gateway, id, requestId, result;
    var reason := [];
    ack := Ack([], 0, 0, 0, []);
    gateway :- request.GetText(1);
    id :- request.GetInteger(2);
    requestId :- request.GetInteger(4);
    result :- request.GetInteger(1);
    if result != 0 {
      reason :- request.GetText(1);
    }
    :- request.AssertEmpty();
    return Done, Ack(gateway, id, requestId, result, reason);
  }

  /** Bytes x stand in data at pos. */
  ghost predicate StandsAt(data: bytes, pos: nat, x: bytes) {
    pos + |x| <= |data| && data[pos..pos + |x|] == x
  }

  lemma StandsSplit(data: bytes, pos: nat, a: bytes, b: bytes)
    requires StandsAt(data, pos, a + b)
    ensures StandsAt(data, pos, a) && StandsAt(data, pos + |a|, b)
  {
    assert (a + b)[..|a|] == a && (a + b)[|a|..] == b;
    assert data[pos..pos + |a + b|][..|a|] == data[pos..pos + |a|];
    assert data[pos..pos + |a + b|][|a|..] == data[pos + |a|..pos + |a| + |b|];
  }

  lemma WordRead(data: bytes, pos: nat, width: nat, n: nat)
    requires StandsAt(data, pos, LittleEndian(n, width)) && n < Pow256(width)
    ensures ReadInteger(data, pos, width) == Some((n, pos + width))
  {
    IntegerRead(data, pos, width, n);
  }

  /** The acknowledgement of the proxy, read by the center. */
  function AckOf(gateway: bytes, id: nat, requestId: nat, reason: Option<bytes>): Ack {
    Ack(gateway, id, requestId, if reason.None? then 0 else 1, if reason.None? then [] else reason.value)
  }

  /**
   The center decodes the proxy's answer fully, in success and in both kinds of failure, exactly when
   the gateway and the reason are C strings of at most 255 bytes.
   */
  lemma AckBack(data: bytes, gateway: bytes, id: nat, requestId: nat, reason: Option<bytes>)
    requires id < TWO_16 && requestId < TWO_32
    requires HEAD <= |data| && data[HEAD..] == AckBody(gateway, id, requestId, reason)
    ensures Carried(gateway, 1) && (reason.Some? ==> Carried(reason.value, 1))
            <==> DecodeAck(data) == Some(AckOf(gateway, id, requestId, reason))
  {
    hide LittleEndian, EncodeText, ReadText, ReadInteger, Carried;
    var g, i, r := EncodeText(gateway, 1), LittleEndian(id, 2), LittleEndian(requestId, 4);
    var tail := if reason.None? then [0] else [1] + EncodeText(reason.value, 1);
    assert StandsAt(data, HEAD, g + i + r + tail) by {
      assert data[HEAD..HEAD + |g + i + r + tail|] == data[HEAD..];
    }
    StandsSplit(data, HEAD, g + i + r, tail);
    StandsSplit(data, HEAD, g + i, r);
    StandsSplit(data, HEAD, g, i);
    Pow256Values();
    TextBack(data, HEAD, 1, gateway);
    if Carried(gateway, 1) {
      WordRead(data, HEAD + |g|, 2, id);
      WordRead(data, HEAD + |g| + 2, 4, requestId);
      AckTail(data, HEAD + |g| + 6, reason);
    }
  }

  /** The result byte and the reason, which end the answer. */
  lemma AckTail(data: bytes, pos: nat, reason: Option<bytes>)
    requires var tail := if reason.None? then [0] else [1] + EncodeText(reason.value, 1);
             StandsAt(data, pos, tail) && pos + |tail| == |data|
    ensures ReadInteger(data, pos, 1) == Some((if reason.None? then 0 else 1, pos + 1))
    ensures reason.Some? ==>
              (Carried(reason.value, 1) <==> (ReadText(data, pos + 1, 1) == Some((reason.value, |data|))))
    ensures reason.Some? && !Carried(reason.value, 1) ==>
              ReadText(data, pos + 1, 1).Some? && ReadText(data, pos + 1, 1).value.0 != reason.value
  {
    hide EncodeText, ReadText, Carried;
    Pow256Values();
    OneByte(0);
    OneByte(1);
    if reason.None? {
      WordRead(data, pos, 1, 0);
    } else {
      StandsSplit(data, pos, [1], EncodeText(reason.value, 1));
      WordRead(data, pos, 1, 1);
      TextBack(data, pos + 1, 1, reason.value);
    }
  }

  /** The bytes of an answer, and the words of the one that tells that a terminal is missing. */
  lemma AckLayout(gateway: bytes, id: nat, requestId: nat, reason: Option<bytes>)
    requires id < TWO_16 && requestId < TWO_32 && Carried(gateway, 1) && (reason.Some? ==> Carried(reason.value, 1))
    ensures AckBody(gateway, id, requestId, reason)
         == [|gateway|] + gateway + [id % 256, id / 256]
            + [requestId % 256, requestId / 256 % 256, requestId / 65536 % 256, requestId / 16777216]
            + match reason case None => [0] case Some(why) => [1, |why|] + why
    ensures NOT_FOUND == Ascii("Terminal can't be found")
    ensures AnswerFits(gateway, 23 + |gateway|) && !AnswerFits(gateway, 22 + |gateway|)
  {
    hide LittleEndian, CStr;
    Pow256Values();
    CStrOfNulFree(gateway);
    OneByteOf(|gateway|);
    TwoBytes(id);
    FourBytes(requestId);
    if reason.Some? {
      CStrOfNulFree(reason.value);
      OneByteOf(|reason.value|);
      assert [1] + ([|reason.value|] + reason.value) == [1, |reason.value|] + reason.value;
    }
  }

  lemma FourBytes(n: nat)
    requires n < TWO_32
    ensures LittleEndian(n, 4) == [n % 256, n / 256 % 256, n / 65536 % 256, n / 16777216]
  {
    hide LittleEndian;
    assert Pow256(0) == 1 && Pow256(1) == 256 && Pow256(2) == 65536 && Pow256(3) == 16777216;
    LittleEndianDigits(n, 4, 0);
    LittleEndianDigits(n, 4, 1);
    LittleEndianDigits(n, 4, 2);
    LittleEndianDigits(n, 4, 3);
  }

  /** The bytes of what the center writes for the proxy, when ids and path can be carried. */
  lemma UpgradeLayout(gateway: bytes, filepath: bytes, rest: bytes)
    requires Carried(gateway, 1) && Carried(filepath, 1)
    ensures UpgradeBody(gateway, filepath, rest) == [|gateway|] + gateway + [1, 2] + [|filepath|] + filepath + rest
  {
    hide LittleEndian, CStr;
    Pow256Values();
    CStrOfNulFree(gateway);
    CStrOfNulFree(filepath);
    OneByteOf(|gateway|);
    OneByteOf(|filepath|);
    TwoBytes(UPGRADE_REQUEST);
  }

  /** The file id is the second of two little-endian words. */
  lemma FileIdIs(data: bytes, pos: nat)
    requires pos + 8 <= |data|
    ensures ReadFileId(data, pos) == Some(FromLittleEndian(data[pos + 4..pos + 8]))
  {}

  /** The bytes of a terminal's message as the proxy wraps it. */
  lemma UplinkLayout(gateway: bytes, data: bytes)
    requires HEAD <= |data| && Carried(gateway, 1)
    ensures UplinkMessage(gateway, data)[16..] == [|gateway|] + gateway + [data[14], data[15]] + data[16..]
    ensures UplinkMessage(gateway, data)[..16] == InitRequest(FRESH_HEAD, 0x4007, false)
  {
    hide LittleEndian, CStr, InitRequest;
    Pow256Values();
    CStrOfNulFree(gateway);
    OneByteOf(|gateway|);
    TwoBytes(Word(data, ID_AT));
    assert UplinkMessage(gateway, data)[16..] == EncodeText(gateway, 1) + LittleEndian(Word(data, ID_AT), 2) + data[HEAD..];
  }

  // ------------------------------------------------------------------ from a terminal up to the center

  /** IcsProxyTerminalClient::forwardToIcsCenter: gateway, message id, the body of the terminal's message. */
  function UplinkMessage(gateway: bytes, data: bytes): (r: bytes)
    requires HEAD <= |data|
    ensures |r| >= HEAD
  {
    InitRequest(FRESH_HEAD, FORWARD_TO_ICS, false)
    + (EncodeText(gateway, 1) + LittleEndian(Word(data, ID_AT), 2) + data[HEAD..])
  }

  /** `forward << m_gwid << id << request`, when the request is at its start. */
  method WriteUplink(request: ProtocolStream, forward: ProtocolStream, gateway: bytes, id: nat) returns (status: Status)
    requires request.Valid() && forward.Valid() && request.buf != forward.buf && request != forward && request.pos == HEAD
    modifies forward`pos, forward.buf
    ensures forward.Valid() && forward.end == old(forward.end)
    ensures var x := EncodeText(gateway, 1) + LittleEndian(id, 2) + request.Data()[HEAD..];
            && (status.Done? <==> old(forward.pos) + |x| <= forward.end)
            && (status.Done? ==> forward.Written() == old(forward.Written()) + x)
  {
    hide EncodeText, LittleEndian;
    ghost var start := forward.Written();
    ghost var ids := EncodeText(gateway, 1) + LittleEndian(id, 2);
    assert request.Rest() == request.Data()[HEAD..];
    :- PutIds(forward, gateway, id);
    :- forward.PutStream(request);
    assert forward.Written() == start + (ids + request.Rest());
    return Done;
  }

  /** forwardToIcsCenter, up to the sending. */
  method ForwardToIcsCenter(request: ProtocolStream, gateway: bytes, chunk: array<byte>)
    returns (status: Status, forward: ProtocolStream?)
    requires request.Valid() && request.buf != chunk
    modifies request`pos, chunk
    ensures request.Valid()
    ensures status.Done? <==> HEAD + CRC <= chunk.Length && |UplinkMessage(gateway, request.Data())| <= chunk.Length
    ensures status.Done? ==> forward != null && fresh(forward) && forward.Valid() && forward.buf == chunk
    ensures status.Done? ==> forward.Written() == UplinkMessage(gateway, request.Data())
  {
    hide InitRequest, EncodeText, LittleEndian, Word;
    forward := null;
    forward :- ProtocolStream.OpenWrite(chunk, chunk.Length);
    request.Rewind();
    forward.InitHead(FORWARD_TO_ICS, false);
    var id := request.MessageId();
    assert id == Word(request.Data(), ID_AT) by {
      SameWordOfPrefix(request.buf[..], request.end);
    }
    status := WriteUplink(request, forward, gateway, id);
  }

  lemma SameWordOfPrefix(b: bytes, n: nat)
    requires HEAD <= n <= |b|
    ensures Word(b[..n], ID_AT) == Word(b, ID_AT)
  {}

  /** One turn of sendToIcsCenter: a copy is framed for the center. */
  method SendToIcsCenter(forward: ProtocolStream, chunk: array<byte>, sendNum: nat, crc: Checksum)
    returns (status: Status, sent: bytes)
    requires forward.Valid() && forward.pos >= HEAD && forward.buf != chunk
    modifies chunk
    ensures status.Done? <==> Send(Some(forward.Written()), sendNum, chunk.Length, crc).Some?
    ensures status.Done? ==> Send(Some(forward.Written()), sendNum, chunk.Length, crc) == Some(sent)
  {
    hide Serialize;
    sent := [];
    SendFits(Some(forward.Written()), sendNum, chunk.Length, crc);
    var message;
    message :- ProtocolStream.OpenCopy(forward, chunk, chunk.Length);
    :- message.Finish(sendNum, crc);
    return Done, message.buf[..message.pos];
  }

  /** The local name of a remote gateway id: from the map or the database, empty when there is none. */
  type NameLookup = bytes -> bytes

  /** What the center's handler for terminals is given: the name, message id and body of a terminal's message. */
  datatype HandedOver = HandedOver(gateway: bytes, monitor: bytes, id: nat, body: bytes)

  /** IcsRemoteProxyClient::handleTerminalMessage, up to the point where the terminal handler takes over. */
  function HandOver(data: bytes, names: NameLookup): Option<HandedOver>
    requires HEAD <= |data|
  {
    var gw := ReadText(data, HEAD, 1);
    if gw.None? then None else
      var id := ReadInteger(data, gw.value.1, 2);
      if id.None? || names(gw.value.0) == [] then None
      else Some(HandedOver(gw.value.0, names(gw.value.0), id.value.0, data[id.value.1..]))
  }

  /** A message that is not handed over is dropped without an error, unless it cannot be read. */
  method HandleTerminalMessage(request: ProtocolStream, names: NameLookup) returns (status: Status, handed: Option<HandedOver>)
    requires request.Valid() && request.pos == HEAD
    modifies request`pos, request.buf
    ensures request.Valid() && request.end == old(request.end)
    ensures handed == HandOver(old(request.Data()), names)
    ensures var gw := ReadText(old(request.Data()), HEAD, 1);
            status.Done? <==> gw.Some? && ReadInteger(old(request.Data()), gw.value.1, 2).Some?
    ensures handed.Some? ==> && request.Rest() == handed.value.body && !IsResponse(request.buf[..])
                             && Word(request.buf[..], ID_AT) == handed.value.id % TWO_16
    ensures handed.None? ==> request.buf[..] == old(request.buf[..])
  {
    hide ReadInteger, ReadText;
    handed := None;
    var gateway, id;
    gateway :- request.GetText(1);
    id :- request.GetInteger(2);
    var monitor := names(gateway);
    if monitor != [] {
      ghost var rest := request.Rest();
      assert rest == request.Data()[request.pos..];
      request.InitHead(id, false);
      InitSetsId(old(request.buf[..]), id);
      SliceOfTail(old(request.buf[..]), request.pos, request.end);
      SliceOfTail(request.buf[..], request.pos, request.end);
      assert request.Rest() == rest;
      handed := Some(HandedOver(gateway, monitor, id, request.buf[request.pos..request.end]));
    }
    return Done, handed;
  }

  lemma SliceOfTail(b: bytes, from: nat, to: nat)
    requires HEAD <= from <= to <= |b|
    ensures b[from..to] == b[HEAD..][from - HEAD..to - HEAD]
  {}

  lemma InitSetsId(b: bytes, id: nat)
    requires HEAD <= |b|
    ensures Word(InitRequest(b, id, false), ID_AT) == id % TWO_16
  {}
}
