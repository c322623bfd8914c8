/**
 The handlers of both servers run one after another on the bytes that travel between them, each on the stream over
 what was received: from the web command to the terminal and back with the answer, and from a terminal to the center.
 */
module IcsJourney {
  import opened Octets
  import opened IcsWire
  import opened IcsStream
  import opened IcsReceive
  import opened IcsRelay
  import opened IcsTransparency

  /** handleMessage, up to the handler: null when the message does not get there. */
  method Receive(packet: bytes, crc: Checksum) returns (s: ProtocolStream?)
    ensures s != null <==> Accepted(packet, crc)
    ensures s != null ==> fresh(s) && fresh(s.buf) && s.Valid() && s.pos == HEAD && HEAD + CRC <= |packet|
    ensures s != null ==> s.Data() == packet[..|packet| - CRC] && Word(s.buf[..], ID_AT) == Word(packet, ID_AT)
  {
    hide Verify;
    if |packet| > RECEIVE {
      return null;
    }
    var buf := new byte[|packet|];
    for i := 0 to |packet|
      invariant buf[..i] == packet[..i]
    {
      buf[i] := packet[i];
    }
    assert buf[..|packet|] == packet;
    var status;
    status, s := ProtocolStream.OpenRead(buf, |packet|, crc);
    if status.Thrown? || IsResponse(packet) {
      return null;
    }
  }

  /**
   The reason in an answer: none when the terminal was sent the message, that it is missing when it is not connected,
   and otherwise what its dispatch threw.
   */
  ghost predicate Tells(reason: bytes, data: bytes, delivered: Option<Delivery>, route: Route, describe: Fault -> bytes)
    requires HEAD <= |data|
  {
    && ReadForwarded(data).Some?
    && reason == if delivered.Some? then []
                 else if ReadForwarded(data).value.gateway !in route.connected then Ascii("Terminal can't be found")
                 else describe(FaultOf(data, route.loads, route.proxyChunk))
  }

  /** What the web command comes to: the terminal's message, and what the center records of the proxy's answer. */
  method RunRelay(packet: bytes, route: Route, describe: Fault -> bytes, answerNum: nat)
    returns (delivered: Option<Delivery>, ack: Option<Ack>)
    requires Describes(describe)
    ensures delivered == Relay(packet, route)
    ensures ack.Some? ==> (ack.value.result == 0 <==> delivered.Some?)
    ensures ack.Some? ==>
              && Accepted(packet, route.crc)
              && var w := WebForward(packet[..|packet| - CRC], route.proxies, route.path, route.centerNum, route.centerChunk, route.crc);
              && w.Some? && |w.value| >= HEAD + CRC
              && Tells(ack.value.reason, w.value[..|w.value| - CRC], delivered, route, describe)
  {
    hide Accepted, WebForward, ProxyStep, DecodeAck, Describes, Word, Tells;
    delivered, ack := None, None;
    var request := Receive(packet, route.crc);
    if request == null {
      return;
    }
    var id := request.MessageId();
    if id != SEND_TO_REMOTE {
      return;
    }
    var chunk := new byte[route.centerChunk];
    var status, forwarded := HandleRemoteForward(request, route.proxies, chunk, route.path, route.centerNum, route.crc);
    if forwarded.None? {
      return;
    }
    var answer;
    delivered, answer := RunProxy(forwarded.value, route, describe, answerNum);
    if answer.Some? {
      var response := Receive(answer.value, route.crc);
      if response != null {
        id := response.MessageId();
        if id == FORWARD_RESPONSE {
          var decoded, a := HandleForwardResponse(response);
          ack := if decoded.Done? then Some(a) else None;
        }
      }
    }
  }

  /** The proxy's part; an answer that is sent tells the center whether the terminal was sent the message. */
  method RunProxy(packet: bytes, route: Route, describe: Fault -> bytes, answerNum: nat)
    returns (delivered: Option<Delivery>, answer: Option<bytes>)
    requires Describes(describe)
    ensures delivered == ProxyStep(packet, route)
    ensures answer.Some? && Accepted(answer.value, route.crc) ==> Reaches(answer.value, FORWARD_RESPONSE, route.crc)
    ensures answer.Some? && Accepted(answer.value, route.crc) ==>
              var ack := DecodeAck(answer.value[..|answer.value| - CRC]);
              && ack.Some? && (ack.value.result == 0 <==> delivered.Some?)
              && |packet| >= HEAD + CRC && Tells(ack.value.reason, packet[..|packet| - CRC], delivered, route, describe)
  {
    hide Accepted, Send, Serialize, InitRequest, TerminalMessage, ReadForwarded, ReadRequestId, AckBody, DecodeAck,
         Describes, AnswerFits, Dispatched, Word, FaultOf;
    delivered, answer := None, None;
    var request := Receive(packet, route.crc);
    if request == null {
      return;
    }
    var id := request.MessageId();
    if id != FORWARD_TO_TERMINAL {
      return;
    }
    ghost var data := request.Data();
    var reply, chunk := new byte[route.proxyChunk], new byte[route.proxyChunk];
    var status, response := ProtocolStream.OpenWrite(reply, reply.Length);
    if status.Thrown? {
      NoRoomNoDispatch(data, route);
      return;
    }
    var sent, reason;
    status, sent, reason := HandleForwardToTerminal(request, response, route.connected, chunk, route.loads, describe, route.proxyNum, route.crc);
    DispatchedReads(data, route);
    if sent.Some? {
      delivered := Some(Delivery(ReadForwarded(packet[..|packet| - CRC]).value.gateway, sent.value));
    }
    if status.Done? {
      ghost var written := response.Written();
      status := response.Finish(answerNum, route.crc);
      if status.Done? {
        answer := Some(response.buf[..response.pos]);
        AnswerTells(data, reason, describe, written, answerNum, reply.Length, route.crc);
        IdsAreSmall(data);
        NotFoundIs();
      }
    }
  }

  lemma NotFoundIs()
    ensures NOT_FOUND == Ascii("Terminal can't be found")
  {}

  lemma NoRoomNoDispatch(data: bytes, route: Route)
    requires HEAD <= |data| && route.proxyChunk < HEAD + CRC
    ensures Dispatched(data, route.connected, route.loads, route.proxyNum, route.proxyChunk, route.proxyChunk, route.crc).None?
  {}

  /** Strings and numbers that were read are as small as their place in a message. */
  lemma IdsAreSmall(data: bytes)
    requires HEAD <= |data| && ReadRequestId(data).Some?
    ensures ReadForwarded(data).Some?
    ensures var f := ReadForwarded(data).value;
            |f.gateway| < 256 && f.id < TWO_16 && ReadRequestId(data).value < TWO_32
  {
    hide FromLittleEndian, Pow256;
    Pow256Values();
    var f := ReadForwarded(data).value;
    var at := ReadInteger(data, HEAD, 1).value;
    LittleEndianBound(data[HEAD..HEAD + 1]);
    var idAt := ReadText(data, HEAD, 1).value.1;
    LittleEndianBound(data[idAt..idAt + 2]);
    LittleEndianBound(data[f.rest..f.rest + 4]);
  }

  /** The proxy's answer is always decoded by the center that accepts it, and tells what was done. */
  lemma AnswerTells(data: bytes, reason: Option<bytes>, describe: Fault -> bytes, written: bytes, num: nat, capacity: nat,
                    crc: Checksum)
    requires HEAD <= |data| && ReadRequestId(data).Some? && CanAnswer(reason, describe)
    requires var f := ReadForwarded(data).value;
             written == InitRequest(FRESH_HEAD, FORWARD_RESPONSE, false)
                        + AckBody(f.gateway, f.id, ReadRequestId(data).value, reason)
    requires HEAD + CRC <= capacity && Serialize(written, num, capacity, crc).Some?
    ensures var p := Serialize(written, num, capacity, crc).value;
            Accepted(p, crc) ==>
              && Reaches(p, FORWARD_RESPONSE, crc)
              && DecodeAck(p[..|p| - CRC]).Some? && (DecodeAck(p[..|p| - CRC]).value.result == 0 <==> reason.None?)
              && DecodeAck(p[..|p| - CRC]).value.reason == if reason.None? then [] else reason.value
  {
    hide InitRequest, LittleEndian, DecodeAck, Verify, ReadRequestId, ReadForwarded, CanAnswer;
    IdsAreSmall(data);
    var f := ReadForwarded(data).value;
    var c := CStr(f.gateway);
    Pow256Values();
    CStrOfNulFree(c);
    ReasonIsCarried(reason, describe);
    AckTransparent(c, f.id, ReadRequestId(data).value, reason, num, capacity, crc);
  }

  /** What a terminal's message comes to at a center. */
  method RunUplink(request: ProtocolStream, gateway: bytes, names: NameLookup, capacity: nat, sendNum: nat, crc: Checksum)
    returns (handed: Option<HandedOver>)
    requires request.Valid()
    modifies request`pos
    ensures request.Valid() && handed == Uplink(request.Data(), gateway, names, sendNum, capacity, crc)
  {
    hide Accepted, Send, UplinkMessage, HandOver, Word;
    handed := None;
    ghost var data := request.Data();
    SendFits(Some(UplinkMessage(gateway, data)), sendNum, capacity, crc);
    var chunk, copy := new byte[capacity], new byte[capacity];
    var status, forward := ForwardToIcsCenter(request, gateway, chunk);
    if status.Thrown? {
      return;
    }
    var sent;
    status, sent := SendToIcsCenter(forward, copy, sendNum, crc);
    if status.Thrown? {
      return;
    }
    var atCenter := Receive(sent, crc);
    if atCenter != null {
      var id := atCenter.MessageId();
      if id == FORWARD_TO_ICS {
        status, handed := HandleTerminalMessage(atCenter, names);
      }
    }
  }
}
