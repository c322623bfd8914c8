/**
 The receiving half of a connection: bytes arrive in pieces of any size in a buffer of fixed size, and whole
 messages are handed over as soon as they are complete. What is handed over should not depend on the pieces.
 */
module IcsReceive {
  import opened Octets
  import opened IcsWire

  /** sizeof(m_recvBuff) */
  const RECEIVE := 1024

  /** What handling a message does: whether the connection goes on, and what it leaves of the message in the buffer. */
  datatype Handling = Handling(goesOn: bool, left: bytes)

  /** Handling depends on the messages before; it may rewrite the message, in its place. */
  type Handler = (seq<bytes>, bytes) -> Handling

  /** No handler touches name, version and length of a message. */
  ghost predicate InPlace(h: Handler) {
    forall history, m :: |h(history, m).left| == |m| && (|m| >= HEAD ==> h(history, m).left[..FLAG_AT] == m[..FLAG_AT])
  }

  /** A message that reaches the handler of a connection: it fits the buffer, verifies and is not a response. */
  predicate Accepted(packet: bytes, crc: Checksum) {
    |packet| <= RECEIVE && Verify(packet, crc) && !IsResponse(packet)
  }

  /** Handlers are chosen by the message id in the head. */
  predicate Reaches(packet: bytes, id: nat, crc: Checksum) {
    Accepted(packet, crc) && Word(packet, ID_AT) == id
  }

  // ------------------------------------------------------------------ cutting a stream into messages

  /** The messages so far, what handling left of those that were cut off, what follows them, and whether to go on. */
  datatype Cutting = Cutting(messages: seq<bytes>, used: bytes, rest: bytes, alive: bool)

  predicate LengthAllowed(n: nat) {
    HEAD + CRC <= n <= RECEIVE
  }

  lemma LengthsAre(n: nat)
    ensures LengthAllowed(n) <==> 20 <= n <= 1024
  {}

  function Cut(stream: bytes, h: Handler, history: seq<bytes>): (r: Cutting)
    ensures r.alive ==> |r.rest| < RECEIVE && |r.rest| <= |stream|
    ensures history <= r.messages
    decreases |stream|
  {
    if |stream| < HEAD + CRC then Cutting(history, [], stream, true)
    else
      var n := Word(stream, LENGTH_AT);
      if !LengthAllowed(n) then Cutting(history, [], stream, false)
      else if |stream| < n then Cutting(history, [], stream, true)
      else
        var m, now := stream[..n], h(history, stream[..n]);
        if !now.goesOn then Cutting(history + [m], now.left, stream[n..], false)
        else
          var c := Cut(stream[n..], h, history + [m]);
          c.(used := now.left + c.used)
  }

  /** What the buffer holds when all is cut: less than head and checksum is not moved to the front, where used bytes stand. */
  function Left(c: Cutting): bytes {
    if |c.rest| >= HEAD + CRC then c.rest else (c.used + c.rest)[..|c.rest|]
  }

  class Receiver {
    const recvBuff: array<byte>
    const handler: Handler
    var recvSize: nat
    var messages: seq<bytes>

    ghost predicate Valid()
      reads this, recvBuff
    {
      recvBuff.Length == RECEIVE && recvSize <= RECEIVE && InPlace(handler)
    }

    ghost function Pending(): bytes
      reads this, recvBuff
      requires Valid()
    {
      recvBuff[..recvSize]
    }

    constructor (handler: Handler)
      requires InPlace(handler)
      ensures Valid() && Pending() == [] && messages == [] && this.handler == handler
    {
      this.handler, recvSize, messages := handler, 0, [];
      recvBuff := new byte[RECEIVE];
    }

    /** The bytes of the buffer from there on become x. */
    method Copy(at: nat, x: bytes)
      requires at + |x| <= recvBuff.Length
      modifies recvBuff
      ensures recvBuff[..] == old(recvBuff[..at]) + x + old(recvBuff[at + |x|..])
    {
      for i := 0 to |x|
        invariant recvBuff[..] == old(recvBuff[..at]) + x[..i] + old(recvBuff[at + i..])
      {
        recvBuff[at + i] := x[i];
      }
    }

    method LengthAt(head: nat) returns (n: nat)
      requires Valid() && recvSize >= HEAD + CRC && head + recvSize <= RECEIVE
      ensures n == Word(recvBuff[head..head + recvSize], LENGTH_AT)
    {
      n := (recvBuff[head + LENGTH_AT] as nat) + 256 * (recvBuff[head + LENGTH_AT + 1] as nat);
    }

    /** Hands over the message at that place. */
    method HandleMessage(head: nat, msgLen: nat, ghost used: bytes) returns (ret: bool, ghost left: bytes)
      requires Valid() && msgLen <= recvSize && head + recvSize <= RECEIVE && recvBuff[..head] == used
      modifies this`recvSize, this`messages, recvBuff
      ensures Valid() && recvSize == old(recvSize) - msgLen
      ensures var m := old(recvBuff[head..head + recvSize])[..msgLen];
              Handling(ret, left) == handler(old(messages), m) && messages == old(messages) + [m]
      ensures |left| == msgLen && recvBuff[..head + msgLen] == used + left
      ensures recvBuff[head + msgLen..][..recvSize] == old(recvBuff[head..head + recvSize])[msgLen..]
    {
      var message := recvBuff[head..head + msgLen];
      assert message == recvBuff[head..head + recvSize][..msgLen];
      var now := handler(messages, message);
      ret, left := now.goesOn, now.left;
      Copy(head, now.left);
      messages := messages + [message];
      recvSize := recvSize - msgLen;
    }

    /** What is left to be cut, after what has been. */
    ghost predicate Cuts(head: nat, used: bytes, c: Cutting)
      requires Valid() && head + recvSize <= RECEIVE
      reads this, recvBuff
    {
      var d := Cut(recvBuff[head..head + recvSize], handler, messages);
      recvBuff[..head] == used && c == d.(used := used + d.used)
    }

    lemma CutsAll(c: Cutting)
      requires Valid() && c == Cut(Pending(), handler, messages)
      ensures Cuts(0, [], c)
    {
      hide Cut;
      assert recvBuff[0..recvSize] == Pending();
      assert [] + c.used == c.used;
    }

    /** Nothing more is cut off when less than head and checksum, no allowed length or no whole message is left. */
    lemma CutsNoMore(head: nat, used: bytes, c: Cutting)
      requires Valid() && head + recvSize <= RECEIVE && Cuts(head, used, c)
      ensures var stream := recvBuff[head..head + recvSize];
              var n := if recvSize < HEAD + CRC then 0 else Word(stream, LENGTH_AT);
              && (recvSize >= HEAD + CRC && !LengthAllowed(n) ==> messages == c.messages && !c.alive)
              && (recvSize < HEAD + CRC || (LengthAllowed(n) && recvSize < n) ==>
                    Cut(stream, handler, messages) == Cutting(messages, [], stream, true))
    {
      hide Word, LengthAllowed, Cut;
      CutStep(recvBuff[head..head + recvSize], handler, messages);
    }

    /** The turn of the loop that finds a whole message. */
    method HandleNext(head: nat, msgLen: nat, ghost used: bytes, ghost c: Cutting) returns (ret: bool, ghost left: bytes)
      requires Valid() && HEAD + CRC <= recvSize && head + recvSize <= RECEIVE && Cuts(head, used, c)
      requires LengthAllowed(msgLen) && msgLen == Word(recvBuff[head..head + recvSize], LENGTH_AT) && msgLen <= recvSize
      modifies this`recvSize, this`messages, recvBuff
      ensures Valid() && recvSize == old(recvSize) - msgLen
      ensures if ret then Cuts(head + msgLen, used + left, c) else messages == c.messages && !c.alive
    {
      hide Word, Cut, LengthAllowed;
      CutStep(recvBuff[head..head + recvSize], handler, messages);
      ret, left := HandleMessage(head, msgLen, used);
      assert recvBuff[head + msgLen..][..recvSize] == recvBuff[head + msgLen..head + msgLen + recvSize];
      assert forall x: bytes :: used + left + x == used + (left + x);
    }

    /** The end of handleData when what is left is not a whole message. */
    method Finish(head: nat, ghost used: bytes, ghost c: Cutting)
      requires Valid() && head + recvSize <= RECEIVE && Cuts(head, used, c)
      requires var d := Cut(recvBuff[head..head + recvSize], handler, messages);
               d == Cutting(messages, [], recvBuff[head..head + recvSize], true)
      modifies recvBuff
      ensures Valid() && messages == c.messages && c.alive && Pending() == Left(c)
    {
      hide Cut;
      if recvSize >= HEAD + CRC && head != 0 {
        Copy(0, recvBuff[head..head + recvSize]);
      }
      assert c.used == used && c.rest == old(recvBuff[head..head + recvSize]);
      assert old(recvBuff[..head + recvSize]) == used + c.rest;
      assert recvSize < HEAD + CRC ==> Pending() == old(recvBuff[..head + recvSize])[..recvSize];
    }

    /** One turn of the loop; `done` when it breaks with the connection alive. */
    method Turn(head: nat, ghost used: bytes, ghost c: Cutting) returns (ret: bool, done: bool, next: nat, ghost left: bytes)
      requires Valid() && HEAD + CRC <= recvSize && head + recvSize <= RECEIVE && Cuts(head, used, c)
      modifies this`recvSize, this`messages, recvBuff
      ensures Valid()
      ensures !ret ==> messages == c.messages && !c.alive
      ensures ret && done ==> messages == c.messages && c.alive && Pending() == Left(c)
      ensures ret && !done ==> recvSize < old(recvSize) && next + recvSize <= RECEIVE && Cuts(next, used + left, c)
    {
      hide LengthAllowed, Word, Cut, InPlace, Left, Receiver.Cuts;
      left := [];
      var msgLen := LengthAt(head);
      CutsNoMore(head, used, c);
      if !LengthAllowed(msgLen) {
        return false, true, head, left;
      }
      LengthIsPositive(msgLen);
      if recvSize < msgLen {
        Finish(head, used, c);
        return true, true, head, left;
      }
      ret, left := HandleNext(head, msgLen, used, c);
      return ret, false, head + msgLen, left;
    }

    /** async_receive: the bytes are put behind what is pending. */
    method Take(data: bytes)
      requires Valid() && recvSize + |data| <= RECEIVE
      modifies this`recvSize, recvBuff
      ensures Valid() && Pending() == old(Pending()) + data
    {
      Copy(recvSize, data);
      recvSize := recvSize + |data|;
    }

    /** handleData, when `data` has been received behind what was pending. */
    method HandleData(data: bytes) returns (ret: bool)
      requires Valid() && recvSize + |data| <= RECEIVE
      modifies this`recvSize, this`messages, recvBuff
      ensures Valid()
      ensures var c := Cut(old(Pending()) + data, handler, old(messages));
              messages == c.messages && ret == c.alive && (ret ==> Pending() == Left(c))
    {
      hide LengthAllowed, Word, Cut, InPlace, Left, Receiver.Cuts;
      ghost var c := Cut(Pending() + data, handler, messages);
      Take(data);
      ghost var used, left: bytes := [], [];
      var head: nat := 0;
      ret := true;
      CutsAll(c);
      while ret && recvSize >= HEAD + CRC
        invariant Valid()
        invariant if ret then head + recvSize <= RECEIVE && Cuts(head, used, c) else messages == c.messages && !c.alive
        decreases ret, recvSize
      {
        var done;
        ret, done, head, left := Turn(head, used, c);
        if done {
          return;
        }
        used := used + left;
      }
      if ret {
        CutsNoMore(head, used, c);
        Finish(head, used, c);
      }
    }
  }

  lemma LengthIsPositive(n: nat)
    requires LengthAllowed(n)
    ensures n > 0
  {}

  /** One turn of the loop. */
  lemma CutStep(stream: bytes, h: Handler, history: seq<bytes>)
    ensures var c := Cut(stream, h, history);
            if |stream| < HEAD + CRC then c == Cutting(history, [], stream, true)
            else
              var n := Word(stream, LENGTH_AT);
              if !LengthAllowed(n) then c == Cutting(history, [], stream, false)
              else if |stream| < n then c == Cutting(history, [], stream, true)
              else
                var m, now := stream[..n], h(history, stream[..n]);
                var d := Cut(stream[n..], h, history + [m]);
                c == if now.goesOn then d.(used := now.left + d.used)
                     else Cutting(history + [m], now.left, stream[n..], false)
  {}

  // ------------------------------------------------------------------ the same bytes in other pieces

  /** A connection between two calls of handleData. */
  datatype Reader = Reader(pending: bytes, messages: seq<bytes>, alive: bool)

  function Feed(r: Reader, data: bytes, h: Handler): Reader {
    if !r.alive then r else
      var c := Cut(r.pending + data, h, r.messages);
      Reader(Left(c), c.messages, c.alive)
  }

  function FeedAll(r: Reader, pieces: seq<bytes>, h: Handler): Reader
    decreases |pieces|
  {
    if pieces == [] then r else FeedAll(Feed(r, pieces[0], h), pieces[1..], h)
  }

  function Concat(pieces: seq<bytes>): bytes {
    if pieces == [] then [] else pieces[0] + Concat(pieces[1..])
  }

  /** What is left after a whole message is nothing, or head and checksum at least, or by chance what stands at the front already. */
  predicate Clean(c: Cutting) {
    c.used == [] || c.rest == [] || |c.rest| >= HEAD + CRC || c.rest <= c.used
  }

  predicate AllClean(r: Reader, pieces: seq<bytes>, h: Handler)
    decreases |pieces|
  {
    pieces == [] || !r.alive
    || (&& (Feed(r, pieces[0], h).alive ==> Clean(Cut(r.pending + pieces[0], h, r.messages)))
        && AllClean(Feed(r, pieces[0], h), pieces[1..], h))
  }

  lemma {:induction false} UsedIsWhole(stream: bytes, h: Handler, history: seq<bytes>)
    requires InPlace(h)
    ensures var c := Cut(stream, h, history);
            && (c.used == [] || |c.used| >= HEAD + CRC)
            && |c.used| + |c.rest| == |stream|
            && (c.used != [] ==> c.used[..FLAG_AT] == stream[..FLAG_AT] && LengthAllowed(Word(stream, LENGTH_AT)))
    decreases |stream|
  {
    hide Word;
    CutStep(stream, h, history);
    if |stream| >= HEAD + CRC {
      var n := Word(stream, LENGTH_AT);
      if LengthAllowed(n) && n <= |stream| {
        UsedIsWhole(stream[n..], h, history + [stream[..n]]);
        var left := h(history, stream[..n]).left;
        assert left[..FLAG_AT] == stream[..n][..FLAG_AT] == stream[..FLAG_AT];
      }
    }
  }

  lemma LeftIsRest(stream: bytes, h: Handler, history: seq<bytes>)
    requires InPlace(h)
    ensures var c := Cut(stream, h, history); Left(c) == c.rest <==> Clean(c)
  {
    hide Cut;
    UsedIsWhole(stream, h, history);
    var c := Cut(stream, h, history);
    if |c.rest| < HEAD + CRC && c.used != [] {
      assert Left(c) == c.used[..|c.rest|];
    } else if c.used == [] {
      assert [] + c.rest == c.rest;
    }
  }

  /** Cutting a stream is cutting its start and then what is left with the rest. */
  lemma {:induction false} CutInSteps(a: bytes, b: bytes, h: Handler, history: seq<bytes>)
    ensures var c, d := Cut(a, h, history), Cut(a + b, h, history);
            if c.alive then
              var e := Cut(c.rest + b, h, c.messages);
              d.messages == e.messages && d.alive == e.alive && d.rest == e.rest
            else d.messages == c.messages && !d.alive
    decreases |a|
  {
    hide Cut, Word;
    CutStep(a, h, history);
    CutStep(a + b, h, history);
    if |a| >= HEAD + CRC {
      var n := Word(a, LENGTH_AT);
      assert n == Word(a + b, LENGTH_AT) by {
        SameWord(a, b);
      }
      if LengthAllowed(n) && n <= |a| {
        LengthIsPositive(n);
        assert (a + b)[..n] == a[..n] && (a + b)[n..] == a[n..] + b;
        CutInSteps(a[n..], b, h, history + [a[..n]]);
      }
    }
  }

  lemma SameWord(a: bytes, b: bytes)
    requires |a| >= HEAD
    ensures Word(a + b, LENGTH_AT) == Word(a, LENGTH_AT)
  {}

  /** Whatever the pieces, the messages are those of the whole stream, when every piece leaves the buffer clean. */
  lemma {:induction false} PiecesDoNotMatter(r: Reader, pieces: seq<bytes>, h: Handler)
    requires r.alive && InPlace(h) && AllClean(r, pieces, h)
    ensures var t, c := FeedAll(r, pieces, h), Cut(r.pending + Concat(pieces), h, r.messages);
            pieces != [] ==> t.messages == c.messages && t.alive == c.alive && (t.alive ==> t.pending == c.rest)
    decreases |pieces|
  {
    hide Cut, Left, Clean, InPlace;
    if pieces != [] {
      var whole, rest := r.pending + pieces[0], Concat(pieces[1..]);
      assert r.pending + Concat(pieces) == whole + rest;
      CutInSteps(whole, rest, h, r.messages);
      LeftIsRest(whole, h, r.messages);
      var u := Feed(r, pieces[0], h);
      if u.alive && |pieces| > 1 {
        PiecesDoNotMatter(u, pieces[1..], h);
      } else if u.alive {
        assert rest == [] && whole + rest == whole;
      } else {
        FailedStays(u, pieces[1..], h);
      }
    }
  }

  lemma {:induction false} FailedStays(r: Reader, pieces: seq<bytes>, h: Handler)
    requires !r.alive
    ensures FeedAll(r, pieces, h) == r
    decreases |pieces|
  {
    if pieces != [] {
      FailedStays(r, pieces[1..], h);
    }
  }

  // ------------------------------------------------------------------ when the pieces do matter

  /** Both streams bring the same messages, whatever comes next that the buffer can take. */
  ghost predicate SameFuture(a: bytes, b: bytes, h: Handler, history: seq<bytes>) {
    forall x: bytes :: |a| + |x| <= RECEIVE ==> Cut(a + x, h, history).messages == Cut(b + x, h, history).messages
  }

  /** What makes the start of a message a whole one, or one with a length that is refused. */
  function Completion(start: bytes): (r: bytes)
    requires |start| < HEAD + CRC
    ensures |start| + |r| >= HEAD + CRC && |start| + |r| <= RECEIVE
    ensures var n := Word(start + r, LENGTH_AT);
            && (LengthAllowed(n) ==> n == |start + r|)
            && (|start| < LENGTH_AT + 2 ==> LengthAllowed(n))
            && (|start| >= LENGTH_AT + 2 ==> n == Word(start, LENGTH_AT))
  {
    var head := start + if |start| <= LENGTH_AT then Zeros(LENGTH_AT - |start|) + [HEAD + CRC, 0]
                        else if |start| == LENGTH_AT + 1 then [1]
                        else [];
    var n := (head[LENGTH_AT] as nat) + 256 * (head[LENGTH_AT + 1] as nat);
    var tail := Zeros((if LengthAllowed(n) then n else HEAD + CRC) - |head|);
    var r := (head + tail)[|start|..];
    assert start + r == head + tail;
    r
  }

  function Zeros(n: nat): (r: bytes)
    ensures |r| == n
  {
    seq(n, i => 0)
  }

  /** The first message of a stream, if there is one, is as long as it says. */
  lemma FirstMessage(stream: bytes, h: Handler, history: seq<bytes>)
    ensures var c := Cut(stream, h, history);
            var whole := |stream| >= HEAD + CRC && LengthAllowed(Word(stream, LENGTH_AT))
                         && Word(stream, LENGTH_AT) <= |stream|;
            && (whole ==> |c.messages| > |history| && c.messages[|history|] == stream[..Word(stream, LENGTH_AT)])
            && (!whole ==> c.messages == history)
  {
    hide Word, LengthAllowed;
    if |stream| >= HEAD + CRC {
      var n := Word(stream, LENGTH_AT);
      if LengthAllowed(n) && n <= |stream| && h(history, stream[..n]).goesOn {
        assert history + [stream[..n]] <= Cut(stream[n..], h, history + [stream[..n]]).messages;
      }
    }
  }

  /** Two starts of messages of which one has an allowed length bring different messages, if they differ. */
  lemma DifferentStarts(a: bytes, b: bytes, h: Handler, history: seq<bytes>)
    requires |a| == |b| < HEAD + CRC && a != b
    requires |a| >= LENGTH_AT + 2 ==> LengthAllowed(Word(a, LENGTH_AT))
    ensures !SameFuture(a, b, h, history)
  {
    hide LengthAllowed, Cut, Completion, Word;
    var x := Completion(a);
    DifferentMessages(a + x, b + x, |a|, h, history);
  }

  lemma DifferentMessages(s: bytes, t: bytes, l: nat, h: Handler, history: seq<bytes>)
    requires |s| == |t| && HEAD <= |s| && l < HEAD + CRC <= |s| && s[..l] != t[..l]
    requires LengthAllowed(Word(s, LENGTH_AT)) && Word(s, LENGTH_AT) == |s|
    ensures Cut(s, h, history).messages != Cut(t, h, history).messages
  {
    hide Cut, Word;
    FirstMessage(s, h, history);
    FirstMessage(t, h, history);
    var n := Word(t, LENGTH_AT);
    if LengthAllowed(n) && n <= |t| {
      assert s[..|s|][..l] == s[..l] && t[..n][..l] == t[..l];
    }
  }

  /**
   A piece and whatever comes next bring the messages of the whole stream, for everything that can come next, if and
   only if the connection failed on it or it leaves the buffer clean.
   */
  lemma SplitIsInvisible(r: Reader, data: bytes, h: Handler)
    requires r.alive && InPlace(h)
    ensures var c := Cut(r.pending + data, h, r.messages);
            (forall x: bytes :: |c.rest| + |x| <= RECEIVE ==>
               Feed(Feed(r, data, h), x, h).messages == Feed(r, data + x, h).messages)
            <==> (c.alive ==> Clean(c))
  {
    hide Cut, Left, Clean, InPlace;
    var whole := r.pending + data;
    var c := Cut(whole, h, r.messages);
    LeftIsRest(whole, h, r.messages);
    forall x: bytes
      ensures Feed(r, data + x, h).messages == if c.alive then Cut(c.rest + x, h, c.messages).messages else c.messages
    {
      CutInSteps(whole, x, h, r.messages);
      assert r.pending + (data + x) == whole + x;
    }
    if c.alive && !Clean(c) {
      UncleanMatters(whole, h, r.messages);
      var x: bytes :| |Left(c)| + |x| <= RECEIVE && Cut(Left(c) + x, h, c.messages).messages != Cut(c.rest + x, h, c.messages).messages;
      assert Feed(Feed(r, data, h), x, h).messages != Feed(r, data + x, h).messages;
    }
  }

  lemma UncleanMatters(stream: bytes, h: Handler, history: seq<bytes>)
    requires InPlace(h)
    ensures var c := Cut(stream, h, history);
            !Clean(c) ==> |Left(c)| == |c.rest| && !SameFuture(Left(c), c.rest, h, c.messages)
  {
    hide Cut, SameFuture;
    UsedIsWhole(stream, h, history);
    LeftIsRest(stream, h, history);
    var c := Cut(stream, h, history);
    if !Clean(c) {
      var a := Left(c);
      assert a == c.used[..|c.rest|];
      if |a| >= LENGTH_AT + 2 {
        assert a[LENGTH_AT] == c.used[..FLAG_AT][LENGTH_AT] && a[LENGTH_AT + 1] == c.used[..FLAG_AT][LENGTH_AT + 1];
      }
      DifferentStarts(a, c.rest, h, c.messages);
    }
  }

  /** A message whose length field says its length. */
  predicate Framed(m: bytes) {
    HEAD + CRC <= |m| && Word(m, LENGTH_AT) == |m| && LengthAllowed(|m|)
  }

  /**
   One message and less than head and checksum of the next, received together: the buffer is clean exactly when these
   bytes are none, or those that the first message left at the front.
   */
  lemma NextMessageStarts(m: bytes, start: bytes, h: Handler)
    requires InPlace(h) && Framed(m) && h([], m).goesOn && |start| < HEAD + CRC
    ensures var c := Cut(m + start, h, []);
            && c.messages == [m] && c.alive && c.rest == start
            && (Clean(c) <==> start == [] || start <= h([], m).left)
  {
    hide Word, LengthAllowed, Cut;
    SameWord(m, start);
    var n := Word(m + start, LENGTH_AT);
    assert n == |m| && (m + start)[..n] == m && (m + start)[n..] == start;
    CutStep(m + start, h, []);
    CutStep(start, h, [m]);
    assert [] + [m] == [m];
    var left := h([], m).left;
    assert |left| == |m| && left + [] == left;
  }

  /** What is handed over when a message comes whole with the first l bytes of the next, and then the rest of that. */
  function CutBehind(m: bytes, next: bytes, l: nat, h: Handler): seq<bytes>
    requires l <= |next|
  {
    Feed(Feed(Reader([], [], true), m + next[..l], h), next[l..], h).messages
  }

  /** The next message is handed over exactly when what came of it is what the first message left at the front. */
  lemma NextMessageArrives(m: bytes, next: bytes, l: nat, h: Handler)
    requires InPlace(h) && Framed(m) && Framed(next) && h([], m).goesOn && l < HEAD + CRC
    ensures [m, next] <= CutBehind(m, next, l, h) <==> next[..l] <= h([], m).left
  {
    hide Cut, Word, InPlace, Clean, Left;
    var start, left := next[..l], h([], m).left;
    NextMessageStarts(m, start, h);
    FrontIs(m, start, h);
    var c := Cut(m + start, h, []);
    assert [] + (m + start) == m + start;
    var stream := Left(c) + next[l..];
    assert stream[..l] == left[..l];
    FirstMessage(stream, h, [m]);
    if start <= left {
      assert stream == next && next[..|next|] == next;
    } else {
      var n := Word(stream, LENGTH_AT);
      assert LengthAllowed(n) && n <= |stream| ==> stream[..n][..l] == stream[..l];
    }
  }

  lemma FrontIs(m: bytes, start: bytes, h: Handler)
    requires InPlace(h) && Framed(m) && h([], m).goesOn && |start| < HEAD + CRC
    ensures |h([], m).left| >= HEAD + CRC && Left(Cut(m + start, h, [])) == h([], m).left[..|start|]
  {
    hide Word, LengthAllowed, Cut;
    SameWord(m, start);
    var n := Word(m + start, LENGTH_AT);
    assert n == |m| && (m + start)[..n] == m && (m + start)[n..] == start;
    CutStep(m + start, h, []);
    CutStep(start, h, [m]);
    assert [] + [m] == [m];
  }

  /** Cut behind its send number, a message is lost when the one before had another number and is left as it came. */
  lemma CutInHeadIsLost(m: bytes, next: bytes, l: nat, h: Handler)
    requires InPlace(h) && Framed(m) && Framed(next) && h([], m) == Handling(true, m)
    requires ACK_AT <= l < HEAD + CRC && Word(next, SEND_AT) != Word(m, SEND_AT)
    ensures !([m, next] <= CutBehind(m, next, l, h))
  {
    hide CutBehind;
    NextMessageArrives(m, next, l, h);
    assert next[..l][SEND_AT] == next[SEND_AT] && next[..l][SEND_AT + 1] == next[SEND_AT + 1];
  }

  /** Up to six bytes are never lost between messages that verify: name and version are always the same. */
  lemma NameIsKept(m: bytes, next: bytes, l: nat, h: Handler, crc: Checksum)
    requires InPlace(h) && Framed(m) && Verify(m, crc) && Verify(next, crc) && h([], m).goesOn && l <= LENGTH_AT
    ensures Clean(Cut(m + next[..l], h, []))
  {
    NextMessageStarts(m, next[..l], h);
    var left := h([], m).left;
    assert left[..FLAG_AT] == m[..FLAG_AT];
    forall i | 0 <= i < l
      ensures next[i] == left[i]
    {
      assert left[..FLAG_AT][i] == m[..FLAG_AT][i];
      assert i < 4 ==> next[..4][i] == m[..4][i];
    }
  }

  /** A message that verifies is handed over if and only if the buffer can hold it; a longer one ends the connection. */
  lemma WholeMessage(packet: bytes, h: Handler, history: seq<bytes>, crc: Checksum)
    requires Verify(packet, crc)
    ensures var c := Cut(packet, h, history);
            && (c.messages == history + [packet] <==> |packet| <= RECEIVE)
            && (|packet| > RECEIVE ==> !c.alive && c.messages == history)
  {
    CutStep(packet, h, history);
    if |packet| <= RECEIVE {
      assert packet[..|packet|] == packet && packet[|packet|..] == [];
    }
  }

  /** Whole messages are handed over one after another, each in full, and what follows the last is kept. */
  lemma {:induction false} MessagesInOrder(ms: seq<bytes>, start: bytes, h: Handler, history: seq<bytes>)
    requires (forall i :: 0 <= i < |ms| ==> Framed(ms[i])) && |start| < HEAD + CRC
    requires forall past, m :: h(past, m).goesOn
    ensures var c := Cut(Concat(ms) + start, h, history);
            c.messages == history + ms && c.rest == start && c.alive
    decreases |ms|
  {
    hide Word, LengthAllowed, Cut, Framed;
    var stream := Concat(ms) + start;
    CutStep(stream, h, history);
    if ms == [] {
      assert stream == start && history + [] == history;
    } else {
      var m, rest := ms[0], Concat(ms[1..]) + start;
      assert stream == m + rest;
      FramedFirst(m, rest);
      assert (m + rest)[..|m|] == m && (m + rest)[|m|..] == rest;
      MessagesInOrder(ms[1..], start, h, history + [m]);
      assert history + [m] + ms[1..] == history + ms;
    }
  }

  lemma FramedFirst(m: bytes, rest: bytes)
    requires Framed(m)
    ensures HEAD + CRC <= |m + rest| && LengthAllowed(|m|) && Word(m + rest, LENGTH_AT) == |m|
  {
    SameWord(m, rest);
  }
}
