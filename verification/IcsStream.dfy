/**
 ProtocolStream: the reader and writer of one message in a chunk of memory. The stream operators move a position
 over the bytes of the chunk; each is proved against the wire format.
 */
module IcsStream {
  import opened Octets
  import opened IcsWire

  /** What an IcsException is thrown for. */
  datatype Fault =
    | BadBuffer
    | NotVerified
    | NoRoom
    | NoData
    | CannotMoveBack
    | SuperfluousData
    | NoFilePath
    | CannotLoadFile
    | UnknownMessage

  datatype Status = Done | Thrown(fault: Fault) {
    predicate IsFailure() {
      Thrown?
    }

    function PropagateFailure(): Status {
      this
    }
  }

  class ProtocolStream {
    /** The chunk: m_start is its first byte, m_pos and m_end are offsets from it. */
    const buf: array<byte>
    var pos: nat
    var end: nat
    /** m_start was set to null by toMemoryChunk. */
    var moved: bool

    ghost predicate Valid()
      reads this, buf
    {
      !moved && HEAD <= end <= buf.Length && pos <= end
    }

    /** The bytes that can be read. */
    ghost function Data(): bytes
      reads this, buf
      requires Valid()
    {
      buf[..end]
    }

    /** The bytes written so far, head included. */
    ghost function Written(): bytes
      reads this, buf
      requires Valid()
    {
      buf[..pos]
    }

    /** Bytes that are still to be read. */
    ghost function Rest(): bytes
      reads this, buf
      requires Valid()
    {
      buf[pos..end]
    }

    /** From the position on, the chunk still holds what it held before. */
    ghost predicate Untouched(before: bytes)
      reads this, buf
    {
      |before| == buf.Length && forall k :: pos <= k < buf.Length ==> buf[k] == before[k]
    }

    constructor (buf: array<byte>, end: nat)
      requires HEAD <= end <= buf.Length
      ensures Valid() && this.buf == buf && this.end == end && pos == HEAD
    {
      this.buf, this.end, pos, moved := buf, end, HEAD, false;
    }

    /** ProtocolStream(writeType, buf, length): the head of a new message is laid down in the buffer. */
    static method OpenWrite(buf: array<byte>, length: nat) returns (status: Status, s: ProtocolStream?)
      requires length <= buf.Length
      modifies buf
      ensures status.Done? <==> HEAD + CRC <= length
      ensures status.Done? ==> s != null && fresh(s) && s.Valid() && s.buf == buf && s.end == length && s.pos == HEAD
      ensures status.Done? ==> s.Written() == FRESH_HEAD
      ensures status.Thrown? ==> s == null && status.fault == BadBuffer && buf[..] == old(buf[..])
    {
      if length < HEAD + CRC {
        return Thrown(BadBuffer), null;
      }
      for i := 0 to HEAD
        invariant forall k :: 0 <= k < i ==> buf[k] == 0
      {
        buf[i] := 0;
      }
      buf[0], buf[1], buf[2], buf[3] := NAME[0], NAME[1], NAME[2], NAME[3];
      buf[VERSION_AT], buf[VERSION_AT + 1] := PROTOCOL_VERSION % 256, PROTOCOL_VERSION / 256;
      s := new ProtocolStream(buf, length);
      assert buf[..HEAD] == FRESH_HEAD;
      return Done, s;
    }

    /** ProtocolStream(readType, buf, length): the message is verified and its checksum put out of reach. */
    static method OpenRead(buf: array<byte>, length: nat, crc: Checksum) returns (status: Status, s: ProtocolStream?)
      requires length <= buf.Length
      ensures status.Done? <==> Verify(buf[..length], crc)
      ensures status.Done? ==> s != null && fresh(s) && s.Valid() && s.buf == buf && s.pos == HEAD
      ensures status.Done? ==> s.end == length - CRC && s.Data() == buf[..length][..length - CRC]
    {
      if length < HEAD + CRC {
        return Thrown(BadBuffer), null;
      }
      if !Verify(buf[..length], crc) {
        return Thrown(NotVerified), null;
      }
      s := new ProtocolStream(buf, length - CRC);
      return Done, s;
    }

    /** ProtocolStream(rhs, chunk): a copy of what another stream for writing holds so far, in a chunk of its own. */
    static method OpenCopy(rhs: ProtocolStream, buf: array<byte>, length: nat) returns (status: Status, s: ProtocolStream?)
      requires rhs.Valid() && rhs.pos >= HEAD && length <= buf.Length && rhs.buf != buf
      modifies buf
      ensures status.Done? <==> HEAD + CRC <= length && rhs.pos <= length
      ensures status.Done? ==> s != null && fresh(s) && s.Valid() && s.buf == buf && s.end == length
      ensures status.Done? ==> s.Written() == rhs.Written()
    {
      status, s := OpenWrite(buf, length);
      if status.Thrown? {
        return;
      }
      if s.end < rhs.pos {
        return Thrown(BadBuffer), null;
      }
      for i := 0 to rhs.pos
        invariant s.Valid() && s.buf == buf && s.end == length && buf[..i] == rhs.buf[..i]
      {
        buf[i] := rhs.buf[i];
      }
      s.pos := rhs.pos;
    }

    // ---------------------------------------------------------------- head

    method MessageId() returns (id: nat)
      requires Valid()
      ensures id == Word(buf[..], ID_AT)
    {
      id := (buf[ID_AT] as nat) + 256 * (buf[ID_AT + 1] as nat);
    }

    method SetWord(at: nat, n: nat)
      requires at + 2 <= buf.Length
      modifies buf
      ensures buf[..] == WithWord(old(buf[..]), at, n)
    {
      buf[at] := n % 256;
      buf[at + 1] := n / 256 % 256;
    }

    method SetFlag(encrypt: nat, ack: bool, needResponse: bool)
      requires HEAD <= buf.Length
      modifies buf
      ensures buf[..] == WithFlag(old(buf[..]), encrypt, ack, needResponse)
    {
      buf[FLAG_AT] := buf[FLAG_AT] / 16 * 16 + encrypt % 16;
      buf[FLAG_AT + 1] := buf[FLAG_AT + 1] / 4 * 4 + (if ack then 1 else 0) + (if needResponse then 2 else 0);
    }

    /** initHead(id, bool) */
    method InitHead(id: nat, needResponse: bool)
      requires Valid()
      modifies buf
      ensures Valid() && buf[..] == InitRequest(old(buf[..]), id, needResponse)
      ensures old(pos) >= HEAD ==> Written() == InitRequest(old(Written()), id, needResponse)
      ensures buf[HEAD..] == old(buf[HEAD..])
    {
      SetWord(ID_AT, id);
      SetFlag(0, false, needResponse);
      if pos >= HEAD {
        HeadOfPrefix(old(buf[..]), pos, id, needResponse);
      }
    }

    static lemma HeadOfPrefix(b: bytes, n: nat, id: nat, needResponse: bool)
      requires HEAD <= n <= |b|
      ensures InitRequest(b, id, needResponse)[..n] == InitRequest(b[..n], id, needResponse)
    {}

    /** initHead(id, ackNum) */
    method InitAck(id: nat, ackNum: nat)
      requires Valid()
      modifies buf
      ensures Valid() && buf[..] == InitResponse(old(buf[..]), id, ackNum)
    {
      SetWord(ID_AT, id);
      SetFlag(0, true, false);
      SetWord(ACK_AT, ackNum);
    }

    // ---------------------------------------------------------------- writing

    /** memcpy to the position; what lies beyond the new position is not touched. */
    method Store(x: bytes)
      requires Valid() && pos + |x| <= end
      modifies this`pos, buf
      ensures Valid() && pos == old(pos) + |x|
      ensures Written() == old(Written()) + x
      ensures Untouched(old(buf[..]))
    {
      for i := 0 to |x|
        invariant Valid() && pos == old(pos)
        invariant buf[..pos + i] == old(Written()) + x[..i]
        invariant forall k :: pos + i <= k < buf.Length ==> buf[k] == old(buf[k])
      {
        buf[pos + i] := x[i];
        assert x[..i + 1] == x[..i] + [x[i]];
      }
      pos := pos + |x|;
      assert x[..|x|] == x;
    }

    /** append, and every operator that writes bytes it has computed: all of them or none. */
    method Append(x: bytes) returns (status: Status)
      requires Valid()
      modifies this`pos, buf
      ensures Valid() && (status.Done? <==> old(pos) + |x| <= end)
      ensures status.Done? ==> Written() == old(Written()) + x
      ensures Untouched(old(buf[..]))
      ensures status.Thrown? ==> status.fault == NoRoom && pos == old(pos) && buf[..] == old(buf[..])
    {
      if |x| > end - pos {
        return Thrown(NoRoom);
      }
      Store(x);
      return Done;
    }

    method PutInteger(n: nat, width: nat) returns (status: Status)
      requires Valid()
      modifies this`pos, buf
      ensures Valid() && (status.Done? <==> old(pos) + width <= end)
      ensures status.Done? ==> Written() == old(Written()) + LittleEndian(n, width)
      ensures status.Done? ==> forall i :: 0 <= i < width ==> buf[old(pos) + i] == n / Pow256(i) % 256
      ensures Untouched(old(buf[..]))
      ensures status.Thrown? ==> status.fault == NoRoom && pos == old(pos) && buf[..] == old(buf[..])
    {
      hide Pow256;
      var x := LittleEndian(n, width);
      ghost var start := Written();
      status := Append(x);
      if status.Done? {
        forall i | 0 <= i < width
          ensures buf[old(pos) + i] == n / Pow256(i) % 256
        {
          assert buf[old(pos) + i] == Written()[|start| + i] == x[i];
          LittleEndianDigits(n, width, i);
        }
      }
    }

    method PutDateTime(f: Field) returns (status: Status)
      requires Valid() && f.DateTime?
      modifies this`pos, buf
      ensures Valid() && (status.Done? <==> old(pos) + 8 <= end)
      ensures status.Done? ==> Written() == old(Written()) + EncodeField(f)
      ensures Untouched(old(buf[..]))
      ensures status.Thrown? ==> status.fault == NoRoom && pos == old(pos) && buf[..] == old(buf[..])
    {
      if 8 > end - pos {
        return Thrown(NoRoom);
      }
      hide LittleEndian;
      ghost var start := Written();
      var y, mo, d := LittleEndian(f.year, 2), LittleEndian(f.month, 1), LittleEndian(f.day, 1);
      var h, mi, s := LittleEndian(f.hour, 1), LittleEndian(f.minute, 1), LittleEndian(f.seconds, 2);
      assert start + [] == start && [] + y == y;
      StoreMore(y, start, []);
      StoreMore(mo, start, y);
      StoreMore(d, start, y + mo);
      StoreMore(h, start, y + mo + d);
      StoreMore(mi, start, y + mo + d + h);
      StoreMore(s, start, y + mo + d + h + mi);
      return Done;
    }

    /** Store, when `done` is what was written since the stream held `start`. */
    method StoreMore(x: bytes, ghost start: bytes, ghost done: bytes)
      requires Valid() && pos + |x| <= end && Written() == start + done
      modifies this`pos, buf
      ensures Valid() && pos == old(pos) + |x|
      ensures Written() == start + (done + x)
      ensures Untouched(old(buf[..]))
    {
      assert start + done + x == start + (done + x);
      Store(x);
    }

    /** The C string up to its first NUL, behind a length of `prefix` bytes into which the real length is cast. */
    method PutText(text: bytes, prefix: nat) returns (status: Status)
      requires Valid()
      modifies this`pos, buf
      ensures Valid() && (status.Done? <==> old(pos) + |EncodeText(text, prefix)| <= end)
      ensures status.Done? ==> Written() == old(Written()) + EncodeText(text, prefix)
      ensures Untouched(old(buf[..]))
      ensures status.Thrown? ==> status.fault == NoRoom && pos == old(pos) && buf[..] == old(buf[..])
    {
      var data := CStr(text);
      if |data| + prefix > end - pos {
        return Thrown(NoRoom);
      }
      hide LittleEndian;
      Store(LittleEndian(|data|, prefix));
      Store(data);
      return Done;
    }

    /** operator<<(const ProtocolStream&): what the other stream has not read yet; the other stream does not move. */
    method PutStream(other: ProtocolStream) returns (status: Status)
      requires Valid() && other.Valid() && other.buf != buf && other != this
      modifies this`pos, buf
      ensures Valid() && (status.Done? <==> old(pos) + |other.Rest()| <= end)
      ensures status.Done? ==> Written() == old(Written()) + other.Rest()
      ensures Untouched(old(buf[..]))
      ensures status.Thrown? ==> status.fault == NoRoom && pos == old(pos) && buf[..] == old(buf[..])
    {
      status := Append(other.buf[other.pos..other.end]);
    }

    /** serialize: send number and length go into the head, the checksum of everything before it to the end. */
    method Finish(sendNum: nat, crc: Checksum) returns (status: Status)
      requires Valid() && pos >= HEAD
      modifies this`pos, buf
      ensures Valid() && (status.Done? <==> Serialize(old(Written()), sendNum, end, crc).Some?)
      ensures status.Done? ==> Written() == Serialize(old(Written()), sendNum, end, crc).value
      ensures status.Thrown? ==> status.fault == NoRoom
    {
      SetWord(SEND_AT, sendNum);
      SetWord(LENGTH_AT, pos + CRC);
      assert buf[..pos] == WithWord(WithWord(old(Written()), SEND_AT, sendNum), LENGTH_AT, pos + CRC);
      var code := crc(buf[..pos]);
      status := PutInteger(code, CRC);
    }

    // ---------------------------------------------------------------- reading

    method GetInteger(width: nat) returns (status: Status, n: nat)
      requires Valid()
      modifies this`pos
      ensures Valid() && (status.Done? <==> ReadInteger(Data(), old(pos), width).Some?)
      ensures status.Done? ==> ReadInteger(Data(), old(pos), width) == Some((n, pos))
      ensures status.Done? ==> forall i :: 0 <= i < width ==> buf[old(pos) + i] == n / Pow256(i) % 256
      ensures status.Thrown? ==> status.fault == NoData && pos == old(pos)
    {
      if width > end - pos {
        return Thrown(NoData), 0;
      }
      n := FromLittleEndian(buf[pos..pos + width]);
      assert buf[..end][pos..pos + width] == buf[pos..pos + width];
      forall i | 0 <= i < width
        ensures buf[pos + i] == n / Pow256(i) % 256
      {
        FromLittleEndianDigits(buf[pos..pos + width], i);
      }
      pos := pos + width;
      return Done, n;
    }

    method GetText(prefix: nat) returns (status: Status, text: bytes)
      requires Valid()
      modifies this`pos
      ensures Valid() && (status.Done? <==> ReadText(Data(), old(pos), prefix).Some?)
      ensures status.Done? ==> ReadText(Data(), old(pos), prefix) == Some((text, pos))
      ensures status.Thrown? ==> status.fault == NoData && (pos == old(pos) || pos == old(pos) + prefix)
    {
      text := [];
      var len;
      status, len := GetInteger(prefix);
      if status.Thrown? {
        return;
      }
      if len > end - pos {
        return Thrown(NoData), [];
      }
      text := buf[pos..pos + len];
      assert buf[..end][pos..pos + len] == text;
      pos := pos + len;
    }

    method GetDateTime() returns (status: Status, f: Field)
      requires Valid()
      modifies this`pos
      ensures Valid() && (status.Done? <==> ReadField(DateTimeShape, Data(), old(pos)).Some?)
      ensures status.Done? ==> ReadField(DateTimeShape, Data(), old(pos)) == Some((f, pos))
      ensures status.Thrown? ==> pos == old(pos)
    {
      if 8 > end - pos {
        return Thrown(NoData), DateTime(0, 0, 0, 0, 0, 0);
      }
      var y, s := FromLittleEndian(buf[pos..pos + 2]), FromLittleEndian(buf[pos + 6..pos + 8]);
      f := DateTime(y, buf[pos + 2], buf[pos + 3], buf[pos + 4], buf[pos + 5], s);
      assert buf[..end][pos..pos + 2] == buf[pos..pos + 2] && buf[..end][pos + 6..pos + 8] == buf[pos + 6..pos + 8];
      pos := pos + 8;
      return Done, f;
    }

    /** moveForward over a fixed-width value. */
    method SkipInteger(width: nat) returns (status: Status)
      requires Valid()
      modifies this`pos
      ensures Valid() && (status.Done? <==> ReadInteger(Data(), old(pos), width).Some?)
      ensures pos == if status.Done? then old(pos) + width else old(pos)
      ensures status.Thrown? ==> status.fault == NoData
    {
      if width > end - pos {
        return Thrown(NoData);
      }
      pos := pos + width;
      return Done;
    }

    /** moveForward over a string. */
    method SkipText(prefix: nat) returns (status: Status)
      requires Valid()
      modifies this`pos
      ensures Valid() && (status.Done? <==> ReadText(Data(), old(pos), prefix).Some?)
      ensures status.Done? ==> pos == ReadText(Data(), old(pos), prefix).value.1
      ensures status.Thrown? ==> status.fault == NoData
    {
      var len;
      status, len := GetInteger(prefix);
      if status.Thrown? {
        return;
      }
      if len > end - pos {
        return Thrown(NoData);
      }
      pos := pos + len;
    }

    /** moveBack: it may go back into the head, but not before it. */
    method MoveBack(offset: nat) returns (status: Status)
      requires Valid()
      modifies this`pos
      ensures Valid() && (status.Done? <==> offset <= old(pos))
      ensures pos == if status.Done? then old(pos) - offset else old(pos)
      ensures status.Thrown? ==> status.fault == CannotMoveBack
    {
      if offset > pos {
        return Thrown(CannotMoveBack);
      }
      pos := pos - offset;
      return Done;
    }

    method Rewind()
      requires Valid()
      modifies this`pos
      ensures Valid() && pos == HEAD
    {
      pos := HEAD;
    }

    method AssertEmpty() returns (status: Status)
      requires Valid()
      ensures status.Done? <==> Rest() == []
    {
      return if end - pos != 0 then Thrown(SuperfluousData) else Done;
    }

    /** toMemoryChunk: the used part of the chunk is handed over, and the stream is finished with. */
    method ToMemoryChunk() returns (data: array<byte>, length: nat)
      requires Valid()
      modifies this`moved
      ensures moved && data == buf && length == pos && data[..length] == old(Written())
    {
      moved := true;
      return buf, pos;
    }
  }
}
