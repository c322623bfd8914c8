/**
 The memory pool, the write streams over its chunks and the send lists of the connections as objects. Every
 operation is proved to be a step of the ownership machine.
 */
module IcsMemory {
  import opened Octets
  import opened IcsWire
  import opened IcsPool

  datatype MemoryChunk = NoChunk | Chunk(data: nat, length: nat)

  class MemoryPool {
    const buff: array<byte>
    const chunkSize: nat
    const chunkCount: nat
    /** Offsets in the buffer. */
    var chunkList: seq<nat>

    constructor (chunkSize: nat, countOfChunk: nat, zeroData: bool)
      ensures this.chunkSize == chunkSize && chunkCount == countOfChunk && fresh(buff)
      ensures buff.Length == chunkSize * countOfChunk
      ensures chunkList == Starts(chunkSize, countOfChunk)
      ensures zeroData ==> forall i :: 0 <= i < buff.Length ==> buff[i] == 0
    {
      this.chunkSize, chunkCount := chunkSize, countOfChunk;
      buff := new byte[chunkSize * countOfChunk];
      chunkList := [];
      new;
      if zeroData {
        for i := 0 to buff.Length
          invariant chunkList == [] && forall k :: 0 <= k < i ==> buff[k] == 0
        {
          buff[i] := 0;
        }
      }
      for i := 0 to countOfChunk
        invariant chunkList == Starts(chunkSize, countOfChunk)[..i]
        invariant zeroData ==> forall k :: 0 <= k < buff.Length ==> buff[k] == 0
      {
        chunkList := chunkList + [i * chunkSize];
      }
    }

    method Get() returns (chunk: MemoryChunk)
      modifies this
      ensures old(chunkList) == [] ==> chunk == NoChunk && chunkList == []
      ensures old(chunkList) != [] ==> chunk == Chunk(old(chunkList)[0], chunkSize) && chunkList == old(chunkList)[1..]
    {
      chunk := NoChunk;
      if chunkList != [] {
        chunk := Chunk(chunkList[0], chunkSize);
        chunkList := chunkList[1..];
      }
    }

    method Put(chunk: MemoryChunk)
      modifies this
      ensures chunkList == if chunk.Chunk? then old(chunkList) + [chunk.data] else old(chunkList)
    {
      if chunk.Chunk? {
        chunkList := chunkList + [chunk.data];
      }
    }
  }

  /** A ProtocolStream opened for writing: the chunk under it, or NoChunk once that was handed over. */
  class Stream {
    var chunk: MemoryChunk
    var used: nat

    constructor (chunk: MemoryChunk)
      ensures this.chunk == chunk && used == HEAD
    {
      this.chunk, used := chunk, HEAD;
    }
  }

  class Connection {
    var sendList: seq<MemoryChunk>

    constructor ()
      ensures sendList == []
    {
      sendList := [];
    }
  }

  ghost function Held(streams: set<Stream>): map<Stream, nat>
    reads streams
  {
    map x | x in streams && x.chunk.Chunk? :: x.chunk.data
  }

  ghost function Lists(connections: set<Connection>): map<Connection, seq<nat>>
    requires forall c, i :: c in connections && 0 <= i < |c.sendList| ==> c.sendList[i].Chunk?
    reads connections
  {
    map c | c in connections :: Offsets(c.sendList)
  }

  /** The pool with everything that holds its chunks. */
  class Memory {
    const pool: MemoryPool
    ghost var streams: set<Stream>
    ghost var connections: set<Connection>
    ghost var lost: set<nat>

    ghost predicate Valid()
      reads this, connections
    {
      forall c, i :: c in connections && 0 <= i < |c.sendList| ==> c.sendList[i].Chunk?
    }

    ghost function Abstract(): State<Stream, Connection>
      reads this, pool, streams, connections
      requires Valid()
    {
      State(pool.chunkSize, pool.chunkCount, pool.chunkList,
            Held(streams), Lists(connections), lost)
    }

    constructor (chunkSize: nat, countOfChunk: nat)
      ensures Valid() && fresh(pool)
      ensures Abstract() == Init(chunkSize, countOfChunk)
    {
      pool := new MemoryPool(chunkSize, countOfChunk, true);
      streams, connections, lost := {}, {}, {};
    }

    method AcceptConnection() returns (c: Connection)
      requires Valid()
      modifies this`connections
      ensures Valid() && fresh(c) && c in connections
      ensures Abstract() == Step(old(Abstract()), Accept(c))
    {
      c := new Connection();
      connections := connections + {c};
    }

    /** `ProtocolStream s(writeType, g_memoryPool.get())`: null when the constructor throws. */
    method OpenStream() returns (s: Stream?)
      requires Valid()
      modifies this`streams, this`lost, pool
      ensures Valid()
      ensures s != null <==> old(pool.chunkList) != [] && pool.chunkSize >= HEAD + CRC
      ensures s != null ==> fresh(s) && s in streams && Abstract() == Step(old(Abstract()), Open(s))
      ensures s != null ==> s.chunk == Chunk(old(pool.chunkList)[0], pool.chunkSize) && s.used == HEAD
      ensures pool.chunkList == if old(pool.chunkList) == [] then [] else old(pool.chunkList)[1..]
      ensures s == null ==> forall x :: x !in streams ==> Abstract() == Step(old(Abstract()), Open(x))
    {
      var chunk := pool.Get();
      if chunk.NoChunk? {
        return null;
      }
      if chunk.length < HEAD + CRC {
        lost := lost + {chunk.data};
        return null;
      }
      ghost var held := Held(streams);
      hide Lists;
      s := new Stream(chunk);
      streams := streams + {s};
      assert Held(streams) == held[s := chunk.data];
    }

    /** The destructor: what the stream still holds goes back to the pool. */
    method DestroyStream(s: Stream)
      requires Valid() && s in streams
      modifies this`streams, pool, s
      ensures Valid() && s !in streams
      ensures Abstract() == Step(old(Abstract()), Destroy(s))
      ensures pool.chunkList
           == if old(s.chunk).Chunk? then old(pool.chunkList) + [old(s.chunk).data] else old(pool.chunkList)
    {
      hide Lists;
      ghost var held := Held(streams);
      if s.chunk.Chunk? {
        var chunk := ToMemoryChunk(s);
        pool.Put(chunk);
      }
      assert Held(streams - {s}) == held - {s};
      streams := streams - {s};
    }

    method ToMemoryChunk(s: Stream) returns (chunk: MemoryChunk)
      requires s.chunk.Chunk?
      modifies s
      ensures s.chunk == NoChunk && chunk == Chunk(old(s.chunk).data, old(s.used))
    {
      chunk := Chunk(s.chunk.data, s.used);
      s.chunk := NoChunk;
    }

    /** What a stream operator writes: all of it, or it throws. */
    method Write(s: Stream, length: nat) returns (written: bool)
      requires Valid() && s in streams && s.chunk.Chunk?
      modifies s`used
      ensures Valid() && Abstract() == old(Abstract())
      ensures written <==> old(s.used) + length <= s.chunk.length
      ensures s.used == if written then old(s.used) + length else old(s.used)
    {
      if s.used + length > s.chunk.length {
        return false;
      }
      s.used := s.used + length;
      return true;
    }

    /** `m_sendList.push_back(msg.toMemoryChunk())` */
    method HandOver(s: Stream, c: Connection)
      requires Valid() && s in streams && c in connections && s.chunk.Chunk?
      modifies s, c
      ensures Valid() && s.chunk.NoChunk? && Abstract() == Step(old(Abstract()), Send(s, c))
      ensures c.sendList == old(c.sendList) + [Chunk(old(s.chunk).data, old(s.used))]
    {
      ghost var list := c.sendList;
      var chunk := ToMemoryChunk(s);
      c.sendList := c.sendList + [chunk];
      assert Offsets(c.sendList) == Offsets(list) + [chunk.data];
    }

    /**
     trySend, up to the start of the transmission. Without room for the checksum serialize throws, and the stream keeps
     its chunk. A stream that was handed over must not be used any more.
     */
    method TrySend(s: Stream, c: Connection) returns (sent: bool)
      requires Valid() && s in streams && c in connections && s.chunk.Chunk?
      modifies s, c
      ensures Valid()
      ensures sent <==> old(s.used) + CRC <= old(s.chunk).length
      ensures sent ==> Abstract() == Step(old(Abstract()), Send(s, c)) && s.chunk.NoChunk?
      ensures sent ==> c.sendList == old(c.sendList) + [Chunk(old(s.chunk).data, old(s.used) + CRC)]
      ensures !sent ==> Abstract() == old(Abstract()) && s.chunk == old(s.chunk)
    {
      if s.used + CRC > s.chunk.length {
        return false;
      }
      s.used := s.used + CRC;
      HandOver(s, c);
      return true;
    }

    /** The completion of async_send: the chunk that was sent goes back to the pool. */
    method OnSent(c: Connection)
      requires Valid() && c in connections && c.sendList != []
      modifies pool, c
      ensures Valid()
      ensures Abstract() == Step(old(Abstract()), Sent(c))
      ensures c.sendList == old(c.sendList)[1..]
      ensures pool.chunkList == old(pool.chunkList) + [old(c.sendList)[0].data]
    {
      ghost var list := c.sendList;
      pool.Put(c.sendList[0]);
      c.sendList := c.sendList[1..];
      assert Offsets(c.sendList) == Offsets(list)[1..];
    }

    /** The destructor of a connection: the send list goes, and the chunks in it with it. */
    method DestroyConnection(c: Connection)
      requires Valid() && c in connections
      modifies this`connections, this`lost
      ensures Valid()
      ensures Abstract() == Step(old(Abstract()), Close(c))
    {
      lost := lost + set k | k in Offsets(c.sendList);
      connections := connections - {c};
    }
  }

  function Offsets(chunks: seq<MemoryChunk>): (r: seq<nat>)
    requires forall i :: 0 <= i < |chunks| ==> chunks[i].Chunk?
    ensures |r| == |chunks| && forall i :: 0 <= i < |r| ==> r[i] == chunks[i].data
  {
    seq(|chunks|, i requires 0 <= i < |chunks| => chunks[i].data)
  }
}
