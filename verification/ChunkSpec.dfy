/**
 The RTMP chunk layer on values: what reading one chunk, reading one message
 and writing one message do to the byte stream and to the connection state.
 The classes in `Conn.dfy` are proved to compute these functions; the theorems
 about whole sessions in `ChunkTheorems.dfy` are stated over them.
 */
module ChunkSpec {
  import opened Bytes

  const MAX_POOL_SIZE: nat := 500 * 1024
  const SET_CHUNK_SIZE: nat := 1
  const ACK: nat := 3
  const WINDOW_ACK_SIZE: nat := 5
  const TAG_AUDIO: nat := 8
  const TAG_VIDEO: nat := 9
  const TAG_SCRIPT_AMF3: nat := 15
  const TAG_SCRIPT_AMF0: nat := 18
  const EXTENDED: nat := 0xffffff
  const RECEIVED_LIMIT: nat := 0xf000_0000

  /** Why a read stops. `Panic` is a Go run-time panic: a slice or buffer bound was exceeded. */
  datatype Error = EndOfInput | InvalidRemain | InvalidFormat | Panic

  /** The unread bytes of the connection and the reader's sticky error flag. */
  datatype In = In(rest: seq<byte>, failed: bool) {

    function ReadBE(n: nat): (r: (nat, In))
      ensures |r.1.rest| <= |rest|
    {
      if failed then (0, this)
      else if |rest| < n then (0, In([], true))
      else (FromBE(rest[..n]), In(rest[n..], false))
    }

    function ReadLE(n: nat): (r: (nat, In))
      ensures |r.1.rest| <= |rest|
    {
      if failed then (0, this)
      else if |rest| < n then (0, In([], true))
      else (FromLE(rest[..n]), In(rest[n..], false))
    }
  }

  // ---- Reading one chunk -------------------------------------------------

  /**
   The state of one chunk stream. `data` is the part of the payload received so
   far, so the source's `index` is `|data|`.
   */
  datatype Chunk = Chunk(
    format: nat, csid: nat, timestamp: nat, length: nat, typeID: nat, streamID: nat,
    timeDelta: nat, exted: bool, remain: nat, got: bool, data: seq<byte>)

  const ZERO_CHUNK: Chunk := Chunk(0, 0, 0, 0, 0, 0, 0, false, 0, false, [])

  /** The invariant of a stored chunk stream. */
  ghost predicate Consistent(cs: Chunk) {
    && |cs.data| + cs.remain <= cs.length
    && (cs.remain > 0 ==> |cs.data| + cs.remain == cs.length && !cs.got)
    && (cs.remain == 0 ==> cs.data == [])
    && cs.format < 3
  }

  datatype Step = Step(cs: Chunk, inp: In) | Fail(error: Error, inp: In)

  function ReadCsid(key: nat, inp: In): (r: (nat, In))
    ensures |r.1.rest| <= |inp.rest|
  {
    if key == 0 then
      var (id, i1) := inp.ReadLE(1); (id + 64, i1)
    else if key == 1 then
      var (id, i1) := inp.ReadLE(2); (id + 64, i1)
    else (key, inp)
  }

  /** A fresh payload buffer of `cs.length` bytes; the pool cannot serve more than its size. */
  function Begin(cs: Chunk, inp: In): (s: Step)
    ensures s.inp == inp
  {
    if cs.length > MAX_POOL_SIZE then Fail(Panic, inp)
    else Step(cs.(got := false, remain := cs.length, data := []), inp)
  }

  /** A 3-byte timestamp field, replaced by the 4-byte extended one when it is all ones. */
  function Extend(ts: nat, inp: In): (r: (nat, bool, In))
    ensures |r.2.rest| <= |inp.rest|
  {
    if ts == EXTENDED then
      var (t, i1) := inp.ReadBE(4); (t, true, i1)
    else (ts, false, inp)
  }

  function AddDelta(cs: Chunk, delta: nat): Chunk {
    cs.(timestamp := (cs.timestamp + delta) % 0x1_0000_0000)
  }

  function ReadFields0(cs: Chunk, inp: In): (r: (Chunk, In))
    ensures |r.1.rest| <= |inp.rest|
  {
    var (ts, i1) := inp.ReadBE(3);
    var (len, i2) := i1.ReadBE(3);
    var (ty, i3) := i2.ReadBE(1);
    var (sid, i4) := i3.ReadLE(4);
    var (t, ext, i5) := Extend(ts, i4);
    (cs.(format := 0, timestamp := t, length := len, typeID := ty, streamID := sid, exted := ext), i5)
  }

  function ReadFields1(cs: Chunk, inp: In): (r: (Chunk, In))
    ensures |r.1.rest| <= |inp.rest|
  {
    var (ts, i1) := inp.ReadBE(3);
    var (len, i2) := i1.ReadBE(3);
    var (ty, i3) := i2.ReadBE(1);
    var (t, ext, i4) := Extend(ts, i3);
    (AddDelta(cs.(format := 1, length := len, typeID := ty, exted := ext, timeDelta := t), t), i4)
  }

  function ReadFields2(cs: Chunk, inp: In): (r: (Chunk, In))
    ensures |r.1.rest| <= |inp.rest|
  {
    var (ts, i1) := inp.ReadBE(3);
    var (t, ext, i2) := Extend(ts, i1);
    (AddDelta(cs.(format := 2, exted := ext, timeDelta := t), t), i2)
  }

  /** Format 3 on an idle stream: a new message with the previous header. */
  function ReadFields3(cs: Chunk, inp: In): (r: (Chunk, In))
    ensures |r.1.rest| <= |inp.rest|
  {
    if cs.format == 0 then
      var (t, i1) := if cs.exted then inp.ReadBE(4) else (cs.timestamp, inp);
      (cs.(timestamp := t), i1)
    else
      var (t, i1) := if cs.exted then inp.ReadBE(4) else (cs.timeDelta, inp);
      (AddDelta(cs, t), i1)
  }

  function ReadFields(cs: Chunk, fmt: nat, inp: In): (r: (Chunk, In))
    requires fmt < 4
    ensures |r.1.rest| <= |inp.rest|
  {
    match fmt
    case 0 => ReadFields0(cs, inp)
    case 1 => ReadFields1(cs, inp)
    case 2 => ReadFields2(cs, inp)
    case _ => ReadFields3(cs, inp)
  }

  /** Format 3 inside a message: the extended timestamp may or may not be repeated. */
  function ContinueHeader(cs: Chunk, inp: In): (s: Step)
    ensures |s.inp.rest| <= |inp.rest|
  {
    if !cs.exted then Step(cs, inp)
    else if |inp.rest| < 4 then Fail(EndOfInput, inp)
    else if FromBE(inp.rest[..4]) == cs.timestamp then Step(cs, inp.(rest := inp.rest[4..]))
    else Step(cs, inp)
  }

  function ReadHeader(cs: Chunk, fmt: nat, inp: In): (s: Step)
    ensures |s.inp.rest| <= |inp.rest|
  {
    if fmt >= 4 then Fail(InvalidFormat, inp)
    else if fmt == 3 && cs.remain != 0 then ContinueHeader(cs, inp)
    else
      var (c, i1) := ReadFields(cs, fmt, inp);
      Begin(c, i1)
  }

  function ReadPayload(cs: Chunk, chunkSize: nat, inp: In): (s: Step)
    ensures |s.inp.rest| <= |inp.rest|
  {
    var size := Min(cs.remain, chunkSize);
    if inp.failed then Fail(EndOfInput, inp)
    else if |inp.rest| < size then Fail(EndOfInput, In([], true))
    else
      var remain := cs.remain - size;
      Step(cs.(data := cs.data + inp.rest[..size], remain := remain, got := remain == 0 || cs.got),
           In(inp.rest[size..], false))
  }

  /** What follows the basic header of a chunk. */
  function ReadBody(cs: Chunk, fmt: nat, chunkSize: nat, inp: In): (s: Step)
    ensures |s.inp.rest| <= |inp.rest|
    ensures inp.failed ==> s.Fail?
  {
    var h := ReadHeader(cs, fmt, inp);
    if h.Fail? then h else ReadPayload(h.cs, chunkSize, h.inp)
  }

  /** `ChunkStream.readChunk` on a stream whose basic header carried format `fmt` and id bits `key`. */
  function ReadChunk(cs: Chunk, fmt: nat, key: nat, chunkSize: nat, inp: In): (s: Step)
    ensures |s.inp.rest| <= |inp.rest|
    ensures inp.failed ==> s.Fail?
  {
    if cs.remain != 0 && fmt != 3 then Fail(InvalidRemain, inp)
    else
      var (csid, i1) := ReadCsid(key, inp);
      ReadBody(cs.(csid := csid), fmt, chunkSize, i1)
  }

  // ---- Reading one message -----------------------------------------------

  /** The reading half of a connection. `chunks` is indexed by the low six bits of the basic header. */
  datatype Reader = Reader(
    chunks: map<nat, Chunk>, chunkSize: nat, window: nat, received: nat, ackReceived: nat)
  {
    function Get(key: nat): Chunk {
      if key in chunks then chunks[key] else ZERO_CHUNK
    }

    function Touch(key: nat): Reader {
      this.(chunks := chunks[key := Get(key)])
    }

    /** Stores a stream; the payload of a finished message now belongs to the caller. */
    function Put(key: nat, cs: Chunk): Reader {
      this.(chunks := chunks[key := if cs.remain == 0 then cs.(data := []) else cs])
    }
  }

  ghost predicate ReaderOk(r: Reader) {
    && (forall k :: k in r.chunks ==> k < 64 && Consistent(r.chunks[k]))
    && r.received < RECEIVED_LIMIT
    && (r.ackReceived == 0 || r.ackReceived < r.window)
    && r.window < 0x1_0000_0000
  }

  datatype MsgResult =
    | Message(c: Chunk, r: Reader, inp: In, ack: Option<nat>)
    | Failed(error: Error, r: Reader, inp: In)

  /** `Conn.handleControlMsg`; `None` when the payload is too short to hold the value it announces. */
  function HandleControl(r: Reader, c: Chunk): Option<Reader> {
    if c.typeID == SET_CHUNK_SIZE then
      if |c.data| < 4 then None else Some(r.(chunkSize := FromBE(c.data[..4])))
    else if c.typeID == WINDOW_ACK_SIZE then
      if |c.data| < 4 then None else Some(r.(window := FromBE(c.data[..4])))
    else Some(r)
  }

  function Wrap(n: nat): nat { n % 0x1_0000_0000 }

  /** `Conn.ack`: the new counters, and the value acknowledged if the window is used up. */
  function Ack(r: Reader, size: nat): (Reader, Option<nat>) {
    var received := Wrap(r.received + size);
    var acc := Wrap(r.ackReceived + size);
    var r1 := r.(received := if received >= RECEIVED_LIMIT then 0 else received);
    if acc >= r.window then (r1.(ackReceived := 0), Some(acc))
    else (r1.(ackReceived := acc), None)
  }

  function Finish(r: Reader, c: Chunk, inp: In): MsgResult {
    match HandleControl(r, c)
    case None => Failed(Panic, r, inp)
    case Some(r1) => var (r2, ack) := Ack(r1, c.length); Message(c, r2, inp, ack)
  }

  /** One turn of the loop in `Conn.Read`. */
  function NextChunk(r: Reader, inp: In): (s: (nat, Step))
    ensures s.1.Step? ==> |s.1.inp.rest| < |inp.rest|
    ensures |s.1.inp.rest| <= |inp.rest|
  {
    var (h, i1) := inp.ReadBE(1);
    (h % 64, ReadChunk(r.Get(h % 64), h / 64, h % 64, r.chunkSize, i1))
  }

  /** `Conn.Read`. */
  function ReadMsg(r: Reader, inp: In): MsgResult
    decreases |inp.rest|
  {
    var (key, s) := NextChunk(r, inp);
    if s.Fail? then Failed(s.error, r.Touch(key), s.inp)
    else
      var r1 := r.Put(key, s.cs);
      if s.cs.got then Finish(r1, s.cs, s.inp) else ReadMsg(r1, s.inp)
  }

  // ---- Writing -----------------------------------------------------------

  datatype Msg = Msg(csid: nat, timestamp: nat, typeID: nat, streamID: nat, data: seq<byte>)

  function BasicHeader(fmt: nat, csid: nat): seq<byte>
    requires fmt < 4
  {
    if csid < 64 then BE(fmt * 64 + csid, 1)
    else if csid - 64 < 256 then BE(fmt * 64, 1) + LE(csid - 64, 1)
    else if csid - 64 < 65536 then BE(fmt * 64 + 1, 1) + LE(csid - 64, 2)
    else []
  }

  function ExtendedField(m: Msg): seq<byte> {
    if m.timestamp >= EXTENDED then BE(m.timestamp, 4) else []
  }

  /** The message header and the extended timestamp. */
  function MessageHeader(fmt: nat, m: Msg): seq<byte>
    requires fmt < 4
  {
    (if fmt < 3 then BE(Min(m.timestamp, EXTENDED), 3) else [])
    + (if fmt < 2 then BE(|m.data|, 3) + BE(m.typeID, 1) else [])
    + (if fmt < 1 then LE(m.streamID, 4) else [])
    + ExtendedField(m)
  }

  /** `ChunkStream.writeHeader` for a message of at most 0xffffff bytes. */
  function Header(fmt: nat, m: Msg): seq<byte>
    requires fmt < 4
  {
    BasicHeader(fmt, m.csid) + MessageHeader(fmt, m)
  }

  function PieceLength(m: Msg, sent: nat, size: nat): (n: nat)
    requires sent < |m.data| && size > 0
    ensures 0 < n <= |m.data| - sent
  {
    Min(|m.data| - sent, size)
  }

  /** The chunk that carries the payload from offset `sent` on. */
  function ChunkBytes(m: Msg, sent: nat, size: nat): seq<byte>
    requires sent < |m.data| && size > 0
  {
    Header(if sent == 0 then 0 else 3, m) + m.data[sent..sent + PieceLength(m, sent, size)]
  }

  function ChunksFrom(m: Msg, sent: nat, size: nat): seq<byte>
    requires sent <= |m.data| && size > 0
    decreases |m.data| - sent
  {
    if sent == |m.data| then []
    else ChunkBytes(m, sent, size) + ChunksFrom(m, sent + PieceLength(m, sent, size), size)
  }

  /** `ChunkStream.writeChunk` moves media messages to a fixed chunk stream first. */
  function Route(m: Msg): Msg {
    if m.typeID == TAG_AUDIO then m.(csid := 4)
    else if m.typeID == TAG_VIDEO || m.typeID == TAG_SCRIPT_AMF0 || m.typeID == TAG_SCRIPT_AMF3 then m.(csid := 6)
    else m
  }

  function Encode(m: Msg, size: nat): seq<byte>
    requires size > 0
  {
    ChunksFrom(Route(m), 0, size)
  }

  function Announced(m: Msg): nat
    requires |m.data| >= 4
  {
    FromBE(m.data[..4])
  }

  /** What `Conn.Write` demands: a Set Chunk Size message holds a positive size. */
  predicate Writable(m: Msg) {
    m.typeID == SET_CHUNK_SIZE ==> |m.data| >= 4 && Announced(m) > 0
  }

  /** The chunk size in force from the moment `Conn.Write` is called with `m`. */
  function SizeAfter(m: Msg, size: nat): nat
    requires Writable(m)
  {
    if m.typeID == SET_CHUNK_SIZE then Announced(m) else size
  }

  function AckMessage(value: nat): Msg {
    Msg(2, 0, ACK, 0, BE(value, 4))
  }

  /** The announcement the program itself writes: four bytes. */
  function SetChunkSizeMsg(value: nat): Msg {
    Msg(2, 0, SET_CHUNK_SIZE, 0, BE(value, 4))
  }
}
