/**
 The connection as the program keeps it: chunk streams with their payload
 slices on the heap, the pool they come from, and the counters. Every method is
 proved to compute the functions of `ChunkSpec.dfy`; reading never touches the
 payload of a message delivered before.
 */
module Conns {
  import opened Bytes
  import opened ChunkSpec
  import opened Pools
  import opened ReadWriters

  /** A chunk stream as the connection stores it: a copy of all its fields. */
  datatype Fields = Fields(
    format: nat, csid: nat, timestamp: nat, length: nat, typeID: nat, streamID: nat,
    timeDelta: nat, exted: bool, index: nat, remain: nat, got: bool, data: Slice)
  {
    ghost predicate Valid() {
      && data.Valid()
      && (remain > 0 ==> index + remain == length == data.len && !got)
    }

    /** Only the payload of an unfinished message matters to the connection. */
    ghost function Stored(): Chunk
      requires Valid()
      reads if remain > 0 then {data.buf} else {}
    {
      Chunk(format, csid, timestamp, length, typeID, streamID, timeDelta, exted, remain, got,
            if remain == 0 then [] else data.Bytes(0, index))
    }
  }

  /** The value of a stream but for its id does not depend on its id. */
  lemma SameStored(f: Fields, id: nat)
    requires f.Valid()
    ensures f.(csid := id).Valid() && f.Stored().remain == f.remain
    ensures f.(csid := id).Stored() == f.Stored().(csid := id)
    ensures f.Stored() == f.(csid := id).Stored().(csid := f.csid)
  {
  }

  /** The zero value; its payload slice is empty. */
  function NoFields(block: array<byte>): Fields {
    Fields(0, 0, 0, 0, 0, 0, 0, false, 0, 0, false, Slice(block, 0, 0))
  }

  class ChunkStream {
    var format: nat
    var csid: nat
    var timestamp: nat
    var length: nat
    var typeID: nat
    var streamID: nat
    var timeDelta: nat
    var exted: bool
    var index: nat
    var remain: nat
    var got: bool
    var tmpFormat: nat
    var data: Slice

    constructor (f: Fields)
      ensures Copy() == f && tmpFormat == 0
    {
      format, csid, timestamp, length := f.format, f.csid, f.timestamp, f.length;
      typeID, streamID, timeDelta, exted := f.typeID, f.streamID, f.timeDelta, f.exted;
      index, remain, got, data, tmpFormat := f.index, f.remain, f.got, f.data, 0;
    }

    method Assign(f: Fields)
      modifies this
      ensures Copy() == f
    {
      format, csid, timestamp, length := f.format, f.csid, f.timestamp, f.length;
      typeID, streamID, timeDelta, exted := f.typeID, f.streamID, f.timeDelta, f.exted;
      index, remain, got, data := f.index, f.remain, f.got, f.data;
    }

    function Copy(): Fields
      reads this
    {
      Fields(format, csid, timestamp, length, typeID, streamID, timeDelta, exted, index, remain, got, data)
    }

    ghost predicate Valid()
      reads this
    {
      Copy().Valid() && (remain == 0 ==> index <= data.len)
    }

    /** The stream with the payload received so far. */
    ghost function Value(): Chunk
      requires Valid()
      reads this, data.buf
    {
      Chunk(format, csid, timestamp, length, typeID, streamID, timeDelta, exted, remain, got,
            data.Bytes(0, index))
    }

    /** The message this stream stands for when it is written. */
    ghost function Message(): Msg
      requires Valid()
      reads this, data.buf
    {
      Msg(csid, timestamp, typeID, streamID, data.Bytes(0, data.len))
    }

    method New(pool: Pool)
      requires pool.Valid() && length <= MAX_POOL_SIZE
      modifies this`got, this`index, this`remain, this`data, pool
      ensures pool.Valid()
      ensures !got && index == 0 && remain == length == data.len
      ensures FromPool(pool, data, old(pool.buf), old(pool.pos), old(pool.blocks))
      ensures fresh(pool.blocks - old(pool.blocks))
    {
      got := false;
      index := 0;
      remain := length;
      data := pool.Get(length);
    }

    /** `d` was handed out last: it lies behind `pos` in the block `was`, or in a block that is not in `blocks`. */
    static ghost predicate FromPool(pool: Pool, d: Slice, was: array<byte>, pos: nat, blocks: set<array<byte>>)
      reads pool
    {
      && d.Valid() && d.buf == pool.buf && d.off + d.len == pool.pos
      && ((pool.buf == was && d.off == pos) || pool.buf !in blocks)
      && blocks <= pool.blocks
    }

    /** The pool has gone on in the block `was`, or to one that is not in `blocks`. */
    static ghost predicate Moved(pool: Pool, was: array<byte>, pos: nat, blocks: set<array<byte>>)
      reads pool
    {
      blocks <= pool.blocks && ((pool.buf == was && pos <= pool.pos) || pool.buf !in blocks)
    }

    method ReadExtended(r: ReadWriter, ts: nat) returns (t: nat)
      modifies this`exted, r`input, r`readError
      ensures (t, exted, r.Pending()) == Extend(ts, old(r.Pending()))
    {
      t := ts;
      exted := false;
      if ts == EXTENDED {
        t := r.ReadUintBE(4);
        exted := true;
      }
    }

    /** The stream without payload. */
    ghost function Blank(): Chunk
      reads this
    {
      Chunk(format, csid, timestamp, length, typeID, streamID, timeDelta, exted, remain, got, [])
    }

    method ReadFields0(r: ReadWriter)
      modifies this`format, this`timestamp, this`length, this`typeID, this`streamID, this`exted
      modifies r`input, r`readError
      ensures (Blank(), r.Pending()) == ChunkSpec.ReadFields0(old(Blank()), old(r.Pending()))
    {
      hide In.ReadBE, In.ReadLE;
      format := 0;
      timestamp := r.ReadUintBE(3);
      length := r.ReadUintBE(3);
      typeID := r.ReadUintBE(1);
      streamID := r.ReadUintLE(4);
      timestamp := ReadExtended(r, timestamp);
    }

    method ReadFields1(r: ReadWriter)
      modifies this`format, this`timestamp, this`length, this`typeID, this`timeDelta, this`exted
      modifies r`input, r`readError
      ensures (Blank(), r.Pending()) == ChunkSpec.ReadFields1(old(Blank()), old(r.Pending()))
    {
      hide In.ReadBE;
      format := 1;
      var t := r.ReadUintBE(3);
      length := r.ReadUintBE(3);
      typeID := r.ReadUintBE(1);
      timeDelta := ReadExtended(r, t);
      timestamp := Wrap(timestamp + timeDelta);
    }

    method ReadFields2(r: ReadWriter)
      modifies this`format, this`timestamp, this`timeDelta, this`exted, r`input, r`readError
      ensures (Blank(), r.Pending()) == ChunkSpec.ReadFields2(old(Blank()), old(r.Pending()))
    {
      hide In.ReadBE;
      format := 2;
      var t := r.ReadUintBE(3);
      timeDelta := ReadExtended(r, t);
      timestamp := Wrap(timestamp + timeDelta);
    }

    method ReadFields3(r: ReadWriter)
      modifies this`timestamp, r`input, r`readError
      ensures (Blank(), r.Pending()) == ChunkSpec.ReadFields3(old(Blank()), old(r.Pending()))
    {
      hide In.ReadBE;
      var t := if format == 0 then timestamp else timeDelta;
      if exted {
        t := r.ReadUintBE(4);
      }
      timestamp := if format == 0 then t else Wrap(timestamp + t);
    }

    method ReadFields(r: ReadWriter)
      requires tmpFormat < 4
      modifies this`format, this`timestamp, this`length, this`typeID, this`streamID, this`timeDelta, this`exted
      modifies r`input, r`readError
      ensures (Blank(), r.Pending()) == ChunkSpec.ReadFields(old(Blank()), tmpFormat, old(r.Pending()))
    {
      hide ChunkSpec.ReadFields0, ChunkSpec.ReadFields1, ChunkSpec.ReadFields2, ChunkSpec.ReadFields3;
      match tmpFormat {
        case 0 => ReadFields0(r);
        case 1 => ReadFields1(r);
        case 2 => ReadFields2(r);
        case _ => ReadFields3(r);
      }
    }

    /** Format 3 inside a message: a repeated extended time stamp is skipped. */
    method ContinueHeader(r: ReadWriter) returns (err: Option<Error>)
      modifies r`input, r`readError
      ensures forall c: Chunk | c.exted == exted && c.timestamp == timestamp ::
                var s := ChunkSpec.ContinueHeader(c, old(r.Pending()));
                r.Pending() == s.inp && match s case Fail(e, _) => err == Some(e) case Step(d, _) => err.None? && d == c
    {
      if exted {
        var t, ok := r.Peek4();
        if !ok {
          return Some(EndOfInput);
        }
        if t == timestamp {
          r.input := r.input[4..];
        }
      }
      return None;
    }

    method ReadHeader(r: ReadWriter, pool: Pool) returns (err: Option<Error>)
      requires Copy().Valid() && pool.Valid()
      requires remain != 0 ==> tmpFormat == 3
      modifies this, r`input, r`readError, pool
      ensures pool.Valid()
      ensures var s := ChunkSpec.ReadHeader(old(Copy().Stored()), old(tmpFormat), old(r.Pending()));
              && r.Pending() == s.inp
              && match s
                 case Fail(e, _) => err == Some(e) && unchanged(pool)
                 case Step(c, _) => err.None? && Copy().Valid() && Valid() && Value() == c
      ensures err.None? ==> index + remain == length == data.len
      ensures err.None? && old(remain) > 0 ==> got == old(got)
      ensures err.None? && old(remain) == 0 ==> !got
      ensures old(remain) > 0 ==> data == old(data) && index == old(index) && remain == old(remain) && unchanged(pool)
      ensures old(remain) == 0 && err.None? ==>
                && index == 0 && remain == data.len
                && FromPool(pool, data, old(pool.buf), old(pool.pos), old(pool.blocks))
                && fresh(pool.blocks - old(pool.blocks))
    {
      hide ChunkSpec.ReadFields, ChunkSpec.ContinueHeader;
      if tmpFormat >= 4 {
        return Some(InvalidFormat);
      }
      if remain > 0 {
        err := ContinueHeader(r);
        return;
      }
      ReadFields(r);
      if length > MAX_POOL_SIZE {
        return Some(Panic);
      }
      New(pool);
      return None;
    }
  
    /** The stream, the input and the error are what the step `s` says. */
    ghost predicate Computed(r: ReadWriter, err: Option<Error>, s: Step)
      reads this, data.buf, r
    {
      && r.Pending() == s.inp
      && match s
         case Fail(e, _) => err == Some(e)
         case Step(c, _) =>
           && err.None? && Valid() && Copy().Valid() && Value() == c
           && index + remain == length == data.len && got == (remain == 0)
    }

    method ReadCsid(r: ReadWriter)
      modifies this`csid, r`input, r`readError
      ensures (csid, r.Pending()) == ChunkSpec.ReadCsid(old(csid), old(r.Pending()))
    {
      if csid == 0 {
        var id := r.ReadUintLE(1);
        csid := id + 64;
      } else if csid == 1 {
        var id := r.ReadUintLE(2);
        csid := id + 64;
      }
    }

    method ReadPayload(r: ReadWriter, chunkSize: nat) returns (err: Option<Error>)
      requires Valid() && index + remain == length == data.len
      modifies this`index, this`remain, this`got, r`input, r`readError, data.buf
      ensures Valid()
      ensures data.SameOutside(old(data.buf[..]), old(index), data.len)
      ensures index + remain == length && (err.None? && !old(got) ==> got == (remain == 0))
      ensures var s := ChunkSpec.ReadPayload(old(Value()), chunkSize, old(r.Pending()));
              && r.Pending() == s.inp
              && match s
                 case Fail(e, _) => err == Some(e)
                 case Step(c, _) => err.None? && Value() == c
    {
      hide Slice.SameOutside, Slice.Bytes;
      ghost var was, inp, i0, received := data.buf[..], r.input, index, data.Bytes(0, index);
      data.BytesAre(index);
      var size := Min(remain, chunkSize);
      var ok := r.Read(data, index, size);
      ReadInto(was, i0, size);
      if !ok {
        return Some(EndOfInput);
      }
      index := index + size;
      remain := remain - size;
      if remain == 0 {
        got := true;
      }
      assert data.Bytes(0, index) == received + inp[..size];
      return None;
    }

    /** Bytes written behind the received part extend it and touch nothing else. */
    lemma ReadInto(was: seq<byte>, lo: nat, size: nat)
      requires data.Valid() && lo + size <= data.len && data.SameOutside(was, lo, lo + size)
      ensures data.SameOutside(was, lo, data.len)
      ensures data.Bytes(0, lo + size) == was[data.off..data.off + lo] + data.Bytes(lo, lo + size)
      ensures data.Bytes(0, lo) == was[data.off..data.off + lo]
    {
      data.WrittenBetween(was, lo, lo + size);
    }

    lemma NothingWritten()
      requires Copy().Valid()
      ensures remain > 0 ==>
                !got && index <= data.len && data.Valid() && data.SameOutside(data.buf[..], index, data.len)
    {
    }

    method ReadChunk(r: ReadWriter, chunkSize: nat, pool: Pool) returns (err: Option<Error>)
      requires Copy().Valid() && pool.Valid()
      modifies this, r`input, r`readError, pool, if remain > 0 then {data.buf} else {pool.buf}
      ensures pool.Valid()
      ensures Computed(r, err, ChunkSpec.ReadChunk(old(Copy().Stored()), old(tmpFormat), old(csid), chunkSize,
                                                   old(r.Pending())))
      // Inside a message only the missing part of its payload is written ...
      ensures old(remain) > 0 ==>
                && data == old(data) && unchanged(pool)
                && data.SameOutside(old(data.buf[..]), old(index), data.len)
      // ... and a new message is received into a slice of its own.
      ensures old(remain) == 0 ==>
                && old(pool.buf)[..old(pool.pos)] == old(pool.buf[..pool.pos])
                && Moved(pool, old(pool.buf), old(pool.pos), old(pool.blocks)) && fresh(pool.blocks - old(pool.blocks))
                && (err.None? ==> FromPool(pool, data, old(pool.buf), old(pool.pos), old(pool.blocks)))
    {
      hide ChunkSpec.ReadCsid, ChunkSpec.ReadBody, Pool.Valid, Slice.SameOutside, Fields.Valid, Fields.Stored, FromPool;
      NothingWritten();
      InBounds(pool);
      ghost var f := Copy();
      SameStored(f, csid);
      if remain != 0 && tmpFormat != 3 {
        return Some(InvalidRemain);
      }
      ReadCsid(r);
      SameStored(f, csid);
      err := ReadBody(r, chunkSize, pool);
    }

    /** The rest of a chunk, behind the basic header. */
    method ReadBody(r: ReadWriter, chunkSize: nat, pool: Pool) returns (err: Option<Error>)
      requires Copy().Valid() && pool.Valid() && (remain != 0 ==> tmpFormat == 3)
      modifies this, r`input, r`readError, pool, if remain > 0 then {data.buf} else {pool.buf}
      ensures pool.Valid()
      ensures Computed(r, err, ChunkSpec.ReadBody(old(Copy().Stored()), old(tmpFormat), chunkSize, old(r.Pending())))
      ensures old(remain) > 0 ==>
                && data == old(data) && unchanged(pool)
                && data.SameOutside(old(data.buf[..]), old(index), data.len)
      ensures old(remain) == 0 ==>
                && old(pool.buf)[..old(pool.pos)] == old(pool.buf[..pool.pos])
                && Moved(pool, old(pool.buf), old(pool.pos), old(pool.blocks)) && fresh(pool.blocks - old(pool.blocks))
                && (err.None? ==> FromPool(pool, data, old(pool.buf), old(pool.pos), old(pool.blocks)))
    {
      hide ChunkSpec.ReadHeader, ChunkSpec.ReadPayload, Pool.Valid, Slice.SameOutside, Fields.Valid, Fields.Stored;
      ghost var block, pos := pool.buf, pool.pos;
      InBounds(pool);
      NothingWritten();
      err := ReadHeader(r, pool);
      if err.None? {
        InBounds(pool);
        ghost var was, lo := data.buf[..], index;
        err := ReadPayload(r, chunkSize);
        if data.buf == block && pos <= data.off { data.FrontKept(was, lo, pos); }
      }
    }

    // ---- Writing ----

    method WriteBasicHeader(w: ReadWriter)
      requires format < 4
      modifies w`output
      ensures w.output == old(w.output) + BasicHeader(format, csid)
    {
      hide BE, LE;
      var h := format * 64;
      if csid < 64 {
        w.WriteUintBE(h + csid, 1);
      } else if csid - 64 < 256 {
        w.WriteUintBE(h, 1);
        w.WriteUintLE(csid - 64, 1);
      } else if csid - 64 < 65536 {
        w.WriteUintBE(h + 1, 1);
        w.WriteUintLE(csid - 64, 2);
      }
    }

    /** Fails for a message too long for the length field; something has been written by then. */
    method WriteHeader(w: ReadWriter) returns (ok: bool)
      requires Valid() && format < 4 && data.len == length
      modifies w`output
      ensures ok == (format >= 2 || length <= 0xffffff)
      ensures ok ==> w.output == old(w.output) + Header(format, Message())
    {
      hide BasicHeader, MessageHeader;
      WriteBasicHeader(w);
      ok := WriteMessageHeader(w, Message());
    }

    method WriteMessageHeader(w: ReadWriter, ghost m: Msg) returns (ok: bool)
      requires format < 4 && |m.data| == length
      requires m.timestamp == timestamp && m.typeID == typeID && m.streamID == streamID
      modifies w`output
      ensures ok == (format >= 2 || length <= 0xffffff)
      ensures ok ==> w.output == old(w.output) + MessageHeader(format, m)
    {
      hide BE, LE;
      ghost var o := w.output;
      var ts := timestamp;
      ghost var h: seq<byte> := [];
      if format != 3 {
        if timestamp > 0xffffff {
          ts := 0xffffff;
        }
        w.WriteUintBE(ts, 3);
        h := BE(Min(timestamp, EXTENDED), 3);
        assert w.output == o + h;
        if format != 2 {
          if length > 0xffffff {
            return false;
          }
          w.WriteUintBE(length, 3);
          w.WriteUintBE(typeID, 1);
          h := h + (BE(length, 3) + BE(typeID, 1));
          assert w.output == o + h;
          if format != 1 {
            w.WriteUintLE(streamID, 4);
            h := h + LE(streamID, 4);
            assert w.output == o + h;
          }
        }
      }
      if ts >= 0xffffff {
        w.WriteUintBE(timestamp, 4);
      }
      assert w.output == o + (h + ExtendedField(m));
      assert h + ExtendedField(m) == MessageHeader(format, m);
      return true;
    }

    /** The chunk that starts at offset `start` of the payload. */
    method WritePiece(w: ReadWriter, start: nat, chunkSize: nat) returns (ok: bool, inc: nat)
      requires Valid() && data.len == length && start < length && chunkSize > 0
      requires format == if start == 0 then 0 else 3
      modifies w`output
      ensures ok == (start > 0 || length <= 0xffffff)
      ensures ok ==> inc == PieceLength(Message(), start, chunkSize)
                     && w.output == old(w.output) + ChunkBytes(Message(), start, chunkSize)
    {
      hide Header, Route;
      ghost var m, o := Message(), w.output;
      inc := chunkSize;
      if data.len - start <= inc {
        inc := data.len - start;
      }
      var piece := data.Bytes(start, start + inc);
      data.BytesPart(start, start + inc);
      ok := WriteHeader(w);
      if ok {
        w.Write(piece);
        assert w.output == o + (Header(format, m) + piece);
      }
    }

    method WriteChunk(w: ReadWriter, chunkSize: nat) returns (ok: bool)
      requires Valid() && data.len == length && chunkSize > 0
      modifies this`csid, this`format, w`output
      ensures Message() == Route(old(Message()))
      ensures ok == (length <= 0xffffff)
      ensures ok ==> w.output == old(w.output) + Encode(old(Message()), chunkSize)
    {
      if typeID == TAG_AUDIO {
        csid := 4;
      } else if typeID == TAG_VIDEO || typeID == TAG_SCRIPT_AMF0 || typeID == TAG_SCRIPT_AMF3 {
        csid := 6;
      }
      ok := WriteRouted(w, chunkSize);
    }

    method WriteRouted(w: ReadWriter, chunkSize: nat) returns (ok: bool)
      requires Valid() && data.len == length && chunkSize > 0
      modifies this`format, w`output
      ensures ok == (length <= 0xffffff)
      ensures ok ==> w.output == old(w.output) + ChunksFrom(Message(), 0, chunkSize)
    {
      hide ChunkBytes, Offset;
      ghost var m, o := Message(), w.output;
      var totalLen := 0;
      var numChunks := length / chunkSize;
      var i := 0;
      OffsetZero(chunkSize);
      while i <= numChunks && totalLen != length
        invariant totalLen == Min(Offset(i, chunkSize), length)
        invariant Message() == m
        invariant i > 0 ==> length <= 0xffffff
        invariant w.output + ChunksFrom(m, totalLen, chunkSize) == o + ChunksFrom(m, 0, chunkSize)
        decreases numChunks + 1 - i
      {
        format := if i == 0 then 0 else 3;
        OffsetNext(i, chunkSize);
        var inc;
        ok, inc := WritePiece(w, Offset(i, chunkSize), chunkSize);
        if !ok {
          return;
        }
        totalLen := totalLen + inc;
        i := i + 1;
      }
      OffsetCovers(length, chunkSize, i);
      ok := true;
    }
  }

  /** Where chunk `i` of a message starts. */
  function Offset(i: nat, size: nat): nat {
    i * size
  }

  lemma OffsetZero(size: nat)
    ensures Offset(0, size) == 0
  {
  }

  lemma OffsetNext(i: nat, size: nat)
    requires size > 0
    ensures (Offset(i, size) == 0 <==> i == 0) && Offset(i + 1, size) == Offset(i, size) + size
  {
  }

  lemma OffsetCovers(length: nat, size: nat, i: nat)
    requires size > 0
    ensures i > length / size ==> Offset(i, size) > length
  {
    if i > length / size {
      MulMono(size, length / size + 1, i);
    }
  }

  /** The id in the stream is overwritten before it is used. */
  lemma CsidIrrelevant(cs: Chunk, key: nat, fmt: nat, size: nat, inp: In)
    ensures ChunkSpec.ReadChunk(cs.(csid := key), fmt, key, size, inp) == ChunkSpec.ReadChunk(cs, fmt, key, size, inp)
  {
  }

  lemma InBounds(pool: Pool)
    requires pool.Valid()
    ensures pool.pos <= pool.buf.Length && pool.buf in pool.blocks
  {
  }

  lemma TouchPut(r: Reader, key: nat, cs: Chunk)
    ensures r.Touch(key).Put(key, cs) == r.Put(key, cs)
  {
  }

  // ---- The connection ----------------------------------------------------

  /** `c` is the value of the stored stream `f`. */
  ghost predicate ValueOk(f: Fields, c: Chunk, blocks: set<array<byte>>)
    reads blocks
  {
    && f.Valid() && (f.remain > 0 ==> f.data.buf in blocks)
    && c == f.Stored()
  }

  ghost predicate ValuesOf(chunks: map<nat, Fields>, stored: map<nat, Chunk>, blocks: set<array<byte>>)
    reads blocks
  {
    stored.Keys == chunks.Keys && forall k <- chunks :: ValueOk(chunks[k], stored[k], blocks)
  }

  lemma PutValues(chunks: map<nat, Fields>, stored: map<nat, Chunk>, blocks: set<array<byte>>, key: nat, f: Fields)
    requires ValuesOf(chunks, stored, blocks) && f.Valid() && (f.remain > 0 ==> f.data.buf in blocks)
    ensures ValuesOf(chunks[key := f], stored[key := f.Stored()], blocks)
  {
    hide Fields.Valid, Fields.Stored;
  }

  ghost predicate ClearOf(chunks: map<nat, Fields>, delivered: set<Slice>, d: Slice, key: nat) {
    && (forall k <- chunks :: k != key && chunks[k].remain > 0 ==> Disjoint(chunks[k].data, d))
    && (forall e <- delivered :: Disjoint(e, d))
  }

  ghost predicate NoOverlapOf(chunks: map<nat, Fields>, delivered: set<Slice>) {
    forall k <- chunks :: chunks[k].remain > 0 ==> ClearOf(chunks, delivered, chunks[k].data, k)
  }

  lemma PutNoOverlap(chunks: map<nat, Fields>, delivered: set<Slice>, key: nat, f: Fields)
    requires NoOverlapOf(chunks, delivered) && (f.remain > 0 ==> ClearOf(chunks, delivered, f.data, key))
    ensures NoOverlapOf(chunks[key := f], delivered)
  {
    hide Disjoint;
    var after := chunks[key := f];
    forall k <- after | after[k].remain > 0
      ensures ClearOf(after, delivered, after[k].data, k)
    {
      if f.remain > 0 && k != key { DisjointSym(after[k].data, f.data); }
    }
  }

  class Conn {
    var chunkSize: nat
    var remoteChunkSize: nat
    var windowAckSize: nat
    var remoteWindowAckSize: nat
    var received: nat
    var ackReceived: nat
    const rw: ReadWriter
    const pool: Pool
    var chunks: map<nat, Fields>
    /** The payloads of the messages read so far. */
    ghost var delivered: set<Slice>
    /** The value of every stored chunk stream. */
    ghost var stored: map<nat, Chunk>

    constructor (rw: ReadWriter)
      ensures Valid() && this.rw == rw && fresh(pool) && fresh(pool.blocks) && delivered == {}
      ensures Reader() == ChunkSpec.Reader(map[], 128, 2500000, 0, 0) && chunkSize == 128
    {
      chunkSize, remoteChunkSize := 128, 128;
      windowAckSize, remoteWindowAckSize := 2500000, 2500000;
      received, ackReceived := 0, 0;
      this.rw := rw;
      pool := new Pool();
      chunks, delivered, stored := map[], {}, map[];
    }

    ghost function Reader(): ChunkSpec.Reader
      reads this
    {
      ChunkSpec.Reader(stored, remoteChunkSize, remoteWindowAckSize, received, ackReceived)
    }

    /** Every payload in use lies in the used part of its block. */
    ghost predicate InPlace()
      reads this, pool
    {
      && pool.Valid() && pool.buf in pool.blocks
      && (forall k <- chunks :: chunks[k].Valid())
      && (forall k <- chunks :: chunks[k].remain > 0 ==> pool.Below(chunks[k].data))
      && (forall d <- delivered :: pool.Below(d))
    }

    /** `d` overlaps no delivered payload and no unfinished one but possibly that of `key`. */
    ghost predicate Clear(d: Slice, key: nat)
      reads this
    {
      ClearOf(chunks, delivered, d, key)
    }

    ghost predicate NoOverlap()
      reads this
    {
      NoOverlapOf(chunks, delivered)
    }

    ghost predicate Values()
      reads this, pool, pool.blocks
    {
      ValuesOf(chunks, stored, pool.blocks)
    }

    ghost predicate Valid()
      reads this, pool, pool.blocks
    {
      chunkSize > 0 && InPlace() && NoOverlap() && Values()
    }

    /** `d` overlaps no payload in use and no free part of the pool. */
    ghost predicate Apart(d: Slice)
      reads this, pool
    {
      && pool.Below(d)
      && (forall k <- chunks :: chunks[k].remain > 0 ==> Disjoint(chunks[k].data, d))
      && (forall e <- delivered :: Disjoint(e, d))
    }

    /** A slice keeps its bytes when the only writes go to one it does not overlap. */
    static lemma KeptOutside(t: Slice, d: Slice, lo: nat, was: seq<byte>, n: nat)
      requires t.Valid() && d.Valid() && lo <= d.len && t.buf == d.buf && n <= t.len
      requires Disjoint(t, d) && d.SameOutside(was, lo, d.len)
      ensures t.buf[t.off..t.off + n] == was[t.off..t.off + n]
    {
      if t.off + t.len <= d.off {
        SameFront(t.buf[..], was, d.off + lo, t.off, t.off + n);
      } else {
        SameBack(t.buf[..], was, d.off + d.len, t.off, t.off + n);
      }
    }

    /** A slice keeps its bytes when it lies in the used part of a block and the writes do not. */
    static lemma KeptBelow(t: Slice, used: seq<byte>, n: nat)
      requires t.Valid() && n <= t.len && t.off + t.len <= |used| <= t.buf.Length && t.buf[..|used|] == used
      ensures t.buf[t.off..t.off + n] == used[t.off..t.off + n]
    {
      SameFront(t.buf[..], used, |used|, t.off, t.off + n);
    }

    /** An unfinished payload other than that of `key`. */
    ghost predicate Busy(k: nat, key: nat)
      reads this
    {
      k in chunks && k != key && chunks[k].remain > 0
    }

    /** What every block holds. */
    ghost function Memory(): map<array<byte>, seq<byte>>
      reads pool, pool.blocks
    {
      map b | b in pool.blocks :: b[..]
    }

    lemma MemoryHolds()
      requires InPlace()
      ensures forall t <- delivered :: Same(t, t.len, Memory())
      ensures forall k <- chunks :: chunks[k].remain > 0 ==> Same(chunks[k].data, chunks[k].index, Memory())
    {
      hide Pool.Valid;
    }

    /** `t` holds in its first `n` bytes what `before` has there. */
    static ghost predicate Same(t: Slice, n: nat, before: map<array<byte>, seq<byte>>)
      reads t.buf
    {
      && t.Valid() && n <= t.len && t.buf in before && |before[t.buf]| == t.buf.Length
      && t.Bytes(0, n) == before[t.buf][t.off..t.off + n]
    }

    /** What `t` holds is what it held when only the part of `d` from `lo` on has been written. */
    static lemma SameApart(t: Slice, n: nat, before: map<array<byte>, seq<byte>>, d: Slice, lo: nat)
      requires t.Valid() && n <= t.len && t.buf in before && d.Valid() && d.buf in before && lo <= d.len
      requires Disjoint(t, d) && d.SameOutside(before[d.buf], lo, d.len)
      requires t.buf != d.buf ==> t.buf[..] == before[t.buf]
      ensures Same(t, n, before)
    {
      if t.buf == d.buf { KeptOutside(t, d, lo, before[d.buf], n); }
    }

    /** The same when only the part of `block` from `pos` on has been written. */
    static lemma SameBelow(t: Slice, n: nat, before: map<array<byte>, seq<byte>>, block: array<byte>, pos: nat)
      requires t.Valid() && n <= t.len && t.buf in before && block in before && pos <= block.Length == |before[block]|
      requires t.buf == block ==> t.off + t.len <= pos
      requires block[..pos] == before[block][..pos]
      requires t.buf != block ==> t.buf[..] == before[t.buf]
      ensures Same(t, n, before)
    {
      if t.buf == block { KeptBelow(t, before[block][..pos], n); }
    }

    /** When only the part of `d` from `lo` on has been written, every payload apart from `d` is what it was. */
    lemma Untouched(before: map<array<byte>, seq<byte>>, d: Slice, lo: nat, key: nat)
      requires InPlace() && pool.Below(d) && lo <= d.len
      requires before.Keys == pool.blocks && d.SameOutside(before[d.buf], lo, d.len)
      requires forall b <- pool.blocks :: b != d.buf ==> b[..] == before[b]
      requires Clear(d, key)
      ensures forall t <- delivered :: Same(t, t.len, before)
      ensures forall k <- chunks :: Busy(k, key) ==> Same(chunks[k].data, chunks[k].index, before)
    {
      hide Same, Slice.SameOutside, Disjoint, Pool.Valid;
      forall t <- delivered
        ensures Same(t, t.len, before)
      {
        SameApart(t, t.len, before, d, lo);
      }
      forall k <- chunks | Busy(k, key)
        ensures Same(chunks[k].data, chunks[k].index, before)
      {
        SameApart(chunks[k].data, chunks[k].index, before, d, lo);
      }
    }

    /** `t` lies in a block that `before` has, and in `block` below `pos`. */
    static ghost predicate Under(t: Slice, before: map<array<byte>, seq<byte>>, block: array<byte>, pos: nat) {
      t.Valid() && t.buf in before && (t.buf == block ==> t.off + t.len <= pos)
    }

    /** When only the part of `block` from `pos` on has been written, every payload below is what it was. */
    lemma UntouchedBelow(before: map<array<byte>, seq<byte>>, block: array<byte>, pos: nat, key: nat)
      requires block in before && pos <= block.Length == |before[block]| && block[..pos] == before[block][..pos]
      requires forall b <- before :: b != block ==> b[..] == before[b]
      requires forall t <- delivered :: Under(t, before, block, pos)
      requires forall k <- chunks :: Busy(k, key) ==>
                 chunks[k].index <= chunks[k].data.len && Under(chunks[k].data, before, block, pos)
      ensures forall t <- delivered :: Same(t, t.len, before)
      ensures forall k <- chunks :: Busy(k, key) ==> Same(chunks[k].data, chunks[k].index, before)
    {
      hide Same;
      forall t <- delivered
        ensures Same(t, t.len, before)
      {
        SameBelow(t, t.len, before, block, pos);
      }
      forall k <- chunks | Busy(k, key)
        ensures Same(chunks[k].data, chunks[k].index, before)
      {
        SameBelow(chunks[k].data, chunks[k].index, before, block, pos);
      }
    }

    /** The next chunk of an unfinished message writes to the payload of that message only. */
    method ReceiveRest(cs: ChunkStream, key: nat) returns (err: Option<Error>)
      requires InPlace() && cs.Copy().Valid()
      requires cs.remain > 0 && pool.Below(cs.data) && Clear(cs.data, key)
      modifies cs, rw`input, rw`readError, pool, cs.data.buf
      ensures unchanged(pool) && cs.data == old(cs.data)
      ensures cs.Computed(rw, err, ChunkSpec.ReadChunk(old(cs.Copy().Stored()), old(cs.tmpFormat), old(cs.csid),
                                                       remoteChunkSize, old(rw.Pending())))
      ensures old(cs.Copy()).Stored() == old(cs.Copy().Stored())
      ensures forall d <- delivered :: d.Bytes(0, d.len) == old(d.Bytes(0, d.len))
      ensures forall k <- chunks :: Busy(k, key) ==> chunks[k].Stored() == old(chunks[k].Stored())
    {
      hide ChunkSpec.ReadChunk, ChunkStream.Computed, Pool.Valid, Slice.SameOutside, Disjoint, Clear;
      ghost var d, lo, before := cs.data, cs.index, Memory();
      err := cs.ReadChunk(rw, remoteChunkSize, pool);
      d.WrittenBetween(before[d.buf], lo, d.len);
      Untouched(before, d, lo, key);
    }

    /** The first chunk of a message writes to a slice of its own. */
    method ReceiveFirst(cs: ChunkStream, key: nat) returns (err: Option<Error>)
      requires InPlace() && cs.Copy().Valid() && cs.remain == 0
      modifies cs, rw`input, rw`readError, pool, pool.buf
      ensures cs.Computed(rw, err, ChunkSpec.ReadChunk(old(cs.Copy().Stored()), old(cs.tmpFormat), old(cs.csid),
                                                       remoteChunkSize, old(rw.Pending())))
      ensures InPlace() && old(pool.blocks) <= pool.blocks && fresh(pool.blocks - old(pool.blocks))
      ensures forall d <- delivered :: d.Bytes(0, d.len) == old(d.Bytes(0, d.len))
      ensures forall k <- chunks :: Busy(k, key) ==> chunks[k].Stored() == old(chunks[k].Stored())
      ensures err.None? ==> pool.Below(cs.data) && Clear(cs.data, key)
    {
      hide ChunkSpec.ReadChunk, ChunkStream.Computed, Pool.Valid;
      assert forall k <- chunks :: Busy(k, key) ==> pool.Below(chunks[k].data) && chunks[k].index <= chunks[k].data.len;
      ghost var block, pos, before := pool.buf, pool.pos, Memory();
      MemoryHolds();
      InBounds(pool);
      err := cs.ReadChunk(rw, remoteChunkSize, pool);
      InBounds(pool);
      UntouchedBelow(before, block, pos, key);
    }

    method Put(key: nat, f: Fields)
      requires Valid() && f.Valid()
      requires f.remain > 0 ==> pool.Below(f.data) && Clear(f.data, key)
      modifies this`chunks, this`stored
      ensures Valid() && chunks == old(chunks)[key := f] && stored == old(stored)[key := f.Stored()]
    {
      hide Pool.Valid, Fields.Valid, Fields.Stored, Pool.Below, ClearOf, NoOverlapOf, ValuesOf;
      assert f.remain > 0 ==> f.data.buf in pool.blocks by { BelowBlock(pool, f.data); }
      PutNoOverlap(chunks, delivered, key, f);
      PutValues(chunks, stored, pool.blocks, key, f);
      chunks := chunks[key := f];
      stored := stored[key := f.Stored()];
    }

    static lemma BelowBlock(pool: Pool, s: Slice)
      ensures pool.Below(s) ==> s.buf in pool.blocks
    {
    }

    lemma SameKeys()
      requires Valid()
      ensures stored.Keys == chunks.Keys
    {
    }

    lemma StoredAs(key: nat)
      requires Valid() && key in chunks
      ensures key in stored && chunks[key].Valid() && stored[key] == chunks[key].Stored()
    {
      assert ValueOk(chunks[key], stored[key], pool.blocks);
    }

    static lemma NoFieldsHold(block: array<byte>)
      ensures NoFields(block).Valid() && NoFields(block).Stored() == ZERO_CHUNK
    {
    }

    /** A copy of the stored stream, or of the zero value, which is stored first, about to read a chunk. */
    method Open(key: nat, format: nat) returns (cs: ChunkStream)
      requires Valid()
      modifies this`chunks, this`stored
      ensures Valid() && fresh(cs) && key in chunks && cs.Copy() == chunks[key].(csid := key) && cs.Copy().Valid()
      ensures Reader() == old(Reader()).Touch(key)
      ensures ChunkSpec.ReadChunk(cs.Copy().Stored(), cs.tmpFormat, cs.csid, remoteChunkSize, rw.Pending())
           == ChunkSpec.ReadChunk(old(Reader()).Get(key), format, key, remoteChunkSize, rw.Pending())
    {
      hide Valid, Clear, Fields.Valid, Fields.Stored, ChunkSpec.ReadChunk;
      SameKeys();
      if key !in chunks {
        NoFieldsHold(pool.buf);
        Put(key, NoFields(pool.buf));
        NoFieldsHold(pool.buf);
      } else {
        assert stored == stored[key := stored[key]];
      }
      cs := new ChunkStream(chunks[key]);
      cs.tmpFormat := format;
      cs.csid := key;
      StoredAs(key);
      SameStored(chunks[key], key);
      CsidIrrelevant(chunks[key].Stored(), key, format, remoteChunkSize, rw.Pending());
    }

    method Fill(cs: ChunkStream, key: nat) returns (err: Option<Error>)
      requires Valid() && key in chunks && cs.Copy() == chunks[key].(csid := key)
      modifies cs, rw`input, rw`readError, pool, pool.blocks
      ensures Valid() && fresh(pool.blocks - old(pool.blocks))
      ensures cs.Computed(rw, err, ChunkSpec.ReadChunk(old(cs.Copy().Stored()), old(cs.tmpFormat), old(cs.csid),
                                                       remoteChunkSize, old(rw.Pending())))
      ensures forall d <- delivered :: d.Bytes(0, d.len) == old(d.Bytes(0, d.len))
      ensures err.None? ==> pool.Below(cs.data) && Clear(cs.data, key)
    {
      hide ChunkSpec.ReadChunk, Pool.Valid, ChunkStream.Computed, Fields.Stored, Fields.Valid, ClearOf;
      assert forall k <- chunks :: ValueOk(chunks[k], stored[k], pool.blocks);
      assert chunks[key].remain > 0 ==> Clear(chunks[key].data, key);
      SameStored(chunks[key], key);
      if cs.remain > 0 {
        err := ReceiveRest(cs, key);
      } else {
        err := ReceiveFirst(cs, key);
      }
      SameStored(chunks[key], key);
      forall k <- chunks
        ensures ValueOk(chunks[k], stored[k], pool.blocks)
      {
        assert k != key && chunks[k].remain > 0 ==> Busy(k, key);
      }
    }

    method Store(cs: ChunkStream, key: nat)
      requires Valid() && key in chunks && cs.Valid() && cs.Copy().Valid()
      requires pool.Below(cs.data) && Clear(cs.data, key)
      modifies this`chunks, this`stored
      ensures Valid() && Reader() == old(Reader()).Put(key, cs.Value())
      ensures cs.remain == 0 ==> Apart(cs.data)
    {
      hide Valid, Disjoint, Pool.Below;
      Put(key, cs.Copy());
    }

    /** One turn of the loop in `Read`: one chunk. */
    method Turn() returns (err: Option<Error>, cs: ChunkStream)
      requires Valid()
      modifies this`chunks, this`stored, rw`input, rw`readError, pool, pool.blocks
      ensures Valid() && fresh(cs) && fresh(pool.blocks - old(pool.blocks))
      ensures var (key, s) := NextChunk(old(Reader()), old(rw.Pending()));
              && cs.Computed(rw, err, s)
              && (err.Some? ==> Reader() == old(Reader()).Touch(key))
              && (err.None? ==> Reader() == old(Reader()).Put(key, s.cs))
      ensures forall d <- delivered :: d.Bytes(0, d.len) == old(d.Bytes(0, d.len))
      ensures err.None? && cs.got ==> Apart(cs.data)
    {
      hide ChunkSpec.ReadChunk, Valid, Apart, Clear, Fields.Valid, Fields.Stored, Pool.Below;
      hide ChunkSpec.Reader.Get, ChunkSpec.Reader.Put, ChunkSpec.Reader.Touch;
      ghost var r := Reader();
      var h := rw.ReadUintBE(1);
      cs := Open(h % 64, h / 64);
      err := Fill(cs, h % 64);
      if err.None? {
        TouchPut(r, h % 64, cs.Value());
        Store(cs, h % 64);
      }
    }
  
    /** The payload as bytes, once it is whole. */
    ghost function Payload(c: ChunkStream): seq<byte>
      requires c.Valid()
      reads c, c.data.buf
    {
      c.data.Bytes(0, c.index)
    }

    method HandleControlMsg(c: ChunkStream) returns (ok: bool)
      requires c.Valid() && c.index == c.data.len
      modifies this`remoteChunkSize, this`remoteWindowAckSize
      ensures var r := ChunkSpec.HandleControl(old(Reader()), c.Value());
              ok == r.Some? && (if ok then Reader() == r.value else Reader() == old(Reader()))
    {
      ok := true;
      if c.typeID == SET_CHUNK_SIZE || c.typeID == WINDOW_ACK_SIZE {
        if c.data.len < 4 {
          return false;
        }
        var announced := FromBE(c.data.Bytes(0, 4));
        assert c.data.Bytes(0, 4) == c.Value().data[..4];
        if c.typeID == SET_CHUNK_SIZE {
          remoteChunkSize := announced;
        } else {
          remoteWindowAckSize := announced;
        }
      }
    }

    static method InitControlMsg(id: nat, size: nat, value: uint32) returns (c: ChunkStream)
      requires size >= 4
      ensures fresh(c) && fresh(c.data.buf) && c.Valid() && c.data.len == c.length == size && c.typeID == id
      ensures c.Message() == Msg(2, 0, id, 0, BE(value, 4) + seq(size - 4, _ => 0))
    {
      var digits, buf := BE(value, 4), new byte[size](_ => 0);
      forall i | 0 <= i < 4 {
        buf[i] := digits[i];
      }
      c := new ChunkStream(Fields(0, 2, 0, size, id, 0, 0, false, 0, 0, false, Slice(buf, 0, size)));
      assert c.Message().data == digits + seq(size - 4, _ => 0);
    }

    method NewAck(size: uint32) returns (c: ChunkStream)
      ensures fresh(c) && c.Valid() && c.data.len == c.length == 4 && c.Message() == AckMessage(size)
    {
      c := InitControlMsg(ACK, 4, size);
      assert BE(size, 4) + [] == BE(size, 4);
    }

    method NewSetChunkSize(size: uint32) returns (c: ChunkStream)
      ensures fresh(c) && c.Valid() && c.data.len == c.length == 4
      ensures c.Message() == SetChunkSizeMsg(size)
    {
      c := InitControlMsg(SET_CHUNK_SIZE, 4, size);
      assert BE(size, 4) + [] == BE(size, 4);
    }

    method Acknowledge(size: nat)
      requires chunkSize > 0
      modifies this`received, this`ackReceived, rw`output
      ensures var (r, ack) := ChunkSpec.Ack(old(Reader()), size);
              && Reader() == r
              && rw.output == old(rw.output) + AckBytes(ack, chunkSize)
    {
      received := Wrap(received + size);
      ackReceived := Wrap(ackReceived + size);
      if received >= RECEIVED_LIMIT {
        received := 0;
      }
      if ackReceived >= remoteWindowAckSize {
        var cs := NewAck(ackReceived);
        var _ := cs.WriteChunk(rw, chunkSize);
        ackReceived := 0;
      }
    }

    /** The bytes by which a value is acknowledged. */
    static ghost function AckBytes(ack: Option<nat>, size: nat): seq<byte>
      requires size > 0
    {
      if ack.Some? then Encode(AckMessage(ack.value), size) else []
    }

    /** A delivered payload stays apart from everything in use. */
    ghost method Deliver(d: Slice)
      requires Valid() && Apart(d)
      modifies this`delivered
      ensures Valid() && delivered == old(delivered) + {d}
    {
      hide Pool.Valid, Disjoint, Fields.Valid, Pool.Below, Fields.Stored;
      forall k <- chunks | chunks[k].remain > 0
        ensures Disjoint(d, chunks[k].data)
      {
        DisjointSym(chunks[k].data, d);
      }
      delivered := delivered + {d};
      assert forall k <- chunks :: chunks[k].remain > 0 ==> old(Clear(chunks[k].data, k));
      assert forall k <- chunks :: old(ValueOk(chunks[k], stored[k], pool.blocks));
    }

    /** The outcome of reading a message. */
    ghost predicate Outcome(c: ChunkStream, err: Option<Error>, res: MsgResult, was: set<Slice>, output: seq<byte>)
      requires chunkSize > 0
      reads this, rw, c, c.data.buf
    {
      match res
      case Failed(e, r, i) =>
        && err == Some(e) && Reader() == r && rw.Pending() == i
        && delivered == was && rw.output == output
      case Message(m, r, i, ack) =>
        && err.None? && c.Valid() && c.Value() == m && c.index == c.data.len
        && Reader() == r && rw.Pending() == i
        && rw.output == output + AckBytes(ack, chunkSize)
        && delivered == was + {c.data} && (forall d <- was :: Disjoint(d, c.data))
    }

    /** The end of `Read`: the message is whole. */
    method Complete(c: ChunkStream) returns (err: Option<Error>)
      requires Valid() && c.Valid() && c.index == c.data.len && Apart(c.data)
      modifies this, rw`output
      ensures Valid() && chunkSize == old(chunkSize)
      ensures Outcome(c, err, Finish(old(Reader()), old(c.Value()), old(rw.Pending())), old(delivered), old(rw.output))
    {
      hide Pool.Valid, Disjoint, Fields.Valid, Pool.Below, Fields.Stored, AckBytes, ChunkSpec.HandleControl;
      var ok := HandleControlMsg(c);
      if !ok {
        return Some(Panic);
      }
      Acknowledge(c.length);
      Deliver(c.data);
      return None;
    }

    /**
     Reads the next message, as `ReadMsg` says; the payloads of all messages
     delivered before keep their bytes, and the new one overlaps none of them.
     */
    method Read(c: ChunkStream) returns (err: Option<Error>)
      requires Valid()
      modifies this, rw, pool, pool.blocks, c
      ensures Valid() && chunkSize == old(chunkSize) && fresh(pool.blocks - old(pool.blocks))
      ensures forall d <- old(delivered) :: d.Bytes(0, d.len) == old(d.Bytes(0, d.len))
      ensures Outcome(c, err, ReadMsg(old(Reader()), old(rw.Pending())), old(delivered), old(rw.output))
    {
      hide NextChunk, Valid, Finish, Apart, Fields.Valid, Fields.Stored;
      ghost var r0, i0, size := Reader(), rw.Pending(), chunkSize;
      var cs;
      assert AllValid() by { ValidSlices(); }
      while true
        invariant Valid() && chunkSize == size && fresh(pool.blocks - old(pool.blocks))
        invariant ReadMsg(Reader(), rw.Pending()) == ReadMsg(r0, i0)
        invariant delivered == old(delivered) && rw.output == old(rw.output) && AllValid()
        invariant forall d <- delivered :: d.Bytes(0, d.len) == old(d.Bytes(0, d.len))
        decreases |rw.input|
      {
        err, cs := Turn();
        if err.Some? {
          return;
        }
        if cs.got {
          break;
        }
      }
      c.Assign(cs.Copy());
      err := Complete(c);
    }

    ghost predicate AllValid()
      reads this
    {
      forall d <- delivered :: d.Valid()
    }

    lemma ValidSlices()
      requires Valid()
      ensures chunkSize > 0 && AllValid()
    {
    }
  
    /**
     Sends a message; a Set Chunk Size message takes effect before it is cut
     itself. Fails for a message too long for the length field.
     */
    method Write(c: ChunkStream) returns (ok: bool)
      requires Valid() && c.Valid() && c.data.len == c.length && Writable(c.Message())
      modifies this`chunkSize, c`csid, c`format, rw`output
      ensures Valid() && Reader() == old(Reader()) && delivered == old(delivered)
      ensures chunkSize == SizeAfter(old(c.Message()), old(chunkSize)) && c.Message() == Route(old(c.Message()))
      ensures ok == (c.length <= 0xffffff)
      ensures ok ==> rw.output == old(rw.output) + Encode(old(c.Message()), chunkSize)
    {
      hide ChunksFrom, Route, Pool.Valid, Pool.Below, Disjoint, Fields.Stored;
      ghost var m := c.Message();
      if c.typeID == SET_CHUNK_SIZE {
        c.data.BytesPart(0, 4);
        chunkSize := FromBE(c.data.Bytes(0, 4));
      }
      assert c.Message() == m;
      ok := c.WriteChunk(rw, chunkSize);
    }
  }
}
