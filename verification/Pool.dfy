/** Payload buffers: slices of a shared block, handed out by a bump allocator. */
module Pools {
  import opened Bytes
  import opened ChunkSpec

  /** A Go byte slice: `len` bytes of a block, from `off` on. */
  datatype Slice = Slice(buf: array<byte>, off: nat, len: nat) {

    ghost predicate Valid() {
      off + len <= buf.Length
    }

    function Bytes(lo: nat, hi: nat): seq<byte>
      requires Valid() && lo <= hi <= len
      reads buf
    {
      buf[off + lo..off + hi]
    }

    /** Nothing but the positions `lo..hi` of the slice differs from the block `was`. */
    ghost predicate SameOutside(was: seq<byte>, lo: nat, hi: nat)
      requires Valid() && lo <= hi <= len
      reads buf
    {
      && |was| == buf.Length
      && buf[..off + lo] == was[..off + lo]
      && buf[off + hi..] == was[off + hi..]
    }

    lemma BytesAre(n: nat)
      requires Valid() && n <= len
      ensures Bytes(0, n) == buf[..][off..off + n]
    {
    }

    lemma BytesPart(lo: nat, hi: nat)
      requires Valid() && lo <= hi <= len
      ensures Bytes(lo, hi) == Bytes(0, len)[lo..hi]
    {
      forall i | 0 <= i < hi - lo
        ensures Bytes(lo, hi)[i] == Bytes(0, len)[lo..hi][i]
      {
        assert buf[off + lo..off + hi][i] == buf[off + lo + i] == buf[off..off + len][lo + i];
      }
    }

    /** What a write between `lo` and `hi` leaves alone. */
    lemma WrittenBetween(was: seq<byte>, lo: nat, hi: nat)
      requires Valid() && lo <= hi <= len && SameOutside(was, lo, hi)
      ensures SameOutside(was, lo, len)
      ensures Bytes(0, lo) == was[off..off + lo]
      ensures Bytes(0, hi) == Bytes(0, lo) + Bytes(lo, hi)
    {
      SameFront(buf[..], was, off + lo, off, off + lo);
      SameBack(buf[..], was, off + hi, off + len, buf.Length);
    }

    /** What lies in front of the slice is untouched. */
    lemma FrontKept(was: seq<byte>, lo: nat, n: nat)
      requires Valid() && lo <= len && n <= off && SameOutside(was, lo, len)
      ensures buf[..n] == was[..n]
    {
      SameFront(buf[..], was, off + lo, 0, n);
    }

    method Store(start: nat, bytes: seq<byte>)
      requires Valid() && start + |bytes| <= len
      modifies buf
      ensures Bytes(start, start + |bytes|) == bytes
      ensures SameOutside(old(buf[..]), start, start + |bytes|)
    {
      forall i | 0 <= i < |bytes| {
        buf[off + start + i] := bytes[i];
      }
    }
  }

  /** No position belongs to both slices. */
  ghost predicate Disjoint(s: Slice, t: Slice) {
    s.buf != t.buf || s.off + s.len <= t.off || t.off + t.len <= s.off
  }

  lemma DisjointSym(s: Slice, t: Slice)
    requires Disjoint(s, t)
    ensures Disjoint(t, s)
  {
  }

  class Pool {
    var pos: nat
    var buf: array<byte>
    /** Every slice handed out so far. */
    ghost var issued: seq<Slice>
    /** Every block allocated so far. */
    ghost var blocks: set<array<byte>>

    /** Slices of the current block end below `pos`, and no two slices overlap. */
    ghost predicate Valid()
      reads this
    {
      && pos <= buf.Length == MAX_POOL_SIZE && buf in blocks
      && (forall s <- issued :: Below(s))
      && (forall i, j :: 0 <= i < j < |issued| ==> Disjoint(issued[i], issued[j]))
    }

    ghost predicate Below(s: Slice)
      reads this
    {
      s.Valid() && s.buf in blocks && (s.buf == buf ==> s.off + s.len <= pos)
    }

    constructor ()
      ensures Valid() && fresh(blocks) && issued == []
    {
      var b := new byte[MAX_POOL_SIZE](_ => 0);
      pos, buf, issued, blocks := 0, b, [], {b};
    }

    /** A slice no other slice overlaps: it lies in the free part of the block, or in a new block. */
    method Get(size: nat) returns (s: Slice)
      requires Valid() && size <= MAX_POOL_SIZE
      modifies this
      ensures Valid() && issued == old(issued) + [s]
      ensures s.len == size && s.buf == buf && s.off + s.len == pos && s.Valid()
      ensures (buf == old(buf) && s.off == old(pos)) || fresh(buf)
      ensures old(blocks) <= blocks && fresh(blocks - old(blocks))
      ensures forall t <- old(issued) :: Disjoint(t, s)
    {
      if MAX_POOL_SIZE - pos < size {
        pos := 0;
        buf := new byte[MAX_POOL_SIZE](_ => 0);
        blocks := blocks + {buf};
      }
      s := Slice(buf, pos, size);
      assert forall t <- issued :: Disjoint(t, s);
      pos := pos + size;
      issued := issued + [s];
    }
  }
}
