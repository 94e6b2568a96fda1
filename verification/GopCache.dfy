/**
 The cache of one stream with its state in place: the ring of GOPs, the last
 sequence headers and metadata, and the replay to a player that joins.
 */
module GopCaches {
  import opened Bytes
  import opened GopSpec
  import opened StreamSpec

  /** Where packets are sent: refuses them once closed. */
  class Writer {
    var received: seq<Packet>
    var closed: bool

    constructor ()
      ensures received == [] && !closed
    {
      received, closed := [], false;
    }

    method Write(p: Packet) returns (ok: bool)
      modifies this
      ensures ok == !closed && closed == old(closed)
      ensures received == old(received) + if ok then [p] else []
    {
      ok := !closed;
      if ok {
        received := received + [p];
      }
    }
  }

  /** How a replay ended. */
  datatype Outcome = Sent | Refused | Panicked

  /** `ps` has been sent to a player, unless it is closed. */
  twostate predicate Got(w: Writer, ps: seq<Packet>, out: Outcome)
    reads w
  {
    && w.closed == old(w.closed)
    && out == (if w.closed && ps != [] then Refused else Sent)
    && w.received == old(w.received) + if w.closed then [] else ps
  }

  lemma UpdateTwice(gops: seq<Option<seq<Packet>>>, k: nat, p: Packet)
    requires k < |gops|
    ensures gops[k := Some([])][k := Some(Append([], p))] == gops[k := Some([p])]
  {
    assert Append([], p) == [p];
  }

  class GopArray {
    var index: nat
    var packets: seq<Packet>

    ghost predicate Valid()
      reads this
    {
      index == |packets| <= MAX_GOP
    }

    constructor ()
      ensures Valid() && packets == []
    {
      index, packets := 0, [];
    }

    method Reset()
      modifies this
      ensures Valid() && packets == []
    {
      index, packets := 0, packets[..0];
    }

    /** A full array keeps what it has. */
    method Write(p: Packet) returns (ok: bool)
      requires Valid()
      modifies this
      ensures Valid() && packets == Append(old(packets), p)
      ensures ok == (|old(packets)| < MAX_GOP)
    {
      ok := index < MAX_GOP;
      if ok {
        packets, index := packets + [p], index + 1;
      }
    }

    method Send(w: Writer) returns (out: Outcome)
      requires Valid()
      modifies w
      ensures Got(w, packets, out)
    {
      for i := 0 to index
        invariant w.closed == old(w.closed) && (i > 0 ==> !w.closed)
        invariant w.received == old(w.received) + packets[..i]
      {
        var ok := w.Write(packets[i]);
        if !ok {
          return Refused;
        }
        assert packets[..i + 1] == packets[..i] + [packets[i]];
      }
      assert packets[..index] == packets;
      out := Sent;
    }
  }

  class GopCache {
    var start: bool
    var num: nat
    const count: nat
    var nextindex: nat
    const gops: array<GopArray?>

    ghost function Footprint(): set<object>
      reads this, gops
    {
      {this, gops} + set k | 0 <= k < gops.Length && gops[k] != null :: gops[k]
    }

    /** Every used slot has an array of its own. */
    ghost predicate Valid()
      reads Footprint()
    {
      && gops.Length == count
      && (forall k | 0 <= k < gops.Length && gops[k] != null :: gops[k].Valid())
      && (forall j, k | 0 <= j < k < gops.Length && gops[j] != null :: gops[j] != gops[k])
    }

    ghost function Slot(k: nat): Option<seq<Packet>>
      requires k < gops.Length
      reads Footprint()
    {
      if gops[k] == null then None else Some(gops[k].packets)
    }

    /** The value of the ring. */
    ghost function Contents(): Ring
      reads Footprint()
    {
      Ring(start, num, count, nextindex,
           seq(gops.Length, k requires 0 <= k < gops.Length reads Footprint() => Slot(k)))
    }

    constructor (num: nat)
      ensures Valid() && Contents() == NewRing(num)
      ensures fresh(Footprint())
    {
      this.start, this.num, this.count, this.nextindex := false, 0, num, 0;
      this.gops := new GopArray?[num](_ => null);
      new;
      assert Contents().gops == NewRing(num).gops;
    }

    /** The slot a packet goes to; `null` is a run-time panic. */
    method Open() returns (g: GopArray?)
      requires Valid() && nextindex < gops.Length
      modifies Footprint()
      ensures Valid() && g != null && g.packets == []
      ensures fresh(Footprint() - old(Footprint()))
      ensures gops[old(nextindex)] == g && start == old(start)
      ensures nextindex == (old(nextindex) + 1) % count
      ensures num == if old(Contents()).gops[old(nextindex)].None? then old(num) + 1 else old(num)
      ensures Contents().gops == old(Contents()).gops[old(nextindex) := Some([])]
    {
      g := gops[nextindex];
      if g == null {
        g := new GopArray();
        num := num + 1;
        gops[nextindex] := g;
      } else {
        g.Reset();
      }
      nextindex := (nextindex + 1) % count;
      assert Contents().gops == old(Contents()).gops[old(nextindex) := Some([])];
    }

    method Put(k: nat, p: Packet)
      requires Valid() && k < gops.Length && gops[k] != null
      modifies gops[k]
      ensures Valid() && Footprint() == old(Footprint())
      ensures Contents() == old(Contents()).(gops := old(Contents()).gops[k := Some(Append(old(Contents()).gops[k].value, p))])
    {
      var ok := gops[k].Write(p);
      assert Contents().gops == old(Contents()).gops[k := Some(Append(old(Contents()).gops[k].value, p))];
    }

    /** `Write` once the cache has started. */
    method WriteToArray(p: Packet, startNew: bool) returns (ok: bool)
      requires Valid() && start && startNew == p.Opens()
      modifies Footprint()
      ensures Valid() && fresh(Footprint() - old(Footprint()))
      ensures ok == WriteRing(old(Contents()), p).Some?
      ensures ok ==> Contents() == WriteRing(old(Contents()), p).value
    {
      var k := nextindex;
      if startNew {
        ok := nextindex < count;
        if ok {
          ghost var r := Contents();
          var g := Open();
          Put(k, p);
          UpdateTwice(r.gops, k, p);
        }
      } else {
        ok := count != 0;
        if ok {
          k := (nextindex + 1) % count;
          ok := k < gops.Length && gops[k] != null;
          if ok {
            Put(k, p);
          }
        }
      }
    }

    /** Follows the ring on values; `ok` is false where the program would panic. */
    method Write(p: Packet) returns (ok: bool)
      requires Valid()
      modifies Footprint()
      ensures Valid() && fresh(Footprint() - old(Footprint()))
      ensures ok == WriteRing(old(Contents()), p).Some?
      ensures ok ==> Contents() == WriteRing(old(Contents()), p).value
    {
      var key := p.isVideo && p.IsKeyFrame() && !p.IsSeq();
      ok := true;
      if key || start {
        start := true;
        ok := WriteToArray(p, key);
      }
    }

    method SendSlot(k: int, w: Writer) returns (out: Outcome)
      requires Valid()
      modifies w
      ensures Valid() && Contents() == old(Contents()) && w.closed == old(w.closed)
      ensures if 0 <= k < count && Contents().gops[k].Some? then Got(w, Contents().gops[k].value, out) else out == Panicked
    {
      if !(0 <= k < count) || gops[k] == null {
        return Panicked;
      }
      out := gops[k].Send(w);
    }

    /** Sends the ring, oldest GOP first. */
    method Send(w: Writer) returns (out: Outcome)
      requires Valid()
      modifies w
      ensures Valid() && Contents() == old(Contents()) && w.closed == old(w.closed)
      ensures SendRing(Contents()).Some? ==> Got(w, SendRing(Contents()).value, out)
      ensures SendRing(Contents()).None? && !w.closed ==> out == Panicked
    {
      hide SendFrom, Slot;
      if count == 0 {
        return Panicked;
      }
      ghost var r := Contents();
      ghost var sent: seq<Packet> := [];
      var pos := (nextindex + 1) % count;
      SendStart(r);
      for i := 0 to num
        invariant Valid() && Contents() == r
        invariant w.closed == old(w.closed) && (w.closed ==> sent == [])
        invariant w.received == old(w.received) + sent
        invariant SentSoFar(r, i, sent)
      {
        var index := pos - num + 1 + i;
        if index < 0 {
          index := index + count;
        }
        SendNext(r, i, sent);
        out := SendSlot(index, w);
        if out == Panicked {
          return;
        }
        sent := sent + r.gops[index].value;
        if out == Refused {
          return;
        }
      }
      SendEnd(r, sent);
      out := Sent;
    }
  }

  /** What is left to send is the ring from slot number `i` on. */
  ghost predicate SentSoFar(r: Ring, i: nat, sent: seq<Packet>)
    requires r.count > 0 && i <= r.num
  {
    && (SendFrom(r, i).Some? <==> SendRing(r).Some?)
    && (SendRing(r).Some? ==> SendRing(r).value == sent + SendFrom(r, i).value)
  }

  lemma SendStart(r: Ring)
    requires r.count > 0
    ensures SentSoFar(r, 0, [])
  {
    if SendRing(r).Some? {
      assert [] + SendRing(r).value == SendRing(r).value;
    }
  }

  lemma SendNext(r: Ring, i: nat, sent: seq<Packet>)
    requires r.count > 0 && i < r.num && SentSoFar(r, i, sent)
    ensures var k := SlotOf(r, i);
            if 0 <= k < |r.gops| && r.gops[k].Some? then SentSoFar(r, i + 1, sent + r.gops[k].value)
            else SendRing(r).None?
    ensures SendRing(r).Some? && r.gops[SlotOf(r, i)].value != [] ==> SendRing(r).value != []
  {
  }

  lemma SendEnd(r: Ring, sent: seq<Packet>)
    requires r.count > 0 && SentSoFar(r, r.num, sent)
    ensures SendRing(r) == Some(sent)
  {
    assert sent + [] == sent;
  }
}
