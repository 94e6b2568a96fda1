/** The transport stream muxer: it fills one packet buffer over and over, in place. */
module Muxers {
  import opened Bytes
  import opened TsSpec
  import opened Crc
  import opened Psi
  import opened Buffers

  /** Go's `copy` to a buffer that is long enough. */
  method CopyTo<T>(a: array<T>, at: nat, s: seq<T>)
    requires at + |s| <= a.Length
    modifies a
    ensures a[..at + |s|] == old(a[..at]) + s && a[at + |s|..] == old(a[at + |s|..])
  {
    forall i | 0 <= i < |s| {
      a[at + i] := s[i];
    }
  }

  class Muxer {
    var videoCc: nat
    var audioCc: nat
    var patCc: bv8
    var pmtCc: bv8
    const pat: array<bv8>
    const pmt: array<bv8>
    const tsPacket: array<byte>

    constructor ()
      ensures Valid() && fresh(pat) && fresh(pmt) && fresh(tsPacket)
      ensures videoCc == 0 && audioCc == 0 && patCc == 0 && pmtCc == 0
    {
      videoCc, audioCc, patCc, pmtCc := 0, 0, 0, 0;
      pat, pmt := new bv8[188](_ => 0), new bv8[188](_ => 0);
      tsPacket := new byte[188](_ => 0);
    }

    predicate Valid()
      reads this
    {
      && videoCc < 16 && audioCc < 16 && patCc <= 16 && pmtCc <= 16
      && pat.Length == pmt.Length == tsPacket.Length == PACKET_LEN
      && pat != pmt
    }

    function Counter(f: Frame): nat
      reads this
    {
      if f.isVideo then videoCc else audioCc
    }

    method Count(f: Frame)
      requires Valid()
      modifies this`videoCc, this`audioCc
      ensures Valid() && Counter(f) == NextCc(old(Counter(f)))
      ensures if f.isVideo then audioCc == old(audioCc) else videoCc == old(videoCc)
    {
      if f.isVideo {
        videoCc := videoCc + 1;
        if videoCc > 0xf {
          videoCc := 0;
        }
      } else {
        audioCc := audioCc + 1;
        if audioCc > 0xf {
          audioCc := 0;
        }
      }
    }

    /** Sync byte, PID, counter and, on the first packet of a key frame, the clock reference. */
    method StartPacket(f: Frame, first: bool) returns (i: nat)
      requires Valid()
      modifies tsPacket
      ensures i == if first && f.WithPcr() then 12 else 4
      ensures tsPacket[..i] == Prefix(first, f.WithPcr(), f.Pid(), Counter(f), f.Dts(), PAYLOAD_LEN)
    {
      hide PcrField;
      tsPacket[0] := 0x47;
      tsPacket[1] := f.Pid() / 256;
      if first {
        tsPacket[1] := tsPacket[1] + 0x40;
      }
      tsPacket[2] := f.Pid() % 256;
      tsPacket[3] := 0x10 + Counter(f);
      i := 4;
      if first && f.WithPcr() {
        tsPacket[3] := SetBit5(tsPacket[3]);
        tsPacket[4] := 7;
        tsPacket[5] := 0x50;
        WritePcr(6, f.Dts());
        i := 12;
      }
    }

    /** `b | 0x20`. */
    static function SetBit5(b: byte): byte {
      if b / 32 % 2 == 1 then b else b + 32
    }

    method WritePcr(i: nat, pcr: int)
      requires Valid() && i + 6 <= PACKET_LEN
      modifies tsPacket
      ensures tsPacket[..i + 6] == old(tsPacket[..i]) + PcrField(pcr)
    {
      tsPacket[i] := pcr / 0x200_0000 % 256;
      tsPacket[i + 1] := pcr / 0x2_0000 % 256;
      tsPacket[i + 2] := pcr / 0x200 % 256;
      tsPacket[i + 3] := pcr / 2 % 256;
      tsPacket[i + 4] := pcr % 2 * 128 + 0x7e;
      tsPacket[i + 5] := 0;
    }

    /** Writes an adaptation field of `remain` bytes at `from`, and filling behind it to the end of the packet. */
    method AdaptationBufInit(from: nat, remain: byte)
      requires Valid() && from < PACKET_LEN - 1
      modifies tsPacket
      ensures tsPacket[..from] == old(tsPacket[..from])
      ensures 1 <= remain <= PACKET_LEN - from ==> tsPacket[from..from + remain] == Stuffing(remain)
    {
      tsPacket[from] := (remain - 1) % 256;
      if remain != 1 {
        tsPacket[from + 1] := 0;
        for i := from + 2 to PACKET_LEN
          invariant tsPacket[..from] == old(tsPacket[..from])
          invariant tsPacket[from] == (remain - 1) % 256 && tsPacket[from + 1] == 0
          invariant forall j | from + 2 <= j < i :: tsPacket[j] == 0xff
        {
          tsPacket[i] := 0xff;
        }
      }
      if 1 <= remain <= PACKET_LEN - from {
        forall j | 0 <= j < remain
          ensures tsPacket[from..from + remain][j] == Stuffing(remain)[j]
        {
          assert tsPacket[from..from + remain][j] == tsPacket[from + j];
        }
      }
    }
  
    /** Setting the adaptation bit turns what `StartPacket` writes into the prefix of a packet that is not full. */
    static lemma WithAdaptation(f: Frame, first: bool, cc: nat, n: nat)
      requires cc < 16 && 0 < n < PAYLOAD_LEN
      ensures var p := Prefix(first, f.WithPcr(), f.Pid(), cc, f.Dts(), PAYLOAD_LEN);
              p[3 := SetBit5(p[3])] == Prefix(first, f.WithPcr(), f.Pid(), cc, f.Dts(), n)
    {
      hide PcrField;
    }

    static lemma WithoutAdaptation(f: Frame, first: bool, cc: nat, n: nat)
      requires cc < 16 && n >= PAYLOAD_LEN
      ensures Prefix(first, f.WithPcr(), f.Pid(), cc, f.Dts(), PAYLOAD_LEN)
           == Prefix(first, f.WithPcr(), f.Pid(), cc, f.Dts(), n)
    {
    }

    /** Counting in a byte, the PES bytes end up at the end of the packet in any case. */
    static lemma RemainIs(i: nat, n: nat)
      requires 4 <= i <= 12 && 0 < n < PAYLOAD_LEN
      ensures var remain := (PAYLOAD_LEN - n - (i - 4)) % 256;
              && (i + remain) % 256 == PACKET_LEN - n
              && (i + n < PACKET_LEN ==> remain == PACKET_LEN - i - n)
    {
    }

    /** The start of the packet, up to where the PES bytes go when `n` of them are left. */
    method PlaceLead(f: Frame, first: bool, n: nat) returns (i: nat)
      requires Valid() && n > 0
      modifies tsPacket
      ensures var lead := Lead(first, f.WithPcr(), f.Pid(), Counter(f), f.Dts(), n);
              i == |lead| && tsPacket[..i] == lead
    {
      hide PcrField, Stuffing, Prefix;
      i := StartPacket(f, first);
      if n >= PAYLOAD_LEN {
        WithoutAdaptation(f, first, Counter(f), n);
      } else {
        WithAdaptation(f, first, Counter(f), n);
        ghost var p, at := tsPacket[..i], i;
        tsPacket[3] := SetBit5(tsPacket[3]);
        assert tsPacket[..i] == p[3 := SetBit5(p[3])];
        var remain := (PAYLOAD_LEN - n - (i - 4)) % 256;
        RemainIs(i, n);
        AdaptationBufInit(i, remain);
        i := (i + remain) % 256;
        if at < i {
          assert tsPacket[..i] == tsPacket[..at] + tsPacket[at..i];
        } else {
          assert tsPacket[..i] == tsPacket[..at][..i];
        }
      }
    }

    /** Copies `dataLen` bytes of the PES packet: what is left of its header first. */
    method CopyPes(f: Frame, i: nat, header: seq<byte>, wBytes: nat, dataLen: nat) returns (fromHeader: nat, fromData: nat)
      requires Valid() && wBytes <= |f.data| && i + dataLen == PACKET_LEN
      requires dataLen <= |header| + |f.data| - wBytes
      modifies tsPacket
      ensures tsPacket[..] == old(tsPacket[..i]) + (header + f.data[wBytes..])[..dataLen]
      ensures fromHeader == Min(|header|, dataLen) && fromData == dataLen - fromHeader
    {
      ghost var lead := tsPacket[..i];
      var j := i;
      fromHeader, fromData := 0, dataLen;
      if j < PACKET_LEN && |header| > 0 {
        var tmpLen := PACKET_LEN - j;
        if |header| <= tmpLen {
          tmpLen := |header|;
        }
        CopyTo(tsPacket, j, header[..tmpLen]);
        j := j + tmpLen;
        fromHeader := tmpLen;
        fromData := fromData - tmpLen;
      }
      ghost var head := tsPacket[..j];
      assert head == lead + header[..fromHeader];
      if j < PACKET_LEN {
        var tmpLen := PACKET_LEN - j;
        if tmpLen <= fromData {
          fromData := tmpLen;
        }
        CopyTo(tsPacket, j, f.data[wBytes..wBytes + fromData]);
        assert tsPacket[..PACKET_LEN] == head + f.data[wBytes..wBytes + fromData];
      } else {
        assert f.data[wBytes..wBytes + fromData] == [] && head + [] == head;
      }
      assert tsPacket[..] == tsPacket[..PACKET_LEN];
      Assoc(lead, header[..fromHeader], f.data[wBytes..wBytes + fromData]);
      TakeConcat(header, f.data, wBytes, dataLen);
    }

    static lemma TakeConcat(h: seq<byte>, d: seq<byte>, at: nat, n: nat)
      requires at <= |d| && n <= |h| + |d| - at
      ensures var k := Min(|h|, n); (h + d[at..])[..n] == h[..k] + d[at..at + (n - k)]
    {
    }

    /** The nine bytes every header starts with. */
    static method PesStart(data: array<byte>, isVideo: bool, size: nat, flag: byte, headerSize: byte)
      requires data.Length == PACKET_LEN && size <= 0xffff
      modifies data
      ensures data[..9] == [0, 0, 1, if isVideo then VIDEO_SID else AUDIO_SID,
                            size / 256, size % 256, 0x80, flag, headerSize]
    {
      data[0], data[1], data[2] := 0, 0, 1;
      data[3] := if isVideo then VIDEO_SID else AUDIO_SID;
      data[4], data[5] := size / 256, size % 256;
      data[6], data[7], data[8] := 0x80, flag, headerSize;
    }

    /** `pesHeader.packet`: the header, and how much of the buffer it fills. */
    method PesPacket(f: Frame) returns (data: array<byte>, len: nat)
      ensures fresh(data) && len <= data.Length == PACKET_LEN && data[..len] == PesHeader(f)
    {
      hide TimeField, Frame.Pts, Frame.Dts, Frame.TwoStamps;
      data := new byte[PACKET_LEN](_ => 0);
      var flag, headerSize := 0x80, 5;
      if f.TwoStamps() {
        flag, headerSize := flag + 0x40, headerSize + 5;
      }
      var size := |f.data| + headerSize + 3;
      if size > 0xffff {
        size := 0;
      }
      PesStart(data, f.isVideo, size, flag, headerSize);
      ghost var start := data[..9];
      CopyTo(data, 9, TimeField(flag / 64, f.Pts()));
      len := 14;
      assert data[..14] == start + TimeField(flag / 64, f.Pts());
      if f.TwoStamps() {
        CopyTo(data, 14, TimeField(1, f.Dts()));
        len := 19;
      }
    }

    /** What is still to be written of a frame. */
    ghost function Remaining(f: Frame, first: bool, rest: seq<byte>): seq<seq<byte>>
      requires Valid()
      reads this
    {
      Packets(first, f.WithPcr(), f.Pid(), Counter(f), f.Dts(), rest)
    }

    /** One turn of the loop in `Mux`: the next transport packet. */
    method EmitPacket(f: Frame, first: bool, header: seq<byte>, wBytes: nat, w: Buffer)
      returns (fromHeader: nat, fromData: nat)
      requires Valid() && wBytes <= |f.data| && |header| + |f.data| - wBytes > 0
      modifies this`videoCc, this`audioCc, tsPacket, w
      ensures Valid() && Counter(f) == NextCc(old(Counter(f)))
      ensures if f.isVideo then audioCc == old(audioCc) else videoCc == old(videoCc)
      ensures var rest := header + f.data[wBytes..];
              var taken := Taken(first, f.WithPcr(), |rest|);
              && w.bytes == old(w.bytes) + OnePacket(first, f.WithPcr(), f.Pid(), Counter(f), f.Dts(), rest)
              && fromHeader == Min(|header|, taken) && fromData == taken - fromHeader
    {
      hide Lead;
      var packetBytesLen := |header| + |f.data| - wBytes;
      Count(f);
      var i := PlaceLead(f, first, packetBytesLen);
      var dataLen := packetBytesLen;
      if packetBytesLen >= PAYLOAD_LEN {
        dataLen := PAYLOAD_LEN;
        if first {
          dataLen := dataLen - (i - 4);
        }
      }
      fromHeader, fromData := CopyPes(f, i, header, wBytes, dataLen);
      w.Write(tsPacket[..]);
    }

    /** Cuts the PES packet of a frame into transport packets; the packet buffer never leaks old bytes. */
    method Mux(f: Frame, w: Buffer)
      requires Valid()
      modifies this`videoCc, this`audioCc, tsPacket, w
      ensures Valid()
      ensures w.bytes == old(w.bytes) + Flatten(FramePackets(f, old(Counter(f))))
      ensures Counter(f) == (old(Counter(f)) + |FramePackets(f, old(Counter(f)))|) % 16
      ensures if f.isVideo then audioCc == old(audioCc) else videoCc == old(videoCc)
    {
      hide OnePacket, Taken, Pes, PesHeader, Packets, Flatten, NextCc, Frame.WithPcr, Frame.Pid, Frame.Dts;
      var data, len := PesPacket(f);
      var header := data[..len];
      ghost var cc0, all, before := Counter(f), FramePackets(f, Counter(f)), w.bytes;
      var first, wBytes := true, 0;
      ghost var emitted: nat := 0;
      PesIs(f, header);
      while |header| + |f.data| - wBytes > 0
        invariant Valid() && wBytes <= |f.data| && (first || header == []) && |header| <= 19
        invariant Counter(f) == (cc0 + emitted) % 16
        invariant emitted + |Remaining(f, first, header + f.data[wBytes..])| == |all|
        invariant w.bytes + Flatten(Remaining(f, first, header + f.data[wBytes..])) == before + Flatten(all)
        invariant if f.isVideo then audioCc == old(audioCc) else videoCc == old(videoCc)
        decreases |header| + |f.data| - wBytes
      {
        ghost var rest, written := header + f.data[wBytes..], w.bytes;
        ghost var taken := Taken(first, f.WithPcr(), |rest|);
        NextPacket(f, first, Counter(f), rest);
        CountNext(cc0, emitted);
        var fromHeader, fromData := EmitPacket(f, first, header, wBytes, w);
        HeaderFits(f, first, header, |rest|);
        header := header[fromHeader..];
        wBytes := wBytes + fromData;
        first := false;
        emitted := emitted + 1;
        assert header + f.data[wBytes..] == rest[taken..];
      }
      assert header + f.data[wBytes..] == [];
      assert w.bytes + [] == w.bytes && before + Flatten(all) == before + Flatten(FramePackets(f, cc0));
      NothingRemains(f, Counter(f));
    }

    /** The next packet of a frame, and what then remains. */
    static lemma NextPacket(f: Frame, first: bool, cc: nat, rest: seq<byte>)
      requires cc < 16 && rest != []
      ensures var todo := Packets(first, f.WithPcr(), f.Pid(), cc, f.Dts(), rest);
              var one := OnePacket(first, f.WithPcr(), f.Pid(), NextCc(cc), f.Dts(), rest);
              var more := Packets(false, f.WithPcr(), f.Pid(), NextCc(cc), f.Dts(), rest[Taken(first, f.WithPcr(), |rest|)..]);
              |todo| == 1 + |more| && Flatten(todo) == one + Flatten(more)
    {
      hide OnePacket, Taken;
      var todo := Packets(first, f.WithPcr(), f.Pid(), cc, f.Dts(), rest);
      assert todo[1..] == Packets(false, f.WithPcr(), f.Pid(), NextCc(cc), f.Dts(), rest[Taken(first, f.WithPcr(), |rest|)..]);
    }

    static lemma NothingRemains(f: Frame, cc: nat)
      requires cc < 16
      ensures forall first: bool :: Packets(first, f.WithPcr(), f.Pid(), cc, f.Dts(), []) == []
      ensures Flatten([]) == []
    {
    }

    static lemma CountNext(cc: nat, n: nat)
      ensures NextCc((cc + n) % 16) == (cc + n + 1) % 16
    {
    }

    static lemma PesIs(f: Frame, header: seq<byte>)
      requires header == PesHeader(f)
      ensures |header| <= 19 && header + f.data[0..] == Pes(f)
    {
      assert f.data[0..] == f.data;
    }

    /** The first packet has room for the whole PES header. */
    static lemma HeaderFits(f: Frame, first: bool, header: seq<byte>, n: nat)
      requires n > 0 && |header| <= Min(19, n)
      ensures Min(|header|, Taken(first, f.WithPcr(), n)) == |header|
    {
    }
  
    /** The counter the next table packet carries. */
    static function NextTableCc(cc: bv8): bv8 {
      if cc > 0xf then 0 else cc
    }

    /** Header, section, CRC and filling, written into a table's own buffer. */
    static method FillTable(a: array<bv8>, tsHeader: seq<bv8>, section: seq<bv8>)
      requires a.Length == PACKET_LEN && |tsHeader| == 5 && |section| <= 179
      modifies a
      ensures a[..] == SectionPacket(tsHeader, section)
    {
      hide Divide, CrcBytes;
      var i := 0;
      CopyTo(a, i, tsHeader);
      i := i + 5;
      CopyTo(a, i, section);
      i := i + |section|;
      ghost var start := a[..i];
      assert start == tsHeader + section;
      var crc32Value := GenCrc32(a[5..i]);
      assert a[5..i] == section;
      CopyTo(a, i, CrcBytes(crc32Value));
      i := i + 4;
      ghost var head := a[..i];
      for j := i to a.Length
        invariant a[..i] == head
        invariant forall k | i <= k < j :: a[k] == 0xff
      {
        a[j] := 0xff;
      }
      assert a[..] == head + Ones(179 - |section|);
    }

    method PAT() returns (s: seq<bv8>)
      requires Valid()
      modifies this`patCc, pat
      ensures Valid() && patCc == NextTableCc(old(patCc)) + 1
      ensures s == pat[..] == PatPacket(NextTableCc(old(patCc)))
    {
      hide SectionPacket;
      if patCc > 0xf {
        patCc := 0;
      }
      var tsHeader: seq<bv8> := [0x47, 0x40, 0x00, 0x10 | (patCc & 0x0f), 0x00];
      patCc := patCc + 1;
      FillTable(pat, tsHeader, PAT_HEADER);
      s := pat[..];
    }

    method PMT(soundFormat: nat, hasVideo: bool) returns (s: seq<bv8>)
      requires Valid()
      modifies this`pmtCc, pmt
      ensures Valid() && pmtCc == NextTableCc(old(pmtCc)) + 1
      ensures s == pmt[..]
           == PmtPacket(Program(hasVideo, soundFormat == 2 || soundFormat == 14), NextTableCc(old(pmtCc)))
    {
      hide SectionPacket;
      var progInfo: seq<bv8> := [0x1b, 0xe1, 0x00, 0xf0, 0x00, 0x0f, 0xe1, 0x01, 0xf0, 0x00];
      var pmtHeader: seq<bv8> := [0x02, 0xb0, 0xff, 0x00, 0x01, 0xc1, 0x00, 0x00, 0xe1, 0x00, 0xf0, 0x00];
      if !hasVideo {
        pmtHeader := pmtHeader[9 := 0x01];
        progInfo := [0x0f, 0xe1, 0x01, 0xf0, 0x00];
      }
      pmtHeader := pmtHeader[2 := (|progInfo| + 9 + 4) as bv8];
      if pmtCc > 0xf {
        pmtCc := 0;
      }
      var tsHeader: seq<bv8> := [0x47, 0x50, 0x01, 0x10 | (pmtCc & 0x0f), 0x00];
      pmtCc := pmtCc + 1;
      if soundFormat == 2 || soundFormat == 14 {
        progInfo := progInfo[if hasVideo then 5 else 0 := 0x4];
      }
      ghost var p := Program(hasVideo, soundFormat == 2 || soundFormat == 14);
      assert pmtHeader == PmtHeader(p) && progInfo == Streams(p);
      FillTable(pmt, tsHeader, pmtHeader + progInfo);
      s := pmt[..];
    }
  }
}
