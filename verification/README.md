# A verified model of a live streaming server

The server takes a stream from one publisher over RTMP and hands it to players
over RTMP and HLS. This project models, in Dafny, the parts of it that carry
state from call to call, and proves what they promise over whole runs. Each
part exists twice: as functions on values (`*Spec`, `*Theorems`, `TsStream`,
`Crc`, `Psi`), about which the theorems speak, and as classes and methods that
change their state in place as the program does, proved to follow those
functions.

- **RTMP chunks** (`ChunkSpec`, `ChunkTheorems`, `ChunkPeer`, `Conn`,
  `ReadWriter`, `Pool`):
  a message is cut into chunks, chunks of several messages interleave, the
  reader puts them together in a table of streams, and the chunk size changes
  in mid-session (sections 5.3.1 and 5.4.1 of Adobe's RTMP 1.0). A peer with all
  four header formats is written down byte by byte, without the reader. Payloads live
  in slices of a bump allocator that never overlap.
- **MPEG transport streams** (`TsSpec`, `Muxer`, `Crc`, `Psi`, `TsStream`):
  frames become PES packets and 188-byte packets with stuffing, clock
  references and counters (ISO/IEC 13818-1, sections 2.4.3.2 to 2.4.3.7 and
  2.4.4), which a receiver written without the muxer takes apart again.
- **Codecs** (`H264Spec`, `H264`, `Aac`): length-prefixed units become Annex B,
  raw AAC frames get ADTS headers.
- **HLS** (`HlsSpec`, `HlsTheorems`, `HlsClock`, `HlsAudio`, `HlsParse`,
  `HlsMux`, `Hls`, `HlsRun`, `HlsCache`): the stream is cut into segments at key
  frames, audio goes out in batches under the times of a clock of its own, and a
  window of three segments is listed in a playlist. `HlsRun` says of whole runs,
  by packets and bytes, what a player gets.
- **Joining players** (`GopSpec`, `StreamSpec`, `GopCache`, `Stream`): a ring of
  groups of pictures (GOPs) and the last headers are replayed to a player that
  joins, and live packets follow.
- **AMF0 and AMF3** (`Amf0Spec`, `Amf0`, `Amf3Spec`, `Amf3`, `AmfReader`): the
  encodings of values, with objects written in any order of their keys or in
  sorted order, decoded from either of the two readers the program uses. The
  format is written down form by form, without encoder and decoder.
- `Bytes` and `Buffers` hold what they share.

Machine integers are unbounded here; where 8, 16, 32 or 64 bits matter the
wrap-around is written out. CRC and table packets use bit vectors. Where the
program would panic or return an error, a method returns a flag or an error
value; time stamps, file names made from the time of day, and the choice of an
order of map keys are parameters or free choices.

Some of what is proved is that the code falls short of what one might expect,
with the exact condition under which it does not:

- a Set Chunk Size message is cut at the size it announces, so sizes below 4
  break the session (`ChunkTheorems.SetChunkSizeExact`,
  `ChunkTheorems.SessionExact`);
- chunk streams from 64 on share two entries of the reader's table, so their
  messages cannot interleave (`ChunkPeers.SharedKeyFails`);
- a new message in format 3 behind one in format 0 has its time again, where the
  standard adds the time stamp to itself (`ChunkPeers.SameTimeAgain`), and an
  extended difference repeated inside a message is taken for payload
  (`ChunkPeers.RepeatedTaken`);
- a key frame with a short PES packet is stuffed outside its adaptation field,
  so a receiver does not get it (`TsSpec.DepacketiseExact`,
  `TsStream.ReceiveRun`, `HlsRuns.SegmentVideo`), and time stamps from 2^33 on
  are one too high (`TsSpec.TimestampExact`);
- the GOP ring works for one or two slots only (`GopSpec.RingExact`), and a
  player that joins while a cached GOP has more than 1024 packets is left with
  a gap (`StreamSpec.JoinerServed`, `StreamSpec.LateJoiners`);
- every sequence header adds its parameter sets to those already stored, so
  from the second one on the sets sent are not those of the last
  (`H264Spec.LastSetsExact`); bytes behind the picture parameter set are stored
  with it (`H264Spec.RecordExact`); a tag body whose first unit is one byte long
  is passed through unconverted (`H264Spec.OneByteUnit`);
- an ADTS header has room for three channels and 8184 bytes of payload
  (`Aac.HeaderExact`), and an AAC packet that is neither configuration nor raw
  frame is muxed as an empty one (`HlsAudio.EmptyFrame`, `HlsAudio.BatchExact`);
- two segments stored under one name within three calls make list and map
  disagree (`HlsCache.AgreesExactly`);
- the server decodes commands from a `bytes.Reader`
  (protocol/rtmp/core/conn_server.go:249), which refuses to read nothing at its
  end, so a batch whose last value ends in an empty string loses that value
  (`Amf0Spec.BatchExact`, `Amf3Spec.RoundTripExact`);
- an empty key ends an AMF0 object (`Amf0Spec.RoundTripExact`), and AMF3
  integers from 2^28 on come back negative (`Amf3Spec.SignLost`). The constant
  that admits them is 2^29 - 1, which is the unsigned limit.

`dafny verify dfyconfig.toml` checks everything.

## Model

| member | source | states |
|---|---|---|
| ChunkPeers.InterleavedRoundTrip | protocol/rtmp/core/conn.go:48-80 | For every order in which a peer sends the chunks of its messages (one message at a time per map key), each message begun with a header in any of the four formats, laid out byte by byte, and through changes of the chunk size: reading delivers exactly the completed messages, whole, in the order of their last chunks. Format 1 leaves out the stream id, format 2 also length and type, format 3 also the field; the time stamp is the last one plus the difference modulo 2^32. With nothing left unfinished the reader stands behind the last byte and agrees with the sender on the chunk size |
| ChunkPeers.CutShort | protocol/rtmp/core/chunk_stream.go:123-225 | Wherever such a stream ends inside a chunk, the messages completed before are delivered and the next read fails: no part of a message is ever delivered |
| ChunkPeers.SharedKeyFails | protocol/rtmp/core/chunk_stream.go:123-126 | The condition on keys is exact: after any chunks a peer may send, the first chunk of a message, in format 0 to 2, on a key still in use (all chunk stream ids above 319 share one, 64 to 319 another) is refused as "invalid remain", behind everything completed before, which is delivered |
| ChunkPeers.SameTimeAgain | protocol/rtmp/core/chunk_stream.go:176-193 | Format 3 for a new message behind format 0 keeps the time stamp, where section 5.3.1.2.4 takes it for the difference; the two agree exactly at time 0 |
| ChunkPeers.RepeatedTaken | protocol/rtmp/core/chunk_stream.go:194-205 | Inside a message a repeated extended field is compared with the time stamp: a difference of 0xffffff or more that is another number is taken for payload |
| ChunkPeers.WrittenChunk | protocol/rtmp/core/chunk_stream.go:38-121 | The chunks the program writes are, byte by byte, those of a peer that uses formats 0 and 3 only |
| ChunkPeers.RouteIs | protocol/rtmp/core/chunk_stream.go:84-90 | Audio goes out on chunk stream 4, video and both kinds of script data on 6, everything else where it was put |
| ChunkPeers.ControlBytes | protocol/rtmp/core/conn.go:135-159 | An acknowledgement is type 3 and a Set Chunk Size message type 1 on chunk stream 2 at time 0, with four big-endian bytes |
| ChunkTheorems.SessionRoundTrip | protocol/rtmp/core/conn.go:48-87 | A whole session: `Read` returns the messages given to `Write` in order, and reader and writer end with the same chunk size, provided each Set Chunk Size message announces the size in force or fits into one chunk of the old and of the new size; empty messages leave no trace |
| ChunkTheorems.SessionExact | protocol/rtmp/core/conn.go:48-87 | A session that starts at a chunk size of 4 or more, as every connection does, and announces sizes in four bytes: the messages written are delivered one for one if and only if no size below 4 is announced |
| ChunkTheorems.InStepExact | protocol/rtmp/core/conn.go:82-87 | For such announcements the condition of `SessionRoundTrip` comes to the same, whatever the size in force from 4 on |
| ChunkTheorems.RoundTripExact | protocol/rtmp/core/chunk_stream.go:83-225 | A message other than Set Chunk Size comes back as written if and only if it has 1 to 512000 bytes, at least 4 if it is a window acknowledgement size, a type below 256, a chunk stream id from 2 to 65599, and a time stamp and stream id of 32 bits |
| ChunkTheorems.SetChunkSizeExact | protocol/rtmp/core/conn.go:82-87 | A four-byte Set Chunk Size message, which is cut at the size it announces, comes back if and only if that is the size the reader has, or both are at least 4 |
| ChunkTheorems.MessageRoundTrip | protocol/rtmp/core/chunk_stream.go:83-225 | One message, with anything behind it, cut at the chunk size the reader has or short enough for one chunk of either size: delivered, the reader idle again, exactly its bytes consumed |
| ChunkTheorems.ChunkRead | protocol/rtmp/core/chunk_stream.go:123-225 | Reading one chunk of a message in progress: the stored state holds that message up to the next chunk, or is the whole message |
| ChunkTheorems.FirstHeaderRead | protocol/rtmp/core/chunk_stream.go:54-81 | The header of a first chunk gives the reader the message's time stamp (extended or not), length, type and stream id |
| ChunkTheorems.BasicHeaderRead | protocol/rtmp/core/chunk_stream.go:38-53 | The one-, two- and three-byte basic headers are read back to format and chunk stream id |
| ChunkTheorems.ReadMsgInvariant | protocol/rtmp/core/conn.go:48-80 | On every input, well formed or not: received plus missing bytes of each stream in progress make its length, the counters stay below their limits, `ackReceived` is 0 or below the window after each message, and a delivered message is whole |
| ChunkTheorems.AckStep | protocol/rtmp/core/conn.go:127-146 | One message, on any input: an acknowledgement is sent if and only if the bytes counted, modulo 2^32, reach the window in force once the message has taken effect; it says how many, and the count starts again. Type 5 sets the window, type 1 the chunk size, and nothing else does |
| ChunkTheorems.AckAccounting | protocol/rtmp/core/conn.go:127-146 | Any run on any input: the acknowledged values plus `ackReceived` are the lengths of all messages read, less 2^32 for each time the counter wraps around, which is never while windows stay 2^24 below 2^32 |
| Pools.Pool.Get | utils/pool/pool.go:10-18 | The slice handed out has the size asked for and overlaps none handed out before; all are pairwise disjoint |
| ReadWriters.ReadWriter.ReadUintBE | protocol/rtmp/core/read_writer.go:33-47 | Reads a big-endian integer; after a failed read everything reads as 0 |
| ReadWriters.ReadWriter.ReadUintLE | protocol/rtmp/core/read_writer.go:49-63 | Reads a little-endian integer, with the same sticky error |
| ReadWriters.ReadWriter.Read | protocol/rtmp/core/read_writer.go:20-27 | Fills a slice with the next bytes and nothing around it, or sets the error |
| ReadWriters.ReadWriter.WriteUintBE | protocol/rtmp/core/read_writer.go:87-99 | Appends the low-order bytes of a value, most significant first |
| Bytes.BEAt | protocol/rtmp/core/read_writer.go:87-99 | Which byte of such a number is where: the one at `i` from the end is the value divided by 256^i, modulo 256 |
| ReadWriters.ReadWriter.WriteUintLE | protocol/rtmp/core/read_writer.go:101-114 | Appends the low-order bytes of a value, least significant first |
| Conns.ChunkStream.New | protocol/rtmp/core/chunk_stream.go:31-36 | Takes a payload slice of the message's length from the pool |
| Conns.ChunkStream.ReadHeader | protocol/rtmp/core/chunk_stream.go:136-208 | The header of every format, as `ChunkSpec.ReadHeader` has it on values |
| Conns.ChunkStream.ReadPayload | protocol/rtmp/core/chunk_stream.go:209-224 | Moves up to one chunk size of bytes into the slice, behind what is there |
| Conns.ChunkStream.ReadChunk | protocol/rtmp/core/chunk_stream.go:123-225 | The whole of `readChunk` against `ChunkSpec.ReadChunk`: same state, same error, same bytes left |
| Conns.ChunkStream.WriteHeader | protocol/rtmp/core/chunk_stream.go:38-81 | Basic and message header of one chunk; fails only for a length above 0xffffff |
| Conns.ChunkStream.WriteChunk | protocol/rtmp/core/chunk_stream.go:83-121 | Writes the bytes the theorems speak of (`ChunkSpec.Encode`), on the chunk stream of the message type |
| Conns.Conn.Read | protocol/rtmp/core/conn.go:48-80 | Refines `ChunkSpec.ReadMsg`, control messages and acknowledgement included; the payloads of all messages delivered before keep their bytes, and the new one overlaps none of them |
| Conns.Conn.Write | protocol/rtmp/core/conn.go:82-87 | Sends the message cut at the chunk size then in force; a Set Chunk Size message takes effect first; refuses more than 0xffffff bytes |
| Conns.Conn.HandleControlMsg | protocol/rtmp/core/conn.go:127-133 | Set Chunk Size and Window Acknowledgement Size change exactly the field they announce |
| Conns.Conn.Acknowledge | protocol/rtmp/core/conn.go:135-146 | Counts the bytes and writes an acknowledgement when the window is used up |
| Conns.Conn.InitControlMsg | protocol/rtmp/core/conn.go:148-159 | A control message on chunk stream 2 with a big-endian value |
| Conns.Conn.NewSetChunkSize | protocol/rtmp/core/conn.go:113-115 | Makes the message that `ChunkTheorems.SetChunkSizeExact` speaks of |
| TsSpec.DepacketiseExact | container/ts/muxer.go:34-159 | A depacketiser that skips each adaptation field by its length recovers the PES packet of a frame, and no stale byte, if and only if the frame is not a key frame whose PES packet is shorter than 184 bytes and not 176 bytes long |
| TsSpec.PacketsAre | container/ts/muxer.go:58-156 | The packets of a frame start with 0x47, carry its PID, only the first starts a unit, and their counters follow one another |
| TsSpec.PacketCount | container/ts/muxer.go:58-156 | A frame takes ceil(n / 184) packets for n PES bytes, ceil((n + 8) / 184) for a key frame with n >= 184 |
| TsSpec.TimestampExact | container/ts/muxer.go:345-364 | The 33 bits of a time stamp field are those of the time stamp if and only if it is below 2^33; beyond, the field is one too high |
| TsSpec.PcrRoundTrip | container/ts/muxer.go:270-284 | The PCR base is the time modulo 2^33 |
| TsSpec.PcrMatchesDts | container/ts/muxer.go:58-156 | The first packet of a key frame has an adaptation field of 7 bytes with the flags 0x50, and bytes 6 to 11 decode to 90 times the time stamp modulo 2^33, and to what the PES packet has as decoding time if and only if that is below 2^33; with 177 to 183 bytes of PES packet its bytes lie there instead |
| TsSpec.PesLength | container/ts/muxer.go:317-324 | The length field counts the bytes behind it, or is 0 when they are too many |
| TsSpec.PesStamps | container/ts/muxer.go:42-49 | Read from its bytes, a PES packet has stream id 0xe0 for video and 0xc0 for sound; as presentation time 90 times the sum of time stamp and composition time of video, or of the time stamp of sound, if and only if that is below 2^33; as decoding time 90 times the time stamp under the same condition; a second stamp exactly for video with a composition time; and the data behind the header |
| TsSpec.PesMarks | container/ts/muxer.go:292-364 | The fixed bits of the header: flags, header length, the four bits in front of each time and its three marker bits |
| TsSpec.StuffingIs | container/ts/muxer.go:258-268 | Without a clock reference a packet has an adaptation field exactly if fewer than 184 bytes are left; it says how long it is, has no flags and is filled with 0xff |
| Muxers.Muxer.Mux | container/ts/muxer.go:34-159 | Writes exactly the packets of the frame and moves only its own counter; the reused packet buffer never leaks old bytes |
| Muxers.Muxer.EmitPacket | container/ts/muxer.go:58-156 | One turn of the loop: one packet, and how much of header and data went into it |
| Muxers.Muxer.AdaptationBufInit | container/ts/muxer.go:258-268 | The stuffing has the length its first byte says |
| Muxers.Muxer.WritePcr | container/ts/muxer.go:270-284 | Writes the clock reference and nothing before it |
| Muxers.Muxer.PesPacket | container/ts/muxer.go:292-343 | Fills the buffer with the PES header of the frame |
| Muxers.Muxer.FillTable | container/ts/muxer.go:174-193 | A table packet: header, section, CRC and filling up to 188 bytes |
| Muxers.Muxer.PAT | container/ts/muxer.go:162-196 | The association packet with the next counter |
| Muxers.Muxer.PMT | container/ts/muxer.go:199-256 | The map packet for the sound format and for video or none, with the next counter |
| TsStream.Continuity | container/ts/muxer.go:58-172 | Over every run of `Mux`, `PAT` and `PMT` the counter of each PID goes up by one modulo 16 from packet to packet |
| TsStream.ReceiveRun | container/ts/muxer.go:34-256 | A receiver that cuts the bytes of any such run into packets and collects payloads between unit starts gets one unit for each frame on PID 0x100 or 0x101, in order; each is the PES packet of its frame if and only if that is not a key frame whose PES packet is shorter than 184 bytes and not 176 bytes long |
| TsStream.AudioReceived | container/ts/muxer.go:34-256 | So from any run whatever it gets exactly the PES packets of the audio |
| TsStream.CutFlatten | container/ts/muxer.go:151-155 | Cutting a stream of packets gives the packets back |
| Crc.TableCorrect | container/ts/crc32.go:3-68 | Each of the 256 table entries is the remainder of its byte |
| Crc.StepCorrect | container/ts/crc32.go:72-75 | One table step is eight steps of division by 0x04c11db7, whatever the register |
| Crc.GenCrc32 | container/ts/crc32.go:70-78 | For every byte sequence: the bit-by-bit division from 0xffffffff (Annex A of ISO/IEC 13818-1) |
| Crc.SelfCheck | container/ts/muxer.go:180-188 | Appending the four CRC bytes to any bytes leaves remainder 0 |
| Psi.TablesVerify | container/ts/muxer.go:162-256 | The section of every association and map packet, delimited by its own length field, passes a receiver's CRC check |
| Psi.TablePackets | container/ts/muxer.go:162-256 | Table packets are packets on their PIDs, start a unit, and carry the counter |
| Psi.TablesRead | container/ts/muxer.go:162-256 | A receiver that reads the tables by their own length fields finds in the association table one program with its map on PID 0x1001, which the map packets are on, and in the map H.264 (0x1b) on PID 0x100 if there is video and AAC (0x0f) or MP3 (0x04) on PID 0x101, with the clock reference on the first of them |
| GopSpec.RingRefines | protocol/rtmp/cache/gop.go:63-116 | After every sequence of writes a ring of one or two slots sends the last GOPs, oldest first, each from its key frame and cut off after 1024 packets |
| GopSpec.RingExact | protocol/rtmp/cache/gop.go:63-116 | A ring is right after every history if and only if it has one or two slots; with any other number it fails on a key frame or on the frame after it |
| GopSpec.ReplayExact | protocol/rtmp/cache/gop.go:31-47 | For a cache of any size, what is to be sent is the end of what was published, from some packet on, if and only if no GOP in it has more than 1024 packets |
| GopSpec.GopsAreSuffix | protocol/rtmp/cache/gop.go:82-95 | The last GOPs put together are what was published last |
| GopSpec.GopsStart | protocol/rtmp/cache/gop.go:82-95 | Every GOP starts with a key frame and holds no other |
| GopSpec.GopsExist | protocol/rtmp/cache/gop.go:82-95 | There is a GOP as soon as a key frame has been published, and not before |
| GopSpec.RecentKeys | protocol/rtmp/cache/gop.go:63-116 | What is to be sent holds as many key frames as the cache has slots, or all there were if they are fewer |
| GopCaches.GopCache.Write | protocol/rtmp/cache/gop.go:82-95 | Follows the ring on values, with its array of arrays updated in place; reports where the program would panic |
| GopCaches.GopCache.WriteToArray | protocol/rtmp/cache/gop.go:63-80 | The slot taken over or continued |
| GopCaches.GopCache.Send | protocol/rtmp/cache/gop.go:97-116 | Sends what `GopSpec.SendRing` says, or stops at the first refusal of the player |
| GopCaches.GopArray.Write | protocol/rtmp/cache/gop.go:31-38 | A full array keeps what it has |
| GopCaches.GopArray.Send | protocol/rtmp/cache/gop.go:40-49 | Sends all packets, or stops at the first refusal |
| Streams.SpecialCache.Send | protocol/rtmp/cache/special.go:42-47 | Sends the packet it holds, if any |
| Streams.Cache.Write | protocol/rtmp/cache/cache.go:24-55 | Files metadata, sequence headers and GOP packets by kind, and ignores other audio |
| Streams.Cache.Send | protocol/rtmp/cache/cache.go:57-75 | Metadata, video header, audio header, then the GOPs |
| Streams.Stream.AddWriter | protocol/rtmp/stream.go:155-159 | A new player that has not been served; the others stay |
| Streams.Stream.ServePlayers | protocol/rtmp/stream.go:345-365 | Every player, in whatever order, is sent the replay or the packet as its `init` flag says, and goes if it refuses |
| Streams.Stream.Publish | protocol/rtmp/stream.go:343-365 | One packet of `TransStart`: cache and players move as `StreamSpec.Step` says |
| StreamSpec.LateJoiners | protocol/rtmp/stream.go:319-367 | Over every run, with one or two GOPs cached: all the time every served player holds a gap-free, duplicate-free run of the published video, from a key frame if one had been published when it was served, if and only if no cached GOP had more than 1024 packets whenever a player that had joined was served |
| StreamSpec.Runs | protocol/rtmp/stream.go:319-367 | With one or two GOPs cached the cache never stops the publisher, whatever is published |
| StreamSpec.JoinerServed | protocol/rtmp/stream.go:343-365 | With one or two GOPs cached, a player that joins and is left alone is served with the very next packet: it gets the last metadata published, the last video sequence header, the last AAC sequence header, each if there is one, and the recent GOPs, of which that packet may be the last; then every later packet, sound and headers included, each once and in order. Its pictures are gap-free, from a key frame if there is one by then, if and only if no GOP cached at that moment has more than 1024 packets |
| StreamSpec.EveryPublish | protocol/rtmp/stream.go:343-365 | One packet in any run with one or two GOPs cached, for every player: one served before gets the packet, one not yet served gets headers and recent GOPs; gone are exactly those that were closed and had something to get |
| StreamSpec.RunKeeps | protocol/rtmp/cache/cache.go:24-55 | In every run the cache holds the last metadata, the last video and the last AAC sequence header published |
| StreamSpec.ReplayStart | protocol/rtmp/cache/cache.go:57-75 | The replay is the end of what was published from a key frame on, or nothing while there is none, if and only if no cached GOP has more than 1024 packets |
| H264Spec.ConvertsExactly | parser/h264/parser.go:145-217 | A tag body converts if and only if it is one or more non-empty units behind 4-byte lengths |
| H264Spec.UnitsOfFramed | parser/h264/parser.go:133-143 | The units are recovered from their framing |
| H264Spec.ConversionSplits | parser/h264/parser.go:145-217 | Splitting the output at start codes gives back exactly the delimiter, parameter sets and slices if and only if they are clean; they are whenever no unit that came in or is stored contains 00 00 00 or 00 00 01 or ends in 00 |
| H264Spec.SplitExact | parser/h264/parser.go:188-196 | Splitting recovers a list of units if and only if each is clean (Annex B of ITU-T H.264) |
| H264Spec.OutputIs | parser/h264/parser.go:145-217 | By unit types: the delimiter 09 f0; the units of types 1, 5 and 6 in order; in front of the first unit of type 5 those of types 7 and 8 so far, or the stored ones if there are none; and nothing else |
| H264Spec.AnnexedIs | parser/h264/parser.go:188-196 | Each unit goes out behind 00 00 00 01 |
| H264Spec.OutputSnoc | parser/h264/parser.go:161-214 | One more unit adds itself if it is a slice or SEI, preceded by the parameter sets if it is the first IDR unit |
| H264Spec.SpecificExact | parser/h264/parser.go:77-121 | Exactly the sequence headers are taken that have six bytes, a set behind a two-byte length, a count, and a two-byte length that what follows it reaches; fewer than nine bytes are the error of no data |
| H264Spec.RecordExact | parser/h264/parser.go:77-121 | The parameter sets of a configuration record are stored as they are if and only if nothing follows the picture parameter set; what follows is stored with it |
| H264Spec.OneByteUnit | parser/h264/parser.go:123-131 | A tag body looks like Annex B already if and only if its first unit is a single byte |
| H264.Parser.NaluSize | parser/h264/parser.go:133-143 | The four-byte big-endian length |
| H264.Parser.GetAnnexbH264 | parser/h264/parser.go:145-217 | Delimiter, slices and parameter sets of as many whole units as there are, with the error that ends them; parameter sets once, before the first IDR unit: those seen so far, else the stored ones |
| H264.Parser.ParseSpecificInfo | parser/h264/parser.go:77-121 | Adds the parameter sets of each sequence header to those stored before, or gives the error |
| H264Spec.InfoIsAll | parser/h264/parser.go:77-121 | After any run of sequence headers the stored parameter sets are those of all accepted ones, two for each, in order |
| H264Spec.LastSetsExact | parser/h264/parser.go:77-217 | Before an IDR unit that brings none along the parameter sets sent are those of the last sequence header if and only if at most one has been accepted |
| Hls.InfoFollows | protocol/hls/source.go:213-239 | In every run of the segmenter the parser stores what `H264Spec.InfoIsAll` says of the video headers that came in |
| H264.Parser.Parse | parser/h264/parser.go:219-232 | Sequence header, bytes passed through, or conversion |
| Aac.ScanExact | parser/aac/parser.go:62-96 | A scanner that follows the 13-bit frame length recovers the raw frames if and only if none is longer than 8184 bytes (section 6.2 of ISO/IEC 13818-7) |
| Aac.HeaderExact | parser/aac/parser.go:69-87 | The header tells the profile for object types 1 to 4, the channels below 4, and the length up to 8184 bytes, and nothing else |
| Aac.HeaderIs | parser/aac/parser.go:67-87 | The 8- and 16-bit shifts put each field where a reader looks for it, and every other bit is fixed |
| Aac.ConfigRoundTrip | parser/aac/parser.go:51-60 | Object type, rate index and channels are read from the configuration bytes |
| Aac.ConfigIs | parser/aac/parser.go:51-60 | They are the first five, the next four and the next four bits |
| Aac.Parser.Adts | parser/aac/parser.go:62-96 | Writes one header and the frame; refuses an empty frame or one before the configuration |
| Aac.Parser.SpecificInfo | parser/aac/parser.go:51-60 | Takes the configuration, or refuses fewer than two bytes |
| Aac.Parser.SampleRate | parser/aac/parser.go:98-104 | The rate of the index, 44100 for an index without one |
| HlsSpec.Segments | protocol/hls/source.go:122-279 | Over every run of accepted frames: each stored segment opens with the key frame it was cut at, lasts at least 3000 ms, and holds exactly the frames accepted while it was open, each once and in order, audio in batches of one to six; with the open segment and at most five pending audio frames that is everything from the first key frame on; counters go on from segment to segment |
| HlsSpec.Pace | protocol/hls/source.go:190-211 | Over every run: a segment is cut at the first key frame that comes when its frames have lasted 3000 ms, and at no other; every batch of audio has six frames, but for the last of a stored segment |
| HlsSpec.AlignedNear | protocol/hls/align.go:12-29 | The audio clock stays within 2 ms of the time stamp |
| HlsClock.Cadence | protocol/hls/align.go:12-29 | At one sample rate each audio frame gets the time of the one before and 92160000 divided by the rate, as long as that is within 180 ticks of 90 times its time stamp, and the latter otherwise; before the first the clock is at 0 |
| HlsClock.RunOnTime | protocol/hls/source.go:247-270 | In every run each batch is muxed under the time the clock gave its first frame, counted from the first key frame on through all segments |
| HlsSpec.PutAudio | protocol/hls/source.go:261-279 | An accepted audio frame is pending or muxed with its batch, never both |
| HlsSpec.CutGood | protocol/hls/source.go:194-206 | A cut stores the open segment with all pending audio |
| HlsTheorems.Conservation | protocol/hls/source.go:122-279 | All segments together hold every accepted video frame from the first key frame on, and every audio frame but the pending ones, in order |
| HlsTheorems.SegmentStarts | protocol/hls/source.go:190-211 | A segment is a whole number of 188-byte packets: association table, map table, then the packets of its key frame |
| HlsTheorems.SegmentReceived | protocol/hls/source.go:190-211 | From the bytes of a segment a receiver gets the PES packet of each audio batch, in order, and one unit for each accepted video frame, in order, which is its PES packet if and only if the muxer does not mangle it (`TsSpec.DepacketiseExact`) |
| HlsRuns.AcceptExact | protocol/hls/source.go:213-245 | Which packets of a run are muxed: codec 7 that is no sequence header and is in Annex B or one or more units behind 4-byte lengths; sound 10 that is no configuration, and if it is a raw frame has content and a configuration before it. And as what: time stamp, composition time, key flag, the converted bytes with the sets of all headers before; for sound the rate of the last configuration, and header and frame, or nothing for other packet types |
| HlsRuns.SegmentSpan | protocol/hls/source.go:190-211 | By packets and their time stamps: the segments share out what is accepted from the first key frame on, each begins with a key frame and is stored at the first key frame that comes when its packets have lasted 3000 ms, under that duration and the next number; none has come in the open segment |
| HlsRuns.SegmentVideo | protocol/hls/source.go:247-279 | From the bytes of a segment of any run a player gets one video unit for each video packet kept for it, in order. But for key frames in PES packets of less than 184 bytes and not 176, each shows stream id 0xe0, as presentation time 90 times the sum of time stamp and composition time if and only if that is below 2^33, the decoding time likewise, a second stamp exactly if there is a composition time, and the converted picture |
| HlsRuns.SegmentSound | protocol/hls/source.go:258-279 | From the bytes of a segment of any run a player gets one unit of sound for each six audio packets kept for it, in order, and one for what is left over, which in the open segment is pending. Below 2^33 its time is that of the clock for the first packet in whole milliseconds, and within 180 ticks of 90 times its time stamp; and its payload scans back into the packets if and only if all are raw frames of at most 8184 bytes |
| HlsAudio.BatchExact | parser/aac/parser.go:62-96 | Any batch: its bytes scan back to the data of its packets if and only if each is a raw AAC frame of at most 8184 bytes |
| HlsAudio.EmptyFrame | parser/aac/parser.go:106-114 | An AAC packet of type 2 is accepted as a frame without bytes, whatever it holds |
| HlsRuns.KeptInStep | protocol/hls/source.go:136-163 | The accepted frames from the first key frame on are those made of the packets kept, one for one, each by the parsers as they were then |
| HlsTheorems.OneStream | protocol/hls/source.go:196-210 | All segments one after another are one transport stream without a jump in any counter |
| Hls.Source.SendPacket | protocol/hls/source.go:136-163 | Follows `HlsSpec.Step` on what the parsers accept, and changes the window only when a segment is stored |
| Hls.Source.Cut | protocol/hls/source.go:190-211 | Opens the first segment, or stores one of 3000 ms or more and opens the next |
| Hls.Source.MuxAudio | protocol/hls/source.go:261-270 | Muxes the pending frames once there are enough, under the time of the first |
| Hls.Source.TsMux | protocol/hls/source.go:272-279 | Muxes a picture at once and audio in batches |
| Hls.Source.CalcPtsDts | protocol/hls/source.go:247-256 | Video time from time stamp and composition time, audio time from the clock's estimate |
| Hls.Source.ParsePacket | protocol/hls/source.go:213-239 | What the parsers make of a packet: accepted bytes, a header remembered, or an error |
| Hls.AudioCache.Cache | protocol/hls/audio_cache.go:24-35 | Appends to the batch; the first frame sets its time and drops the batch before |
| Hls.Status.Update | protocol/hls/status.go:23-32 | First and last time stamp of a segment |
| Hls.Clock.Sync | protocol/hls/align.go:12-29 | The estimate while it is within 2 ms, else a new start |
| Hls.EveryRun | protocol/hls/source.go:122-168 | The statement of `HlsSpec.Segments` for every run of packets through the parsers |
| Hls.Source.SendPackets | protocol/hls/source.go:122-168 | The loop over the queue: after every run the segmenter is in the state `HlsSpec.Segments` speaks of, and the window is what storing its segments one by one, each under its path, makes of it |
| Hls.NewSource | protocol/hls/source.go:43-67 | A new source whose queue is emptied by its loop ends up there |
| Hls.WindowStep | protocol/hls/source.go:190-211 | One packet more in a run: storing its segment under its path, if it stored one, gives the window of the longer run |
| Hls.PlaylistOfRun | protocol/hls/cache.go:40-84 | In every run list and map of the window agree throughout if and only if no path comes back within three stored segments; then the playlist shows the last three segments of the run with their names, durations and numbers, under a target duration of one second more than the longest, in whole seconds |
| Hls.StoredNumbered | protocol/hls/source.go:197-200 | The stored segments are numbered from 1 without gaps |
| HlsParse.CodecParser.Parse | parser/parser.go:37-69 | Each packet to the parser of its codec, made when first needed |
| HlsMux.WriteFrame | protocol/hls/source.go:269-274 | Muxing a frame moves the counters as one operation of a run |
| HlsMux.WritePat | protocol/hls/source.go:208-208 | The association table as one operation of a run |
| HlsMux.WritePmt | protocol/hls/source.go:209-209 | The map table as one operation of a run |
| HlsCache.AgreesExactly | protocol/hls/cache.go:67-84 | List and map hold exactly the last three items through a whole run if and only if no key comes back within three calls |
| HlsCache.PlaylistRight | protocol/hls/cache.go:40-65 | While no key has come back within three calls: the playlist names the last three segments in order, starts at the number of the oldest, and its target duration is one second more than the longest in whole seconds, which bounds every duration rounded to seconds (sections 4.3.3.1 and 4.3.3.2 of RFC 8216) |
| HlsCache.TSCacheItem.SetItem | protocol/hls/cache.go:67-76 | The oldest key goes with its item; the new one comes last |
| HlsCache.TSCacheItem.GetItem | protocol/hls/cache.go:78-84 | The item under a key, if there is one |
| HlsCache.TSCacheItem.GenM3U8PlayList | protocol/hls/cache.go:40-65 | Longest duration, first number and entries of the listed items |
| Amf0Spec.DecodeExact | protocol/amf/decoder_amf0.go:10-336 | With a format laid out byte by byte (00 and eight bytes; 01 and 00 or 01; 02 and a two-byte length; 03 up to 00 00 09; 05, 06, 0d; 08 and four bytes in front of an object; 0a and a four-byte count; 0b and ten bytes; 0c and 0f and a four-byte length; 10 and a name in front of an object): the decoder returns a value and leaves a rest if and only if the bytes before are such a form of that value, and is an error on all others |
| Amf0Spec.Writes | protocol/amf/encoder_amf0.go:11-292 | What the encoder writes for a tree that fits is such a form of its value, with the short string for at most 65535 bytes |
| Amf0Spec.Reads | protocol/amf/decoder_amf0.go:57-336 | Whatever proper form a peer sends, nested as it likes, the decoder returns what it stands for; of equal keys the last one counts |
| Amf0Spec.RoundTripExact | protocol/amf/encoder_amf0.go:11-292 | For every value tree, every order of the keys of its objects and either kind of reader: decoding what was encoded gives the value back and leaves what follows, if and only if strings and arrays are shorter than 2^32, keys have 1 to 65535 bytes and, for a reader that refuses empty reads at its end, no empty string comes last |
| Amf0Spec.RoundTrip | protocol/amf/decoder_amf0.go:10-55 | The same for trees that fit: what is written is a form of the value, and every form is read |
| Amf0Spec.DecodedBounded | protocol/amf/decoder_amf0.go:10-55 | Whatever the bytes, a decoded value is within those limits |
| Amf0Spec.StripFieldsAt | protocol/amf/encoder_amf0.go:137-150 | With distinct keys no field replaces another |
| Amf0Spec.BatchExact | protocol/amf/amf.go:8-38 | Decoding an encoded batch gives every value and stops at the end of the bytes if and only if the reader allows empty reads at its end or the last value does not end in an empty string; otherwise all but the last value come back |
| Amf0Spec.EmptyLost | protocol/amf/util.go:49-60 | A value that ends in an empty string is not decoded by such a reader when nothing follows it |
| Amf0Spec.Decode | protocol/amf/decoder_amf0.go:10-55 | Each value takes at least one byte, so the decoder ends on every input |
| AmfReaders.Reader.ReadBytes | protocol/amf/util.go:49-60 | Exactly n bytes or an error; zero bytes at the end of the input are read from a buffer and refused by a `bytes.Reader` |
| Amf0.DecodeAmf0 | protocol/amf/decoder_amf0.go:10-55 | The router against `Amf0Spec.Decode`, on every input |
| Amf0.DecodeAmf0Object | protocol/amf/decoder_amf0.go:119-151 | Keys and values up to the end marker; a key that comes again replaces its value |
| Amf0.DecodeAmf0StrictArray | protocol/amf/decoder_amf0.go:219-241 | As many values as the count says |
| Amf0.DecodeAmf0TypedObject | protocol/amf/decoder_amf0.go:315-336 | A class name and an object |
| Amf0.DecodeAll | protocol/amf/amf.go:8-18 | Every value up to the first error |
| Amf0.EncodeAmf0 | protocol/amf/encoder_amf0.go:11-57 | The bytes of the value in some order of its keys, and their count; fails exactly on typed objects |
| Amf0.EncodeAmf0Object | protocol/amf/encoder_amf0.go:138-174 | Every field once, in the order the map gives them, then the end |
| Amf0.EncodeAmf0StrictArray | protocol/amf/encoder_amf0.go:237-262 | Count and elements |
| Amf0.EncodeBatch | protocol/amf/amf.go:31-38 | Every value in turn; the count it returns is always 0 |
| Amf3Spec.U29Form | protocol/amf/encoder_amf3.go:415-432 | What is written for up to 0x1fffffff is seven bits a byte, all but the last with the top bit set, and eight bits in a fourth byte, in as few bytes as can |
| Amf3Spec.U29RoundTrip | protocol/amf/encoder_amf3.go:415-432 | Every value up to 0x1fffffff is read back from exactly its one to four bytes |
| Amf3Spec.U29FromBound | protocol/amf/decoder_amf3.go:463-485 | What is read has at most 29 bits |
| Amf3Spec.DecodeExact | protocol/amf/decoder_amf3.go:11-374 | With the forms of the model laid out byte by byte (00 to 03; 04 and an integer; 05 and eight bytes; 06 and text behind 2n + 1; 09, 2n + 1, the empty key and n values; 0a, 16n + 3, a name, n keys and n values): the decoder returns a value and leaves a rest if and only if the bytes before are such a form, where text cut off by the end of the input is filled up with zeros |
| Amf3Spec.Writes | protocol/amf/encoder_amf3.go:14-432 | What the encoder writes for a tree that fits is such a form of its value, with nothing cut off |
| Amf3Spec.Reads | protocol/amf/decoder_amf3.go:11-374 | Whatever proper form a peer sends, the decoder returns what it stands for; of equal keys the last one counts |
| Amf3Spec.RoundTripExact | protocol/amf/encoder_amf3.go:14-81 | For every tree of null, bool, integer, double, string, array and untyped object and either kind of reader: decoding gives it back and leaves what follows, if and only if integers are below 2^28, strings and arrays shorter than 2^28, objects have fewer than 2^25 keys and, for a reader that refuses empty reads at its end, no empty string comes last; the encoder accepts every such tree |
| Amf3Spec.EmptyLost | protocol/amf/util.go:49-60 | A value that ends in an empty string is not decoded by such a reader when nothing follows it |
| Amf3Spec.SignLost | protocol/amf/decoder_amf3.go:91-94 | From 2^28 on the encoder accepts an integer and the decoder returns it minus 2^29 |
| Amf3Spec.SortedUnique | protocol/amf/encoder_amf3.go:279-294 | Equal values in key order are one tree, so equal maps are encoded as the same bytes |
| Amf3Spec.DecodedBounded | protocol/amf/decoder_amf3.go:11-47 | Whatever the bytes, decoded integers are below 2^28 and lengths in range |
| Amf3Spec.TextRoundTrip | protocol/amf/encoder_amf3.go:395-413 | Length header and bytes are read back |
| Amf3.DecodeU29 | protocol/amf/decoder_amf3.go:463-485 | The loop over three bytes and the fourth |
| Amf3.DecodeAmf3String | protocol/amf/decoder_amf3.go:117-146 | A string; cut off by the end of the input it is padded with zeros |
| Amf3.DecodeAmf3 | protocol/amf/decoder_amf3.go:11-47 | The router against `Amf3Spec.Decode` |
| Amf3.DecodeAmf3Array | protocol/amf/decoder_amf3.go:191-235 | Elements of a dense array |
| Amf3.DecodeAmf3Object | protocol/amf/decoder_amf3.go:239-374 | Keys, then as many values |
| Amf3.EncodeUint29 | protocol/amf/encoder_amf3.go:415-432 | The bytes of a value in range, an error for others |
| Amf3.SortedKeys | protocol/amf/encoder_amf3.go:279-283 | All keys of the object, strictly ascending |
| Amf3.EncodeAmf3 | protocol/amf/encoder_amf3.go:14-81 | The bytes of the one tree with its keys in order, and their count; fails exactly when a length or count is out of range |
| Amf3.EncodeAmf3Object | protocol/amf/encoder_amf3.go:264-361 | Header, empty class name, sorted keys, values in the same order |
| Amf3.EncodeAmf3Array | protocol/amf/encoder_amf3.go:227-260 | Header, empty key, elements |

## Left out

- Sockets, HTTP, the RTMP handshake and command messages, relays, authentication, configuration, logging and file output.
- Goroutines, races on the maps, alive timers and packets dropped by a full queue: packets and players take their turns one after another.
- Failing writes of the connection: `ReadWriter` writes into memory. Players that refuse packets are modelled.
- Parsing of FLV tag headers: packets arrive with the fields the cache and the segmenter look at; metadata and end-of-sequence tags never reach `Hls.Source.SendPacket`, and a tag error that ends the loop is not modelled.
- The re-slicing of cached packets by the HLS demuxer: packets are values.
- The MP3 parser: the segmenter refuses such audio before any parser sees it.
- The text of a playlist, file names and the clock they come from: a playlist is its numbers and names.
- Set Peer Bandwidth and user control messages of the writer: fixed bytes.
- The reference tables of the AMF decoders (`refCache`, `stringRefs`, `objectRefs`, `traitRefs`) and what reads them, AMF3 dates, XML, byte arrays, externalizable, typed and dynamic objects, and the switch from AMF0 to AMF3 inside a value: for these the decoding functions say Fail.
- The meaning of floating-point numbers, which are eight bytes, and of UTF-8.
- ChunkPeers.InterleavedRoundTrip: the peer sends no empty messages, and formats 1 to 3 only behind a message of the same chunk stream; a field of 0xffffff or more that is not the time stamp it sends only with messages of one chunk (RepeatedTaken shows why). What holds on all other input is in ReadMsgInvariant and AckStep.
- ChunkTheorems.SessionRoundTrip: what it asks of Set Chunk Size messages is proved exact for those of four bytes (SetChunkSizeExact for any sizes, SessionExact for sessions); for longer ones it depends on their content, as the header of a later chunk may happen to be the byte it is taken for.
- ChunkTheorems.SessionExact: starts at a chunk size of at least 4; a connection starts at 128.
- ChunkTheorems.RoundTripExact: excludes Set Chunk Size messages, which SetChunkSizeExact and MessageRoundTrip cover.
- Conns.Conn.Write: asks for at least four bytes and a size above 0 in a Set Chunk Size message, without which the program panics, and for a `Length` that is that of the data; the program panics if it is longer, and writes all the data under the shorter length, without an error, if it is shorter.
- Pools.Pool.Get: asks for at most 512000 bytes; the program panics for more, and reading a longer message is the error of that name.
- StreamSpec.LateJoiners: asks for one or two cached GOPs, as do Runs, JoinerServed and EveryPublish; with any other number the ring fails (RingExact).
- Streams.Stream.Publish: says nothing of a ring that would panic, which rings of one or two slots never do.
- GopCaches.GopCache.Send: what has been sent before a panic is not said.
- HlsRuns.SegmentVideo: what a player sees of a mangled key frame is not said, and neither is anything of times from 2^33 on but that they are wrong.
- HlsRuns.SegmentSound: says nothing of times from 2^33 on.
- HlsClock.Cadence: asks for one sample rate; how the clock goes on when the rate changes is in RunOnTime only.
- HlsCache.PlaylistRight: asks that no key comes back within three calls; AgreesExactly shows that list and map disagree otherwise.
- Hls.Source.SendPacket: closing a source and the status fields nobody reads are not modelled.
- Amf3.EncodeAmf3: takes integers from 0 to 2^29 - 1, as the router turns others into floating-point numbers first, and neither dates nor typed objects.
- Amf0.EncodeAmf0: what was written before a failure is not said.
- Amf0.DecodeAmf0: marker 0x11, the switch to AMF3 inside a value, fails here and is followed in the program.
- Amf3Spec.DecodeExact: exact for the forms of the model; dates, XML, byte arrays, references, and externalizable and dynamic objects are errors in it and not in the program.
- Amf0Spec.DecodeExact: marker 0x11 is an error in it and not in the program.
- Amf3.DecodeAmf3: dates, XML and byte arrays fail here and are decoded by the program.
- Amf3.DecodeAmf3String: a reference to an earlier string fails here; the program looks it up.
- Amf3.DecodeAmf3Array: a reference to an earlier array fails here.
- Amf3.DecodeAmf3Object: references, and externalizable and dynamic objects, fail here.
- HlsParse.CodecParser.Parse: asks for AVC or AAC, as the segmenter refuses others before; called directly, the program ignores them, but for MP3, which it hands to a parser of its own.
- Streams.Stream.AddWriter: asks for a player that is not already stored under another id, as every connection is a new one.
