# FTL stream output: splitter, drop policy and status mapping

This project models the sequential core of the FTL streaming output of OBS
(`plugins/obs-outputs/ftl-stream.c`). Three pieces are modelled.

- **The H.264 access-unit splitter.** `avc_get_video_frame` cuts an encoded video
  packet into at most 100 NAL units.
  - In frame mode every NAL has a 4-byte big-endian length in front of it. This
    is the length-prefixed sample format of ISO/IEC 14496-15.
  - In header mode the packet is the parameter-set blob of an
    AVCDecoderConfigurationRecord (ISO/IEC 14496-15, section 5.2.4.1): a 6-byte
    prefix, then the SPS behind a 2-byte length, one byte, and the PPS behind a
    2-byte length.
  - NALs of type SEI (6), access-unit delimiter (9) and filler (12) are dropped
    when their `nal_ref_idc` is 0 (ITU-T H.264, section 7.3.1 and Table 7-1).
  - In frame mode the last stored NAL carries the marker bit.
  - `send_packet` then hands each stored NAL to the ingest library and counts
    every marked one as a sent frame.
- **The latency-driven drop policy over the packet queue.** This covers
  `add_packet`, `check_to_drop_frames`, `drop_frames`, `add_video_packet`,
  `get_next_packet`, `free_packets` and the queueing step of `ftl_stream_data`.
  - When the queued video spans more than the drop threshold, every packet that
    is neither audio nor of the highest drop priority is discarded.
  - Video below the largest discarded priority is then refused until a packet
    reaches it.
- **The mapping of ingest status codes to OBS outcomes** (`_ftl_error_to_obs_error`).
  The stop-deadline rule of the send thread is modelled too, as a pure function
  of the queue.

## Modules

- `wrappers.dfy`, module `Wrappers`: `Option` and `Result`.
- `avc.dfy`, module `Avc`:
  - the NAL header fields and the filter;
  - one turn of the splitting loop (`ReadUnit`) and the whole loop (`SplitFrom`, `Split`);
  - the lemmas that characterise a split;
  - the class `CodedPicBuffer`, which is the fixed 100-entry NAL table that
    `GetVideoFrame` fills in place.
- `avc_layout.dfy`, module `AvcLayout`:
  - packets built from their NAL units in both layouts (`FrameOf`, `HeaderOf`);
  - round trips proving that splitting such a packet gives back exactly the
    stored NAL units.
- `avc_as_written.dfy`, module `AvcAsWritten`: four steps as the source writes
  them, with the inputs that break them (see Findings).
- `packets.dfy`, module `Packets`:
  - the packet and the queue state as values;
  - the drop policy as functions (`Push`, `Pop`, `Drop`, `CheckDrop`, `AddVideo`, `Submit`);
  - their properties.
- `ftl_stream.dfy`, module `FtlOutput`: the class `FtlStream`.
  - Its fields are the queue, the drop-policy scalars, the counters and the NAL table.
  - Its methods change them in place and are proved against the functions of `Packets`.
- `send_thread.dfy`, module `SendThread`: what the send loop sends when stopping,
  and the headers it sends before each keyframe.
- `error_map.dfy`, module `ErrorMap`: the status codes, the outcomes and the mapping.

The queue operations run under `packets_mutex` in the source, so each is one
sequential step here. Addresses inside a packet (`nalu_t.data`) become offsets into
the packet's bytes. `OBS_NAL_PRIORITY_HIGHEST` and `drop_threshold_usec` are
constants given when an `FtlStream` is built. The ingest library's
`ftl_ingest_send_media_dts` is the function parameter `MediaSend`, and the model
assumes nothing about the byte counts it returns.

Four behaviours of the code are corrected in the model, and each is logged
under Findings:

- an over-long length is refused;
- the marker is written only when a NAL was stored;
- a packet that does not fit the table leaves the table empty;
- a 4-byte length is read as unsigned, so a length field whose first byte is
  0x80 or more is refused as too long instead of moving the loop backwards.

In each case the corrected splitter refuses the offending packet and never
leaves a partial access unit to send. Elsewhere the model follows the code.

## Model

| member | source | states |
|---|---|---|
| Avc.NalHeader | plugins/obs-outputs/ftl-stream.c:327-328 | Builds a header byte whose `nal_unit_type` (`b & 0x1F`) and `nal_ref_idc` (`(b >> 5) & 3`) read back as given. |
| Avc.KeepsByFields | plugins/obs-outputs/ftl-stream.c:327-333 | The filter on the header byte holds iff the type is not filler, SEI or AUD, or `nri` is non-zero, for every byte. |
| Avc.KeepsIff | plugins/obs-outputs/ftl-stream.c:332-337 | A NAL is stored iff its type is not 6, 9 or 12, or its `nal_ref_idc` is non-zero. |
| Avc.SplitFromNext | plugins/obs-outputs/ftl-stream.c:291-340 | One turn of the loop reads the next NAL, stores it if it passes the filter, and resumes right after it. |
| Avc.SplitFromFails | plugins/obs-outputs/ftl-stream.c:300-325 | A turn that cannot read a NAL (field or NAL past the end, length overrun) stops the loop with that error. |
| Avc.SplitFromOkTurn | plugins/obs-outputs/ftl-stream.c:291-296 | A successful loop from inside the packet had a free slot and read a NAL on that turn. |
| Avc.SplitFromGrows | plugins/obs-outputs/ftl-stream.c:293-296 | The loop never shrinks the table and never fills more than its 100 slots. |
| Avc.SplitFromKeepsAt | plugins/obs-outputs/ftl-stream.c:298-337 | Entries already in the table stay where they are while the loop runs. |
| Avc.ReadUnitAdvances | plugins/obs-outputs/ftl-stream.c:321-339 | Every turn that reads a NAL moves forward: the NAL starts after the old position and ends inside the packet, so the loop ends. |
| Avc.HighLengthRefused | plugins/obs-outputs/ftl-stream.c:315-325 | In a packet shorter than 2 GiB, a 4-byte length field whose first byte is 0x80 or more announces at least 2 GiB and the turn is refused with `LengthOverrun`. |
| Avc.ReadUnitPlaced | plugins/obs-outputs/ftl-stream.c:300-337 | A NAL read by one turn that passes the filter starts right after its length field, holds that length, fits the packet and is unmarked. |
| Avc.SplitFromPlacedAt | plugins/obs-outputs/ftl-stream.c:300-337 | Every entry the loop adds is well placed, passes the filter and is unmarked. |
| Avc.SplitFromOrdered | plugins/obs-outputs/ftl-stream.c:325-339 | Entries are added in parse order without overlapping. |
| Avc.SplitPlaced | plugins/obs-outputs/ftl-stream.c:332-337 | Every entry of a table filled from empty is well placed and unmarked before the marker write. |
| Avc.SplitWellFormed | plugins/obs-outputs/ftl-stream.c:283-347 | A split unit has at most 100 entries, in parse order, each inside the packet after its length field and passing the filter. Exactly the last entry is marked, in frame mode only. An empty packet gives an empty unit. |
| Avc.MarkerCountNone | plugins/obs-outputs/ftl-stream.c:335 | A table with no marked entry counts zero markers. |
| Avc.SplitMarkerCount | plugins/obs-outputs/ftl-stream.c:342-344 | A split frame has exactly one marked entry when it stores any NAL. A parameter-set header has none. |
| Avc.CodedPicBuffer.constructor | plugins/obs-outputs/ftl-stream.c:59-63 | A fresh table of 100 slots, none in use. |
| Avc.CodedPicBuffer.GetVideoFrame | plugins/obs-outputs/ftl-stream.c:283-347 | Appends the split NALs behind the entries in use and marks the last in frame mode. On an error it reports the error and empties the table. |
| AvcLayout.ReadBeOfBytes | plugins/obs-outputs/ftl-stream.c:310-315 | Reading back a big-endian field written with a number gives that number. |
| AvcLayout.BytesOfReadBe | plugins/obs-outputs/ftl-stream.c:310-315 | Re-encoding the number read from a field gives the field's bytes. |
| AvcLayout.FrameOfAt | plugins/obs-outputs/ftl-stream.c:315-325 | A frame built from NAL units has, at every length field, the length of its NAL followed by that NAL. |
| AvcLayout.FitsTableCount | plugins/obs-outputs/ftl-stream.c:293-337 | The loop over a frame finds a free slot at every turn iff fewer than 100 NALs are stored before the last NAL's turn; filtered NALs take no slot. |
| AvcLayout.SplitFromFrame | plugins/obs-outputs/ftl-stream.c:291-340 | The loop over a well-laid-out frame, behind any stored entries, stores exactly the kept NALs, each at its offset with its length, whenever every turn finds a free slot. |
| AvcLayout.SplitFromFrameOverflow | plugins/obs-outputs/ftl-stream.c:293-296 | The loop over a frame that runs out of slots at some turn stops with `BuffersFull`. |
| AvcLayout.SplitFrame | plugins/obs-outputs/ftl-stream.c:283-347 | A frame splits without error into the predicted entries, with the last one marked, iff every turn finds a free slot; otherwise it gives `BuffersFull`. |
| AvcLayout.FrameNalusPayloads | plugins/obs-outputs/ftl-stream.c:333-334 | The predicted entries point at exactly the kept NAL units, in order. |
| AvcLayout.PayloadsIgnoreMark | plugins/obs-outputs/ftl-stream.c:342-344 | Setting the marker bit does not change what the entries point at. |
| AvcLayout.SplitFramePayloads | plugins/obs-outputs/ftl-stream.c:314-339 | Round trip: a built frame splits without error iff every turn finds a free slot (fewer than 100 kept NALs before the last one), and then the entries point at exactly the NAL units that pass the filter, in order. |
| AvcLayout.KeptPayloadsAll | plugins/obs-outputs/ftl-stream.c:332-337 | When every NAL passes the filter, the kept NAL units are all of them. |
| AvcLayout.SplitFrameFull | plugins/obs-outputs/ftl-stream.c:293-296 | A frame of more than 100 NAL units that all pass the filter is refused with `BuffersFull`. |
| AvcLayout.SplitFilterExample | plugins/obs-outputs/ftl-stream.c:327-344 | A frame of IDR, SEI, AUD, filler and P slice stores the IDR and the P slice in order, and marks the P slice. |
| AvcLayout.HeaderParts | plugins/obs-outputs/ftl-stream.c:300-313 | In a parameter-set blob, the SPS length is read at bytes 6-7 and the PPS length 3 bytes after the SPS ends. |
| AvcLayout.SplitHeader | plugins/obs-outputs/ftl-stream.c:300-313 | A parameter-set blob splits into the SPS at offset 8 and the PPS right after its length, both unmarked. |
| AvcAsWritten.GuardMissesByFour | plugins/obs-outputs/ftl-stream.c:315-321 | The length check as written misses exactly the NALs that overrun by 1 to 4 bytes. The corrected turn refuses every overrun. |
| AvcAsWritten.GuardMissesExample | plugins/obs-outputs/ftl-stream.c:315-325 | On `00 00 00 05 65 88` the check does not warn, yet the NAL runs past the end; the corrected split reports `LengthOverrun`. |
| AvcAsWritten.MarkAsWrittenAgrees | plugins/obs-outputs/ftl-stream.c:342-344 | The marker write falls outside the table exactly for a frame with no stored NAL; otherwise it agrees with `Mark`. |
| AvcAsWritten.MarkOutsideExample | plugins/obs-outputs/ftl-stream.c:332-344 | A frame holding only an AUD with `nri` 0 stores nothing, so the marker write hits index -1. |
| AvcAsWritten.FilledWhenFull | plugins/obs-outputs/ftl-stream.c:293-296 | When the loop stops for lack of slots, the source's table holds all 100 entries. |
| AvcAsWritten.FilledUnmarked | plugins/obs-outputs/ftl-stream.c:335 | The source's table has no marked entry when its loop stops. |
| AvcAsWritten.OverflowSendsUnmarked | plugins/obs-outputs/ftl-stream.c:293-296 | On overflow the source leaves 100 unmarked entries, which `send_packet` sends without closing the frame. |
| AvcAsWritten.OverflowFrame | plugins/obs-outputs/ftl-stream.c:357-370 | Every frame whose loop runs out of slots before its last NAL shows the overflow finding. |
| AvcAsWritten.NegativeLengthIff | plugins/obs-outputs/ftl-stream.c:315 | The length the source assembles by shifts into an `int` is negative iff the field's first byte is 0x80 or more. |
| AvcAsWritten.NegativeLengthRepeats | plugins/obs-outputs/ftl-stream.c:315-339 | On `FF FF FF FC 09` the source reads length -4, ends the turn back at position 0 with nothing stored, and so repeats forever; the corrected split reports `LengthOverrun`. |
| Packets.KeptRemovedPartition | plugins/obs-outputs/ftl-stream.c:728-745 | The packets a drop keeps and those it discards together make up the old queue, as multisets and in number. |
| Packets.KeptSurvive | plugins/obs-outputs/ftl-stream.c:734-745 | Every kept packet is audio or of the highest drop priority; no discarded packet is. |
| Packets.KeptCount | plugins/obs-outputs/ftl-stream.c:734-745 | Every surviving packet is kept as often as it was queued; no other packet is kept. |
| Packets.KeptAppend | plugins/obs-outputs/ftl-stream.c:728-738 | The drop keeps order: filtering a concatenation is concatenating the filtered halves. |
| Packets.KeptAllSurvive | plugins/obs-outputs/ftl-stream.c:734-738 | A queue of survivors is left unchanged. |
| Packets.MaxDropPriorityIsMax | plugins/obs-outputs/ftl-stream.c:720-750 | `min_priority` after a drop is at least 0 and at least every discarded drop priority. It is 0 or one of them. |
| Packets.DropState | plugins/obs-outputs/ftl-stream.c:717-755 | After a drop, the queue is exactly the survivors with their multiplicities. `dropped_frames` grows by the number removed. `min_drop_dts_usec` is the dts of the old last packet, or 0. |
| Packets.DropIdempotent | plugins/obs-outputs/ftl-stream.c:717-755 | A second drop keeps the same packets, removes none and sets `min_priority` to 0. |
| Packets.CheckDropCases | plugins/obs-outputs/ftl-stream.c:757-780 | The drop check is a drop when one is due. With fewer than 5 packets, a head older than the last drop, or a span within the threshold, nothing changes. |
| Packets.PushPop | plugins/obs-outputs/ftl-stream.c:703-710 | Queueing appends at the back; the next pop returns the old head, or the new packet when the queue was empty. |
| Packets.Drain | plugins/obs-outputs/ftl-stream.c:267-281 | Popping until empty returns the queued packets in queue order. |
| Packets.AddVideoCases | plugins/obs-outputs/ftl-stream.c:782-797 | After the drop check, a packet is queued iff its priority reaches `min_priority`. A refused packet adds one dropped frame. A queued one goes to the back, clears `min_priority` and becomes the latest dts. |
| Packets.SubmitAudio | plugins/obs-outputs/ftl-stream.c:819-823 | Audio is always queued, whatever the drop state. |
| FtlOutput.SentUnitInside | plugins/obs-outputs/ftl-stream.c:363-365 | Every NAL `send_packet` hands to the ingest library lies inside the packet. |
| FtlOutput.UnitCallsAt | plugins/obs-outputs/ftl-stream.c:362-365 | The NAL loop makes one call per table entry, in table order, each with that entry's bytes and marker bit. |
| FtlOutput.VideoCalls | plugins/obs-outputs/ftl-stream.c:357-370 | For a video packet, one video call per stored NAL of its split, in order, with the packet's dts and the NAL's bytes; only the last call is marked, and only in frame mode. |
| FtlOutput.FrameCalls | plugins/obs-outputs/ftl-stream.c:357-370 | Sending a video packet that carries a built frame calls the ingest library once per NAL that passes the filter, in order, with its bytes, marking only the last; a frame that does not fit the table makes no call. |
| FtlOutput.FramesSentBy | plugins/obs-outputs/ftl-stream.c:363-370 | Sending a packet adds one to `frames_sent` iff it is a video frame, not a header, whose split succeeds and stores a NAL. |
| FtlOutput.FtlStream.constructor | plugins/obs-outputs/ftl-stream.c:1019-1024 | A connected, active stream with an empty queue and zero drop state and counters. |
| FtlOutput.FtlStream.Enqueue | plugins/obs-outputs/ftl-stream.c:703-710 | `add_packet`: the new state is `Push` of the old one, and it returns true. |
| FtlOutput.FtlStream.PopFront | plugins/obs-outputs/ftl-stream.c:267-281 | `get_next_packet`: the result and the new state are `Pop` of the old state. |
| FtlOutput.FtlStream.FreePackets | plugins/obs-outputs/ftl-stream.c:132-148 | Empties the queue, returns how many packets it held, and leaves everything else as it was. |
| FtlOutput.FtlStream.DropFrames | plugins/obs-outputs/ftl-stream.c:717-755 | The pop/push loop leaves the state `Drop` of the old state. |
| FtlOutput.FtlStream.CheckToDrop | plugins/obs-outputs/ftl-stream.c:757-780 | The new state is `CheckDrop` of the old one. |
| FtlOutput.FtlStream.AddVideo | plugins/obs-outputs/ftl-stream.c:782-797 | The new state and the result are `AddVideo` of the old state. |
| FtlOutput.FtlStream.Data | plugins/obs-outputs/ftl-stream.c:800-831 | A disconnected or inactive stream queues nothing; otherwise the new state and the result are `Submit` of the old state. |
| FtlOutput.FtlStream.SendUnits | plugins/obs-outputs/ftl-stream.c:362-370 | The calls made are one per table entry in use, in table order, with its bytes and marker bit. The result is the sum of the bytes they report, and `frames_sent` grows by the number of marked entries. |
| FtlOutput.FtlStream.SendPacket | plugins/obs-outputs/ftl-stream.c:349-383 | A video packet leaves the NAL table holding its split (empty when the split fails) and makes one call per stored NAL; an audio packet leaves the table alone and is sent whole in one call. `frames_sent` grows by the marked entries sent, `total_bytes_sent` by the reported bytes, and it returns 0. |
| SendThread.SentPacketsPrefix | plugins/obs-outputs/ftl-stream.c:413-428 | The packets sent are a prefix of the queue. When stopping with `stop_ts` 0, nothing is sent. Otherwise exactly the packets before the first with `sys_dts_usec >= stop_ts` are sent, or all when not stopping. |
| SendThread.KeyframesFollowHeaders | plugins/obs-outputs/ftl-stream.c:430-436 | Every keyframe sent comes right after the parameter-set headers carrying its dts. |
| SendThread.MediaInOrder | plugins/obs-outputs/ftl-stream.c:413-441 | The packets handed to `send_packet` are the sent packets, in queue order. |
| ErrorMap.ToObsOutcome | plugins/obs-outputs/ftl-stream.c:1091-1155 | SUCCESS and USER_DISCONNECT give success, and the twelve refusal codes give CONNECT_FAILED. NO_MEDIA_TIMEOUT gives DISCONNECTED, and every other code gives ERROR. Each is an if-and-only-if. |

## Left out

- Threads, semaphores, events and atomics are not modelled:
  - `ftl_stream_start`, `ftl_stream_stop`, `ftl_stream_destroy`, `connect_thread`,
    `status_thread` and `reset_semaphore`;
  - the semaphore wait loop of `send_thread`. Its stop rule is `SendThread.SentPackets`,
    over a fixed queue and a fixed stopping state.
- The ingest library (`ftl_ingest_*`) is foreign code. Its media send is the
  `MediaSend` parameter, and connect, status, speed test and disconnect are not
  modelled.
- `obs_parse_avc_packet`, `obs_parse_avc_header`, `obs_encoder_get_extra_data` and
  the other libobs helpers are foreign code. Their output is modelled only as the
  byte layouts of `AvcLayout`; a queued packet is taken as already parsed.
- `lookup_ingest_ip` is not modelled: it does DNS lookups and string copying.
- Most of `init_connect` is not modelled: its settings, strings and the
  floating-point peak bitrate. Only its counter resets appear, as the
  `FtlStream` constructor.
- `set_peak_bitrate`, the status-thread statistics, the properties and defaults,
  and the commented-out RTMP code are left out. They are network probes, UI or
  dead code.
- Integer widths are not modelled. `int` lengths and counters, `int64_t`
  timestamps and the `uint64_t` byte total are unbounded here.
- Avc.ReadUnit reads a 4-byte length as unsigned. In the source the length is an
  `int` assembled by shifts, so any frame whose length field starts with a byte
  of 0x80 or more gets a negative length and moves the loop backwards. The
  model refuses such a field as too long, which is Finding 4; the out-of-bounds
  reads the source then makes are not modelled.
- Avc.ReadUnit refuses a length field or NAL header that lies past the end of
  the packet (`Truncated`). The source reads those bytes out of bounds, which has
  no defined result to model. This is part of Finding 1.
- `send_packet` warns on a packet type other than audio and video. `EncoderType`
  has only those two kinds, so that branch is not modelled.
- `send_thread` breaks on a negative result of `send_packet` or a failing
  `send_headers`. Neither can happen: `send_packet` always returns 0, as
  `SendPacket` states. The disconnect path is therefore not modelled.
- `sent_headers`, `frames_sent` resets in `ftl_stream_start`, and the unused
  `send_marker_bit` local and `complete_frame` field are not modelled.

## Findings

| source | as written | input that shows it | evidently intended | confidence | as-written member | corrected member |
|---|---|---|---|---|---|---|
| plugins/obs-outputs/ftl-stream.c:315-325 | The frame-mode check compares the length with the bytes left before the 4-byte field is skipped, and only warns. Header mode has no check at all. The loop then stores the NAL and reads past the packet. | Frame `00 00 00 05 65 88`: 6 bytes, length 5, NAL at offset 4 ending at 9; no warning is logged. | A NAL that does not fit the rest of the packet is refused and the packet dropped. | not executed | AvcAsWritten.GuardMissesExample | Avc.SplitWellFormed |
| plugins/obs-outputs/ftl-stream.c:342-344 | In frame mode the marker is written at `total - 1` even when no NAL was stored. | Frame `00 00 00 02 09 F0` (one AUD with `nal_ref_idc` 0), or an empty packet: `total` is 0 and index -1 is written. | Mark the last NAL only when one was stored. | not executed | AvcAsWritten.MarkOutsideExample | Avc.SplitMarkerCount |
| plugins/obs-outputs/ftl-stream.c:293-296 | When the 100 slots are full, the function returns -1 before the marker write. `send_packet` ignores that result (line 360) and sends the 100 stored NALs, none marked. | Any frame of 101 NAL units that all pass the filter, e.g. 101 one-byte IDR slices `65`. | Refuse the packet and send no partial access unit. | not executed | AvcAsWritten.OverflowSendsUnmarked | Avc.CodedPicBuffer.GetVideoFrame |
| plugins/obs-outputs/ftl-stream.c:315-339 | The 4-byte length is shifted into a signed `int`, so a first byte of 0x80 or more gives a negative length. `consumed` and `video_stream` then move backwards, and the loop can return to a state it was in before. | Frame `FF FF FF FC 09`: length -4, the turn ends back at position 0 with the AUD (`nal_ref_idc` 0) not stored, so the loop never ends. | Read the length as unsigned and refuse one that does not fit the packet, so every turn moves forward. | not executed | AvcAsWritten.NegativeLengthRepeats | Avc.HighLengthRefused |
