# Verified models of lwIP 1.4.1

A Dafny project that models the hard parts of lwIP 1.4.1 and proves what they promise: the TCP
data path, the heap, packet buffers, checksums, `select`, the netconn request machine, timers,
the ARP table and SLIP.  `dafny verify dfyconfig.toml` checks all of it.

| modules | subject |
|---|---|
| `TcpSegment`, `TcpSend`, `TcpSendProofs`, `TcpSendLaws`, `TcpSendPcb` | the queues `unsent` and `unacked`: writing, output, retransmission, acknowledgement |
| `TcpRecv`, `TcpRecvProofs`, `TcpHeld`, `TcpWindow`, `TcpRecvPcb` | in-sequence data, the numbers `ooseq` holds, the receive window and its announcement |
| `TcpStream`, `TcpExamples`, `SeqNum` | sender, lossy network, receiver and application in unbounded runs; runs that go wrong; 32-bit comparisons |
| `HeapModel`, `HeapArray`, `HeapInterrupted` | first-fit heap: block lists, headers in memory, frees that interrupt an allocation |
| `PbufModel`, `PbufOps`, `PbufResize`, `PbufArena`, `PbufCopy`, `PbufWalk`, `PbufRun`, `PbufExamples` | reference-counted chains that share tails |
| `Checksum`, `ChecksumUse` | three checksum algorithms, chains, pseudo headers, UDP and ICMP |
| `Select`, `SelectProofs` | `select` against `event_callback` |
| `Netconn` | API messages and TCP callbacks on one connection |
| `Timers`, `Arp`, `Slip` | delta-encoded timers, ARP table, SLIP framing |

Each subject has functions on values that say what the code computes, lemmas that say what is
true of them, and, since the code works in place, classes or loops proved equal to the functions.
C linked lists are sequences or maps that the methods reassign; the heap and the ARP table keep
their arrays.  Outcomes of allocations, clocks, window and congestion values, and answers of other
layers are parameters that range over everything.

## What the code does not do

Where a promise turned out false, the model keeps the code and proves exactly when the promise holds.

- A fast-retransmitted segment that stays on `unsent` because the window closed makes the next
  `tcp_write` or `tcp_send_fin` append to the wrong segment, and a timeout unsorts `unsent`
  (`TcpSendProofs.WriteExact`, `FinExact`, `RtoOrderedExact`; `TcpExamples.StuckRetransmission` is a run).
- `pbuf_clen` counts in 8 bits, so acknowledging a segment of 256 pbufs or more leaves `snd_queuelen` too large for
  good (`TcpSendProofs.AckLeakExact`, `TcpStream.QueuelenExact`; `TcpExamples.QueuelenLeaks` is a run).
- The first segment on an empty `ooseq`, and one inserted before others, is not trimmed to the window, and
  `tcp_output` does not count a FIN against the window: `rcv_wnd` can wrap below zero, after which
  the announced edge is no longer bounded (`TcpRecvProofs.OverrunExact`, `WindowWraps`, `FinCorrectionExact`; `TcpExamples.OverrunWraps` is a run).
- A segment without FIN that starts inside a queued one makes `ooseq` lose what the queued one held behind it
  (`TcpHeld.PlaceHeld`, `QueuedStays`, `LostExample`); the bytes come again when the peer retransmits.
- The question in the source whether `ackno - lastack` can exceed 64K: only with TCP_SND_BUF == 0xffff
  (`TcpSendProofs.AckWrapExact`; `TcpExamples.AckWraps` is a run).  There `snd_buf` overflows as soon as a FIN on the
  last segment is acknowledged (`TcpSendProofs.AckInv`).
- The window check for the last queued segment compares wrapped numbers directly: at a turn of the sequence space it
  can keep an overrun, or give a segment a length beyond its data (`SeqNum.RawCompareExact`,
  `TcpRecvProofs.RawTrimExact`, `RawPlaceExact`, `RawTrimWrong`).
- `pbuf_cat`, `pbuf_realloc`, `pbuf_dechain` and `pbuf_header` leave wrong totals in pbufs outside the chain
  that share what they change (`PbufOps.CatTotExact`, `PbufResize.ReallocTotExact`, `DechainExact`, `HeaderExact`;
  runs in `PbufExamples`).
- `pbuf_free` counts in 8 bits, so `pbuf_dechain` can return a pointer to a released pbuf
  (`PbufArena.Arena.PbufDechain`; `PbufExamples.DechainDangles` is a run).
- `pbuf_copy` can take a chain that ends in an empty pbuf for a packet queue; the lengths decide
  (`PbufCopy.PbufCopy`, `PbufWalk.OutcomeExact`; `PbufExamples.CopyRefused` is a run).
- `pbuf_take` answers ERR_OK when it has no chain to copy to (`PbufCopy.PbufTake`).
- `sys_timeout` does not read the clock: a timer counts from the last call that served one, and comes too early by the
  time since then (`Timers.EarlyExact`, `EarlyExample`).
- `sys_check_timeouts` sets its reference time to now but leaves the list relative to the last deadline served: what
  remains is late by the difference (`Timers.DriftExact`, `DriftQuiet`, `LateExample`).
- A write that fails after `tcp_write` took some bytes reports none (`Netconn.ReportExact`, `ReportExample`).
- A write that is given up after TCP took some bytes leaves `write_offset` behind, which the next write, close or
  deletion asserts to be 0 (`Netconn.CleanExact`, `OffsetExample`).
- The echo reply to a request that is zero but for type and checksum has an invalid checksum
  (`ChecksumUse.EchoExact`, `BlankRequest`).

## Model

| member | source | states |
|---|---|---|
| `TcpSendProofs.WriteExact` | lwip-1.4.1/src/core/tcp_out.c:399-709 | `tcp_write` leaves every unacknowledged byte in exactly one queued segment, all queued bytes equal to the stream extended by the given data, segments within `mss_local`, `snd_queuelen` at least the pbufs queued and `snd_buf` exact, if and only if it appends nothing to a last unsent segment that ends before `snd_lbb` |
| `TcpSendProofs.WriteOrdered` | lwip-1.4.1/src/core/tcp_out.c:625-709 | writing keeps `unsent` and `unacked` sorted and free of acknowledged segments |
| `TcpSendProofs.FinExact` | lwip-1.4.1/src/core/tcp_out.c:125-142 | `tcp_send_fin` keeps the sender's invariant if and only if the last unsent segment ends the stream; `snd_lbb` is bumped only for a FIN of its own |
| `TcpSendProofs.FinOrdered` | lwip-1.4.1/src/core/tcp_out.c:722-819 | closing keeps both queues sorted |
| `TcpSendProofs.OutputInv` | lwip-1.4.1/src/core/tcp_out.c:898-1040 | `tcp_output` moves segments without losing or duplicating a byte, and what it sends are bytes of the stream at their own place |
| `TcpSendProofs.OutputOrdered` | lwip-1.4.1/src/core/tcp_out.c:1005-1030 | a sent segment goes to its sorted place on `unacked` |
| `TcpSendProofs.RtoInv` | lwip-1.4.1/src/core/tcp_out.c:1239-1265 | `tcp_rexmit_rto` loses and duplicates nothing, whatever waits on `unsent` |
| `TcpSendProofs.RtoOrderedExact` | lwip-1.4.1/src/core/tcp_out.c:1239-1257 | after it `unsent` is sorted if and only if no fast retransmission was waiting there |
| `TcpSendProofs.RexmitInv` | lwip-1.4.1/src/core/tcp_out.c:1275-1312 | `tcp_rexmit` moves one segment between the queues and keeps every byte held once |
| `TcpSendProofs.RexmitOrdered` | lwip-1.4.1/src/core/tcp_out.c:1286-1301 | and keeps both queues sorted |
| `TcpSendProofs.ProbeAgrees` | lwip-1.4.1/src/core/tcp_out.c:1414-1484 | a zero window probe carries only a byte of the stream or its FIN |
| `TcpSendProofs.AckFits` | lwip-1.4.1/src/core/tcp_in.c:974-981 | the new `snd_buf`, and with it `ackno - lastack`, fits 16 bits if and only if TCP_SND_BUF < 0xffff or the acknowledgement does not cover a FIN that rides on the last segment |
| `TcpSendProofs.AckWrapExact` | lwip-1.4.1/src/core/tcp_in.c:974-977 | the difference exceeds 16 bits exactly when TCP_SND_BUF is 0xffff and a full buffer is acknowledged together with a FIN on its last segment |
| `TcpSendProofs.AckInv` | lwip-1.4.1/src/core/tcp_in.c:1008-1082 | an acknowledgement keeps the invariant if and only if the space it frees can be counted (`SpaceFits`): nothing above `lastack` is dropped, `snd_buf + (snd_lbb - lastack)` stays TCP_SND_BUF, `snd_queuelen`, from which 8-bit pbuf counts are subtracted, stays at least the pbufs queued |
| `TcpSendProofs.AckLeakExact` | lwip-1.4.1/src/core/tcp_in.c:1026-1075 | an acknowledgement leaves `snd_queuelen` as far from the pbufs queued as before if and only if no segment it frees has 256 pbufs or more; otherwise it stays too large |
| `TcpSendProofs.AckReports` | lwip-1.4.1/src/core/tcp_in.c:1017-1030 | the application is told exactly how many of its own bytes were acknowledged, the FIN not among them, if and only if `ackno - lastack` fits 16 bits |
| `TcpSendProofs.AckOrdered` | lwip-1.4.1/src/core/tcp_in.c:1008-1082 | acknowledgements keep both queues sorted and free of acknowledged segments |
| `TcpSendProofs.TailFromSeparated` | lwip-1.4.1/src/core/tcp_out.c:423-441 | while no fast retransmission waits on `unsent`, its last segment ends at `snd_lbb` |
| `TcpSendProofs.WindowGrows` | lwip-1.4.1/src/core/tcp_in.c:874-878 | a larger `snd_wnd_max` keeps the invariant |
| `TcpSendProofs.ChunksHold` | lwip-1.4.1/src/core/tcp_out.c:550-640 | every number of the remaining data is held by exactly one segment of phase 3, and no other number by any |
| `TcpSendProofs.ChunksAgree` | lwip-1.4.1/src/core/tcp_out.c:550-640 | the segments of phase 3 carry only bytes of the stream at their own place, none is empty and none above `mss_local` |
| `TcpSendLaws.SentExact` | lwip-1.4.1/src/core/tcp_out.c:918-1033 | what `tcp_output` sends is a stretch of `unsent` from the front, and the rest stays: a segment goes if and only if the ones before it do, its data ends within `snd_wnd` and within `cwnd` from `lastack`, and it is not a lone short segment that Nagle's algorithm keeps back (written out: something unacknowledged, no TF_NODELAY, TF_INFR, TF_NAGLEMEMERR or TF_FIN, send buffer and queue not full) |
| `TcpSendLaws.OutputMoves` | lwip-1.4.1/src/core/tcp_out.c:985-1040 | exactly the segments sent move to `unacked`, `snd_nxt` becomes the largest end among them unless it was beyond, and nothing else changes but `unsent_oversize`, which is reset once nothing is unsent |
| `TcpSendLaws.WriteFills` | lwip-1.4.1/src/core/tcp_out.c:423-640 | a write fills the last unsent segment before it makes new ones, and every new one but the last holds exactly `mss_local` bytes, the smaller of the MSS and half the largest window; one pbuf is chained exactly if the spare bytes do not suffice, new segments have one pbuf, or two without copying |
| `TcpSendLaws.WriteCounts` | lwip-1.4.1/src/core/tcp_out.c:625-700 | `snd_lbb`, `snd_buf` and `snd_queuelen` move by exactly what was written, and nothing else changes but `unsent` and `unsent_oversize` |
| `TcpSendLaws.SpareExact` | lwip-1.4.1/src/core/tcp_out.c:219-262 | `tcp_pbuf_prealloc` leaves spare bytes only when more data is expected: the aligned TCP_OVERSIZE, or what is left up to the maximum |
| `TcpSendLaws.WriteSpare` | lwip-1.4.1/src/core/tcp_out.c:550-608 | after a write that made segments, `unsent_oversize` is the spare tail of the last one, and 0 for data that is not copied |
| `TcpSendLaws.WriteKeepsSpare` | lwip-1.4.1/src/core/tcp_out.c:440-513 | after one that made none it is what is left of the old spare tail if that sufficed, and otherwise the spare tail of the chained pbuf |
| `TcpSendLaws.RexmitMoves` | lwip-1.4.1/src/core/tcp_out.c:1275-1312 | `tcp_rexmit` takes exactly the first segment off `unacked` and puts it on `unsent` behind all with smaller numbers, with `unsent_oversize` reset exactly if it becomes the last |
| `TcpSendLaws.ProbeExact` | lwip-1.4.1/src/core/tcp_out.c:1414-1484 | a probe takes exactly one number, the first that is queued, `unacked` before `unsent` |
| `TcpSendLaws.AckExact` | lwip-1.4.1/src/core/tcp_in.c:944-1082 | an acknowledgement moves `lastack` exactly if it is new and of something sent, and then takes off the front of both queues exactly the segments that end at or before it; any other leaves `unacked` but for the retransmission of the third duplicate |
| `TcpSendPcb.SendPcb.Write` | lwip-1.4.1/src/core/tcp_out.c:354-709 | `tcp_write` is a transaction: on ERR_OK the new state is `Written`, on any error the whole state and the pbuf and segment pools are as before; ERR_CONN and ERR_MEM exactly when the checks refuse or memory or the queue length runs out |
| `TcpSendPcb.SendPcb.WriteChecks` | lwip-1.4.1/src/core/tcp_out.c:294-335 | ERR_CONN and ERR_MEM exactly under their conditions |
| `TcpSendPcb.SendPcb.FillLast` | lwip-1.4.1/src/core/tcp_out.c:423-513 | phases 1 and 2 and the spare tail they leave |
| `TcpSendPcb.CreateSegments` | lwip-1.4.1/src/core/tcp_out.c:521-608 | the loop of phase 3: contiguous segments, and on failure everything allocated is counted for release |
| `TcpSendPcb.QueueExact` | lwip-1.4.1/src/core/tcp_out.c:560-604 | a write fails for the queue length exactly if it makes segments and `snd_queuelen` would exceed TCP_SND_QUEUELEN or 0xfffc; what it allocates for them is their pbufs and the segments |
| `TcpSendPcb.SendPcb.SendFin` | lwip-1.4.1/src/core/tcp_out.c:125-142 | FIN on the last unsent segment, or in a segment of its own that takes one number, one byte of send space and one pbuf; on ERR_MEM nothing changes |
| `TcpSendPcb.SendPcb.Transmit` | lwip-1.4.1/src/core/tcp_out.c:898-1040 | the loop of `tcp_output` sends exactly the segments whose data ends within both windows up to the first that does not or that Nagle's algorithm keeps back, moves them to `unacked` and `snd_nxt` behind them; an empty ACK goes alone exactly if one is due and the first segment exceeds a window or there is none |
| `TcpSendPcb.SendPcb.RequeueAll` | lwip-1.4.1/src/core/tcp_out.c:1239-1265 | a timeout empties `unacked`, leaves every number held as often as before and the pbuf count as it was, and keeps the sender's invariant for every stream |
| `TcpSendPcb.SendPcb.RequeueFirst` | lwip-1.4.1/src/core/tcp_out.c:1275-1312 | exactly the first unacknowledged segment goes to its sorted place on `unsent`, and `unsent_oversize` is reset if that is the end |
| `TcpSendPcb.SendPcb.ReceiveAck` | lwip-1.4.1/src/core/tcp_in.c:944-1082 | `lastack` moves exactly to a new acknowledgement of something sent, and both queues lose exactly the segments in front that it covers; equals `Ack` |
| `TcpSendPcb.FreeAcked` | lwip-1.4.1/src/core/tcp_in.c:1008-1033 | the freeing loop drops exactly the acknowledged front and keeps `acked` and `snd_queuelen` in step |
| `TcpSendPcb.InsertBySeqno` | lwip-1.4.1/src/core/tcp_out.c:1286-1295 | the insertion loop finds the sorted place |
| `TcpRecvProofs.OosMeaning` | lwip-1.4.1/src/core/tcp_in.c:1372-1490 | what the queue invariant means: strictly sorted, no overlap, non-empty segments, FIN on the last only |
| `TcpRecvProofs.ReceiveQueued` | lwip-1.4.1/src/core/tcp_in.c:1120-1521 | every received segment keeps `ooseq` so, and strictly above `rcv_nxt`, through insertion, trimming, replacement and dequeue |
| `TcpRecvProofs.PlaceOos` | lwip-1.4.1/src/core/tcp_in.c:1385-1490 | placing a segment on a non-empty queue keeps it sorted and disjoint |
| `TcpRecvProofs.PlaceAgrees` | lwip-1.4.1/src/core/tcp_in.c:1385-1490 | whatever is cut or replaced, every queued byte stays the byte of the stream at its place |
| `TcpRecvProofs.DrainOos` | lwip-1.4.1/src/core/tcp_in.c:1327-1360 | dequeuing leaves the queue strictly above `rcv_nxt` |
| `TcpRecvProofs.ReceiveDelivers` | lwip-1.4.1/src/core/tcp_in.c:1120-1521 | what is delivered is exactly the part of the stream between the old and the new `rcv_nxt` |
| `TcpRecvProofs.ReceiveAnnounced` | lwip-1.4.1/src/core/tcp_in.c:1295-1301 | receiving keeps the announced edge from moving left and within the window |
| `TcpRecvProofs.SendInv` | lwip-1.4.1/src/core/tcp_out.c:1060-1066 | sending a segment moves the announced edge only right and never past `rcv_nxt + rcv_wnd` |
| `TcpRecvProofs.RecvedExact` | lwip-1.4.1/src/core/tcp.c:579-626 | after `tcp_recved` the announced edge is within the window if and only if the window, clamped to TCP_WND, reaches it, a window that had wrapped included |
| `TcpRecvProofs.FinCorrectionExact` | lwip-1.4.1/src/core/tcp_in.c:369-374 | the window correction for a FIN keeps it exactly unless `rcv_wnd` is 0xffff below TCP_WND |
| `TcpRecvProofs.PlaceFits` | lwip-1.4.1/src/core/tcp_in.c:1462-1490 | a queued segment passes the window edge exactly when it does so itself and is taken whole |
| `TcpRecvProofs.OverrunExact` | lwip-1.4.1/src/core/tcp_in.c:1372-1383 | after a segment `ooseq` lies within the window if and only if the segment was not stored whole beyond the edge |
| `TcpRecvProofs.WindowWraps` | lwip-1.4.1/src/core/tcp_in.c:1372-1376 | two segments between lwIP peers that make `rcv_wnd` wrap below zero |
| `TcpRecvProofs.RawTrimExact` | lwip-1.4.1/src/core/tcp_in.c:1467-1484 | the trimming of the last queued segment, with its direct comparison, is the intended one if and only if segment end and window edge lie in the same turn of the sequence space; otherwise an overrun is kept, or the segment gets a length beyond its data |
| `TcpRecvProofs.RawPlaceExact` | lwip-1.4.1/src/core/tcp_in.c:1385-1490 | queueing a segment leaves the intended queue if and only if it does not go behind all others or its end and the window edge lie in the same turn |
| `TcpRecvProofs.RawTrimWrong` | lwip-1.4.1/src/core/tcp_in.c:1467-1484 | an instance: a segment of 3 bytes gets the length 32 |
| `TcpHeld.PlaceHeld` | lwip-1.4.1/src/core/tcp_in.c:1385-1490 | placing a segment without FIN on a non-empty `ooseq`: exactly which numbers the queue holds afterwards, each once; all that queue and segment held but what lies beyond the window where the segment goes last, and what a queued segment held behind one that starts inside it |
| `TcpHeld.PlaceFinHeld` | lwip-1.4.1/src/core/tcp_in.c:1385-1490 | the same for a segment with FIN: what was queued before its number, and the segment itself unless it is not stored |
| `TcpHeld.EnqueueHeld` | lwip-1.4.1/src/core/tcp_in.c:1372-1490 | both, and the empty queue |
| `TcpHeld.LostExample` | lwip-1.4.1/src/core/tcp_in.c:1453-1484 | an instance: ten bytes from the middle of a queued segment of a hundred make the queue lose the forty behind them |
| `TcpHeld.AcceptHeld` | lwip-1.4.1/src/core/tcp_in.c:1246-1360 | a segment at `rcv_nxt` moves it to the first number that neither it, within the window, nor the queue holds, and the queue keeps exactly what it held from there on |
| `TcpHeld.ReceiveHeld` | lwip-1.4.1/src/core/tcp_in.c:1120-1521 | the receiver as a set of numbers, for every segment: `rcv_nxt` moves to the first number not held, the queue gains what the segment holds, and nothing else happens to either |
| `TcpHeld.QueuedStays` | lwip-1.4.1/src/core/tcp_in.c:1120-1521 | a number that was queued is passed by `rcv_nxt` or still queued, if and only if it is not lost behind a segment that starts inside a queued one, nor cut off at the window with the last one |
| `TcpWindow.RecvedOpens` | lwip-1.4.1/src/core/tcp.c:611-626 | `tcp_recved` makes the window the smaller of TCP_WND and the window plus what was taken, and moves nothing else |
| `TcpWindow.AnnounceExact` | lwip-1.4.1/src/core/tcp.c:579-605 | the edge announced is that of the window once it is ahead by the smaller of half the window and an MSS, otherwise the last one announced or `rcv_nxt`, whichever is further |
| `TcpWindow.WindowConserved` | lwip-1.4.1/src/core/tcp.c:611-626 | in every run without overrun in which the application confirms no more than it was given: the window, what was delivered and not confirmed, what is refused, and a FIN not yet reported make up TCP_WND |
| `TcpWindow.ToldStays` | lwip-1.4.1/src/core/tcp_out.c:1060-1066 | in every run without overrun, every window edge that an ACK has told the peer stays within the window and within what is announced later (section 4.2.2.16 of RFC 1122) |
| `TcpRecvPcb.OosInsertSegment` | lwip-1.4.1/src/core/tcp_in.c:800-831 | `tcp_oos_insert_segment` leaves a queue that holds every number of the segment and of the queue behind it once, or the segment alone if it has a FIN; the loop equals `InsertBefore` |
| `TcpRecvPcb.QueueSegment` | lwip-1.4.1/src/core/tcp_in.c:1372-1490 | the walk over `ooseq` leaves exactly the numbers that `EnqueueHeld` names, each once; equals `Enqueue` |
| `TcpRecvPcb.RecvPcb.ReceiveData` | lwip-1.4.1/src/core/tcp_in.c:1120-1521 | the data part of `tcp_receive` equals `Receive` |
| `TcpRecvPcb.RecvPcb.ReceiveInOrder` | lwip-1.4.1/src/core/tcp_in.c:1246-1360 | the in-sequence branch equals `AcceptInOrder` |
| `TcpRecvPcb.RecvPcb.UpdateRcvAnnWnd` | lwip-1.4.1/src/core/tcp.c:579-605 | the announcement is right afterwards if and only if the window reaches the edge announced last; the three cases and the extra window that is returned |
| `TcpRecvPcb.RecvPcb.DataTaken` | lwip-1.4.1/src/core/tcp.c:611-639 | `rcv_wnd` is the smaller of TCP_WND and what it was plus what was taken, and the edge is announced again by the rule of `tcp_update_rcv_ann_wnd`; the growth of the announced edge that decides on an immediate update is returned |
| `TcpRecvPcb.RecvPcb.ProcessRefusedData` | lwip-1.4.1/src/core/tcp.c:1085-1120 | offering refused data again keeps what the application has, with what it refused, the part of the stream it was, and loses the announced edge exactly when a FIN makes `rcv_wnd` overflow |
| `TcpRecvPcb.RecvPcb.InputSegment` | lwip-1.4.1/src/core/tcp_in.c:286-390 | refused data, receive and callbacks in the order of `tcp_input`, equal to `Input` |
| `TcpStream.InputAccount` | lwip-1.4.1/src/core/tcp_in.c:339-374 | one segment: what the application has, with what it refused, stays the prefix of the stream up to `rcv_nxt` |
| `TcpStream.InputTakes` | lwip-1.4.1/src/core/tcp_in.c:286-390 | while the application refuses what it refused before, data is not looked at; otherwise the segment is received, nothing stays refused by an application that accepts, and one that does not gets nothing new |
| `TcpStream.StepOk` | lwip-1.4.1/src/core/tcp_in.c:1120-1521 | every step of sender, receiver, application and network keeps the joint invariant |
| `TcpStream.EndToEnd` | lwip-1.4.1/src/core/tcp_in.c:1120-1521 | in every run with loss, duplication and reordering: delivered and refused data are a prefix of what was written, every number from `lastack` on is held by exactly one segment and none by two, end of stream only after all of it, `snd_buf` conserved and `snd_queuelen` never below the pbufs queued |
| `TcpStream.QueuesSorted` | lwip-1.4.1/src/core/tcp_out.c:962-1030 | in every run in which no timeout comes while a fast retransmission waits, both queues stay sorted; writing and closing stay possible whenever none is stuck |
| `TcpStream.AnnouncedEdge` | lwip-1.4.1/src/core/tcp.c:579-626 | over every run without an overrun the announced right edge never moves left and never passes `rcv_nxt + rcv_wnd` (section 4.2.2.16 of RFC 1122) |
| `TcpStream.QueuelenExact` | lwip-1.4.1/src/core/tcp_in.c:1026-1075 | in every run in which no write chains a pbuf to a segment of 255 pbufs, `snd_queuelen` is exactly the number of pbufs on both queues |
| `TcpStream.SmallQueue` | lwip-1.4.1/src/core/tcp_out.c:319-327 | with TCP_SND_QUEUELEN of at most 255 the check of `tcp_write` excludes such a write |
| `TcpStream.WithinHalf` | lwip-1.4.1/src/include/lwip/tcp_impl.h:93-101 | in those runs the 32-bit comparisons among two queued segments, acknowledgements from `lastack` on and the sender's numbers decide as unwrapped ones |
| `TcpStream.WithinHalfReceiver` | lwip-1.4.1/src/include/lwip/tcp_impl.h:93-101 | so do those among queued and arriving segments, `rcv_nxt` and the window edge, for segments not yet acknowledged completely |
| `TcpExamples.StuckRetransmission` | lwip-1.4.1/src/core/tcp_out.c:1286-1295 | a run from the start: two segments, a third duplicate ACK and a window that closes leave a retransmission on `unsent`; a write and a close then corrupt the stream and a timeout unsorts `unsent` |
| `TcpExamples.QueuelenLeaks` | lwip-1.4.1/src/core/tcp_in.c:1026-1075 | a run from the start: 300 one-byte writes on one segment, sent and acknowledged, leave `snd_queuelen` at 256 with both queues empty |
| `TcpExamples.OverrunWraps` | lwip-1.4.1/src/core/tcp_in.c:1372-1376 | a run from the start between lwIP peers with a window of two bytes: a FIN beyond the window overtakes, `rcv_wnd` becomes 0xffff, and taking the refused data loses the announced edge |
| `TcpExamples.AckWraps` | lwip-1.4.1/src/core/tcp_in.c:974-981 | a run from the start that fills a buffer of 0xffff bytes, closes and sends: the acknowledgement of all of it gives no send space back |
| `SeqNum.DiffExact` | lwip-1.4.1/src/include/lwip/tcp_impl.h:93-96 | the signed 32-bit difference is the true one exactly within half the sequence space |
| `SeqNum.CompareUnwrapped` | lwip-1.4.1/src/include/lwip/tcp_impl.h:93-96 | TCP_SEQ_LT and TCP_SEQ_LEQ compare unwrapped numbers there |
| `SeqNum.BetweenUnwrapped` | lwip-1.4.1/src/include/lwip/tcp_impl.h:101 | so does TCP_SEQ_BETWEEN |
| `SeqNum.RawCompareExact` | lwip-1.4.1/src/core/tcp_in.c:1467 | the direct comparison is right exactly while both numbers lie in the same turn of the sequence space |
| `SeqNum.RawCompareWrong` | lwip-1.4.1/src/core/tcp_in.c:1467 | an instance on the two sides of a turn |
| `HeapModel.FreeSound` | lwip-1.4.1/src/core/mem.c:311-356 | freeing keeps the blocks tiling the heap, no two free ones adjacent, none below `lfree`, and the statistic exact |
| `HeapModel.FreeTiles` | lwip-1.4.1/src/core/mem.c:235-268 | it gives back exactly the block's extent and leaves every other used block alone |
| `HeapModel.FreeLow` | lwip-1.4.1/src/core/mem.c:335-343 | `lfree` stays the lowest free block |
| `HeapModel.CommitTiles` | lwip-1.4.1/src/core/mem.c:556-594 | taking a block adds one extent out of free space and nothing else, with at least the requested size and less than a header and MIN_SIZE more |
| `HeapModel.CommitTight` | lwip-1.4.1/src/core/mem.c:553-594 | the block handed out wastes less than a block of its own would need: if the free block had that much more, it has exactly the requested size and the rest is one free block; the statistic grows by less than the size, two headers and MIN_SIZE |
| `HeapModel.FirstFitExact` | lwip-1.4.1/src/core/mem.c:536-560 | the first free block with room for a header and the size; the end only if no free block has it |
| `HeapModel.TrimTight` | lwip-1.4.1/src/core/mem.c:425-478 | what trimming gives back goes to a free block behind or becomes one of its own if it can hold a header and MIN_SIZE; otherwise nothing changes |
| `HeapModel.MallocOk` | lwip-1.4.1/src/core/mem.c:494-633 | `mem_malloc` keeps the heap sound and `lfree` the lowest free block |
| `HeapModel.TrimTiles` | lwip-1.4.1/src/core/mem.c:369-482 | trimming replaces the block's extent by a shorter one with the same start, everything else unchanged |
| `HeapModel.TrimLow` | lwip-1.4.1/src/core/mem.c:427-457 | `lfree` stays the lowest free block |
| `HeapModel.TrimSound` | lwip-1.4.1/src/core/mem.c:369-482 | and the heap sound |
| `HeapModel.UsedDisjoint` | lwip-1.4.1/src/core/mem.c:150-165 | used extents of a tiling are pairwise disjoint |
| `HeapModel.FirstFreeLowest` | lwip-1.4.1/src/core/mem.c:598-617 | the search for the next free block finds the lowest one |
| `HeapModel.CutAligned` | lwip-1.4.1/src/core/mem.c:505-516 | allocating and trimming keep every block aligned |
| `HeapModel.FreeAligned` | lwip-1.4.1/src/core/mem.c:235-268 | so does freeing |
| `HeapArray.MemHeap.constructor` | lwip-1.4.1/src/core/mem.c:274-302 | `mem_init` builds one free block |
| `HeapArray.MemHeap.PlugHoles` | lwip-1.4.1/src/core/mem.c:235-268 | on the headers in memory, `plug_holes` merges with exactly the free neighbours and keeps both directions of links |
| `HeapArray.MemHeap.MemFree` | lwip-1.4.1/src/core/mem.c:311-356 | equals `Free`; NULL and foreign pointers change nothing |
| `HeapArray.MemHeap.MemTrim` | lwip-1.4.1/src/core/mem.c:369-482 | the block shrinks to less than the request, a header and MIN_SIZE, what it gives back is one free block; NULL exactly for a request that cannot be met; equals `Trim` |
| `HeapArray.MemHeap.MemMalloc` | lwip-1.4.1/src/core/mem.c:494-633 | returns exactly the first fit of a scan over the whole heap, aligned, and NULL exactly if no free block has room; a block handed out has less than a header and MIN_SIZE to spare, the rest is one free block; equals `Malloc` |
| `HeapArray.MallocTight` | lwip-1.4.1/src/core/mem.c:536-594 | either no free block has room for the request, or the first that has is handed out, cut to size |
| `HeapArray.MemHeap.Scan` | lwip-1.4.1/src/core/mem.c:536-560 | the scan from `lfree` with its early stop finds the same block as a full scan |
| `HeapArray.Relink` | lwip-1.4.1/src/core/mem.c:556-590 | rewriting the headers of one stretch of blocks keeps all other links |
| `HeapInterrupted.RunSafe` | lwip-1.4.1/src/core/mem.c:521-633 | in every interleaving of frees and trims with the windows of allocations: heap sound, no free block below `lfree`, callers' blocks disjoint, statistic exact |
| `HeapInterrupted.FirstFitNow` | lwip-1.4.1/src/core/mem.c:536-560 | in every run an allocation takes the first fit of the heap as it stands when the block is committed, and fails only if nothing fits it then |
| `HeapInterrupted.FreeOtherInv` | lwip-1.4.1/src/core/mem.c:335-355 | a free at any window keeps the allocation's state consistent |
| `HeapInterrupted.TrimOtherInv` | lwip-1.4.1/src/core/mem.c:419-480 | so does a trim, which shortens the block as `TrimTight` says and nothing else |
| `HeapInterrupted.UninterruptedMalloc` | lwip-1.4.1/src/core/mem.c:521-633 | left alone, the interruptible allocation ends and equals the sequential one |
| `SelectProofs.NoLostWakeup` | lwip-1.4.1/src/api/sockets.c:1136-1210 | in every interleaving, a `select` that sleeps unsignalled although an event it watches has happened is still ahead of a list walk for that socket |
| `SelectProofs.SelectExact` | lwip-1.4.1/src/api/sockets.c:1107-1185 | a `select` returns after its first scan exactly if that found something or it must not wait, sleeps exactly if its second scan found nothing, and wakes exactly if it was signalled or its time is over; no other `select` is touched |
| `SelectProofs.SocketFollows` | lwip-1.4.1/src/api/sockets.c:1283-1304 | over every run `rcvevent` is the packets received less those taken, `sendevent` what the last event on sending said, `errevent` whether there was an error |
| `SelectProofs.CallbackAlone` | lwip-1.4.1/src/api/sockets.c:1306-1310 | a callback for a socket that nobody waits for does not walk the list |
| `SelectProofs.SignalledOnce` | lwip-1.4.1/src/api/sockets.c:1310-1347 | each `select` is signalled at most once, only while on the list, and `select_waiting` counts exactly the waiting calls |
| `SelectProofs.Quiescent` | lwip-1.4.1/src/api/sockets.c:1286-1359 | with no callback under way no `select` sleeps past an event |
| `SelectProofs.WalkSignals` | lwip-1.4.1/src/api/sockets.c:1310-1359 | a walk that will visit an entry whose event has happened signals it if left to run |
| `SelectProofs.NextInv` | lwip-1.4.1/src/api/sockets.c:1136-1210 | every protected section of `lwip_select` and `event_callback` keeps the invariant |
| `Select.SelScan` | lwip-1.4.1/src/api/sockets.c:1026-1082 | `lwip_selscan` reports exactly the ready sockets and counts each report |
| `PbufOps.CatOk` | lwip-1.4.1/src/core/pbuf.c:745-767 | `pbuf_cat` keeps every count equal to holders plus incoming links, the caller's reference becoming the link |
| `PbufOps.CatFlat` | lwip-1.4.1/src/core/pbuf.c:745-767 | every chain through the end of the head continues with the bytes of the tail |
| `PbufOps.CatTotExact` | lwip-1.4.1/src/core/pbuf.c:752-762 | all `tot_len` stay right if and only if nobody outside the head shares its end (or nothing is added) and the sum fits 16 bits |
| `PbufOps.FreeOk` | lwip-1.4.1/src/core/pbuf.c:618-694 | `pbuf_free` keeps all counts right |
| `PbufOps.FreeKeys` | lwip-1.4.1/src/core/pbuf.c:643-690 | exactly the leading pbufs with one reference go, the next one loses a reference, no other pbuf changes |
| `PbufOps.FreeFlat` | lwip-1.4.1/src/core/pbuf.c:618-694 | the bytes of every chain that is left are unchanged |
| `PbufOps.CutOk` | lwip-1.4.1/src/core/pbuf.c:480-486 | clearing a link turns it into a reference that must be freed |
| `PbufResize.ReallocExact` | lwip-1.4.1/src/core/pbuf.c:430-488 | `pbuf_realloc` leaves exactly the first bytes of the chain and all counts right |
| `PbufResize.ReallocEnds` | lwip-1.4.1/src/core/pbuf.c:444-487 | the chain ends with the pbuf that holds its last byte: those before it hold less than what is kept |
| `PbufResize.ReallocTotExact` | lwip-1.4.1/src/core/pbuf.c:452-478 | and all totals right if and only if nobody outside shares the part kept |
| `PbufResize.DechainOk` | lwip-1.4.1/src/core/pbuf.c:803-831 | `pbuf_dechain` leaves the first pbuf with its bytes and its own length as total, and all counts right |
| `PbufResize.DechainExact` | lwip-1.4.1/src/core/pbuf.c:816-820 | all totals stay right if and only if the rest was empty or nothing else leads to the pbuf |
| `PbufResize.HeaderBytes` | lwip-1.4.1/src/core/pbuf.c:511-582 | `pbuf_header` hides or reveals exactly the bytes in front |
| `PbufResize.HeaderExact` | lwip-1.4.1/src/core/pbuf.c:574-575 | it keeps all totals right if and only if nothing moves, or the new total fits 16 bits and nothing else leads to the pbuf |
| `PbufResize.HeaderRoundTrip` | lwip-1.4.1/src/core/pbuf.c:538-552 | hiding and revealing a header gives back the same pbuf |
| `PbufModel.TotLocal` | lwip-1.4.1/src/core/pbuf.c:803-831 | the total invariant is `tot_len == len + next->tot_len` at every pbuf |
| `PbufModel.Reachable` | lwip-1.4.1/src/core/pbuf.c:618-694 | with right counts every live pbuf can be reached from one that is held |
| `PbufArena.Arena.PbufRef` | lwip-1.4.1/src/core/pbuf.c:723-732 | one more holder, NULL ignored |
| `PbufArena.Arena.PbufCat` | lwip-1.4.1/src/core/pbuf.c:745-767 | the walk over the head equals `Cat`, NULL refused |
| `PbufArena.Arena.PbufChain` | lwip-1.4.1/src/core/pbuf.c:786-792 | as `pbuf_cat`, the caller keeping its reference; without a head the tail's count still grows, so the caller holds two |
| `PbufArena.Arena.PbufFree` | lwip-1.4.1/src/core/pbuf.c:618-694 | the loop equals `FreeChain`; the 8-bit count of released pbufs |
| `PbufArena.Arena.PbufRealloc` | lwip-1.4.1/src/core/pbuf.c:430-488 | equals `Realloc` |
| `PbufArena.Arena.PbufDechain` | lwip-1.4.1/src/core/pbuf.c:803-831 | the first pbuf alone; the returned pointer is to a released pbuf if and only if a positive multiple of 256 pbufs was released |
| `PbufArena.Arena.PbufHeader` | lwip-1.4.1/src/core/pbuf.c:511-582 | moves the payload, or changes nothing and fails exactly if fewer bytes are there to hide, or there is no room to reveal them or the pbuf has no payload of its own |
| `PbufCopy.PbufCopyPartial` | lwip-1.4.1/src/core/pbuf.c:918-953 | the bytes copied are the window of the flat chain at the offset, as many as there are |
| `PbufCopy.PbufTake` | lwip-1.4.1/src/core/pbuf.c:966-995 | the data becomes the first bytes of the chain, lengths and links unchanged, or it does not fit and nothing changes; for NULL nothing changes and ERR_OK is returned |
| `PbufCopy.PbufCopy` | lwip-1.4.1/src/core/pbuf.c:852-904 | too small a target gives ERR_ARG and nothing changes; otherwise ERR_OK, with the source's bytes the first of the target, exactly for chains whose lengths `Accepts` admits (into a packet: the source is a packet, or one pbuf that fits the first of the target and an empty one), ERR_ARG exactly when a single target pbuf is filled at once and empty ones follow, ERR_VAL else; in every case only a prefix is written |
| `PbufCopy.QueueExact` | lwip-1.4.1/src/core/pbuf.c:891-900 | where totals are right, the test for a packet queue finds exactly the pbufs that have successors, all of them empty |
| `PbufWalk.OutcomeExact` | lwip-1.4.1/src/core/pbuf.c:864-901 | the walk of the two pointers ends well if and only if the source is admitted and the target pointer never stands at a pbuf with only empty ones behind it; ERR_ARG exactly when the target is used up first |
| `PbufWalk.PacketGoes` | lwip-1.4.1/src/core/pbuf.c:864-901 | from wherever the pointers stand, a packet is refused exactly at such a target pbuf that the remaining bytes reach |
| `PbufWalk.AcceptsPacket` | lwip-1.4.1/src/core/pbuf.c:864-901 | into a packet the answer depends on the source and the first target pbuf alone |
| `PbufCopy.NoQueue` | lwip-1.4.1/src/core/pbuf.c:888-901 | no pbuf of a packet looks like the end of one in a queue, so that check never fails on packets |
| `PbufRun.RunSafe` | lwip-1.4.1/src/core/pbuf.c:618-831 | in every run of ref, free, cat, chain, dechain and realloc: counts exact, each pbuf released exactly once or live, what is held is live |
| `PbufRun.NoLeak` | lwip-1.4.1/src/core/pbuf.c:618-831 | in every run each live pbuf is reachable from a held one |
| `PbufRun.NextTotExact` | lwip-1.4.1/src/core/pbuf.c:430-831 | one step keeps all totals right exactly when it leaves shared parts alone |
| `PbufRun.RunTot` | lwip-1.4.1/src/core/pbuf.c:430-831 | totals are right in every run of such steps |
| `PbufExamples.SharedRealloc` | lwip-1.4.1/src/core/pbuf.c:430-488 | a run from the start: with one tail behind two heads, shortening it through one leaves the other's total wrong |
| `PbufExamples.SharedCat` | lwip-1.4.1/src/core/pbuf.c:745-767 | so does appending to it through one |
| `PbufExamples.SharedHeader` | lwip-1.4.1/src/core/pbuf.c:511-582 | so does hiding its first byte |
| `PbufExamples.SharedDechain` | lwip-1.4.1/src/core/pbuf.c:803-831 | so does taking it off a pbuf that another leads to |
| `PbufExamples.CopyRefused` | lwip-1.4.1/src/core/pbuf.c:888-894 | a run from the start that makes a chain of 1, 0 and 0 bytes and a target of 2 bytes, for which the walk gives ERR_VAL |
| `PbufExamples.DechainDangles` | lwip-1.4.1/src/core/pbuf.c:803-831 | a run from the start that builds a row of 257 pbufs: `pbuf_dechain` releases 256 and returns a pointer to one of them |
| `Checksum.StandardChksum1` | lwip-1.4.1/src/core/ipv4/inet_chksum.c:80-115 | version 1 returns the ones' complement sum of the octets, without overflow up to 0xffff octets, on both byte orders |
| `Checksum.StandardChksum2` | lwip-1.4.1/src/core/ipv4/inet_chksum.c:134-174 | version 2 returns the same value at even and odd addresses, up to 0x20000 octets |
| `Checksum.StandardChksum3` | lwip-1.4.1/src/core/ipv4/inet_chksum.c:190-256 | version 3 returns the same value at every address and length |
| `Checksum.ChainSum` | lwip-1.4.1/src/core/ipv4/inet_chksum.c:284-300 | the chain loop gives the checksum of the concatenated octets for every split, odd and empty pieces included |
| `Checksum.InetChksumPbuf` | lwip-1.4.1/src/core/ipv4/inet_chksum.c:409-430 | complement of the checksum of the chain's octets |
| `Checksum.InetChksumPseudo` | lwip-1.4.1/src/core/ipv4/inet_chksum.c:345-382 | complement of the checksum over pseudo header and the octets covered |
| `Checksum.FoldTwice` | lwip-1.4.1/src/include/ipv4/lwip/inet_chksum.h:51-54 | two folds bring any 32-bit sum to its 16-bit value |
| `Checksum.SwapSum` | lwip-1.4.1/src/include/ipv4/lwip/inet_chksum.h:40-49 | swapping the result is summing in the other byte order |
| `ChecksumUse.UdpFill` | lwip-1.4.1/src/core/udp.c:699-721 | every datagram sent with a checksum passes the receiver's check, however it is cut into pbufs, and its checksum field is not zero |
| `ChecksumUse.UdpFieldOk` | lwip-1.4.1/src/core/udp.c:328-339 | any value congruent to the complement is accepted once zero is replaced by 0xffff |
| `ChecksumUse.UdpFromCopy` | lwip-1.4.1/src/core/udp.c:704-721 | so is the checksum made while copying |
| `ChecksumUse.EchoExact` | lwip-1.4.1/src/core/ipv4/icmp.c:192-199 | the incremental update keeps a valid checksum valid exactly unless id, sequence number, code and payload are all zero |
| `ChecksumUse.BlankRequest` | lwip-1.4.1/src/core/ipv4/icmp.c:192-199 | an instance on both byte orders: eight octets, all but type and checksum zero |
| `ChecksumUse.EchoReply` | lwip-1.4.1/src/core/ipv4/icmp.c:192-199 | of the request's buffer only type and checksum change, and a valid request becomes a reply with a valid checksum if and only if it is not blank |
| `Timers.InsertRefines` | lwip-1.4.1/src/core/timers.c:266-308 | `sys_timeout` adds exactly one deadline, counted from the base of the list, behind all that are not later, and changes no other |
| `Timers.CancelExact` | lwip-1.4.1/src/core/timers.c:321-347 | of the deadlines, the first with that handler and argument is the only one that goes |
| `Timers.RemoveRefines` | lwip-1.4.1/src/core/timers.c:321-347 | `sys_untimeout` takes out exactly the first matching deadline and changes no other |
| `Timers.ExpireRefines` | lwip-1.4.1/src/core/timers.c:358-400 | expiry on the list of differences is serving the absolute deadlines, handlers re-arming and cancelling included |
| `Timers.ServedInOrder` | lwip-1.4.1/src/core/timers.c:371-398 | handlers run in the order of the deadlines the list stands for, none before its deadline, and nothing due is left |
| `Timers.ServedQuiet` | lwip-1.4.1/src/core/timers.c:371-398 | with passive handlers exactly the due deadlines are served |
| `Timers.DriftExact` | lwip-1.4.1/src/core/timers.c:371-382 | whatever handlers do: the deadlines that serving leaves are late after the call by the time since the last one served, so they are kept if and only if nothing was served, nothing is left, or the last one was due right then |
| `Timers.DriftQuiet` | lwip-1.4.1/src/core/timers.c:371-382 | with passive handlers they are kept if and only if, before the call, nothing is due, everything is due, or something is due exactly then |
| `Timers.LateExample` | lwip-1.4.1/src/core/timers.c:371-382 | an instance: timers of 1 ms and 10 ms and a call after 5 ms leave the second 4 ms late |
| `Timers.EarlyExact` | lwip-1.4.1/src/core/timers.c:266-308 | a timer armed at a clock gets the deadline that many milliseconds later if and only if no time has passed since `timeouts_last_time`; otherwise it is early by that time |
| `Timers.EarlyExample` | lwip-1.4.1/src/core/timers.c:266-308 | an instance: a timer of 50 ms armed at 100 is called at 100 |
| `Timers.SysTimers.SysTimeout` | lwip-1.4.1/src/core/timers.c:266-308 | the list walk adds the deadline `timeouts_last_time + msecs`, which is `msecs` from the clock if and only if no time has passed; no time under- or overflows; without memory nothing changes |
| `Timers.SysTimers.SysUntimeout` | lwip-1.4.1/src/core/timers.c:321-347 | the unlink loop cancels the first matching deadline and keeps all others |
| `Timers.SysTimers.SysCheckTimeouts` | lwip-1.4.1/src/core/timers.c:358-400 | the loop serves the deadlines the list stands for, what it leaves is late by the time since the last one served, and it terminates when handlers re-arm with at least 1 ms |
| `Arp.FindEntry` | lwip-1.4.1/src/netif/etharp.c:284-390 | the match if there is one, else the first empty, oldest stable, oldest idle pending or oldest queued pending entry, in that order |
| `Arp.ArpTable.EtharpFindEntry` | lwip-1.4.1/src/netif/etharp.c:265-402 | recycles that entry; at most one entry per address, queues on pending entries only |
| `Arp.ArpTable.EtharpUpdateArpEntry` | lwip-1.4.1/src/netif/etharp.c:447-514 | on resolution the queue is sent once, first in first out, to the new address |
| `Arp.ArpTable.EtharpQuery` | lwip-1.4.1/src/netif/etharp.c:1015-1154 | a packet for a resolved address is sent and nothing changes; otherwise exactly one entry changes: it waits for the address with the packet queued last, and if it was recycled its old queue is dropped |
| `Arp.ArpTable.Lookup` | lwip-1.4.1/src/netif/etharp.c:944-974 | the cached index and the full scan find the same, only entry |
| `Arp.ArpTable.EtharpOutput` | lwip-1.4.1/src/netif/etharp.c:944-974 | whichever index is cached, the packet goes to the one stable entry's address and only that entry may be marked; without one exactly the entry that waits for the address changes |
| `Arp.ArpTable.EtharpTmr` | lwip-1.4.1/src/netif/etharp.c:205-242 | every entry ages, expired ones are freed with their packets |
| `Arp.LifeTime` | lwip-1.4.1/src/netif/etharp.c:205-242 | an entry is gone with its packets at the first tick at which it is unresolved for two ticks or 240 ticks old; until then only its age changes and a mark of a new request is taken back |
| `Arp.UsedExact` | lwip-1.4.1/src/netif/etharp.c:841-858 | sending to a resolved entry marks it exactly if it has at most twelve ticks left and was requested again, and it lives no longer for that |
| `Arp.PutBalanced` | lwip-1.4.1/src/netif/etharp.c:154-197 | one entry is written: that every packet taken over is queued, was sent from a queue once or was dropped goes on to hold of the whole table, as `ArpTable.Valid` demands of every method |
| `Slip.Output` | lwip-1.4.1/src/netif/slipif.c:115-159 | what is sent for a chain is the frame of its bytes, however the chain is cut |
| `Slip.FrameClean` | lwip-1.4.1/src/netif/slipif.c:115-159 | a frame begins and ends with 0xC0 and has none inside; 0xDB stands only in front of 0xDC or 0xDD (RFC 1055) |
| `Slip.FeedAny` | lwip-1.4.1/src/netif/slipif.c:170-259 | a frame of any length: its first SLIP_MAX_SIZE + 1 bytes are delivered (the check lets one byte more pass), an empty one is skipped |
| `Slip.RoundTrip` | lwip-1.4.1/src/netif/slipif.c:115-259 | decoding the frames of any packets of 1 to SLIP_MAX_SIZE bytes gives exactly those packets (RFC 1055) |
| `Slip.RxExact` | lwip-1.4.1/src/netif/slipif.c:170-259 | one byte in any state: what it stands for is stored, unless it needs a pbuf and there is none, or the packet is too long; END delivers, ESC is remembered |
| `Slip.RxPlaced` | lwip-1.4.1/src/netif/slipif.c:213-254 | with or without memory, the bytes lie in pbufs that are all full but the last, and a new one is begun exactly when that is full |
| `Slip.Resync` | lwip-1.4.1/src/netif/slipif.c:170-259 | from any decoder state the second complete frame onward is decoded exactly |
| `Slip.Decoder.RxByte` | lwip-1.4.1/src/netif/slipif.c:170-259 | equals the decoder step, loss of a byte without a pbuf included |
| `Netconn.EachOnce` | lwip-1.4.1/src/api/api_msg.c:276-404 | in every interleaving each message is acknowledged at most once, is unacknowledged exactly while it is `current_msg`, which is set exactly in a write, a close or a blocking connect |
| `Netconn.NextInv` | lwip-1.4.1/src/api/api_msg.c:746-1032 | every message and callback keeps that |
| `Netconn.WriteMoreInv` | lwip-1.4.1/src/api/api_msg.c:1207-1333 | each round of `do_writemore` keeps that, and the offset equal to the bytes TCP took |
| `Netconn.ReportExact` | lwip-1.4.1/src/api/api_msg.c:1295-1320 | a finished write reports exactly the bytes TCP took unless `tcp_write` failed after taking some |
| `Netconn.ReportExample` | lwip-1.4.1/src/api/api_msg.c:1295-1320 | a run from the start: 5 of 10 bytes are taken, `tcp_write` then fails, and a length of 0 is reported |
| `Netconn.CleanExact` | lwip-1.4.1/src/api/api_msg.c:1357-1469 | what `do_write`, `do_close` and `do_delconn` assert of `current_msg` and `write_offset` holds when the offset is 0 outside a write, and a step keeps that if and only if it does not give up a write of which TCP took some bytes |
| `Netconn.AssertionsHold` | lwip-1.4.1/src/api/api_msg.c:1357-1469 | so these assertions hold after every run without such a step |
| `Netconn.OffsetExample` | lwip-1.4.1/src/api/api_msg.c:1225-1239 | a run from the start: 5 of 10 bytes are taken, the send timeout passes, and the next write fails the assertion |
| `Netconn.CloseBegins` | lwip-1.4.1/src/api/api_msg.c:1451-1482 | a close or deletion is refused, or taken up: it ends at once exactly if TCP's answer is OK, with the pcb gone exactly if both directions are shut; otherwise it stays the current message and nothing is acknowledged |
| `Netconn.CloseUnderWay` | lwip-1.4.1/src/api/api_msg.c:747-822 | while a close is under way only TCP's answer OK or an error acknowledges it; any other event leaves message, state and pcb alone |
| `Netconn.CloseAnswered` | lwip-1.4.1/src/api/api_msg.c:276-404 | in every run: a close that TCP could not take stays unacknowledged, and the pcb stays, until the event that says TCP has taken it or the connection broke; that one acknowledges it, and the pcb is gone exactly if both directions were to be shut, or after an error |
| `Netconn.PcbGoes` | lwip-1.4.1/src/api/api_msg.c:747-822 | the pcb goes in exactly these steps: a close of both directions or a deletion that TCP takes, at once or later, and an error |
| `Netconn.WriteEnds` | lwip-1.4.1/src/api/api_msg.c:1207-1333 | how many bytes TCP takes in a round; the write goes on exactly if its time is not over, it may wait, and TCP had no memory or took less than what was left |
| `Netconn.WriteBegins` | lwip-1.4.1/src/api/api_msg.c:1343-1389 | a write is refused and changes nothing, or begins with no byte taken |
| `Netconn.ConnectEnds` | lwip-1.4.1/src/api/api_msg.c:984-1032 | when a connect is acknowledged: at once if refused or non-blocking, otherwise when the connection stands or breaks |
| `Netconn.ErrorEnds` | lwip-1.4.1/src/api/api_msg.c:347-404 | an error acknowledges a write or a close and nothing in an idle connection, and always takes the pcb |
| `Netconn.ListenEnds` | lwip-1.4.1/src/api/api_msg.c:1064-1113 | a listen is answered at once and changes an idle connection exactly if the listening pcb is made |
| `Netconn.TcpNetconn.DoWritemore` | lwip-1.4.1/src/api/api_msg.c:1207-1333 | equals `WriteMore` |
| `Netconn.TcpNetconn.DoWrite` | lwip-1.4.1/src/api/api_msg.c:1343-1389 | equals `Write` |
| `Netconn.TcpNetconn.DoCloseInternal` | lwip-1.4.1/src/api/api_msg.c:747-822 | the message is acknowledged and the connection idle, without its pcb if both directions are shut, exactly if TCP took the close; otherwise nothing changes |
| `Netconn.TcpNetconn.DoClose` | lwip-1.4.1/src/api/api_msg.c:1451-1482 | refused, ended at once, or left as the current message, exactly as `CloseBegins` says; equals `Close` |
| `Netconn.TcpNetconn.DoDelconn` | lwip-1.4.1/src/api/api_msg.c:832-888 | the same for a deletion, which shuts both directions; equals `Delete` |
| `Netconn.TcpNetconn.DoConnect` | lwip-1.4.1/src/api/api_msg.c:984-1032 | equals `Connect` |
| `Netconn.TcpNetconn.DoConnected` | lwip-1.4.1/src/api/api_msg.c:937-973 | equals `Connected` |
| `Netconn.TcpNetconn.ErrTcp` | lwip-1.4.1/src/api/api_msg.c:347-404 | equals `Error`: a pending message is completed, a non-blocking connect is not acknowledged again |

## Left out

- TcpStream.EndToEnd: writes and closes happen only when the last unsent segment ends at `snd_lbb` (or nothing is appended to it), and with TCP_SND_BUF == 0xffff no acknowledgement covers a FIN on the last segment, because the promise is false otherwise (`TcpSendProofs.WriteExact`, `FinExact`, `AckInv`).
- TcpStream.AnnouncedEdge: over runs in which no segment is stored beyond the window, because the promise is false otherwise (`TcpRecvProofs.OverrunExact`).
- TcpStream.QueuesSorted: over runs without a timeout while a fast retransmission waits on `unsent`, because sortedness is lost otherwise (`TcpSendProofs.RtoOrderedExact`).
- TcpStream.EndToEnd: segments are trimmed at the window edge as unwrapped numbers compare; the direct comparison of wrapped ones differs at a turn of the sequence space (`TcpRecvProofs.RawTrimExact`).
- TcpStream.WithinHalf: acknowledgements older than `lastack` may be arbitrarily old, as the segments below.
- TcpStream.WithinHalfReceiver: arriving segments that are acknowledged completely may be arbitrarily old; that the network does not deliver them half a sequence space late is the segment lifetime of section 3.3 of RFC 793.
- PbufCopy.PbufCopy: chains without common pbufs, with right totals.
- Checksum.InetChksumPseudo: models `inet_chksum_pseudo` as the partial version over the whole chain.
- Netconn.EachOnce: a connection is not deleted under a blocking connect, which the code asserts, and a pcb in SYN_SENT closes at once; completion of every request is not claimed.
- Timers.SysTimers.SysCheckTimeouts: clock differences are taken unwrapped, so calls are less than 2^32 ms apart; what a handler does is a list of timer operations.
- Arp.ArpTable.EtharpOutput: unicast addresses after the choice of the gateway; static entries and per-interface cleanup are not modelled.
- SelectProofs.NoLostWakeup: sockets are not closed during a `select`; readiness through `lastdata` ends a scan but signals nobody; `select_cb_ctr` does not wrap.
- HeapArray.MemHeap.MemMalloc: one header record per offset, so overlapping header bytes and the user bytes of a block are not modelled; LWIP_MEM_ALIGN_SIZE does not wrap.
- PbufArena.Arena.PbufRealloc: reference counts are unbounded, the bytes behind a payload and the shrinking of PBUF_RAM memory are not modelled; the link is cleared before, not after, the rest is freed.
- `pbuf_alloc`: single pbufs appear as new in `PbufRun`; the chain that PBUF_POOL builds is new pbufs and `pbuf_cat`.
- Sequence numbers are unwrapped integers; `SeqNum` says when this agrees with the code.
- TCP connection setup and the closing states beyond the flag that a FIN was queued or received, RST, timestamps, keepalive, RTT estimation and congestion control (their values are arbitrary), TCP_OOSEQ limits (covered by dropping any tail of `ooseq`).
- Protected sections of `select` and windows of the interruptible heap are steps on values, not threads.
- IP output, routing, netif drivers, SNMP, statistics other than the used bytes of the heap, DHCP, DNS, IGMP, AutoIP, raw pcbs, memory pools, `pbuf_memfind`, UDP-Lite, the SLIP interrupt queue.
- The Python and `cwrap` parts of the repository: wrappers around operating-system services with nothing of this kind to prove.
