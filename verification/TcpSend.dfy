/**
 The sending half of a connection from ESTABLISHED on: what `tcp_write`,
 `tcp_send_fin`, `tcp_output`, the retransmissions and the ACK part of
 `tcp_receive` do to the queues `unsent` and `unacked`, as functions on values,
 and the invariants those functions keep.  `TcpSendPcb` holds the imperative code.
 */
module TcpSend {
  import opened TcpSegment

  const MEM_ALIGNMENT := 4

  function U32(x: int): (r: nat) ensures r < 0x1_0000_0000 { x % 0x1_0000_0000 }

  /** Compile-time configuration: the MSS of the connection, TCP_SND_BUF,
      TCP_SND_QUEUELEN and TCP_OVERSIZE. */
  datatype Cfg = Cfg(mss: nat, sndBuf: nat, queueMax: nat, oversize: nat)

  /** The sender's fields of `struct tcp_pcb`.  `finQueued` is TF_FIN. */
  datatype Snd = Snd(unsent: seq<Seg>, unacked: seq<Seg>, lastack: int, sndNxt: int, sndLbb: int,
                     sndBuf: int, acked: nat, queuelen: int, oversize: int, wndMax: nat, finQueued: bool)
  {
    function LastUnsent(): Seg requires unsent != [] { unsent[|unsent| - 1] }
  }

  /** Number of queued segments that hold sequence number `x`. */
  function Holders(unsent: seq<Seg>, unacked: seq<Seg>, x: int): nat { Count(unsent, x) + Count(unacked, x) }

  /** What decides whether `tcp_output` may send now. */
  datatype Control = Control(sndWnd: nat, cwnd: nat, nodelay: bool, infr: bool, nagleMemErr: bool)

  /** Segments are no bigger than half the largest window ever announced. */
  function MssLocal(s: Snd, c: Cfg): nat { Min(c.mss, s.wndMax / 2) }

  // ----- tcp_write -----

  /** Spare tail bytes of a pbuf from `tcp_pbuf_prealloc` for `length` bytes. */
  function Prealloc(s: Snd, c: Cfg, length: nat, maxLength: int, nodelay: bool, more: bool, first: bool): (r: nat)
    ensures length <= maxLength ==> length + r <= maxLength
  {
    if length < maxLength && (more || (!nodelay && (!first || s.unsent != [] || s.unacked != []))) then
      Min(maxLength, (length + c.oversize + MEM_ALIGNMENT - 1) / MEM_ALIGNMENT * MEM_ALIGNMENT) - length
    else 0
  }

  /** Phase 1: bytes that go into the preallocated tail of the last unsent segment. */
  function Phase1(s: Snd, n: nat): int {
    if s.unsent == [] then 0 else Min(s.oversize, n)
  }

  /** Room left in the last unsent segment after phase 1. */
  function Space(s: Snd, c: Cfg, n: nat): int {
    if s.unsent == [] then 0 else MssLocal(s, c) - |s.LastUnsent().data| - Phase1(s, n)
  }

  /** Phase 2: bytes chained in a new pbuf onto the last unsent segment. */
  function Phase2(s: Snd, c: Cfg, n: nat): int {
    if s.unsent != [] && Phase1(s, n) < n && Space(s, c, n) > 0 && |s.LastUnsent().data| > 0
    then Min(Space(s, c, n), n - Phase1(s, n)) else 0
  }

  /** Bytes that phases 1 and 2 append to the last unsent segment. */
  function TailBytes(s: Snd, c: Cfg, n: nat): int { Phase1(s, n) + Phase2(s, c, n) }

  /** Phase 3: `data[pos..]` cut into segments of at most `mss` bytes. */
  function Chunks(lbb: int, data: seq<Byte>, pos: nat, mss: nat, clen: nat): seq<Seg>
    decreases |data| - pos
  {
    if pos >= |data| || mss == 0 then [] else
    var n := Min(|data| - pos, mss);
    [Seg(lbb + pos, data[pos..pos + n], false, clen)] + Chunks(lbb, data, pos + n, mss, clen)
  }

  /** `oversize` after phase 3 copied `data[pos..]`, given its value before. */
  function ChunksOversize(s: Snd, c: Cfg, n: nat, pos: nat, nodelay: bool, more: bool, first: bool, before: int): int
    decreases n - pos
  {
    if pos >= n || MssLocal(s, c) == 0 then before else
    var k := Min(n - pos, MssLocal(s, c));
    ChunksOversize(s, c, n, pos + k, nodelay, more, false, Prealloc(s, c, k, MssLocal(s, c), nodelay, more, first))
  }

  /** `unsent` with `data` appended: `n` bytes at the end of its last segment, in one more pbuf
      if `chained`, and the rest in the new segments `queue`. */
  function Appended(unsent: seq<Seg>, data: seq<Byte>, n: int, chained: bool, queue: seq<Seg>): seq<Seg>
    requires 0 <= n <= |data|
  {
    if unsent == [] then queue else
    var g := unsent[|unsent| - 1];
    unsent[..|unsent| - 1]
      + [g.(data := g.data + data[..n], clen := g.clen + if chained then 1 else 0)]
      + queue
  }

  /** The commit of `tcp_write`. */
  function Grown(s: Snd, data: seq<Byte>, n: int, chained: bool, queue: seq<Seg>, ov: int): Snd
    requires 0 <= n <= |data|
  {
    s.(unsent := Appended(s.unsent, data, n, chained, queue), sndLbb := s.sndLbb + |data|, sndBuf := s.sndBuf - |data|,
       queuelen := s.queuelen + (if chained then 1 else 0) + Pbufs(queue), oversize := ov)
  }

  /** The segments that phase 3 creates. */
  function NewSegments(s: Snd, c: Cfg, data: seq<Byte>, copy: bool): seq<Seg>
    requires CanSegment(s, c, |data|)
  {
    Chunks(s.sndLbb, data, TailBytes(s, c, |data|), MssLocal(s, c), if copy then 1 else 2)
  }

  /** What phases 1 and 2 leave of `unsent_oversize`. */
  function OversizeLeft(s: Snd, c: Cfg, n: nat, copy: bool, nodelay: bool, more: bool): int {
    if copy && Phase2(s, c, n) > 0 then Prealloc(s, c, Phase2(s, c, n), Space(s, c, n), nodelay, more, true)
    else if s.unsent == [] then 0 else s.oversize - Phase1(s, n)
  }

  /** `unsent_oversize` after the commit of `tcp_write`. */
  function WrittenOversize(s: Snd, c: Cfg, n: nat, copy: bool, nodelay: bool, more: bool): int
    requires CanSegment(s, c, n)
  {
    var ov := OversizeLeft(s, c, n, copy, nodelay, more);
    if copy then ChunksOversize(s, c, n, TailBytes(s, c, n), nodelay, more, true, ov) else ov
  }

  /** Phase 3 makes progress: with a window below two bytes `mss_local` is 0 and it does not. */
  predicate CanSegment(s: Snd, c: Cfg, n: nat) {
    0 <= TailBytes(s, c, n) <= n && (TailBytes(s, c, n) < n ==> MssLocal(s, c) > 0)
  }

  /** The state after a `tcp_write` that returns ERR_OK. */
  function Written(s: Snd, c: Cfg, data: seq<Byte>, copy: bool, nodelay: bool, more: bool): Snd
    requires CanSegment(s, c, |data|)
  {
    Grown(s, data, TailBytes(s, c, |data|), Phase2(s, c, |data|) > 0, NewSegments(s, c, data, copy),
          WrittenOversize(s, c, |data|, copy, nodelay, more))
  }

  // ----- tcp_send_fin -----

  /** `tcp_send_fin` that succeeds: FIN on the last unsent segment, or a segment of its own. */
  function FinSent(s: Snd): Snd {
    if s.unsent != [] && !s.LastUnsent().fin then
      s.(unsent := s.unsent[|s.unsent| - 1 := s.LastUnsent().(fin := true)], finQueued := true)
    else
      s.(unsent := s.unsent + [Seg(s.sndLbb, [], true, 1)], oversize := 0, sndLbb := s.sndLbb + 1,
         sndBuf := s.sndBuf - 1, queuelen := s.queuelen + 1, finQueued := true)
  }

  // ----- tcp_output -----

  /** Where a sent segment goes on `unacked`: at the tail, or before it for a retransmission. */
  function PutUnacked(q: seq<Seg>, g: Seg): seq<Seg> {
    if q != [] && g.seqno < q[|q| - 1].seqno then InsertSorted(q, g) else q + [g]
  }

  /** Send the first unsent segment. */
  function OutputOne(s: Snd): Snd
    requires s.unsent != []
  {
    var g := s.unsent[0];
    s.(unsent := s.unsent[1..], sndNxt := if s.sndNxt < g.End() then g.End() else s.sndNxt,
       unacked := if g.TcpLen() > 0 then PutUnacked(s.unacked, g) else s.unacked)
  }

  /** The window admits the first unsent segment (FIN is not counted). */
  predicate FitsWindow(s: Snd, k: Control)
    requires s.unsent != []
  {
    U32(s.unsent[0].seqno - s.lastack + |s.unsent[0].data|) <= Min(k.sndWnd, k.cwnd)
  }

  /** `tcp_do_output_nagle` */
  predicate Nagle(s: Snd, c: Cfg, k: Control) {
    || s.unacked == []
    || k.nodelay || k.infr
    || (s.unsent != [] && (|s.unsent| > 1 || |s.unsent[0].data| >= c.mss))
    || s.sndBuf == 0 || s.queuelen >= c.queueMax
  }

  predicate MaySend(s: Snd, c: Cfg, k: Control) {
    s.unsent != [] && FitsWindow(s, k) && (Nagle(s, c, k) || k.nagleMemErr || s.finQueued)
  }

  function OutputLoop(s: Snd, c: Cfg, k: Control): Snd
    decreases |s.unsent|
  {
    if MaySend(s, c, k) then OutputLoop(OutputOne(s), c, k) else s
  }

  /** The segments that go on the wire, in order. */
  function Sent(s: Snd, c: Cfg, k: Control): seq<Seg>
    decreases |s.unsent|
  {
    if MaySend(s, c, k) then [s.unsent[0]] + Sent(OutputOne(s), c, k) else []
  }

  function Output(s: Snd, c: Cfg, k: Control): Snd {
    var r := OutputLoop(s, c, k);
    if r.unsent == [] then r.(oversize := 0) else r
  }

  // ----- retransmission -----

  /** `tcp_rexmit_rto`: everything unacknowledged goes back in front of `unsent`. */
  function RexmitRto(s: Snd): Snd {
    if s.unacked == [] then s else s.(unsent := s.unacked + s.unsent, unacked := [])
  }

  /** `tcp_rexmit`: the first unacknowledged segment goes back to its place on `unsent`. */
  function Rexmit(s: Snd): Snd {
    if s.unacked == [] then s else
    var g := s.unacked[0];
    s.(unsent := InsertSorted(s.unsent, g), unacked := s.unacked[1..],
       oversize := if forall i :: 0 <= i < |s.unsent| ==> s.unsent[i].seqno < g.seqno then 0 else s.oversize)
  }

  /** `tcp_zero_window_probe`: one byte, or the FIN, of the first queued segment. */
  function Probe(s: Snd): seq<Seg> {
    if s.unacked == [] && s.unsent == [] then [] else
    var g := if s.unacked != [] then s.unacked[0] else s.unsent[0];
    if g.data == [] then [g] else [Seg(g.seqno, g.data[..1], false, 1)]
  }

  // ----- acknowledgement -----

  /** A queue without the segments in front that `ackno` acknowledges completely. */
  function DropAcked(q: seq<Seg>, ackno: int): seq<Seg> {
    if q != [] && q[0].End() <= ackno then DropAcked(q[1..], ackno) else q
  }

  /** What freeing them takes off `snd_queuelen`: the number of pbufs of each, in 8 bits. */
  function FreedPbufs(q: seq<Seg>, ackno: int): nat {
    if q != [] && q[0].End() <= ackno then Clen8(q[0]) + FreedPbufs(q[1..], ackno) else 0
  }

  /** `acked` after those segments have been freed: a FIN is not reported as sent data. */
  function AckedAfter(acked: nat, q: seq<Seg>, ackno: int): nat
    decreases |q|
  {
    if q != [] && q[0].End() <= ackno then
      AckedAfter(if acked != 0 && q[0].fin then acked - 1 else acked, q[1..], ackno)
    else acked
  }

  /** The first part: new data acknowledged, or a duplicate that may trigger fast retransmit. */
  function AckUnacked(s: Snd, ackno: int, fast: bool): Snd {
    if ackno <= s.lastack then (if fast then Rexmit(s.(acked := 0)) else s.(acked := 0))
    else if ackno <= s.sndNxt then
      var a := U16(ackno - s.lastack);
      var q := DropAcked(s.unacked, ackno);
      s.(acked := AckedAfter(a, s.unacked, ackno), sndBuf := U16(s.sndBuf + a), lastack := ackno,
         unacked := q, queuelen := s.queuelen - FreedPbufs(s.unacked, ackno))
    else s.(acked := 0)
  }

  /** The second part: segments put back on `unsent` by a retransmission may be acknowledged, too. */
  function AckUnsent(s: Snd, ackno: int): Snd {
    if ackno > s.sndNxt then s else
    var q := DropAcked(s.unsent, ackno);
    s.(unsent := q, acked := AckedAfter(s.acked, s.unsent, ackno),
       queuelen := s.queuelen - FreedPbufs(s.unsent, ackno),
       oversize := if q == [] && s.unsent != [] then 0 else s.oversize)
  }

  function Ack(s: Snd, ackno: int, fast: bool): Snd { AckUnsent(AckUnacked(s, ackno, fast), ackno) }

  // ===== invariants =====

  /** First sequence number after everything the application has queued, FIN included. */
  function Top(s: Snd, stream: seq<Byte>): nat { |stream| + if s.finQueued then 1 else 0 }

  predicate SegsOk(q: seq<Seg>, mss: nat) {
    forall g :: g in q ==> g.TcpLen() > 0 && |g.data| <= mss
  }

  /** No number is held twice, and every number from `lastack` up to `top` is held. */
  ghost predicate Covers(unsent: seq<Seg>, unacked: seq<Seg>, lastack: int, top: int) {
    && (forall x: int :: Holders(unsent, unacked, x) <= 1)
    && (forall x: int :: lastack <= x < top ==> Holders(unsent, unacked, x) == 1)
  }

  /** By how much `snd_queuelen` exceeds the pbufs queued. */
  function Leak(s: Snd): int { s.queuelen - Pbufs(s.unsent) - Pbufs(s.unacked) }

  /** No queued segment has 256 pbufs or more. */
  predicate Short(s: Snd) {
    (forall g :: g in s.unsent ==> g.clen < 0x100) && (forall g :: g in s.unacked ==> g.clen < 0x100)
  }

  predicate OversizeOk(s: Snd, c: Cfg) {
    if s.unsent == [] then s.oversize == 0
    else 0 <= s.oversize && s.oversize + |s.LastUnsent().data| <= MssLocal(s, c)
  }

  /** What holds after every step, `stream` being all bytes `tcp_write` has accepted.  `snd_queuelen` is at
      least the number of pbufs queued; `AckLeakExact` says when it is that number. */
  ghost predicate Inv(s: Snd, c: Cfg, stream: seq<Byte>) {
    && 0 <= s.lastack <= s.sndNxt <= Top(s, stream)
    && (s.sndLbb == |stream| || (s.finQueued && s.sndLbb == |stream| + 1))
    && AllAgree(s.unsent, stream, s.finQueued) && AllAgree(s.unacked, stream, s.finQueued)
    && SegsOk(s.unsent, MssLocal(s, c)) && SegsOk(s.unacked, MssLocal(s, c))
    && Covers(s.unsent, s.unacked, s.lastack, Top(s, stream))
    && Leak(s) >= 0
    && s.sndBuf >= 0 && s.sndBuf + (s.sndLbb - s.lastack) == c.sndBuf
    && OversizeOk(s, c)
  }

  /** The last unsent segment ends where new data starts. */
  predicate TailOk(s: Snd) { s.unsent == [] || s.LastUnsent().DataEnd() == s.sndLbb }

  /** Both queues are sorted and hold nothing that has been acknowledged completely. */
  predicate Ordered(s: Snd) {
    && Sorted(s.unsent) && Sorted(s.unacked)
    && (forall i :: 0 <= i < |s.unsent| ==> s.lastack < s.unsent[i].End())
    && (forall i :: 0 <= i < |s.unacked| ==> s.lastack < s.unacked[i].End())
  }

  /** Everything on `unacked` lies before everything on `unsent`: no fast retransmission
      waits on `unsent`. */
  predicate Separated(s: Snd) {
    s.unacked == [] || s.unsent == [] || s.unacked[|s.unacked| - 1].seqno < s.unsent[0].seqno
  }

  function Initial(c: Cfg, wndMax: nat): Snd {
    Snd([], [], 0, 0, 0, c.sndBuf, 0, 0, 0, wndMax, false)
  }

  lemma InitialInv(c: Cfg, wndMax: nat)
    ensures Inv(Initial(c, wndMax), c, []) && Ordered(Initial(c, wndMax)) && Separated(Initial(c, wndMax))
  {
  }
}
