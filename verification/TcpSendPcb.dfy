/**
 The imperative code of tcp_out.c and of the ACK part of `tcp_receive`, on the
 sender's fields of one connection, proved equal to the functions of `TcpSend`.
 The linked queues are sequence-valued fields that the methods reassign.
 */
module TcpSendPcb {
  import opened TcpSegment
  import opened TcpSend
  import opened TcpSendProofs
  import L = TcpSendLaws

  datatype Err = OK | MEM | CONN

  const SNDQUEUELEN_OVERFLOW := 0xffff - 3

  /** How many pbufs and segments are allocated. */
  datatype Pools = Pools(pbufs: int, segs: int)

  class SendPcb {
    const cfg: Cfg
    var unsent: seq<Seg>
    var unacked: seq<Seg>
    var lastack: int
    var sndNxt: int
    var sndLbb: int
    var sndBuf: int
    var acked: nat
    var queuelen: int
    var oversize: int
    var wndMax: nat
    var finQueued: bool
    var nodelay: bool
    var nagleMemErr: bool

    constructor (c: Cfg, wndMax0: nat)
      ensures View() == Initial(c, wndMax0) && cfg == c
    {
      cfg := c;
      unsent, unacked, lastack, sndNxt, sndLbb, sndBuf := [], [], 0, 0, 0, c.sndBuf;
      acked, queuelen, oversize, wndMax, finQueued, nodelay, nagleMemErr := 0, 0, 0, wndMax0, false, false, false;
    }

    function View(): Snd
      reads this
    {
      Snd(unsent, unacked, lastack, sndNxt, sndLbb, sndBuf, acked, queuelen, oversize, wndMax, finQueued)
    }

    /** `tcp_write_checks` */
    method WriteChecks(len: nat) returns (err: Err)
      modifies this`nagleMemErr
      ensures err.CONN? <==> finQueued
      ensures err.MEM? <==> !finQueued && Refuses(View(), cfg, len)
      ensures err.OK? <==> !finQueued
                           && (len == 0
                             || (len <= sndBuf && queuelen < cfg.queueMax && queuelen <= SNDQUEUELEN_OVERFLOW))
    {
      if finQueued {
        return CONN;
      } else if len == 0 {
        return OK;
      }
      if len > sndBuf {
        nagleMemErr := true;
        return MEM;
      }
      if queuelen >= cfg.queueMax || queuelen > SNDQUEUELEN_OVERFLOW {
        nagleMemErr := true;
        return MEM;
      }
      return OK;
    }

    /** Phases 1 and 2: how much fits at the end of the last unsent segment, and whether the
        pbuf that phase 2 chains could be allocated. */
    method FillLast(len: nat, copy: bool, more: bool, fate: bool) returns (ok: bool, used: int, concat: int, ov: int)
      requires OversizeOk(View(), cfg)
      ensures used == Phase1(View(), len) && concat == Phase2(View(), cfg, len)
      ensures ok <==> concat == 0 || fate
      ensures ok ==> ov == OversizeLeft(View(), cfg, len, copy, nodelay, more)
    {
      used, concat, ov := 0, 0, 0;
      if unsent == [] {
        return true, used, concat, ov;
      }
      var last := unsent[|unsent| - 1];
      var space := Min(cfg.mss, wndMax / 2) - |last.data|;
      ov := oversize;
      if ov > 0 {
        used := if ov < len then ov else len;
        ov := ov - used;
        space := space - used;
      }
      if used < len && space > 0 && |last.data| > 0 {
        concat := if space < len - used then space else len - used;
        if !fate {
          return false, used, concat, ov;
        }
        if copy {
          ov := PbufPrealloc(View(), cfg, concat, space, nodelay, more, true);
        }
      }
      return true, used, concat, ov;
    }

    /** The end of `tcp_write`: nothing can fail any more. */
    method Commit(data: seq<Byte>, used: int, concat: int, queue: seq<Seg>, ov: int)
      requires 0 <= used && 0 <= concat && used + concat <= |data|
      modifies this
      ensures View() == Grown(old(View()), data, used + concat, concat > 0, queue, ov)
      ensures nodelay == old(nodelay)
    {
      if unsent == [] {
        unsent := queue;
      } else {
        var last := unsent[|unsent| - 1];
        if used > 0 {
          last := last.(data := last.data + data[..used]);
        }
        if concat > 0 {
          last := last.(data := last.data + data[used..used + concat], clen := last.clen + 1);
        }
        assert last.data == old(unsent[|unsent| - 1]).data + data[..used + concat];
        unsent := unsent[..|unsent| - 1] + [last] + queue;
      }
      oversize := ov;
      sndLbb := sndLbb + |data|;
      sndBuf := sndBuf - |data|;
      queuelen := queuelen + (if concat > 0 then 1 else 0) + Pbufs(queue);
    }

    /** The three phases: what a commit has to append, or everything freed again. */
    method Segmentize(pools0: Pools, data: seq<Byte>, copy: bool, more: bool, fate2: bool, fate: nat -> bool)
      returns (ok: bool, pools: Pools, used: int, concat: int, queue: seq<Seg>, ov: int)
      requires OversizeOk(View(), cfg)
      ensures ok ==>
        && CanSegment(View(), cfg, |data|)
        && used == Phase1(View(), |data|) && concat == Phase2(View(), cfg, |data|)
        && queue == NewSegments(View(), cfg, data, copy)
        && ov == WrittenOversize(View(), cfg, |data|, copy, nodelay, more)
        && pools == Pools(pools0.pbufs + (if concat > 0 then 1 else 0) + Pbufs(queue), pools0.segs + |queue|)
      ensures !ok ==> pools == pools0
      ensures ok <==> !OutOfMemory(View(), cfg, data, copy, fate2, fate)
    {
      pools, queue := pools0, [];
      ok, used, concat, ov := FillLast(|data|, copy, more, fate2);
      TailFits(View(), cfg, |data|);
      if ok {
        ok, pools, queue := NewQueue(View(), cfg, pools0, data, copy, fate2, fate);
      }
      if ok && copy {
        ov := SegmentsOversize(View(), cfg, |data|, used + concat, nodelay, more, ov);
      }
    }

    /** What the three phases come to. */
    method Append(pools0: Pools, data: seq<Byte>, copy: bool, more: bool, fate2: bool, fate: nat -> bool)
      returns (ok: bool, pools: Pools)
      requires OversizeOk(View(), cfg)
      modifies this
      ensures nodelay == old(nodelay) && finQueued == old(finQueued)
      ensures ok <==> !OutOfMemory(old(View()), cfg, data, copy, fate2, fate)
      ensures ok ==>
        && CanSegment(old(View()), cfg, |data|)
        && View() == Written(old(View()), cfg, data, copy, nodelay, more)
        && pools == Pools(pools0.pbufs + Pbufs(unsent) - Pbufs(old(unsent)), pools0.segs + |unsent| - |old(unsent)|)
      ensures !ok ==> View() == old(View()) && pools == pools0
    {
      var used, concat, queue, ov;
      ok, pools, used, concat, queue, ov := Segmentize(pools0, data, copy, more, fate2, fate);
      if ok {
        AppendedPbufs(unsent, data, used + concat, concat > 0, queue);
        Commit(data, used, concat, queue, ov);
      }
    }

    /** `tcp_write` is a transaction: it appends exactly `data`, or it changes nothing and frees
        everything it had allocated.  `fate2` and `fate(n)` are the outcomes of the allocations. */
    method Write(pools0: Pools, data: seq<Byte>, copy: bool, more: bool, fate2: bool, fate: nat -> bool)
      returns (err: Err, pools: Pools)
      requires OversizeOk(View(), cfg) && |data| <= 0xffff && sndBuf >= 0
      modifies this
      ensures nodelay == old(nodelay)
      ensures err.OK? ==>
        && |data| <= old(sndBuf) && sndLbb == old(sndLbb) + |data| && sndBuf == old(sndBuf) - |data|
        && CanSegment(old(View()), cfg, |data|)
        && View() == Written(old(View()), cfg, data, copy, nodelay, more)
        && pools == Pools(pools0.pbufs + Pbufs(unsent) - Pbufs(old(unsent)), pools0.segs + |unsent| - |old(unsent)|)
      ensures !err.OK? ==> View() == old(View()) && pools == pools0
      ensures err.CONN? <==> old(finQueued)
      ensures err.MEM? <==> !old(finQueued)
                            && (Refuses(old(View()), cfg, |data|)
                              || OutOfMemory(old(View()), cfg, data, copy, fate2, fate))
    {
      pools := pools0;
      err := WriteChecks(|data|);
      if err != OK {
        return;
      }
      var ok;
      ok, pools := Append(pools0, data, copy, more, fate2, fate);
      if !ok {
        nagleMemErr := true;
        err := MEM;
      }
    }

    /** `tcp_send_fin`, with `tcp_enqueue_flags` for a FIN of its own.  Closing fails exactly when
        no unsent segment can carry the FIN and queue, buffer space or memory is exhausted. */
    method SendFin(pools0: Pools, fatePbuf: bool, fateSeg: bool) returns (err: Err, pools: Pools)
      modifies this
      ensures err.OK? ==> View() == FinSent(old(View()))
                          && pools == Pools(pools0.pbufs + queuelen - old(queuelen),
                            pools0.segs + |unsent| - |old(unsent)|)
      ensures !err.OK? ==> err.MEM? && View() == old(View()) && pools == pools0
      ensures err.OK? ==> finQueued && |unsent| > 0 && unsent[|unsent| - 1].fin
      ensures err.OK? ==>
        if old(unsent) != [] && !old(unsent)[|old(unsent)| - 1].fin
        then |unsent| == |old(unsent)| && sndLbb == old(sndLbb) && sndBuf == old(sndBuf) && queuelen == old(queuelen)
        else unsent == old(unsent) + [Seg(old(sndLbb), [], true, 1)] && oversize == 0
             && sndLbb == old(sndLbb) + 1 && sndBuf == old(sndBuf) - 1 && queuelen == old(queuelen) + 1
      ensures err.MEM? <==>
              (old(unsent) == [] || old(unsent)[|old(unsent)| - 1].fin)
              && (old(queuelen) >= cfg.queueMax || old(queuelen) > SNDQUEUELEN_OVERFLOW || old(sndBuf) == 0 || !fatePbuf
                || !fateSeg)
    {
      pools := pools0;
      if unsent != [] {
        var m := |unsent| - 1;
        if !unsent[m].fin {
          unsent := unsent[m := unsent[m].(fin := true)];
          finQueued := true;
          return OK, pools;
        }
      }
      if queuelen >= cfg.queueMax || queuelen > SNDQUEUELEN_OVERFLOW {
        nagleMemErr := true;
        return MEM, pools;
      }
      if sndBuf == 0 {
        return MEM, pools;
      }
      if !fatePbuf || !fateSeg {
        nagleMemErr := true;
        return MEM, pools;
      }
      pools := Pools(pools.pbufs + 1, pools.segs + 1);
      unsent := unsent + [Seg(sndLbb, [], true, 1)];
      oversize := 0;
      sndLbb := sndLbb + 1;
      sndBuf := sndBuf - 1;
      finQueued := true;
      queuelen := queuelen + 1;
      err := OK;
    }

    /** One round of `tcp_output`: the first unsent segment goes out and onto `unacked`. */
    method SendFirst()
      requires unsent != []
      modifies this`unsent, this`sndNxt, this`unacked
      ensures View() == OutputOne(old(View()))
    {
      var g := unsent[0];
      unsent := unsent[1..];
      if sndNxt < g.End() {
        sndNxt := g.End();
      }
      if g.TcpLen() > 0 {
        if unacked == [] {
          unacked := [g];
        } else if g.seqno < unacked[|unacked| - 1].seqno {
          unacked := InsertBySeqno(unacked, g);
        } else {
          unacked := unacked + [g];
        }
      }
    }

    /** `tcp_output`: sends from the front of `unsent` while window and Nagle's algorithm allow. */
    method Transmit(sndWnd: nat, cwnd: nat, infr: bool, ackNow: bool) returns (sent: seq<Seg>, emptyAck: bool)
      modifies this
      ensures var k := Control(sndWnd, cwnd, old(nodelay), infr, old(nagleMemErr));
              && (emptyAck <==> ackNow && (old(unsent) == [] || !FitsWindow(old(View()), k)))
              && (emptyAck ==> View() == old(View()) && sent == [])
              && (!emptyAck ==>
                View() == Output(old(View()), cfg, k) && sent == Sent(old(View()), cfg, k) && !nagleMemErr)
      ensures var s, k := old(View()), Control(sndWnd, cwnd, old(nodelay), infr, old(nagleMemErr));
              cfg.sndBuf <= 0xffff ==> forall stream :: Inv(s, cfg, stream) ==>
                if s.unsent != [] && s.unsent[0].End() <= s.lastack then true
                else if ackNow && (s.unsent == [] || L.Exceeds(s, k, s.unsent[0])) then emptyAck
                else !emptyAck && L.Transmitted(s, cfg, k, sent, View())
    {
      var k := Control(sndWnd, cwnd, nodelay, infr, nagleMemErr);
      sent := [];
      TransmitLaws(View(), cfg, k);
      if ackNow && (unsent == [] || !FitsWindow(View(), k)) {
        return [], true;
      }
      emptyAck := false;
      ghost var end, all := OutputLoop(View(), cfg, k), Sent(View(), cfg, k);
      while unsent != [] && FitsWindow(View(), k)
        invariant SendsOn(View(), cfg, k, sent, end, all)
        invariant nodelay == old(nodelay) && nagleMemErr == old(nagleMemErr)
        decreases |unsent|
      {
        SendStep(View(), cfg, k, sent, end, all);
        if !Nagle(View(), cfg, k) && !nagleMemErr && !finQueued {
          break;
        }
        sent := sent + [unsent[0]];
        SendFirst();
      }
      SendStep(View(), cfg, k, sent, end, all);
      if unsent == [] {
        oversize := 0;
      }
      nagleMemErr := false;
    }

    /** `tcp_rexmit_rto` up to the final `tcp_output`: everything unacknowledged will be sent again, nothing is lost or
        held twice, and whatever invariant the sender had it keeps. */
    method RequeueAll()
      modifies this
      ensures View() == RexmitRto(old(View())) && unacked == [] && unsent == old(unacked) + old(unsent)
      ensures forall x: int :: Count(unsent, x) == Holders(old(unsent), old(unacked), x)
      ensures Leak(View()) == Leak(old(View()))
      ensures forall stream :: Inv(old(View()), cfg, stream) ==> Inv(View(), cfg, stream)
    {
      RtoKeeps(View(), cfg);
      if unacked == [] {
        assert unacked + unsent == unsent;
        return;
      }
      unsent, unacked := unacked + unsent, [];
    }

    /** `tcp_rexmit` */
    method RequeueFirst()
      modifies this
      ensures View() == Rexmit(old(View()))
      ensures if old(unacked) == [] then View() == old(View()) else exists k :: L.Requeued(old(View()), View(), k)
    {
      if unacked == [] {
        return;
      }
      var g := unacked[0];
      unacked := unacked[1..];
      var k := 0;
      while k < |unsent| && unsent[k].seqno < g.seqno
        invariant k <= |unsent| && forall i :: 0 <= i < k ==> unsent[i].seqno < g.seqno
      {
        k := k + 1;
      }
      InsertSortedAt(unsent, g, k);
      if k == |unsent| {
        oversize := 0;
      }
      unsent := unsent[..k] + [g] + unsent[k..];
      assert L.Requeued(old(View()), View(), k);
    }

    /** What an ACK does to `unacked`, `snd_buf` and `lastack`. */
    method AckSent(ackno: int, fast: bool)
      modifies this
      ensures View() == AckUnacked(old(View()), ackno, fast)
    {
      if ackno <= lastack {
        acked := 0;
        if fast {
          RequeueFirst();
        }
      } else if ackno <= sndNxt {
        acked := U16(ackno - lastack);
        sndBuf := U16(sndBuf + acked);
        lastack := ackno;
        var q, a, l := FreeAcked(unacked, acked, queuelen, ackno);
        unacked, acked, queuelen := q, a, l;
      } else {
        acked := 0;
      }
    }

    /** The ACK part of `tcp_receive`.  `fast` says that this is the third duplicate and no fast
        retransmit is under way. */
    method ReceiveAck(ackno: int, fast: bool)
      modifies this
      ensures View() == Ack(old(View()), ackno, fast)
      ensures lastack == if old(lastack) < ackno <= sndNxt then ackno else old(lastack)
      ensures if old(lastack) < ackno <= sndNxt
              then L.Freed(old(unacked), unacked, ackno) && L.Freed(old(unsent), unsent, ackno)
              else (ackno <= old(lastack) && fast) || unacked == old(unacked)
    {
      L.AckExact(View(), ackno, fast);
      AckSent(ackno, fast);
      if ackno <= sndNxt {
        var q, a, l := FreeAcked(unsent, acked, queuelen, ackno);
        if q == [] && unsent != [] {
          oversize := 0;
        }
        unsent, acked, queuelen := q, a, l;
      }
    }
  }

  /** What the output loop does, and when it does not begin. */
  lemma TransmitLaws(s: Snd, c: Cfg, k: Control)
    ensures c.sndBuf <= 0xffff ==> forall stream :: Inv(s, c, stream) ==>
              && L.Transmitted(s, c, k, Sent(s, c, k), Output(s, c, k))
              && (s.unsent != [] && s.lastack < s.unsent[0].End() ==>
                    (FitsWindow(s, k) <==> !L.Exceeds(s, k, s.unsent[0])))
  {
    if c.sndBuf <= 0xffff {
      L.OutputTransmits(s, c, k);
      if s.unsent != [] && s.lastack < s.unsent[0].End() {
        L.WindowShut(s, c, k);
      }
    }
  }

  /** What a timeout keeps. */
  lemma RtoKeeps(s: Snd, c: Cfg)
    ensures var r := RexmitRto(s);
            && (forall x: int :: Count(r.unsent, x) == Holders(s.unsent, s.unacked, x)) && Leak(r) == Leak(s)
            && (forall stream :: Inv(s, c, stream) ==> Inv(r, c, stream))
  {
    forall x: int ensures Count(RexmitRto(s).unsent, x) == Holders(s.unsent, s.unacked, x) {
      CountConcat(s.unacked, s.unsent, x);
    }
    PbufsConcat(s.unacked, s.unsent);
    forall stream | Inv(s, c, stream) ensures Inv(RexmitRto(s), c, stream) {
      RtoInv(s, c, stream);
    }
  }

  /** With `sent` on the wire, the rest of the loop of `tcp_output` leads to `end` and has sent `all`. */
  predicate SendsOn(s: Snd, c: Cfg, k: Control, sent: seq<Seg>, end: Snd, all: seq<Seg>) {
    OutputLoop(s, c, k) == end && sent + Sent(s, c, k) == all
  }

  lemma SendStep(s: Snd, c: Cfg, k: Control, sent: seq<Seg>, end: Snd, all: seq<Seg>)
    requires SendsOn(s, c, k, sent, end, all)
    ensures if MaySend(s, c, k) then SendsOn(OutputOne(s), c, k, sent + [s.unsent[0]], end, all)
            else s == end && sent == all
  {
    if MaySend(s, c, k) {
      var rest := Sent(OutputOne(s), c, k);
      assert sent + ([s.unsent[0]] + rest) == sent + [s.unsent[0]] + rest;
    } else {
      assert sent + [] == sent;
    }
  }

  /** The sorted insertion of `tcp_output` into `unacked`. */
  method InsertBySeqno(q: seq<Seg>, g: Seg) returns (r: seq<Seg>)
    ensures r == InsertSorted(q, g)
  {
    var k := 0;
    while k < |q| && q[k].seqno < g.seqno
      invariant k <= |q| && forall i :: 0 <= i < k ==> q[i].seqno < g.seqno
    {
      k := k + 1;
    }
    InsertSortedAt(q, g, k);
    r := q[..k] + [g] + q[k..];
  }

  lemma InsertSortedAt(q: seq<Seg>, g: Seg, k: nat)
    requires k <= |q| && (k < |q| ==> q[k].seqno >= g.seqno)
    requires forall i :: 0 <= i < k ==> q[i].seqno < g.seqno
    ensures InsertSorted(q, g) == q[..k] + [g] + q[k..]
  {
    var j := InsertSortedShape(q, g);
  }

  /** The loops that free acknowledged segments from the front of a queue. */
  method FreeAcked(q0: seq<Seg>, acked0: nat, queuelen0: int, ackno: int)
    returns (q: seq<Seg>, acked: nat, queuelen: int)
    ensures q == DropAcked(q0, ackno) && acked == AckedAfter(acked0, q0, ackno)
    ensures queuelen == queuelen0 - FreedPbufs(q0, ackno)
    ensures L.Freed(q0, q, ackno)
  {
    L.FreedFront(q0, ackno);
    q, acked, queuelen := q0, acked0, queuelen0;
    while q != [] && q[0].End() <= ackno
      invariant DropAcked(q, ackno) == DropAcked(q0, ackno)
      invariant AckedAfter(acked, q, ackno) == AckedAfter(acked0, q0, ackno)
      invariant queuelen - FreedPbufs(q, ackno) == queuelen0 - FreedPbufs(q0, ackno)
      decreases |q|
    {
      if acked != 0 && q[0].fin {
        acked := acked - 1;
      }
      queuelen := queuelen - Clen8(q[0]);
      q := q[1..];
    }
  }

  /** No room for `len` bytes, or too many pbufs queued already. */
  predicate Refuses(s: Snd, c: Cfg, len: nat) {
    len > 0 && (len > s.sndBuf || s.queuelen >= c.queueMax || s.queuelen > SNDQUEUELEN_OVERFLOW)
  }

  /** The most pbufs that phase 3 accepts on the queues. */
  function QueueLimit(c: Cfg): int { Min(c.queueMax, SNDQUEUELEN_OVERFLOW) }

  /** The new segments would exceed it. */
  predicate QueueTooLong(s: Snd, c: Cfg, data: seq<Byte>, copy: bool)
    requires CanSegment(s, c, |data|)
  {
    var q := NewSegments(s, c, data, copy);
    q != [] && s.queuelen + (if Phase2(s, c, |data|) > 0 then 1 else 0) + Pbufs(q) > QueueLimit(c)
  }

  /** The allocations that `n` segments of `clen` pbufs take. */
  function Allocs(n: nat, clen: nat): nat { if clen == 1 then 2 * n else 3 * n }

  /** Phases 2 and 3 fail exactly if an allocation they need fails, the queues would get too long, or segments may
      hold no data. */
  ghost predicate OutOfMemory(s: Snd, c: Cfg, data: seq<Byte>, copy: bool, fate2: bool, fate: nat -> bool) {
    || (Phase2(s, c, |data|) > 0 && !fate2)
    || !CanSegment(s, c, |data|)
    || QueueTooLong(s, c, data, copy)
    || exists n :: 0 <= n < Allocs(|NewSegments(s, c, data, copy)|, if copy then 1 else 2) && !fate(n)
  }

  lemma {:induction false} ChunksPbufs(lbb: int, data: seq<Byte>, pos: nat, mss: nat, clen: nat)
    ensures Pbufs(Chunks(lbb, data, pos, mss, clen)) == clen * |Chunks(lbb, data, pos, mss, clen)|
    decreases |data| - pos
  {
    if pos < |data| && mss > 0 {
      var n := Min(|data| - pos, mss);
      var t := Chunks(lbb, data, pos + n, mss, clen);
      ChunksPbufs(lbb, data, pos + n, mss, clen);
      assert ([Seg(lbb + pos, data[pos..pos + n], false, clen)] + t)[1..] == t;
    }
  }

  /** A write is too long for the queue exactly if it makes segments and `snd_queuelen` would exceed TCP_SND_QUEUELEN or
      0xfffc; and what it allocates for them is their pbufs and the segments themselves. */
  lemma {:induction false} QueueExact(s: Snd, c: Cfg, data: seq<Byte>, copy: bool, nodelay: bool, more: bool)
    requires CanSegment(s, c, |data|)
    ensures var t, q := Written(s, c, data, copy, nodelay, more), NewSegments(s, c, data, copy);
            && (QueueTooLong(s, c, data, copy) <==>
                  |t.unsent| > |s.unsent| && (t.queuelen > c.queueMax || t.queuelen > 0xfffc))
            && Allocs(|q|, if copy then 1 else 2) == Pbufs(q) + |q|
  {
    ChunksPbufs(s.sndLbb, data, TailBytes(s, c, |data|), MssLocal(s, c), if copy then 1 else 2);
  }

  /** Given phase 2, how phase 3 ends says whether memory is exhausted. */
  lemma MemoryOutcome(s: Snd, c: Cfg, data: seq<Byte>, copy: bool, fate2: bool, fate: nat -> bool,
                      all: seq<Seg>, clen: nat, ok: bool)
    requires Phase2(s, c, |data|) > 0 ==> fate2
    requires 0 <= TailBytes(s, c, |data|) <= |data| && clen == (if copy then 1 else 2)
    requires all == Chunks(s.sndLbb, data, TailBytes(s, c, |data|), MssLocal(s, c), clen)
    requires ok <==>
      && (TailBytes(s, c, |data|) < |data| ==>
            && MssLocal(s, c) > 0
            && s.queuelen + (if Phase2(s, c, |data|) > 0 then 1 else 0) + Pbufs(all) <= QueueLimit(c))
      && forall n :: 0 <= n < Allocs(|all|, clen) ==> fate(n)
    ensures ok <==> !OutOfMemory(s, c, data, copy, fate2, fate)
  {
    ChunksSome(s.sndLbb, data, TailBytes(s, c, |data|), MssLocal(s, c), clen);
  }

  /** `tcp_pbuf_prealloc`: the spare tail bytes of the pbuf it allocates. */
  method PbufPrealloc(s: Snd, c: Cfg, length: nat, maxLength: int, nodelay: bool, more: bool, first: bool)
    returns (spare: nat)
    requires length <= maxLength
    ensures spare == Prealloc(s, c, length, maxLength, nodelay, more, first)
  {
    var alloc := length;
    if length < maxLength {
      if more || (!nodelay && (!first || s.unsent != [] || s.unacked != [])) {
        alloc := Min(maxLength, (length + c.oversize + MEM_ALIGNMENT - 1) / MEM_ALIGNMENT * MEM_ALIGNMENT);
      }
    }
    spare := alloc - length;
  }

  /** The allocations of one round of phase 3: `clen` pbufs and one segment, or nothing. */
  method AllocSegment(limit: int, pools0: Pools, clen: nat, queuelen: int, fate: nat -> bool, k0: nat)
    returns (ok: bool, pools: Pools, k: nat)
    requires 1 <= clen <= 2
    ensures ok ==> pools == Pools(pools0.pbufs + clen, pools0.segs + 1) && k == k0 + Allocs(1, clen)
    ensures !ok ==> pools == pools0
    ensures ok <==> queuelen + clen <= limit && forall n :: k0 <= n < k0 + Allocs(1, clen) ==> fate(n)
  {
    pools, k := pools0, k0;
    var got := 0;
    while got < clen
      invariant 0 <= got <= clen && pools == pools0.(pbufs := pools0.pbufs + got) && k == k0 + got
      invariant forall n :: k0 <= n < k ==> fate(n)
    {
      if !fate(k) {
        // the data pbuf allocated before the header pbuf is freed again
        pools := pools.(pbufs := pools.pbufs - got);
        return false, pools, k;
      }
      pools := pools.(pbufs := pools.pbufs + 1);
      got, k := got + 1, k + 1;
    }
    if queuelen + clen > limit {
      pools := pools.(pbufs := pools.pbufs - clen);
      return false, pools, k;
    }
    if !fate(k) {
      // tcp_create_segment frees the pbuf it was given
      pools := pools.(pbufs := pools.pbufs - clen);
      return false, pools, k;
    }
    pools := pools.(segs := pools.segs + 1);
    return true, pools, k + 1;
  }

  /** Phase 3 has made the segments `queue` of `all`, up to byte `pos`. */
  predicate Segmented(lbb: int, data: seq<Byte>, pos: nat, mss: nat, clen: nat, queue: seq<Seg>, all: seq<Seg>) {
    pos <= |data| && queue + Chunks(lbb, data, pos, mss, clen) == all
  }

  lemma SegmentStep(lbb: int, data: seq<Byte>, pos: nat, mss: nat, clen: nat, queue: seq<Seg>, all: seq<Seg>, g: Seg)
    requires Segmented(lbb, data, pos, mss, clen, queue, all) && pos < |data| && mss > 0
    requires g == Seg(lbb + pos, data[pos..pos + Min(|data| - pos, mss)], false, clen)
    ensures Segmented(lbb, data, pos + Min(|data| - pos, mss), mss, clen, queue + [g], all)
    ensures |queue| < |all| && Pbufs(queue + [g]) == Pbufs(queue) + clen <= Pbufs(all)
  {
    var rest := Chunks(lbb, data, pos + Min(|data| - pos, mss), mss, clen);
    assert Chunks(lbb, data, pos, mss, clen) == [g] + rest;
    Regroup(queue, g, rest);
    PbufsSnoc(queue, g);
    PbufsConcat(queue + [g], rest);
  }

  lemma Regroup(a: seq<Seg>, g: Seg, b: seq<Seg>)
    ensures a + ([g] + b) == (a + [g]) + b
  {
  }

  /** Phase 3 of `tcp_write`.  On failure `queue` holds what has to be freed. */
  method CreateSegments(lbb: int, limit: int, mss: nat, pools0: Pools, data: seq<Byte>, start: nat, clen: nat,
                        fate: nat -> bool, queuelen: int)
    returns (ok: bool, pools: Pools, queue: seq<Seg>)
    requires start <= |data| && 1 <= clen <= 2 && (start < |data| ==> mss > 0)
    ensures pools == Pools(pools0.pbufs + Pbufs(queue), pools0.segs + |queue|)
    ensures ok ==> queue == Chunks(lbb, data, start, mss, clen)
    ensures var all := Chunks(lbb, data, start, mss, clen);
            ok <==> && (start < |data| ==> queuelen + Pbufs(all) <= limit)
                    && forall n :: 0 <= n < Allocs(|all|, clen) ==> fate(n)
  {
    ghost var all := Chunks(lbb, data, start, mss, clen);
    pools, queue := pools0, [];
    var pos, k, qlen := start, 0, queuelen;
    while pos < |data|
      invariant Segmented(lbb, data, pos, mss, clen, queue, all) && start <= pos && k == Allocs(|queue|, clen)
      invariant pools == Pools(pools0.pbufs + Pbufs(queue), pools0.segs + |queue|) && qlen == queuelen + Pbufs(queue)
      invariant (queue != [] ==> qlen <= limit) && (queue == [] ==> pos == start)
      invariant forall n :: 0 <= n < k ==> fate(n)
    {
      var seglen := Min(|data| - pos, mss);
      var g := Seg(lbb + pos, data[pos..pos + seglen], false, clen);
      SegmentStep(lbb, data, pos, mss, clen, queue, all, g);
      ok, pools, k := AllocSegment(limit, pools, clen, qlen, fate, k);
      if !ok {
        return false, pools, queue;
      }
      queue, qlen, pos := queue + [g], qlen + clen, pos + seglen;
    }
    assert queue + [] == queue;
    ok := true;
  }

  /** Phase 3 with the pbuf that phase 2 chained; on memory error both are freed. */
  method NewQueue(s: Snd, c: Cfg, pools0: Pools, data: seq<Byte>, copy: bool, ghost fate2: bool, fate: nat -> bool)
    returns (ok: bool, pools: Pools, queue: seq<Seg>)
    requires 0 <= TailBytes(s, c, |data|) <= |data| && (Phase2(s, c, |data|) > 0 ==> fate2)
    ensures ok <==> !OutOfMemory(s, c, data, copy, fate2, fate)
    ensures !ok ==> pools == pools0
    ensures ok ==> queue == NewSegments(s, c, data, copy)
                   && pools == Pools(pools0.pbufs + (if Phase2(s, c, |data|) > 0 then 1 else 0) + Pbufs(queue),
                     pools0.segs + |queue|)
  {
    var mss, clen, start := MssLocal(s, c), if copy then 1 else 2, TailBytes(s, c, |data|);
    var chained := if Phase2(s, c, |data|) > 0 then 1 else 0;
    pools := pools0.(pbufs := pools0.pbufs + chained);
    if mss == 0 && start < |data| {
      ok := false;
      pools, queue := EmptySegments(QueueLimit(c), pools, s.sndLbb + start, clen, fate, s.queuelen + chained);
    } else {
      ok, pools, queue := CreateSegments(s.sndLbb, QueueLimit(c), mss, pools, data, start, clen, fate,
        s.queuelen + chained);
    }
    MemoryOutcome(s, c, data, copy, fate2, fate, Chunks(s.sndLbb, data, start, mss, clen), clen, ok);
    if !ok {
      // memerr: free the chained pbuf and the new segments
      pools := Pools(pools.pbufs - Pbufs(queue) - chained, pools.segs - |queue|);
    }
  }

  /** Phase 3 when segments may hold no data: it makes empty ones until memory or the queue limit ends it. */
  method EmptySegments(limit: int, pools0: Pools, seqno: int, clen: nat, fate: nat -> bool, queuelen: int)
    returns (pools: Pools, queue: seq<Seg>)
    requires 1 <= clen <= 2
    ensures pools == Pools(pools0.pbufs + Pbufs(queue), pools0.segs + |queue|)
  {
    pools, queue := pools0, [];
    var ok, k, qlen := true, 0, queuelen;
    while ok
      invariant pools == Pools(pools0.pbufs + Pbufs(queue), pools0.segs + |queue|)
      decreases ok, limit + 2 - qlen
    {
      ok, pools, k := AllocSegment(limit, pools, clen, qlen, fate, k);
      if ok {
        PbufsSnoc(queue, Seg(seqno, [], false, clen));
        queue, qlen := queue + [Seg(seqno, [], false, clen)], qlen + clen;
      }
    }
  }

  /** `unsent_oversize` after phase 3 has copied `data[start..]`. */
  method SegmentsOversize(s: Snd, c: Cfg, n: nat, start: nat, nodelay: bool, more: bool, before: int) returns (ov: int)
    ensures ov == ChunksOversize(s, c, n, start, nodelay, more, true, before)
  {
    var mss := MssLocal(s, c);
    ov := before;
    var pos, first := start, true;
    while pos < n && mss > 0
      invariant ChunksOversize(s, c, n, start, nodelay, more, true, before) ==
                ChunksOversize(s, c, n, pos, nodelay, more, first, ov)
    {
      var seglen := Min(n - pos, mss);
      ov := PbufPrealloc(s, c, seglen, mss, nodelay, more, first);
      pos, first := pos + seglen, false;
    }
  }

  /** Phase 3 makes a segment exactly when there is data left that segments may hold. */
  lemma ChunksSome(lbb: int, data: seq<Byte>, pos: nat, mss: nat, clen: nat)
    ensures Chunks(lbb, data, pos, mss, clen) != [] <==> pos < |data| && mss > 0
  {
  }
}
