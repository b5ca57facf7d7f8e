/**
 The imperative code of the data part of `tcp_receive`, `tcp_oos_insert_segment`,
 `tcp_update_rcv_ann_wnd`, `tcp_recved` and the delivery part of `tcp_input`, on the
 receiver's fields of one connection, proved equal to the functions of `TcpRecv`
 and `TcpStream`.
 */
module TcpRecvPcb {
  import opened TcpSegment
  import opened TcpRecv
  import opened TcpStream
  import H = TcpHeld
  import RP = TcpRecvProofs

  /** The loop that swallows covered segments, and the trim against the next one. */
  method SwallowCovered(g0: Seg, q0: seq<Seg>, withFin: bool) returns (g: Seg, q: seq<Seg>)
    ensures (g, q) == AbsorbCut(g0, q0, withFin)
  {
    g, q := g0, q0;
    while q != [] && (if withFin then g.End() else g.DataEnd()) >= q[0].DataEnd()
      invariant Absorb(g, q, withFin) == Absorb(g0, q0, withFin)
      decreases |q|
    {
      if q[0].fin {
        g := g.(fin := true);
      }
      q := q[1..];
    }
    if q != [] && g.DataEnd() > q[0].seqno {
      g := CutAt(g, q[0].seqno);
    }
  }

  /** The queue `next` is in order and begins behind the number of `cseg`, a segment of the same stream with data and
      no FIN. */
  predicate Insertable(next: seq<Seg>, cseg: Seg, lo: int) {
    Oos(next, lo) && cseg.seqno < lo && !cseg.fin && cseg.data != [] && H.WithinFin(next, cseg)
  }

  /** What `tcp_oos_insert_segment` leaves of a queue in order: all that the queue and the segment hold, once. */
  lemma InsertedHeld(cseg: Seg, next: seq<Seg>)
    ensures forall x: int, lo: int :: Insertable(next, cseg, lo) ==>
              Count(InsertBefore(cseg, next), x) == if cseg.Contains(x) || Count(next, x) > 0 then 1 else 0
  {
    forall x: int, lo: int | Insertable(next, cseg, lo)
      ensures Count(InsertBefore(cseg, next), x) == if cseg.Contains(x) || Count(next, x) > 0 then 1 else 0
    {
      H.InsertHeld(cseg, next, lo, x);
    }
  }

  /** `tcp_oos_insert_segment`: the queue from the new segment on. */
  method OosInsertSegment(cseg: Seg, next: seq<Seg>) returns (q: seq<Seg>)
    ensures q == InsertBefore(cseg, next)
    ensures cseg.fin ==> q == [cseg]
    ensures forall x: int, lo: int :: Insertable(next, cseg, lo) ==>
              Count(q, x) == if cseg.Contains(x) || Count(next, x) > 0 then 1 else 0
  {
    InsertedHeld(cseg, next);
    if cseg.fin {
      return [cseg];
    }
    var g, rest := SwallowCovered(cseg, next, false);
    q := [g] + rest;
  }

  /** The queue is in order from `lo` on, and `g` is a segment of the same stream that lies in the window above. */
  predicate Queueable(q: seq<Seg>, g: Seg, edge: int, lo: int) {
    Oos(q, lo) && lo <= g.seqno < edge && g.TcpLen() > 0 && (!g.fin ==> H.WithinFin(q, g))
  }

  lemma QueuedHeld(q: seq<Seg>, g: Seg, edge: int)
    ensures forall x: int, lo: int :: Queueable(q, g, edge, lo) ==>
              Count(Enqueue(q, g, edge), x) == H.QueuedAfter(q, g, edge, x)
  {
    forall x: int, lo: int | Queueable(q, g, edge, lo)
      ensures Count(Enqueue(q, g, edge), x) == H.QueuedAfter(q, g, edge, x)
    {
      H.EnqueueHeld(q, g, edge, lo, x);
    }
  }

  /** The walk over `ooseq` that finds the place of an out-of-sequence segment: the numbers that a queue in order holds
      afterwards. */
  method QueueSegment(q: seq<Seg>, g: Seg, edge: int) returns (r: seq<Seg>)
    ensures r == Enqueue(q, g, edge)
    ensures forall x: int, lo: int :: Queueable(q, g, edge, lo) ==>
              Count(r, x) == H.QueuedAfter(q, g, edge, x)
  {
    QueuedHeld(q, g, edge);
    if q == [] {
      return [g];
    }
    var i := 0;
    while i < |q|
      invariant 0 <= i < |q|
      invariant var p := if i == 0 then 0 else i - 1;
                Place(q, g, edge) == q[..p] + Place(q[p..], g, edge)
      invariant i > 0 ==> q[i - 1].seqno < g.seqno
      decreases |q| - i
    {
      PlaceUnfold(q, g, edge, i);
      SplitAt(q, i);
      if g.seqno == q[i].seqno {
        if |g.data| > |q[i].data| {
          var t := OosInsertSegment(g, q[i..]);
          return q[..i] + t;
        } else {
          return q;
        }
      } else if i == 0 && g.seqno < q[i].seqno {
        r := OosInsertSegment(g, q);
        return;
      } else if i > 0 && q[i - 1].seqno + 1 <= g.seqno <= q[i].seqno - 1 {
        var t := OosInsertSegment(g, q[i..]);
        return q[..i - 1] + [CutAt(q[i - 1], g.seqno)] + t;
      }
      if i + 1 == |q| && g.seqno > q[i].seqno {
        if q[i].fin {
          return q;
        }
        return q[..i] + [CutAt(q[i], g.seqno), TrimToEdge(g, edge)];
      }
      i := i + 1;
    }
  }

  lemma PlaceUnfold(q: seq<Seg>, g: Seg, edge: int, i: nat)
    requires i < |q|
    requires var p := if i == 0 then 0 else i - 1;
             Place(q, g, edge) == q[..p] + Place(q[p..], g, edge)
    requires i > 0 ==> q[i - 1].seqno < g.seqno
    ensures i > 0 && g.seqno < q[i].seqno ==>
              Place(q, g, edge) == q[..i - 1] + [CutAt(q[i - 1], g.seqno)] + InsertBefore(g, q[i..])
    ensures i == 0 || g.seqno >= q[i].seqno ==> Place(q, g, edge) == q[..i] + Place(q[i..], g, edge)
  {
    if i > 0 {
      var t := q[i - 1..];
      assert t[0] == q[i - 1] && t[1] == q[i] && t[1..] == q[i..];
      if g.seqno >= q[i].seqno {
        Regroup(q[..i - 1], q[i - 1], Place(q[i..], g, edge));
        assert q[..i - 1] + [q[i - 1]] == q[..i];
      } else {
        Regroup(q[..i - 1], CutAt(q[i - 1], g.seqno), InsertBefore(g, q[i..]));
      }
    }
  }

  /** One round of the dequeue loop, or its end. */
  lemma DrainStep(d: Delivery, c: TcpRecv.Cfg)
    ensures var q := d.r.ooseq;
            if q != [] && q[0].seqno == d.r.rcvNxt
            then Drain(d, c) ==
              Drain(Delivery(Advance(d.r, c, q[0].TcpLen()).(ooseq := q[1..]), d.data + q[0].data, d.fin || q[0].fin),
                c)
            else Drain(d, c) == d
  {
  }

  lemma Regroup(a: seq<Seg>, g: Seg, b: seq<Seg>)
    ensures a + ([g] + b) == a + [g] + b
  {
  }

  lemma SplitAt(q: seq<Seg>, i: nat)
    requires i < |q|
    ensures q[..i] + q[i..] == q && (i + 1 == |q| ==> q[..i] + [q[i]] == q && q[i..] == [q[i]])
  {
  }

  lemma RetryKeeps(a: App, c: TcpRecv.Cfg, accept: bool)
    ensures forall stream :: Account(a, stream) ==> Account(Retry(a, c, accept), stream)
    ensures Announced(a.r) ==>
              (Announced(Retry(a, c, accept).r) <==> !(accept && a.refused.Kept? && a.refused.fin)
                                                     || a.r.rcvWnd != 0xffff || c.wnd == 0xffff || a.r.annWnd == 0)
  {
    forall stream | Account(a, stream) ensures Account(Retry(a, c, accept), stream) {
      RetryAccount(a, c, accept, stream);
    }
    if Announced(a.r) {
      RP.FinCorrectionExact(a.r, c);
    }
  }

  class RecvPcb {
    const cfg: TcpRecv.Cfg
    var rcvNxt: int
    var rcvWnd: nat
    var annWnd: nat
    var annEdge: int
    var ooseq: seq<Seg>
    var rxOpen: bool
    var refused: Refused
    /** What the receive callback has accepted, and whether the close callback has been called. */
    ghost var got: seq<Byte>
    ghost var eof: bool

    constructor (c: TcpRecv.Cfg)
      ensures View() == Rcv(0, c.wnd, c.wnd, 0, [], true) && cfg == c
      ensures State() == App(View(), Nothing, [], false)
    {
      cfg := c;
      rcvNxt, rcvWnd, annWnd, annEdge, ooseq, rxOpen := 0, c.wnd, c.wnd, 0, [], true;
      refused, got, eof := Nothing, [], false;
    }

    ghost function View(): Rcv
      reads this
    {
      Rcv(rcvNxt, rcvWnd, annWnd, annEdge, ooseq, rxOpen)
    }

    ghost function State(): App
      reads this
    {
      App(View(), refused, got, eof)
    }

    /** `tcp_update_rcv_ann_wnd`; returns how much extra window would be advertised now.  Whatever was announced
        before, the edge that would be announced now is right if and only if the window reaches the last one. */
    method UpdateRcvAnnWnd() returns (extra: int)
      requires annEdge - rcvNxt <= 0xffff
      modifies this`annWnd
      ensures View() == UpdateAnn(old(View()), cfg)
      ensures Announced(View()) <==> annEdge <= rcvNxt + rcvWnd && rcvWnd < 0x1_0000
      ensures rcvNxt + annWnd == if rcvNxt + rcvWnd - annEdge >= Min(cfg.wnd / 2, cfg.mss) then rcvNxt + rcvWnd
                                 else if rcvNxt > annEdge then rcvNxt else annEdge
      ensures extra == if annWnd == rcvWnd && rcvNxt + rcvWnd >= annEdge + Min(cfg.wnd / 2, cfg.mss)
                       then rcvNxt + rcvWnd - annEdge else 0
    {
      var newEdge := rcvNxt + rcvWnd;
      if newEdge >= annEdge + Min(cfg.wnd / 2, cfg.mss) {
        annWnd := rcvWnd;
        return newEdge - annEdge;
      } else if rcvNxt > annEdge {
        annWnd := 0;
      } else {
        annWnd := annEdge - rcvNxt;
      }
      return 0;
    }

    /** `tcp_recved` */
    method DataTaken(len: nat) returns (extra: int)
      requires len <= 0xffff - rcvWnd && annEdge - rcvNxt <= 0xffff
      modifies this`rcvWnd, this`annWnd
      ensures View() == Recved(old(View()), cfg, len)
      ensures rcvWnd == Min(cfg.wnd, old(rcvWnd) + len)
      ensures extra == if annWnd == rcvWnd && rcvNxt + rcvWnd >= annEdge + Min(cfg.wnd / 2, cfg.mss)
                       then rcvNxt + rcvWnd - annEdge else 0
    {
      rcvWnd := rcvWnd + len;
      if rcvWnd > cfg.wnd {
        rcvWnd := cfg.wnd;
      }
      extra := UpdateRcvAnnWnd();
    }

    /** A segment at `rcv_nxt` is taken: numbers and window. */
    method TakeSegment(len: nat)
      requires annEdge - rcvNxt <= 0xffff
      modifies this`rcvNxt, this`rcvWnd, this`annWnd
      ensures View() == Advance(old(View()), cfg, len)
    {
      rcvNxt := rcvNxt + len;
      rcvWnd := U16(rcvWnd - len);
      var _ := UpdateRcvAnnWnd();
    }

    /** The in-sequence branch of `tcp_receive`. */
    method ReceiveInOrder(g0: Seg) returns (data: seq<Byte>, fin: bool)
      requires annEdge - rcvNxt <= 0xffff
      modifies this
      ensures var d := AcceptInOrder(old(View()), cfg, g0);
              View() == d.r && data == d.data && fin == d.fin
      ensures refused == old(refused) && got == old(got) && eof == old(eof)
    {
      ghost var r0 := View();
      var g, q := TrimToEdge(g0, rcvNxt + rcvWnd), [];
      if ooseq != [] && !g.fin {
        g, q := SwallowCovered(g, ooseq, true);
      }
      assert (g, q) == FitInOrder(r0, g0);
      TakeSegment(g.TcpLen());
      ooseq, data, fin := q, g.data, g.fin;
      ghost var end := Drain(Delivery(View(), data, fin), cfg);
      while ooseq != [] && ooseq[0].seqno == rcvNxt
        invariant Drain(Delivery(View(), data, fin), cfg) == end
        invariant annEdge - rcvNxt <= 0xffff && rxOpen == r0.rxOpen
        invariant refused == old(refused) && got == old(got) && eof == old(eof)
        decreases |ooseq|
      {
        var cseg := ooseq[0];
        DrainStep(Delivery(View(), data, fin), cfg);
        TakeSegment(cseg.TcpLen());
        data := data + cseg.data;
        if cseg.fin {
          fin := true;
        }
        ooseq := ooseq[1..];
      }
      DrainStep(Delivery(View(), data, fin), cfg);
      if fin {
        rxOpen := false;
      }
    }

    /** The data part of `tcp_receive`. */
    method ReceiveData(g0: Seg, mem: bool, ackMem: bool) returns (data: seq<Byte>, fin: bool)
      requires annEdge - rcvNxt <= 0xffff
      modifies this
      ensures var d := Receive(old(View()), cfg, g0, mem, ackMem);
              View() == d.r && data == d.data && fin == d.fin
      ensures refused == old(refused) && got == old(got) && eof == old(eof)
    {
      data, fin := [], false;
      if g0.TcpLen() == 0 || !rxOpen {
        return;
      }
      var g := TrimFront(g0, rcvNxt);
      var edge := rcvNxt + rcvWnd;
      if rcvNxt <= g.seqno <= edge - 1 {
        if g.seqno == rcvNxt {
          data, fin := ReceiveInOrder(g);
        } else {
          if ackMem {
            annEdge := rcvNxt + annWnd;
          }
          if mem {
            ooseq := QueueSegment(ooseq, g, edge);
          }
        }
      } else if ackMem {
        annEdge := rcvNxt + annWnd;
      }
    }

    /** The window correction and the close callback for a FIN. */
    method Closed()
      modifies this
      ensures State() == old(State()).(r := FinCorrection(old(View()), cfg), eof := true)
    {
      if rcvWnd != cfg.wnd {
        rcvWnd := U16(rcvWnd + 1);
      }
      eof := true;
    }

    /** `tcp_process_refused_data`: what the application has, with what it refused, stays the part of the stream it was;
        the announced edge is lost only with a FIN, when `rcv_wnd` overflows. */
    method ProcessRefusedData(accept: bool)
      modifies this
      ensures State() == Retry(old(State()), cfg, accept)
      ensures forall stream :: Account(old(State()), stream) ==> Account(State(), stream)
      ensures Announced(old(View())) ==>
                (Announced(View()) <==> !(accept && old(refused).Kept? && old(refused).fin)
                                        || old(rcvWnd) != 0xffff || cfg.wnd == 0xffff || old(annWnd) == 0)
    {
      RetryKeeps(State(), cfg, accept);
      match refused
      case Nothing =>
      case Kept(data, fin) =>
        if accept {
          refused := Nothing;
          got := got + data;
          if fin {
            Closed();
          }
        }
    }

    /** `tcp_input` from the refused data to the callbacks; `again` and `accept` are the answers of
        the application to refused and to new data. */
    method InputSegment(g: Seg, mem: bool, ackMem: bool, again: bool, accept: bool)
      requires annEdge - rcvNxt <= 0xffff
      modifies this
      ensures State() == Input(old(State()), cfg, g, mem, ackMem, again, accept)
    {
      ProcessRefusedData(again);
      if refused != Nothing && g.TcpLen() > 0 {
        return;
      }
      var data, fin := ReceiveData(g, mem, ackMem);
      if data != [] {
        if accept {
          got := got + data;
        } else {
          refused := Kept(data, false);
        }
      }
      if fin {
        match refused
        case Kept(kept, _) => refused := Kept(kept, true);
        case Nothing => Closed();
      }
    }
  }
}
