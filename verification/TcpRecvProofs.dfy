/**
 What every step of the receiver keeps, for arbitrary peers, and what it delivers
 when the peer sends the bytes of one stream.
 */
module TcpRecvProofs {
  import opened TcpSegment
  import opened TcpRecv
  import SeqNum

  // ----- the order of the out-of-sequence queue -----

  lemma OosWeaken(q: seq<Seg>, lo: int, lo': int)
    requires Oos(q, lo) && lo' <= lo
    ensures Oos(q, lo')
  {
  }

  /** The recursive form says what the queue is meant to be. */
  lemma {:induction false} OosMeaning(q: seq<Seg>, lo: int)
    requires Oos(q, lo)
    ensures forall i :: 0 <= i < |q| ==> lo <= q[i].seqno && q[i].TcpLen() > 0
    ensures forall i :: 0 <= i < |q| - 1 ==> !q[i].fin
    ensures forall i, j :: 0 <= i < j < |q| ==> q[i].End() <= q[j].seqno
  {
    if q != [] {
      OosMeaning(q[1..], q[0].End());
      forall i, j | 0 <= i < j < |q| ensures q[i].End() <= q[j].seqno {
        assert q[j] == q[1..][j - 1];
        assert i > 0 ==> q[i] == q[1..][i - 1];
      }
      forall i | 0 <= i < |q| ensures lo <= q[i].seqno && q[i].TcpLen() > 0 {
        assert i > 0 ==> q[i] == q[1..][i - 1];
      }
      forall i | 0 <= i < |q| - 1 ensures !q[i].fin {
        assert i > 0 ==> q[i] == q[1..][i - 1];
      }
    }
  }

  /** Absorbing leaves a suffix of the queue, and a FIN only if nothing is left. */
  lemma {:induction false} AbsorbOos(g: Seg, q: seq<Seg>, withFin: bool, lo: int)
    requires Oos(q, lo) && !g.fin
    ensures var (h, rest) := Absorb(g, q, withFin);
            && h == g.(fin := h.fin) && Oos(rest, lo) && |rest| <= |q|
            && (h.fin ==> rest == [])
            && (rest != [] ==> h.DataEnd() < rest[0].DataEnd())
    decreases |q|
  {
    if q != [] && g.DataEnd() >= q[0].DataEnd() {
      if q[0].fin {
        assert q[1..] == [];
      } else {
        AbsorbOos(g, q[1..], withFin, q[0].End());
        var (h, rest) := Absorb(g, q[1..], withFin);
        OosWeaken(rest, q[0].End(), lo);
      }
    }
  }

  /** Absorb and cut: the segment then ends where the rest of the queue may start. */
  lemma AbsorbCutOos(g: Seg, q: seq<Seg>, withFin: bool, lo: int)
    requires Oos(q, lo) && !g.fin && g.data != [] && g.seqno < lo
    ensures var (h, rest) := AbsorbCut(g, q, withFin);
            && h.seqno == g.seqno && h.TcpLen() > 0 && Oos(rest, h.End()) && |h.data| <= |g.data|
            && (h.fin ==> rest == [])
  {
    AbsorbOos(g, q, withFin, lo);
  }

  /** `tcp_oos_insert_segment` puts the segment first and keeps the order. */
  lemma InsertBeforeOos(g: Seg, q: seq<Seg>, lo: int)
    requires Oos(q, lo) && g.TcpLen() > 0
    requires g.seqno < lo || (q != [] && g.seqno == lo == q[0].seqno && |g.data| > |q[0].data|)
    ensures Oos(InsertBefore(g, q), g.seqno)
  {
    if !g.fin {
      if g.seqno < lo {
        AbsorbCutOos(g, q, false, lo);
      } else {
        // the first queued segment is covered and replaced
        var g' := g.(fin := q[0].fin);
        assert Absorb(g, q, false) == Absorb(g', q[1..], false);
        if q[0].fin {
          assert q[1..] == [];
        } else {
          assert g' == g;
          if q[1..] != [] {
            assert q[0].End() > g.seqno;
          }
          AbsorbCutOos(g, q[1..], false, q[0].End());
        }
      }
      var (h, rest) := AbsorbCut(g, q, false);
      assert ([h] + rest)[1..] == rest;
    }
  }

  /** Queueing a segment keeps the queue sorted, non-overlapping and FIN last. */
  lemma {:induction false} PlaceOos(q: seq<Seg>, g: Seg, edge: int, lo: int)
    requires q != [] && Oos(q, lo) && lo <= g.seqno < edge && g.TcpLen() > 0
    ensures Oos(Place(q, g, edge), lo)
    decreases |q|
  {
    if g.seqno == q[0].seqno {
      if |g.data| > |q[0].data| {
        InsertBeforeOos(g, q, q[0].seqno);
      }
    } else if g.seqno < q[0].seqno {
      InsertBeforeOos(g, q, q[0].seqno);
    } else if |q| == 1 {
      if !q[0].fin {
        var t := TrimToEdge(g, edge);
        assert [CutAt(q[0], g.seqno), t][1..] == [t];
        assert [t][1..] == [];
      }
    } else if g.seqno < q[1].seqno {
      var t := InsertBefore(g, q[1..]);
      InsertBeforeOos(g, q[1..], q[1].seqno);
      assert ([CutAt(q[0], g.seqno)] + t)[1..] == t;
      InsertBeforeFirst(g, q[1..]);
    } else {
      assert !q[0].fin && q[0].End() <= q[1].seqno;
      PlaceOos(q[1..], g, edge, q[0].End());
      var t := Place(q[1..], g, edge);
      assert ([q[0]] + t)[1..] == t;
    }
  }

  lemma InsertBeforeFirst(g: Seg, q: seq<Seg>)
    ensures InsertBefore(g, q) != []
  {
  }

  /** Delivering from the queue leaves it strictly above `rcv_nxt`. */
  lemma {:induction false} DrainOos(d: Delivery, c: Cfg)
    requires Oos(d.r.ooseq, d.r.rcvNxt)
    ensures var e := Drain(d, c); Oos(e.r.ooseq, e.r.rcvNxt + 1) && e.r.rxOpen == d.r.rxOpen
    decreases |d.r.ooseq|
  {
    var q := d.r.ooseq;
    if q != [] && q[0].seqno == d.r.rcvNxt {
      DrainOos(Delivery(Advance(d.r, c, q[0].TcpLen()).(ooseq := q[1..]), d.data + q[0].data, d.fin || q[0].fin), c);
    }
  }

  lemma FitInOrderOos(r: Rcv, g: Seg)
    requires Oos(r.ooseq, r.rcvNxt + 1) && g.seqno == r.rcvNxt < r.Edge() && g.TcpLen() > 0
    ensures var (h, q) := FitInOrder(r, g);
            h.seqno == r.rcvNxt && h.TcpLen() > 0 && Oos(q, h.End())
  {
    var h := TrimToEdge(g, r.Edge());
    if r.ooseq != [] && !h.fin {
      AbsorbCutOos(h, r.ooseq, true, r.rcvNxt + 1);
    }
  }

  // ----- the announced window -----

  /** Announcing again never shrinks the announced edge and never exceeds the window. */
  lemma UpdateAnnOk(r: Rcv, c: Cfg)
    requires r.annEdge <= r.Edge() && r.rcvWnd < 0x1_0000
    ensures var a := UpdateAnn(r, c); a.annEdge <= a.rcvNxt + a.annWnd && a.annWnd <= a.rcvWnd
  {
  }

  lemma AdvanceOk(r: Rcv, c: Cfg, len: nat)
    requires r.annEdge <= r.Edge() && r.rcvWnd < 0x1_0000
    ensures var a := Advance(r, c, len);
            && a.annEdge == r.annEdge <= a.rcvNxt + a.annWnd && a.annWnd <= a.rcvWnd < 0x1_0000
            && r.Edge() <= a.Edge() && (r.Edge() == a.Edge() <==> len <= r.rcvWnd)
  {
    var w := U16(r.rcvWnd - len);
    assert w >= r.rcvWnd - len;
    UpdateAnnOk(r.(rcvNxt := r.rcvNxt + len, rcvWnd := w), c);
  }

  lemma {:induction false} DrainAnn(d: Delivery, c: Cfg)
    requires d.r.annEdge <= d.r.rcvNxt + d.r.annWnd && d.r.annWnd <= d.r.rcvWnd < 0x1_0000
    ensures var r := Drain(d, c).r;
            && d.r.annEdge == r.annEdge <= r.rcvNxt + r.annWnd && r.annWnd <= r.rcvWnd < 0x1_0000
            && d.r.Edge() <= r.Edge() && d.r.rcvNxt <= r.rcvNxt
    decreases |d.r.ooseq|
  {
    var q := d.r.ooseq;
    if q != [] && q[0].seqno == d.r.rcvNxt {
      AdvanceOk(d.r, c, q[0].TcpLen());
      DrainAnn(Delivery(Advance(d.r, c, q[0].TcpLen()).(ooseq := q[1..]), d.data + q[0].data, d.fin || q[0].fin), c);
    }
  }

  // ----- every step -----

  /** Whatever segment arrives, the queue stays in order and strictly above `rcv_nxt`. */
  lemma ReceiveQueued(r: Rcv, c: Cfg, g: Seg, mem: bool, ackMem: bool)
    requires Queued(r)
    ensures Queued(Receive(r, c, g, mem, ackMem).r)
  {
    if g.TcpLen() > 0 && r.rxOpen {
      var h := TrimFront(g, r.rcvNxt);
      if r.InWindow(h.seqno) {
        if h.seqno == r.rcvNxt {
          var (i, q) := FitInOrder(r, h);
          FitInOrderOos(r, h);
          DrainOos(Delivery(Advance(r, c, i.TcpLen()).(ooseq := q), i.data, i.fin), c);
        } else if r.ooseq != [] {
          PlaceOos(r.ooseq, h, r.Edge(), r.rcvNxt + 1);
        } else {
          assert [h][1..] == [];
        }
      }
    }
  }

  /** Whatever segment arrives, the announced edge stays within the window, and neither it, nor
      the window's edge, nor `rcv_nxt` moves left. */
  lemma ReceiveAnnounced(r: Rcv, c: Cfg, g: Seg, mem: bool, ackMem: bool)
    requires Announced(r)
    ensures var r' := Receive(r, c, g, mem, ackMem).r;
            && Announced(r')
            && r.annEdge <= r'.annEdge && r.Edge() <= r'.Edge() && r.rcvNxt <= r'.rcvNxt
  {
    if g.TcpLen() > 0 && r.rxOpen {
      var h := TrimFront(g, r.rcvNxt);
      if r.InWindow(h.seqno) && h.seqno == r.rcvNxt {
        var (i, q) := FitInOrder(r, h);
        AdvanceOk(r, c, i.TcpLen());
        DrainAnn(Delivery(Advance(r, c, i.TcpLen()).(ooseq := q), i.data, i.fin), c);
      }
    }
  }

  /** Sending a segment announces an edge that is not left of the one announced before. */
  lemma SendInv(r: Rcv)
    requires Announced(r)
    ensures Announced(SendSegment(r)) && r.annEdge <= SendSegment(r).annEdge <= r.Edge()
  {
  }

  /** After the application has taken data, the announced edge is within the window if and only if the window, clamped
      to TCP_WND, still reaches it. */
  lemma RecvedExact(r: Rcv, c: Cfg, len: nat)
    requires Announced(r) && c.wnd < 0x1_0000
    ensures Announced(Recved(r, c, len)) <==> r.annEdge <= r.rcvNxt + Min(c.wnd, r.rcvWnd + len)
  {
  }

  /** Taking data off the receive buffer only opens a window that is not above TCP_WND. */
  lemma RecvedInv(r: Rcv, c: Cfg, len: nat)
    requires Announced(r) && r.rcvWnd <= c.wnd < 0x1_0000
    ensures var r' := Recved(r, c, len);
            Announced(r') && r'.rcvWnd <= c.wnd && r.Edge() <= r'.Edge() && r'.annEdge == r.annEdge
  {
    UpdateAnnOk(r.(rcvWnd := if r.rcvWnd + len > c.wnd then c.wnd else r.rcvWnd + len), c);
  }

  /** The correction for the FIN keeps the announcement within the window if and only if
      `rcv_wnd` does not overflow in it. */
  lemma FinCorrectionExact(r: Rcv, c: Cfg)
    requires Announced(r)
    ensures Announced(FinCorrection(r, c)) <==> r.rcvWnd != 0xffff || c.wnd == 0xffff || r.annWnd == 0
    ensures r.rcvWnd != 0xffff || c.wnd == 0xffff ==> r.Edge() <= FinCorrection(r, c).Edge()
  {
  }

  // ----- agreement with the stream -----

  /** The FIN taken over from a covered segment is the one at the end of the stream. */
  lemma {:induction false} AbsorbAgrees(g: Seg, q: seq<Seg>, withFin: bool, lo: int, stream: seq<Byte>, closed: bool)
    requires Oos(q, lo) && !g.fin && Agrees(g, stream, closed) && AllAgree(q, stream, closed)
    ensures var (h, rest) := Absorb(g, q, withFin);
            Agrees(h, stream, closed) && AllAgree(rest, stream, closed)
    decreases |q|
  {
    if q != [] && g.DataEnd() >= q[0].DataEnd() {
      assert q[0] in q;
      if q[0].fin {
        assert q[1..] == [];
      } else {
        AbsorbAgrees(g, q[1..], withFin, q[0].End(), stream, closed);
      }
    }
  }

  lemma CutAgrees(g: Seg, x: int, stream: seq<Byte>, closed: bool)
    requires Agrees(g, stream, closed) && !g.fin
    ensures Agrees(CutAt(g, x), stream, closed)
  {
    if g.seqno <= x < g.DataEnd() {
      AgreesCut(g, x - g.seqno, stream, closed);
    }
  }

  lemma TrimAgrees(g: Seg, x: int, stream: seq<Byte>, closed: bool)
    requires Agrees(g, stream, closed)
    ensures Agrees(TrimToEdge(g, x), stream, closed) && Agrees(TrimFront(g, x), stream, closed)
  {
    if g.End() > x && g.seqno <= x <= g.DataEnd() {
      AgreesCut(g, x - g.seqno, stream, closed);
    }
  }

  lemma AbsorbCutAgrees(g: Seg, q: seq<Seg>, withFin: bool, lo: int, stream: seq<Byte>, closed: bool)
    requires Oos(q, lo) && !g.fin && Agrees(g, stream, closed) && AllAgree(q, stream, closed)
    ensures var (h, rest) := AbsorbCut(g, q, withFin);
            Agrees(h, stream, closed) && AllAgree(rest, stream, closed)
  {
    AbsorbOos(g, q, withFin, lo);
    AbsorbAgrees(g, q, withFin, lo, stream, closed);
    var (h, rest) := Absorb(g, q, withFin);
    if rest != [] {
      CutAgrees(h, rest[0].seqno, stream, closed);
    }
  }

  lemma InsertBeforeAgrees(g: Seg, q: seq<Seg>, lo: int, stream: seq<Byte>, closed: bool)
    requires Oos(q, lo) && Agrees(g, stream, closed) && AllAgree(q, stream, closed)
    ensures AllAgree(InsertBefore(g, q), stream, closed)
  {
    if !g.fin {
      AbsorbCutAgrees(g, q, false, lo, stream, closed);
    }
  }

  /** Queueing never mixes up bytes: what is queued are still bytes of the stream. */
  lemma {:induction false} PlaceAgrees(q: seq<Seg>, g: Seg, edge: int, lo: int, stream: seq<Byte>, closed: bool)
    requires q != [] && Oos(q, lo) && Agrees(g, stream, closed) && AllAgree(q, stream, closed)
    ensures AllAgree(Place(q, g, edge), stream, closed)
    decreases |q|
  {
    assert q[0] in q;
    if g.seqno <= q[0].seqno {
      InsertBeforeAgrees(g, q, lo, stream, closed);
    } else if |q| == 1 {
      if !q[0].fin {
        CutAgrees(q[0], g.seqno, stream, closed);
        TrimAgrees(g, edge, stream, closed);
      }
    } else if g.seqno < q[1].seqno {
      CutAgrees(q[0], g.seqno, stream, closed);
      InsertBeforeAgrees(g, q[1..], q[0].End(), stream, closed);
    } else {
      PlaceAgrees(q[1..], g, edge, q[0].End(), stream, closed);
    }
  }

  /** The delivery so far: the bytes of the stream from `start` up to `rcv_nxt`. */
  predicate Delivered(d: Delivery, start: int, stream: seq<Byte>, closed: bool) {
    && AllAgree(d.r.ooseq, stream, closed)
    && 0 <= start <= d.r.rcvNxt
    && (if d.fin then closed && d.r.rcvNxt == |stream| + 1 && start <= |stream| && d.data == stream[start..]
        else d.r.rcvNxt <= |stream| && d.data == stream[start..d.r.rcvNxt])
  }

  lemma {:induction false} DrainDelivers(d: Delivery, c: Cfg, start: int, stream: seq<Byte>, closed: bool)
    requires Delivered(d, start, stream, closed)
    ensures Delivered(Drain(d, c), start, stream, closed)
    decreases |d.r.ooseq|
  {
    var q := d.r.ooseq;
    if q != [] && q[0].seqno == d.r.rcvNxt {
      assert q[0] in q && Agrees(q[0], stream, closed);
      var e := Delivery(Advance(d.r, c, q[0].TcpLen()).(ooseq := q[1..]), d.data + q[0].data, d.fin || q[0].fin);
      assert stream[start..d.r.rcvNxt] + stream[d.r.rcvNxt..q[0].DataEnd()] == stream[start..q[0].DataEnd()];
      DrainDelivers(e, c, start, stream, closed);
    }
  }

  lemma FitInOrderAgrees(r: Rcv, g: Seg, stream: seq<Byte>, closed: bool)
    requires Oos(r.ooseq, r.rcvNxt + 1) && AllAgree(r.ooseq, stream, closed) && Agrees(g, stream, closed)
    ensures var (h, q) := FitInOrder(r, g); Agrees(h, stream, closed) && AllAgree(q, stream, closed)
  {
    TrimAgrees(g, r.Edge(), stream, closed);
    var h := TrimToEdge(g, r.Edge());
    if r.ooseq != [] && !h.fin {
      AbsorbCutAgrees(h, r.ooseq, true, r.rcvNxt + 1, stream, closed);
    }
  }

  /** What is delivered is exactly the stretch of the stream by which `rcv_nxt` advances, and
      the end of the stream is reported exactly when the FIN has been passed. */
  lemma ReceiveDelivers(r: Rcv, c: Cfg, g: Seg, mem: bool, ackMem: bool, stream: seq<Byte>, closed: bool)
    requires Queued(r) && Consistent(r, stream, closed) && Agrees(g, stream, closed)
    ensures var d := Receive(r, c, g, mem, ackMem);
            && Consistent(d.r, stream, closed) && 0 <= r.rcvNxt <= d.r.rcvNxt
            && d.data == stream[Min(r.rcvNxt, |stream|)..Min(d.r.rcvNxt, |stream|)]
            && (d.fin <==> r.rxOpen && !d.r.rxOpen)
  {
    if g.TcpLen() > 0 && r.rxOpen {
      var h := TrimFront(g, r.rcvNxt);
      TrimAgrees(g, r.rcvNxt, stream, closed);
      if r.InWindow(h.seqno) {
        if h.seqno == r.rcvNxt {
          AcceptDelivers(r, c, h, stream, closed);
        } else if r.ooseq != [] {
          PlaceAgrees(r.ooseq, h, r.Edge(), r.rcvNxt + 1, stream, closed);
        }
      }
    }
  }

  lemma AcceptDelivers(r: Rcv, c: Cfg, g: Seg, stream: seq<Byte>, closed: bool)
    requires Queued(r) && r.rxOpen && Consistent(r, stream, closed) && Agrees(g, stream, closed)
    requires g.seqno == r.rcvNxt < r.Edge() && g.TcpLen() > 0
    ensures var d := AcceptInOrder(r, c, g);
            Delivered(d, r.rcvNxt, stream, closed) && d.r.rxOpen == !d.fin
  {
    var (h, q) := FitInOrder(r, g);
    FitInOrderOos(r, g);
    FitInOrderAgrees(r, g, stream, closed);
    var d := Delivery(Advance(r, c, h.TcpLen()).(ooseq := q), h.data, h.fin);
    assert h.fin ==> h.data == stream[r.rcvNxt..];
    DrainDelivers(d, c, r.rcvNxt, stream, closed);
    DrainOos(d, c);
  }

  // ----- does the window hold what is queued? -----

  /** The branches of the queueing code that store the segment without looking at the window. */
  predicate TakesWhole(q: seq<Seg>, g: Seg) {
    if q == [] || g.seqno < q[0].seqno then true
    else if g.seqno == q[0].seqno then |g.data| > |q[0].data|
    else if |q| == 1 then false
    else g.seqno < q[1].seqno || TakesWhole(q[1..], g)
  }

  lemma {:induction false} AbsorbFits(g: Seg, q: seq<Seg>, withFin: bool, lo: int, edge: int, stream: seq<Byte>,
                                      closed: bool)
    requires Oos(q, lo) && !g.fin && Agrees(g, stream, closed) && AllAgree(q, stream, closed) && Fits(q, edge)
    ensures var (h, rest) := Absorb(g, q, withFin);
            && Fits(rest, edge) && h.DataEnd() == g.DataEnd()
            && (g.DataEnd() <= edge ==> h.End() <= edge) && (g.DataEnd() > edge ==> rest == [])
    decreases |q|
  {
    if q != [] {
      assert q[0] in q;
      if g.DataEnd() >= q[0].DataEnd() {
        if q[0].fin {
          assert q[1..] == [];
        } else {
          AbsorbFits(g, q[1..], withFin, q[0].End(), edge, stream, closed);
        }
      }
    }
  }

  lemma InsertBeforeFits(g: Seg, q: seq<Seg>, lo: int, edge: int, stream: seq<Byte>, closed: bool)
    requires Oos(q, lo) && Agrees(g, stream, closed) && AllAgree(q, stream, closed) && Fits(q, edge)
    ensures Fits(InsertBefore(g, q), edge) <==> g.End() <= edge
  {
    if g.fin {
      assert g in [g];
    } else {
      AbsorbFits(g, q, false, lo, edge, stream, closed);
      var (h, rest) := AbsorbCut(g, q, false);
      assert h in [h] + rest;
    }
  }

  /** The queue stays within the window if and only if the segment does, or the branch that
      takes it trims it or drops it. */
  lemma {:induction false} PlaceFits(q: seq<Seg>, g: Seg, edge: int, lo: int, stream: seq<Byte>, closed: bool)
    requires q != [] && Oos(q, lo) && lo <= g.seqno < edge
    requires Agrees(g, stream, closed) && AllAgree(q, stream, closed) && Fits(q, edge)
    ensures Fits(Place(q, g, edge), edge) <==> g.End() <= edge || !TakesWhole(q, g)
    decreases |q|
  {
    assert q[0] in q;
    if g.seqno <= q[0].seqno {
      InsertBeforeFits(g, q, lo, edge, stream, closed);
    } else if |q| == 1 {
      if !q[0].fin {
        assert TrimToEdge(g, edge).End() <= edge && CutAt(q[0], g.seqno).End() <= edge;
      }
    } else if g.seqno < q[1].seqno {
      var t := InsertBefore(g, q[1..]);
      InsertBeforeFits(g, q[1..], q[0].End(), edge, stream, closed);
      assert forall h :: h in t ==> h in Place(q, g, edge);
    } else {
      var t := Place(q[1..], g, edge);
      PlaceFits(q[1..], g, edge, q[0].End(), stream, closed);
      assert forall h :: h in t ==> h in Place(q, g, edge);
    }
  }

  lemma {:induction false} DrainFits(d: Delivery, c: Cfg)
    requires d.r.annEdge <= d.r.Edge() && d.r.rcvWnd < 0x1_0000 && Fits(d.r.ooseq, d.r.Edge())
    ensures var r := Drain(d, c).r; r.Edge() == d.r.Edge() && Fits(r.ooseq, r.Edge())
    decreases |d.r.ooseq|
  {
    var q := d.r.ooseq;
    if q != [] && q[0].seqno == d.r.rcvNxt {
      assert q[0] in q;
      AdvanceOk(d.r, c, q[0].TcpLen());
      DrainFits(Delivery(Advance(d.r, c, q[0].TcpLen()).(ooseq := q[1..]), d.data + q[0].data, d.fin || q[0].fin), c);
    }
  }

  /** In-sequence data never takes more than the window, as long as the queue lies within it. */
  lemma AcceptFits(r: Rcv, c: Cfg, g: Seg, stream: seq<Byte>, closed: bool)
    requires Queued(r) && Announced(r) && AllAgree(r.ooseq, stream, closed) && Agrees(g, stream, closed)
             && Fits(r.ooseq, r.Edge())
    requires g.seqno == r.rcvNxt < r.Edge() && g.TcpLen() > 0
    ensures var r' := AcceptInOrder(r, c, g).r; r'.Edge() == r.Edge() && Fits(r'.ooseq, r'.Edge())
  {
    var t := TrimToEdge(g, r.Edge());
    TrimAgrees(g, r.Edge(), stream, closed);
    FitInOrderOos(r, g);
    if r.ooseq != [] && !t.fin {
      AbsorbFits(t, r.ooseq, true, r.rcvNxt + 1, r.Edge(), stream, closed);
    }
    var (h, q) := FitInOrder(r, g);
    assert h.End() <= r.Edge() && Fits(q, r.Edge());
    AdvanceOk(r, c, h.TcpLen());
    DrainFits(Delivery(Advance(r, c, h.TcpLen()).(ooseq := q), h.data, h.fin), c);
  }

  /** `rcv_wnd` accounts for the queue after a segment, as it did before, if and only if the
      segment was not stored beyond the window by a branch that does not look at it. */
  lemma OverrunExact(r: Rcv, c: Cfg, g: Seg, mem: bool, ackMem: bool, stream: seq<Byte>, closed: bool)
    requires Queued(r) && Announced(r) && r.rxOpen && AllAgree(r.ooseq, stream, closed) && Agrees(g, stream, closed)
             && g.TcpLen() > 0
    requires Fits(r.ooseq, r.Edge())
    ensures var r', h := Receive(r, c, g, mem, ackMem).r, TrimFront(g, r.rcvNxt);
            (r'.Edge() == r.Edge() && Fits(r'.ooseq, r'.Edge()))
            <==> !(mem && r.rcvNxt < h.seqno < r.Edge() < h.End() && TakesWhole(r.ooseq, h))
  {
    var h := TrimFront(g, r.rcvNxt);
    TrimAgrees(g, r.rcvNxt, stream, closed);
    if r.InWindow(h.seqno) {
      if h.seqno == r.rcvNxt {
        AcceptFits(r, c, h, stream, closed);
      } else if r.ooseq != [] {
        PlaceFits(r.ooseq, h, r.Edge(), r.rcvNxt + 1, stream, closed);
      } else {
        assert h in [h];
      }
    }
  }

  /** Two lwIP peers reach that case: the sender does not count the FIN against the window, the
      segment with the FIN overtakes the one before it, and filling the gap wraps `rcv_wnd`. */
  lemma WindowWraps(c: Cfg, a: Seg, b: Seg)
    requires c == Cfg(2, 1) && a == Seg(0, [7], false, 1) && b == Seg(1, [8], true, 1)
    ensures var r := Rcv(0, 2, 2, 2, [], true);
            var r1 := Receive(r, c, b, true, true).r;
            var d := Receive(r1, c, a, true, true);
            && Queued(r) && Announced(r) && r1.ooseq == [b] && d.data == [7, 8] && d.fin
            && d.r.rcvWnd == 0xffff && !Announced(FinCorrection(d.r, c))
  {
    var r, r1 := Rcv(0, 2, 2, 2, [], true), Rcv(0, 2, 2, 2, [b], true);
    FinFirst(r, c, b);
    var r2, r3 := Rcv(1, 1, 1, 2, [b], true), Rcv(3, 0xffff, 0xffff, 2, [], true);
    GapFilled(r1, c, a, b, r2);
    FinTaken(r2, c, b, r3);
  }

  /** The segment with the FIN is queued although it reaches beyond the window. */
  lemma FinFirst(r: Rcv, c: Cfg, b: Seg)
    requires r == Rcv(0, 2, 2, 2, [], true) && b == Seg(1, [8], true, 1)
    ensures Queued(r) && Announced(r) && Receive(r, c, b, true, true).r == Rcv(0, 2, 2, 2, [b], true)
  {
    assert TrimFront(b, 0) == b;
  }

  lemma GapFilled(r: Rcv, c: Cfg, a: Seg, b: Seg, r2: Rcv)
    requires c == Cfg(2, 1) && r == Rcv(0, 2, 2, 2, [b], true) && r2 == Rcv(1, 1, 1, 2, [b], true)
    requires a == Seg(0, [7], false, 1) && b == Seg(1, [8], true, 1)
    ensures var d := Drain(Delivery(r2, [7], false), c);
            Receive(r, c, a, true, true) == d.(r := d.r.(rxOpen := !d.fin))
  {
    assert FitInOrder(r, a) == (a, [b]);
    assert Advance(r, c, 1) == r2;
  }

  lemma FinTaken(r2: Rcv, c: Cfg, b: Seg, r3: Rcv)
    requires c == Cfg(2, 1) && r2 == Rcv(1, 1, 1, 2, [b], true) && b == Seg(1, [8], true, 1)
    requires r3 == Rcv(3, 0xffff, 0xffff, 2, [], true)
    ensures var d := Drain(Delivery(r2, [7], false), c);
            && d == Delivery(r3, [7, 8], true)
            && !Announced(FinCorrection(r3.(rxOpen := false), c))
  {
    var q: seq<Seg> := [b];
    assert q[1..] == [];
    assert Advance(r2, c, 2) == r3.(ooseq := [b]);
    assert Drain(Delivery(r3, [7] + [8], true), c) == Delivery(r3, [7] + [8], true);
    assert [7] + [8] == [7, 8];
  }

  // ----- the window check for the last queued segment, on wrapped numbers -----

  /** A queued segment as the code has it: `len` is a field of its own. */
  datatype Stored = Stored(seqno: int, data: seq<Byte>, len: nat, fin: bool)

  function AsStored(g: Seg): Stored { Stored(g.seqno, g.data, |g.data|, g.fin) }

  /** The trimming of a segment at the end of the queue, with the comparison that the code makes: `pbuf_realloc`
      shortens the data but never lengthens it. */
  function RawTrim(g: Seg, edge: int): Stored {
    if SeqNum.U32(g.End()) > SeqNum.U32(edge) then
      var len := U16(edge - g.seqno);
      Stored(g.seqno, if len < |g.data| then g.data[..len] else g.data, len, false)
    else AsStored(g)
  }

  /** It trims as intended if and only if the end of the segment and the edge lie in the same turn of the sequence
      space.  Otherwise a segment that overruns the window stays whole, and one that does not loses its FIN and gets
      a length beyond its data, by which `rcv_nxt` will pass bytes that were never delivered. */
  lemma RawTrimExact(g: Seg, edge: int)
    requires g.seqno < edge < g.seqno + 0x1_0000 && |g.data| <= 0xffff
    ensures RawTrim(g, edge) == AsStored(TrimToEdge(g, edge)) <==> g.End() / SeqNum.M == edge / SeqNum.M
    ensures g.End() / SeqNum.M < edge / SeqNum.M ==>
              RawTrim(g, edge).len == edge - g.seqno > |g.data| && RawTrim(g, edge).data == g.data
    ensures g.End() / SeqNum.M > edge / SeqNum.M ==> RawTrim(g, edge) == AsStored(g) && g.End() > edge
  {
    SeqNum.RawCompareExact(g.End(), edge);
    SeqNum.TurnOrder(g.End(), edge);
    assert U16(edge - g.seqno) == edge - g.seqno;
  }

  /** The queue as the code has it. */
  function AllStored(q: seq<Seg>): seq<Stored> { seq(|q|, i requires 0 <= i < |q| => AsStored(q[i])) }

  /** `Place` with the comparison that the code makes. */
  function RawPlace(q: seq<Seg>, g: Seg, edge: int): seq<Stored>
    requires q != []
    decreases |q|
  {
    if g.seqno == q[0].seqno then AllStored(if |g.data| > |q[0].data| then InsertBefore(g, q) else q)
    else if g.seqno < q[0].seqno then AllStored(InsertBefore(g, q))
    else if |q| == 1 then
      if q[0].fin then AllStored(q) else [AsStored(CutAt(q[0], g.seqno)), RawTrim(g, edge)]
    else if g.seqno < q[1].seqno then AllStored([CutAt(q[0], g.seqno)] + InsertBefore(g, q[1..]))
    else [AsStored(q[0])] + RawPlace(q[1..], g, edge)
  }

  /** The segment goes behind the whole queue. */
  predicate GoesLast(q: seq<Seg>, g: Seg)
    requires q != []
  {
    q[|q| - 1].seqno < g.seqno && !q[|q| - 1].fin
  }

  /** Where no two segments overlap, the last one starts last. */
  lemma {:induction false} LastStarts(q: seq<Seg>, lo: int)
    requires Oos(q, lo) && q != []
    ensures q[0].seqno <= q[|q| - 1].seqno
    decreases |q|
  {
    if |q| > 1 {
      LastStarts(q[1..], q[0].End());
    }
  }

  /** Queueing a segment leaves the code with the queue intended, except for one that goes behind all others while its
      end and the window edge lie in different turns of the sequence space. */
  lemma {:induction false} RawPlaceExact(q: seq<Seg>, g: Seg, edge: int, lo: int)
    requires q != [] && Oos(q, lo) && g.seqno < edge < g.seqno + 0x1_0000 && |g.data| <= 0xffff
    ensures RawPlace(q, g, edge) == AllStored(Place(q, g, edge))
            <==> (GoesLast(q, g) ==> g.End() / SeqNum.M == edge / SeqNum.M)
    decreases |q|
  {
    LastStarts(q, lo);
    if |q| == 1 {
      RawLast(q[0], g, edge);
    } else if q[0].seqno < g.seqno && q[1].seqno <= g.seqno {
      RawPlaceExact(q[1..], g, edge, q[0].End());
      RawBehind(q, g, edge);
    } else {
      LastStarts(q[1..], q[0].End());
      RawInFront(q, g, edge);
    }
  }

  lemma {:induction false} StoredCons(x: Seg, s: seq<Stored>, q: seq<Seg>)
    ensures [AsStored(x)] + s == AllStored([x] + q) <==> s == AllStored(q)
  {
    assert AllStored([x] + q) == [AsStored(x)] + AllStored(q);
    assert ([AsStored(x)] + s)[1..] == s && ([AsStored(x)] + AllStored(q))[1..] == AllStored(q);
  }

  /** The decision is taken behind the first segment. */
  lemma {:induction false} RawBehind(q: seq<Seg>, g: Seg, edge: int)
    requires |q| > 1 && q[0].seqno < g.seqno && q[1].seqno <= g.seqno
    ensures RawPlace(q, g, edge) == AllStored(Place(q, g, edge))
            <==> RawPlace(q[1..], g, edge) == AllStored(Place(q[1..], g, edge))
    ensures GoesLast(q, g) <==> GoesLast(q[1..], g)
  {
    StoredCons(q[0], RawPlace(q[1..], g, edge), Place(q[1..], g, edge));
  }

  /** The segment does not go behind the last one. */
  lemma {:induction false} RawInFront(q: seq<Seg>, g: Seg, edge: int)
    requires |q| > 1 && (g.seqno <= q[0].seqno || g.seqno < q[1].seqno)
    ensures RawPlace(q, g, edge) == AllStored(Place(q, g, edge))
  {
  }

  lemma {:induction false} RawLast(a: Seg, g: Seg, edge: int)
    requires g.seqno < edge < g.seqno + 0x1_0000 && |g.data| <= 0xffff
    ensures RawPlace([a], g, edge) == AllStored(Place([a], g, edge))
            <==> (GoesLast([a], g) ==> g.End() / SeqNum.M == edge / SeqNum.M)
  {
    RawTrimExact(g, edge);
    var s := AllStored([CutAt(a, g.seqno), TrimToEdge(g, edge)]);
    assert s == [AsStored(CutAt(a, g.seqno)), AsStored(TrimToEdge(g, edge))];
    if GoesLast([a], g) {
      assert [AsStored(CutAt(a, g.seqno)), RawTrim(g, edge)][1] == RawTrim(g, edge)
             && s[1] == AsStored(TrimToEdge(g, edge));
    }
  }

  /** An instance: three bytes just before the end of the sequence space, a window that reaches beyond it. */
  lemma RawTrimWrong(g: Seg, edge: int)
    requires g == Seg(0xffff_fff0, [1, 2, 3], true, 1) && edge == 0x1_0000_0010
    ensures RawTrim(g, edge) == Stored(0xffff_fff0, [1, 2, 3], 32, false)
  {
  }
}
