/**
 Which sequence numbers the receiver holds: what a segment adds to `ooseq`, what it takes off it, and
 how far `rcv_nxt` gets.
 */
module TcpHeld {
  import opened TcpSegment
  import opened TcpRecv
  import opened TcpRecvProofs

  // ----- the queue holds every number at most once -----

  lemma {:induction false} OosCount(q: seq<Seg>, lo: int, x: int)
    requires Oos(q, lo)
    ensures Count(q, x) <= 1 && (x < lo ==> Count(q, x) == 0)
  {
    if q != [] {
      OosCount(q[1..], q[0].End(), x);
    }
  }

  lemma CountCons(g: Seg, q: seq<Seg>, x: int)
    ensures Count([g] + q, x) == (if g.Contains(x) then 1 else 0) + Count(q, x)
  {
    assert ([g] + q)[1..] == q;
  }

  lemma CountOne(g: Seg, x: int)
    ensures Count([g], x) == if g.Contains(x) then 1 else 0
  {
    assert [g][1..] == [];
  }

  /** The data of `g` does not reach beyond a FIN on the queue: so it is with the segments of one stream. */
  predicate WithinFin(q: seq<Seg>, g: Seg) { forall h :: h in q && h.fin ==> g.DataEnd() <= h.DataEnd() }

  // ----- covering -----

  /** What is swallowed was covered. */
  lemma {:induction false} AbsorbHeld(g: Seg, q: seq<Seg>, withFin: bool, lo: int, x: int)
    requires Oos(q, lo) && g.seqno <= lo && !g.fin && WithinFin(q, g)
    ensures var (h, rest) := Absorb(g, q, withFin);
            && (h.Contains(x) || Count(rest, x) > 0 <==> g.Contains(x) || Count(q, x) > 0)
            && (forall k :: k in rest ==> k in q)
    decreases |q|
  {
    if q != [] && g.DataEnd() >= q[0].DataEnd() {
      assert q[0] in q;
      if q[0].fin {
        assert q[1..] == [];
      } else {
        AbsorbHeld(g, q[1..], withFin, q[0].End(), x);
      }
    }
  }

  /** Covered segments are replaced, and the segment ends where the next one starts: nothing is lost and nothing held
      twice. */
  lemma AbsorbCutHeld(g: Seg, q: seq<Seg>, withFin: bool, lo: int, x: int)
    requires Oos(q, lo) && g.seqno <= lo && !g.fin && g.data != [] && WithinFin(q, g)
    requires g.seqno < lo || (q != [] && g.seqno == q[0].seqno && |g.data| > |q[0].data|)
    ensures var (h, rest) := AbsorbCut(g, q, withFin);
            && (h.Contains(x) || Count(rest, x) > 0 <==> g.Contains(x) || Count(q, x) > 0)
            && Oos(rest, h.End()) && h.seqno == g.seqno
  {
    AbsorbHeld(g, q, withFin, lo, x);
    if g.seqno < lo {
      AbsorbCutOos(g, q, withFin, lo);
      AbsorbOos(g, q, withFin, lo);
    } else {
      AbsorbFirst(g, q, withFin, lo);
    }
  }

  /** The first queued segment is covered. */
  lemma AbsorbFirst(g: Seg, q: seq<Seg>, withFin: bool, lo: int)
    requires Oos(q, lo) && !g.fin && q != [] && g.seqno == q[0].seqno && |g.data| > |q[0].data| && WithinFin(q, g)
    ensures Absorb(g, q, withFin) == Absorb(g, q[1..], withFin)
    ensures var (h, rest) := AbsorbCut(g, q, withFin); Oos(rest, h.End()) && h.seqno == g.seqno
    ensures var (h, rest) := Absorb(g, q, withFin); rest != [] ==> h.DataEnd() < rest[0].DataEnd() && !h.fin
  {
    assert q[0] in q;
    AbsorbOos(g, q[1..], withFin, q[0].End());
    AbsorbCutOos(g, q[1..], withFin, q[0].End());
  }

  lemma InsertHeld(g: Seg, q: seq<Seg>, lo: int, x: int)
    requires Oos(q, lo) && g.seqno <= lo && !g.fin && g.data != [] && WithinFin(q, g)
    requires g.seqno < lo || (q != [] && g.seqno == q[0].seqno && |g.data| > |q[0].data|)
    ensures Count(InsertBefore(g, q), x) == if g.Contains(x) || Count(q, x) > 0 then 1 else 0
  {
    AbsorbCutHeld(g, q, false, lo, x);
    var (h, rest) := AbsorbCut(g, q, false);
    OosCount(rest, h.End(), x);
    CountCons(h, rest, x);
  }

  // ----- what is queued -----

  /** The number lies behind `g` in a queued segment that `g` starts inside of: that segment is cut where `g` starts. */
  predicate LostBehind(q: seq<Seg>, g: Seg, x: int) {
    exists h :: h in q && !h.fin && h.seqno < g.seqno && g.End() <= x < h.DataEnd()
  }

  /** Only behind all others a segment is trimmed to the window. */
  predicate Outside(q: seq<Seg>, g: Seg, edge: int, x: int) { q != [] && GoesLast(q, g) && x >= edge }

  lemma LostFirst(q: seq<Seg>, g: Seg, lo: int, x: int)
    requires q != [] && Oos(q, lo)
    ensures LostBehind(q, g, x) <==>
            (!q[0].fin && q[0].seqno < g.seqno && g.End() <= x < q[0].DataEnd()) || LostBehind(q[1..], g, x)
  {
    assert q == [q[0]] + q[1..];
  }

  lemma {:induction false} NoneLost(q: seq<Seg>, g: Seg, lo: int, x: int)
    requires Oos(q, lo) && g.seqno <= lo
    ensures !LostBehind(q, g, x)
  {
    OosMeaning(q, lo);
  }

  /** The place is at or before the first segment. */
  lemma {:induction false} FrontHeld(q: seq<Seg>, g: Seg, edge: int, lo: int, x: int)
    requires q != [] && Oos(q, lo) && lo <= g.seqno <= q[0].seqno && !g.fin && g.data != [] && WithinFin(q, g)
    ensures Count(Place(q, g, edge), x) == if g.Contains(x) then 1 else if LostBehind(q, g, x) then 0 else Count(q, x)
    ensures !GoesLast(q, g)
  {
    LastStarts(q, lo);
    OosCount(q, lo, x);
    NoneLost(q, g, q[0].seqno, x);
    if g.seqno < q[0].seqno || |g.data| > |q[0].data| {
      InsertHeld(g, q, q[0].seqno, x);
    } else {
      assert g.Contains(x) ==> q[0].Contains(x);
    }
  }

  /** The place is between the first two. */
  lemma {:induction false} SecondHeld(q: seq<Seg>, g: Seg, edge: int, lo: int, x: int)
    requires |q| > 1 && Oos(q, lo) && q[0].seqno < g.seqno < q[1].seqno && !g.fin && g.data != [] && WithinFin(q, g)
    ensures Count(Place(q, g, edge), x) == if g.Contains(x) then 1 else if LostBehind(q, g, x) then 0 else Count(q, x)
    ensures !GoesLast(q, g)
  {
    LastStarts(q[1..], q[0].End());
    OosCount(q, lo, x);
    OosCount(q[1..], q[0].End(), x);
    LostFirst(q, g, lo, x);
    NoneLost(q[1..], g, q[1].seqno, x);
    InsertHeld(g, q[1..], q[1].seqno, x);
    CountCons(CutAt(q[0], g.seqno), InsertBefore(g, q[1..]), x);
  }

  /** Queueing a segment without FIN: its numbers are held once, within the window if it goes last, and any other one
      is held as before unless it lies behind `g` in a segment that `g` starts inside of. */
  lemma {:induction false} PlaceHeld(q: seq<Seg>, g: Seg, edge: int, lo: int, x: int)
    requires q != [] && Oos(q, lo) && lo <= g.seqno < edge && !g.fin && g.data != [] && WithinFin(q, g)
    ensures Count(Place(q, g, edge), x) ==
            if g.Contains(x) then (if Outside(q, g, edge, x) then 0 else 1)
            else if LostBehind(q, g, x) then 0 else Count(q, x)
    decreases |q|
  {
    if g.seqno <= q[0].seqno {
      FrontHeld(q, g, edge, lo, x);
    } else if |q| == 1 {
      LastHeld(q[0], g, edge, x);
      assert q == [q[0]];
    } else if g.seqno < q[1].seqno {
      SecondHeld(q, g, edge, lo, x);
    } else {
      PlaceHeld(q[1..], g, edge, q[0].End(), x);
      LostFirst(q, g, lo, x);
      OosCount(q[1..], q[0].End(), x);
      CountCons(q[0], Place(q[1..], g, edge), x);
    }
  }

  lemma LostOne(a: Seg, g: Seg, x: int)
    requires a.seqno < g.seqno && !a.fin
    ensures LostBehind([a], g, x) <==> g.End() <= x < a.DataEnd()
  {
    assert a in [a];
  }

  lemma LastHeld(a: Seg, g: Seg, edge: int, x: int)
    requires a.seqno < g.seqno < edge && !g.fin && g.data != [] && WithinFin([a], g)
    ensures Count(Place([a], g, edge), x) ==
            if g.Contains(x) then (if Outside([a], g, edge, x) then 0 else 1)
            else if LostBehind([a], g, x) then 0 else Count([a], x)
  {
    CountOne(a, x);
    if a.fin {
      assert a in [a] && g.DataEnd() <= a.DataEnd();
    } else {
      var c, t := CutAt(a, g.seqno), TrimToEdge(g, edge);
      assert [c, t] == [c] + [t];
      CountCons(c, [t], x);
      CountOne(t, x);
      LostOne(a, g, x);
      assert c.Contains(x) <==> a.Contains(x) && x < g.seqno;
      assert t.Contains(x) <==> g.Contains(x) && x < edge;
      assert Place([a], g, edge) == [c, t] && GoesLast([a], g);
    }
  }

  // ----- a segment with FIN -----

  /** The segment is not stored: one with the same number has as much data, or the FIN is on the queue already. */
  predicate Ditched(q: seq<Seg>, g: Seg) {
    exists h :: h in q && ((h.seqno == g.seqno && |g.data| <= |h.data|) || (h.fin && h.seqno < g.seqno))
  }

  lemma DitchedFirst(q: seq<Seg>, g: Seg)
    requires q != []
    ensures Ditched(q, g) <==> Ditched(q[1..], g)
                               || (q[0].seqno == g.seqno && |g.data| <= |q[0].data|)
                               || (q[0].fin && q[0].seqno < g.seqno)
  {
    assert q == [q[0]] + q[1..];
  }

  lemma {:induction false} NotDitched(q: seq<Seg>, g: Seg, lo: int)
    requires Oos(q, lo) && g.seqno < lo
    ensures !Ditched(q, g)
  {
    OosMeaning(q, lo);
  }

  /** The place is at or before the first segment. */
  lemma {:induction false} FinFront(q: seq<Seg>, g: Seg, edge: int, lo: int, x: int)
    requires q != [] && Oos(q, lo) && lo <= g.seqno <= q[0].seqno && g.fin
    ensures Count(Place(q, g, edge), x) ==
            if Ditched(q, g) || x < g.seqno then Count(q, x) else if g.Contains(x) then 1 else 0
    ensures !GoesLast(q, g)
  {
    LastStarts(q, lo);
    OosCount(q, q[0].seqno, x);
    DitchedFirst(q, g);
    NotDitched(q[1..], g, q[0].End());
    CountOne(g, x);
  }

  /** The place is behind the only one. */
  lemma {:induction false} FinLast(a: Seg, g: Seg, edge: int, x: int)
    requires a.seqno < g.seqno < edge && g.fin
    ensures Count(Place([a], g, edge), x) ==
            if Ditched([a], g) || x < g.seqno then Count([a], x)
            else if g.Contains(x) && !Outside([a], g, edge, x) then 1 else 0
  {
    assert a in [a];
    CountOne(a, x);
    if !a.fin {
      var c, t := CutAt(a, g.seqno), TrimToEdge(g, edge);
      assert [c, t] == [c] + [t];
      CountCons(c, [t], x);
      CountOne(t, x);
      assert c.Contains(x) <==> a.Contains(x) && x < g.seqno;
      assert t.Contains(x) <==> g.Contains(x) && x < edge;
      assert Place([a], g, edge) == [c, t] && GoesLast([a], g) && !Ditched([a], g);
    }
  }

  /** The place is between the first two. */
  lemma {:induction false} FinSecond(q: seq<Seg>, g: Seg, edge: int, lo: int, x: int)
    requires |q| > 1 && Oos(q, lo) && q[0].seqno < g.seqno < q[1].seqno && g.fin
    ensures Count(Place(q, g, edge), x) ==
            if Ditched(q, g) || x < g.seqno then Count(q, x) else if g.Contains(x) then 1 else 0
    ensures !GoesLast(q, g)
  {
    LastStarts(q[1..], q[0].End());
    OosCount(q[1..], q[1].seqno, x);
    DitchedFirst(q, g);
    NotDitched(q[1..], g, q[1].seqno);
    CountCons(CutAt(q[0], g.seqno), [g], x);
    CountOne(g, x);
  }

  /** Queueing a segment with FIN drops what is queued from its number on, unless it is not stored. */
  lemma {:induction false} PlaceFinHeld(q: seq<Seg>, g: Seg, edge: int, lo: int, x: int)
    requires q != [] && Oos(q, lo) && lo <= g.seqno < edge && g.fin
    ensures Count(Place(q, g, edge), x) ==
            if Ditched(q, g) || x < g.seqno then Count(q, x)
            else if g.Contains(x) && !Outside(q, g, edge, x) then 1 else 0
    decreases |q|
  {
    if g.seqno <= q[0].seqno {
      FinFront(q, g, edge, lo, x);
    } else if |q| == 1 {
      FinLast(q[0], g, edge, x);
      assert q == [q[0]];
    } else if g.seqno < q[1].seqno {
      FinSecond(q, g, edge, lo, x);
    } else {
      PlaceFinHeld(q[1..], g, edge, q[0].End(), x);
      DitchedFirst(q, g);
      OosCount(q[1..], q[0].End(), x);
      CountCons(q[0], Place(q[1..], g, edge), x);
    }
  }

  /** What a segment leaves on the queue, with and without FIN. */
  function QueuedAfter(q: seq<Seg>, g: Seg, edge: int, x: int): nat {
    if g.fin then
      if Ditched(q, g) || x < g.seqno then Count(q, x)
      else if g.Contains(x) && !Outside(q, g, edge, x) then 1 else 0
    else if g.Contains(x) then (if Outside(q, g, edge, x) then 0 else 1)
    else if LostBehind(q, g, x) then 0 else Count(q, x)
  }

  lemma EnqueueHeld(q: seq<Seg>, g: Seg, edge: int, lo: int, x: int)
    requires Oos(q, lo) && lo <= g.seqno < edge && g.TcpLen() > 0 && (!g.fin ==> WithinFin(q, g))
    ensures Count(Enqueue(q, g, edge), x) == QueuedAfter(q, g, edge, x)
  {
    if q == [] {
      CountOne(g, x);
    } else if g.fin {
      PlaceFinHeld(q, g, edge, lo, x);
    } else {
      PlaceHeld(q, g, edge, lo, x);
    }
  }

  /** An instance: ten bytes that arrive again from the middle of a queued segment of a hundred make the queue lose the
      forty behind them. */
  lemma LostExample(a: Seg, g: Seg, edge: int)
    requires a.seqno == 1000 && |a.data| == 100 && !a.fin && g.seqno == 1050 && |g.data| == 10 && !g.fin && edge >= 2000
    ensures forall x: int :: 1000 <= x < 1100 ==> Count([a], x) == 1
    ensures forall x: int :: Count(Enqueue([a], g, edge), x) == if 1000 <= x < 1060 then 1 else 0
  {
    forall x: int ensures Count([a], x) == if 1000 <= x < 1100 then 1 else 0 {
      CountOne(a, x);
    }
    forall x: int ensures Count(Enqueue([a], g, edge), x) == if 1000 <= x < 1060 then 1 else 0 {
      assert [a][1..] == [];
      LastHeld(a, g, edge, x);
      CountOne(a, x);
      assert a in [a];
    }
  }

  // ----- delivery -----

  /** Delivering from the queue takes exactly the numbers in sequence off it. */
  lemma {:induction false} DrainHeld(d: Delivery, c: Cfg, x: int)
    requires Oos(d.r.ooseq, d.r.rcvNxt)
    ensures var r := Drain(d, c).r;
            && d.r.rcvNxt <= r.rcvNxt && Count(d.r.ooseq, r.rcvNxt) == 0
            && (d.r.rcvNxt <= x < r.rcvNxt ==> Count(d.r.ooseq, x) > 0)
            && Count(r.ooseq, x) == if x < r.rcvNxt then 0 else Count(d.r.ooseq, x)
    decreases |d.r.ooseq|
  {
    var q := d.r.ooseq;
    OosCount(q, d.r.rcvNxt, x);
    if q != [] && q[0].seqno == d.r.rcvNxt {
      var e := Delivery(Advance(d.r, c, q[0].TcpLen()).(ooseq := q[1..]), d.data + q[0].data, d.fin || q[0].fin);
      DrainHeld(e, c, x);
    } else if q != [] {
      OosCount(q, q[0].seqno, d.r.rcvNxt);
    }
  }

  /** Segments of one stream respect its FIN. */
  lemma StreamWithin(q: seq<Seg>, g: Seg, stream: seq<Byte>, closed: bool)
    requires AllAgree(q, stream, closed) && Agrees(g, stream, closed)
    ensures WithinFin(q, g) && forall h :: h in q ==> h.End() <= |stream| + 1
  {
  }

  lemma {:induction false} CountAbove(q: seq<Seg>, top: int, x: int)
    requires forall h :: h in q ==> h.End() <= top
    ensures x >= top ==> Count(q, x) == 0
  {
    if q != [] {
      assert q[0] in q;
      CountAbove(q[1..], top, x);
    }
  }

  /** The segment at `rcv_nxt` and the queue, before and after they are fitted to each other. */
  lemma FitHeld(r: Rcv, g: Seg, stream: seq<Byte>, closed: bool, x: int)
    requires Queued(r) && AllAgree(r.ooseq, stream, closed) && Agrees(g, stream, closed)
    requires g.seqno == r.rcvNxt < r.Edge() && g.TcpLen() > 0
    ensures var (h, q) := FitInOrder(r, g);
            && h.seqno == r.rcvNxt && h.TcpLen() > 0 && Oos(q, h.End())
            && (h.Contains(x) || Count(q, x) > 0 ==> (g.Contains(x) && x < r.Edge()) || Count(r.ooseq, x) > 0)
            && ((g.Contains(x) && x < r.Edge()) || Count(r.ooseq, x) > 0 ==> h.Contains(x) || Count(q, x) > 0)
  {
    var t := TrimToEdge(g, r.Edge());
    TrimAgrees(g, r.Edge(), stream, closed);
    FitInOrderOos(r, g);
    OosCount(r.ooseq, r.rcvNxt + 1, x);
    if t.fin {
      CountAbove(r.ooseq, t.End(), x);
    } else if r.ooseq != [] {
      StreamWithin(r.ooseq, t, stream, closed);
      AbsorbCutHeld(t, r.ooseq, true, r.rcvNxt + 1, x);
    }
  }

  /** A segment at `rcv_nxt` is taken as far as the window goes, with everything on the queue that is then in sequence;
      `rcv_nxt` stops at the first number that neither holds, and the queue keeps exactly what lies above. */
  lemma AcceptHeld(r: Rcv, c: Cfg, g: Seg, stream: seq<Byte>, closed: bool, x: int)
    requires Queued(r) && AllAgree(r.ooseq, stream, closed) && Agrees(g, stream, closed)
    requires g.seqno == r.rcvNxt < r.Edge() && g.TcpLen() > 0
    ensures var r' := AcceptInOrder(r, c, g).r;
            && (r.rcvNxt <= x < r'.rcvNxt ==> (g.Contains(x) && x < r.Edge()) || Count(r.ooseq, x) > 0)
            && (x == r'.rcvNxt ==> !(g.Contains(x) && x < r.Edge()) && Count(r.ooseq, x) == 0)
            && Count(r'.ooseq, x) == (if x < r'.rcvNxt then 0 else Count(r.ooseq, x))
  {
    FitHeld(r, g, stream, closed, x);
    var (h, q) := FitInOrder(r, g);
    var d := Delivery(Advance(r, c, h.TcpLen()).(ooseq := q), h.data, h.fin);
    DrainHeld(d, c, x);
    OosCount(q, h.End(), x);
    OosCount(r.ooseq, r.rcvNxt + 1, x);
    AcceptAbove(r, g, h, q, stream, closed, x);
  }

  /** Above the fitted segment the queue is what it was. */
  lemma AcceptAbove(r: Rcv, g: Seg, h: Seg, q: seq<Seg>, stream: seq<Byte>, closed: bool, x: int)
    requires Queued(r) && AllAgree(r.ooseq, stream, closed) && Agrees(g, stream, closed)
    requires g.seqno == r.rcvNxt < r.Edge() && g.TcpLen() > 0 && (h, q) == FitInOrder(r, g)
    ensures x >= h.End() ==> Count(q, x) == Count(r.ooseq, x)
    ensures x >= h.End() && g.Contains(x) && x < r.Edge() ==> Count(q, x) > 0
  {
    FitHeld(r, g, stream, closed, x);
    OosCount(q, h.End(), x);
    OosCount(r.ooseq, r.rcvNxt + 1, x);
    if x >= h.End() && g.Contains(x) && x < r.Edge() {
      FitOverlap(r, g, h, q, stream, closed, x);
    }
  }

  /** What is cut off the right is on the queue. */
  lemma FitOverlap(r: Rcv, g: Seg, h: Seg, q: seq<Seg>, stream: seq<Byte>, closed: bool, x: int)
    requires Queued(r) && AllAgree(r.ooseq, stream, closed) && Agrees(g, stream, closed)
    requires g.seqno == r.rcvNxt < r.Edge() && g.TcpLen() > 0 && (h, q) == FitInOrder(r, g)
    requires x >= h.End() && g.Contains(x) && x < r.Edge()
    ensures Count(r.ooseq, x) > 0
  {
    var t := TrimToEdge(g, r.Edge());
    if !t.fin && r.ooseq != [] {
      TrimAgrees(g, r.Edge(), stream, closed);
      StreamWithin(r.ooseq, t, stream, closed);
      RestHeld(t, r.ooseq, r.rcvNxt + 1, x);
    }
  }

  lemma RestHeld(g: Seg, q: seq<Seg>, lo: int, x: int)
    requires Oos(q, lo) && g.seqno < lo && !g.fin && g.data != [] && WithinFin(q, g)
    ensures var (h, rest) := AbsorbCut(g, q, true);
            x >= h.End() && g.Contains(x) ==> Count(q, x) > 0
  {
    AbsorbOos(g, q, true, lo);
    var (h, rest) := Absorb(g, q, true);
    if rest != [] && h.DataEnd() > rest[0].seqno && x >= rest[0].seqno && g.Contains(x) {
      assert rest[0].Contains(x);
      SuffixCount(g, q, lo, x);
    }
  }

  lemma {:induction false} SuffixCount(g: Seg, q: seq<Seg>, lo: int, x: int)
    requires Oos(q, lo) && !g.fin
    ensures var (h, rest) := Absorb(g, q, true); Count(rest, x) <= Count(q, x)
    decreases |q|
  {
    if q != [] && g.DataEnd() >= q[0].DataEnd() {
      if q[0].fin {
        assert q[1..] == [];
      } else {
        SuffixCount(g, q[1..], q[0].End(), x);
      }
    }
  }

  // ----- a segment that arrives -----

  /** What trimming the front changes: nothing from `nxt` on. */
  lemma TrimFrontHeld(g: Seg, nxt: int, x: int)
    requires g.TcpLen() > 0
    ensures var h := TrimFront(g, nxt);
            && h.TcpLen() > 0 && h.End() == g.End() && h.fin == g.fin
            && (h.seqno == nxt <==> g.seqno <= nxt < g.End()) && (g.seqno > nxt ==> h == g)
            && (h.seqno > nxt <==> g.seqno > nxt)
            && (x >= nxt ==> (h.Contains(x) <==> g.Contains(x)))
  {
  }

  /** The receiver as a set of numbers.  A segment that holds `rcv_nxt` moves it to the first number that is held
      neither by the segment within the window nor by the queue, and takes what is passed off the queue; a segment
      further on in the window changes the queue as `QueuedAfter` says; any other changes neither. */
  lemma ReceiveHeld(r: Rcv, c: Cfg, g: Seg, mem: bool, ackMem: bool, stream: seq<Byte>, closed: bool, x: int)
    requires Queued(r) && Consistent(r, stream, closed) && Agrees(g, stream, closed) && g.TcpLen() > 0 && r.rxOpen
    ensures var r' := Receive(r, c, g, mem, ackMem).r;
            if g.seqno <= r.rcvNxt < g.End() && r.rcvWnd > 0 then
              && (r.rcvNxt <= x < r'.rcvNxt ==> (g.Contains(x) && x < r.Edge()) || Count(r.ooseq, x) > 0)
              && (x == r'.rcvNxt ==> !(g.Contains(x) && x < r.Edge()) && Count(r.ooseq, x) == 0)
              && Count(r'.ooseq, x) == (if x < r'.rcvNxt then 0 else Count(r.ooseq, x))
            else
              && r'.rcvNxt == r.rcvNxt
              && Count(r'.ooseq, x) == if mem && r.rcvNxt < g.seqno < r.Edge() then QueuedAfter(r.ooseq, g, r.Edge(), x)
                                       else Count(r.ooseq, x)
  {
    var h := TrimFront(g, r.rcvNxt);
    TrimFrontHeld(g, r.rcvNxt, x);
    TrimAgrees(g, r.rcvNxt, stream, closed);
    if r.InWindow(h.seqno) {
      if h.seqno == r.rcvNxt {
        AcceptHeld(r, c, h, stream, closed, x);
        ReceiveDelivers(r, c, g, mem, ackMem, stream, closed);
        TrimFrontHeld(g, r.rcvNxt, Receive(r, c, g, mem, ackMem).r.rcvNxt);
      } else {
        StreamWithin(r.ooseq, g, stream, closed);
        EnqueueHeld(r.ooseq, g, r.Edge(), r.rcvNxt + 1, x);
      }
    }
  }

  /** What was queued is still queued or has been passed, but for the bytes behind a segment that starts inside another
      one, and for what a segment that goes last overlaps beyond the window. */
  lemma QueuedStays(r: Rcv, c: Cfg, g: Seg, mem: bool, ackMem: bool, stream: seq<Byte>, closed: bool, x: int)
    requires Queued(r) && Consistent(r, stream, closed) && Agrees(g, stream, closed) && g.TcpLen() > 0 && r.rxOpen
    requires Count(r.ooseq, x) > 0
    ensures var r' := Receive(r, c, g, mem, ackMem).r;
            x < r'.rcvNxt || Count(r'.ooseq, x) > 0
            <==> !(mem && r.rcvNxt < g.seqno < r.Edge()
                   && if g.fin then !Ditched(r.ooseq, g) && g.seqno <= x && Outside(r.ooseq, g, r.Edge(), x)
                      else LostBehind(r.ooseq, g, x) || (g.Contains(x) && Outside(r.ooseq, g, r.Edge(), x)))
  {
    ReceiveHeld(r, c, g, mem, ackMem, stream, closed, x);
    OosCount(r.ooseq, r.rcvNxt + 1, x);
    StreamWithin(r.ooseq, g, stream, closed);
    CountAbove(r.ooseq, |stream| + 1, x);
    if g.fin {
      assert g.End() == |stream| + 1;
    } else if LostBehind(r.ooseq, g, x) {
      assert !g.Contains(x);
    }
  }
}
