/**
 The receiving half of a connection: the data part of `tcp_receive`, the
 out-of-sequence queue, the receive window and its announcement, as functions on
 values.  `TcpRecvPcb` holds the imperative code.
 */
module TcpRecv {
  import opened TcpSegment

  /** TCP_WND and the MSS of the connection. */
  datatype Cfg = Cfg(wnd: nat, mss: nat)

  /** The receiver's fields of `struct tcp_pcb`.  `rxOpen` is `state < CLOSE_WAIT`: no FIN yet. */
  datatype Rcv = Rcv(rcvNxt: int, rcvWnd: nat, annWnd: nat, annEdge: int, ooseq: seq<Seg>, rxOpen: bool) {
    /** First sequence number beyond the receive window. */
    function Edge(): int { rcvNxt + rcvWnd }

    predicate InWindow(x: int) { rcvNxt <= x <= Edge() - 1 }
  }

  /** The receiver after a segment, with what goes to the application. */
  datatype Delivery = Delivery(r: Rcv, data: seq<Byte>, fin: bool)

  // ----- the announced window -----

  /** `tcp_update_rcv_ann_wnd` */
  function UpdateAnn(r: Rcv, c: Cfg): Rcv {
    if r.Edge() >= r.annEdge + Min(c.wnd / 2, c.mss) then r.(annWnd := r.rcvWnd)
    else if r.rcvNxt > r.annEdge then r.(annWnd := 0)
    else r.(annWnd := U16(r.annEdge - r.rcvNxt))
  }

  /** Every segment sent carries `rcv_ann_wnd` and records the edge it announces. */
  function SendSegment(r: Rcv): Rcv { r.(annEdge := r.rcvNxt + r.annWnd) }

  /** `tcp_recved` */
  function Recved(r: Rcv, c: Cfg, len: nat): Rcv {
    UpdateAnn(r.(rcvWnd := if r.rcvWnd + len > c.wnd then c.wnd else r.rcvWnd + len), c)
  }

  /** Correction of the window for the FIN, which the application never confirms. */
  function FinCorrection(r: Rcv, c: Cfg): Rcv {
    if r.rcvWnd != c.wnd then r.(rcvWnd := U16(r.rcvWnd + 1)) else r
  }

  // ----- trimming -----

  /** Drop what lies before `nxt`. */
  function TrimFront(g: Seg, nxt: int): Seg {
    if g.seqno + 1 <= nxt <= g.End() - 1 && nxt - g.seqno <= |g.data|
    then g.(seqno := nxt, data := g.data[nxt - g.seqno..]) else g
  }

  /** Drop data from sequence number `x` on. */
  function CutAt(g: Seg, x: int): Seg {
    if g.seqno <= x < g.DataEnd() then g.(data := g.data[..x - g.seqno]) else g
  }

  /** Trim a segment that overruns the window: the FIN goes first. */
  function TrimToEdge(g: Seg, edge: int): Seg {
    if g.End() > edge && g.seqno <= edge <= g.DataEnd() then g.(data := g.data[..edge - g.seqno], fin := false) else g
  }

  // ----- the out-of-sequence queue -----

  /** Swallow the queued segments that `g` covers, taking over their FIN.  The loop for an
      in-sequence segment counts a FIN taken over (`withFin`), the one for `ooseq` does not. */
  function Absorb(g: Seg, q: seq<Seg>, withFin: bool): (Seg, seq<Seg>)
    decreases |q|
  {
    if q != [] && (if withFin then g.End() else g.DataEnd()) >= q[0].DataEnd()
    then Absorb(g.(fin := g.fin || q[0].fin), q[1..], withFin)
    else (g, q)
  }

  /** Absorb, then trim the right side against the next queued segment. */
  function AbsorbCut(g: Seg, q: seq<Seg>, withFin: bool): (Seg, seq<Seg>) {
    var (h, rest) := Absorb(g, q, withFin);
    (if rest != [] && h.DataEnd() > rest[0].seqno then CutAt(h, rest[0].seqno) else h, rest)
  }

  /** `tcp_oos_insert_segment` */
  function InsertBefore(g: Seg, q: seq<Seg>): seq<Seg> {
    if g.fin then [g] else
    var (h, rest) := AbsorbCut(g, q, false);
    [h] + rest
  }

  /** Where an out-of-sequence segment goes on a non-empty queue. */
  function Place(q: seq<Seg>, g: Seg, edge: int): seq<Seg>
    requires q != []
    decreases |q|
  {
    if g.seqno == q[0].seqno then
      if |g.data| > |q[0].data| then InsertBefore(g, q) else q
    else if g.seqno < q[0].seqno then InsertBefore(g, q)
    else if |q| == 1 then
      if q[0].fin then q else [CutAt(q[0], g.seqno), TrimToEdge(g, edge)]
    else if g.seqno < q[1].seqno then [CutAt(q[0], g.seqno)] + InsertBefore(g, q[1..])
    else [q[0]] + Place(q[1..], g, edge)
  }

  function Enqueue(q: seq<Seg>, g: Seg, edge: int): seq<Seg> {
    if q == [] then [g] else Place(q, g, edge)
  }

  // ----- in-sequence data -----

  /** Take one segment at `rcv_nxt`: numbers, window and its announcement. */
  function Advance(r: Rcv, c: Cfg, len: nat): Rcv {
    UpdateAnn(r.(rcvNxt := r.rcvNxt + len, rcvWnd := U16(r.rcvWnd - len)), c)
  }

  /** Deliver the queued segments that are in sequence now. */
  function Drain(d: Delivery, c: Cfg): Delivery
    decreases |d.r.ooseq|
  {
    var q := d.r.ooseq;
    if q != [] && q[0].seqno == d.r.rcvNxt then
      Drain(Delivery(Advance(d.r, c, q[0].TcpLen()).(ooseq := q[1..]), d.data + q[0].data, d.fin || q[0].fin), c)
    else d
  }

  /** The in-sequence segment trimmed against the window and the queue, and the queue left. */
  function FitInOrder(r: Rcv, g: Seg): (Seg, seq<Seg>) {
    var h := TrimToEdge(g, r.Edge());
    if r.ooseq == [] || h.fin then (h, []) else AbsorbCut(h, r.ooseq, true)
  }

  function AcceptInOrder(r: Rcv, c: Cfg, g: Seg): Delivery {
    var (h, q) := FitInOrder(r, g);
    var d := Drain(Delivery(Advance(r, c, h.TcpLen()).(ooseq := q), h.data, h.fin), c);
    d.(r := d.r.(rxOpen := r.rxOpen && !d.fin))
  }

  /** The data part of `tcp_receive`.  `mem`: the queue entry could be allocated; `ackMem`: the
      empty ACK for an unexpected segment could. */
  function Receive(r: Rcv, c: Cfg, g: Seg, mem: bool, ackMem: bool): Delivery {
    if g.TcpLen() == 0 || !r.rxOpen then Delivery(r, [], false) else
    var h := TrimFront(g, r.rcvNxt);
    if r.InWindow(h.seqno) && h.seqno == r.rcvNxt then AcceptInOrder(r, c, h)
    else
      var a := if ackMem then SendSegment(r) else r;
      Delivery(if r.InWindow(h.seqno) && mem then a.(ooseq := Enqueue(r.ooseq, h, r.Edge())) else a, [], false)
  }

  // ===== invariants =====

  /** The queue holds non-empty segments at or above `lo`, sorted and without overlap, FIN only
      on the last. */
  predicate Oos(q: seq<Seg>, lo: int) {
    q == []
    || (&& lo <= q[0].seqno && q[0].TcpLen() > 0
        && (|q| > 1 ==> !q[0].fin)
        && Oos(q[1..], q[0].End()))
  }

  /** No queued segment reaches beyond the window. */
  predicate Fits(q: seq<Seg>, edge: int) { forall g :: g in q ==> g.End() <= edge }

  /** The queue starts strictly above `rcv_nxt`. */
  predicate Queued(r: Rcv) { Oos(r.ooseq, r.rcvNxt + 1) }

  /** The edge a segment would announce now is not left of the one announced last, and not
      beyond the window. */
  predicate Announced(r: Rcv) { r.annEdge <= r.rcvNxt + r.annWnd && r.annWnd <= r.rcvWnd < 0x1_0000 }

  /** What holds while the peer sends the bytes of `stream`. */
  predicate Consistent(r: Rcv, stream: seq<Byte>, closed: bool) {
    && 0 <= r.rcvNxt
    && AllAgree(r.ooseq, stream, closed)
    && (if r.rxOpen then r.rcvNxt <= |stream| else closed && r.rcvNxt == |stream| + 1)
  }
}
