/**
 The receive window over runs: what it is at every moment, and that an edge once announced to the
 peer is kept.
 */
module TcpWindow {
  import opened TcpSegment
  import opened TcpStream
  import H = TcpHeld
  import R = TcpRecv
  import RP = TcpRecvProofs

  // ----- one call -----

  /** `tcp_recved` gives back what the application has taken, up to TCP_WND, and moves nothing else. */
  lemma RecvedOpens(r: R.Rcv, c: R.Cfg, len: nat)
    ensures var a := R.Recved(r, c, len);
            && a.rcvWnd == Min(c.wnd, r.rcvWnd + len)
            && a.rcvNxt == r.rcvNxt && a.annEdge == r.annEdge && a.ooseq == r.ooseq && a.rxOpen == r.rxOpen
  {
  }

  /** The edge that is announced next: that of the window once it has moved by the smaller of half the window and an
      MSS, and otherwise the last one, or `rcv_nxt` when that has passed it. */
  lemma AnnounceExact(r: R.Rcv, c: R.Cfg)
    requires r.annEdge - r.rcvNxt <= 0xffff
    ensures var e := r.rcvNxt + R.UpdateAnn(r, c).annWnd;
            if r.Edge() - r.annEdge >= Min(c.wnd / 2, c.mss) then e == r.Edge()
            else e == if r.rcvNxt > r.annEdge then r.rcvNxt else r.annEdge
    ensures R.UpdateAnn(r, c) == r.(annWnd := R.UpdateAnn(r, c).annWnd)
  {
  }

  // ----- conservation -----

  /** With `conf` bytes confirmed by the application, the window ends TCP_WND behind them; the FIN, which is never
      confirmed, counts as confirmed when the application has been told. */
  predicate Owns(a: App, c: R.Cfg, conf: nat) {
    conf <= |a.got| && a.r.Edge() == c.wnd + conf + if a.eof then 1 else 0
  }

  lemma FinOwns(r: R.Rcv, c: R.Cfg, conf: nat)
    requires r.rcvWnd < c.wnd < 0x1_0000 && r.Edge() == c.wnd + conf
    ensures R.FinCorrection(r, c).Edge() == c.wnd + conf + 1
  {
  }

  lemma RetryOwns(a: App, c: R.Cfg, again: bool, conf: nat, stream: seq<Byte>, closed: bool)
    requires Account(a, stream) && R.Consistent(a.r, stream, closed) && Owns(a, c, conf) && c.wnd < 0x1_0000
    ensures Owns(Retry(a, c, again), c, conf)
  {
    if a.refused.Kept? && again && a.refused.fin {
      FinOwns(a.r, c, conf);
    }
  }

  lemma NotifyOwns(b: App, c: R.Cfg, data: seq<Byte>, fin: bool, accept: bool, conf: nat)
    requires conf <= |b.got| && !b.eof && b.r.Edge() == c.wnd + conf && (fin ==> b.r.rcvWnd < c.wnd < 0x1_0000)
    ensures Owns(Notify(b, c, data, fin, accept), c, conf)
  {
    if fin {
      FinOwns(b.r, c, conf);
    }
  }

  /** A segment moves data into the window, and the edge stays where it is. */
  lemma InputOwns(a: App, c: R.Cfg, g: Seg, mem: bool, ackMem: bool, again: bool, accept: bool, conf: nat,
                  stream: seq<Byte>, closed: bool)
    requires Account(a, stream) && WindowOk(a.r, c) && R.Queued(a.r) && R.Consistent(a.r, stream, closed)
    requires Agrees(g, stream, closed) && NoOverrun(a, c, g, mem, again) && Owns(a, c, conf)
    ensures Owns(Input(a, c, g, mem, ackMem, again, accept), c, conf)
  {
    var b := Retry(a, c, again);
    RetryOwns(a, c, again, conf, stream, closed);
    RetryWindow(a, c, again);
    RetryAccount(a, c, again, stream);
    if b.refused == Nothing && g.TcpLen() > 0 && b.r.rxOpen {
      var d := R.Receive(b.r, c, g, mem, ackMem);
      RP.OverrunExact(b.r, c, g, mem, ackMem, stream, closed);
      RP.ReceiveDelivers(b.r, c, g, mem, ackMem, stream, closed);
      assert b.got == stream[..b.r.rcvNxt] && !b.eof;
      NotifyOwns(b.(r := d.r), c, d.data, d.fin, accept, conf);
    }
  }

  /** The bytes confirmed after a step. */
  function Confirmed(conf: nat, step: Step): nat { if step.TakeData? then conf + step.len else conf }

  /** The step stores nothing beyond the window, and the application confirms no more than it has taken. */
  predicate Ledgered(w: World, c: Cfg, conf: nat, step: Step) {
    && Enabled(w, c, step)
    && (step.DeliverSegment? ==> NoOverrun(w.app, c.rcv, step.g, step.mem, step.again))
    && (step.TakeData? ==> conf + step.len <= |w.app.got|)
  }

  /** A run without overrun in which the application confirms no more than it has taken: `conf` bytes before, `conf'`
      after it. */
  predicate LedgerRun(w: World, c: Cfg, conf: nat, steps: seq<Step>, w': World, conf': nat)
    decreases |steps|
  {
    if steps == [] then w == w' && conf == conf'
    else
      Ledgered(w, c, conf, steps[0])
      && LedgerRun(Next(w, c, steps[0]), c, Confirmed(conf, steps[0]), steps[1..], w', conf')
  }

  lemma OwnsStep(w: World, c: Cfg, conf: nat, step: Step)
    requires Ledgered(w, c, conf, step) && SenderOk(w, c) && ReceiverOk(w) && WindowOk(w.app.r, c.rcv)
    requires Owns(w.app, c.rcv, conf)
    ensures Owns(Next(w, c, step).app, c.rcv, Confirmed(conf, step))
  {
    match step
    case DeliverSegment(g, mem, ackMem, again, accept) =>
      InputOwns(w.app, c.rcv, g, mem, ackMem, again, accept, conf, w.stream, w.snd.finQueued);
    case RetryRefused(accept) => RetryOwns(w.app, c.rcv, accept, conf, w.stream, w.snd.finQueued);
    case TakeData(len) => TakeOwns(w, c, conf, len);
    case _ =>
  }

  lemma TakeOwns(w: World, c: Cfg, conf: nat, len: nat)
    requires Enabled(w, c, TakeData(len)) && ReceiverOk(w) && Owns(w.app, c.rcv, conf) && conf + len <= |w.app.got|
    ensures Owns(Next(w, c, TakeData(len)).app, c.rcv, conf + len)
  {
    RecvedOpens(w.app.r, c.rcv, len);
    TakenPassed(w);
    assert w.app.r.rcvWnd + len <= c.rcv.wnd;
  }

  /** What the application has lies below `rcv_nxt`, and so does the FIN it has been told of. */
  lemma TakenPassed(w: World)
    requires ReceiverOk(w)
    ensures |w.app.got| + |RefusedData(w.app)| + (if w.app.r.rxOpen then 0 else 1) == w.app.r.rcvNxt
    ensures w.app.eof ==> !w.app.r.rxOpen
  {
  }

  /** One step of such a run keeps all of it. */
  lemma LedgerStep(w: World, c: Cfg, conf: nat, step: Step)
    requires Ledgered(w, c, conf, step) && SenderOk(w, c) && ReceiverOk(w) && WindowOk(w.app.r, c.rcv)
    requires c.snd.sndBuf <= 0xffff && Owns(w.app, c.rcv, conf)
    ensures var v := Next(w, c, step);
            && SenderOk(v, c) && ReceiverOk(v) && WindowOk(v.app.r, c.rcv)
            && Owns(v.app, c.rcv, Confirmed(conf, step))
  {
    StepOk(w, c, step);
    WindowStep(w, c, step);
    OwnsStep(w, c, conf, step);
  }

  lemma {:induction false} OwnsRun(w: World, c: Cfg, conf: nat, steps: seq<Step>, w': World, conf': nat)
    requires LedgerRun(w, c, conf, steps, w', conf') && SenderOk(w, c) && ReceiverOk(w) && WindowOk(w.app.r, c.rcv)
    requires c.snd.sndBuf <= 0xffff && Owns(w.app, c.rcv, conf)
    ensures ReceiverOk(w') && Owns(w'.app, c.rcv, conf')
    decreases |steps|
  {
    if steps != [] {
      LedgerStep(w, c, conf, steps[0]);
      OwnsRun(Next(w, c, steps[0]), c, Confirmed(conf, steps[0]), steps[1..], w', conf');
    }
  }

  /** In every such run from the start the window, what the application has not confirmed yet, what it has refused, and
      a FIN it has not been told of, make up TCP_WND: nothing of the window is lost, and none of it given twice. */
  lemma WindowConserved(c: Cfg, wndMax: nat, steps: seq<Step>, w: World, conf: nat)
    requires c.rcv.wnd < 0x1_0000 && c.snd.sndBuf <= 0xffff && LedgerRun(Start(c, wndMax), c, 0, steps, w, conf)
    ensures conf <= |w.app.got|
    ensures w.app.r.rcvWnd + (|w.app.got| - conf) + |RefusedData(w.app)|
            + (if w.app.r.rxOpen || w.app.eof then 0 else 1) == c.rcv.wnd
  {
    StartOk(c, wndMax);
    OwnsRun(Start(c, wndMax), c, 0, steps, w, conf);
    TakenPassed(w);
  }

  // ----- what the peer has been told -----

  /** The window edges that go out in a step: with the ACK that the application or a timer causes, and with the one for
      a segment that does not hold `rcv_nxt`. */
  function Told(w: World, c: Cfg, step: Step): set<int> {
    match step
    case SendAck => {w.app.r.rcvNxt + w.app.r.annWnd}
    case DeliverSegment(g, mem, ackMem, again, accept) =>
      var b := Retry(w.app, c.rcv, again);
      if b.refused == Nothing && g.TcpLen() > 0 && b.r.rxOpen && ackMem
         && !(g.seqno <= b.r.rcvNxt < g.End() && b.r.rcvWnd > 0)
      then {b.r.rcvNxt + b.r.annWnd} else {}
    case _ => {}
  }

  function ToldIn(w: World, c: Cfg, steps: seq<Step>, w': World): set<int>
    requires WindowRun(w, c, steps, w')
    decreases |steps|
  {
    if steps == [] then {} else Told(w, c, steps[0]) + ToldIn(Next(w, c, steps[0]), c, steps[1..], w')
  }

  lemma ToldKept(w: World, c: Cfg, step: Step, e: int)
    requires Enabled(w, c, step) && ReceiverOk(w) && WindowOk(w.app.r, c.rcv) && e in Told(w, c, step)
    ensures e <= Next(w, c, step).app.r.annEdge
  {
    if step.DeliverSegment? {
      var b := Retry(w.app, c.rcv, step.again);
      H.TrimFrontHeld(step.g, b.r.rcvNxt, 0);
    }
  }

  /** In every run without overrun: whatever edge the peer has been told, the window reaches it at the end of the run,
      and so does what would be announced then. */
  lemma {:induction false} ToldStays(w: World, c: Cfg, steps: seq<Step>, w': World, e: int)
    requires WindowRun(w, c, steps, w') && SenderOk(w, c) && ReceiverOk(w) && WindowOk(w.app.r, c.rcv)
    requires c.snd.sndBuf <= 0xffff && e in ToldIn(w, c, steps, w')
    ensures e <= w'.app.r.rcvNxt + w'.app.r.annWnd <= w'.app.r.Edge()
    decreases |steps|
  {
    var v := Next(w, c, steps[0]);
    StepOk(w, c, steps[0]);
    WindowStep(w, c, steps[0]);
    AnnouncedEdge(v, c, steps[1..], w');
    if e in Told(w, c, steps[0]) {
      ToldKept(w, c, steps[0], e);
    } else {
      ToldStays(v, c, steps[1..], w', e);
    }
  }
}
