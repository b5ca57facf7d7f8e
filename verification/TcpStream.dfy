/**
 One direction of a connection end to end: a sending application and its lwIP
 sender, a network that loses, duplicates and reorders, an lwIP receiver and an
 application that may refuse data.  Runs are unbounded sequences of steps.
 */
module TcpStream {
  import opened TcpSegment
  import S = TcpSend
  import SP = TcpSendProofs
  import R = TcpRecv
  import RP = TcpRecvProofs
  import SeqNum

  // ----- delivery to the application -----

  /** `refused_data`: in-sequence data the application did not take, with PBUF_FLAG_TCP_FIN. */
  datatype Refused = Nothing | Kept(data: seq<Byte>, fin: bool)

  /** The receiver with its application: `got` is what the application has taken, `eof` whether
      it has been told of the end. */
  datatype App = App(r: R.Rcv, refused: Refused, got: seq<Byte>, eof: bool)

  /** `tcp_process_refused_data`: offer the refused data again. */
  function Retry(a: App, c: R.Cfg, accept: bool): App {
    match a.refused
    case Nothing => a
    case Kept(data, fin) =>
      if !accept then a
      else if fin then App(R.FinCorrection(a.r, c), Nothing, a.got + data, true)
      else a.(refused := Nothing, got := a.got + data)
  }

  /** `tcp_input` for a segment of the connection, from the refused data to the callbacks. */
  function Input(a: App, c: R.Cfg, g: Seg, mem: bool, ackMem: bool, again: bool, accept: bool): App {
    var b := Retry(a, c, again);
    if b.refused != Nothing && g.TcpLen() > 0 then b else
    var d := R.Receive(b.r, c, g, mem, ackMem);
    Notify(b.(r := d.r), c, d.data, d.fin, accept)
  }

  /** The receive and close callbacks at the end of `tcp_input`. */
  function Notify(b: App, c: R.Cfg, data: seq<Byte>, fin: bool, accept: bool): App {
    var e := if data == [] then b
             else if accept then b.(got := b.got + data)
             else b.(refused := Kept(data, false));
    if !fin then e
    else match e.refused
      case Kept(kept, _) => e.(refused := Kept(kept, true))
      case Nothing => e.(r := R.FinCorrection(e.r, c), eof := true)
  }

  function RefusedData(a: App): seq<Byte> {
    match a.refused
    case Nothing => []
    case Kept(data, _) => data
  }

  /** The application has taken, or refused for now, exactly the stream up to `rcv_nxt`. */
  predicate Account(a: App, stream: seq<Byte>) {
    && 0 <= a.r.rcvNxt
    && a.got + RefusedData(a) == stream[..Min(a.r.rcvNxt, |stream|)]
    && (a.eof <==> !a.r.rxOpen && a.refused == Nothing)
    && (a.refused.Kept? ==> (a.refused.fin <==> !a.r.rxOpen))
  }

  lemma RetryAccount(a: App, c: R.Cfg, accept: bool, stream: seq<Byte>)
    requires Account(a, stream)
    ensures Account(Retry(a, c, accept), stream)
    ensures a.got <= Retry(a, c, accept).got
    ensures Retry(a, c, accept).r in {a.r, R.FinCorrection(a.r, c)}
  {
    var b := Retry(a, c, accept);
    assert a.got + RefusedData(a) == b.got + RefusedData(b);
  }

  /** Data comes to the application in order and once, also if it was refused at first. */
  lemma InputAccount(a: App, c: R.Cfg, g: Seg, mem: bool, ackMem: bool, again: bool, accept: bool,
                     stream: seq<Byte>, closed: bool)
    requires Account(a, stream) && R.Queued(a.r) && R.Consistent(a.r, stream, closed) && Agrees(g, stream, closed)
    ensures var a' := Input(a, c, g, mem, ackMem, again, accept);
            && Account(a', stream) && R.Queued(a'.r) && R.Consistent(a'.r, stream, closed)
            && a.got <= a'.got && a.r.rcvNxt <= a'.r.rcvNxt
  {
    var b := Retry(a, c, again);
    RetryAccount(a, c, again, stream);
    if !(b.refused != Nothing && g.TcpLen() > 0) {
      ReceiveAccount(b, c, g, mem, ackMem, accept, stream, closed);
    }
  }

  /** While the application refuses what it refused before, data that arrives is not looked at.  Otherwise the segment
      is received; with an application that accepts, nothing stays refused, with one that does not, it gets nothing
      new. */
  lemma InputTakes(a: App, c: R.Cfg, g: Seg, mem: bool, ackMem: bool, again: bool, accept: bool, stream: seq<Byte>)
    requires Account(a, stream)
    ensures var a', kept := Input(a, c, g, mem, ackMem, again, accept), a.refused.Kept? && !again;
            var r := R.Receive(a.r, c, g, mem, ackMem).r;
            && (kept ==> a'.refused.Kept? && a'.got == a.got && (g.TcpLen() > 0 ==> a' == a))
            && (!kept ==> a'.r.rcvNxt == r.rcvNxt && a'.r.ooseq == r.ooseq && a'.r.rxOpen == r.rxOpen)
            && (!kept && accept ==> a'.refused == Nothing)
            && (!kept && !accept ==> a'.got == a.got + RefusedData(a))
  {
    var b := Retry(a, c, again);
    assert a.got + [] == a.got;
    assert b.r == a.r || !b.r.rxOpen;
  }

  lemma ReceiveAccount(b: App, c: R.Cfg, g: Seg, mem: bool, ackMem: bool, accept: bool, stream: seq<Byte>, closed: bool)
    requires Account(b, stream) && R.Queued(b.r) && R.Consistent(b.r, stream, closed) && Agrees(g, stream, closed)
    requires b.refused == Nothing || g.TcpLen() == 0
    ensures var d := R.Receive(b.r, c, g, mem, ackMem);
            var e := Notify(b.(r := d.r), c, d.data, d.fin, accept);
            && Account(e, stream) && R.Queued(e.r) && R.Consistent(e.r, stream, closed)
            && b.got <= e.got && b.r.rcvNxt <= e.r.rcvNxt
  {
    var d := R.Receive(b.r, c, g, mem, ackMem);
    RP.ReceiveQueued(b.r, c, g, mem, ackMem);
    RP.ReceiveDelivers(b.r, c, g, mem, ackMem, stream, closed);
    var n, m := Min(b.r.rcvNxt, |stream|), Min(d.r.rcvNxt, |stream|);
    assert stream[..n] + stream[n..m] == stream[..m];
    NotifyAccount(b, c, d, accept, stream);
  }

  lemma NotifyAccount(b: App, c: R.Cfg, d: R.Delivery, accept: bool, stream: seq<Byte>)
    requires Account(b, stream) && 0 <= d.r.rcvNxt
    requires b.got + RefusedData(b) + d.data == stream[..Min(d.r.rcvNxt, |stream|)]
    requires d.fin <==> b.r.rxOpen && !d.r.rxOpen
    requires !b.r.rxOpen ==> !d.r.rxOpen && d.data == []
    requires b.refused != Nothing ==> d.data == [] && !d.fin
    ensures var e := Notify(b.(r := d.r), c, d.data, d.fin, accept);
            Account(e, stream) && b.got <= e.got && e.r in {d.r, R.FinCorrection(d.r, c)}
  {
    var e := Notify(b.(r := d.r), c, d.data, d.fin, accept);
    assert e.got + RefusedData(e) == b.got + RefusedData(b) + d.data;
  }

  // ===== runs =====

  /** Compile-time options of both ends. */
  datatype Cfg = Cfg(snd: S.Cfg, rcv: R.Cfg)

  /** `stream` is everything `tcp_write` has accepted, `net` every segment and `acks` every
      acknowledgement number ever sent: delivering any of them at any time, any number of times
      or never, is what the network may do. */
  datatype World = World(snd: S.Snd, stream: seq<Byte>, net: set<Seg>, acks: set<int>, app: App)

  datatype Step =
    | Write(data: seq<Byte>, copy: bool, nodelay: bool, more: bool)
    | Close
    | Output(k: S.Control)
    | Timeout(k: S.Control)
    | ProbeWindow
    | LargerWindow(wnd: nat)
    | DeliverAck(ackno: int, fast: bool)
    | DeliverSegment(g: Seg, mem: bool, ackMem: bool, again: bool, accept: bool)
    | SendAck
    | RetryRefused(accept: bool)
    | TakeData(len: nat)
    | DropOoseq(keep: nat)

  /** What the callers guarantee.  Writing and closing need the last unsent segment to end at `snd_lbb`, which
      `WriteExact` and `FinExact` show to be necessary.  With TCP_SND_BUF below 0xffff every acknowledgement is
      admitted; otherwise one that `AckInv` shows to lose the send space is not. */
  predicate Enabled(w: World, c: Cfg, step: Step) {
    match step
    case Write(data, _, _, _) =>
      !w.snd.finQueued && |data| <= w.snd.sndBuf && S.CanSegment(w.snd, c.snd, |data|)
      && (S.TailOk(w.snd) || S.TailBytes(w.snd, c.snd, |data|) == 0)
    case Close => !w.snd.finQueued && (w.snd.unsent == [] ==> w.snd.sndBuf > 0) && S.TailOk(w.snd)
    case LargerWindow(wnd) => w.snd.wndMax <= wnd
    case DeliverAck(ackno, _) => ackno in w.acks && SP.SpaceFits(w.snd, c.snd, ackno)
    case DeliverSegment(g, _, _, _, _) => g in w.net
    case TakeData(len) => w.app.r.rcvWnd + len <= 0xffff
    case DropOoseq(keep) => keep <= |w.app.r.ooseq|
    case _ => true
  }

  function Transmit(w: World, segs: seq<Seg>): set<Seg> { w.net + set g | g in segs }

  function Next(w: World, c: Cfg, step: Step): World
    requires Enabled(w, c, step)
  {
    match step
    case Write(data, copy, nodelay, more) =>
      w.(snd := S.Written(w.snd, c.snd, data, copy, nodelay, more), stream := w.stream + data)
    case Close => w.(snd := S.FinSent(w.snd))
    case Output(k) => w.(snd := S.Output(w.snd, c.snd, k), net := Transmit(w, S.Sent(w.snd, c.snd, k)))
    case Timeout(k) =>
      var s := S.RexmitRto(w.snd);
      w.(snd := S.Output(s, c.snd, k), net := Transmit(w, S.Sent(s, c.snd, k)))
    case ProbeWindow => w.(net := Transmit(w, S.Probe(w.snd)))
    case LargerWindow(wnd) => w.(snd := w.snd.(wndMax := wnd))
    case DeliverAck(ackno, fast) => w.(snd := S.Ack(w.snd, ackno, fast))
    case DeliverSegment(g, mem, ackMem, again, accept) =>
      var a := Input(w.app, c.rcv, g, mem, ackMem, again, accept);
      w.(app := a, acks := w.acks + {a.r.rcvNxt})
    case SendAck => w.(app := w.app.(r := R.SendSegment(w.app.r)), acks := w.acks + {w.app.r.rcvNxt})
    case RetryRefused(accept) => w.(app := Retry(w.app, c.rcv, accept))
    case TakeData(len) => w.(app := w.app.(r := R.Recved(w.app.r, c.rcv, len)))
    case DropOoseq(keep) => w.(app := w.app.(r := w.app.r.(ooseq := w.app.r.ooseq[..keep])))
  }

  predicate Run(w: World, c: Cfg, steps: seq<Step>, w': World)
    decreases |steps|
  {
    if steps == [] then w == w'
    else Enabled(w, c, steps[0]) && Run(Next(w, c, steps[0]), c, steps[1..], w')
  }

  function Start(c: Cfg, wndMax: nat): World {
    World(S.Initial(c.snd, wndMax), [], {}, {}, App(R.Rcv(0, c.rcv.wnd, c.rcv.wnd, 0, [], true), Nothing, [], false))
  }

  // ----- the invariant -----

  ghost predicate SenderOk(w: World, c: Cfg) {
    && S.Inv(w.snd, c.snd, w.stream)
    && (forall g :: g in w.net ==> Agrees(g, w.stream, w.snd.finQueued))
    && w.snd.lastack <= w.app.r.rcvNxt
    && (forall k :: k in w.acks ==> k <= w.app.r.rcvNxt)
  }

  predicate ReceiverOk(w: World) {
    && R.Queued(w.app.r) && R.Consistent(w.app.r, w.stream, w.snd.finQueued) && Account(w.app, w.stream)
  }

  lemma {:induction false} OosPrefix(q: seq<Seg>, lo: int, k: nat)
    requires R.Oos(q, lo) && k <= |q|
    ensures R.Oos(q[..k], lo)
  {
    if k > 0 {
      assert q[..k][1..] == q[1..][..k - 1];
      OosPrefix(q[1..], q[0].End(), k - 1);
    }
  }

  lemma WriteStep(w: World, c: Cfg, step: Step)
    requires step.Write? && Enabled(w, c, step) && SenderOk(w, c) && ReceiverOk(w)
    ensures SenderOk(Next(w, c, step), c) && ReceiverOk(Next(w, c, step))
  {
    SP.WriteExact(w.snd, c.snd, w.stream, step.data, step.copy, step.nodelay, step.more);
    forall g | g in w.net ensures Agrees(g, w.stream + step.data, false) {
      AgreesGrows(g, w.stream, step.data);
    }
    AllAgreeGrows(w.app.r.ooseq, w.stream, step.data);
    var n := Min(w.app.r.rcvNxt, |w.stream|);
    assert (w.stream + step.data)[..n] == w.stream[..n];
  }

  lemma AgreesClosed(q: seq<Seg>, net: set<Seg>, stream: seq<Byte>)
    requires AllAgree(q, stream, false) && forall g :: g in net ==> Agrees(g, stream, false)
    ensures AllAgree(q, stream, true) && forall g :: g in net ==> Agrees(g, stream, true)
  {
  }

  lemma CloseStep(w: World, c: Cfg)
    requires Enabled(w, c, Close) && SenderOk(w, c) && ReceiverOk(w)
    ensures SenderOk(Next(w, c, Close), c) && ReceiverOk(Next(w, c, Close))
  {
    SP.FinExact(w.snd, c.snd, w.stream);
    AgreesClosed(w.app.r.ooseq, w.net, w.stream);
  }

  lemma AckStep(w: World, c: Cfg, step: Step)
    requires step.DeliverAck? && Enabled(w, c, step) && SenderOk(w, c) && ReceiverOk(w) && c.snd.sndBuf <= 0xffff
    ensures SenderOk(Next(w, c, step), c) && ReceiverOk(Next(w, c, step))
  {
    SP.AckInv(w.snd, c.snd, w.stream, step.ackno, step.fast);
  }

  lemma SenderStep(w: World, c: Cfg, step: Step)
    requires step.Output? || step.Timeout? || step.ProbeWindow? || step.LargerWindow?
    requires Enabled(w, c, step) && SenderOk(w, c) && ReceiverOk(w)
    ensures SenderOk(Next(w, c, step), c) && ReceiverOk(Next(w, c, step))
  {
    match step
    case Output(k) =>
      SP.OutputInv(w.snd, c.snd, k, w.stream);
      OutputKeeps(w.snd, c.snd, k);
    case Timeout(k) =>
      SP.RtoInv(w.snd, c.snd, w.stream);
      SP.OutputInv(S.RexmitRto(w.snd), c.snd, k, w.stream);
      OutputKeeps(S.RexmitRto(w.snd), c.snd, k);
    case ProbeWindow => SP.ProbeAgrees(w.snd, c.snd, w.stream);
    case LargerWindow(wnd) => SP.WindowGrows(w.snd, c.snd, w.stream, wnd);
  }

  lemma {:induction false} OutputKeeps(s: S.Snd, c: S.Cfg, k: S.Control)
    ensures S.Output(s, c, k).lastack == s.lastack && S.Output(s, c, k).finQueued == s.finQueued
    decreases |s.unsent|
  {
    if S.MaySend(s, c, k) {
      OutputKeeps(S.OutputOne(s), c, k);
    }
  }

  lemma ArrivalStep(w: World, c: Cfg, step: Step)
    requires step.DeliverSegment? && Enabled(w, c, step) && SenderOk(w, c) && ReceiverOk(w)
    ensures SenderOk(Next(w, c, step), c) && ReceiverOk(Next(w, c, step))
    ensures w.app.got <= Next(w, c, step).app.got
  {
    InputAccount(w.app, c.rcv, step.g, step.mem, step.ackMem, step.again, step.accept, w.stream, w.snd.finQueued);
  }

  lemma ReceiverStep(w: World, c: Cfg, step: Step)
    requires step.SendAck? || step.RetryRefused? || step.TakeData? || step.DropOoseq?
    requires Enabled(w, c, step) && SenderOk(w, c) && ReceiverOk(w)
    ensures SenderOk(Next(w, c, step), c) && ReceiverOk(Next(w, c, step))
    ensures w.app.got <= Next(w, c, step).app.got
  {
    match step
    case RetryRefused(accept) => RetryAccount(w.app, c.rcv, accept, w.stream);
    case DropOoseq(keep) => OosPrefix(w.app.r.ooseq, w.app.r.rcvNxt + 1, keep);
    case SendAck =>
    case TakeData(len) =>
  }

  /** Every step keeps the invariant, and what the application has taken only grows. */
  lemma StepOk(w: World, c: Cfg, step: Step)
    requires Enabled(w, c, step) && SenderOk(w, c) && ReceiverOk(w) && c.snd.sndBuf <= 0xffff
    ensures SenderOk(Next(w, c, step), c) && ReceiverOk(Next(w, c, step))
    ensures w.app.got <= Next(w, c, step).app.got
  {
    if step.Write? {
      WriteStep(w, c, step);
    } else if step.Close? {
      CloseStep(w, c);
    } else if step.DeliverAck? {
      AckStep(w, c, step);
    } else if step.DeliverSegment? {
      ArrivalStep(w, c, step);
    } else if step.SendAck? || step.RetryRefused? || step.TakeData? || step.DropOoseq? {
      ReceiverStep(w, c, step);
    } else {
      SenderStep(w, c, step);
    }
  }

  lemma {:induction false} RunOk(w: World, c: Cfg, steps: seq<Step>, w': World)
    requires Run(w, c, steps, w') && SenderOk(w, c) && ReceiverOk(w) && c.snd.sndBuf <= 0xffff
    ensures SenderOk(w', c) && ReceiverOk(w') && w.app.got <= w'.app.got
    decreases |steps|
  {
    if steps != [] {
      StepOk(w, c, steps[0]);
      RunOk(Next(w, c, steps[0]), c, steps[1..], w');
    }
  }

  /** End-to-end safety, in every run from the start of the connection:
      - what the application has taken, with what it refused so far, is a prefix of what
        `tcp_write` accepted: every byte in order and exactly once;
      - every number from `lastack` up to the end of what was accepted, the FIN included, is held by exactly one
        segment of the sender, and none is held twice;
      - the end of the stream is reported only after all of it has been taken. */
  lemma EndToEnd(c: Cfg, wndMax: nat, steps: seq<Step>, w: World)
    requires c.snd.sndBuf <= 0xffff && Run(Start(c, wndMax), c, steps, w)
    ensures w.app.got + RefusedData(w.app) <= w.stream
    ensures w.snd.lastack <= w.app.r.rcvNxt
    ensures forall x: int :: w.snd.lastack <= x < S.Top(w.snd, w.stream) ==>
            S.Holders(w.snd.unsent, w.snd.unacked, x) == 1
    ensures forall x: int :: S.Holders(w.snd.unsent, w.snd.unacked, x) <= 1
    ensures w.app.eof ==> w.snd.finQueued && w.app.got == w.stream
    ensures w.snd.sndBuf + (w.snd.sndLbb - w.snd.lastack) == c.snd.sndBuf
    ensures w.snd.queuelen >= Pbufs(w.snd.unsent) + Pbufs(w.snd.unacked)
  {
    S.InitialInv(c.snd, wndMax);
    RunOk(Start(c, wndMax), c, steps, w);
    DeliveredPrefix(w, c);
  }

  /** What the invariant says of the application. */
  lemma DeliveredPrefix(w: World, c: Cfg)
    requires SenderOk(w, c) && ReceiverOk(w)
    ensures w.app.got + RefusedData(w.app) <= w.stream
    ensures w.app.eof ==> w.snd.finQueued && w.app.got == w.stream
  {
    if w.app.eof {
      assert w.stream[..|w.stream|] == w.stream;
    }
  }

  // ----- runs without a stuck fast retransmission -----

  /** Steps whose condition is that no fast retransmission waits on `unsent` behind segments on `unacked`: for writes
      and closes the last unsent segment then needs no further one. */
  predicate Calm(w: World, c: Cfg, step: Step) {
    match step
    case Write(data, _, _, _) =>
      !w.snd.finQueued && |data| <= w.snd.sndBuf && S.CanSegment(w.snd, c.snd, |data|) && S.Separated(w.snd)
    case Close => !w.snd.finQueued && (w.snd.unsent == [] ==> w.snd.sndBuf > 0) && S.Separated(w.snd)
    case Timeout(_) => S.Separated(w.snd)
    case _ => Enabled(w, c, step)
  }

  lemma CalmEnabled(w: World, c: Cfg, step: Step)
    requires SenderOk(w, c) && S.Ordered(w.snd) && Calm(w, c, step)
    ensures Enabled(w, c, step)
  {
    if step.Write? || step.Close? {
      SP.TailFromSeparated(w.snd, c.snd, w.stream);
    }
  }

  /** A timeout puts segments in front of `unsent`, which is sorted afterwards only if nothing waits there. */
  predicate Orderly(w: World, step: Step) { step.Timeout? ==> S.Separated(w.snd) }

  lemma OrderlyStep(w: World, c: Cfg, step: Step)
    requires SenderOk(w, c) && S.Ordered(w.snd) && Enabled(w, c, step) && Orderly(w, step)
    ensures S.Ordered(Next(w, c, step).snd)
  {
    match step
    case Write(data, copy, nodelay, more) => SP.WriteOrdered(w.snd, c.snd, w.stream, data, copy, nodelay, more);
    case Close => SP.FinOrdered(w.snd, c.snd, w.stream);
    case Output(k) => SP.OutputOrdered(w.snd, c.snd, k, w.stream);
    case Timeout(k) =>
      SP.RtoInv(w.snd, c.snd, w.stream);
      SP.RtoOrderedExact(w.snd);
      SP.OutputOrdered(S.RexmitRto(w.snd), c.snd, k, w.stream);
    case DeliverAck(ackno, fast) => SP.AckOrdered(w.snd, c.snd, w.stream, ackno, fast);
    case _ =>
  }

  predicate OrderlyRun(w: World, c: Cfg, steps: seq<Step>, w': World)
    decreases |steps|
  {
    if steps == [] then w == w'
    else Enabled(w, c, steps[0]) && Orderly(w, steps[0]) && OrderlyRun(Next(w, c, steps[0]), c, steps[1..], w')
  }

  /** In every run in which no timeout comes while a fast retransmission waits, both queues stay sorted and nothing
      acknowledged stays queued; and the condition for the next write or close holds whenever no retransmission
      is stuck. */
  lemma {:induction false} QueuesSorted(w: World, c: Cfg, steps: seq<Step>, w': World)
    requires OrderlyRun(w, c, steps, w') && SenderOk(w, c) && ReceiverOk(w) && S.Ordered(w.snd)
    requires c.snd.sndBuf <= 0xffff
    ensures S.Ordered(w'.snd) && SenderOk(w', c)
    ensures forall step :: Calm(w', c, step) ==> Enabled(w', c, step)
    decreases |steps|
  {
    if steps == [] {
      forall step | Calm(w', c, step) ensures Enabled(w', c, step) {
        CalmEnabled(w', c, step);
      }
    } else {
      StepOk(w, c, steps[0]);
      OrderlyStep(w, c, steps[0]);
      QueuesSorted(Next(w, c, steps[0]), c, steps[1..], w');
    }
  }

  /** The numbers that the sender compares with each other, for two queued segments and the acknowledgements that are
      not older than `lastack`. */
  function Compared(w: World, g: Seg, h: Seg): set<int> {
    var s := w.snd;
    {g.seqno, g.End(), h.seqno, h.End(), s.lastack, s.lastack + 1, s.sndNxt, s.sndLbb}
    + (set a | a in w.acks && s.lastack <= a)
  }

  lemma QueuedNear(w: World, c: Cfg, g: Seg)
    requires SenderOk(w, c) && S.Ordered(w.snd) && c.snd.sndBuf <= 0xffff && c.snd.mss <= 0xffff
    requires g in w.snd.unsent || g in w.snd.unacked
    ensures w.snd.lastack - 0x1_0000 <= g.seqno <= g.End() <= w.snd.lastack + 0x1_0000
  {
    assert w.snd.lastack < g.End() <= S.Top(w.snd, w.stream) && |g.data| <= c.snd.mss;
  }

  lemma ComparedNear(w: World, c: Cfg, g: Seg, h: Seg, x: int)
    requires SenderOk(w, c) && ReceiverOk(w) && S.Ordered(w.snd) && c.snd.sndBuf <= 0xffff && c.snd.mss <= 0xffff
    requires (g in w.snd.unsent || g in w.snd.unacked) && (h in w.snd.unsent || h in w.snd.unacked)
    requires x in Compared(w, g, h)
    ensures w.snd.lastack - 0x1_0000 <= x <= w.snd.lastack + 0x1_0000
  {
    QueuedNear(w, c, g);
    QueuedNear(w, c, h);
    assert forall a :: a in w.acks ==> a <= w.app.r.rcvNxt <= S.Top(w.snd, w.stream);
  }

  /** In such runs they lie within half the sequence space of each other, so the 32-bit comparisons of the code
      decide as the unwrapped numbers do. */
  lemma WithinHalf(w: World, c: Cfg, g: Seg, h: Seg, x: int, y: int)
    requires SenderOk(w, c) && ReceiverOk(w) && S.Ordered(w.snd) && c.snd.sndBuf <= 0xffff && c.snd.mss <= 0xffff
    requires (g in w.snd.unsent || g in w.snd.unacked) && (h in w.snd.unsent || h in w.snd.unacked)
    requires x in Compared(w, g, h) && y in Compared(w, g, h)
    ensures SeqNum.SeqLt(SeqNum.U32(x), SeqNum.U32(y)) <==> x < y
    ensures SeqNum.SeqLeq(SeqNum.U32(x), SeqNum.U32(y)) <==> x <= y
  {
    ComparedNear(w, c, g, h, x);
    ComparedNear(w, c, g, h, y);
    SeqNum.CompareUnwrapped(x, y);
  }

  /** A segment the receiver looks at: on `ooseq`, or arriving while its sender still waits for part of it. */
  predicate Seen(w: World, g: Seg) {
    g in w.app.r.ooseq || (g in w.net && |g.data| <= 0xffff && w.snd.lastack < g.End())
  }

  /** The numbers that the receiver compares with each other, for an arriving and a queued segment. */
  function Received(r: R.Rcv, g: Seg, h: Seg): set<int> {
    {g.seqno, g.End(), h.seqno, h.End(), r.rcvNxt, r.Edge()}
  }

  lemma {:induction false} OosAbove(q: seq<Seg>, lo: int, g: Seg)
    requires R.Oos(q, lo) && g in q
    ensures lo <= g.seqno <= g.End()
  {
    if g != q[0] {
      OosAbove(q[1..], q[0].End(), g);
    }
  }

  /** Such a segment lies within 16 bits of what has been acknowledged. */
  lemma SeenNear(w: World, c: Cfg, g: Seg)
    requires SenderOk(w, c) && ReceiverOk(w) && c.snd.sndBuf <= 0xffff && Seen(w, g)
    ensures w.snd.lastack - 0x1_0000 <= g.seqno <= g.End() <= w.snd.lastack + 0x1_0000
  {
    assert Agrees(g, w.stream, w.snd.finQueued);
    if g in w.app.r.ooseq {
      OosAbove(w.app.r.ooseq, w.app.r.rcvNxt + 1, g);
    }
  }

  /** The same for the receiver. */
  lemma WithinHalfReceiver(w: World, c: Cfg, g: Seg, h: Seg, x: int, y: int)
    requires SenderOk(w, c) && ReceiverOk(w) && c.snd.sndBuf <= 0xffff && w.app.r.rcvWnd <= 0xffff
    requires Seen(w, g) && Seen(w, h) && x in Received(w.app.r, g, h) && y in Received(w.app.r, g, h)
    ensures SeqNum.SeqLt(SeqNum.U32(x), SeqNum.U32(y)) <==> x < y
    ensures SeqNum.SeqLeq(SeqNum.U32(x), SeqNum.U32(y)) <==> x <= y
  {
    SeenNear(w, c, g);
    SeenNear(w, c, h);
    assert w.snd.lastack <= w.app.r.rcvNxt <= w.snd.lastack + 0x1_0000;
    SeqNum.CompareUnwrapped(x, y);
  }

  // ----- the length of the send queue over runs -----

  /** A write chains nothing to a segment of 255 pbufs. */
  predicate ShortWrite(w: World, c: Cfg, step: Step) {
    step.Write? && w.snd.unsent != [] && S.Phase2(w.snd, c.snd, |step.data|) > 0 ==> w.snd.LastUnsent().clen < 0xff
  }

  /** `snd_queuelen` is the number of pbufs queued, in segments of fewer than 256. */
  predicate QueueCounted(w: World) { S.Leak(w.snd) == 0 && S.Short(w.snd) }

  lemma QueuelenStep(w: World, c: Cfg, step: Step)
    requires Enabled(w, c, step) && SenderOk(w, c) && ReceiverOk(w) && c.snd.sndBuf <= 0xffff
    requires QueueCounted(w) && ShortWrite(w, c, step)
    ensures QueueCounted(Next(w, c, step))
  {
    match step
    case Write(data, copy, nodelay, more) =>
      SP.WriteLeak(w.snd, c.snd, data, copy, nodelay, more);
      SP.WriteShort(w.snd, c.snd, data, copy, nodelay, more);
    case Close =>
      NoFinYet(w, c);
      SP.FinLeak(w.snd);
      SP.FinShort(w.snd);
    case Output(k) =>
      SP.OutputInv(w.snd, c.snd, k, w.stream);
      SP.OutputShort(w.snd, c.snd, k);
    case Timeout(k) =>
      var s := S.RexmitRto(w.snd);
      SP.RtoInv(w.snd, c.snd, w.stream);
      SP.OutputInv(s, c.snd, k, w.stream);
      SP.OutputShort(s, c.snd, k);
    case DeliverAck(ackno, fast) =>
      SP.AckShort(w.snd, ackno, fast);
      SP.AckLeakExact(w.snd, c.snd, w.stream, ackno, fast);
    case _ =>
  }

  lemma NoFinYet(w: World, c: Cfg)
    requires SenderOk(w, c) && !w.snd.finQueued
    ensures w.snd.unsent != [] ==> !w.snd.LastUnsent().fin
  {
    if w.snd.unsent != [] {
      assert w.snd.LastUnsent() in w.snd.unsent;
    }
  }

  predicate ShortRun(w: World, c: Cfg, steps: seq<Step>, w': World)
    decreases |steps|
  {
    if steps == [] then w == w'
    else Enabled(w, c, steps[0]) && ShortWrite(w, c, steps[0]) && ShortRun(Next(w, c, steps[0]), c, steps[1..], w')
  }

  /** In every run without a chain of 256 pbufs `snd_queuelen` is the number of pbufs on both queues. */
  lemma {:induction false} QueuelenExact(w: World, c: Cfg, steps: seq<Step>, w': World)
    requires ShortRun(w, c, steps, w') && SenderOk(w, c) && ReceiverOk(w) && QueueCounted(w) && c.snd.sndBuf <= 0xffff
    ensures QueueCounted(w') && w'.snd.queuelen == Pbufs(w'.snd.unsent) + Pbufs(w'.snd.unacked)
    decreases |steps|
  {
    if steps != [] {
      StepOk(w, c, steps[0]);
      QueuelenStep(w, c, steps[0]);
      QueuelenExact(Next(w, c, steps[0]), c, steps[1..], w');
    }
  }

  /** With TCP_SND_QUEUELEN of at most 255, the check of `tcp_write` for the queue length sees to that. */
  lemma SmallQueue(w: World, c: Cfg, step: Step)
    requires SenderOk(w, c) && QueueCounted(w) && c.snd.queueMax <= 0xff
    requires step.Write? ==> w.snd.queuelen < c.snd.queueMax
    ensures ShortWrite(w, c, step)
  {
    if w.snd.unsent != [] {
      var m := |w.snd.unsent| - 1;
      assert w.snd.unsent == w.snd.unsent[..m] + [w.snd.LastUnsent()];
      PbufsSnoc(w.snd.unsent[..m], w.snd.LastUnsent());
    }
  }

  // ----- the announced window over runs -----

  /** The segment is not stored beyond the window: the condition of `OverrunExact`. */
  predicate NoOverrun(a: App, c: R.Cfg, g: Seg, mem: bool, again: bool) {
    var b := Retry(a, c, again);
    var h := TrimmedFront(b.r, g);
    !(mem && b.r.rcvNxt < h.seqno < b.r.Edge() < h.End() && RP.TakesWhole(b.r.ooseq, h))
  }

  function TrimmedFront(r: R.Rcv, g: Seg): Seg { R.TrimFront(g, r.rcvNxt) }

  predicate WindowOk(r: R.Rcv, c: R.Cfg) {
    R.Announced(r) && r.rcvWnd <= c.wnd < 0x1_0000 && R.Fits(r.ooseq, r.Edge())
  }

  /** Both edges only move right. */
  predicate EdgesGrow(r: R.Rcv, r': R.Rcv) { r.annEdge <= r'.annEdge && r.Edge() <= r'.Edge() }

  lemma FinCorrectionWindow(r: R.Rcv, c: R.Cfg)
    requires WindowOk(r, c)
    ensures WindowOk(R.FinCorrection(r, c), c) && EdgesGrow(r, R.FinCorrection(r, c))
  {
  }

  lemma ReceiveWindow(r: R.Rcv, c: R.Cfg, g: Seg, mem: bool, ackMem: bool, stream: seq<Byte>, closed: bool)
    requires WindowOk(r, c) && R.Queued(r) && R.Consistent(r, stream, closed) && Agrees(g, stream, closed)
    requires var h := TrimmedFront(r, g);
             !(mem && r.rcvNxt < h.seqno < r.Edge() < h.End() && RP.TakesWhole(r.ooseq, h))
    ensures var r' := R.Receive(r, c, g, mem, ackMem).r; WindowOk(r', c) && EdgesGrow(r, r')
  {
    RP.ReceiveAnnounced(r, c, g, mem, ackMem);
    if g.TcpLen() > 0 && r.rxOpen {
      RP.OverrunExact(r, c, g, mem, ackMem, stream, closed);
    }
  }

  lemma InputWindow(a: App, c: R.Cfg, g: Seg, mem: bool, ackMem: bool, again: bool, accept: bool, stream: seq<Byte>,
                    closed: bool)
    requires WindowOk(a.r, c) && R.Queued(a.r) && R.Consistent(a.r, stream, closed) && Agrees(g, stream, closed)
    requires NoOverrun(a, c, g, mem, again)
    ensures var a' := Input(a, c, g, mem, ackMem, again, accept); WindowOk(a'.r, c) && EdgesGrow(a.r, a'.r)
  {
    var b := Retry(a, c, again);
    RetryWindow(a, c, again);
    if !(b.refused != Nothing && g.TcpLen() > 0) {
      var d := R.Receive(b.r, c, g, mem, ackMem);
      ReceiveWindow(b.r, c, g, mem, ackMem, stream, closed);
      NotifyWindow(b.(r := d.r), c, d.data, d.fin, accept);
    }
  }

  lemma RetryWindow(a: App, c: R.Cfg, again: bool)
    requires WindowOk(a.r, c)
    ensures WindowOk(Retry(a, c, again).r, c) && EdgesGrow(a.r, Retry(a, c, again).r)
  {
    FinCorrectionWindow(a.r, c);
  }

  lemma NotifyWindow(b: App, c: R.Cfg, data: seq<Byte>, fin: bool, accept: bool)
    requires WindowOk(b.r, c)
    ensures WindowOk(Notify(b, c, data, fin, accept).r, c) && EdgesGrow(b.r, Notify(b, c, data, fin, accept).r)
  {
    FinCorrectionWindow(b.r, c);
  }

  lemma WindowStep(w: World, c: Cfg, step: Step)
    requires Enabled(w, c, step) && SenderOk(w, c) && ReceiverOk(w) && WindowOk(w.app.r, c.rcv)
    requires step.DeliverSegment? ==> NoOverrun(w.app, c.rcv, step.g, step.mem, step.again)
    ensures WindowOk(Next(w, c, step).app.r, c.rcv) && EdgesGrow(w.app.r, Next(w, c, step).app.r)
  {
    if step.DeliverSegment? {
      InputWindow(w.app, c.rcv, step.g, step.mem, step.ackMem, step.again, step.accept, w.stream, w.snd.finQueued);
    } else {
      QuietWindow(w, c, step);
    }
  }

  /** The steps in which no segment arrives. */
  lemma QuietWindow(w: World, c: Cfg, step: Step)
    requires Enabled(w, c, step) && WindowOk(w.app.r, c.rcv) && !step.DeliverSegment?
    ensures WindowOk(Next(w, c, step).app.r, c.rcv) && EdgesGrow(w.app.r, Next(w, c, step).app.r)
  {
    match step
    case SendAck => RP.SendInv(w.app.r);
    case RetryRefused(accept) => FinCorrectionWindow(w.app.r, c.rcv);
    case TakeData(len) => RP.RecvedInv(w.app.r, c.rcv, len);
    case _ =>
  }

  predicate WindowRun(w: World, c: Cfg, steps: seq<Step>, w': World)
    decreases |steps|
  {
    if steps == [] then w == w'
    else
      && Enabled(w, c, steps[0])
      && (steps[0].DeliverSegment? ==> NoOverrun(w.app, c.rcv, steps[0].g, steps[0].mem, steps[0].again))
      && WindowRun(Next(w, c, steps[0]), c, steps[1..], w')
  }

  /** Over every run in which no segment is stored beyond the window, `rcv_wnd` never exceeds
      TCP_WND, the edge announced never moves left and never passes the edge of the window. */
  lemma {:induction false} AnnouncedEdge(w: World, c: Cfg, steps: seq<Step>, w': World)
    requires WindowRun(w, c, steps, w') && SenderOk(w, c) && ReceiverOk(w) && WindowOk(w.app.r, c.rcv)
             && c.snd.sndBuf <= 0xffff
    ensures w'.app.r.rcvWnd <= c.rcv.wnd
    ensures w.app.r.annEdge <= w'.app.r.annEdge <= w'.app.r.rcvNxt + w'.app.r.annWnd <= w'.app.r.Edge()
    decreases |steps|
  {
    if steps != [] {
      StepOk(w, c, steps[0]);
      WindowStep(w, c, steps[0]);
      AnnouncedEdge(Next(w, c, steps[0]), c, steps[1..], w');
    }
  }

  /** The start of a connection satisfies the hypotheses of the theorems over runs. */
  lemma StartOk(c: Cfg, wndMax: nat)
    requires c.rcv.wnd < 0x1_0000
    ensures var w := Start(c, wndMax);
            SenderOk(w, c) && ReceiverOk(w) && S.Ordered(w.snd) && WindowOk(w.app.r, c.rcv) && QueueCounted(w)
  {
    S.InitialInv(c.snd, wndMax);
  }
}
