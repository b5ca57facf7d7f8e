/**
 Runs from the start of a connection in which the sender does not do what it promises.
 */
module TcpExamples {
  import opened TcpSegment
  import opened TcpSend
  import opened TcpSendProofs
  import R = TcpRecv
  import RP = TcpRecvProofs
  import opened T = TcpStream

  /** A run may be extended by one more step. */
  lemma {:induction false} RunStep(w: World, c: T.Cfg, steps: seq<Step>, v: World, step: Step)
    requires Run(w, c, steps, v) && T.Enabled(v, c, step)
    ensures Run(w, c, steps + [step], Next(v, c, step))
    decreases |steps|
  {
    if steps == [] {
      assert [step][1..] == [];
      assert Run(Next(v, c, step), c, [], Next(v, c, step));
    } else {
      assert (steps + [step])[1..] == steps[1..] + [step];
      RunStep(Next(w, c, steps[0]), c, steps[1..], v, step);
    }
  }

  // ----- a fast retransmission that waits on `unsent` -----

  const Small: S.Cfg := S.Cfg(10, 100, 20, 0)
  const Open: Control := Control(100, 100, true, false, false)
  const Shut: Control := Control(0, 0, true, false, false)

  /** Two segments of one byte, written and sent one after the other. */
  const A: Seg := Seg(0, [1], false, 1)
  const B: Seg := Seg(1, [2], false, 1)

  function Sending(unsent: seq<Seg>, unacked: seq<Seg>, nxt: int, lbb: int): Snd {
    Snd(unsent, unacked, 0, nxt, lbb, 100 - lbb, 0, lbb, 0, 100, false)
  }

  lemma WriteOne(s: Snd, c: S.Cfg, b: Byte, g: Seg)
    requires s.unsent == [] && MssLocal(s, c) >= 1 && s.oversize == 0 && g == Seg(s.sndLbb, [b], false, 1)
    ensures CanSegment(s, c, 1) && TailBytes(s, c, 1) == 0
    ensures Written(s, c, [b], true, true, false) ==
            s.(unsent := [g], sndLbb := s.sndLbb + 1, sndBuf := s.sndBuf - 1, queuelen := s.queuelen + 1)
  {
    OneChunk(s.sndLbb, [b], MssLocal(s, c), 1);
    PbufsSnoc([], g);
    assert ChunksOversize(s, c, 1, 1, true, false, false, 0) == 0;
  }

  lemma SendOne(s: Snd, c: S.Cfg, k: Control, g: Seg)
    requires s.unsent == [g] && MaySend(s, c, k) && |g.data| == 1 && s.sndNxt == g.seqno
    requires s.unacked != [] ==> s.unacked[|s.unacked| - 1].seqno < g.seqno
    ensures S.Output(s, c, k) ==
            s.(unsent := [], unacked := s.unacked + [g], sndNxt := g.End(), oversize := 0)
    ensures Sent(s, c, k) == [g]
  {
    OutputLast(s, c, k);
  }

  /** A third duplicate acknowledgement puts `A` back on `unsent`, and a window that has become too small keeps
      it there. */
  lemma Duplicate(s: Snd)
    requires s == Sending([], [A, B], 2, 2)
    ensures Ack(s, 0, true) == Sending([A], [B], 2, 2)
    ensures S.Output(Sending([A], [B], 2, 2), Small, Shut) == Sending([A], [B], 2, 2)
  {
    assert [A, B][1..] == [B];
    assert InsertSorted([], A) == [A];
    var r := Sending([A], [B], 2, 2);
    assert !MaySend(r, Small, Shut);
  }

  /** A run from the start that leaves the sender in state `s`, with the bytes of `stream` accepted; the receiver
      has acknowledged number 0. */
  ghost predicate Reaches(c: T.Cfg, wndMax: nat, steps: seq<Step>, w: World, s: Snd, stream: seq<Byte>) {
    Run(T.Start(c, wndMax), c, steps, w) && w.snd == s && w.stream == stream && 0 in w.acks && w.app == Ready(c.rcv)
  }

  function Ready(c: R.Cfg): App { App(R.Rcv(0, c.wnd, c.wnd, c.wnd, [], true), Nothing, [], false) }

  lemma Begin(c: T.Cfg, wndMax: nat) returns (steps: seq<Step>, w: World)
    ensures Reaches(c, wndMax, steps, w, Initial(c.snd, wndMax), [])
  {
    var v := T.Start(c, wndMax);
    steps, w := [SendAck], Next(v, c, SendAck);
    RunStep(v, c, [], v, SendAck);
    assert [] + [SendAck] == [SendAck];
  }

  lemma GoWrite(c: T.Cfg, wndMax: nat, steps: seq<Step>, w: World, s: Snd, stream: seq<Byte>,
                data: seq<Byte>, copy: bool, s': Snd)
    returns (steps': seq<Step>, w': World)
    requires Reaches(c, wndMax, steps, w, s, stream)
    requires !s.finQueued && |data| <= s.sndBuf && CanSegment(s, c.snd, |data|)
    requires TailOk(s) || TailBytes(s, c.snd, |data|) == 0
    requires s' == Written(s, c.snd, data, copy, true, false)
    ensures Reaches(c, wndMax, steps', w', s', stream + data) && w'.net == w.net
  {
    var step := T.Step.Write(data, copy, true, false);
    RunStep(T.Start(c, wndMax), c, steps, w, step);
    steps', w' := steps + [step], Next(w, c, step);
  }

  lemma GoClose(c: T.Cfg, wndMax: nat, steps: seq<Step>, w: World, s: Snd, stream: seq<Byte>, s': Snd)
    returns (steps': seq<Step>, w': World)
    requires Reaches(c, wndMax, steps, w, s, stream)
    requires !s.finQueued && (s.unsent == [] ==> s.sndBuf > 0) && TailOk(s) && s' == FinSent(s)
    ensures Reaches(c, wndMax, steps', w', s', stream) && w'.net == w.net
  {
    RunStep(T.Start(c, wndMax), c, steps, w, Close);
    steps', w' := steps + [Close], Next(w, c, Close);
  }

  lemma GoOutput(c: T.Cfg, wndMax: nat, steps: seq<Step>, w: World, s: Snd, stream: seq<Byte>, k: Control, s': Snd)
    returns (steps': seq<Step>, w': World)
    requires Reaches(c, wndMax, steps, w, s, stream) && s' == S.Output(s, c.snd, k)
    ensures Reaches(c, wndMax, steps', w', s', stream) && w'.net == Transmit(w, Sent(s, c.snd, k))
  {
    var step := T.Step.Output(k);
    RunStep(T.Start(c, wndMax), c, steps, w, step);
    steps', w' := steps + [step], Next(w, c, step);
  }

  /** Another acknowledgement of number 0. */
  lemma GoAck(c: T.Cfg, wndMax: nat, steps: seq<Step>, w: World, s: Snd, stream: seq<Byte>, s': Snd)
    returns (steps': seq<Step>, w': World)
    requires Reaches(c, wndMax, steps, w, s, stream) && s.lastack >= 0 && s' == S.Ack(s, 0, true)
    ensures Reaches(c, wndMax, steps', w', s', stream)
  {
    var step := DeliverAck(0, true);
    RunStep(T.Start(c, wndMax), c, steps, w, step);
    steps', w' := steps + [step], Next(w, c, step);
  }

  /** One byte is written. */
  lemma GoByte(c: T.Cfg, wndMax: nat, steps: seq<Step>, w: World, s: Snd, stream: seq<Byte>, b: Byte, s': Snd)
    returns (steps': seq<Step>, w': World)
    requires Reaches(c, wndMax, steps, w, s, stream) && MssLocal(s, c.snd) >= 1
    requires s.unsent == [] && s.oversize == 0 && !s.finQueued && s.sndBuf > 0
    requires s' == s.(unsent := [Seg(s.sndLbb, [b], false, 1)], sndLbb := s.sndLbb + 1, sndBuf := s.sndBuf - 1,
                      queuelen := s.queuelen + 1)
    ensures Reaches(c, wndMax, steps', w', s', stream + [b]) && w'.net == w.net
  {
    WriteOne(s, c.snd, b, Seg(s.sndLbb, [b], false, 1));
    steps', w' := GoWrite(c, wndMax, steps, w, s, stream, [b], true, s');
  }

  lemma SendSmall(s: Snd, g: Seg)
    requires s.unsent == [g] && |g.data| == 1 && s.lastack == 0 <= g.seqno < 10 && s.sndNxt == g.seqno
    requires s.unacked != [] ==> s.unacked[|s.unacked| - 1].seqno < g.seqno
    ensures S.Output(s, Small, Open) ==
            s.(unsent := [], unacked := s.unacked + [g], sndNxt := g.End(), oversize := 0)
  {
    SendOne(s, Small, Open, g);
  }

  /** One byte is written and sent. */
  lemma WriteSend(c: T.Cfg, steps: seq<Step>, w: World, s: Snd, stream: seq<Byte>, b: Byte, g: Seg, r: Snd)
    returns (steps': seq<Step>, w': World)
    requires c.snd == Small && Reaches(c, 100, steps, w, s, stream)
    requires s.unsent == [] && s.wndMax == 100 && s.oversize == 0 && !s.finQueued && s.sndBuf > 0 && s.lastack == 0
    requires 0 <= s.sndLbb < 10 && s.sndNxt == s.sndLbb && g == Seg(s.sndLbb, [b], false, 1)
    requires s.unacked != [] ==> s.unacked[|s.unacked| - 1].seqno < g.seqno
    requires r == s.(unacked := s.unacked + [g], sndNxt := g.seqno + 1, sndLbb := s.sndLbb + 1,
                     sndBuf := s.sndBuf - 1, queuelen := s.queuelen + 1)
    ensures Reaches(c, 100, steps', w', r, stream + [b])
  {
    var m := s.(unsent := [g], sndLbb := s.sndLbb + 1, sndBuf := s.sndBuf - 1, queuelen := s.queuelen + 1);
    steps', w' := GoByte(c, 100, steps, w, s, stream, b, m);
    SendSmall(m, g);
    steps', w' := GoOutput(c, 100, steps', w', m, stream + [b], Open, r);
  }

  lemma Initially(c: S.Cfg)
    requires c == Small
    ensures Initial(c, 100) == Sending([], [], 0, 0)
    ensures [] + [A] == [A] && [A] + [B] == [A, B]
  {
  }

  /** The steps that lead there. */
  lemma StuckRun(c: T.Cfg) returns (steps: seq<Step>, w: World)
    requires c.snd == Small
    ensures Reaches(c, 100, steps, w, Sending([A], [B], 2, 2), [1, 2])
  {
    var s0, s2, s4, s5 := Sending([], [], 0, 0), Sending([], [A], 1, 1), Sending([], [A, B], 2, 2),
      Sending([A], [B], 2, 2);
    var none: seq<Byte>, one: seq<Byte>, two: seq<Byte> := [], [1], [1, 2];
    assert none + [1] == one && one + [2] == two;
    Initially(c.snd);
    steps, w := Begin(c, 100);
    steps, w := WriteSend(c, steps, w, s0, none, 1, A, s2);
    steps, w := WriteSend(c, steps, w, s2, one, 2, B, s4);
    Duplicate(s4);
    steps, w := GoAck(c, 100, steps, w, s4, two, s5);
    steps, w := GoOutput(c, 100, steps, w, s5, two, Shut, s5);
  }

  lemma StuckFacts(s: Snd)
    requires s == Sending([A], [B], 2, 2)
    ensures !TailOk(s) && !Separated(s) && CanSegment(s, Small, 1) && TailBytes(s, Small, 1) == 1 && s.unsent != []
  {
  }

  lemma StuckInv(c: T.Cfg, steps: seq<Step>, w: World, s: Snd, stream: seq<Byte>)
    requires Reaches(c, 100, steps, w, s, stream) && c.rcv.wnd < 0x1_0000 && c.snd.sndBuf <= 0xffff
    ensures Inv(s, c.snd, stream)
  {
    StartOk(c, 100);
    RunOk(T.Start(c, 100), c, steps, w);
  }

  /** In this state a write of one byte puts it at the place of the second segment's, closing puts the FIN in the
      middle of the stream, and a timeout leaves `unsent` unsorted. */
  lemma StuckRetransmission(c: T.Cfg) returns (steps: seq<Step>, w: World)
    requires c.snd == Small && c.rcv.wnd < 0x1_0000
    ensures Run(T.Start(c, 100), c, steps, w) && w.snd.unsent == [A] && w.snd.unacked == [B]
    ensures CanSegment(w.snd, c.snd, 1) && !Inv(Written(w.snd, c.snd, [3], true, false, false), c.snd, w.stream + [3])
    ensures !Inv(FinSent(w.snd), c.snd, w.stream)
    ensures !Ordered(RexmitRto(w.snd))
  {
    steps, w := StuckRun(c);
    StuckInv(c, steps, w, w.snd, w.stream);
    StuckBreaks(w.snd, c.snd, w.stream, [3]);
    Unsorted(w.snd);
  }

  lemma StuckBreaks(s: Snd, c: S.Cfg, stream: seq<Byte>, data: seq<Byte>)
    requires s == Sending([A], [B], 2, 2) && c == Small && Inv(s, c, stream) && |data| == 1
    ensures CanSegment(s, c, |data|) && !Inv(Written(s, c, data, true, false, false), c, stream + data)
    ensures !Inv(FinSent(s), c, stream)
  {
    StuckFacts(s);
    WriteExact(s, c, stream, data, true, false, false);
    FinExact(s, c, stream);
  }

  lemma Unsorted(s: Snd)
    requires s == Sending([A], [B], 2, 2)
    ensures !Ordered(RexmitRto(s))
  {
    var q := [B] + [A];
    assert q[0] == B && q[1] == A && RexmitRto(s).unsent == q;
  }

  // ----- a segment of more than 255 pbufs -----

  const Long: S.Cfg := S.Cfg(1000, 1000, 1000, 0)
  const Wide: Control := Control(2000, 2000, true, false, false)

  /** The bytes of `d` written one by one without copying: one segment, whose chain grows by a pbuf each time. */
  function Chained(d: seq<Byte>): Seg { Seg(0, d, false, |d| + 1) }

  function Held(d: seq<Byte>): Snd {
    Snd([Chained(d)], [], 0, 0, |d|, 1000 - |d|, 0, |d| + 1, 0, 2000, false)
  }

  lemma OneChunk(lbb: int, data: seq<Byte>, mss: nat, clen: nat)
    requires 1 <= |data| <= mss
    ensures Chunks(lbb, data, 0, mss, clen) == [Seg(lbb, data, false, clen)]
  {
    assert data[0..|data|] == data;
    assert Chunks(lbb, data, |data|, mss, clen) == [];
  }

  /** The first write without copying makes a segment of two pbufs. */
  lemma WriteFirst(s: Snd, c: S.Cfg, d: seq<Byte>, g: Seg)
    requires s.unsent == [] && 1 <= |d| <= MssLocal(s, c) && g == Seg(s.sndLbb, d, false, 2)
    ensures CanSegment(s, c, |d|) && TailBytes(s, c, |d|) == 0
    ensures Written(s, c, d, false, true, false) ==
            s.(unsent := [g], sndLbb := s.sndLbb + |d|, sndBuf := s.sndBuf - |d|, queuelen := s.queuelen + 2,
              oversize := 0)
  {
    OneChunk(s.sndLbb, d, MssLocal(s, c), 2);
    PbufsSnoc([], g);
  }

  lemma NextChained(s: Snd, d: seq<Byte>, b: seq<Byte>)
    requires 1 <= |d| < 1000 && |b| == 1 && s == Held(d)
    ensures CanSegment(s, Long, 1) && TailOk(s) && Written(s, Long, b, false, true, false) == Held(d + b)
  {
    assert Phase1(s, 1) == 0 && Space(s, Long, 1) == 1000 - |d| && Phase2(s, Long, 1) == 1;
    assert Chunks(s.sndLbb, b, 1, 1000, 2) == [];
    assert b[..1] == b && s.unsent[..0] == [];
  }

  /** Nothing limits the number of such writes but the send buffer and TCP_SND_QUEUELEN. */
  lemma {:induction false} ChainedRun(c: T.Cfg, d: seq<Byte>) returns (steps: seq<Step>, w: World)
    requires c.snd == Long && 1 <= |d| <= 1000
    ensures Reaches(c, 2000, steps, w, Held(d), d)
    decreases |d|
  {
    if |d| == 1 {
      steps, w := ChainedFirst(c, Initial(c.snd, 2000), d);
    } else {
      var e, b := d[..|d| - 1], d[|d| - 1..];
      assert e + b == d;
      steps, w := ChainedRun(c, e);
      steps, w := ChainedStep(c, steps, w, e, b);
    }
  }

  lemma FirstHeld(s: Snd, c: S.Cfg, d: seq<Byte>)
    requires c == Long && |d| == 1 && s == Initial(c, 2000)
    ensures s.(unsent := [Chained(d)], sndLbb := s.sndLbb + |d|, sndBuf := s.sndBuf - |d|,
               queuelen := s.queuelen + 2, oversize := 0) == Held(d)
  {
  }

  lemma FirstWritten(s: Snd, c: S.Cfg, d: seq<Byte>)
    requires c == Long && |d| == 1 && s == Initial(c, 2000)
    ensures CanSegment(s, c, |d|) && TailBytes(s, c, |d|) == 0 && Written(s, c, d, false, true, false) == Held(d)
  {
    FirstHeld(s, c, d);
    WriteFirst(s, c, d, Chained(d));
  }

  lemma ChainedFirst(c: T.Cfg, s: Snd, d: seq<Byte>) returns (steps: seq<Step>, w: World)
    requires c.snd == Long && |d| == 1 && s == Initial(c.snd, 2000)
    ensures Reaches(c, 2000, steps, w, Held(d), d)
  {
    var none: seq<Byte> := [];
    assert none + d == d;
    steps, w := Begin(c, 2000);
    FirstWritten(s, c.snd, d);
    steps, w := GoWrite(c, 2000, steps, w, s, none, d, false, Held(d));
  }

  lemma ChainedStep(c: T.Cfg, steps: seq<Step>, w: World, e: seq<Byte>, b: seq<Byte>)
    returns (steps': seq<Step>, w': World)
    requires c.snd == Long && 1 <= |e| < 1000 && |b| == 1 && Reaches(c, 2000, steps, w, Held(e), e)
    ensures Reaches(c, 2000, steps', w', Held(e + b), e + b)
  {
    NextChained(Held(e), e, b);
    steps', w' := GoWrite(c, 2000, steps, w, Held(e), e, b, false, Held(e + b));
  }

  function Flying(d: seq<Byte>): Snd { Held(d).(unsent := [], unacked := [Chained(d)], sndNxt := |d|) }

  lemma ChainedSent(d: seq<Byte>)
    requires 1 <= |d| <= 1000
    ensures S.Output(Held(d), Long, Wide) == Flying(d) && Sent(Held(d), Long, Wide) == [Chained(d)]
  {
    assert MaySend(Held(d), Long, Wide);
    OutputLast(Held(d), Long, Wide);
  }

  /** Acknowledging the segment leaves both queues empty, but takes the number of its pbufs off `snd_queuelen` in 8
      bits only. */
  lemma ChainedAck(d: seq<Byte>, g: Seg)
    requires 1 <= |d| <= 1000 && g == Chained(d)
    ensures var r := S.Ack(Flying(d), |d|, false);
            r.unsent == [] && r.unacked == [] && r.queuelen == |d| + 1 - (|d| + 1) % 0x100
  {
    var q: seq<Seg> := [g];
    assert q[1..] == [];
    assert DropAcked(q, |d|) == [];
    assert FreedPbufs(q[1..], |d|) == 0;
    assert FreedPbufs(q, |d|) == Clen8(g);
    assert AckUnacked(Flying(d), |d|, false).unsent == [];
  }

  /** The receiver takes the segment and acknowledges it. */
  lemma ChainedTaken(c: R.Cfg, d: seq<Byte>, r: R.Rcv)
    requires 1 <= |d| <= c.wnd < 0x1_0000 && r == Ready(c).r
    ensures R.Receive(r, c, Chained(d), true, true).r.rcvNxt == |d|
  {
    var g := Chained(d);
    assert R.TrimFront(g, 0) == g && R.FitInOrder(r, g) == (g, []);
  }

  lemma ChainedArrives(c: R.Cfg, d: seq<Byte>)
    requires 1 <= |d| <= c.wnd < 0x1_0000
    ensures Input(Ready(c), c, Chained(d), true, true, true, true).r.rcvNxt == |d|
  {
    ChainedTaken(c, d, Ready(c).r);
  }

  lemma GoSend(c: T.Cfg, steps: seq<Step>, w: World, d: seq<Byte>) returns (steps': seq<Step>, w': World)
    requires c.snd == Long && Reaches(c, 2000, steps, w, Held(d), d) && 1 <= |d| <= 1000
    ensures Reaches(c, 2000, steps', w', Flying(d), d) && Chained(d) in w'.net
  {
    var step := T.Step.Output(Wide);
    RunStep(T.Start(c, 2000), c, steps, w, step);
    ChainedSent(d);
    steps', w' := steps + [step], Next(w, c, step);
  }

  lemma GoArrive(c: T.Cfg, steps: seq<Step>, w: World, d: seq<Byte>) returns (steps': seq<Step>, w': World)
    requires c.snd == Long && Reaches(c, 2000, steps, w, Flying(d), d) && Chained(d) in w.net
    requires 1 <= |d| <= 1000 <= c.rcv.wnd < 0x1_0000
    ensures Run(T.Start(c, 2000), c, steps', w') && w'.snd == Flying(d) && |d| in w'.acks
  {
    var step := DeliverSegment(Chained(d), true, true, true, true);
    RunStep(T.Start(c, 2000), c, steps, w, step);
    ChainedArrives(c.rcv, d);
    steps', w' := steps + [step], Next(w, c, step);
  }

  /** In a run of 300 one-byte writes, one segment and one acknowledgement, `snd_queuelen` ends at 256 with nothing
      queued; from 255 bytes on it is wrong. */
  lemma QueuelenLeaks(c: T.Cfg, d: seq<Byte>) returns (steps: seq<Step>, w: World)
    requires c.snd == Long && 1 <= |d| <= 1000 <= c.rcv.wnd < 0x1_0000
    ensures Run(T.Start(c, 2000), c, steps, w) && w.snd.unsent == [] && w.snd.unacked == []
    ensures w.snd.queuelen == |d| + 1 - (|d| + 1) % 0x100
    ensures |d| == 300 ==> w.snd.queuelen == 256
  {
    steps, w := ChainedRun(c, d);
    steps, w := GoSend(c, steps, w, d);
    steps, w := GoArrive(c, steps, w, d);
    var step := DeliverAck(|d|, false);
    RunStep(T.Start(c, 2000), c, steps, w, step);
    ChainedAck(d, Chained(d));
    steps, w := steps + [step], Next(w, c, step);
  }

  // ----- a receive window that wraps -----

  const Tiny: S.Cfg := S.Cfg(1, 100, 20, 0)
  const Narrow: Control := Control(2, 2, true, false, false)

  /** The second byte is followed by the FIN, which does not count against a window of two bytes. */
  const P: Seg := Seg(0, [7], false, 1)
  const Q: Seg := Seg(1, [8], true, 1)

  /** A segment with the next byte is sent in a window of two, whether a FIN follows or not. */
  lemma SendNarrow(s: Snd, g: Seg)
    requires s.unsent == [g] && |g.data| == 1 && s.lastack == 0 <= g.seqno <= 1 && s.sndNxt == g.seqno
    requires s.unacked != [] ==> s.unacked[|s.unacked| - 1].seqno < g.seqno
    ensures S.Output(s, Tiny, Narrow) ==
            s.(unsent := [], unacked := s.unacked + [g], sndNxt := g.End(), oversize := 0)
    ensures Sent(s, Tiny, Narrow) == [g]
  {
    SendOne(s, Tiny, Narrow, g);
  }

  lemma GoNarrow(c: T.Cfg, steps: seq<Step>, w: World, s: Snd, stream: seq<Byte>, g: Seg, s': Snd)
    returns (steps': seq<Step>, w': World)
    requires c.snd == Tiny && Reaches(c, 2, steps, w, s, stream)
    requires s.unsent == [g] && |g.data| == 1 && s.lastack == 0 <= g.seqno <= 1 && s.sndNxt == g.seqno
    requires s.unacked != [] ==> s.unacked[|s.unacked| - 1].seqno < g.seqno
    requires s' == s.(unsent := [], unacked := s.unacked + [g], sndNxt := g.End(), oversize := 0)
    ensures Reaches(c, 2, steps', w', s', stream) && g in w'.net && w.net <= w'.net
  {
    SendNarrow(s, g);
    steps', w' := GoOutput(c, 2, steps, w, s, stream, Narrow, s');
    assert g in [g];
  }

  /** Both segments are sent. */
  lemma NarrowRun(c: T.Cfg) returns (steps: seq<Step>, w: World)
    requires c.snd == Tiny && c.rcv == R.Cfg(2, 1)
    ensures Run(T.Start(c, 2), c, steps, w) && w.app == Ready(c.rcv) && P in w.net && Q in w.net
  {
    var none: seq<Byte>, one: seq<Byte>, two: seq<Byte> := [], [7], [7, 8];
    assert none + [7] == one && one + [8] == two;
    steps, w := Begin(c, 2);
    var s0 := Initial(c.snd, 2);
    var s1 := s0.(unsent := [P], sndLbb := 1, sndBuf := 99, queuelen := 1);
    steps, w := GoByte(c, 2, steps, w, s0, none, 7, s1);
    var s2 := s1.(unsent := [], unacked := [P], sndNxt := 1);
    assert [] + [P] == [P];
    steps, w := GoNarrow(c, steps, w, s1, one, P, s2);
    steps, w := NarrowFin(c, steps, w, s2, one, two);
  }

  lemma NarrowFin(c: T.Cfg, steps: seq<Step>, w: World, s: Snd, one: seq<Byte>, two: seq<Byte>)
    returns (steps': seq<Step>, w': World)
    requires c.snd == Tiny && Reaches(c, 2, steps, w, s, one) && one + [8] == two && P in w.net
    requires s.unsent == [] && s.unacked == [P] && s.sndNxt == s.sndLbb == 1 && s.lastack == 0 && s.wndMax == 2
    requires s.oversize == 0 && !s.finQueued && s.sndBuf > 0
    ensures Run(T.Start(c, 2), c, steps', w') && w'.app == Ready(c.rcv) && P in w'.net && Q in w'.net
  {
    var g := Seg(1, [8], false, 1);
    var m := s.(unsent := [g], sndLbb := 2, sndBuf := s.sndBuf - 1, queuelen := s.queuelen + 1);
    steps', w' := GoByte(c, 2, steps, w, s, one, 8, m);
    var f := m.(unsent := [Q], finQueued := true);
    assert [g][0 := Q] == [Q];
    steps', w' := GoClose(c, 2, steps', w', m, two, f);
    steps', w' := GoNarrow(c, steps', w', f, two, Q, f.(unsent := [], unacked := [P] + [Q], sndNxt := 3));
  }

  /** The segment with the FIN overtakes the other one, and the application does not take what is then in sequence. */
  lemma OverrunArrives(c: R.Cfg)
    requires c == R.Cfg(2, 1)
    ensures var a := Input(Ready(c), c, Q, true, true, true, false);
            var b := Input(a, c, P, true, true, true, false);
            && b.r.rcvWnd == 0xffff && b.refused == Kept([7, 8], true)
            && !R.Announced(Retry(b, c, true).r)
  {
    RP.WindowWraps(c, P, Q);
  }

  lemma GoDeliver(c: T.Cfg, wndMax: nat, steps: seq<Step>, w: World, g: Seg, a: App)
    returns (steps': seq<Step>, w': World)
    requires Run(T.Start(c, wndMax), c, steps, w) && g in w.net
    requires a == Input(w.app, c.rcv, g, true, true, true, false)
    ensures Run(T.Start(c, wndMax), c, steps', w') && w'.app == a && w'.net == w.net
  {
    var step := DeliverSegment(g, true, true, true, false);
    RunStep(T.Start(c, wndMax), c, steps, w, step);
    steps', w' := steps + [step], Next(w, c, step);
  }

  /** A run between lwIP peers with a window of two bytes: two bytes and a FIN are sent, the segment with the FIN
      arrives first, and `rcv_wnd` becomes 0xffff; when the application takes the data, the window edge that was
      announced is lost. */
  lemma OverrunWraps(c: T.Cfg) returns (steps: seq<Step>, w: World)
    requires c.snd == Tiny && c.rcv == R.Cfg(2, 1)
    ensures Run(T.Start(c, 2), c, steps, w) && w.app.r.rcvWnd == 0xffff && w.app.refused == Kept([7, 8], true)
    ensures T.Enabled(w, c, RetryRefused(true)) && !R.Announced(Next(w, c, RetryRefused(true)).app.r)
  {
    steps, w := NarrowRun(c);
    OverrunArrives(c.rcv);
    var a := Input(Ready(c.rcv), c.rcv, Q, true, true, true, false);
    steps, w := GoDeliver(c, 2, steps, w, Q, a);
    steps, w := GoDeliver(c, 2, steps, w, P, Input(a, c.rcv, P, true, true, true, false));
  }

  // ----- an acknowledgement that does not fit 16 bits -----

  const Full: S.Cfg := S.Cfg(1460, 0xffff, 0xffff, 0)
  const Whole: Control := Control(0xffff, 0xffff, true, false, false)

  /** Every unsent segment fits a window of 0xffff. */
  predicate AllFit(q: seq<Seg>, lastack: int) {
    forall g :: g in q ==> lastack <= g.seqno && g.seqno + |g.data| <= lastack + 0xffff
  }

  lemma SendsFirst(s: Snd, c: S.Cfg, k: Control)
    requires s.finQueued && Min(k.sndWnd, k.cwnd) == 0xffff && AllFit(s.unsent, s.lastack) && s.unsent != []
    ensures MaySend(s, c, k)
    ensures AllFit(OutputOne(s).unsent, s.lastack) && forall g :: g in s.unsent ==>
            g == s.unsent[0] || g in OutputOne(s).unsent
  {
    assert s.unsent[0] in s.unsent && s.unsent == [s.unsent[0]] + s.unsent[1..];
  }

  /** What the loop of `tcp_output` leaves alone, and how far it has sent. */
  predicate SentUpTo(s: Snd, r: Snd) {
    && s.sndNxt <= r.sndNxt && (forall g :: g in s.unsent ==> g.End() <= r.sndNxt)
    && r.lastack == s.lastack && r.sndBuf == s.sndBuf && r.sndLbb == s.sndLbb && r.finQueued == s.finQueued
  }

  /** With a FIN queued, a window that holds everything lets everything out. */
  lemma {:induction false} SendsAll(s: Snd, c: S.Cfg, k: Control)
    requires s.finQueued && Min(k.sndWnd, k.cwnd) == 0xffff && AllFit(s.unsent, s.lastack)
    ensures OutputLoop(s, c, k).unsent == [] && SentUpTo(s, OutputLoop(s, c, k))
    decreases |s.unsent|
  {
    if s.unsent != [] {
      SendsFirst(s, c, k);
      SendsAll(OutputOne(s), c, k);
    }
  }

  lemma NoTail(s: Snd, c: S.Cfg, n: nat)
    requires s.unsent == [] && c.mss > 0 && s.wndMax >= 2
    ensures CanSegment(s, c, n) && TailBytes(s, c, n) == 0
  {
    assert Phase1(s, n) == 0 && Phase2(s, c, n) == 0;
  }

  /** A full buffer can be written at once. */
  lemma FullReady(s: Snd, c: S.Cfg, n: nat)
    requires c == Full && s == Initial(c, 0xffff) && n == 0xffff
    ensures !s.finQueued && s.sndBuf == n && c.mss > 0 && s.wndMax >= 2
    ensures s.lastack == 0 && s.sndLbb == 0 && s.unacked == [] && s.unsent == []
  {
  }

  lemma WrittenFields(s: Snd, c: S.Cfg, d: seq<Byte>)
    requires CanSegment(s, c, |d|)
    ensures var r := Written(s, c, d, true, true, false);
            && r.lastack == s.lastack && r.sndBuf == s.sndBuf - |d| && r.sndLbb == s.sndLbb + |d|
            && r.unacked == s.unacked && r.finQueued == s.finQueued
  {
  }

  lemma FullWrite(s: Snd, c: S.Cfg, d: seq<Byte>, r: Snd)
    requires Inv(s, c, []) && Ordered(s) && s.unacked == [] && s.unsent == [] && !s.finQueued && |d| <= s.sndBuf
    requires s.lastack == 0 && 0 < |d| && CanSegment(s, c, |d|) && TailBytes(s, c, |d|) == 0
    requires r == Written(s, c, d, true, true, false)
    ensures Inv(r, c, d) && r.unsent != [] && TailOk(r)
  {
    WriteExact(s, c, [], d, true, true, false);
    assert [] + d == d;
    WriteOrdered(s, c, [], d, true, true, false);
    WrittenFields(s, c, d);
    TailFromSeparated(r, c, d);
    assert Holders(r.unsent, r.unacked, 0) == 1;
  }

  lemma FullSent(s: Snd, f: Snd, r: Snd, c: S.Cfg, d: seq<Byte>)
    requires Inv(s, c, d) && s.unsent != [] && TailOk(s) && !s.finQueued && |d| == 0xffff && s.lastack == 0
    requires s.sndLbb == |d| && f == FinSent(s) && r == S.Output(f, c, Whole)
    ensures Inv(r, c, d) && r.unsent == [] && r.sndNxt == |d| + 1
    ensures r.lastack == 0 && r.sndBuf == s.sndBuf && r.sndLbb == |d| && r.finQueued
  {
    FinExact(s, c, d);
    FinLast(s, f, c, d);
    SendsAll(f, c, Whole);
    OutputInv(f, c, Whole, d);
  }

  /** The FIN rides on the last segment and ends the sequence space in use. */
  lemma FinLast(s: Snd, f: Snd, c: S.Cfg, d: seq<Byte>)
    requires Inv(s, c, d) && s.unsent != [] && TailOk(s) && !s.finQueued && |d| == 0xffff && s.lastack == 0
             && s.sndLbb == |d|
    requires f == FinSent(s) && Inv(f, c, d)
    ensures f.finQueued && f.lastack == 0 && f.sndBuf == s.sndBuf && f.sndLbb == |d| && AllFit(f.unsent, 0)
    ensures exists g :: g in f.unsent && g.End() == |d| + 1
  {
    assert s.LastUnsent() in s.unsent;
    assert f.LastUnsent() in f.unsent;
  }

  lemma NothingLeft(r: Snd)
    requires r.lastack == 0 && r.sndNxt == 0x1_0000 && r.sndBuf == 0 && r.sndLbb == 0xffff
    ensures var a := S.Ack(r, 0x1_0000, false); a.lastack == 0x1_0000 && a.sndBuf == 0 && a.sndLbb == 0xffff
  {
  }

  /** With TCP_SND_BUF == 0xffff, a run that fills the buffer, closes and sends leads to a state in which acknowledging
      everything moves `lastack` by 0x10000 and `snd_buf` by nothing: the send space is gone. */
  lemma AckWraps(c: T.Cfg, d: seq<Byte>) returns (steps: seq<Step>, w: World)
    requires c.snd == Full && |d| == 0xffff
    ensures Run(T.Start(c, 0xffff), c, steps, w) && w.stream == d && w.snd.lastack == 0 && w.snd.sndNxt == 0x1_0000
    ensures var r := S.Ack(w.snd, 0x1_0000, false);
            r.lastack == 0x1_0000 && r.sndBuf == 0 && r.sndBuf + (r.sndLbb - r.lastack) == -1
  {
    steps, w := FullRun(c, Initial(c.snd, 0xffff), d);
    NothingLeft(w.snd);
  }

  /** The buffer is filled by one write. */
  lemma FullOpen(c: T.Cfg, steps: seq<Step>, w: World, s: Snd, d: seq<Byte>)
    returns (steps': seq<Step>, w': World, r: Snd)
    requires Reaches(c, 0xffff, steps, w, s, [])
    requires Inv(s, c.snd, []) && Ordered(s) && s.unacked == [] && s.unsent == [] && !s.finQueued
    requires s.lastack == 0 && s.sndLbb == 0 && s.sndBuf == |d| > 0
    requires CanSegment(s, c.snd, |d|) && TailBytes(s, c.snd, |d|) == 0
    ensures Reaches(c, 0xffff, steps', w', r, d) && Inv(r, c.snd, d) && r.unsent != [] && TailOk(r) && !r.finQueued
    ensures r.lastack == 0 && r.sndLbb == |d| && r.sndBuf == 0
  {
    r := Written(s, c.snd, d, true, true, false);
    FullWrite(s, c.snd, d, r);
    WrittenFields(s, c.snd, d);
    var none: seq<Byte> := [];
    assert none + d == d;
    steps', w' := GoWrite(c, 0xffff, steps, w, s, none, d, true, r);
  }

  lemma FullRun(c: T.Cfg, s: Snd, d: seq<Byte>) returns (steps: seq<Step>, w: World)
    requires c.snd == Full && |d| == 0xffff && s == Initial(c.snd, 0xffff)
    ensures Run(T.Start(c, 0xffff), c, steps, w) && w.stream == d && w.snd.sndLbb == 0xffff
    ensures w.snd.lastack == 0 && w.snd.sndNxt == 0x1_0000 && w.snd.sndBuf == 0
  {
    steps, w := Begin(c, 0xffff);
    InitialInv(c.snd, 0xffff);
    FullReady(s, c.snd, |d|);
    NoTail(s, c.snd, |d|);
    var r: Snd;
    steps, w, r := FullOpen(c, steps, w, s, d);
    steps, w := FullClose(c, steps, w, r, d);
  }

  lemma FullClose(c: T.Cfg, steps: seq<Step>, w: World, s: Snd, d: seq<Byte>) returns (steps': seq<Step>, w': World)
    requires Reaches(c, 0xffff, steps, w, s, d) && Inv(s, c.snd, d) && s.unsent != [] && TailOk(s) && !s.finQueued
    requires |d| == 0xffff && s.lastack == 0 && s.sndLbb == |d| && s.sndBuf == 0
    ensures Run(T.Start(c, 0xffff), c, steps', w') && w'.stream == d && w'.snd.sndLbb == 0xffff
    ensures w'.snd.lastack == 0 && w'.snd.sndNxt == 0x1_0000 && w'.snd.sndBuf == 0
  {
    var f := FinSent(s);
    var r := S.Output(f, c.snd, Whole);
    FullSent(s, f, r, c.snd, d);
    steps', w' := GoClose(c, 0xffff, steps, w, s, d, f);
    steps', w' := GoOutput(c, 0xffff, steps', w', f, d, Whole, r);
  }
}
