/**
 What the sender's operations do, told by windows, queues and numbers: which segments leave, which come back, which
 are freed, how a write is cut.
 */
module TcpSendLaws {
  import opened TcpSegment
  import opened TcpSend
  import opened TcpSendProofs

  // ----- tcp_output -----

  /** One of the two windows ends before the data of `g` does. */
  predicate Exceeds(s: Snd, k: Control, g: Seg) {
    g.DataEnd() - s.lastack > k.sndWnd || g.DataEnd() - s.lastack > k.cwnd
  }

  /** Nagle's algorithm keeps unsent segment `i` back: it is the only one left, not full, something is unacknowledged,
      nothing demands haste, and there is room to write more. */
  predicate HeldBack(s: Snd, c: Cfg, k: Control, i: nat)
    requires i < |s.unsent|
  {
    && i + 1 == |s.unsent| && |s.unsent[i].data| < c.mss && (i > 0 || s.unacked != [])
    && !k.nodelay && !k.infr && !k.nagleMemErr && !s.finQueued
    && s.sndBuf != 0 && s.queuelen < c.queueMax
  }

  /** Unsent segment `i` does not go out.  One that is acknowledged already counts as it compares in 32 bits. */
  predicate Stays(s: Snd, c: Cfg, k: Control, i: nat)
    requires i < |s.unsent|
  {
    var g := s.unsent[i];
    (if g.DataEnd() >= s.lastack then Exceeds(s, k, g) else U32(g.DataEnd() - s.lastack) > Min(k.sndWnd, k.cwnd))
    || HeldBack(s, c, k, i)
  }

  /** No segment is empty, none reaches beyond half the sequence space. */
  predicate Near(s: Snd) {
    forall i :: 0 <= i < |s.unsent| ==>
      s.unsent[i].TcpLen() > 0 && s.unsent[i].DataEnd() - s.lastack < 0x1_0000_0000
  }

  /** The first segment goes out exactly if it does not stay. */
  lemma SentFirst(s: Snd, c: Cfg, k: Control)
    requires Near(s) && s.unsent != []
    ensures MaySend(s, c, k) <==> !Stays(s, c, k, 0)
  {
    var x := s.unsent[0].seqno - s.lastack + |s.unsent[0].data|;
    assert x == s.unsent[0].DataEnd() - s.lastack;
    assert 0 <= x < 0x1_0000_0000 ==> U32(x) == x;
  }

  lemma StaysShift(s: Snd, c: Cfg, k: Control)
    requires Near(s) && s.unsent != []
    ensures var r := OutputOne(s);
            && Near(r) && forall i :: 0 <= i < |r.unsent| ==> (Stays(r, c, k, i) <==> Stays(s, c, k, i + 1))
  {
    var r := OutputOne(s);
    assert r.unacked != [] by {
      InsertSortedMembers(s.unacked, s.unsent[0]);
      assert s.unsent[0] in r.unacked;
    }
    forall i | 0 <= i < |r.unsent| ensures Stays(r, c, k, i) <==> Stays(s, c, k, i + 1) {
      assert r.unsent[i] == s.unsent[i + 1];
    }
  }

  /** The first `n` segments go out, and no more. */
  predicate GoesUpTo(s: Snd, c: Cfg, k: Control, n: nat) {
    && n <= |s.unsent|
    && (forall i :: 0 <= i < n ==> !Stays(s, c, k, i))
    && (n < |s.unsent| ==> Stays(s, c, k, n))
  }

  lemma GoesOn(s: Snd, c: Cfg, k: Control, n: nat)
    requires Near(s) && s.unsent != [] && !Stays(s, c, k, 0) && GoesUpTo(OutputOne(s), c, k, n)
    ensures GoesUpTo(s, c, k, n + 1)
  {
    StaysShift(s, c, k);
    forall i | 0 <= i < n + 1 ensures !Stays(s, c, k, i) {
      if i > 0 {
        assert !Stays(OutputOne(s), c, k, i - 1);
      }
    }
  }

  lemma {:induction false} SentPrefix(s: Snd, c: Cfg, k: Control)
    requires Near(s)
    ensures var n := |Sent(s, c, k)|;
            && GoesUpTo(s, c, k, n) && Sent(s, c, k) == s.unsent[..n] && OutputLoop(s, c, k).unsent == s.unsent[n..]
    decreases |s.unsent|
  {
    if s.unsent != [] {
      SentFirst(s, c, k);
      if MaySend(s, c, k) {
        StaysShift(s, c, k);
        SentPrefix(OutputOne(s), c, k);
        SentShift(s, c, k);
      }
    }
  }

  lemma SentShift(s: Snd, c: Cfg, k: Control)
    requires Near(s) && MaySend(s, c, k)
    requires var r := OutputOne(s);
             var n := |Sent(r, c, k)|;
             GoesUpTo(r, c, k, n) && Sent(r, c, k) == r.unsent[..n] && OutputLoop(r, c, k).unsent == r.unsent[n..]
    ensures var n := |Sent(s, c, k)|;
            && GoesUpTo(s, c, k, n) && Sent(s, c, k) == s.unsent[..n] && OutputLoop(s, c, k).unsent == s.unsent[n..]
  {
    var r := OutputOne(s);
    var n := |Sent(r, c, k)|;
    SentFirst(s, c, k);
    GoesOn(s, c, k, n);
    TakeShift(s.unsent, n);
    assert Sent(s, c, k) == [s.unsent[0]] + Sent(r, c, k);
  }

  lemma {:induction false} TakeShift(q: seq<Seg>, n: nat)
    requires n < |q|
    ensures [q[0]] + q[1..][..n] == q[..n + 1] && q[1..][n..] == q[n + 1..]
  {
  }

  lemma SentNear(s: Snd, c: Cfg, stream: seq<Byte>)
    requires Inv(s, c, stream) && c.sndBuf <= 0xffff
    ensures Near(s)
  {
    forall i | 0 <= i < |s.unsent| ensures s.unsent[i].TcpLen() > 0 && s.unsent[i].DataEnd() - s.lastack <= 0x1_0000 {
      assert s.unsent[i] in s.unsent;
    }
  }

  /** The windows and Nagle's algorithm let the first `n` unsent segments go and the next one not.  (A segment that
      has been acknowledged already may be on `unsent` behind others; of those nothing is said.) */
  predicate Admits(s: Snd, c: Cfg, k: Control, n: nat) {
    && n <= |s.unsent|
    && (forall i :: 0 <= i < n && s.lastack < s.unsent[i].End() ==>
          && s.unsent[i].DataEnd() - s.lastack <= k.sndWnd && s.unsent[i].DataEnd() - s.lastack <= k.cwnd
          && !HeldBack(s, c, k, i))
    && (n < |s.unsent| && s.lastack < s.unsent[n].End() ==>
          || s.unsent[n].DataEnd() - s.lastack > k.sndWnd || s.unsent[n].DataEnd() - s.lastack > k.cwnd
          || HeldBack(s, c, k, n))
  }

  lemma {:induction false} GoesAdmits(s: Snd, c: Cfg, k: Control, n: nat)
    requires GoesUpTo(s, c, k, n)
    ensures Admits(s, c, k, n)
  {
    forall i | 0 <= i < n && s.lastack < s.unsent[i].End()
      ensures !Exceeds(s, k, s.unsent[i]) && !HeldBack(s, c, k, i)
    {
      assert !Stays(s, c, k, i);
    }
  }

  /** What goes out is a stretch of `unsent` from the front, and the rest stays; a segment goes if and only if the ones
      before it do, its data ends within the offered and within the congestion window, and it is not the one that
      Nagle's algorithm keeps back. */
  lemma {:induction false} SentExact(s: Snd, c: Cfg, k: Control, stream: seq<Byte>)
    requires Inv(s, c, stream) && c.sndBuf <= 0xffff
    ensures var n := |Sent(s, c, k)|;
            Admits(s, c, k, n) && Sent(s, c, k) == s.unsent[..n] && Output(s, c, k).unsent == s.unsent[n..]
  {
    SentNear(s, c, stream);
    SentPrefix(s, c, k);
    GoesAdmits(s, c, k, |Sent(s, c, k)|);
  }

  lemma {:induction false} PutUnackedAdds(q: seq<Seg>, g: Seg)
    ensures multiset(PutUnacked(q, g)) == multiset(q) + multiset{g}
  {
    if q != [] && g.seqno < q[|q| - 1].seqno {
      var k := InsertSortedShape(q, g);
      var a, b := q[..k], q[k..];
      assert q == a + b;
      assert multiset(a + [g] + b) == multiset(a) + multiset{g} + multiset(b);
    }
  }

  /** `t` is `s` with the segments `sent` moved from the front of `unsent` to `unacked`, and `snd_nxt` behind them. */
  ghost predicate Moved(s: Snd, sent: seq<Seg>, t: Snd) {
    && t == s.(unsent := t.unsent, unacked := t.unacked, sndNxt := t.sndNxt)
    && s.unsent == sent + t.unsent && multiset(t.unacked) == multiset(s.unacked) + multiset(sent)
    && s.sndNxt <= t.sndNxt && (forall g :: g in sent ==> g.End() <= t.sndNxt)
    && (t.sndNxt == s.sndNxt || exists g :: g in sent && g.End() == t.sndNxt)
  }

  lemma MovedFirst(s: Snd, sent: seq<Seg>, t: Snd)
    requires s.unsent != [] && s.unsent[0].TcpLen() > 0 && Moved(OutputOne(s), sent, t)
    ensures Moved(s, [s.unsent[0]] + sent, t)
  {
    var g, all := s.unsent[0], [s.unsent[0]] + sent;
    PutUnackedAdds(s.unacked, g);
    assert s.unsent == all + t.unsent;
    assert multiset(all) == multiset{g} + multiset(sent);
    assert g in all && forall h :: h in sent ==> h in all;
  }

  lemma {:induction false} LoopMoves(s: Snd, c: Cfg, k: Control)
    requires forall i :: 0 <= i < |s.unsent| ==> s.unsent[i].TcpLen() > 0
    ensures Moved(s, Sent(s, c, k), OutputLoop(s, c, k))
    decreases |s.unsent|
  {
    if MaySend(s, c, k) {
      LoopMoves(OutputOne(s), c, k);
      MovedFirst(s, Sent(OutputOne(s), c, k), OutputLoop(OutputOne(s), c, k));
    }
  }

  /** All that `tcp_output` changes: the segments sent go to `unacked`, `snd_nxt` comes to lie behind them, and spare
      bytes are forgotten once nothing is unsent. */
  lemma OutputMoves(s: Snd, c: Cfg, k: Control, stream: seq<Byte>)
    requires Inv(s, c, stream)
    ensures var t := Output(s, c, k);
            && Moved(s, Sent(s, c, k), t.(oversize := s.oversize))
            && t.oversize == if t.unsent == [] then 0 else s.oversize
  {
    forall i | 0 <= i < |s.unsent| ensures s.unsent[i].TcpLen() > 0 {
      assert s.unsent[i] in s.unsent;
    }
    LoopMoves(s, c, k);
  }

  /** One call: `sent` goes out and `t` is what stays. */
  ghost predicate Transmitted(s: Snd, c: Cfg, k: Control, sent: seq<Seg>, t: Snd) {
    && Moved(s, sent, t.(oversize := s.oversize)) && (t.oversize == if t.unsent == [] then 0 else s.oversize)
    && Admits(s, c, k, |sent|)
  }

  lemma {:induction false} OutputTransmits(s: Snd, c: Cfg, k: Control)
    requires c.sndBuf <= 0xffff
    ensures forall stream :: Inv(s, c, stream) ==> Transmitted(s, c, k, Sent(s, c, k), Output(s, c, k))
  {
    forall stream | Inv(s, c, stream) ensures Transmitted(s, c, k, Sent(s, c, k), Output(s, c, k)) {
      StreamTransmits(s, c, k, stream);
    }
  }

  lemma {:induction false} StreamTransmits(s: Snd, c: Cfg, k: Control, stream: seq<Byte>)
    requires Inv(s, c, stream) && c.sndBuf <= 0xffff
    ensures Transmitted(s, c, k, Sent(s, c, k), Output(s, c, k))
  {
    SentExact(s, c, k, stream);
    OutputMoves(s, c, k, stream);
  }

  /** Without a window for the first segment, an acknowledgement goes out alone. */
  lemma WindowShut(s: Snd, c: Cfg, k: Control)
    requires c.sndBuf <= 0xffff && s.unsent != [] && s.lastack < s.unsent[0].End()
    ensures forall stream :: Inv(s, c, stream) ==> (FitsWindow(s, k) <==> !Exceeds(s, k, s.unsent[0]))
  {
    forall stream | Inv(s, c, stream) ensures FitsWindow(s, k) <==> !Exceeds(s, k, s.unsent[0]) {
      SentNear(s, c, stream);
    }
  }

  // ----- tcp_write -----

  /** Spare bytes are what alignment and TCP_OVERSIZE ask for, as far as a segment may grow, and only if more data is
      expected soon. */
  lemma SpareExact(s: Snd, c: Cfg, length: nat, maxLength: int, nodelay: bool, more: bool, first: bool)
    requires length <= maxLength
    ensures var r := Prealloc(s, c, length, maxLength, nodelay, more, first);
            if more || (!nodelay && !(first && s.unsent == [] && s.unacked == []))
            then r < c.oversize + MEM_ALIGNMENT && length + r <= maxLength
                 && (length + r == maxLength || (c.oversize <= r && (length + r) % MEM_ALIGNMENT == 0))
            else r == 0
  {
    AlignedUp(length + c.oversize);
  }

  lemma AlignedUp(n: nat)
    ensures var m := (n + MEM_ALIGNMENT - 1) / MEM_ALIGNMENT * MEM_ALIGNMENT;
            n <= m < n + MEM_ALIGNMENT && m % MEM_ALIGNMENT == 0
  {
  }

  /** New segments are full, but for the last. */
  lemma {:induction false} ChunksFill(lbb: int, data: seq<Byte>, pos: nat, mss: nat, clen: nat, i: nat)
    requires i < |Chunks(lbb, data, pos, mss, clen)|
    ensures var q := Chunks(lbb, data, pos, mss, clen);
            && (i + 1 < |q| ==> |q[i].data| == mss) && 0 < |q[i].data| <= mss
            && !q[i].fin && q[i].clen == clen
    decreases |data| - pos
  {
    var n := Min(|data| - pos, mss);
    if i > 0 {
      var t := Chunks(lbb, data, pos + n, mss, clen);
      assert Chunks(lbb, data, pos, mss, clen) == [Seg(lbb + pos, data[pos..pos + n], false, clen)] + t;
      ChunksFill(lbb, data, pos + n, mss, clen, i - 1);
      assert pos + n < |data|;
    }
  }

  /** What a write makes of `unsent`: the last segment grows, if it held data, until it is full or the data is used up;
      what is left goes into new segments, all full but the last, none with more than the MSS or half the largest window
      announced.  One pbuf is chained to the old last segment exactly if its spare bytes do not suffice, and then it
      held data; new segments have one pbuf, or two for data that is not copied. */
  lemma WriteFills(s: Snd, c: Cfg, data: seq<Byte>, copy: bool, nodelay: bool, more: bool)
    requires CanSegment(s, c, |data|) && OversizeOk(s, c)
    ensures var t, m := Written(s, c, data, copy, nodelay, more).unsent, |s.unsent|;
            && m <= |t| && (m > 0 ==> t[..m - 1] == s.unsent[..m - 1])
            && (m > 0 ==>
                  var g := s.unsent[m - 1];
                  var n := |t[m - 1].data| - |g.data|;
                  && 0 <= n <= |data|
                  && t[m - 1] == g.(data := g.data + data[..n], clen := g.clen + if n > s.oversize then 1 else 0)
                  && (n < |data| <==> |t| > m) && (n > s.oversize ==> g.data != [])
                  && (n < |data| && g.data != [] ==> |t[m - 1].data| == Min(c.mss, s.wndMax / 2)))
            && forall i :: m <= i < |t| ==>
                 && (i + 1 < |t| ==> |t[i].data| == Min(c.mss, s.wndMax / 2))
                 && 0 < |t[i].data| <= Min(c.mss, s.wndMax / 2)
                 && t[i].clen == if copy then 1 else 2
  {
    var q, n := NewSegments(s, c, data, copy), TailBytes(s, c, |data|);
    var t, m := Written(s, c, data, copy, nodelay, more).unsent, |s.unsent|;
    TailFits(s, c, |data|);
    forall i | m <= i < |t|
      ensures (i + 1 < |t| ==> |t[i].data| == Min(c.mss, s.wndMax / 2)) && 0 < |t[i].data| <= Min(c.mss, s.wndMax / 2)
              && t[i].clen == if copy then 1 else 2 {
      assert t[i] == q[i - m];
      ChunksFill(s.sndLbb, data, n, MssLocal(s, c), if copy then 1 else 2, i - m);
    }
  }

  /** All else that it changes. */
  lemma WriteCounts(s: Snd, c: Cfg, data: seq<Byte>, copy: bool, nodelay: bool, more: bool)
    requires CanSegment(s, c, |data|)
    ensures var t := Written(s, c, data, copy, nodelay, more);
            t == s.(unsent := t.unsent, oversize := t.oversize, sndLbb := s.sndLbb + |data|,
                    sndBuf := s.sndBuf - |data|, queuelen := s.queuelen + Pbufs(t.unsent) - Pbufs(s.unsent))
  {
    WriteLeak(s, c, data, copy, nodelay, more);
  }

  lemma {:induction false} ChunksSpare(s: Snd, c: Cfg, data: seq<Byte>, lbb: int, pos: nat, clen: nat, nodelay: bool,
                                       more: bool, first: bool, before: int)
    requires pos < |data| && MssLocal(s, c) > 0
    ensures var q := Chunks(lbb, data, pos, MssLocal(s, c), clen);
            q != [] && |q[|q| - 1].data| <= MssLocal(s, c)
            && ChunksOversize(s, c, |data|, pos, nodelay, more, first, before) ==
               Prealloc(s, c, |q[|q| - 1].data|, MssLocal(s, c), nodelay, more, first && |q| == 1)
    decreases |data| - pos
  {
    var mss := MssLocal(s, c);
    var n := Min(|data| - pos, mss);
    var ov, t := Prealloc(s, c, n, mss, nodelay, more, first), Chunks(lbb, data, pos + n, mss, clen);
    var q := [Seg(lbb + pos, data[pos..pos + n], false, clen)] + t;
    assert Chunks(lbb, data, pos, mss, clen) == q;
    if pos + n < |data| {
      ChunksSpare(s, c, data, lbb, pos + n, clen, nodelay, more, false, ov);
      assert q[|q| - 1] == t[|t| - 1];
    } else {
      assert t == [];
      assert ChunksOversize(s, c, |data|, pos + n, nodelay, more, false, ov) == ov;
    }
  }

  /** Spare bytes when the last unsent segment takes all of the data. */
  lemma {:induction false} SpareLeft(s: Snd, c: Cfg, n: nat, copy: bool, nodelay: bool, more: bool)
    requires OversizeOk(s, c) && s.unsent != [] && TailBytes(s, c, n) == n
    ensures var ov, room := OversizeLeft(s, c, n, copy, nodelay, more),
            MssLocal(s, c) - |s.LastUnsent().data| - s.oversize;
            if n <= s.oversize then ov == s.oversize - n
            else n - s.oversize <= room
                 && ov == if copy then Prealloc(s, c, n - s.oversize, room, nodelay, more, true) else 0
  {
  }

  /** The spare bytes behind the last unsent segment after a write that needs no new one: what is left of the old ones
      if they sufficed, otherwise those of the pbuf chained for copied data. */
  lemma {:induction false} WriteKeepsSpare(s: Snd, c: Cfg, data: seq<Byte>, copy: bool, nodelay: bool, more: bool)
    requires OversizeOk(s, c) && CanSegment(s, c, |data|) && s.unsent != []
    requires |Written(s, c, data, copy, nodelay, more).unsent| == |s.unsent|
    ensures var ov, room := Written(s, c, data, copy, nodelay, more).oversize,
            MssLocal(s, c) - |s.LastUnsent().data| - s.oversize;
            if |data| <= s.oversize then ov == s.oversize - |data|
            else |data| - s.oversize <= room
                 && ov == if copy then Prealloc(s, c, |data| - s.oversize, room, nodelay, more, true) else 0
  {
    assert NewSegments(s, c, data, copy) == [];
    NoChunks(s.sndLbb, data, TailBytes(s, c, |data|), MssLocal(s, c), if copy then 1 else 2);
    SpareLeft(s, c, |data|, copy, nodelay, more);
  }

  lemma {:induction false} NoChunks(lbb: int, data: seq<Byte>, pos: nat, mss: nat, clen: nat)
    requires Chunks(lbb, data, pos, mss, clen) == []
    ensures pos >= |data| || mss == 0
  {
  }

  /** And after one that does: those of the last new segment, if its data is copied. */
  lemma {:induction false} WriteSpare(s: Snd, c: Cfg, data: seq<Byte>, copy: bool, nodelay: bool, more: bool)
    requires OversizeOk(s, c) && CanSegment(s, c, |data|)
    requires |Written(s, c, data, copy, nodelay, more).unsent| > |s.unsent|
    ensures var t := Written(s, c, data, copy, nodelay, more);
            && |t.LastUnsent().data| <= MssLocal(s, c)
            && t.oversize == if copy then Prealloc(s, c, |t.LastUnsent().data|, MssLocal(s, c), nodelay, more,
                                                   |t.unsent| == |s.unsent| + 1) else 0
  {
    var n, clen := TailBytes(s, c, |data|), if copy then 1 else 2;
    var q, t := NewSegments(s, c, data, copy), Written(s, c, data, copy, nodelay, more).unsent;
    assert |t| == |s.unsent| + |q| && t[|t| - 1] == q[|q| - 1];
    assert n < |data|;
    OversizeLeftOk(s, c, |data|, copy, nodelay, more);
    ChunksSpare(s, c, data, s.sndLbb, n, clen, nodelay, more, true, OversizeLeft(s, c, |data|, copy, nodelay, more));
  }

  // ----- tcp_rexmit, tcp_zero_window_probe -----

  /** The first unacknowledged segment has gone to place `k` of `unsent`, behind all with a smaller number. */
  predicate Requeued(s: Snd, t: Snd, k: nat)
    requires s.unacked != []
  {
    var g := s.unacked[0];
    && k <= |s.unsent| && (forall i :: 0 <= i < k ==> s.unsent[i].seqno < g.seqno)
    && (k < |s.unsent| ==> g.seqno <= s.unsent[k].seqno)
    && t == s.(unacked := s.unacked[1..], unsent := s.unsent[..k] + [g] + s.unsent[k..],
               oversize := if k == |s.unsent| then 0 else s.oversize)
  }

  /** `tcp_rexmit` moves exactly one segment. */
  lemma RexmitMoves(s: Snd)
    ensures if s.unacked == [] then Rexmit(s) == s else exists k :: Requeued(s, Rexmit(s), k)
  {
    if s.unacked != [] {
      var g := s.unacked[0];
      var k := InsertSortedShape(s.unsent, g);
      if k < |s.unsent| {
        assert !(s.unsent[k].seqno < g.seqno);
      }
      assert Requeued(s, Rexmit(s), k);
    }
  }

  /** A probe takes one number, the first one that is queued. */
  lemma ProbeExact(s: Snd, mss: nat)
    requires SegsOk(s.unsent, mss) && SegsOk(s.unacked, mss)
    ensures if s.unacked == [] && s.unsent == [] then Probe(s) == []
            else |Probe(s)| == 1 && Probe(s)[0].TcpLen() == 1
                 && Probe(s)[0].seqno == (if s.unacked != [] then s.unacked[0] else s.unsent[0]).seqno
  {
    if s.unacked != [] {
      assert s.unacked[0] in s.unacked;
    } else if s.unsent != [] {
      assert s.unsent[0] in s.unsent;
    }
  }

  // ----- acknowledgement -----

  /** `r` is `q` without the segments in front that end at or before `ackno`. */
  predicate Freed(q: seq<Seg>, r: seq<Seg>, ackno: int) {
    var n := |q| - |r|;
    && 0 <= n && r == q[n..] && (forall i :: 0 <= i < n ==> q[i].End() <= ackno)
    && (r != [] ==> ackno < r[0].End())
  }

  lemma {:induction false} FreedFront(q: seq<Seg>, ackno: int)
    ensures Freed(q, DropAcked(q, ackno), ackno)
  {
    var k := DropAckedShape(q, ackno);
  }

  lemma {:induction false} RexmitAcked(s: Snd)
    ensures var r := Rexmit(s.(acked := 0));
            r == Rexmit(s).(acked := 0) && r.lastack == s.lastack && r.sndNxt == s.sndNxt
  {
  }

  /** The part of it that looks at `unacked`. */
  lemma {:induction false} AckFirst(s: Snd, ackno: int, fast: bool)
    ensures var t, r := AckUnacked(s, ackno, fast), if fast && ackno <= s.lastack then Rexmit(s) else s;
            && t == r.(unacked := t.unacked, lastack := t.lastack, sndBuf := t.sndBuf, acked := t.acked,
                       queuelen := t.queuelen)
            && t.lastack == (if s.lastack < ackno <= s.sndNxt then ackno else s.lastack)
            && (if s.lastack < ackno <= s.sndNxt then Freed(s.unacked, t.unacked, ackno) else t.unacked == r.unacked)
  {
    RexmitAcked(s);
    FreedFront(s.unacked, ackno);
  }

  /** An acknowledgement of something new moves `lastack` there and frees the segments in front of `unacked` that it
      covers; the third duplicate sends the first one again, as `RexmitMoves` says; what is covered in front of `unsent`
      goes in any case, unless more is acknowledged than was ever sent. */
  lemma {:induction false} AckExact(s: Snd, ackno: int, fast: bool)
    ensures var t, r := Ack(s, ackno, fast), if fast && ackno <= s.lastack then Rexmit(s) else s;
            && t == r.(unsent := t.unsent, unacked := t.unacked, lastack := t.lastack, sndBuf := t.sndBuf,
                       acked := t.acked, queuelen := t.queuelen, oversize := t.oversize)
            && t.lastack == (if s.lastack < ackno <= s.sndNxt then ackno else s.lastack)
            && (if s.lastack < ackno <= s.sndNxt then Freed(s.unacked, t.unacked, ackno) else t.unacked == r.unacked)
            && (if ackno <= s.sndNxt then Freed(r.unsent, t.unsent, ackno) else t.unsent == r.unsent)
            && t.oversize == if t.unsent == [] && r.unsent != [] then 0 else r.oversize
  {
    AckFirst(s, ackno, fast);
    RexmitAcked(s);
    FreedFront(AckUnacked(s, ackno, fast).unsent, ackno);
  }
}
