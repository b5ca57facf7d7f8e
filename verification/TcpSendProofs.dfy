/**
 What every operation of the sender keeps, and exactly when.
 */
module TcpSendProofs {
  import opened TcpSegment
  import opened TcpSend

  // ----- tcp_write -----

  /** Phase 3 yields segments that hold each number from `pos` on exactly once. */
  lemma {:induction false} ChunksHold(lbb: int, data: seq<Byte>, pos: nat, mss: nat, clen: nat, x: int)
    requires pos <= |data| && (pos < |data| ==> mss > 0)
    ensures Count(Chunks(lbb, data, pos, mss, clen), x) == (if lbb + pos <= x < lbb + |data| then 1 else 0)
    decreases |data| - pos
  {
    if pos < |data| {
      var n := Min(|data| - pos, mss);
      var g := Seg(lbb + pos, data[pos..pos + n], false, clen);
      var t := Chunks(lbb, data, pos + n, mss, clen);
      ChunksHold(lbb, data, pos + n, mss, clen, x);
      assert ([g] + t)[1..] == t;
    }
  }

  /** They carry the new bytes of the stream, none more than `mss` of them. */
  lemma {:induction false} ChunksAgreeAt(stream: seq<Byte>, lbb: nat, data: seq<Byte>, pos: nat, mss: nat, clen: nat,
                                         i: nat)
    requires lbb <= |stream| && stream[lbb..] == data && i < |Chunks(lbb, data, pos, mss, clen)|
    ensures var g := Chunks(lbb, data, pos, mss, clen)[i];
            Agrees(g, stream, false) && g.TcpLen() > 0 && |g.data| <= mss
    decreases |data| - pos
  {
    var n := Min(|data| - pos, mss);
    if i == 0 {
      assert stream[lbb..][pos..pos + n] == stream[lbb + pos..lbb + pos + n];
    } else {
      ChunksAgreeAt(stream, lbb, data, pos + n, mss, clen, i - 1);
    }
  }

  lemma ChunksAgree(stream: seq<Byte>, lbb: nat, data: seq<Byte>, pos: nat, mss: nat, clen: nat)
    requires lbb <= |stream| && stream[lbb..] == data
    ensures var q := Chunks(lbb, data, pos, mss, clen); AllAgree(q, stream, false) && SegsOk(q, mss)
  {
    var q := Chunks(lbb, data, pos, mss, clen);
    forall g | g in q ensures Agrees(g, stream, false) && g.TcpLen() > 0 && |g.data| <= mss {
      var i: nat :| i < |q| && q[i] == g;
      ChunksAgreeAt(stream, lbb, data, pos, mss, clen, i);
    }
  }

  lemma {:induction false} ChunksOversizeOk(s: Snd, c: Cfg, data: seq<Byte>, lbb: int, pos: nat, nodelay: bool,
                                            more: bool,
                                            first: bool, before: int, clen: nat)
    requires pos < |data| && MssLocal(s, c) > 0
    ensures var q := Chunks(lbb, data, pos, MssLocal(s, c), clen);
            var ov := ChunksOversize(s, c, |data|, pos, nodelay, more, first, before);
            q != [] && 0 <= ov && ov + |q[|q| - 1].data| <= MssLocal(s, c)
    decreases |data| - pos
  {
    var mss := MssLocal(s, c);
    var n := Min(|data| - pos, mss);
    var ov := Prealloc(s, c, n, mss, nodelay, more, first);
    var t := Chunks(lbb, data, pos + n, mss, clen);
    if pos + n < |data| {
      ChunksOversizeOk(s, c, data, lbb, pos + n, nodelay, more, false, ov, clen);
      assert Chunks(lbb, data, pos, mss, clen) == [Seg(lbb + pos, data[pos..pos + n], false, clen)] + t;
    } else {
      assert t == [];
      assert ChunksOversize(s, c, |data|, pos + n, nodelay, more, false, ov) == ov;
    }
  }

  /** With the sender's invariant, phases 1 and 2 never overrun and never underflow. */
  lemma TailFits(s: Snd, c: Cfg, n: nat)
    requires OversizeOk(s, c)
    ensures 0 <= TailBytes(s, c, n) <= n
    ensures if s.unsent == [] then TailBytes(s, c, n) == 0
            else |s.LastUnsent().data| + TailBytes(s, c, n) <= MssLocal(s, c)
  {
  }

  lemma OversizeLeftOk(s: Snd, c: Cfg, n: nat, copy: bool, nodelay: bool, more: bool)
    requires OversizeOk(s, c)
    ensures var ov := OversizeLeft(s, c, n, copy, nodelay, more);
            && (TailBytes(s, c, n) < n ==> ov == 0)
            && 0 <= ov
            && (s.unsent != [] ==> ov + |s.LastUnsent().data| + TailBytes(s, c, n) <= MssLocal(s, c))
  {
  }

  lemma WriteOversizeOk(s: Snd, c: Cfg, data: seq<Byte>, copy: bool, nodelay: bool, more: bool)
    requires OversizeOk(s, c) && CanSegment(s, c, |data|)
    ensures OversizeOk(Written(s, c, data, copy, nodelay, more), c)
  {
    var n, clen := TailBytes(s, c, |data|), if copy then 1 else 2;
    var ov2 := OversizeLeft(s, c, |data|, copy, nodelay, more);
    OversizeLeftOk(s, c, |data|, copy, nodelay, more);
    if n < |data| {
      ChunksOversizeOk(s, c, data, s.sndLbb, n, nodelay, more, true, ov2, clen);
    }
  }

  /** How many segments hold `x` after data has been appended. */
  lemma AppendedCount(unsent: seq<Seg>, data: seq<Byte>, n: int, chained: bool, queue: seq<Seg>, x: int)
    requires 0 <= n <= |data| && (unsent != [] ==> !unsent[|unsent| - 1].fin)
    ensures Count(Appended(unsent, data, n, chained, queue), x) ==
              Count(unsent, x) + Count(queue, x)
              + (if unsent != []
                && unsent[|unsent| - 1].DataEnd() <= x < unsent[|unsent| - 1].DataEnd() + n then 1 else 0)
  {
    if unsent != [] {
      var front, g := unsent[..|unsent| - 1], unsent[|unsent| - 1];
      var e := g.(data := g.data + data[..n], clen := g.clen + if chained then 1 else 0);
      assert unsent == front + [g];
      CountSnoc(front, g, x);
      CountConcat(front + [e], queue, x);
      CountSnoc(front, e, x);
    }
  }

  lemma AppendedPbufs(unsent: seq<Seg>, data: seq<Byte>, n: int, chained: bool, queue: seq<Seg>)
    requires 0 <= n <= |data|
    ensures Pbufs(Appended(unsent, data, n, chained, queue)) ==
              Pbufs(unsent) + (if unsent != [] && chained then 1 else 0) + Pbufs(queue)
  {
    if unsent != [] {
      var front, g := unsent[..|unsent| - 1], unsent[|unsent| - 1];
      var e := g.(data := g.data + data[..n], clen := g.clen + if chained then 1 else 0);
      assert unsent == front + [g];
      PbufsConcat(front, [g]);
      PbufsConcat(front, [e]);
      PbufsConcat(front + [e], queue);
    }
  }

  /** A segment that ends where the stream does takes over the next bytes. */
  lemma GrownAgrees(stream: seq<Byte>, g: Seg, data: seq<Byte>, n: nat, e: Seg)
    requires Agrees(g, stream, false) && n <= |data| && (n > 0 ==> g.DataEnd() == |stream|)
    requires e == g.(data := g.data + data[..n], clen := e.clen)
    ensures Agrees(e, stream + data, false)
  {
    var all := stream + data;
    if n == 0 {
      assert e.data == g.data && all[g.seqno..g.DataEnd()] == stream[g.seqno..g.DataEnd()];
    } else {
      assert all[g.seqno..|stream| + n] == stream[g.seqno..|stream|] + data[..n];
    }
  }

  lemma AppendedAgrees(stream: seq<Byte>, unsent: seq<Seg>, data: seq<Byte>, n: int, chained: bool, queue: seq<Seg>,
                       mss: nat)
    requires AllAgree(unsent, stream, false) && SegsOk(unsent, mss)
    requires AllAgree(queue, stream + data, false) && SegsOk(queue, mss)
    requires 0 <= n <= |data|
    requires unsent != [] ==>
             |unsent[|unsent| - 1].data| + n <= mss && (n > 0 ==> unsent[|unsent| - 1].DataEnd() == |stream|)
    ensures var q := Appended(unsent, data, n, chained, queue);
            AllAgree(q, stream + data, false) && SegsOk(q, mss)
  {
    if unsent != [] {
      var front, g := unsent[..|unsent| - 1], unsent[|unsent| - 1];
      var e := g.(data := g.data + data[..n], clen := g.clen + if chained then 1 else 0);
      assert g in unsent;
      AllAgreeGrows(unsent, stream, data);
      GrownAgrees(stream, g, data, n, e);
      assert forall h :: h in front + [e] + queue ==> h in front || h == e || h in queue;
      assert forall h :: h in front ==> h in unsent;
    }
  }

  lemma AppendedCovers(unsent: seq<Seg>, unacked: seq<Seg>, lastack: int, lbb: int, data: seq<Byte>, n: int,
                       chained: bool, queue: seq<Seg>)
    requires Covers(unsent, unacked, lastack, lbb)
    requires forall x: int :: x >= lbb ==> Holders(unsent, unacked, x) == 0
    requires forall x: int :: Count(queue, x) == if lbb + n <= x < lbb + |data| then 1 else 0
    requires 0 <= n <= |data|
    requires if unsent == [] then n == 0
             else !unsent[|unsent| - 1].fin && (n > 0 ==> unsent[|unsent| - 1].DataEnd() == lbb)
    ensures Covers(Appended(unsent, data, n, chained, queue), unacked, lastack, lbb + |data|)
  {
    var u := Appended(unsent, data, n, chained, queue);
    forall x: int ensures Holders(u, unacked, x) == Holders(unsent, unacked, x)
                          + if lbb <= x < lbb + |data| then 1 else 0 {
      AppendedCount(unsent, data, n, chained, queue, x);
    }
  }

  /** The new segments hold exactly the part of `data` that did not fit before them. */
  lemma NewSegmentsOk(s: Snd, c: Cfg, stream: seq<Byte>, data: seq<Byte>, copy: bool)
    requires s.sndLbb == |stream| && CanSegment(s, c, |data|)
    ensures var q, n := NewSegments(s, c, data, copy), TailBytes(s, c, |data|);
            && AllAgree(q, stream + data, false) && SegsOk(q, MssLocal(s, c))
            && forall x: int :: Count(q, x) == if |stream| + n <= x < |stream| + |data| then 1 else 0
  {
    var q, n := NewSegments(s, c, data, copy), TailBytes(s, c, |data|);
    forall x: int ensures Count(q, x) == if |stream| + n <= x < |stream| + |data| then 1 else 0 {
      ChunksHold(s.sndLbb, data, n, MssLocal(s, c), if copy then 1 else 2, x);
    }
    assert (stream + data)[|stream|..] == data;
    ChunksAgree(stream + data, |stream|, data, n, MssLocal(s, c), if copy then 1 else 2);
  }

  /** What a write makes of `unsent`. */
  lemma WrittenQueue(s: Snd, c: Cfg, stream: seq<Byte>, data: seq<Byte>, copy: bool, q: seq<Seg>)
    requires Inv(s, c, stream) && !s.finQueued && CanSegment(s, c, |data|)
    requires TailOk(s) || TailBytes(s, c, |data|) == 0
    requires q == Appended(s.unsent, data, TailBytes(s, c, |data|), Phase2(s, c, |data|) > 0,
                           NewSegments(s, c, data, copy))
    ensures AllAgree(q, stream + data, false) && SegsOk(q, MssLocal(s, c))
    ensures Covers(q, s.unacked, s.lastack, |stream| + |data|)
  {
    var n, chained, queue := TailBytes(s, c, |data|), Phase2(s, c, |data|) > 0, NewSegments(s, c, data, copy);
    TailFits(s, c, |data|);
    NoneAbove(s, c, stream);
    NewSegmentsOk(s, c, stream, data, copy);
    if s.unsent != [] {
      assert s.LastUnsent() in s.unsent;
    }
    AppendedAgrees(stream, s.unsent, data, n, chained, queue, MssLocal(s, c));
    AppendedCovers(s.unsent, s.unacked, s.lastack, s.sndLbb, data, n, chained, queue);
  }

  lemma WriteInv(s: Snd, c: Cfg, stream: seq<Byte>, data: seq<Byte>, copy: bool, nodelay: bool, more: bool)
    requires Inv(s, c, stream) && !s.finQueued && |data| <= s.sndBuf && CanSegment(s, c, |data|)
    requires TailOk(s) || TailBytes(s, c, |data|) == 0
    ensures Inv(Written(s, c, data, copy, nodelay, more), c, stream + data)
  {
    WrittenQueue(s, c, stream, data, copy, Written(s, c, data, copy, nodelay, more).unsent);
    AllAgreeGrows(s.unacked, stream, data);
    WriteOversizeOk(s, c, data, copy, nodelay, more);
    WriteLeak(s, c, data, copy, nodelay, more);
  }

  /** A write adds to `snd_queuelen` exactly the pbufs it queues. */
  lemma WriteLeak(s: Snd, c: Cfg, data: seq<Byte>, copy: bool, nodelay: bool, more: bool)
    requires CanSegment(s, c, |data|)
    ensures Leak(Written(s, c, data, copy, nodelay, more)) == Leak(s)
  {
    AppendedPbufs(s.unsent, data, TailBytes(s, c, |data|), Phase2(s, c, |data|) > 0, NewSegments(s, c, data, copy));
  }

  /** `tcp_write` keeps the sender's invariant if and only if it appends nothing to a last
      unsent segment that ends before `snd_lbb`. */
  lemma WriteExact(s: Snd, c: Cfg, stream: seq<Byte>, data: seq<Byte>, copy: bool, nodelay: bool, more: bool)
    requires Inv(s, c, stream) && !s.finQueued && |data| <= s.sndBuf && CanSegment(s, c, |data|)
    ensures Inv(Written(s, c, data, copy, nodelay, more), c, stream + data)
            <==> TailOk(s) || TailBytes(s, c, |data|) == 0
  {
    if TailOk(s) || TailBytes(s, c, |data|) == 0 {
      WriteInv(s, c, stream, data, copy, nodelay, more);
    } else {
      // The number in front of the first new segment is held by nobody.
      var n, chained, queue := TailBytes(s, c, |data|), Phase2(s, c, |data|) > 0, NewSegments(s, c, data, copy);
      var x := |stream| + n - 1;
      NoneAbove(s, c, stream);
      NewSegmentsOk(s, c, stream, data, copy);
      assert s.LastUnsent() in s.unsent;
      AppendedCount(s.unsent, data, n, chained, queue, x);
      assert Holders(s.unsent, s.unacked, x) == 0;
      assert Holders(Appended(s.unsent, data, n, chained, queue), s.unacked, x) == 0;
    }
  }

  lemma {:induction false} ChunksSorted(lbb: int, data: seq<Byte>, pos: nat, mss: nat, clen: nat)
    ensures var q := Chunks(lbb, data, pos, mss, clen);
            Sorted(q) && forall i :: 0 <= i < |q| ==> lbb + pos <= q[i].seqno < q[i].End()
    decreases |data| - pos
  {
    if pos < |data| && mss > 0 {
      var n := Min(|data| - pos, mss);
      var t := Chunks(lbb, data, pos + n, mss, clen);
      ChunksSorted(lbb, data, pos + n, mss, clen);
      var q := Chunks(lbb, data, pos, mss, clen);
      assert q[1..] == t;
      forall i, j | 0 <= i < j < |q| ensures q[i].seqno < q[j].seqno {
        assert q[j] == t[j - 1];
        assert i > 0 ==> q[i] == t[i - 1];
      }
    }
  }

  lemma AppendedOrdered(unsent: seq<Seg>, data: seq<Byte>, n: int, chained: bool, queue: seq<Seg>, lastack: int,
                        lbb: int)
    requires Sorted(unsent) && 0 <= n <= |data| && Sorted(queue)
    requires forall i :: 0 <= i < |unsent| ==> lastack < unsent[i].End() && unsent[i].seqno < lbb
    requires forall i :: 0 <= i < |queue| ==> lastack < queue[i].End() && lbb <= queue[i].seqno
    ensures var q := Appended(unsent, data, n, chained, queue);
            Sorted(q) && forall i :: 0 <= i < |q| ==> lastack < q[i].End()
  {
    if unsent != [] {
      var m := |unsent| - 1;
      var g := unsent[m];
      var a := unsent[m := g.(data := g.data + data[..n], clen := g.clen + if chained then 1 else 0)];
      assert Appended(unsent, data, n, chained, queue) == a + queue;
      SortedConcat(a, queue, lbb);
    }
  }

  /** Writing keeps both queues sorted. */
  lemma WriteOrdered(s: Snd, c: Cfg, stream: seq<Byte>, data: seq<Byte>, copy: bool, nodelay: bool, more: bool)
    requires Inv(s, c, stream) && !s.finQueued && CanSegment(s, c, |data|) && Ordered(s)
    ensures Ordered(Written(s, c, data, copy, nodelay, more))
  {
    var queue := NewSegments(s, c, data, copy);
    ChunksSorted(s.sndLbb, data, TailBytes(s, c, |data|), MssLocal(s, c), if copy then 1 else 2);
    forall i | 0 <= i < |s.unsent| ensures s.unsent[i].seqno < s.sndLbb {
      assert s.unsent[i] in s.unsent;
    }
    AppendedOrdered(s.unsent, data, TailBytes(s, c, |data|), Phase2(s, c, |data|) > 0, queue, s.lastack, s.sndLbb);
  }

  lemma FinOrdered(s: Snd, c: Cfg, stream: seq<Byte>)
    requires Inv(s, c, stream) && !s.finQueued && Ordered(s)
    ensures Ordered(FinSent(s))
  {
    forall i | 0 <= i < |s.unsent| ensures s.unsent[i].seqno < s.sndLbb {
      assert s.unsent[i] in s.unsent;
    }
  }

  lemma NoneAbove(s: Snd, c: Cfg, stream: seq<Byte>)
    requires Inv(s, c, stream)
    ensures forall x: int :: x >= Top(s, stream) ==> Holders(s.unsent, s.unacked, x) == 0
  {
    forall x: int ensures x >= Top(s, stream) ==> Holders(s.unsent, s.unacked, x) == 0 {
      AboveTop(s, c, stream, x);
    }
  }

  /** Nothing beyond the end of the queued stream is held. */
  lemma AboveTop(s: Snd, c: Cfg, stream: seq<Byte>, x: int)
    requires Inv(s, c, stream)
    ensures x >= Top(s, stream) ==> Holders(s.unsent, s.unacked, x) == 0
  {
    if x >= Top(s, stream) {
      forall i | 0 <= i < |s.unsent| ensures !s.unsent[i].Contains(x) {
        assert s.unsent[i] in s.unsent;
      }
      forall i | 0 <= i < |s.unacked| ensures !s.unacked[i].Contains(x) {
        assert s.unacked[i] in s.unacked;
      }
      CountNone(s.unsent, x);
      CountNone(s.unacked, x);
    }
  }

  // ----- tcp_send_fin -----

  /** With `g` at the end of `unsent` in place of `front`'s successor, one more number is held. */
  lemma FinHeld(front: seq<Seg>, tail: seq<Seg>, g: Seg, unacked: seq<Seg>, lastack: int, top: int)
    requires Covers(front + tail, unacked, lastack, top)
    requires forall x: int :: x >= top ==> Holders(front + tail, unacked, x) == 0
    requires forall x: int :: Count(tail, x) + (if x == top then 1 else 0) == if g.Contains(x) then 1 else 0
    ensures Covers(front + [g], unacked, lastack, top + 1)
  {
    forall x: int ensures Holders(front + [g], unacked, x) == Holders(front + tail, unacked, x)
                          + if x == top then 1 else 0 {
      CountSnoc(front, g, x);
      CountConcat(front, tail, x);
    }
  }

  lemma FinAlone(s: Snd, c: Cfg, stream: seq<Byte>)
    requires Inv(s, c, stream) && !s.finQueued && s.unsent == [] && s.sndBuf > 0
    ensures Inv(FinSent(s), c, stream)
  {
    var g := Seg(s.sndLbb, [], true, 1);
    forall x: int ensures x >= |stream| ==> Holders([] + [], s.unacked, x) == 0 {
      AboveTop(s, c, stream, x);
      assert [] + [] == s.unsent;
    }
    assert s.unsent == [] + [];
    FinHeld([], [], g, s.unacked, s.lastack, |stream|);
    FinLeak(s);
    assert FinSent(s).unsent == [] + [g];
  }

  /** The last segment takes the FIN over. */
  lemma {:induction false} FinSegs(front: seq<Seg>, g: Seg, stream: seq<Byte>, mss: nat)
    requires AllAgree(front + [g], stream, false) && SegsOk(front + [g], mss) && g.DataEnd() == |stream|
    ensures AllAgree(front + [g.(fin := true)], stream, true) && SegsOk(front + [g.(fin := true)], mss)
  {
    var q, e := front + [g.(fin := true)], g.(fin := true);
    assert g in front + [g];
    forall h | h in q ensures Agrees(h, stream, true) && h.TcpLen() > 0 && |h.data| <= mss {
      if h != e {
        assert h in front + [g];
      }
    }
  }

  lemma {:induction false} FinNumber(g: Seg)
    requires !g.fin
    ensures forall x: int :: Count([g], x) + (if x == g.DataEnd() then 1 else 0) ==
                             if g.(fin := true).Contains(x) then 1 else 0
  {
    forall x: int ensures Count([g], x) == if g.Contains(x) then 1 else 0 {
      CountSnoc([], g, x);
      assert [] + [g] == [g];
    }
  }

  lemma {:induction false} FinOnLast(s: Snd, c: Cfg, stream: seq<Byte>)
    requires Inv(s, c, stream) && !s.finQueued && s.unsent != [] && TailOk(s)
    ensures Inv(FinSent(s), c, stream)
  {
    var m := |s.unsent| - 1;
    var front, g := s.unsent[..m], s.unsent[m];
    assert g in s.unsent;
    assert s.unsent == front + [g];
    forall x: int ensures x >= |stream| ==> Holders(front + [g], s.unacked, x) == 0 {
      AboveTop(s, c, stream, x);
    }
    FinNumber(g);
    FinHeld(front, [g], g.(fin := true), s.unacked, s.lastack, |stream|);
    FinSegs(front, g, stream, MssLocal(s, c));
    FinLeak(s);
    assert FinSent(s).unsent == front + [g.(fin := true)];
  }

  /** Closing adds to `snd_queuelen` exactly the pbufs it queues. */
  lemma FinLeak(s: Snd)
    requires !s.finQueued && (s.unsent != [] ==> !s.LastUnsent().fin)
    ensures Leak(FinSent(s)) == Leak(s)
  {
    if s.unsent == [] {
      PbufsSnoc([], Seg(s.sndLbb, [], true, 1));
    } else {
      var m := |s.unsent| - 1;
      assert s.unsent == s.unsent[..m] + [s.unsent[m]];
      assert FinSent(s).unsent == s.unsent[..m] + [s.unsent[m].(fin := true)];
      PbufsSnoc(s.unsent[..m], s.unsent[m]);
      PbufsSnoc(s.unsent[..m], s.unsent[m].(fin := true));
    }
  }

  /** Closing keeps the invariant if and only if the last unsent segment ends the stream. */
  lemma FinExact(s: Snd, c: Cfg, stream: seq<Byte>)
    requires Inv(s, c, stream) && !s.finQueued && (s.unsent == [] ==> s.sndBuf > 0)
    ensures Inv(FinSent(s), c, stream) <==> TailOk(s)
  {
    if s.unsent == [] {
      FinAlone(s, c, stream);
    } else if TailOk(s) {
      FinOnLast(s, c, stream);
    } else {
      assert s.LastUnsent() in s.unsent;
      var g := s.LastUnsent().(fin := true);
      assert FinSent(s).unsent[|s.unsent| - 1] == g;
      assert !Agrees(g, stream, true);
    }
  }

  // ----- tcp_output -----

  lemma {:induction false} PutUnackedKeeps(q: seq<Seg>, g: Seg, stream: seq<Byte>, closed: bool, mss: nat, x: int)
    requires AllAgree(q, stream, closed) && Agrees(g, stream, closed)
    requires SegsOk(q, mss) && SegsOk([g], mss)
    ensures Count(PutUnacked(q, g), x) == Count(q, x) + (if g.Contains(x) then 1 else 0)
    ensures AllAgree(PutUnacked(q, g), stream, closed) && SegsOk(PutUnacked(q, g), mss)
    ensures Pbufs(PutUnacked(q, g)) == Pbufs(q) + g.clen
  {
    assert [g][0] == g;
    if q != [] && g.seqno < q[|q| - 1].seqno {
      InsertSortedMembers(q, g);
      InsertSortedPbufs(q, g);
      InsertSortedCount(q, g, x);
    } else {
      CountConcat(q, [g], x);
      PbufsConcat(q, [g]);
    }
  }

  /** One segment sent: the invariant stays, except that `unsent_oversize` is reset later. */
  lemma OutputOneInv(s: Snd, c: Cfg, stream: seq<Byte>)
    requires s.unsent != [] && Inv(s, c, stream)
    ensures Inv(OutputOne(s).(oversize := if |s.unsent| == 1 then 0 else s.oversize), c, stream)
    ensures Leak(OutputOne(s)) == Leak(s)
    ensures Agrees(s.unsent[0], stream, s.finQueued)
  {
    var g := s.unsent[0];
    var r := OutputOne(s);
    assert s.unsent == [g] + s.unsent[1..];
    assert SegsOk([g], MssLocal(s, c));
    PutUnackedKeeps(s.unacked, g, stream, s.finQueued, MssLocal(s, c), 0);
    forall x: int ensures Holders(r.unsent, r.unacked, x) == Holders(s.unsent, s.unacked, x) {
      PutUnackedKeeps(s.unacked, g, stream, s.finQueued, MssLocal(s, c), x);
    }
  }

  /** The loop of `tcp_output` with one segment left. */
  lemma OutputLast(s: Snd, c: Cfg, k: Control)
    requires |s.unsent| == 1 && MaySend(s, c, k)
    ensures Output(s, c, k) == OutputOne(s).(oversize := 0) && Sent(s, c, k) == [s.unsent[0]]
  {
    var r := OutputOne(s);
    assert r.unsent == [];
    assert OutputLoop(r, c, k) == r && Sent(r, c, k) == [];
    assert OutputLoop(s, c, k) == r;
  }

  /** `tcp_output` keeps the invariant and sends only bytes of the stream. */
  lemma {:induction false} OutputInv(s: Snd, c: Cfg, k: Control, stream: seq<Byte>)
    requires Inv(s, c, stream)
    ensures Inv(Output(s, c, k), c, stream) && Leak(Output(s, c, k)) == Leak(s)
    ensures AllAgree(Sent(s, c, k), stream, s.finQueued)
    decreases |s.unsent|
  {
    if MaySend(s, c, k) {
      OutputOneInv(s, c, stream);
      var r := OutputOne(s);
      if |s.unsent| == 1 {
        OutputLast(s, c, k);
      } else {
        OutputInv(r, c, k, stream);
      }
    }
  }

  lemma {:induction false} OutputOrdered(s: Snd, c: Cfg, k: Control, stream: seq<Byte>)
    requires Inv(s, c, stream) && Ordered(s)
    ensures Ordered(Output(s, c, k))
    decreases |s.unsent|
  {
    if MaySend(s, c, k) {
      var g, r := s.unsent[0], OutputOne(s);
      OutputOneInv(s, c, stream);
      PutUnackedOrdered(s, c, stream);
      if |s.unsent| > 1 {
        OutputOrdered(r, c, k, stream);
      } else {
        OutputLast(s, c, k);
      }
    }
  }

  lemma PutUnackedOrdered(s: Snd, c: Cfg, stream: seq<Byte>)
    requires Inv(s, c, stream) && Ordered(s) && s.unsent != []
    ensures Ordered(OutputOne(s))
  {
    var g := s.unsent[0];
    assert g in s.unsent && g.TcpLen() > 0;
    assert Holders(s.unsent, s.unacked, g.seqno) <= 1;
    forall i | 0 <= i < |s.unacked| ensures s.unacked[i].seqno != g.seqno {
      assert s.unacked[i] in s.unacked;
      DistinctQueues(s, 0, i, g.seqno);
    }
    PutUnackedSorted(s.unacked, g, s.lastack);
  }

  lemma PutUnackedSorted(q: seq<Seg>, g: Seg, lastack: int)
    requires Sorted(q) && forall i :: 0 <= i < |q| ==> q[i].seqno != g.seqno && lastack < q[i].End()
    requires lastack < g.End()
    ensures Sorted(PutUnacked(q, g))
    ensures var r := PutUnacked(q, g); forall i :: 0 <= i < |r| ==> lastack < r[i].End()
  {
    if q != [] && g.seqno < q[|q| - 1].seqno {
      InsertSortedSorted(q, g);
      var k := InsertSortedShape(q, g);
    }
  }

  /** A segment of `unsent` and one of `unacked` never hold the same number. */
  lemma DistinctQueues(s: Snd, i: nat, j: nat, x: int)
    requires i < |s.unsent| && j < |s.unacked| && Holders(s.unsent, s.unacked, x) <= 1
    ensures !(s.unsent[i].Contains(x) && s.unacked[j].Contains(x))
    ensures s.unsent[i].TcpLen() > 0 && s.unacked[j].TcpLen() > 0 && x == s.unsent[i].seqno ==> s.unacked[j].seqno != x
  {
    if s.unsent[i].Contains(x) && s.unacked[j].Contains(x) {
      CountWitness(s.unsent, i, x);
      CountWitness(s.unacked, j, x);
    }
  }

  // ----- retransmission -----

  /** The timeout never loses or duplicates a byte, whatever waits on `unsent`. */
  lemma RtoInv(s: Snd, c: Cfg, stream: seq<Byte>)
    requires Inv(s, c, stream)
    ensures Inv(RexmitRto(s), c, stream) && Leak(RexmitRto(s)) == Leak(s)
  {
    var r := RexmitRto(s);
    forall x: int ensures Holders(r.unsent, r.unacked, x) == Holders(s.unsent, s.unacked, x) {
      CountConcat(s.unacked, s.unsent, x);
    }
    PbufsConcat(s.unacked, s.unsent);
    assert forall g :: g in s.unacked + s.unsent ==> g in s.unacked || g in s.unsent;
    RtoOversize(s, c);
  }

  lemma RtoOversize(s: Snd, c: Cfg)
    requires OversizeOk(s, c) && SegsOk(s.unacked, MssLocal(s, c))
    ensures OversizeOk(RexmitRto(s), c)
  {
    var r := RexmitRto(s);
    assert s.unsent != [] && s.unacked != [] ==> r.LastUnsent() == s.LastUnsent();
    assert s.unsent == [] && s.unacked != [] ==> r.unsent == s.unacked && r.LastUnsent() in s.unacked;
  }

  /** It leaves `unsent` sorted if and only if no fast retransmission waits there. */
  lemma RtoOrderedExact(s: Snd)
    requires Ordered(s)
    ensures Ordered(RexmitRto(s)) <==> Separated(s)
  {
    if s.unacked != [] && s.unsent != [] {
      var q := s.unacked + s.unsent;
      var m := |s.unacked|;
      assert q[m - 1] == s.unacked[m - 1] && q[m] == s.unsent[0];
      if Separated(s) {
        forall i, j | 0 <= i < j < |q| ensures q[i].seqno < q[j].seqno {
          assert i < m ==> q[i].seqno <= q[m - 1].seqno;
          assert j >= m ==> q[m].seqno <= q[j].seqno;
        }
      }
    } else {
      assert s.unacked == [] ==> s.unacked + s.unsent == s.unsent;
      assert s.unsent == [] ==> s.unacked + s.unsent == s.unacked;
    }
  }

  lemma RexmitSegs(s: Snd, stream: seq<Byte>, mss: nat)
    requires AllAgree(s.unsent, stream, s.finQueued) && AllAgree(s.unacked, stream, s.finQueued)
    requires SegsOk(s.unsent, mss) && SegsOk(s.unacked, mss)
    ensures var r := Rexmit(s);
            && AllAgree(r.unsent, stream, s.finQueued) && AllAgree(r.unacked, stream, s.finQueued)
            && SegsOk(r.unsent, mss) && SegsOk(r.unacked, mss)
            && Pbufs(r.unsent) + Pbufs(r.unacked) == Pbufs(s.unsent) + Pbufs(s.unacked)
  {
    if s.unacked != [] {
      var g := s.unacked[0];
      assert s.unacked == [g] + s.unacked[1..];
      InsertSortedMembers(s.unsent, g);
      InsertSortedPbufs(s.unsent, g);
    }
  }

  /** Fast retransmit moves one segment between the queues and loses nothing. */
  lemma RexmitInv(s: Snd, c: Cfg, stream: seq<Byte>)
    requires Inv(s, c, stream)
    ensures Inv(Rexmit(s), c, stream) && Leak(Rexmit(s)) == Leak(s)
  {
    if s.unacked != [] {
      var g, r := s.unacked[0], Rexmit(s);
      assert s.unacked == [g] + s.unacked[1..];
      forall x: int ensures Holders(r.unsent, r.unacked, x) == Holders(s.unsent, s.unacked, x) {
        InsertSortedCount(s.unsent, g, x);
      }
      RexmitSegs(s, stream, MssLocal(s, c));
      RexmitOversize(s, c);
    }
  }

  lemma RexmitOversize(s: Snd, c: Cfg)
    requires OversizeOk(s, c) && SegsOk(s.unacked, MssLocal(s, c))
    ensures OversizeOk(Rexmit(s), c)
  {
    if s.unacked != [] {
      var g, r := s.unacked[0], Rexmit(s);
      assert g in s.unacked;
      var k := InsertSortedShape(s.unsent, g);
      if k < |s.unsent| {
        assert s.unsent[k].seqno >= g.seqno && r.oversize == s.oversize;
        assert r.LastUnsent() == s.LastUnsent();
      } else {
        assert r.LastUnsent() == g && r.oversize == 0;
      }
    }
  }

  /** It keeps both queues sorted. */
  lemma RexmitOrdered(s: Snd, mss: nat)
    requires SegsOk(s.unsent, mss) && SegsOk(s.unacked, mss) && Ordered(s)
    requires forall x: int :: Holders(s.unsent, s.unacked, x) <= 1
    ensures Ordered(Rexmit(s))
  {
    if s.unacked != [] {
      var g := s.unacked[0];
      assert g in s.unacked;
      forall i | 0 <= i < |s.unsent| ensures s.unsent[i].seqno != g.seqno {
        assert s.unsent[i] in s.unsent && Holders(s.unsent, s.unacked, g.seqno) <= 1;
        DistinctQueues(s, i, 0, g.seqno);
      }
      var u := InsertSorted(s.unsent, g);
      InsertSortedSorted(s.unsent, g);
      InsertSortedMembers(s.unsent, g);
      forall i | 0 <= i < |u| ensures s.lastack < u[i].End() {
        assert u[i] in u;
      }
    }
  }

  /** A window probe carries only a byte of the stream, or its FIN. */
  lemma ProbeAgrees(s: Snd, c: Cfg, stream: seq<Byte>)
    requires Inv(s, c, stream)
    ensures AllAgree(Probe(s), stream, s.finQueued)
  {
    if s.unacked != [] || s.unsent != [] {
      var g := if s.unacked != [] then s.unacked[0] else s.unsent[0];
      assert Agrees(g, stream, s.finQueued);
      if g.data != [] {
        AgreesCut(g, 1, stream, s.finQueued);
      }
    }
  }

  // ----- acknowledgement -----

  /** Only completely acknowledged segments are dropped, from the front. */
  lemma {:induction false} DropAckedShape(q: seq<Seg>, ackno: int) returns (k: nat)
    ensures k <= |q| && DropAcked(q, ackno) == q[k..]
    ensures forall i :: 0 <= i < k ==> q[i].End() <= ackno
    ensures k < |q| ==> q[k].End() > ackno
    ensures forall x: int :: Count(q[k..], x) <= Count(q, x) && (x >= ackno ==> Count(q[k..], x) == Count(q, x))
  {
    if q != [] && q[0].End() <= ackno {
      k := DropAckedShape(q[1..], ackno);
      assert q[1..][k..] == q[k + 1..];
      k := k + 1;
    } else {
      k := 0;
      assert q[0..] == q;
    }
  }

  /** The send space that an acknowledgement frees can be counted: TCP_SND_BUF is below 0xffff, or what is
      acknowledged is not a FIN that rides on the last segment. */
  predicate SpaceFits(s: Snd, c: Cfg, ackno: int) {
    c.sndBuf < 0xffff || !(s.lastack < ackno <= s.sndNxt && s.sndLbb < ackno)
  }

  /** An acknowledgement does not exceed the 16-bit difference it is stored in, nor `snd_buf`, exactly then. */
  lemma AckFits(s: Snd, c: Cfg, stream: seq<Byte>, ackno: int)
    requires Inv(s, c, stream) && c.sndBuf <= 0xffff && s.lastack < ackno <= s.sndNxt
    ensures SpaceFits(s, c, ackno) <==> s.sndBuf + (ackno - s.lastack) <= 0xffff
    ensures SpaceFits(s, c, ackno) ==> U16(ackno - s.lastack) == ackno - s.lastack
                                       && U16(s.sndBuf + (ackno - s.lastack)) == s.sndBuf + (ackno - s.lastack)
  {
    assert s.sndBuf + (ackno - s.lastack) == c.sndBuf - s.sndLbb + ackno;
  }

  /** Can the difference exceed 16 bits?  Only with TCP_SND_BUF == 0xffff, when a full buffer
      and the FIN riding on its last segment are acknowledged at once. */
  lemma AckWrapExact(s: Snd, c: Cfg, stream: seq<Byte>, ackno: int)
    requires Inv(s, c, stream) && c.sndBuf <= 0xffff && s.lastack < ackno <= s.sndNxt
    ensures U16(ackno - s.lastack) != ackno - s.lastack
            <==> c.sndBuf == 0xffff && s.sndBuf == 0 && s.finQueued && s.sndLbb == |stream| && ackno == |stream| + 1
  {
    assert ackno - s.lastack <= 0x1_0000;
  }

  lemma DropCovers(unsent: seq<Seg>, unacked: seq<Seg>, lastack: int, top: int, unsent': seq<Seg>, unacked': seq<Seg>,
                   lastack': int)
    requires Covers(unsent, unacked, lastack, top) && lastack <= lastack'
    requires forall x: int ::
             Count(unsent', x) <= Count(unsent, x) && (x >= lastack' ==> Count(unsent', x) == Count(unsent, x))
    requires forall x: int ::
             Count(unacked', x) <= Count(unacked, x) && (x >= lastack' ==> Count(unacked', x) == Count(unacked, x))
    ensures Covers(unsent', unacked', lastack', top)
  {
    forall x: int
      ensures Holders(unsent', unacked', x) <= Holders(unsent, unacked, x)
      ensures x >= lastack' ==> Holders(unsent', unacked', x) == Holders(unsent, unacked, x)
    {
      assert Count(unsent', x) <= Count(unsent, x) && Count(unacked', x) <= Count(unacked, x);
    }
  }

  lemma AckedZero(s: Snd, c: Cfg, stream: seq<Byte>)
    requires Inv(s, c, stream)
    ensures Inv(s.(acked := 0), c, stream)
  {
  }

  /** All segments that would be freed have fewer than 256 pbufs. */
  predicate ShortFront(q: seq<Seg>, ackno: int) {
    q != [] && q[0].End() <= ackno ==> q[0].clen < 0x100 && ShortFront(q[1..], ackno)
  }

  /** Freeing never takes too much off `snd_queuelen`, and exactly the right number if and only if no freed
      segment has 256 pbufs or more. */
  lemma {:induction false} FreedExact(q: seq<Seg>, ackno: int)
    ensures FreedPbufs(q, ackno) <= Pbufs(q) - Pbufs(DropAcked(q, ackno))
    ensures FreedPbufs(q, ackno) == Pbufs(q) - Pbufs(DropAcked(q, ackno)) <==> ShortFront(q, ackno)
  {
    if q != [] && q[0].End() <= ackno {
      FreedExact(q[1..], ackno);
    }
  }

  lemma AckNewInv(s: Snd, c: Cfg, stream: seq<Byte>, ackno: int)
    requires Inv(s, c, stream) && c.sndBuf <= 0xffff && SpaceFits(s, c, ackno) && s.lastack < ackno <= s.sndNxt
    ensures Inv(AckUnacked(s, ackno, false), c, stream)
  {
    AckFits(s, c, stream, ackno);
    FreedExact(s.unacked, ackno);
    var k := DropAckedShape(s.unacked, ackno);
    var r := AckUnacked(s, ackno, false);
    DropCovers(s.unsent, s.unacked, s.lastack, Top(s, stream), s.unsent, r.unacked, ackno);
  }

  lemma AckUnackedInv(s: Snd, c: Cfg, stream: seq<Byte>, ackno: int, fast: bool)
    requires Inv(s, c, stream) && c.sndBuf <= 0xffff && SpaceFits(s, c, ackno)
    ensures Inv(AckUnacked(s, ackno, fast), c, stream)
  {
    AckedZero(s, c, stream);
    if ackno <= s.lastack {
      RexmitInv(s.(acked := 0), c, stream);
    } else if ackno <= s.sndNxt {
      AckNewInv(s, c, stream, ackno);
      assert AckUnacked(s, ackno, fast) == AckUnacked(s, ackno, false);
    }
  }

  lemma AckUnsentInv(s: Snd, c: Cfg, stream: seq<Byte>, ackno: int)
    requires Inv(s, c, stream) && ackno <= Top(s, stream) && (ackno <= s.sndNxt ==> ackno <= s.lastack)
    ensures Inv(AckUnsent(s, ackno), c, stream)
  {
    if ackno <= s.sndNxt {
      var k := DropAckedShape(s.unsent, ackno);
      FreedExact(s.unsent, ackno);
      var r := AckUnsent(s, ackno);
      DropCovers(s.unsent, s.unacked, s.lastack, Top(s, stream), r.unsent, s.unacked, s.lastack);
      if r.unsent != [] {
        assert r.LastUnsent() == s.LastUnsent();
      }
    }
  }

  /** Processing an acknowledgement keeps the invariant, so that no byte above `lastack` is dropped and `snd_buf`
      stays exact, if and only if the space it frees can be counted. */
  lemma AckInv(s: Snd, c: Cfg, stream: seq<Byte>, ackno: int, fast: bool)
    requires Inv(s, c, stream) && c.sndBuf <= 0xffff
    ensures Inv(Ack(s, ackno, fast), c, stream) <==> SpaceFits(s, c, ackno)
  {
    if SpaceFits(s, c, ackno) {
      AckUnackedInv(s, c, stream, ackno, fast);
      var r := AckUnacked(s, ackno, fast);
      if ackno <= r.sndNxt {
        AckUnsentInv(r, c, stream, ackno);
      }
    } else {
      SpaceLost(s, c, stream, ackno, fast);
    }
  }

  /** `snd_buf` would have to become 0x10000. */
  lemma SpaceLost(s: Snd, c: Cfg, stream: seq<Byte>, ackno: int, fast: bool)
    requires Inv(s, c, stream) && c.sndBuf == 0xffff && s.lastack < ackno <= s.sndNxt && s.sndLbb < ackno
    ensures Ack(s, ackno, fast).sndBuf == 0 && Ack(s, ackno, fast).lastack == s.sndLbb + 1 == ackno
  {
    assert s.sndBuf + (ackno - s.lastack) == 0x1_0000;
  }

  /** The segments that an acknowledgement frees, on both queues, have fewer than 256 pbufs each. */
  predicate ShortAcked(s: Snd, ackno: int, fast: bool) {
    && (s.lastack < ackno <= s.sndNxt ==> ShortFront(s.unacked, ackno))
    && (ackno <= s.sndNxt ==> ShortFront(AckUnacked(s, ackno, fast).unsent, ackno))
  }

  /** An acknowledgement keeps `snd_queuelen` as far from the pbufs queued as it was if and only if it frees no
      segment of 256 pbufs or more; otherwise `snd_queuelen` is left too large. */
  lemma AckLeakExact(s: Snd, c: Cfg, stream: seq<Byte>, ackno: int, fast: bool)
    requires Inv(s, c, stream)
    ensures Leak(Ack(s, ackno, fast)) >= Leak(s)
    ensures Leak(Ack(s, ackno, fast)) == Leak(s) <==> ShortAcked(s, ackno, fast)
  {
    AckUnackedLeak(s, c, stream, ackno, fast);
    var r := AckUnacked(s, ackno, fast);
    FreedExact(r.unsent, ackno);
    assert r.sndNxt == s.sndNxt;
    assert Leak(AckUnsent(r, ackno)) == Leak(r) + if ackno > s.sndNxt then 0 else
      Pbufs(r.unsent) - Pbufs(DropAcked(r.unsent, ackno)) - FreedPbufs(r.unsent, ackno);
  }

  lemma AckUnackedLeak(s: Snd, c: Cfg, stream: seq<Byte>, ackno: int, fast: bool)
    requires Inv(s, c, stream)
    ensures Leak(AckUnacked(s, ackno, fast)) >= Leak(s)
    ensures Leak(AckUnacked(s, ackno, fast)) == Leak(s)
            <==> (s.lastack < ackno <= s.sndNxt ==> ShortFront(s.unacked, ackno))
  {
    if ackno <= s.lastack {
      AckedZero(s, c, stream);
      RexmitInv(s.(acked := 0), c, stream);
    } else {
      FreedExact(s.unacked, ackno);
    }
  }

  /** Freeing the acknowledged segments takes exactly the FIN, if acknowledged, off `acked`. */
  lemma {:induction false} AckedAfterExact(a: nat, q: seq<Seg>, ackno: int, stream: seq<Byte>, closed: bool)
    requires AllAgree(q, stream, closed) && ackno <= |stream| + 1
    requires ackno == |stream| + 1 ==> a >= Count(q, |stream|)
    ensures AckedAfter(a, q, ackno) == a - if ackno == |stream| + 1 then Count(q, |stream|) else 0
    decreases |q|
  {
    if q != [] {
      assert q[0] in q;
      if q[0].End() <= ackno {
        AckedAfterExact(if a != 0 && q[0].fin then a - 1 else a, q[1..], ackno, stream, closed);
      }
    }
  }

  /** The application is told exactly how many of its own bytes an acknowledgement covers, the FIN not among them,
      if and only if its difference fits 16 bits. */
  lemma AckReports(s: Snd, c: Cfg, stream: seq<Byte>, ackno: int, fast: bool)
    requires Inv(s, c, stream) && c.sndBuf <= 0xffff
    ensures Ack(s, ackno, fast).acked ==
            (if s.lastack < ackno <= s.sndNxt then Min(ackno, |stream|) - Min(s.lastack, |stream|) else 0)
            <==> (s.lastack < ackno <= s.sndNxt ==> ackno - s.lastack <= 0xffff)
  {
    var r := AckUnacked(s, ackno, fast);
    if s.lastack < ackno <= s.sndNxt {
      if ackno - s.lastack <= 0xffff {
        if ackno == |stream| + 1 {
          assert Holders(s.unsent, s.unacked, |stream|) == 1;
        }
        AckedAfterExact(ackno - s.lastack, s.unacked, ackno, stream, s.finQueued);
        AckedAfterExact(r.acked, s.unsent, ackno, stream, s.finQueued);
      } else {
        AckedAfterZero(s.unacked, ackno);
        AckedAfterZero(s.unsent, ackno);
      }
    } else if ackno <= s.lastack {
      AckedAfterZero(r.unsent, ackno);
    }
  }

  lemma {:induction false} AckedAfterZero(q: seq<Seg>, ackno: int)
    ensures AckedAfter(0, q, ackno) == 0
    decreases |q|
  {
    if q != [] && q[0].End() <= ackno {
      AckedAfterZero(q[1..], ackno);
    }
  }

  /** A queue sorted and disjoint has increasing ends, so dropping from the front is complete. */
  lemma DropAckedLive(q: seq<Seg>, ackno: int, mss: nat)
    requires Sorted(q) && SegsOk(q, mss) && forall x: int :: Count(q, x) <= 1
    ensures var r := DropAcked(q, ackno);
            Sorted(r) && forall i :: 0 <= i < |r| ==> ackno < r[i].End()
  {
    var k := DropAckedShape(q, ackno);
    var r := DropAcked(q, ackno);
    forall i | 0 <= i < |r| ensures ackno < r[i].End() {
      if i > 0 {
        SortedDisjoint(q, k, k + i);
      }
    }
  }

  lemma AckUnackedOrdered(s: Snd, c: Cfg, stream: seq<Byte>, ackno: int, fast: bool)
    requires Inv(s, c, stream) && Ordered(s)
    ensures var r := AckUnacked(s, ackno, fast);
            && Sorted(r.unsent) && Sorted(r.unacked)
            && (forall i :: 0 <= i < |r.unacked| ==> r.lastack < r.unacked[i].End())
            && (r.lastack == s.lastack ==> Ordered(r))
  {
    if ackno <= s.lastack {
      RexmitOrdered(s.(acked := 0), MssLocal(s, c));
    } else if ackno <= s.sndNxt {
      assert forall x: int :: Count(s.unacked, x) <= Holders(s.unsent, s.unacked, x);
      DropAckedLive(s.unacked, ackno, MssLocal(s, c));
    }
  }

  lemma AckUnsentOrdered(r: Snd, ackno: int, mss: nat)
    requires SegsOk(r.unsent, mss) && (forall x: int :: Count(r.unsent, x) <= 1)
    requires Sorted(r.unsent) && Sorted(r.unacked) && ackno <= r.sndNxt
    requires (forall i :: 0 <= i < |r.unacked| ==> r.lastack < r.unacked[i].End()) && (r.lastack == ackno || Ordered(r))
    ensures Ordered(AckUnsent(r, ackno))
  {
    DropAckedLive(r.unsent, ackno, mss);
    var k := DropAckedShape(r.unsent, ackno);
  }

  /** Acknowledgements keep both queues sorted and free of anything acknowledged. */
  lemma AckOrdered(s: Snd, c: Cfg, stream: seq<Byte>, ackno: int, fast: bool)
    requires Inv(s, c, stream) && Ordered(s)
    ensures Ordered(Ack(s, ackno, fast))
  {
    AckUnackedOrdered(s, c, stream, ackno, fast);
    var r := AckUnacked(s, ackno, fast);
    if ackno <= r.sndNxt {
      AckUnackedSegs(s, c, stream, ackno, fast);
      AckUnsentOrdered(r, ackno, MssLocal(s, c));
    }
  }

  /** What the second part finds on `unsent`. */
  lemma AckUnackedSegs(s: Snd, c: Cfg, stream: seq<Byte>, ackno: int, fast: bool)
    requires Inv(s, c, stream)
    ensures var r := AckUnacked(s, ackno, fast);
            SegsOk(r.unsent, MssLocal(s, c)) && forall x: int :: Count(r.unsent, x) <= 1
  {
    var r := AckUnacked(s, ackno, fast);
    if ackno <= s.lastack {
      AckedZero(s, c, stream);
      RexmitInv(s.(acked := 0), c, stream);
    }
    assert forall x: int :: Count(r.unsent, x) <= Holders(r.unsent, r.unacked, x);
    assert forall x: int :: Count(s.unsent, x) <= Holders(s.unsent, s.unacked, x);
  }

  // ----- segments of fewer than 256 pbufs -----

  lemma {:induction false} ChunksShort(lbb: int, data: seq<Byte>, pos: nat, mss: nat, clen: nat)
    ensures forall g :: g in Chunks(lbb, data, pos, mss, clen) ==> g.clen == clen
    decreases |data| - pos
  {
    if pos < |data| && mss != 0 {
      ChunksShort(lbb, data, pos + Min(|data| - pos, mss), mss, clen);
    }
  }

  /** A write that chains nothing to a segment of 255 pbufs makes no longer one. */
  lemma WriteShort(s: Snd, c: Cfg, data: seq<Byte>, copy: bool, nodelay: bool, more: bool)
    requires CanSegment(s, c, |data|) && Short(s)
    requires s.unsent != [] && Phase2(s, c, |data|) > 0 ==> s.LastUnsent().clen < 0xff
    ensures Short(Written(s, c, data, copy, nodelay, more))
  {
    var q, n := NewSegments(s, c, data, copy), TailBytes(s, c, |data|);
    ChunksShort(s.sndLbb, data, n, MssLocal(s, c), if copy then 1 else 2);
    if s.unsent != [] {
      assert s.LastUnsent() in s.unsent;
      var m := |s.unsent| - 1;
      assert forall g :: g in s.unsent[..m] ==> g in s.unsent;
    }
  }

  lemma FinShort(s: Snd)
    requires Short(s)
    ensures Short(FinSent(s))
  {
    if s.unsent != [] {
      assert s.LastUnsent() in s.unsent;
    }
  }

  lemma PutUnackedMembers(q: seq<Seg>, g: Seg)
    ensures forall h :: h in PutUnacked(q, g) ==> h == g || h in q
  {
    InsertSortedMembers(q, g);
  }

  lemma {:induction false} OutputShort(s: Snd, c: Cfg, k: Control)
    requires Short(s)
    ensures Short(Output(s, c, k))
    decreases |s.unsent|
  {
    if MaySend(s, c, k) {
      var g, r := s.unsent[0], OutputOne(s);
      assert s.unsent == [g] + s.unsent[1..];
      PutUnackedMembers(s.unacked, g);
      assert Short(r);
      OutputShort(r, c, k);
    }
  }

  lemma RexmitShort(s: Snd)
    requires Short(s)
    ensures Short(Rexmit(s))
  {
    if s.unacked != [] {
      assert s.unacked == [s.unacked[0]] + s.unacked[1..];
      InsertSortedMembers(s.unsent, s.unacked[0]);
    }
  }

  lemma {:induction false} DropAckedShort(q: seq<Seg>, ackno: int)
    requires forall g :: g in q ==> g.clen < 0x100
    ensures ShortFront(q, ackno) && forall g :: g in DropAcked(q, ackno) ==> g.clen < 0x100
  {
    if q != [] && q[0].End() <= ackno {
      assert q == [q[0]] + q[1..];
      DropAckedShort(q[1..], ackno);
    }
  }

  /** While no segment has 256 pbufs, an acknowledgement keeps `snd_queuelen` exact. */
  lemma AckShort(s: Snd, ackno: int, fast: bool)
    requires Short(s)
    ensures Short(Ack(s, ackno, fast)) && ShortAcked(s, ackno, fast)
  {
    var r := AckUnacked(s, ackno, fast);
    RexmitShort(s.(acked := 0));
    DropAckedShort(s.unacked, ackno);
    DropAckedShort(r.unsent, ackno);
  }

  // ----- where the exact conditions come from -----

  /** While no fast retransmission waits on `unsent`, the last unsent segment ends at `snd_lbb`,
      so writing and closing are sound. */
  lemma TailFromSeparated(s: Snd, c: Cfg, stream: seq<Byte>)
    requires Inv(s, c, stream) && !s.finQueued && Ordered(s) && Separated(s)
    ensures TailOk(s)
  {
    if s.unsent != [] && s.LastUnsent().DataEnd() != s.sndLbb {
      var m := |s.unsent| - 1;
      var g := s.unsent[m];
      assert Agrees(g, stream, false) && s.lastack < g.End() < |stream|;
      var x := |stream| - 1;
      assert Holders(s.unsent, s.unacked, x) == 1;
      assert Holders(s.unsent, s.unacked, g.seqno) <= 1;
      if Count(s.unsent, x) >= 1 {
        var i := CountHolder(s.unsent, x);
        if i < m {
          SortedDisjoint(s.unsent, i, m);
        }
        assert false;
      } else {
        var j := CountHolder(s.unacked, x);
        assert s.unacked[j].seqno <= s.unacked[|s.unacked| - 1].seqno;
        assert s.unsent[0].seqno <= g.seqno;
        DistinctQueues(s, m, j, g.seqno);
        assert false;
      }
    }
  }

  /** The largest announced window only grows, and with it the segment limit. */
  lemma WindowGrows(s: Snd, c: Cfg, stream: seq<Byte>, wnd: nat)
    requires Inv(s, c, stream) && s.wndMax <= wnd
    ensures Inv(s.(wndMax := wnd), c, stream)
  {
  }
}
