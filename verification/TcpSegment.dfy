/**
 TCP segments as the queues `unsent`, `unacked` and `ooseq` hold them, and the
 vocabulary in which the queue invariants are stated.

 Sequence numbers are unwrapped integers; `SeqNum` relates them to the 32-bit
 comparisons of the code.  Sequence number 0 is the first data byte after the SYN.
 */
module TcpSegment {

  type Byte = bv8

  function Min(a: int, b: int): int { if a < b then a else b }

  /** The `u16_t` arithmetic of the window and buffer counters. */
  function U16(x: int): (r: nat) ensures r < 0x1_0000 { x % 0x1_0000 }

  /** One queued segment: `struct tcp_seg` with its pbuf chain flattened into `data`,
      `clen` being the number of pbufs in that chain (`pbuf_clen`). */
  datatype Seg = Seg(seqno: int, data: seq<Byte>, fin: bool, clen: nat) {
    /** `TCP_TCPLEN`: the sequence space the segment takes. */
    function TcpLen(): nat { |data| + if fin then 1 else 0 }

    /** First sequence number after the segment. */
    function End(): int { seqno + TcpLen() }

    /** First sequence number after the data of the segment. */
    function DataEnd(): int { seqno + |data| }

    predicate Contains(x: int) { seqno <= x < End() }
  }

  // ----- agreement with the byte stream of the application -----

  /** The segment carries exactly the bytes of `stream` at its place, and carries FIN
      only at the end of a stream that has been closed. */
  predicate Agrees(g: Seg, stream: seq<Byte>, closed: bool) {
    && 0 <= g.seqno
    && g.DataEnd() <= |stream|
    && g.data == stream[g.seqno..g.DataEnd()]
    && (g.fin ==> closed && g.DataEnd() == |stream|)
  }

  predicate AllAgree(q: seq<Seg>, stream: seq<Byte>, closed: bool) {
    forall g :: g in q ==> Agrees(g, stream, closed)
  }

  /** Agreement survives the growth of a stream that is still open. */
  lemma AgreesGrows(g: Seg, stream: seq<Byte>, more: seq<Byte>)
    requires Agrees(g, stream, false)
    ensures Agrees(g, stream + more, false)
  {
    assert (stream + more)[g.seqno..g.DataEnd()] == stream[g.seqno..g.DataEnd()];
  }

  lemma AllAgreeGrows(q: seq<Seg>, stream: seq<Byte>, more: seq<Byte>)
    requires AllAgree(q, stream, false)
    ensures AllAgree(q, stream + more, false)
  {
    forall g | g in q ensures Agrees(g, stream + more, false) {
      AgreesGrows(g, stream, more);
    }
  }

  /** Cutting data off the right keeps agreement of a segment without FIN. */
  lemma AgreesCut(g: Seg, n: nat, stream: seq<Byte>, closed: bool)
    requires Agrees(g, stream, closed) && n <= |g.data|
    ensures Agrees(g.(data := g.data[..n], fin := false), stream, closed)
  {
    assert g.data[..n] == stream[g.seqno..g.seqno + n];
  }

  // ----- how many segments of a queue hold a sequence number -----

  function Count(q: seq<Seg>, x: int): nat {
    if q == [] then 0 else (if q[0].Contains(x) then 1 else 0) + Count(q[1..], x)
  }

  lemma {:induction false} CountConcat(a: seq<Seg>, b: seq<Seg>, x: int)
    ensures Count(a + b, x) == Count(a, x) + Count(b, x)
  {
    if a == [] {
      assert a + b == b;
    } else {
      assert (a + b)[1..] == a[1..] + b;
      CountConcat(a[1..], b, x);
    }
  }

  lemma CountSnoc(q: seq<Seg>, g: Seg, x: int)
    ensures Count(q + [g], x) == Count(q, x) + (if g.Contains(x) then 1 else 0)
  {
    CountConcat(q, [g], x);
    assert [g][1..] == [];
  }

  /** A sequence number held by some segment is counted. */
  lemma {:induction false} CountWitness(q: seq<Seg>, i: nat, x: int)
    requires i < |q| && q[i].Contains(x)
    ensures Count(q, x) >= 1
  {
    if i > 0 {
      CountWitness(q[1..], i - 1, x);
    }
  }

  /** A counted sequence number is held by some segment. */
  lemma {:induction false} CountHolder(q: seq<Seg>, x: int) returns (i: nat)
    requires Count(q, x) >= 1
    ensures i < |q| && q[i].Contains(x)
  {
    if q[0].Contains(x) {
      i := 0;
    } else {
      i := CountHolder(q[1..], x);
      i := i + 1;
    }
  }

  /** Two segments holding the same number count twice. */
  lemma {:induction false} CountTwice(q: seq<Seg>, i: nat, j: nat, x: int)
    requires i < j < |q| && q[i].Contains(x) && q[j].Contains(x)
    ensures Count(q, x) >= 2
  {
    if i == 0 {
      CountWitness(q[1..], j - 1, x);
    } else {
      CountTwice(q[1..], i - 1, j - 1, x);
    }
  }

  lemma {:induction false} CountNone(q: seq<Seg>, x: int)
    requires forall i :: 0 <= i < |q| ==> !q[i].Contains(x)
    ensures Count(q, x) == 0
  {
    if q != [] {
      CountNone(q[1..], x);
    }
  }

  // ----- number of pbufs on a queue -----

  function Pbufs(q: seq<Seg>): nat {
    if q == [] then 0 else q[0].clen + Pbufs(q[1..])
  }

  /** `pbuf_clen` counts in 8 bits. */
  function Clen8(g: Seg): nat { g.clen % 0x100 }

  lemma {:induction false} PbufsConcat(a: seq<Seg>, b: seq<Seg>)
    ensures Pbufs(a + b) == Pbufs(a) + Pbufs(b)
  {
    if a == [] {
      assert a + b == b;
    } else {
      assert (a + b)[1..] == a[1..] + b;
      PbufsConcat(a[1..], b);
    }
  }

  lemma PbufsSnoc(q: seq<Seg>, g: Seg)
    ensures Pbufs(q + [g]) == Pbufs(q) + g.clen
  {
    PbufsConcat(q, [g]);
    assert [g][1..] == [];
  }

  // ----- order -----

  predicate Sorted(q: seq<Seg>) {
    forall i, j :: 0 <= i < j < |q| ==> q[i].seqno < q[j].seqno
  }

  lemma SortedConcat(a: seq<Seg>, b: seq<Seg>, mid: int)
    requires Sorted(a) && Sorted(b)
    requires forall i :: 0 <= i < |a| ==> a[i].seqno < mid
    requires forall i :: 0 <= i < |b| ==> mid <= b[i].seqno
    ensures Sorted(a + b)
  {
    var q := a + b;
    forall i, j | 0 <= i < j < |q| ensures q[i].seqno < q[j].seqno {
      assert i < |a| ==> q[i] == a[i];
      assert j >= |a| ==> q[j] == b[j - |a|];
    }
  }

  /** Insertion that keeps a queue sorted: behind every segment with a smaller number. */
  function InsertSorted(q: seq<Seg>, g: Seg): seq<Seg> {
    if q == [] || !(q[0].seqno < g.seqno) then [g] + q
    else [q[0]] + InsertSorted(q[1..], g)
  }

  lemma {:induction false} InsertSortedCount(q: seq<Seg>, g: Seg, x: int)
    ensures Count(InsertSorted(q, g), x) == Count(q, x) + (if g.Contains(x) then 1 else 0)
  {
    if q == [] || !(q[0].seqno < g.seqno) {
      assert ([g] + q)[1..] == q;
    } else {
      var t := InsertSorted(q[1..], g);
      assert ([q[0]] + t)[1..] == t;
      InsertSortedCount(q[1..], g, x);
    }
  }

  /** Insertion adds `g` and nothing else, at one place. */
  lemma {:induction false} InsertSortedShape(q: seq<Seg>, g: Seg) returns (k: nat)
    ensures k <= |q| && InsertSorted(q, g) == q[..k] + [g] + q[k..]
    ensures forall i :: 0 <= i < k ==> q[i].seqno < g.seqno
    ensures k < |q| ==> q[k].seqno >= g.seqno
  {
    if q == [] || !(q[0].seqno < g.seqno) {
      k := 0;
    } else {
      k := InsertSortedShape(q[1..], g);
      k := k + 1;
      assert q[..k] == [q[0]] + q[1..][..k - 1];
    }
  }

  lemma {:induction false} InsertSortedPbufs(q: seq<Seg>, g: Seg)
    ensures Pbufs(InsertSorted(q, g)) == Pbufs(q) + g.clen
  {
    if q == [] || !(q[0].seqno < g.seqno) {
      assert ([g] + q)[1..] == q;
    } else {
      var t := InsertSorted(q[1..], g);
      assert ([q[0]] + t)[1..] == t;
      InsertSortedPbufs(q[1..], g);
    }
  }

  lemma {:induction false} InsertSortedMembers(q: seq<Seg>, g: Seg)
    ensures forall h :: h in InsertSorted(q, g) <==> h == g || h in q
  {
    if q != [] && q[0].seqno < g.seqno {
      InsertSortedMembers(q[1..], g);
      assert q == [q[0]] + q[1..];
    }
  }

  lemma InsertSortedSorted(q: seq<Seg>, g: Seg)
    requires Sorted(q) && forall i :: 0 <= i < |q| ==> q[i].seqno != g.seqno
    ensures Sorted(InsertSorted(q, g))
  {
    var k := InsertSortedShape(q, g);
    var r := q[..k] + [g] + q[k..];
    forall i, j | 0 <= i < j < |r| ensures r[i].seqno < r[j].seqno {
      assert i < k ==> r[i] == q[i];
      assert j > k ==> r[j] == q[j - 1];
      assert i > k ==> r[i] == q[i - 1];
    }
  }

  /** In a queue that is sorted and holds no number twice, segments do not overlap. */
  lemma SortedDisjoint(q: seq<Seg>, i: nat, j: nat)
    requires Sorted(q) && i < j < |q| && q[j].TcpLen() > 0
    requires Count(q, q[j].seqno) <= 1
    ensures q[i].End() <= q[j].seqno
  {
    if q[i].End() > q[j].seqno {
      CountTwice(q, i, j, q[j].seqno);
    }
  }
}
