/**
 When `pbuf_copy` refuses to copy: its two pointers as a walk over the payload lengths of the chains,
 and what the lengths must be for the walk to end well.
 */
module PbufWalk {

  datatype Err = OK | ARG | VAL

  function Min(a: int, b: int): int { if a < b then a else b }

  /** The bytes from pbuf `i` on. */
  function BytesFrom(s: seq<nat>, i: nat): nat
    decreases |s| - i
  {
    if i >= |s| then 0 else s[i] + BytesFrom(s, i + 1)
  }

  /** Pbuf `i` looks like the end of a packet in a queue: it has a successor, but no bytes are behind it. */
  predicate Hollow(s: seq<nat>, i: nat) { i + 1 < |s| && BytesFrom(s, i + 1) == 0 }

  /** The last pbuf is not empty, unless it is the only one. */
  predicate Whole(s: seq<nat>) { |s| == 1 || (s != [] && s[|s| - 1] > 0) }

  // ----- the walk -----

  /** Byte `o` of source pbuf `i` and byte `p` of target pbuf `j`. */
  datatype Pointers = Pointers(i: nat, o: nat, j: nat, p: nat)

  const Start: Pointers := Pointers(0, 0, 0, 0)

  predicate At(f: seq<nat>, t: seq<nat>, w: Pointers) { w.i < |f| && w.j < |t| && w.o <= f[w.i] && w.p <= t[w.j] }

  /** One round: a pointer whose pbuf is used up moves on. */
  function Step(f: seq<nat>, t: seq<nat>, w: Pointers): Pointers
    requires At(f, t, w)
  {
    var n := Min(f[w.i] - w.o, t[w.j] - w.p);
    Pointers(if w.o + n == f[w.i] then w.i + 1 else w.i, if w.o + n == f[w.i] then 0 else w.o + n,
             if w.p + n == t[w.j] then w.j + 1 else w.j, if w.p + n == t[w.j] then 0 else w.p + n)
  }

  lemma StepIs(f: seq<nat>, t: seq<nat>, w: Pointers, n: nat, v: Pointers)
    requires At(f, t, w) && n == Min(t[w.j] - w.p, f[w.i] - w.o)
    requires (v.i, v.o) == if w.o + n == f[w.i] then (w.i + 1, 0) else (w.i, w.o + n)
    requires (v.j, v.p) == if w.p + n == t[w.j] then (w.j + 1, 0) else (w.j, w.p + n)
    ensures Step(f, t, w) == v
  {
  }

  /** What the loop returns, with its checks after every round. */
  function Outcome(f: seq<nat>, t: seq<nat>, w: Pointers): Err
    requires At(f, t, w)
    decreases |f| - w.i + |t| - w.j
  {
    var v := Step(f, t, w);
    if v.j == |t| && v.i < |f| then ARG
    else if Hollow(f, v.i) || Hollow(t, v.j) then VAL
    else if v.i == |f| then OK
    else Outcome(f, t, v)
  }

  // ----- which lengths are accepted -----

  /** Some round leaves the target pointer at pbuf `j`, provided that none before it is refused.  The source is one
      packet, or a pbuf that fits the first of the target and an empty one behind it. */
  predicate Stands(f: seq<nat>, t: seq<nat>, j: nat)
    requires f != [] && j < |t|
  {
    if j == 0 then f[0] < t[0]
    else if !Whole(f) then f[0] == t[0] && (j == 1 || (j == 2 && t[1] == 0))
    else if BytesFrom(f, 0) == 0 then j == 1 && t[0] == 0
    else Reaches(t, BytesFrom(t, 0) - BytesFrom(f, 0), j)
  }

  /** With `spare` bytes more than the source, the target pointer comes to pbuf `j`: bytes are left to go there or
      behind, or the last one filled the pbuf in front of it. */
  predicate Reaches(t: seq<nat>, spare: int, j: nat)
    requires 0 < j < |t|
  {
    BytesFrom(t, j) > spare || (BytesFrom(t, j) == spare && t[j - 1] > 0)
  }

  /** The source is one packet, or one pbuf that fits into the first one of the target, with an empty one behind it
      and room for the pointer to move on. */
  predicate SourceOk(f: seq<nat>, t: seq<nat>)
    requires f != [] && t != []
  {
    Whole(f) || (|f| == 2 && f[0] <= t[0] && (f[0] < t[0] || |t| > 1))
  }

  predicate Accepts(f: seq<nat>, t: seq<nat>)
    requires f != [] && t != []
  {
    SourceOk(f, t) && forall j: nat :: j < |t| && Hollow(t, j) ==> !Stands(f, t, j)
  }

  // ----- the walk is refused exactly otherwise -----

  lemma {:induction false} FromMono(s: seq<nat>, a: nat, b: nat)
    requires a <= b
    ensures BytesFrom(s, b) <= BytesFrom(s, a)
    decreases b - a
  {
    if a < b {
      FromMono(s, a + 1, b);
    }
  }

  lemma FromWhole(s: seq<nat>, i: nat)
    requires i < |s| && s[|s| - 1] > 0
    ensures BytesFrom(s, i) > 0 && !Hollow(s, i)
  {
    FromMono(s, i, |s| - 1);
    if i + 1 < |s| {
      FromMono(s, i + 1, |s| - 1);
    }
  }

  /** After a round a pointer stands inside its pbuf, or at the start of a later one. */
  predicate Settled(s: seq<nat>, i: nat, o: nat) { i < |s| && (o < s[i] || (i > 0 && o == 0)) }

  /** Both pointers stand like that, past the checks, with `spare` bytes more in the target than in the source. */
  predicate Going(f: seq<nat>, t: seq<nat>, w: Pointers, spare: nat) {
    && Settled(f, w.i, w.o) && Settled(t, w.j, w.p) && !Hollow(f, w.i) && !Hollow(t, w.j)
    && BytesFrom(t, w.j) - w.p == BytesFrom(f, w.i) - w.o + spare
  }

  /** A round takes as many bytes off either side. */
  lemma StepGoes(f: seq<nat>, t: seq<nat>, w: Pointers, spare: nat)
    requires At(f, t, w) && BytesFrom(t, w.j) - w.p == BytesFrom(f, w.i) - w.o + spare
    ensures var v := Step(f, t, w);
            && BytesFrom(t, v.j) - v.p == BytesFrom(f, v.i) - v.o + spare
            && (v.i < |f| ==> (v.i > w.i && v.o == 0) || v.o < f[v.i])
            && (v.j < |t| ==> (v.j > w.j && v.p == 0) || v.p < t[v.j])
  {
  }

  /** Where the target pointer stops when the source is used up. */
  lemma StopsAt(t: seq<nat>, j: nat, p: nat, spare: nat, k: nat)
    requires Settled(t, j, p) && BytesFrom(t, j) - p == spare && j < k < |t|
    ensures !Reaches(t, spare, k)
  {
    FromMono(t, j + 1, k);
    if k - 1 > j {
      FromMono(t, j + 1, k - 1);
    }
  }

  /** One packet is refused exactly at a hollow target pbuf that the pointer comes to. */
  lemma {:induction false} PacketGoes(f: seq<nat>, t: seq<nat>, w: Pointers, spare: nat)
    requires Going(f, t, w, spare) && f[|f| - 1] > 0
    ensures !Outcome(f, t, w).ARG?
    ensures Outcome(f, t, w).OK? <==> forall k: nat :: w.j < k < |t| && Hollow(t, k) ==> !Reaches(t, spare, k)
    decreases |f| - w.i + |t| - w.j
  {
    var v := Step(f, t, w);
    StepGoes(f, t, w, spare);
    FromWhole(f, w.i);
    if v.i < |f| {
      FromWhole(f, v.i);
    }
    if v.i < |f| && !Hollow(t, v.j) {
      PacketGoes(f, t, v, spare);
    } else if Hollow(t, v.j) {
      assert w.j < v.j < |t| && Reaches(t, spare, v.j);
    } else {
      forall k: nat | w.j < k < |t| && Hollow(t, k) ensures !Reaches(t, spare, k) {
        if v.j < k {
          StopsAt(t, v.j, v.p, spare, k);
        }
      }
    }
  }

  /** A source that ends in an empty pbuf, further on, is refused. */
  lemma {:induction false} QueueGoes(f: seq<nat>, t: seq<nat>, w: Pointers, spare: nat)
    requires Going(f, t, w, spare) && w.i + 1 < |f| && f[|f| - 1] == 0
    ensures Outcome(f, t, w).VAL?
    decreases |f| - w.i + |t| - w.j
  {
    var v := Step(f, t, w);
    StepGoes(f, t, w, spare);
    assert BytesFrom(f, w.i + 1) > 0;
    assert v.i + 1 < |f| by {
      assert BytesFrom(f, |f|) == 0 && BytesFrom(f, |f| - 1) == 0;
    }
    if !Hollow(f, v.i) && !Hollow(t, v.j) {
      QueueGoes(f, t, v, spare);
    }
  }

  /** An empty pbuf at the end of the source costs one more round. */
  lemma EmptyGoes(f: seq<nat>, t: seq<nat>, w: Pointers)
    requires Settled(t, w.j, w.p) && w.i > 0 && w.i + 1 == |f| && f[w.i] == 0 && w.o == 0
    ensures !Outcome(f, t, w).ARG?
    ensures Outcome(f, t, w).OK? <==> if t[w.j] == 0 then !Hollow(t, w.j + 1) else !Hollow(t, w.j)
  {
    assert Step(f, t, w).i == |f|;
  }

  /** What the first round does. */
  lemma FirstRound(f: seq<nat>, t: seq<nat>)
    requires f != [] && t != [] && BytesFrom(f, 0) <= BytesFrom(t, 0)
    ensures var v := Step(f, t, Start);
            && v.i == (if f[0] <= t[0] then 1 else 0) && v.j == (if t[0] <= f[0] then 1 else 0)
            && BytesFrom(t, v.j) - v.p == BytesFrom(f, v.i) - v.o + (BytesFrom(t, 0) - BytesFrom(f, 0))
            && (v.i < |f| ==> Settled(f, v.i, v.o)) && (v.j < |t| ==> Settled(t, v.j, v.p))
            && (v.j == |t| && v.i < |f| <==> |t| == 1 && |f| > 1 && f[0] == t[0])
  {
    StepGoes(f, t, Start, BytesFrom(t, 0) - BytesFrom(f, 0));
  }

  /** `pbuf_copy` accepts exactly such chains; ERR_ARG means that the target is a single pbuf, filled by the first one
      of the source, and that empty ones follow. */
  lemma OutcomeExact(f: seq<nat>, t: seq<nat>)
    requires f != [] && t != [] && BytesFrom(f, 0) <= BytesFrom(t, 0)
    ensures Outcome(f, t, Start).OK? <==> Accepts(f, t)
    ensures Outcome(f, t, Start).ARG? <==> |t| == 1 && |f| > 1 && f[0] == t[0]
  {
    var v := Step(f, t, Start);
    FirstRound(f, t);
    if v.j == |t| && v.i < |f| {
      FullAtOnce(f, t);
    } else if Hollow(f, v.i) {
      SourceRefused(f, t);
    } else if |f| == 1 {
      OneSource(f, t);
    } else if f[|f| - 1] > 0 {
      PacketSource(f, t);
    } else {
      QueueSource(f, t);
    }
  }

  lemma FullAtOnce(f: seq<nat>, t: seq<nat>)
    requires |t| == 1 && |f| > 1 && f[0] == t[0] && BytesFrom(f, 0) <= BytesFrom(t, 0)
    ensures !Accepts(f, t) && Outcome(f, t, Start).ARG?
  {
    FirstRound(f, t);
    assert BytesFrom(t, 1) == 0 && BytesFrom(f, 1) == 0;
    FromMono(f, 1, |f| - 1);
  }

  lemma SourceRefused(f: seq<nat>, t: seq<nat>)
    requires f != [] && t != [] && BytesFrom(f, 0) <= BytesFrom(t, 0)
    requires Hollow(f, if f[0] <= t[0] then 1 else 0) && !(|t| == 1 && f[0] == t[0])
    ensures !Accepts(f, t) && Outcome(f, t, Start).VAL?
  {
    FirstRound(f, t);
    var i := if f[0] <= t[0] then 1 else 0;
    FromMono(f, i + 1, |f| - 1);
  }

  /** The source is a single pbuf. */
  lemma OneSource(f: seq<nat>, t: seq<nat>)
    requires |f| == 1 && t != [] && BytesFrom(f, 0) <= BytesFrom(t, 0)
    ensures Outcome(f, t, Start).OK? <==> Accepts(f, t)
    ensures !Outcome(f, t, Start).ARG?
  {
    var v, spare := Step(f, t, Start), BytesFrom(t, 0) - BytesFrom(f, 0);
    FirstRound(f, t);
    assert BytesFrom(f, 0) == f[0] && !Hollow(f, v.i);
    if v.i < |f| && !Hollow(t, v.j) {
      PacketGoes(f, t, v, spare);
      assert forall k: nat :: 0 < k < |t| && Hollow(t, k) ==> v.j < k || !Reaches(t, spare, k);
    } else if v.i == |f| {
      forall k: nat | v.j < k < |t| ensures !Stands(f, t, k) {
        StopsAt(t, v.j, v.p, spare, k);
      }
    }
  }

  /** The source is a packet of several pbufs. */
  lemma PacketSource(f: seq<nat>, t: seq<nat>)
    requires |f| > 1 && f[|f| - 1] > 0 && t != [] && BytesFrom(f, 0) <= BytesFrom(t, 0) && !(|t| == 1 && f[0] == t[0])
    ensures Outcome(f, t, Start).OK? <==> Accepts(f, t)
    ensures !Outcome(f, t, Start).ARG?
  {
    var v, spare := Step(f, t, Start), BytesFrom(t, 0) - BytesFrom(f, 0);
    FirstRound(f, t);
    FromWhole(f, 0);
    FromWhole(f, v.i);
    if !Hollow(t, v.j) {
      PacketGoes(f, t, v, spare);
    }
  }

  /** The source ends in an empty pbuf. */
  lemma QueueSource(f: seq<nat>, t: seq<nat>)
    requires |f| > 1 && f[|f| - 1] == 0 && t != [] && BytesFrom(f, 0) <= BytesFrom(t, 0) && !(|t| == 1 && f[0] == t[0])
    requires !Hollow(f, if f[0] <= t[0] then 1 else 0)
    ensures Outcome(f, t, Start).OK? <==> Accepts(f, t)
    ensures !Outcome(f, t, Start).ARG?
  {
    var v, spare := Step(f, t, Start), BytesFrom(t, 0) - BytesFrom(f, 0);
    FirstRound(f, t);
    if v.i + 1 < |f| {
      if !Hollow(t, v.j) {
        QueueGoes(f, t, v, spare);
      }
    } else {
      assert |f| == 2 && f[0] <= t[0];
      if !Hollow(t, v.j) {
        EmptyGoes(f, t, v);
      }
    }
  }

  /** Into a packet, the condition is that of the source alone. */
  lemma AcceptsPacket(f: seq<nat>, t: seq<nat>)
    requires f != [] && Whole(t)
    ensures Accepts(f, t) <==> SourceOk(f, t)
  {
    forall j: nat | j < |t| ensures !Hollow(t, j) {
      if |t| > 1 {
        FromWhole(t, j);
      }
    }
  }

  // ----- instances -----

  /** A queue of three pbufs is refused; of two, the answer depends on the target. */
  lemma QueueExamples()
    ensures Outcome([1, 0, 0], [2], Start).VAL?
    ensures Outcome([1, 0], [1], Start).ARG?
    ensures Outcome([1, 0], [2], Start).OK?
  {
    assert Step([1, 0, 0], [2], Start) == Pointers(1, 0, 0, 1);
    assert Step([1, 0], [1], Start) == Pointers(1, 0, 1, 0);
    assert Step([1, 0], [2], Start) == Pointers(1, 0, 0, 1);
    assert Step([1, 0], [2], Pointers(1, 0, 0, 1)) == Pointers(2, 0, 0, 1);
  }

  /** A byte into a target that ends in an empty pbuf is refused if the first pbuf has room left. */
  lemma TargetExamples()
    ensures Outcome([1], [2, 0], Start).VAL?
    ensures Outcome([2], [2, 0], Start).OK?
  {
    assert Step([1], [2, 0], Start) == Pointers(1, 0, 0, 1);
    assert Step([2], [2, 0], Start) == Pointers(1, 0, 1, 0);
  }
}
