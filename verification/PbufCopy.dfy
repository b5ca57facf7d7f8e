/**
 `pbuf_copy_partial`, `pbuf_take` and `pbuf_copy` against the flat bytes of the chains.
 */
module PbufCopy {
  import opened PbufModel
  import opened PbufOps
  import opened PbufResize
  import opened PbufArena
  import opened PbufWalk

  // ----- pbuf_copy_partial -----

  /** At most `n` bytes of `s` from `offset` on. */
  function Window(s: seq<Byte>, offset: nat, n: nat): seq<Byte> {
    s[Min(offset, |s|)..Min(offset + n, |s|)]
  }

  lemma WindowStep(d: seq<Byte>, s: seq<Byte>, offset: nat, n: nat)
    ensures offset >= |d| ==> Window(d + s, offset, n) == Window(s, offset - |d|, n)
    ensures offset <= |d| ==>
              var k := Min(|d| - offset, n); Window(d + s, offset, n) == d[offset..offset + k] + Window(s, 0, n - k)
  {
  }

  /** The bytes behind a pointer. */
  function Bytes(bufs: Bufs, cs: Chains, l: Link): seq<Byte> {
    if l.To? && l.p in cs then Flat(bufs, cs[l.p]) else []
  }

  function Depth(cs: Chains, l: Link): nat { if l.To? && l.p in cs then |cs[l.p]| else 0 }

  lemma BytesUnfold(bufs: Bufs, cs: Chains, x: nat)
    requires Linked(bufs, cs) && x in bufs
    ensures Bytes(bufs, cs, To(x)) == bufs[x].data + Bytes(bufs, cs, bufs[x].next)
    ensures Depth(cs, bufs[x].next) < Depth(cs, To(x)) && (bufs[x].next.To? ==> bufs[x].next.p in bufs)
  {
    Unfold(bufs, cs, x);
    var c := cs[x];
    assert Flat(bufs, c) == bufs[x].data + Flat(bufs, c[1..]);
  }

  /** One round: what is skipped, or copied, and what is left to do. */
  lemma PartialStep(out: seq<Byte>, d: seq<Byte>, left: seq<Byte>, offset: nat, n: nat, all: seq<Byte>)
    requires out + Window(d + left, offset, n) == all
    ensures offset >= |d| ==> out + Window(left, offset - |d|, n) == all
    ensures offset <= |d| ==>
              var k := Min(|d| - offset, n); (out + d[offset..offset + k]) + Window(left, 0, n - k) == all
  {
    WindowStep(d, left, offset, n);
    if offset <= |d| {
      var k := Min(|d| - offset, n);
      assert (out + d[offset..offset + k]) + Window(left, 0, n - k) ==
             out + (d[offset..offset + k] + Window(left, 0, n - k));
    }
  }

  lemma PartialDone(out: seq<Byte>, left: seq<Byte>, offset: nat, n: nat, all: seq<Byte>)
    requires out + Window(left, offset, n) == all && (n == 0 || left == [])
    ensures out == all
  {
  }

  /** One pbuf: it is skipped, or copied from. */
  method PartialRound(d: seq<Byte>, offset: nat, len: nat, out: seq<Byte>, ghost left: seq<Byte>, ghost all: seq<Byte>)
    returns (out': seq<Byte>, offset': nat, len': nat)
    requires out + Window(d + left, offset, len) == all
    ensures out' + Window(left, offset', len') == all
  {
    PartialStep(out, d, left, offset, len, all);
    if offset != 0 && offset >= |d| {
      out', offset', len' := out, offset - |d|, len;
    } else {
      var n := |d| - offset;
      if n > len {
        n := len;
      }
      out', offset', len' := out + d[offset..offset + n], 0, len - n;
    }
  }

  /** `pbuf_copy_partial`: the bytes copied are those of the whole chain from the offset on, as many as
      there are. */
  method PbufCopyPartial(bufs: Bufs, buf: Link, wanted: nat, from: nat, ghost cs: Chains) returns (out: seq<Byte>)
    requires Linked(bufs, cs) && (buf.To? ==> buf.p in bufs)
    ensures out == Window(Bytes(bufs, cs, buf), from, wanted)
  {
    var p := buf;
    var len: nat, offset: nat := wanted, from;
    out := [];
    ghost var all, left := Window(Bytes(bufs, cs, buf), from, wanted), Bytes(bufs, cs, buf);
    while len != 0 && p.To?
      invariant (p.To? ==> p.p in bufs) && left == Bytes(bufs, cs, p)
      invariant out + Window(left, offset, len) == all
      decreases Depth(cs, p)
    {
      BytesUnfold(bufs, cs, p.p);
      left := Bytes(bufs, cs, bufs[p.p].next);
      out, offset, len := PartialRound(bufs[p.p].data, offset, len, out, left, all);
      p := bufs[p.p].next;
    }
    PartialDone(out, left, offset, len, all);
  }

  // ----- writing into a chain -----

  /** `w` copied over the payload from `o` on. */
  function Over(d: seq<Byte>, o: nat, w: seq<Byte>): seq<Byte>
    requires o + |w| <= |d|
  {
    d[..o] + w + d[o + |w|..]
  }

  function Write(bufs: Bufs, q: nat, o: nat, w: seq<Byte>): Bufs
    requires q in bufs && o + |w| <= |bufs[q].data|
  {
    bufs[q := bufs[q].(data := Over(bufs[q].data, o, w))]
  }

  /** Only the bytes of payloads differ, not their lengths. */
  predicate SameSizes(bufs: Bufs, b: Bufs) {
    b.Keys == bufs.Keys && forall x :: x in bufs ==>
      b[x] == bufs[x].(data := b[x].data) && |b[x].data| == |bufs[x].data|
  }

  lemma SameSizesLinked(bufs: Bufs, b: Bufs, cs: Chains)
    requires Linked(bufs, cs) && SameSizes(bufs, b)
    ensures Linked(b, cs)
  {
    forall x | x in b ensures LinkOk(b, cs, x) {
      assert LinkOk(bufs, cs, x);
    }
  }

  /** Writing into one pbuf of a chain overwrites that part of the chain's bytes. */
  lemma {:induction false} WriteFlat(bufs: Bufs, cs: Chains, h: nat, pre: seq<nat>, q: nat, o: nat, w: seq<Byte>,
                                     b: Bufs, m: nat)
    requires Linked(bufs, cs) && h in bufs && q in bufs && cs[h] == pre + cs[q] && q !in pre
    requires o + |w| <= |bufs[q].data| && b == Write(bufs, q, o, w) && m == |Flat(bufs, pre)| + o
    ensures m + |w| <= |Flat(bufs, cs[h])| && Flat(b, cs[h]) == Over(Flat(bufs, cs[h]), m, w)
    ensures Flat(b, pre) == Flat(bufs, pre)
  {
    Unfold(bufs, cs, q);
    ChainShape(bufs, cs, q);
    ChainShape(bufs, cs, h);
    var d, rest := bufs[q].data, cs[q][1..];
    assert cs[q] == [q] + rest;
    WriteParts(bufs, pre, q, rest, o, w, b);
    OverMiddle(Flat(bufs, pre), d, Flat(bufs, rest), o, w);
  }

  lemma {:induction false} WriteParts(bufs: Bufs, pre: seq<nat>, q: nat, rest: seq<nat>, o: nat, w: seq<Byte>, b: Bufs)
    requires q in bufs && q !in pre && q !in rest && (forall x :: x in pre + ([q] + rest) ==> x in bufs)
    requires o + |w| <= |bufs[q].data| && b == Write(bufs, q, o, w)
    ensures Flat(bufs, pre + ([q] + rest)) == Flat(bufs, pre) + (bufs[q].data + Flat(bufs, rest))
    ensures Flat(b, pre + ([q] + rest)) == Flat(bufs, pre) + (Over(bufs[q].data, o, w) + Flat(bufs, rest))
    ensures Flat(b, pre) == Flat(bufs, pre)
  {
    Elsewhere(bufs, b, pre, q, rest);
    FlatSplit(bufs, pre, q, rest);
    FlatSplit(b, pre, q, rest);
  }

  /** Writing into `q` leaves the bytes around it. */
  lemma {:induction false} Elsewhere(bufs: Bufs, b: Bufs, pre: seq<nat>, q: nat, rest: seq<nat>)
    requires q !in pre && q !in rest && (forall x :: x in pre + ([q] + rest) ==> x in bufs)
    requires b.Keys == bufs.Keys && forall x :: x in bufs && x != q ==> b[x] == bufs[x]
    ensures Flat(b, pre) == Flat(bufs, pre) && Flat(b, rest) == Flat(bufs, rest)
  {
    assert forall x :: x in pre || x in rest ==> x in pre + ([q] + rest);
    FlatFrame(bufs, b, pre);
    FlatFrame(bufs, b, rest);
  }

  lemma OverMiddle(u: seq<Byte>, d: seq<Byte>, t: seq<Byte>, o: nat, w: seq<Byte>)
    requires o + |w| <= |d|
    ensures u + (Over(d, o, w) + t) == Over(u + (d + t), |u| + o, w)
  {
  }

  /** The first `m` bytes of `src` have been copied over the bytes of chain `c`; no pbuf outside the
      chain, and nothing but payload bytes, has changed. */
  predicate Progress(b0: Bufs, b: Bufs, c: seq<nat>, src: seq<Byte>, m: nat) {
    && SameSizes(b0, b) && (forall x :: x in b0 && x !in c ==> b[x] == b0[x])
    && m <= |src| && m <= |Flat(b0, c)| && Flat(b, c) == Over(Flat(b0, c), 0, src[..m])
  }

  lemma ProgressStart(b0: Bufs, c: seq<nat>, src: seq<Byte>)
    ensures Progress(b0, b0, c, src, 0)
  {
  }

  lemma OverOver(f: seq<Byte>, src: seq<Byte>, m: nat, n: nat)
    requires m + n <= |src| && m + n <= |f|
    ensures Over(Over(f, 0, src[..m]), m, src[m..m + n]) == Over(f, 0, src[..m + n])
  {
    assert src[..m + n] == src[..m] + src[m..m + n];
  }

  lemma {:induction false} SizesFlat(b0: Bufs, b: Bufs, c: seq<nat>)
    requires SameSizes(b0, b)
    ensures |Flat(b, c)| == |Flat(b0, c)|
  {
    if c != [] {
      SizesFlat(b0, b, c[1..]);
    }
  }

  lemma CopyFlat(b0: Bufs, b: Bufs, b': Bufs, cs: Chains, h: nat, c: seq<nat>, pre: seq<nat>, q: nat, o: nat,
                 src: seq<Byte>, m: nat, n: nat)
    requires Linked(b0, cs) && h in b0 && c == cs[h] && HeadAt(b0, cs, c, pre, q) && Progress(b0, b, c, src, m)
    requires m == |Flat(b0, pre)| + o && m + n <= |src| && o + n <= |b[q].data| && b' == Write(b, q, o, src[m..m + n])
    ensures m + n <= |Flat(b0, c)| && Flat(b', c) == Over(Flat(b0, c), 0, src[..m + n])
  {
    SameSizesLinked(b0, b, cs);
    SizesFlat(b0, b, pre);
    SizesFlat(b0, b, c);
    WriteFlat(b, cs, h, pre, q, o, src[m..m + n], b', m);
    OverOver(Flat(b0, c), src, m, n);
  }

  lemma CopyStep(b0: Bufs, b: Bufs, cs: Chains, h: nat, c: seq<nat>, pre: seq<nat>, q: nat, o: nat, src: seq<Byte>,
                 m: nat, n: nat)
    requires Linked(b0, cs) && h in b0 && c == cs[h] && HeadAt(b0, cs, c, pre, q) && Progress(b0, b, c, src, m)
    requires m == |Flat(b0, pre)| + o && o + n <= |b0[q].data| && m + n <= |src|
    ensures q in b && o + n <= |b[q].data| && Progress(b0, Write(b, q, o, src[m..m + n]), c, src, m + n)
  {
    var b' := Write(b, q, o, src[m..m + n]);
    CopyFlat(b0, b, b', cs, h, c, pre, q, o, src, m, n);
    assert q in c;
  }

  /** How far a position is from the start, and that the end comes after all bytes. */
  lemma NextPosition(b0: Bufs, cs: Chains, h: nat, c: seq<nat>, pre: seq<nat>, q: nat)
    requires Linked(b0, cs) && h in b0 && c == cs[h] && HeadAt(b0, cs, c, pre, q)
    ensures |Flat(b0, pre + [q])| == |Flat(b0, pre)| + |b0[q].data| <= |Flat(b0, c)|
    ensures b0[q].next.To? ==> HeadAt(b0, cs, c, pre + [q], b0[q].next.p) && |pre| + 1 < |c|
    ensures b0[q].next.Nil? ==> |Flat(b0, pre + [q])| == |Flat(b0, c)|
  {
    HeadStep(b0, cs, h, c, pre, q);
    FlatSplit(b0, pre, q, cs[q][1..]);
    assert c == pre + ([q] + cs[q][1..]);
  }

  // ----- pbuf_take -----

  /** `pbuf_take`: the data becomes the first bytes of the chain, or does not fit and nothing changes.  Without a chain
      nothing is copied either, but the code returns 0, which is ERR_OK. */
  method PbufTake(b0: Bufs, buf: Link, data: seq<Byte>, ghost cs: Chains) returns (b: Bufs, err: Err)
    requires Linked(b0, cs) && (buf.To? ==> buf.p in b0 && TotAt(b0, cs, buf.p))
    ensures err == if buf.Nil? || |data| <= |Flat(b0, cs[buf.p])| then OK else ARG
    ensures buf.To? && err.OK? ==> Progress(b0, b, cs[buf.p], data, |data|)
    ensures buf.Nil? || !err.OK? ==> b == b0
  {
    b := b0;
    if buf.Nil? {
      return b, OK;
    }
    if b[buf.p].tot < |data| {
      return b, ARG;
    }
    var p := buf.p;
    var copied: nat := 0;
    ghost var h, c, pre := buf.p, cs[buf.p], [];
    ProgressStart(b0, c, data);
    Unfold(b0, cs, h);
    while copied != |data|
      invariant copied <= |data| && Progress(b0, b, c, data, copied)
      invariant copied < |data| ==> HeadAt(b0, cs, c, pre, p) && copied == |Flat(b0, pre)|
      decreases |c| - |pre|, |data| - copied
    {
      ghost var m := copied;
      NextPosition(b0, cs, h, c, pre, p);
      b, copied := TakeRound(b0, b, p, data, copied, cs, h, pre);
      if copied != |data| {
        pre, p := pre + [p], b[p].next.p;
      }
    }
    err := OK;
  }

  method TakeRound(b0: Bufs, b: Bufs, p: nat, data: seq<Byte>, copied: nat, ghost cs: Chains, ghost h: nat,
                   ghost pre: seq<nat>)
    returns (b': Bufs, now: nat)
    requires Linked(b0, cs) && h in b0 && HeadAt(b0, cs, cs[h], pre, p) && Progress(b0, b, cs[h], data, copied)
    requires copied == |Flat(b0, pre)| && copied < |data|
    ensures p in b' && b'[p].next == b0[p].next && Progress(b0, b', cs[h], data, now)
    ensures now == Min(|data|, copied + |b0[p].data|)
  {
    var n := |data| - copied;
    assert |b[p].data| == |b0[p].data|;
    if n > |b[p].data| {
      n := |b[p].data|;
    }
    CopyStep(b0, b, cs, h, cs[h], pre, p, 0, data, copied, n);
    b' := b[p := b[p].(data := Over(b[p].data, 0, data[copied..copied + n]))];
    now := copied + n;
  }

  // ----- pbuf_copy -----

  /** Chains with the totals right. */
  predicate Totals(b0: Bufs, cs: Chains, c: seq<nat>) { forall x :: x in c ==> x in b0 && x in cs && TotAt(b0, cs, x) }

  /** Of these, one packet each: the last pbuf is not empty, unless it is the only one. */
  predicate Packet(b0: Bufs, cs: Chains, c: seq<nat>) {
    Totals(b0, cs, c) && (|c| > 1 ==> Last(c) in b0 && b0[Last(c)].data != [])
  }

  /** A position `m` bytes into chain `c`: byte `o` of pbuf `q`, or its end. */
  predicate PosAt(b0: Bufs, cs: Chains, c: seq<nat>, pre: seq<nat>, q: nat, o: nat, m: nat) {
    HeadAt(b0, cs, c, pre, q) && o <= |b0[q].data| && m == |Flat(b0, pre)| + o
  }

  /** A pointer into the chain, or its end. */
  predicate PosLink(b0: Bufs, cs: Chains, c: seq<nat>, pre: seq<nat>, l: Link, o: nat, m: nat) {
    if l.To? then PosAt(b0, cs, c, pre, l.p, o, m) else pre == c && m == |Flat(b0, c)|
  }

  lemma SliceMiddle(u: seq<Byte>, d: seq<Byte>, w: seq<Byte>, o: nat, n: nat)
    requires o + n <= |d|
    ensures (u + d + w)[|u| + o..|u| + o + n] == d[o..o + n]
  {
  }

  /** The bytes from a position on are those of its pbuf. */
  lemma Inside(b0: Bufs, cs: Chains, c: seq<nat>, pre: seq<nat>, q: nat, o: nat, m: nat, n: nat)
    requires PosAt(b0, cs, c, pre, q, o, m) && o + n <= |b0[q].data|
    ensures m + n <= |Flat(b0, c)| && Flat(b0, c)[m..m + n] == b0[q].data[o..o + n]
  {
    var rest := cs[q][1..];
    FlatSplit(b0, pre, q, rest);
    assert c == pre + ([q] + rest);
    SliceMiddle(Flat(b0, pre), b0[q].data, Flat(b0, rest), o, n);
  }

  lemma {:induction false} Includes(b0: Bufs, c: seq<nat>, x: nat)
    requires x in c && x in b0
    ensures |Flat(b0, c)| >= |b0[x].data|
  {
    if c[0] != x {
      Includes(b0, c[1..], x);
    }
  }

  /** What `pbuf_copy` takes for a packet queue: a pbuf that ends its packet but has a successor. */
  predicate LooksQueued(b0: Bufs, l: Link) {
    l.To? && l.p in b0 && |b0[l.p].data| == b0[l.p].tot && b0[l.p].next.To?
  }

  // ----- the payload lengths -----

  function Lens(b0: Bufs, c: seq<nat>): (r: seq<nat>)
    ensures |r| == |c|
  {
    seq(|c|, i requires 0 <= i < |c| => if c[i] in b0 then |b0[c[i]].data| else 0)
  }

  lemma {:induction false} LensFrom(b0: Bufs, c: seq<nat>, i: nat)
    requires i <= |c|
    ensures BytesFrom(Lens(b0, c), i) == |Flat(b0, c[i..])|
    decreases |c| - i
  {
    if i < |c| {
      LensFrom(b0, c, i + 1);
      assert c[i..][1..] == c[i + 1..];
    }
  }

  /** The lengths are those of the whole chain. */
  lemma LensTotal(b0: Bufs, c: seq<nat>)
    ensures BytesFrom(Lens(b0, c), 0) == |Flat(b0, c)|
  {
    LensFrom(b0, c, 0);
    assert c[0..] == c;
  }

  /** Where the totals are right, the code's test for a queue finds exactly the pbufs with nothing but empty ones behind
      them. */
  lemma QueueExact(b0: Bufs, cs: Chains, h: nat, k: nat)
    requires Linked(b0, cs) && h in b0 && Totals(b0, cs, cs[h]) && k < |cs[h]|
    ensures LooksQueued(b0, To(cs[h][k])) <==> Hollow(Lens(b0, cs[h]), k)
  {
    var c := cs[h];
    assert c[k] in c && TotAt(b0, cs, c[k]);
    Suffix(b0, cs, h, k);
    LinksAlong(b0, cs, h, k);
    LensFrom(b0, c, k);
    if k + 1 < |c| {
      LensFrom(b0, c, k + 1);
    }
  }

  lemma PacketWhole(b0: Bufs, cs: Chains, h: nat)
    requires Linked(b0, cs) && h in b0 && Packet(b0, cs, cs[h])
    ensures Whole(Lens(b0, cs[h]))
  {
    ChainShape(b0, cs, h);
  }

  /** No pbuf of a packet looks like that. */
  lemma NoQueue(b0: Bufs, cs: Chains, h: nat, q: nat)
    requires Linked(b0, cs) && h in b0 && Packet(b0, cs, cs[h]) && q in cs[h]
    ensures !LooksQueued(b0, To(q))
  {
    var k: nat :| k < |cs[h]| && cs[h][k] == q;
    QueueExact(b0, cs, h, k);
    PacketWhole(b0, cs, h);
    if k + 1 < |cs[h]| {
      FromWhole(Lens(b0, cs[h]), k);
    }
  }

  /** The copying of one round: as much as fits into the current target pbuf. */
  method CopyChunk(b0: Bufs, b: Bufs, pt: nat, ot: nat, pf: nat, of: nat,
                   ghost cs: Chains, ghost t: nat, ghost f: nat, ghost tpre: seq<nat>, ghost fpre: seq<nat>,
                   ghost m: nat)
    returns (b': Bufs, len: nat)
    requires Linked(b0, cs) && t in b0 && f in b0
    requires (forall x :: x in cs[f] ==> x !in cs[t]) && Progress(b0, b, cs[t], Flat(b0, cs[f]), m)
    requires PosAt(b0, cs, cs[t], tpre, pt, ot, m) && PosAt(b0, cs, cs[f], fpre, pf, of, m)
    ensures len == Min(|b0[pt].data| - ot, |b0[pf].data| - of)
    ensures SameSizes(b0, b') && Progress(b0, b', cs[t], Flat(b0, cs[f]), m + len)
  {
    assert pf in cs[f] && b[pf] == b0[pf] && |b[pt].data| == |b0[pt].data|;
    if |b[pt].data| - ot >= |b[pf].data| - of {
      len := |b[pf].data| - of;
    } else {
      len := |b[pt].data| - ot;
    }
    Inside(b0, cs, cs[f], fpre, pf, of, m, len);
    CopyStep(b0, b, cs, t, cs[t], tpre, pt, ot, Flat(b0, cs[f]), m, len);
    b' := b[pt := b[pt].(data := Over(b[pt].data, ot, b[pf].data[of..of + len]))];
  }

  /** On to the next pbuf when the current one is used up. */
  method MoveOn(b0: Bufs, b: Bufs, p: nat, o: nat, len: nat, ghost cs: Chains, ghost h: nat, ghost pre: seq<nat>,
                ghost m: nat)
    returns (l: Link, o': nat, ghost pre': seq<nat>)
    requires Linked(b0, cs) && h in b0 && SameSizes(b0, b)
    requires PosAt(b0, cs, cs[h], pre, p, o, m) && o + len <= |b0[p].data|
    ensures PosLink(b0, cs, cs[h], pre', l, o', m + len) && |pre'| <= |cs[h]| && (l.Nil? ==> o' == 0)
    ensures (|pre'|, o') == if o + len == |b0[p].data| then (|pre| + 1, 0) else (|pre|, o + len)
  {
    NextPosition(b0, cs, h, cs[h], pre, p);
    HeadStep(b0, cs, h, cs[h], pre, p);
    l, o', pre' := To(p), o + len, pre;
    if o' >= |b[p].data| {
      l, o', pre' := b[p].next, 0, pre + [p];
    }
  }

  /** A position in the chain is one among its lengths. */
  lemma PosLens(b0: Bufs, cs: Chains, c: seq<nat>, pre: seq<nat>, q: nat, o: nat, m: nat)
    requires PosAt(b0, cs, c, pre, q, o, m)
    ensures |pre| < |c| && c[|pre|] == q && Lens(b0, c)[|pre|] == |b0[q].data| && o <= Lens(b0, c)[|pre|]
  {
  }

  /** A round is a step of the walk over the lengths. */
  lemma RoundStep(b0: Bufs, cs: Chains, t: nat, f: nat, tpre: seq<nat>, fpre: seq<nat>,
                  pt: nat, ot: nat, pf: nat, of: nat, m: nat, len: nat, v: Pointers)
    requires t in cs && f in cs && PosAt(b0, cs, cs[t], tpre, pt, ot, m) && PosAt(b0, cs, cs[f], fpre, pf, of, m)
    requires len == Min(|b0[pt].data| - ot, |b0[pf].data| - of)
    requires (v.i, v.o) == if of + len == |b0[pf].data| then (|fpre| + 1, 0) else (|fpre|, of + len)
    requires (v.j, v.p) == if ot + len == |b0[pt].data| then (|tpre| + 1, 0) else (|tpre|, ot + len)
    ensures At(Lens(b0, cs[f]), Lens(b0, cs[t]), Pointers(|fpre|, of, |tpre|, ot))
    ensures Step(Lens(b0, cs[f]), Lens(b0, cs[t]), Pointers(|fpre|, of, |tpre|, ot)) == v
  {
    PosLens(b0, cs, cs[f], fpre, pf, of, m);
    PosLens(b0, cs, cs[t], tpre, pt, ot, m);
    StepIs(Lens(b0, cs[f]), Lens(b0, cs[t]), Pointers(|fpre|, of, |tpre|, ot), len, v);
  }

  /** Both positions move on by a chunk. */
  method MoveBoth(b0: Bufs, b: Bufs, pt: nat, ot: nat, pf: nat, of: nat, len: nat,
                  ghost cs: Chains, ghost t: nat, ghost f: nat, ghost tpre: seq<nat>, ghost fpre: seq<nat>,
                  ghost m: nat)
    returns (pt': Link, ot': nat, pf': Link, of': nat, ghost tpre': seq<nat>, ghost fpre': seq<nat>, ghost m': nat)
    requires Linked(b0, cs) && t in b0 && f in b0 && SameSizes(b0, b)
    requires PosAt(b0, cs, cs[t], tpre, pt, ot, m) && PosAt(b0, cs, cs[f], fpre, pf, of, m)
    requires len == Min(|b0[pt].data| - ot, |b0[pf].data| - of)
    ensures m' == m + len
    ensures PosLink(b0, cs, cs[f], fpre', pf', of', m') && |fpre'| <= |cs[f]|
    ensures PosLink(b0, cs, cs[t], tpre', pt', ot', m') && |tpre'| <= |cs[t]|
    ensures At(Lens(b0, cs[f]), Lens(b0, cs[t]), Pointers(|fpre|, of, |tpre|, ot))
    ensures Step(Lens(b0, cs[f]), Lens(b0, cs[t]), Pointers(|fpre|, of, |tpre|, ot)) ==
            Pointers(|fpre'|, of', |tpre'|, ot')
  {
    pf', of', fpre' := MoveOn(b0, b, pf, of, len, cs, f, fpre, m);
    pt', ot', tpre' := MoveOn(b0, b, pt, ot, len, cs, t, tpre, m);
    RoundStep(b0, cs, t, f, tpre, fpre, pt, ot, pf, of, m, len, Pointers(|fpre'|, of', |tpre'|, ot'));
    m' := m + len;
  }

  /** One round of `pbuf_copy`: a chunk is copied, and the positions move on. */
  method CopyRound(b0: Bufs, b: Bufs, pt: nat, ot: nat, pf: nat, of: nat,
                   ghost cs: Chains, ghost t: nat, ghost f: nat, ghost tpre: seq<nat>, ghost fpre: seq<nat>,
                   ghost m: nat)
    returns (b': Bufs, pt': Link, ot': nat, pf': Link, of': nat, ghost tpre': seq<nat>, ghost fpre': seq<nat>,
             ghost m': nat)
    requires Linked(b0, cs) && t in b0 && f in b0
    requires (forall x :: x in cs[f] ==> x !in cs[t]) && Progress(b0, b, cs[t], Flat(b0, cs[f]), m)
    requires PosAt(b0, cs, cs[t], tpre, pt, ot, m) && PosAt(b0, cs, cs[f], fpre, pf, of, m)
    ensures Progress(b0, b', cs[t], Flat(b0, cs[f]), m')
    ensures PosLink(b0, cs, cs[f], fpre', pf', of', m') && |fpre'| <= |cs[f]|
    ensures PosLink(b0, cs, cs[t], tpre', pt', ot', m') && |tpre'| <= |cs[t]|
    ensures At(Lens(b0, cs[f]), Lens(b0, cs[t]), Pointers(|fpre|, of, |tpre|, ot))
    ensures Step(Lens(b0, cs[f]), Lens(b0, cs[t]), Pointers(|fpre|, of, |tpre|, ot)) ==
            Pointers(|fpre'|, of', |tpre'|, ot')
  {
    var len;
    b', len := CopyChunk(b0, b, pt, ot, pf, of, cs, t, f, tpre, fpre, m);
    pt', ot', pf', of', tpre', fpre', m' := MoveBoth(b0, b', pt, ot, pf, of, len, cs, t, f, tpre, fpre, m);
  }

  /** Where the loop of `pbuf_copy` stands: the rest of the walk over the lengths gives what all of it gives. */
  ghost predicate Walks(b0: Bufs, cs: Chains, t: nat, f: nat, tpre: seq<nat>, fpre: seq<nat>, pt: Link, ot: nat,
                        pf: Link, of: nat, end: Err)
    requires t in cs && f in cs
  {
    var fl, tl, w := Lens(b0, cs[f]), Lens(b0, cs[t]), Pointers(|fpre|, of, |tpre|, ot);
    if pf.To? then pt.To? && At(fl, tl, w) && Outcome(fl, tl, w) == end else end.OK?
  }

  /** One pointer against its check. */
  lemma CheckAt(b0: Bufs, b: Bufs, cs: Chains, h: nat, pre: seq<nat>, l: Link, o: nat, m: nat)
    requires Linked(b0, cs) && h in b0 && SameSizes(b0, b) && Totals(b0, cs, cs[h])
    requires PosLink(b0, cs, cs[h], pre, l, o, m)
    ensures LooksQueued(b, l) <==> Hollow(Lens(b0, cs[h]), |pre|)
    ensures l.Nil? <==> |pre| == |cs[h]|
  {
    if l.To? {
      PosLens(b0, cs, cs[h], pre, l.p, o, m);
      QueueExact(b0, cs, h, |pre|);
    }
  }

  /** The checks after a round are those of the walk. */
  lemma RoundWalks(b0: Bufs, b: Bufs, cs: Chains, t: nat, f: nat, tpre: seq<nat>, fpre: seq<nat>,
                   pt: Link, ot: nat, pf: Link, of: nat, m: nat, w: Pointers, end: Err)
    requires Linked(b0, cs) && t in b0 && f in b0 && SameSizes(b0, b)
    requires Totals(b0, cs, cs[f]) && Totals(b0, cs, cs[t])
    requires PosLink(b0, cs, cs[f], fpre, pf, of, m) && PosLink(b0, cs, cs[t], tpre, pt, ot, m)
    requires At(Lens(b0, cs[f]), Lens(b0, cs[t]), w) && Outcome(Lens(b0, cs[f]), Lens(b0, cs[t]), w) == end
    requires Step(Lens(b0, cs[f]), Lens(b0, cs[t]), w) == Pointers(|fpre|, of, |tpre|, ot)
    ensures if pt.Nil? && pf.To? then end.ARG?
            else if LooksQueued(b, pf) || LooksQueued(b, pt) then end.VAL?
            else Walks(b0, cs, t, f, tpre, fpre, pt, ot, pf, of, end)
  {
    CheckAt(b0, b, cs, f, fpre, pf, of, m);
    CheckAt(b0, b, cs, t, tpre, pt, ot, m);
    if pf.To? && pt.To? {
      PosLens(b0, cs, cs[f], fpre, pf.p, of, m);
      PosLens(b0, cs, cs[t], tpre, pt.p, ot, m);
    }
  }

  /** What the loop of `pbuf_copy` keeps. */
  ghost predicate Copying(b0: Bufs, b: Bufs, cs: Chains, t: nat, f: nat, tpre: seq<nat>, fpre: seq<nat>,
                          pt: Link, ot: nat, pf: Link, of: nat, m: nat, end: Err)
    requires t in cs && f in cs
  {
    && Progress(b0, b, cs[t], Flat(b0, cs[f]), m)
    && PosLink(b0, cs, cs[f], fpre, pf, of, m) && |fpre| <= |cs[f]|
    && PosLink(b0, cs, cs[t], tpre, pt, ot, m) && |tpre| <= |cs[t]|
    && Walks(b0, cs, t, f, tpre, fpre, pt, ot, pf, of, end)
  }

  lemma CopyStart(b0: Bufs, cs: Chains, t: nat, f: nat)
    requires Linked(b0, cs) && t in b0 && f in b0
    ensures cs[f] != [] && cs[t] != []
    ensures Copying(b0, b0, cs, t, f, [], [], To(t), 0, To(f), 0, 0, Outcome(Lens(b0, cs[f]), Lens(b0, cs[t]), Start))
  {
    Unfold(b0, cs, t);
    Unfold(b0, cs, f);
    ProgressStart(b0, cs[t], Flat(b0, cs[f]));
    PosLens(b0, cs, cs[f], [], f, 0, 0);
    PosLens(b0, cs, cs[t], [], t, 0, 0);
  }

  /** A round and its checks. */
  method CopyTurn(b0: Bufs, b: Bufs, pt: nat, ot: nat, pf: nat, of: nat, ghost cs: Chains, ghost t: nat, ghost f: nat,
                  ghost tpre: seq<nat>, ghost fpre: seq<nat>, ghost m: nat, ghost end: Err)
    returns (b': Bufs, pt': Link, ot': nat, pf': Link, of': nat, err: Err, ghost tpre': seq<nat>,
             ghost fpre': seq<nat>, ghost m': nat)
    requires Linked(b0, cs) && t in b0 && f in b0 && Totals(b0, cs, cs[t]) && Totals(b0, cs, cs[f])
    requires (forall x :: x in cs[f] ==> x !in cs[t])
    requires Copying(b0, b, cs, t, f, tpre, fpre, To(pt), ot, To(pf), of, m, end)
    ensures Progress(b0, b', cs[t], Flat(b0, cs[f]), m') && (!err.OK? ==> err == end)
    ensures err.OK? ==> Copying(b0, b', cs, t, f, tpre', fpre', pt', ot', pf', of', m', end)
    ensures |fpre'| <= |cs[f]| && |tpre'| <= |cs[t]| && |fpre'| + |tpre'| > |fpre| + |tpre|
  {
    ghost var w := Pointers(|fpre|, of, |tpre|, ot);
    b', pt', ot', pf', of', tpre', fpre', m' := CopyRound(b0, b, pt, ot, pf, of, cs, t, f, tpre, fpre, m);
    RoundWalks(b0, b', cs, t, f, tpre', fpre', pt', ot', pf', of', m', w, end);
    err := OK;
    if pt'.Nil? && pf'.To? {
      err := ARG;
    } else if LooksQueued(b', pf') || LooksQueued(b', pt') {
      err := VAL;
    }
  }

  /** The loop of `pbuf_copy`: it ends as the walk over the lengths does, with `m` bytes copied. */
  method CopyAll(b0: Bufs, to: nat, from: nat, ghost cs: Chains) returns (b: Bufs, err: Err, ghost m: nat)
    requires Linked(b0, cs) && to in b0 && from in b0 && Totals(b0, cs, cs[to]) && Totals(b0, cs, cs[from])
    requires forall x :: x in cs[from] ==> x !in cs[to]
    ensures Progress(b0, b, cs[to], Flat(b0, cs[from]), m) && (err.OK? ==> m == |Flat(b0, cs[from])|)
    ensures cs[from] != [] && cs[to] != [] && err == Outcome(Lens(b0, cs[from]), Lens(b0, cs[to]), Start)
  {
    var pt, pf := To(to), To(from);
    var ot: nat, of: nat := 0, 0;
    ghost var tpre, fpre := [], [];
    b, m, err := b0, 0, OK;
    CopyStart(b0, cs, to, from);
    ghost var end := Outcome(Lens(b0, cs[from]), Lens(b0, cs[to]), Start);
    while pf.To?
      invariant err.OK? && Copying(b0, b, cs, to, from, tpre, fpre, pt, ot, pf, of, m, end)
      decreases |cs[from]| - |fpre| + |cs[to]| - |tpre|
    {
      b, pt, ot, pf, of, err, tpre, fpre, m :=
        CopyTurn(b0, b, pt.p, ot, pf.p, of, cs, to, from, tpre, fpre, m, end);
      if !err.OK? {
        return;
      }
    }
  }

  /** What the lengths say of the answer. */
  lemma CopyExact(b0: Bufs, cs: Chains, to: nat, from: nat, err: Err)
    requires Linked(b0, cs) && to in b0 && from in b0 && cs[from] != [] && cs[to] != []
    requires |Flat(b0, cs[from])| <= |Flat(b0, cs[to])|
    requires err == Outcome(Lens(b0, cs[from]), Lens(b0, cs[to]), Start)
    ensures var f, t := Lens(b0, cs[from]), Lens(b0, cs[to]);
            && (err.OK? <==> Accepts(f, t)) && (err.ARG? <==> |t| == 1 && |f| > 1 && f[0] == t[0])
            && (Whole(t) ==> (err.OK? <==> SourceOk(f, t)))
            && (Packet(b0, cs, cs[from]) && Packet(b0, cs, cs[to]) ==> err.OK?)
  {
    var f, t := Lens(b0, cs[from]), Lens(b0, cs[to]);
    LensTotal(b0, cs[from]);
    LensTotal(b0, cs[to]);
    OutcomeExact(f, t);
    if Whole(t) {
      AcceptsPacket(f, t);
    }
    if Packet(b0, cs, cs[from]) && Packet(b0, cs, cs[to]) {
      PacketWhole(b0, cs, from);
      PacketWhole(b0, cs, to);
    }
  }

  /** `pbuf_copy`: the bytes of `from` become the first bytes of `to`, unless `to` is too small.  Chains of these
      lengths
      are refused, with `m` bytes copied, exactly when `Accepts` does not hold; into a packet that is when the source
      ends in an empty pbuf, except for one pbuf that fits into the first of the target and an empty one. */
  method PbufCopy(b0: Bufs, to: Link, from: Link, ghost cs: Chains) returns (b: Bufs, err: Err, ghost m: nat)
    requires Linked(b0, cs) && (to.To? ==> to.p in b0 && Totals(b0, cs, cs[to.p]))
    requires (from.To? ==> from.p in b0 && Totals(b0, cs, cs[from.p]))
    requires to.To? && from.To? ==> forall x :: x in cs[from.p] ==> x !in cs[to.p]
    ensures to.Nil? || from.Nil? || |Flat(b0, cs[from.p])| > |Flat(b0, cs[to.p])| ==> err.ARG? && b == b0
    ensures to.To? && from.To? && |Flat(b0, cs[from.p])| <= |Flat(b0, cs[to.p])| ==>
              var f, t := Lens(b0, cs[from.p]), Lens(b0, cs[to.p]);
              && f != [] && t != []
              && (err.OK? <==> Accepts(f, t)) && (err.ARG? <==> |t| == 1 && |f| > 1 && f[0] == t[0])
              && (Whole(t) ==> (err.OK? <==> SourceOk(f, t)))
              && (Packet(b0, cs, cs[from.p]) && Packet(b0, cs, cs[to.p]) ==> err.OK?)
              && (err.OK? ==> m == |Flat(b0, cs[from.p])|)
              && Progress(b0, b, cs[to.p], Flat(b0, cs[from.p]), m)
  {
    if to.Nil? || from.Nil? {
      return b0, ARG, 0;
    }
    Unfold(b0, cs, to.p);
    Unfold(b0, cs, from.p);
    assert to.p in cs[to.p] && from.p in cs[from.p] && TotAt(b0, cs, to.p) && TotAt(b0, cs, from.p);
    if b0[to.p].tot < b0[from.p].tot {
      return b0, ARG, 0;
    }
    b, err, m := CopyAll(b0, to.p, from.p, cs);
    CopyExact(b0, cs, to.p, from.p, err);
  }
}
