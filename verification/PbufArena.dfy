/**
 The in-place code of pbuf.c: `pbuf_ref`, `pbuf_cat`, `pbuf_chain`, `pbuf_free`, `pbuf_realloc`,
 `pbuf_dechain` and `pbuf_header` on pbufs in memory, equal to `PbufOps` and `PbufResize`.
 */
module PbufArena {
  import opened PbufModel
  import opened PbufOps
  import opened PbufResize

  /** While `pbuf_cat` walks along the head: the totals of `pre` are done. */
  function CatUpTo(bufs: Bufs, pre: seq<nat>, t: nat): Bufs
    requires t in bufs
  {
    map x | x in bufs ::
      if x in pre then bufs[x].(tot := (bufs[x].tot + bufs[t].tot) % 0x1_0000) else bufs[x]
  }

  lemma CatStep(bufs: Bufs, pre: seq<nat>, t: nat, x: nat, b: Bufs)
    requires t in bufs && x in bufs && t !in pre && x !in pre && b == CatUpTo(bufs, pre, t)
    ensures b[x] == bufs[x] && b[t] == bufs[t]
    ensures b[x := bufs[x].(tot := (bufs[x].tot + bufs[t].tot) % 0x1_0000)] == CatUpTo(bufs, pre + [x], t)
  {
  }

  lemma CatEnd(bufs: Bufs, c: seq<nat>, t: nat, b: Bufs)
    requires t in bufs && c != [] && Last(c) in bufs && b == CatUpTo(bufs, c, t)
    ensures b[Last(c) := b[Last(c)].(next := To(t))] == Cat(bufs, c, t)
  {
    assert Last(c) in c;
  }

  /** While `pbuf_realloc` steps over the pbufs `pre` that it keeps. */
  function SteppedOver(bufs: Bufs, pre: seq<nat>, d: nat): Bufs {
    map x | x in bufs :: if x in pre then bufs[x].(tot := (bufs[x].tot as int - d) % 0x1_0000) else bufs[x]
  }

  lemma StepStep(bufs: Bufs, pre: seq<nat>, d: nat, x: nat, b: Bufs)
    requires x in bufs && x !in pre && b == SteppedOver(bufs, pre, d)
    ensures b[x] == bufs[x]
    ensures b[x := bufs[x].(tot := (bufs[x].tot as int - d) % 0x1_0000)] == SteppedOver(bufs, pre + [x], d)
  {
  }

  lemma StepEnd(bufs: Bufs, c: seq<nat>, k: nat, rem: nat, d: nat)
    requires k < |c| && c[k] in bufs && c[k] !in c[..k] && rem <= |bufs[c[k]].data|
    ensures var s := SteppedOver(bufs, c[..k], d);
            s[c[k] := s[c[k]].(data := s[c[k]].data[..rem], tot := rem)] == Trimmed(bufs, c, k, rem, d)
  {
  }

  lemma NotEarlier(bufs: Bufs, chains: Chains, p: nat, i: nat)
    requires Linked(bufs, chains) && p in bufs && i < |chains[p]|
    ensures chains[p][i] in bufs && chains[p][i] !in chains[p][..i]
  {
    Suffix(bufs, chains, p, i);
    forall j | 0 <= j < i ensures chains[p][j] != chains[p][i] {
      ChainDistinct(bufs, chains, p, j, i);
    }
  }

  /** A chain is its first pbuf and the chain behind the link. */
  lemma Unfold(bufs: Bufs, chains: Chains, p: nat)
    requires Linked(bufs, chains) && p in bufs
    ensures chains[p] != [] && chains[p][0] == p && p !in chains[p][1..]
    ensures bufs[p].next.Nil? ==> chains[p][1..] == []
    ensures bufs[p].next.To? ==> bufs[p].next.p in bufs && chains[p][1..] == chains[bufs[p].next.p] != []
    ensures bufs[p].next.To? ==> chains[bufs[p].next.p][0] == bufs[p].next.p
  {
    ChainShape(bufs, chains, p);
    assert LinkOk(bufs, chains, p);
    forall i | 0 < i < |chains[p]| ensures chains[p][i] != p {
      ChainDistinct(bufs, chains, p, 0, i);
    }
    if bufs[p].next.To? {
      ChainShape(bufs, chains, bufs[p].next.p);
    }
  }

  /** Where the walk over the head `c` stands. */
  predicate HeadAt(b0: Bufs, cs: Chains, c: seq<nat>, pre: seq<nat>, p: nat) {
    p in b0 && p in cs && cs[p] != [] && cs[p][0] == p && c == pre + cs[p] && p !in pre
  }

  lemma HeadStep(b0: Bufs, cs: Chains, h: nat, c: seq<nat>, pre: seq<nat>, p: nat)
    requires Linked(b0, cs) && h in b0 && c == cs[h] && HeadAt(b0, cs, c, pre, p)
    ensures b0[p].next.To? ==> HeadAt(b0, cs, c, pre + [p], b0[p].next.p) && |pre| + 1 < |c|
    ensures b0[p].next.Nil? ==> c == pre + [p]
  {
    Unfold(b0, cs, p);
    assert cs[p] == [p] + cs[p][1..];
    assert c == (pre + [p]) + cs[p][1..];
    if b0[p].next.To? {
      assert c[..|pre| + 1] == pre + [p];
      NotEarlier(b0, cs, h, |pre| + 1);
    }
  }

  /** The loop of `pbuf_cat`: totals grow along the head, and its last pbuf links to the tail. */
  method LinkUp(b0: Bufs, h: nat, t: nat, ghost cs: Chains, ghost c: seq<nat>) returns (b: Bufs)
    requires Linked(b0, cs) && h in b0 && t in b0 && c == cs[h] && t !in c
    ensures c != [] && b == Cat(b0, c, t)
  {
    var p := h;
    ghost var pre := [];
    Unfold(b0, cs, h);
    b := b0;
    assert b == CatUpTo(b0, [], t);
    CatStep(b0, pre, t, p, b);
    while b[p].next.To?
      invariant HeadAt(b0, cs, c, pre, p) && b == CatUpTo(b0, pre, t) && p in b && b[p] == b0[p] && b[t] == b0[t]
      decreases |c| - |pre|
    {
      HeadStep(b0, cs, h, c, pre, p);
      CatStep(b0, pre, t, p, b);
      var next := b[p].next.p;
      b := b[p := b[p].(tot := (b[p].tot + b[t].tot) % 0x1_0000)];
      pre, p := pre + [p], next;
      CatStep(b0, pre, t, p, b);
    }
    HeadStep(b0, cs, h, c, pre, p);
    CatStep(b0, pre, t, p, b);
    b := b[p := b[p].(tot := (b[p].tot + b[t].tot) % 0x1_0000)];
    CatEnd(b0, c, t, b);
    b := b[p := b[p].(next := To(t))];
  }

  /** The pbufs of `c` are as before. */
  predicate Same(b0: Bufs, b: Bufs, c: seq<nat>) {
    forall x :: x in c ==> x in b0 && x in b && b[x] == b0[x]
  }

  /** Where `pbuf_free` stands: `n` pbufs are gone, and freeing the chain of `p` leads to `end`. */
  predicate FreesAt(b0: Bufs, cs: Chains, b: Bufs, p: nat, n: nat, end: Bufs, total: nat) {
    && p in b0 && p in cs && cs[p] != [] && cs[p][0] == p && Same(b0, b, cs[p])
    && FreeChain(b, cs[p]) == end && n + Released(b, cs[p]) == total
  }

  lemma FreesStep(b0: Bufs, cs: Chains, b: Bufs, p: nat, n: nat, end: Bufs, total: nat)
    requires Linked(b0, cs) && FreesAt(b0, cs, b, p, n, end, total)
    ensures p in b && b[p] == b0[p]
    ensures b[p].ref > 1 ==> n == total && end == b[p := b[p].(ref := b[p].ref - 1)]
    ensures b[p].ref <= 1 && b[p].next.Nil? ==> n + 1 == total && end == b - {p}
    ensures b[p].ref <= 1 && b[p].next.To? ==> FreesAt(b0, cs, b - {p}, b[p].next.p, n + 1, end, total)
    ensures b[p].next.To? ==> b[p].next.p in b0 && |cs[b[p].next.p]| < |cs[p]|
  {
    Unfold(b0, cs, p);
    assert p in cs[p];
    if b[p].ref <= 1 {
      var c := cs[p][1..];
      assert FreeChain(b, cs[p]) == FreeChain(b - {p}, c) && Released(b, cs[p]) == 1 + Released(b - {p}, c);
      assert forall x :: x in c ==> x in cs[p];
    }
  }

  /** The loop of `pbuf_free`. */
  method Deref(b0: Bufs, head: nat, ghost cs: Chains, ghost c: seq<nat>) returns (b: Bufs, count: nat)
    requires Linked(b0, cs) && head in b0 && c == cs[head] && forall x :: x in b0 ==> b0[x].ref > 0
    ensures b == FreeChain(b0, c) && count == Released(b0, c) % 0x100
  {
    var p := To(head);
    ghost var n, end, total := 0, FreeChain(b0, c), Released(b0, c);
    b, count := b0, 0;
    ChainShape(b0, cs, head);
    while p.To?
      invariant count == n % 0x100
      invariant p.To? ==> FreesAt(b0, cs, b, p.p, n, end, total)
      invariant p.Nil? ==> b == end && n == total
      decreases p.To?, if p.To? && p.p in cs then |cs[p.p]| else 0
    {
      var x := p.p;
      FreesStep(b0, cs, b, x, n, end, total);
      var ref := b[x].ref - 1;
      if ref == 0 {
        p := b[x].next;
        b, count := b - {x}, (count + 1) % 0x100;
        n := n + 1;
      } else {
        b := b[x := b[x].(ref := ref)];
        p := Nil;
      }
    }
  }

  /** Where the walk over `pre` stands: at pbuf `q`, with `rem` bytes still to keep. */
  predicate WalkAt(b0: Bufs, cs: Chains, c: seq<nat>, k: nat, n: nat, pre: seq<nat>, q: nat, rem: nat) {
    && q in b0 && q in cs && c == pre + cs[q] && cs[q] != [] && cs[q][0] == q && q !in pre
    && |pre| + KeepAt(b0, cs[q], rem) == k < |c| && |Flat(b0, pre)| + rem == n
  }

  lemma WalkStep(b0: Bufs, cs: Chains, p: nat, c: seq<nat>, k: nat, n: nat, pre: seq<nat>, q: nat, rem: nat)
    requires Linked(b0, cs) && p in b0 && c == cs[p] && WalkAt(b0, cs, c, k, n, pre, q, rem) && rem > |b0[q].data|
    ensures b0[q].next.To? && WalkAt(b0, cs, c, k, n, pre + [q], b0[q].next.p, rem - |b0[q].data|) && |pre| < k
  {
    Unfold(b0, cs, q);
    FlatSplit(b0, pre, q, []);
    assert cs[q] == [q] + cs[q][1..];
    assert c == (pre + [q]) + cs[q][1..];
    assert c[..|pre| + 1] == pre + [q];
    NotEarlier(b0, cs, p, |pre| + 1);
  }

  lemma WalkStart(b0: Bufs, cs: Chains, p: nat, c: seq<nat>, k: nat, n: nat, d: nat)
    requires Linked(b0, cs) && p in b0 && c == cs[p] && k == KeepAt(b0, c, n) && k < |c|
    ensures Walking(b0, cs, c, k, n, d, [], p, n, b0)
  {
    Unfold(b0, cs, p);
    assert b0 == SteppedOver(b0, [], d);
  }

  lemma WalkDone(b0: Bufs, cs: Chains, c: seq<nat>, k: nat, n: nat, grow: nat, pre: seq<nat>, q: nat, rem: nat, b: Bufs)
    requires Walking(b0, cs, c, k, n, grow, pre, q, rem, b) && rem <= |b[q].data|
    ensures q == c[k] && |Flat(b0, c[..k])| + rem == n && q in b0 && q !in c[..k] && rem <= |b0[q].data|
    ensures b == SteppedOver(b0, c[..k], grow)
  {
    assert c[..k] == pre;
  }

  lemma StepNext(bufs: Bufs, pre: seq<nat>, d: nat, x: nat, b: Bufs)
    requires x in bufs && x !in pre && b == SteppedOver(bufs, pre, d)
    ensures x in b && b[x] == bufs[x]
  {
  }

  /** The walk with what it has written. */
  ghost predicate Walking(b0: Bufs, cs: Chains, c: seq<nat>, k: nat, n: nat, grow: nat,
                          pre: seq<nat>, q: nat, rem: nat, b: Bufs) {
    WalkAt(b0, cs, c, k, n, pre, q, rem) && q in b && b[q] == b0[q] && b == SteppedOver(b0, pre, grow)
  }

  lemma Walked(b0: Bufs, cs: Chains, p: nat, c: seq<nat>, k: nat, n: nat, grow: nat,
               pre: seq<nat>, q: nat, rem: nat, b: Bufs, b': Bufs)
    requires Linked(b0, cs) && p in b0 && c == cs[p] && Walking(b0, cs, c, k, n, grow, pre, q, rem, b)
    requires rem > |b0[q].data| && b' == b[q := b[q].(tot := (b[q].tot as int - grow) % 0x1_0000)]
    ensures b0[q].next.To? && Walking(b0, cs, c, k, n, grow, pre + [q], b0[q].next.p, rem - |b0[q].data|, b')
    ensures |pre| < k
  {
    WalkStep(b0, cs, p, c, k, n, pre, q, rem);
    StepStep(b0, pre, grow, q, b);
    StepNext(b0, pre + [q], grow, b0[q].next.p, b');
  }

  /** One pbuf of the walk of `pbuf_realloc`. */
  method StepOne(b0: Bufs, b: Bufs, q: nat, rem: nat, grow: nat,
                 ghost cs: Chains, ghost p: nat, ghost c: seq<nat>, ghost k: nat, ghost n: nat, ghost pre: seq<nat>)
    returns (b': Bufs, q': nat, rem': nat)
    requires Linked(b0, cs) && p in b0 && c == cs[p] && Walking(b0, cs, c, k, n, grow, pre, q, rem, b)
    requires q in b && rem > |b[q].data|
    ensures Walking(b0, cs, c, k, n, grow, pre + [q], q', rem', b') && |pre| < k
  {
    b' := b[q := b[q].(tot := (b[q].tot as int - grow) % 0x1_0000)];
    Walked(b0, cs, p, c, k, n, grow, pre, q, rem, b, b');
    q', rem' := b[q].next.p, rem - |b[q].data|;
  }

  /** The loop of `pbuf_realloc` over the pbufs to keep. */
  method Walk(b0: Bufs, p: nat, n: nat, grow: nat, ghost cs: Chains, ghost c: seq<nat>, ghost k: nat)
    returns (b: Bufs, q: nat, rem: nat, ghost pre: seq<nat>)
    requires Linked(b0, cs) && p in b0 && c == cs[p] && Walking(b0, cs, c, k, n, grow, [], p, n, b0)
    ensures Walking(b0, cs, c, k, n, grow, pre, q, rem, b) && q in b && rem <= |b[q].data|
  {
    b, q, rem, pre := b0, p, n, [];
    while rem > |b[q].data|
      invariant q in b && Walking(b0, cs, c, k, n, grow, pre, q, rem, b)
      decreases k - |pre|
    {
      ghost var x := q;
      b, q, rem := StepOne(b0, b, q, rem, grow, cs, p, c, k, n, pre);
      pre := pre + [x];
    }
  }

  method StepOver(b0: Bufs, p: nat, n: nat, ghost cs: Chains, ghost c: seq<nat>, ghost k: nat)
    returns (b: Bufs, q: nat, rem: nat)
    requires Linked(b0, cs) && p in b0 && c == cs[p] && k == KeepAt(b0, c, n) && k < |c| && n < b0[p].tot
    ensures q == c[k] && q in b0 && q !in c[..k] && rem + |Flat(b0, c[..k])| == n && rem <= |b0[q].data|
    ensures b == SteppedOver(b0, c[..k], b0[p].tot - n)
  {
    var grow := b0[p].tot - n;
    ghost var pre;
    WalkStart(b0, cs, p, c, k, n, grow);
    b, q, rem, pre := Walk(b0, p, n, grow, cs, c, k);
    WalkDone(b0, cs, c, k, n, grow, pre, q, rem, b);
  }

  /** The part of `pbuf_realloc` before the rest is freed. */
  method TrimTo(b0: Bufs, p: nat, n: nat, ghost cs: Chains, ghost c: seq<nat>, ghost k: nat)
    returns (b: Bufs, q: nat, rem: nat)
    requires Linked(b0, cs) && p in b0 && c == cs[p] && k == KeepAt(b0, c, n) && k < |c| && n < b0[p].tot
    ensures q == c[k] && q in b0 && rem + |Flat(b0, c[..k])| == n
    ensures b == Trimmed(b0, c, k, rem, b0[p].tot - n)
  {
    b, q, rem := StepOver(b0, p, n, cs, c, k);
    StepEnd(b0, c, k, rem, b0[p].tot - n);
    b := b[q := b[q].(data := b[q].data[..rem], tot := rem)];
  }

  lemma ReallocUnfold(b0: Bufs, cs: Chains, p: nat, n: nat, k: nat, rem: nat, b: Bufs)
    requires Linked(b0, cs) && p in b0 && TotAt(b0, cs, p) && n < b0[p].tot && k == KeepAt(b0, cs[p], n)
    requires k < |cs[p]| && cs[p][k] in b0 && rem + |Flat(b0, cs[p][..k])| == n
    requires b == CutFree(Trimmed(b0, cs[p], k, rem, b0[p].tot - n), cs, cs[p][k])
    ensures b == Realloc(b0, cs, p, n) && Keep(CutChains(cs, cs[p][k]), b) == ReallocChains(b0, cs, p, n)
  {
  }

  /** What `pbuf_dechain` writes before it frees the rest. */
  lemma DechainTrim(b0: Bufs, cs: Chains, p: nat, q: nat, b: Bufs)
    requires Linked(b0, cs) && p in b0 && b0[p].next == To(q) && q in b0 && TotAt(b0, cs, p) && TotAt(b0, cs, q)
    requires b == b0[q := b0[q].(tot := (b0[p].tot as int - |b0[p].data|) % 0x1_0000)][p := b0[p].(tot := |b0[p].data|)]
    ensures cs[p] != [] && b == Trimmed(b0, cs[p], 0, |b0[p].data|, 0) && b == Trimmed(b0, [p], 0, |b0[p].data|, 0)
  {
    TotRule(b0, cs, p);
    ChainShape(b0, cs, p);
    assert b == b0[p := b0[p].(tot := |b0[p].data|)];
    assert b0[p].data[..|b0[p].data|] == b0[p].data;
  }

  /** The end of `pbuf_realloc` and `pbuf_dechain`: the link out of `q` is cleared and the rest freed. */
  method DropTail(b0: Bufs, q: nat, ghost cs: Chains, ghost hs: multiset<nat>) returns (b: Bufs, count: nat)
    requires Ok(b0, cs, hs) && q in b0
    ensures b == CutFree(b0, cs, q)
    ensures count == if b0[q].next.To? && b0[q].next.p in cs then Released(Cut(b0, q), cs[b0[q].next.p]) % 0x100 else 0
  {
    b, count := b0, 0;
    assert LinkOk(b0, cs, q);
    if b[q].next.To? {
      var next := b[q].next.p;
      CutOk(b0, cs, hs, q);
      CutTail(b0, cs, q);
      b := b[q := b[q].(next := Nil)];
      forall x | x in b ensures b[x].ref > 0 {
        assert CountOk(b0, hs, x);
      }
      b, count := Deref(b, next, CutChains(cs, q), cs[next]);
    }
  }

  /** `pbuf_realloc` on a chain that gets shorter. */
  method Shrink(b0: Bufs, p: nat, n: nat, ghost cs: Chains, ghost hs: multiset<nat>) returns (b: Bufs)
    requires Ok(b0, cs, hs) && p in b0 && TotAt(b0, cs, p) && n < b0[p].tot
    ensures b == Realloc(b0, cs, p, n)
  {
    ghost var k := KeepAt(b0, cs[p], n);
    ReallocCuts(b0, cs, p, n, k);
    var t, q, rem := TrimTo(b0, p, n, cs, cs[p], k);
    SameShapeOk(b0, t, cs, hs);
    var count;
    b, count := DropTail(t, q, cs, hs);
    ReallocUnfold(b0, cs, p, n, k, rem, b);
  }

  /** How many pbufs `pbuf_dechain` releases. */
  function DechainReleased(bufs: Bufs, chains: Chains, p: nat): nat
    requires p in bufs
  {
    if bufs[p].next.To? && bufs[p].next.p in chains
    then Released(Cut(Trimmed(bufs, [p], 0, |bufs[p].data|, 0), p), chains[bufs[p].next.p]) else 0
  }

  /** A positive count that reads as 0 in 8 bits. */
  predicate Lost(k: nat) { k > 0 && k % 0x100 == 0 }

  /** What it returns. */
  function DechainRest(bufs: Bufs, chains: Chains, p: nat): Link
    requires p in bufs
  {
    if DechainReleased(bufs, chains, p) % 0x100 > 0 then Nil else bufs[p].next
  }

  /** The first pbuf of the rest is gone as soon as any of it is. */
  lemma RestGone(b: Bufs, q: nat, c: seq<nat>)
    requires q in b && c != [] && c[0] == q
    ensures q !in FreeChain(b, c) <==> Released(b, c) > 0
  {
    FreeKeys(b, c);
    var k := Released(b, c);
    if k > 0 {
      assert c[..k][0] == q;
    }
  }

  lemma MovedOk(bufs: Bufs, cs: Chains, hs: multiset<nat>, p: nat, inc: int)
    requires Ok(bufs, cs, hs) && p in bufs && CanMove(bufs[p], inc)
    ensures Ok(bufs[p := Moved(bufs[p], inc)], cs, hs)
  {
    SameShapeOk(bufs, bufs[p := Moved(bufs[p], inc)], cs, hs);
  }

  lemma DechainStart(b0: Bufs, cs: Chains, hs: multiset<nat>, p: nat, q: nat)
    requires Ok(b0, cs, hs) && p in b0 && b0[p].next == To(q)
    ensures q in b0 && q in cs && q != p && cs[q] != [] && cs[q][0] == q
  {
    CutTail(b0, cs, p);
    NoSelfLink(b0, cs, p);
    ChainShape(b0, cs, q);
  }

  /** What `pbuf_dechain` has done after it has freed the rest. */
  lemma DechainEnd(b0: Bufs, cs: Chains, hs: multiset<nat>, p: nat, q: nat, b: Bufs, r: Bufs, count: nat)
    requires Ok(b0, cs, hs) && p in b0 && b0[p].next == To(q) && b == Trimmed(b0, [p], 0, |b0[p].data|, 0)
    requires cs[p] != [] && b == Trimmed(b0, cs[p], 0, |b0[p].data|, 0) && r == CutFree(b, cs, p)
    requires q in cs && q in b0 && count == Released(Cut(b, p), cs[q]) % 0x100
    ensures r == Dechain(b0, cs, p) && Ok(r, Keep(CutChains(cs, p), r), hs)
    ensures count == DechainReleased(b0, cs, p) % 0x100
    ensures q !in r <==> DechainReleased(b0, cs, p) > 0
  {
    DechainOk(b0, cs, hs, p);
    DechainStart(b0, cs, hs, p, q);
    ChainShape(b0, cs, p);
    RestGone(Cut(b, p), q, cs[q]);
  }

  class Arena {
    var bufs: Bufs
    /** The chain behind every pbuf. */
    ghost var chains: Chains
    /** The references that callers hold. */
    ghost var holders: multiset<nat>

    ghost predicate Valid()
      reads this
    {
      Ok(bufs, chains, holders)
    }

    constructor ()
      ensures Valid() && bufs == map[] && chains == map[] && holders == multiset{}
    {
      bufs, chains, holders := map[], map[], multiset{};
    }

    /** `pbuf_ref`. */
    method PbufRef(p: Link)
      requires Valid() && (p.To? ==> p.p in bufs)
      modifies this
      ensures Valid() && chains == old(chains) && holders == old(holders) + Hold(p)
      ensures bufs == if p.To? then RefUp(old(bufs), p.p) else old(bufs)
    {
      if p.To? {
        RefUpOk(bufs, chains, holders, p.p);
        bufs := bufs[p.p := bufs[p.p].(ref := bufs[p.p].ref + 1)];
        holders := holders + multiset{p.p};
      }
    }

    /** `pbuf_cat`: NULL arguments are refused.  The caller gives up its reference to the tail, and the
        two chains must not already end in the same pbuf. */
    method PbufCat(hd: Link, tl: Link)
      requires Valid() && (hd.To? ==> hd.p in bufs) && (tl.To? ==> tl.p in bufs && tl.p in holders)
      requires hd.To? && tl.To? ==> Last(chains[hd.p]) != Last(chains[tl.p])
      modifies this
      ensures Valid()
      ensures if hd.Nil? || tl.Nil? then bufs == old(bufs) && chains == old(chains) && holders == old(holders)
              else old(chains)[hd.p] != [] && holders == old(holders) - multiset{tl.p}
                   && bufs == Cat(old(bufs), old(chains)[hd.p], tl.p)
                   && chains == CatChains(old(chains), Last(old(chains)[hd.p]), old(chains)[tl.p])
    {
      if hd.Nil? || tl.Nil? {
        return;
      }
      var h, t := hd.p, tl.p;
      ChainShape(bufs, chains, h);
      ChainShape(bufs, chains, t);
      if t in chains[h] {
        var k := Behind(bufs, chains, h, t);
      }
      CatOk(bufs, chains, holders, h, t);
      bufs := LinkUp(bufs, h, t, chains, chains[h]);
      chains := CatChains(chains, Last(chains[h]), chains[t]);
      holders := holders - multiset{t};
    }

    /** `pbuf_chain`: as `pbuf_cat`, but the caller keeps its reference.  It is counted for a tail even when there
        is no head to link it to. */
    method PbufChain(hd: Link, tl: Link)
      requires Valid() && (hd.To? ==> hd.p in bufs) && (tl.To? ==> tl.p in bufs && tl.p in holders)
      requires hd.To? && tl.To? ==> Last(chains[hd.p]) != Last(chains[tl.p])
      modifies this
      ensures Valid()
      ensures hd.To? && tl.To? ==>
                && holders == old(holders) && old(chains)[hd.p] != []
                && bufs == RefUp(Cat(old(bufs), old(chains)[hd.p], tl.p), tl.p)
                && chains == CatChains(old(chains), Last(old(chains)[hd.p]), old(chains)[tl.p])
      ensures hd.Nil? || tl.Nil? ==>
                && holders == old(holders) + Hold(tl) && chains == old(chains)
                && bufs == if tl.To? then RefUp(old(bufs), tl.p) else old(bufs)
    {
      PbufCat(hd, tl);
      PbufRef(tl);
    }

    /** `pbuf_free`: the pbufs released are the leading ones with a single reference, and their number,
        in 8 bits, is returned. */
    method PbufFree(head: Link) returns (count: nat)
      requires Valid() && (head.To? ==> head.p in bufs && head.p in holders)
      modifies this
      ensures Valid() && holders == old(holders) - Hold(head)
      ensures bufs == if head.To? then FreeChain(old(bufs), old(chains)[head.p]) else old(bufs)
      ensures chains == Keep(old(chains), bufs)
      ensures count == if head.To? then Released(old(bufs), old(chains)[head.p]) % 0x100 else 0
    {
      if head.Nil? {
        KeepSame(chains, bufs, bufs);
        return 0;
      }
      FreeOk(bufs, chains, holders, head.p);
      forall x | x in bufs ensures bufs[x].ref > 0 {
        assert CountOk(bufs, holders, x);
      }
      bufs, count := Deref(bufs, head.p, chains, chains[head.p]);
      chains := Keep(chains, bufs);
      holders := holders - multiset{head.p};
    }

    /** `pbuf_realloc`: shrinks a chain, never grows it. */
    method PbufRealloc(p: nat, n: nat)
      requires Valid() && p in bufs && TotAt(bufs, chains, p)
      modifies this
      ensures Valid() && holders == old(holders)
      ensures bufs == Realloc(old(bufs), old(chains), p, n) && chains == ReallocChains(old(bufs), old(chains), p, n)
    {
      if n >= bufs[p].tot {
        return;
      }
      ReallocExact(bufs, chains, holders, p, n);
      ghost var cs := ReallocChains(bufs, chains, p, n);
      bufs := Shrink(bufs, p, n, chains, holders);
      chains := cs;
    }

    /** `pbuf_dechain`: returns the rest, or NULL when pbufs of the rest were released.  As their number is counted
        in 8 bits, the pointer returned dangles exactly when it is a positive multiple of 256. */
    method PbufDechain(p: nat) returns (rest: Link)
      requires Valid() && p in bufs && TotAt(bufs, chains, p)
      requires bufs[p].next.To? && bufs[p].next.p in bufs ==> TotAt(bufs, chains, bufs[p].next.p)
      modifies this
      ensures Valid() && holders == old(holders)
      ensures bufs == Dechain(old(bufs), old(chains), p)
      ensures chains == if old(bufs)[p].next.To? then Keep(CutChains(old(chains), p), bufs) else old(chains)
      ensures rest == DechainRest(old(bufs), old(chains), p)
      ensures rest.To? && rest.p !in bufs <==>
                old(bufs)[p].next.To? && Lost(DechainReleased(old(bufs), old(chains), p))
    {
      if bufs[p].next.Nil? {
        return Nil;
      }
      ghost var b0, cs := bufs, chains;
      var q := bufs[p].next.p;
      DechainStart(b0, cs, holders, p, q);
      var b := bufs[q := bufs[q].(tot := (bufs[p].tot as int - |bufs[p].data|) % 0x1_0000)];
      b := b[p := b[p].(tot := |b[p].data|)];
      DechainTrim(b0, cs, p, q, b);
      SameShapeOk(b0, b, cs, holders);
      var r, count := DropTail(b, p, cs, holders);
      DechainEnd(b0, cs, holders, p, q, b, r, count);
      bufs := r;
      chains := Keep(CutChains(cs, p), r);
      return if count > 0 then Nil else To(q);
    }

    /** `pbuf_header`: fails, changing nothing, when there are not enough bytes to hide or no room to
        reveal. */
    method PbufHeader(p: Link, inc: int) returns (failed: bool)
      requires Valid() && (p.To? ==> p.p in bufs)
      modifies this`bufs
      ensures Valid()
      ensures failed <==> p.To? && !CanMove(bufs[p.p], inc) && bufs == old(bufs)
      ensures p.To? ==>
                var b := old(bufs)[p.p];
                failed <==> (inc < 0 && |b.data| < -inc) || (inc > 0 && (b.kind.Rom? || b.kind.Ref? || |b.room| < inc))
      ensures bufs == if p.To? && CanMove(old(bufs)[p.p], inc) && inc != 0
                      then old(bufs)[p.p := Moved(old(bufs)[p.p], inc)] else old(bufs)
    {
      if inc == 0 || p.Nil? {
        return false;
      }
      var b := bufs[p.p];
      var magnitude := if inc < 0 then -inc else inc;
      if inc < 0 && magnitude > |b.data| {
        return true;
      }
      if inc > 0 {
        if b.kind.Rom? || b.kind.Ref? || magnitude > |b.room| {
          return true;
        }
        b := b.(room := b.room[..|b.room| - magnitude], data := b.room[|b.room| - magnitude..] + b.data);
      } else {
        b := b.(room := b.room + b.data[..magnitude], data := b.data[magnitude..]);
      }
      MovedOk(bufs, chains, holders, p.p, inc);
      assert b.(tot := (b.tot as int + inc) % 0x1_0000) == Moved(bufs[p.p], inc);
      bufs := bufs[p.p := b.(tot := (b.tot as int + inc) % 0x1_0000)];
      return false;
    }
  }
}
