/**
 Runs from the start in which shared chains get wrong totals, and in which `pbuf_dechain` returns
 a pointer to a pbuf that it has released.
 */
module PbufExamples {
  import opened PbufModel
  import opened PbufOps
  import opened PbufResize
  import opened PbufArena
  import opened PbufRun
  import C = PbufCopy
  import W = PbufWalk

  /** The steps lead from the start to `t`, and counts and totals are right there. */
  ghost predicate Reached(vs: seq<Event>, t: State) { Run(Empty, vs, t) && Inv(t) && TotOk(t.bufs, t.chains) }

  lemma {:induction false} RunStep(s: State, vs: seq<Event>, t: State, v: Event)
    requires Run(s, vs, t) && Enabled(t, v)
    ensures Run(s, vs + [v], Next(t, v))
    decreases |vs|
  {
    if vs == [] {
      assert [v][1..] == [];
    } else {
      assert (vs + [v])[1..] == vs[1..] + [v];
      RunStep(Next(s, vs[0]), vs[1..], t, v);
    }
  }

  lemma Go(vs: seq<Event>, t: State, v: Event) returns (vs': seq<Event>, t': State)
    requires Reached(vs, t) && Enabled(t, v) && Private(t, v)
    ensures Reached(vs', t') && t' == Next(t, v)
  {
    RunStep(Empty, vs, t, v);
    NextInv(t, v);
    NextTotExact(t, v);
    vs', t' := vs + [v], Next(t, v);
  }

  lemma Begin()
    ensures Reached([], Empty)
  {
  }

  /** A new pbuf, next to what there is. */
  lemma GoNew(vs: seq<Event>, s: State, p: nat, data: seq<Byte>, chains: Chains, hs: multiset<nat>)
    returns (vs': seq<Event>, s': State)
    requires Reached(vs, s) && p !in s.made && |data| <= 10 && chains == s.chains[p := [p]]
             && hs == s.holders + multiset{p}
    ensures Reached(vs', s') && s'.chains == chains && s'.holders == hs && s'.made == s.made + {p}
    ensures p in s'.bufs && s'.bufs[p].data == data
    ensures forall x :: x in s.bufs ==> x in s'.bufs && s'.bufs[x] == s.bufs[x]
  {
    vs', s' := Go(vs, s, New(p, [], data, Ram));
  }

  // ----- one tail behind two heads -----

  /** Pbufs of one, one and two bytes. */
  predicate Sizes(bufs: Bufs) {
    && 0 in bufs && 1 in bufs && 2 in bufs
    && |bufs[0].data| == 1 && |bufs[1].data| == 1 && |bufs[2].data| == 2
  }

  /** All three are held, and linked as `chains` says. */
  ghost predicate Three(s: State, chains: Chains) {
    && s.chains == chains && Sizes(s.bufs) && s.made == {0, 1, 2} && s.holders == multiset{0, 1, 2}
    && 0 in chains && 1 in chains && 2 in chains
  }

  const Apart: Chains := map[0 := [0], 1 := [1], 2 := [2]]
  const OneHead: Chains := map[0 := [0, 2], 1 := [1], 2 := [2]]
  const TwoHeads: Chains := map[0 := [0, 2], 1 := [1, 2], 2 := [2]]
  const Behind: Chains := map[0 := [0], 1 := [1, 2], 2 := [2]]
  const InRow: Chains := map[0 := [0, 1, 2], 1 := [1, 2], 2 := [2]]

  lemma MakeApart(d: seq<Byte>, e: seq<Byte>, f: seq<Byte>) returns (vs: seq<Event>, t: State)
    requires |d| <= 10 && |e| <= 10 && |f| <= 10
    ensures Reached(vs, t) && t.chains == Apart && t.holders == multiset{0, 1, 2} && t.made == {0, 1, 2}
    ensures 0 in t.bufs && 1 in t.bufs && 2 in t.bufs
    ensures t.bufs[0].data == d && t.bufs[1].data == e && t.bufs[2].data == f
  {
    Begin();
    vs, t := GoNew([], Empty, 0, d, map[0 := [0]], multiset{0});
    vs, t := GoNew(vs, t, 1, e, map[0 := [0], 1 := [1]], multiset{0, 1});
    vs, t := GoNew(vs, t, 2, f, Apart, multiset{0, 1, 2});
  }

  lemma MakeThree() returns (vs: seq<Event>, t: State)
    ensures Reached(vs, t) && Three(t, Apart)
  {
    vs, t := MakeApart([0], [0], [0, 0]);
  }

  /** Linking keeps the payloads. */
  lemma ChainKeeps(s: State, h: nat, t: nat)
    requires Enabled(s, ChainOf(h, t))
    ensures var n := Next(s, ChainOf(h, t));
            && n.bufs.Keys == s.bufs.Keys && n.made == s.made && n.holders == s.holders
            && forall x :: x in s.bufs ==> n.bufs[x].data == s.bufs[x].data
  {
  }

  /** Pbuf `h`, alone so far, can be put in front of the chain `ct` of `t`, which makes `after`. */
  ghost predicate Linkable(before: Chains, h: nat, t: nat, ct: seq<nat>, after: Chains) {
    && h in before && t in before && before[h] == [h] && before[t] == ct && ct != [] && Last(ct) != h
    && Alone(before, [h]) && after == CatChains(before, h, ct) && 0 in after && 1 in after && 2 in after
  }

  lemma ChainReady(s: State, h: nat, t: nat, before: Chains, ct: seq<nat>, after: Chains)
    requires Inv(s) && TotOk(s.bufs, s.chains) && Three(s, before) && h <= 2 && t <= 2
    requires Linkable(before, h, t, ct, after) && |Flat(s.bufs, ct)| <= 10
    ensures Enabled(s, ChainOf(h, t)) && Private(s, ChainOf(h, t))
  {
    assert TotAt(s.bufs, s.chains, h) && TotAt(s.bufs, s.chains, t);
    assert [h][1..] == [] && Flat(s.bufs, [h]) == s.bufs[h].data + [];
  }

  lemma ChainGo(vs: seq<Event>, s: State, h: nat, t: nat, before: Chains, ct: seq<nat>, after: Chains)
    returns (vs': seq<Event>, s': State)
    requires Reached(vs, s) && Three(s, before) && h <= 2 && t <= 2
    requires Linkable(before, h, t, ct, after) && |Flat(s.bufs, ct)| <= 10
    ensures Reached(vs', s') && Three(s', after)
  {
    ChainReady(s, h, t, before, ct, after);
    ChainKeeps(s, h, t);
    vs', s' := Go(vs, s, ChainOf(h, t));
  }

  /** How many bytes there are behind each. */
  lemma FlatSizes(bufs: Bufs)
    requires Sizes(bufs)
    ensures |Flat(bufs, [2])| == 2 && |Flat(bufs, [0, 2])| == 3 && |Flat(bufs, [1, 2])| == 3
  {
    assert [2][1..] == [] && [0, 2][1..] == [2] && [1, 2][1..] == [2];
  }

  /** Only the chain of pbuf `h` ends there. */
  lemma LinkBefore(before: Chains, h: nat, ct: seq<nat>, after: Chains)
    requires before.Keys == after.Keys && h in before && before[h] == [h] && after[h] == [h] + ct
    requires forall x :: x in before && x != h ==> before[x] != [] && Last(before[x]) != h && after[x] == before[x]
    ensures CatChains(before, h, ct) == after && Alone(before, [h])
  {
  }

  lemma LinkFirst()
    ensures Linkable(Apart, 0, 2, [2], OneHead)
  {
    assert [0] + [2] == [0, 2];
    LinkBefore(Apart, 0, [2], OneHead);
  }

  lemma LinkSecond()
    ensures Linkable(OneHead, 1, 2, [2], TwoHeads)
  {
    assert [1] + [2] == [1, 2];
    LinkBefore(OneHead, 1, [2], TwoHeads);
  }

  lemma LinkBehind()
    ensures Linkable(Apart, 1, 2, [2], Behind)
  {
    assert [1] + [2] == [1, 2];
    LinkBefore(Apart, 1, [2], Behind);
  }

  lemma LinkRow()
    ensures Linkable(Behind, 0, 1, [1, 2], InRow)
  {
    assert [0] + [1, 2] == [0, 1, 2];
    LinkBefore(Behind, 0, [1, 2], InRow);
  }

  lemma MakeTwoHeads() returns (vs: seq<Event>, t: State)
    ensures Reached(vs, t) && Three(t, TwoHeads)
  {
    vs, t := MakeThree();
    FlatSizes(t.bufs);
    LinkFirst();
    vs, t := ChainGo(vs, t, 0, 2, Apart, [2], OneHead);
    FlatSizes(t.bufs);
    LinkSecond();
    vs, t := ChainGo(vs, t, 1, 2, OneHead, [2], TwoHeads);
  }

  lemma MakeRow() returns (vs: seq<Event>, t: State)
    ensures Reached(vs, t) && Three(t, InRow)
  {
    vs, t := MakeThree();
    FlatSizes(t.bufs);
    LinkBehind();
    vs, t := ChainGo(vs, t, 1, 2, Apart, [2], Behind);
    FlatSizes(t.bufs);
    LinkRow();
    vs, t := ChainGo(vs, t, 0, 1, Behind, [1, 2], InRow);
  }

  /** Shortening a shared tail through one head leaves the other head's total wrong. */
  lemma SharedRealloc() returns (vs: seq<Event>, t: State)
    ensures Reached(vs, t) && t.chains == TwoHeads && Enabled(t, ReallocOf(0, 2))
    ensures var r := Next(t, ReallocOf(0, 2)); r.chains.Keys == r.bufs.Keys && !TotOk(r.bufs, r.chains)
  {
    vs, t := MakeTwoHeads();
    ReallocShared(t);
    NextTotExact(t, ReallocOf(0, 2));
  }

  lemma ReallocShared(t: State)
    requires Three(t, TwoHeads) && Inv(t) && TotOk(t.bufs, t.chains)
    ensures Enabled(t, ReallocOf(0, 2)) && !Private(t, ReallocOf(0, 2))
  {
    FlatSizes(t.bufs);
    assert TotAt(t.bufs, t.chains, 0);
    assert [0, 2][1..] == [2] && KeepAt(t.bufs, [2], 1) == 0 && KeepAt(t.bufs, [0, 2], 2) == 1;
    assert [0, 2][..2] == [0, 2] && 2 in t.chains[1] && 1 !in [0, 2][..2];
  }

  /** So does appending to it, ... */
  lemma SharedCat() returns (vs: seq<Event>, t: State)
    ensures Reached(vs, t) && Enabled(t, CatOf(0, 3))
    ensures var r := Next(t, CatOf(0, 3)); r.chains.Keys == r.bufs.Keys && !TotOk(r.bufs, r.chains)
  {
    vs, t := MakeTwoHeads();
    vs, t := Go(vs, t, New(3, [], [0], Ram));
    CatShared(t);
    NextTotExact(t, CatOf(0, 3));
  }

  lemma CatShared(t: State)
    requires Inv(t) && TotOk(t.bufs, t.chains) && t.chains == TwoHeads[3 := [3]] && 3 in t.bufs && 3 in t.holders
    requires |t.bufs[3].data| == 1
    ensures Enabled(t, CatOf(0, 3)) && !Private(t, CatOf(0, 3))
  {
    assert TotAt(t.bufs, t.chains, 3) && [3][1..] == [];
    assert 1 in t.chains && 1 !in t.chains[0] && Last(t.chains[1]) == 2 == Last(t.chains[0]);
  }

  /** ... moving the start of its payload, ... */
  lemma SharedHeader() returns (vs: seq<Event>, t: State)
    ensures Reached(vs, t) && t.chains == TwoHeads && 2 in t.bufs && CanMove(t.bufs[2], -1)
    ensures !TotOk(t.bufs[2 := Moved(t.bufs[2], -1)], t.chains)
  {
    vs, t := MakeTwoHeads();
    assert 0 in t.bufs && 2 in t.chains[0];
    HeaderExact(t.bufs, t.chains, t.holders, 2, -1, t.bufs[2 := Moved(t.bufs[2], -1)]);
  }

  /** ... and taking it off a pbuf that another one leads to. */
  lemma SharedDechain() returns (vs: seq<Event>, t: State)
    ensures Reached(vs, t) && t.chains == InRow && Enabled(t, DechainOf(1))
    ensures var r := Next(t, DechainOf(1)); r.chains.Keys == r.bufs.Keys && !TotOk(r.bufs, r.chains)
  {
    vs, t := MakeRow();
    DechainShared(t);
    NextTotExact(t, DechainOf(1));
  }

  lemma DechainShared(t: State)
    requires Three(t, InRow) && Inv(t) && TotOk(t.bufs, t.chains)
    ensures Enabled(t, DechainOf(1)) && !Private(t, DechainOf(1))
  {
    FlatSizes(t.bufs);
    LinksAlong(t.bufs, t.chains, 1, 0);
    assert TotAt(t.bufs, t.chains, 1) && TotAt(t.bufs, t.chains, 2);
    assert 0 in t.bufs && 1 in t.chains[0];
  }

  // ----- a chain that ends in empty pbufs -----

  /** A byte with two empty pbufs, not linked yet, and a target of two bytes. */
  ghost predicate Four(s: State, chains: Chains, holders: multiset<nat>) {
    && s.chains == chains && s.holders == holders
    && 0 in s.bufs && 1 in s.bufs && 2 in s.bufs && 3 in s.bufs
    && |s.bufs[0].data| == 1 && s.bufs[1].data == [] && s.bufs[2].data == [] && |s.bufs[3].data| == 2
  }

  const Loose: Chains := map[0 := [0], 1 := [1], 2 := [2], 3 := [3]]
  const EmptyPair: Chains := map[0 := [0], 1 := [1, 2], 2 := [2], 3 := [3]]
  const EmptyEnd: Chains := map[0 := [0, 1, 2], 1 := [1, 2], 2 := [2], 3 := [3]]

  lemma MakeFour() returns (vs: seq<Event>, t: State)
    ensures Reached(vs, t) && Four(t, Loose, multiset{0, 1, 2, 3})
  {
    vs, t := MakeApart([0], [], []);
    vs, t := GoNew(vs, t, 3, [0, 0], Loose, multiset{0, 1, 2, 3});
  }

  lemma CatKeeps(s: State, h: nat, t: nat)
    requires Enabled(s, CatOf(h, t))
    ensures var n := Next(s, CatOf(h, t));
            && n.bufs.Keys == s.bufs.Keys && n.holders == s.holders - multiset{t}
            && n.chains == CatChains(s.chains, Last(s.chains[h]), s.chains[t])
            && forall x :: x in s.bufs ==> n.bufs[x].data == s.bufs[x].data
  {
  }

  /** Empty pbufs are put behind another one. */
  lemma CatEmpty(vs: seq<Event>, s: State, h: nat, t: nat, before: Chains, after: Chains,
                 hs: multiset<nat>, hs': multiset<nat>)
    returns (vs': seq<Event>, s': State)
    requires Reached(vs, s) && Four(s, before, hs) && h <= 2 && t <= 2 && t in hs && hs' == hs - multiset{t}
    requires h in before && t in before && before[h] == [h] && before[t] != [] && Last(before[t]) != h
    requires after == CatChains(before, h, before[t]) && |Flat(s.bufs, before[t])| == 0
    ensures Reached(vs', s') && Four(s', after, hs')
  {
    assert TotAt(s.bufs, s.chains, h) && TotAt(s.bufs, s.chains, t);
    CatKeeps(s, h, t);
    vs', s' := Go(vs, s, CatOf(h, t));
  }

  lemma LinkPair()
    ensures CatChains(Loose, 1, [2]) == EmptyPair
  {
    assert [1] + [2] == [1, 2];
    LinkBefore(Loose, 1, [2], EmptyPair);
  }

  lemma LinkEnd()
    ensures CatChains(EmptyPair, 0, [1, 2]) == EmptyEnd
  {
    assert [0] + [1, 2] == [0, 1, 2];
    LinkBefore(EmptyPair, 0, [1, 2], EmptyEnd);
  }

  lemma EmptySizes(s: State, chains: Chains, hs: multiset<nat>)
    requires Four(s, chains, hs)
    ensures |Flat(s.bufs, [2])| == 0 && |Flat(s.bufs, [1, 2])| == 0
    ensures C.Lens(s.bufs, [0, 1, 2]) == [1, 0, 0] && C.Lens(s.bufs, [3]) == [2]
  {
    assert [2][1..] == [] && [1, 2][1..] == [2];
  }

  lemma MakeEmptyEnd() returns (vs: seq<Event>, t: State)
    ensures Reached(vs, t) && Four(t, EmptyEnd, multiset{0, 3})
  {
    vs, t := MakeFour();
    LinkPair();
    LinkEnd();
    EmptySizes(t, Loose, multiset{0, 1, 2, 3});
    vs, t := CatEmpty(vs, t, 1, 2, Loose, EmptyPair, multiset{0, 1, 2, 3}, multiset{0, 1, 3});
    EmptySizes(t, EmptyPair, multiset{0, 1, 3});
    vs, t := CatEmpty(vs, t, 0, 1, EmptyPair, EmptyEnd, multiset{0, 1, 3}, multiset{0, 3});
  }

  /** A byte followed by two empty pbufs is refused, although the target has room: `pbuf_copy` gives ERR_VAL. */
  lemma CopyRefused() returns (vs: seq<Event>, t: State)
    ensures Reached(vs, t) && t.chains == EmptyEnd
    ensures W.Outcome(C.Lens(t.bufs, t.chains[0]), C.Lens(t.bufs, t.chains[3]), W.Start).VAL?
    ensures C.Totals(t.bufs, t.chains, t.chains[0]) && C.Totals(t.bufs, t.chains, t.chains[3])
    ensures |Flat(t.bufs, t.chains[0])| <= |Flat(t.bufs, t.chains[3])|
  {
    vs, t := MakeEmptyEnd();
    EmptySizes(t, EmptyEnd, multiset{0, 3});
    W.QueueExamples();
    C.LensTotal(t.bufs, [0, 1, 2]);
    C.LensTotal(t.bufs, [3]);
    ChainShape(t.bufs, t.chains, 0);
    assert forall x :: x in t.bufs ==> TotAt(t.bufs, t.chains, x);
  }

  // ----- a row of 257 pbufs -----

  /** A row of `n` pbufs of one byte with a single reference each, pbuf `n - 1` first. */
  ghost predicate Row(s: State, n: nat) {
    && n > 0 && (forall x: nat :: x in s.made <==> x < n) && s.holders == multiset{n - 1}
    && (forall x :: x in s.bufs ==> s.bufs[x].ref == 1 && |s.bufs[x].data| == 1)
    && n - 1 in s.bufs && n - 1 in s.chains && |s.chains[n - 1]| == n
  }

  lemma {:induction false} Ones(bufs: Bufs, c: seq<nat>)
    requires forall x :: x in c ==> x in bufs && |bufs[x].data| == 1
    ensures |Flat(bufs, c)| == |c|
  {
    if c != [] {
      assert c[0] in c;
      Ones(bufs, c[1..]);
    }
  }

  lemma RowTotal(s: State, n: nat)
    requires Inv(s) && TotOk(s.bufs, s.chains) && Row(s, n)
    ensures s.bufs[n - 1].tot == n
  {
    assert TotAt(s.bufs, s.chains, n - 1);
    ChainShape(s.bufs, s.chains, n - 1);
    Ones(s.bufs, s.chains[n - 1]);
  }

  /** One more pbuf can be put in front. */
  lemma Longer(s: State, n: nat, u: State)
    requires Inv(s) && TotOk(s.bufs, s.chains) && Row(s, n) && n < 300 && u == Next(s, New(n, [], [0], Ram)) && Inv(u)
    requires TotOk(u.bufs, u.chains)
    ensures Enabled(u, CatOf(n, n - 1)) && Private(u, CatOf(n, n - 1)) && Row(Next(u, CatOf(n, n - 1)), n + 1)
  {
    RowTotal(s, n);
    ChainShape(s.bufs, s.chains, n - 1);
    assert n !in s.bufs && u.chains[n] == [n] && u.chains[n - 1] == s.chains[n - 1];
    forall x | x in s.chains ensures s.chains[x] != [] && Last(s.chains[x]) != n {
      ChainShape(s.bufs, s.chains, x);
    }
    assert u.holders == multiset{n - 1} + multiset{n} && u.holders - multiset{n - 1} == multiset{n};
    assert u.bufs[n].tot == 1 && u.bufs[n - 1].tot == n;
  }

  lemma RowOne(s: State)
    requires s == Next(Empty, New(0, [], [0], Ram))
    ensures Row(s, 1)
  {
    assert s.made == {} + {0};
    assert s.holders == multiset{0};
  }

  lemma {:induction false} RowRun(n: nat) returns (vs: seq<Event>, t: State)
    requires 0 < n <= 300
    ensures Reached(vs, t) && Row(t, n)
  {
    if n == 1 {
      Begin();
      vs, t := Go([], Empty, New(0, [], [0], Ram));
      RowOne(t);
    } else {
      var s, us;
      us, s := RowRun(n - 1);
      vs, t := Go(us, s, New(n - 1, [], [0], Ram));
      Longer(s, n - 1, t);
      vs, t := Go(vs, t, CatOf(n - 1, n - 2));
    }
  }

  lemma {:induction false} AllReleased(b: Bufs, c: seq<nat>)
    requires forall x :: x in c ==> x in b && b[x].ref <= 1
    requires forall i, k :: 0 <= i < k < |c| ==> c[i] != c[k]
    ensures Released(b, c) == |c|
  {
    if c != [] {
      assert c[0] in c;
      forall x | x in c[1..] ensures x in b - {c[0]} && x in c {
        var k :| 0 <= k < |c[1..]| && c[1..][k] == x;
        assert c[k + 1] == x;
      }
      AllReleased(b - {c[0]}, c[1..]);
    }
  }

  /** Everything behind the first pbuf of a row is released when that one is taken off. */
  lemma RowReleased(s: State, n: nat)
    requires Inv(s) && TotOk(s.bufs, s.chains) && Row(s, n) && n > 1
    ensures s.bufs[n - 1].next.To? && Enabled(s, DechainOf(n - 1)) && DechainReleased(s.bufs, s.chains, n - 1) == n - 1
  {
    var p := n - 1;
    Unfold(s.bufs, s.chains, p);
    var q := s.bufs[p].next.p;
    var c := s.chains[q];
    assert TotAt(s.bufs, s.chains, p) && TotAt(s.bufs, s.chains, q);
    ChainShape(s.bufs, s.chains, q);
    forall i, k | 0 <= i < k < |c| ensures c[i] != c[k] {
      ChainDistinct(s.bufs, s.chains, q, i, k);
    }
    AllReleased(Cut(Trimmed(s.bufs, [p], 0, |s.bufs[p].data|, 0), p), c);
  }

  /** Taking the first pbuf off a row of 257 releases the other 256, and a pointer to one of them is returned. */
  lemma DechainDangles() returns (vs: seq<Event>, t: State)
    ensures Reached(vs, t) && Enabled(t, DechainOf(256)) && DechainReleased(t.bufs, t.chains, 256) == 256
    ensures var rest := DechainRest(t.bufs, t.chains, 256); rest.To? && rest.p !in Next(t, DechainOf(256)).bufs
  {
    vs, t := RowRun(257);
    RowReleased(t, 257);
    RestDangles(t, 256);
  }

  lemma RestDangles(t: State, p: nat)
    requires Inv(t) && Enabled(t, DechainOf(p)) && Lost(DechainReleased(t.bufs, t.chains, p))
    ensures var rest := DechainRest(t.bufs, t.chains, p); rest.To? && rest.p !in Next(t, DechainOf(p)).bufs
  {
    var q := t.bufs[p].next.p;
    DechainStart(t.bufs, t.chains, t.holders, p, q);
    ChainShape(t.bufs, t.chains, p);
    var b := Trimmed(t.bufs, [p], 0, |t.bufs[p].data|, 0);
    assert b == Trimmed(t.bufs, t.chains[p], 0, |t.bufs[p].data|, 0);
    DechainEnd(t.bufs, t.chains, t.holders, p, q, b, CutFree(b, t.chains, p), Released(Cut(b, p), t.chains[q]) % 0x100);
  }
}
