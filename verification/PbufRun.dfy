/**
 Whole runs of pbuf operations: counts are right and every pbuf is released once in every
 run, totals are right in every run whose steps do not shorten or lengthen what others share.
 */
module PbufRun {
  import opened PbufModel
  import opened PbufOps
  import opened PbufResize

  /** `made` are all pbufs ever allocated (an identity is not used again), `freed` counts releases. */
  datatype State = State(bufs: Bufs, chains: Chains, holders: multiset<nat>, made: set<nat>, freed: multiset<nat>)

  datatype Event =
    | New(p: nat, room: seq<Byte>, data: seq<Byte>, kind: Kind)
    | RefTo(p: nat)
    | FreeOf(p: nat)
    | CatOf(h: nat, t: nat)
    | ChainOf(h: nat, t: nat)
    | DechainOf(p: nat)
    | ReallocOf(p: nat, n: nat)

  predicate Joinable(s: State, h: nat, t: nat) {
    && h in s.bufs && t in s.bufs && t in s.holders && h in s.chains && t in s.chains
    && s.chains[h] != [] && s.chains[t] != [] && Last(s.chains[h]) != Last(s.chains[t])
  }

  /** What callers must observe: they free and give away only references they hold, never close a
      circle, and shorten or take apart only chains whose own totals are right. */
  predicate Enabled(s: State, v: Event) {
    match v
    case New(p, room, data, kind) => p !in s.made && |data| <= 0xffff
    case RefTo(p) => p in s.bufs
    case FreeOf(p) => p in s.bufs && p in s.holders
    case CatOf(h, t) => Joinable(s, h, t)
    case ChainOf(h, t) => Joinable(s, h, t)
    case DechainOf(p) =>
      && Linked(s.bufs, s.chains) && p in s.bufs && TotAt(s.bufs, s.chains, p)
      && s.bufs[p].next.To? && s.bufs[p].next.p in s.bufs && TotAt(s.bufs, s.chains, s.bufs[p].next.p)
    case ReallocOf(p, n) => Linked(s.bufs, s.chains) && p in s.bufs && TotAt(s.bufs, s.chains, p)
  }

  function Gone(bufs: Bufs, b: Bufs): multiset<nat> { multiset(bufs.Keys - b.Keys) }

  function Next(s: State, v: Event): State
    requires Enabled(s, v)
  {
    match v
    case New(p, room, data, kind) =>
      State(s.bufs[p := Pbuf(Nil, room, data, |data|, 1, kind)], s.chains[p := [p]], s.holders + multiset{p},
        s.made + {p}, s.freed)
    case RefTo(p) => s.(bufs := RefUp(s.bufs, p), holders := s.holders + multiset{p})
    case FreeOf(p) =>
      var b := FreeChain(s.bufs, if p in s.chains then s.chains[p] else []);
      s.(bufs := b, chains := Keep(s.chains, b), holders := s.holders - multiset{p}, freed := s.freed + Gone(s.bufs, b))
    case CatOf(h, t) =>
      s.(bufs := Cat(s.bufs, s.chains[h], t), chains := CatChains(s.chains, Last(s.chains[h]), s.chains[t]),
         holders := s.holders - multiset{t})
    case ChainOf(h, t) =>
      s.(bufs := RefUp(Cat(s.bufs, s.chains[h], t), t), chains := CatChains(s.chains, Last(s.chains[h]), s.chains[t]))
    case DechainOf(p) =>
      var b := Dechain(s.bufs, s.chains, p);
      s.(bufs := b, chains := Keep(CutChains(s.chains, p), b), freed := s.freed + Gone(s.bufs, b))
    case ReallocOf(p, n) =>
      var b := Realloc(s.bufs, s.chains, p, n);
      s.(bufs := b, chains := ReallocChains(s.bufs, s.chains, p, n), freed := s.freed + Gone(s.bufs, b))
  }

  predicate Run(s: State, vs: seq<Event>, t: State)
    decreases |vs|
  {
    if vs == [] then t == s else Enabled(s, vs[0]) && Run(Next(s, vs[0]), vs[1..], t)
  }

  const Empty: State := State(map[], map[], multiset{}, {}, multiset{})

  /** Every pbuf ever made is either live or has been released exactly once. */
  ghost predicate Accounted(s: State) {
    && s.bufs.Keys <= s.made
    && forall p :: s.freed[p] == if p in s.made && p !in s.bufs then 1 else 0
  }

  ghost predicate Inv(s: State) { Ok(s.bufs, s.chains, s.holders) && Accounted(s) }

  lemma NewOk(bufs: Bufs, chains: Chains, holders: multiset<nat>, p: nat, x: Pbuf)
    requires Ok(bufs, chains, holders) && p !in bufs && x.next.Nil? && x.ref == 1
    ensures Ok(bufs[p := x], chains[p := [p]], holders + multiset{p})
  {
    var b, cs, hs := bufs[p := x], chains[p := [p]], holders + multiset{p};
    forall y | y in b ensures LinkOk(b, cs, y) && CountOk(b, hs, y) {
      if y != p {
        assert LinkOk(bufs, chains, y) && CountOk(bufs, holders, y);
        assert Preds(b, y) == Preds(bufs, y);
      } else {
        forall q | q in bufs ensures bufs[q].next != To(p) {
          assert LinkOk(bufs, chains, q);
        }
        assert Preds(b, p) == {};
      }
    }
  }

  /** Counts and links after one step. */
  lemma NextOk(s: State, v: Event)
    requires Inv(s) && Enabled(s, v)
    ensures Ok(Next(s, v).bufs, Next(s, v).chains, Next(s, v).holders)
  {
    match v
    case New(p, room, data, kind) => NewOk(s.bufs, s.chains, s.holders, p, Pbuf(Nil, room, data, |data|, 1, kind));
    case RefTo(p) => RefUpOk(s.bufs, s.chains, s.holders, p);
    case FreeOf(p) => FreeOk(s.bufs, s.chains, s.holders, p);
    case CatOf(h, t) => CatOk(s.bufs, s.chains, s.holders, h, t);
    case ChainOf(h, t) =>
      CatOk(s.bufs, s.chains, s.holders, h, t);
      RefUpOk(Cat(s.bufs, s.chains[h], t), CatChains(s.chains, Last(s.chains[h]), s.chains[t]), s.holders - multiset{t},
        t);
      assert s.holders - multiset{t} + multiset{t} == s.holders;
    case DechainOf(p) => DechainOk(s.bufs, s.chains, s.holders, p);
    case ReallocOf(p, n) => ReallocExact(s.bufs, s.chains, s.holders, p, n);
  }

  predicate Releases(v: Event) { v.FreeOf? || v.DechainOf? || v.ReallocOf? }

  /** Which pbufs there are after one step. */
  lemma KeepsKeys(s: State, v: Event)
    requires Enabled(s, v) && !Releases(v)
    ensures var t := Next(s, v); t.freed == s.freed
    ensures v.New? ==> Next(s, v).bufs.Keys == s.bufs.Keys + {v.p} && Next(s, v).made == s.made + {v.p}
    ensures !v.New? ==> Next(s, v).bufs.Keys == s.bufs.Keys && Next(s, v).made == s.made
  {
    if v.CatOf? || v.ChainOf? {
      CatKeys(s.bufs, s.chains[v.h], v.t);
    }
  }

  lemma DropsKeys(s: State, v: Event)
    requires Inv(s) && Enabled(s, v) && Releases(v)
    ensures var t := Next(s, v);
            t.bufs.Keys <= s.bufs.Keys && t.made == s.made && t.freed == s.freed + Gone(s.bufs, t.bufs)
  {
    match v
    case FreeOf(p) => FreeFewer(s.bufs, s.chains[p]);
    case DechainOf(p) => DechainKeys(s, p);
    case ReallocOf(p, n) => ReallocKeys(s, p, n);
  }

  lemma CatKeys(bufs: Bufs, c: seq<nat>, t: nat)
    requires t in bufs && c != []
    ensures Cat(bufs, c, t).Keys == bufs.Keys && RefUp(Cat(bufs, c, t), t).Keys == bufs.Keys
  {
  }

  lemma FreeFewer(bufs: Bufs, c: seq<nat>)
    ensures FreeChain(bufs, c).Keys <= bufs.Keys
  {
    FreeKeys(bufs, c);
  }

  lemma DechainKeys(s: State, p: nat)
    requires Inv(s) && Enabled(s, DechainOf(p))
    ensures Dechain(s.bufs, s.chains, p).Keys <= s.bufs.Keys
  {
    DechainCuts(s.bufs, s.chains, p);
    EndAtKeys(s.bufs, s.chains, s.holders, p, 0, |s.bufs[p].data|, |Flat(s.bufs, s.chains[p][1..])|, p);
  }

  lemma ReallocKeys(s: State, p: nat, n: nat)
    requires Inv(s) && Enabled(s, ReallocOf(p, n))
    ensures Realloc(s.bufs, s.chains, p, n).Keys <= s.bufs.Keys
  {
    if n < s.bufs[p].tot {
      var k := KeepAt(s.bufs, s.chains[p], n);
      ReallocCuts(s.bufs, s.chains, p, n, k);
      EndAtFewer(s, p, k, n - |Flat(s.bufs, s.chains[p][..k])|, s.bufs[p].tot - n);
    }
  }

  lemma EndAtFewer(s: State, p: nat, k: nat, rem: nat, d: nat)
    requires Inv(s) && Cuts(s.bufs, s.chains, p, k, rem, d)
    ensures EndAt(s.bufs, s.chains, s.chains[p], k, rem, d).Keys <= s.bufs.Keys
  {
    EndAtKeys(s.bufs, s.chains, s.holders, p, k, rem, d, s.chains[p][k]);
  }

  lemma NextInv(s: State, v: Event)
    requires Inv(s) && Enabled(s, v)
    ensures Inv(Next(s, v))
  {
    NextOk(s, v);
    if Releases(v) {
      DropsKeys(s, v);
    } else {
      KeepsKeys(s, v);
    }
  }

  lemma {:induction false} RunInv(s: State, vs: seq<Event>, t: State)
    requires Inv(s) && Run(s, vs, t)
    ensures Inv(t)
    decreases |vs|
  {
    if vs != [] {
      NextInv(s, vs[0]);
      RunInv(Next(s, vs[0]), vs[1..], t);
    }
  }

  /** In every run: the count of every live pbuf is that of its holders and of the links into it; every
      pbuf ever made is live or was released, once; and whatever a caller holds is live. */
  lemma RunSafe(vs: seq<Event>, t: State, p: nat)
    requires Run(Empty, vs, t)
    ensures p in t.bufs ==> t.bufs[p].ref == t.holders[p] + |Preds(t.bufs, p)| > 0
    ensures p in t.made ==> (p in t.bufs <==> t.freed[p] == 0) && t.freed[p] <= 1
    ensures p in t.holders ==> p in t.bufs
  {
    RunInv(Empty, vs, t);
    assert p in t.bufs ==> CountOk(t.bufs, t.holders, p);
  }

  /** In every run, whatever is live can be reached from a reference that somebody holds. */
  lemma NoLeak(vs: seq<Event>, t: State, p: nat) returns (h: nat)
    requires Run(Empty, vs, t) && p in t.bufs
    ensures h in t.holders && h in t.chains && p in t.chains[h]
  {
    RunInv(Empty, vs, t);
    h := Reachable(t.bufs, t.chains, t.holders, p);
  }

  // ----- totals -----

  /** The step does not change the length of what other chains share. */
  predicate Private(s: State, v: Event)
    requires Enabled(s, v)
  {
    match v
    case CatOf(h, t) => (s.bufs[t].tot == 0 || Alone(s.chains, s.chains[h])) && s.bufs[h].tot + s.bufs[t].tot <= 0xffff
    case ChainOf(h, t) => (s.bufs[t].tot == 0 || Alone(s.chains, s.chains[h]))
      && s.bufs[h].tot + s.bufs[t].tot <= 0xffff
    case DechainOf(p) =>
      s.bufs[p].tot == |s.bufs[p].data| || forall x :: x in s.bufs && x in s.chains && p in s.chains[x] ==> x == p
    case ReallocOf(p, n) =>
      var k := KeepAt(s.bufs, s.chains[p], n);
      n >= s.bufs[p].tot || (k < |s.chains[p]| && Unshared(s.chains, s.chains[p], k))
    case _ => true
  }

  lemma NewTot(bufs: Bufs, chains: Chains, p: nat, x: Pbuf, b: Bufs, cs: Chains)
    requires Linked(bufs, chains) && TotOk(bufs, chains) && p !in bufs && x.tot == |x.data| <= 0xffff
    requires b == bufs[p := x] && cs == chains[p := [p]]
    ensures TotOk(b, cs)
  {
    forall y | y in b ensures TotAt(b, cs, y) {
      if y != p {
        assert TotAt(bufs, chains, y);
        ChainShape(bufs, chains, y);
        FlatFrame(bufs, b, chains[y]);
      } else {
        assert [p][1..] == [] && Flat(b, [p]) == x.data;
      }
    }
  }

  lemma RefUpTot(bufs: Bufs, chains: Chains, p: nat)
    requires Linked(bufs, chains) && TotOk(bufs, chains) && p in bufs
    ensures TotOk(RefUp(bufs, p), chains)
  {
    var b := RefUp(bufs, p);
    forall y | y in b ensures TotAt(b, chains, y) {
      assert TotAt(bufs, chains, y);
      ChainShape(bufs, chains, y);
      FlatFrame(bufs, b, chains[y]);
    }
  }

  /** In such a step totals stay right exactly under this condition. */
  lemma NextTotExact(s: State, v: Event)
    requires Inv(s) && TotOk(s.bufs, s.chains) && Enabled(s, v)
    ensures var t := Next(s, v); t.chains.Keys == t.bufs.Keys && (TotOk(t.bufs, t.chains) <==> Private(s, v))
  {
    NextOk(s, v);
    match v
    case New(p, room, data, kind) =>
      NewTot(s.bufs, s.chains, p, Pbuf(Nil, room, data, |data|, 1, kind), Next(s, v).bufs, Next(s, v).chains);
    case RefTo(p) => RefUpTot(s.bufs, s.chains, p);
    case FreeOf(p) => FreeTot(s.bufs, s.chains, s.holders, p);
    case CatOf(h, t) => CatTotExact(s.bufs, s.chains, h, t);
    case ChainOf(h, t) => ChainTot(s, h, t);
    case DechainOf(p) => DechainExact(s.bufs, s.chains, s.holders, p);
    case ReallocOf(p, n) =>
      if n < s.bufs[p].tot {
        ReallocTotExact(s.bufs, s.chains, s.holders, p, n, KeepAt(s.bufs, s.chains[p], n),
                        Next(s, v).bufs, Next(s, v).chains);
      }
  }

  lemma ChainTot(s: State, h: nat, t: nat)
    requires Inv(s) && TotOk(s.bufs, s.chains) && Enabled(s, ChainOf(h, t))
    ensures var r := Next(s, ChainOf(h, t));
            r.chains.Keys == r.bufs.Keys && (TotOk(r.bufs, r.chains) <==> Private(s, ChainOf(h, t)))
  {
    var b, cs := Cat(s.bufs, s.chains[h], t), CatChains(s.chains, Last(s.chains[h]), s.chains[t]);
    CatTotExact(s.bufs, s.chains, h, t);
    CatLinked(s.bufs, s.chains, h, t);
    RefUpSame(b, cs, t);
  }

  lemma RefUpSame(bufs: Bufs, chains: Chains, p: nat)
    requires Linked(bufs, chains) && p in bufs
    ensures TotOk(RefUp(bufs, p), chains) <==> TotOk(bufs, chains)
  {
    var b := RefUp(bufs, p);
    forall y | y in b ensures TotAt(b, chains, y) <==> TotAt(bufs, chains, y) {
      ChainShape(bufs, chains, y);
      FlatFrame(bufs, b, chains[y]);
    }
    assert TotOk(b, chains) ==> forall y :: y in bufs ==> TotAt(b, chains, y);
  }

  ghost predicate PrivateRun(s: State, vs: seq<Event>)
    decreases |vs|
  {
    vs != [] ==> Enabled(s, vs[0]) && Private(s, vs[0]) && PrivateRun(Next(s, vs[0]), vs[1..])
  }

  /** In every run whose steps leave shared parts alone, every total is right at every pbuf. */
  lemma {:induction false} RunTot(s: State, vs: seq<Event>, t: State)
    requires Inv(s) && TotOk(s.bufs, s.chains) && Run(s, vs, t) && PrivateRun(s, vs)
    ensures Inv(t) && TotOk(t.bufs, t.chains)
    decreases |vs|
  {
    if vs != [] {
      NextInv(s, vs[0]);
      NextTotExact(s, vs[0]);
      RunTot(Next(s, vs[0]), vs[1..], t);
    }
  }
}
