/**
 The operations of pbuf.c that change links, lengths and reference counts, as
 functions on the pbufs, and what they keep.
 */
module PbufOps {
  import opened PbufModel

  // ----- pbuf_ref -----

  function RefUp(bufs: Bufs, p: nat): Bufs
    requires p in bufs
  {
    bufs[p := bufs[p].(ref := bufs[p].ref + 1)]
  }

  lemma RefOkFrame(bufs: Bufs, bufs': Bufs, p: nat)
    requires bufs'.Keys == bufs.Keys && forall q :: q in bufs ==> bufs'[q].next == bufs[q].next
    ensures Preds(bufs', p) == Preds(bufs, p)
  {
  }

  lemma RefUpOk(bufs: Bufs, chains: Chains, holders: multiset<nat>, p: nat)
    requires Ok(bufs, chains, holders) && p in bufs
    ensures Ok(RefUp(bufs, p), chains, holders + multiset{p})
  {
    var b := RefUp(bufs, p);
    forall x | x in b ensures LinkOk(b, chains, x) && CountOk(b, holders + multiset{p}, x) {
      assert LinkOk(bufs, chains, x) && CountOk(bufs, holders, x);
      RefOkFrame(bufs, b, x);
    }
  }

  // ----- pbuf_cat -----

  /** The pbufs of the head chain `c` after `pbuf_cat`: totals grow, the last one links to `t`. */
  function Cat(bufs: Bufs, c: seq<nat>, t: nat): Bufs
    requires t in bufs && c != []
  {
    map x | x in bufs ::
      if x in c then bufs[x].(tot := (bufs[x].tot + bufs[t].tot) % 0x1_0000,
                              next := if x == Last(c) then To(t) else bufs[x].next)
      else bufs[x]
  }

  /** Every chain that ended where the head chain ended now goes on with `ct`. */
  function CatChains(chains: Chains, last: nat, ct: seq<nat>): Chains {
    map x | x in chains :: if chains[x] != [] && Last(chains[x]) == last then chains[x] + ct else chains[x]
  }

  lemma CatLinkAt(bufs: Bufs, chains: Chains, b: Bufs, cs: Chains, h: nat, t: nat, last: nat, x: nat)
    requires Linked(bufs, chains) && h in bufs && t in bufs && chains[h] != [] && chains[t] != []
    requires last == Last(chains[h]) != Last(chains[t])
    requires b == Cat(bufs, chains[h], t) && cs == CatChains(chains, last, chains[t]) && x in bufs
    ensures LinkOk(b, cs, x)
  {
    assert LinkOk(bufs, chains, x);
    ChainShape(bufs, chains, x);
    if bufs[x].next.To? {
      var q := bufs[x].next.p;
      assert x != last by {
        LinksAlong(bufs, chains, h, |chains[h]| - 1);
      }
      ChainShape(bufs, chains, q);
      assert Last(chains[x]) == Last(chains[q]);
      assert chains[x] + chains[t] == [x] + (chains[q] + chains[t]);
    } else if x in chains[h] {
      var k := Behind(bufs, chains, h, x);
    }
  }

  lemma CatLinked(bufs: Bufs, chains: Chains, h: nat, t: nat)
    requires Linked(bufs, chains) && h in bufs && t in bufs && chains[h] != [] && chains[t] != []
    requires Last(chains[h]) != Last(chains[t])
    ensures Linked(Cat(bufs, chains[h], t), CatChains(chains, Last(chains[h]), chains[t]))
  {
    var last, b, cs := Last(chains[h]), Cat(bufs, chains[h], t), CatChains(chains, Last(chains[h]), chains[t]);
    forall x | x in b ensures LinkOk(b, cs, x) {
      CatLinkAt(bufs, chains, b, cs, h, t, last, x);
    }
  }

  /** One more link, from `last` to `t`, and nothing else. */
  lemma LinkTo(bufs: Bufs, b: Bufs, last: nat, t: nat, x: nat)
    requires b.Keys == bufs.Keys && last in bufs && bufs[last].next.Nil? && b[last].next == To(t)
    requires forall q :: q in bufs && q != last ==> b[q].next == bufs[q].next
    ensures |Preds(b, x)| == |Preds(bufs, x)| + if x == t then 1 else 0
  {
    if x == t {
      assert Preds(b, x) == Preds(bufs, x) + {last} && last !in Preds(bufs, x);
    } else {
      assert Preds(b, x) == Preds(bufs, x);
    }
  }

  lemma CatRef(bufs: Bufs, chains: Chains, holders: multiset<nat>, h: nat, t: nat)
    requires Ok(bufs, chains, holders) && h in bufs && t in bufs && t in holders && chains[h] != []
    ensures RefOk(Cat(bufs, chains[h], t), holders - multiset{t})
  {
    var last, b, hs := Last(chains[h]), Cat(bufs, chains[h], t), holders - multiset{t};
    LinksAlong(bufs, chains, h, |chains[h]| - 1);
    assert last in chains[h];
    forall x | x in b ensures CountOk(b, hs, x) {
      assert CountOk(bufs, holders, x);
      LinkTo(bufs, b, last, t, x);
    }
  }

  /** `pbuf_cat` takes over the caller's reference to `t`. */
  lemma CatOk(bufs: Bufs, chains: Chains, holders: multiset<nat>, h: nat, t: nat)
    requires Ok(bufs, chains, holders) && h in bufs && t in bufs && t in holders
    requires chains[h] != [] && chains[t] != [] && Last(chains[h]) != Last(chains[t])
    ensures Ok(Cat(bufs, chains[h], t), CatChains(chains, Last(chains[h]), chains[t]), holders - multiset{t})
  {
    CatLinked(bufs, chains, h, t);
    CatRef(bufs, chains, holders, h, t);
  }

  /** The bytes of every chain that ran through the end of the head are followed by those of `t`. */
  lemma CatFlat(bufs: Bufs, chains: Chains, h: nat, t: nat, x: nat)
    requires Linked(bufs, chains) && h in bufs && t in bufs && x in bufs && chains[h] != [] && chains[t] != []
    requires Last(chains[h]) != Last(chains[t])
    ensures chains[x] != []
    ensures Flat(Cat(bufs, chains[h], t), CatChains(chains, Last(chains[h]), chains[t])[x]) ==
            Flat(bufs, chains[x]) + if Last(chains[x]) == Last(chains[h]) then Flat(bufs, chains[t]) else []
  {
    var b := Cat(bufs, chains[h], t);
    ChainShape(bufs, chains, x);
    ChainShape(bufs, chains, t);
    FlatFrame(bufs, b, chains[x]);
    FlatFrame(bufs, b, chains[t]);
    FlatConcat(b, chains[x], chains[t]);
  }

  /** No pbuf outside the chain `c` leads to its end. */
  predicate Alone(chains: Chains, c: seq<nat>)
    requires c != []
  {
    forall x :: x in chains && x !in c && chains[x] != [] ==> Last(chains[x]) != Last(c)
  }

  /** `pbuf_cat` keeps all totals right exactly when nobody outside the head chain shares its end
      (unless nothing is added), and the sum fits 16 bits. */
  lemma CatTotExact(bufs: Bufs, chains: Chains, h: nat, t: nat)
    requires Linked(bufs, chains) && TotOk(bufs, chains) && h in bufs && t in bufs && chains[h] != [] && chains[t] != []
    requires Last(chains[h]) != Last(chains[t])
    ensures TotOk(Cat(bufs, chains[h], t), CatChains(chains, Last(chains[h]), chains[t])) <==>
            (bufs[t].tot == 0 || Alone(chains, chains[h])) && bufs[h].tot + bufs[t].tot <= 0xffff
  {
    var b, cs := Cat(bufs, chains[h], t), CatChains(chains, Last(chains[h]), chains[t]);
    ChainShape(bufs, chains, h);
    CatFlat(bufs, chains, h, t, h);
    assert TotAt(bufs, chains, h) && TotAt(bufs, chains, t);
    if (bufs[t].tot == 0 || Alone(chains, chains[h])) && bufs[h].tot + bufs[t].tot <= 0xffff {
      forall x | x in b ensures TotAt(b, cs, x) {
        CatTotAt(bufs, chains, b, cs, h, t, x);
      }
    } else if bufs[h].tot + bufs[t].tot <= 0xffff {
      var x :| x in chains && x !in chains[h] && chains[x] != [] && Last(chains[x]) == Last(chains[h]);
      CatFlat(bufs, chains, h, t, x);
      assert TotAt(bufs, chains, x);
      assert !TotAt(b, cs, x);
    } else {
      assert !TotAt(b, cs, h);
    }
  }

  /** The number of bytes behind `x` after a `pbuf_cat`. */
  lemma CatSize(bufs: Bufs, chains: Chains, b: Bufs, cs: Chains, h: nat, t: nat, x: nat, n: nat, m: nat)
    requires Linked(bufs, chains) && h in bufs && t in bufs && x in bufs
    requires chains[h] != [] && chains[t] != [] && Last(chains[h]) != Last(chains[t])
    requires b == Cat(bufs, chains[h], t) && cs == CatChains(chains, Last(chains[h]), chains[t])
    requires n == |Flat(bufs, chains[x])| && m == |Flat(bufs, chains[t])|
    ensures x in cs && chains[x] != []
    ensures |Flat(b, cs[x])| == n + if Last(chains[x]) == Last(chains[h]) then m else 0
  {
    CatFlat(bufs, chains, h, t, x);
  }

  lemma CatTotAt(bufs: Bufs, chains: Chains, b: Bufs, cs: Chains, h: nat, t: nat, x: nat)
    requires Linked(bufs, chains) && TotOk(bufs, chains) && h in bufs && t in bufs && x in bufs
    requires chains[h] != [] && chains[t] != [] && Last(chains[h]) != Last(chains[t])
    requires b == Cat(bufs, chains[h], t) && cs == CatChains(chains, Last(chains[h]), chains[t])
    requires (bufs[t].tot == 0 || Alone(chains, chains[h])) && bufs[h].tot + bufs[t].tot <= 0xffff
    ensures TotAt(b, cs, x)
  {
    assert TotAt(bufs, chains, h) && TotAt(bufs, chains, t) && TotAt(bufs, chains, x);
    CatSize(bufs, chains, b, cs, h, t, x, bufs[x].tot, bufs[t].tot);
    if x in chains[h] {
      TailShorter(bufs, chains, h, x);
      CatTotField(bufs, chains[h], t, x);
    }
  }

  lemma CatTotField(bufs: Bufs, c: seq<nat>, t: nat, x: nat)
    requires t in bufs && x in bufs && x in c && bufs[x].tot + bufs[t].tot <= 0xffff
    ensures Cat(bufs, c, t)[x].tot == bufs[x].tot + bufs[t].tot
  {
  }

  lemma TailShorter(bufs: Bufs, chains: Chains, h: nat, x: nat)
    requires Linked(bufs, chains) && h in bufs && x in chains[h]
    ensures x in bufs && |Flat(bufs, chains[x])| <= |Flat(bufs, chains[h])|
    ensures chains[x] != [] && chains[h] != [] && Last(chains[x]) == Last(chains[h])
  {
    var k := Behind(bufs, chains, h, x);
    assert chains[h] == chains[h][..k] + chains[h][k..];
    FlatConcat(bufs, chains[h][..k], chains[h][k..]);
  }

  // ----- pbuf_free -----

  /** Dereferences the pbufs of `c` up to the first one that stays in use. */
  function FreeChain(bufs: Bufs, c: seq<nat>): Bufs {
    if c == [] || c[0] !in bufs then bufs
    else if bufs[c[0]].ref > 1 then bufs[c[0] := bufs[c[0]].(ref := bufs[c[0]].ref - 1)]
    else FreeChain(bufs - {c[0]}, c[1..])
  }

  /** How many of them are deallocated: the leading ones with one reference. */
  function Released(bufs: Bufs, c: seq<nat>): (k: nat)
    ensures k <= |c|
  {
    if c == [] || c[0] !in bufs || bufs[c[0]].ref > 1 then 0 else 1 + Released(bufs - {c[0]}, c[1..])
  }

  function Keep(chains: Chains, bufs: Bufs): Chains { map x | x in chains && x in bufs :: chains[x] }

  function Hold(l: Link): multiset<nat> { if l.To? then multiset{l.p} else multiset{} }

  /** The last reference to `p` is given up: it has no other holder and no link into it, and its own
      link is what now holds the next pbuf. */
  lemma ReleaseCount(bufs: Bufs, holders: multiset<nat>, p: nat, x: nat)
    requires p in bufs && p in holders && CountOk(bufs, holders, p) && bufs[p].ref == 1
    requires x in bufs && x != p && CountOk(bufs, holders, x)
    ensures bufs[x].next != To(p) && CountOk(bufs - {p}, holders - multiset{p} + Hold(bufs[p].next), x)
  {
    var b := bufs - {p};
    assert x !in Preds(bufs, p);
    if bufs[p].next == To(x) {
      assert Preds(bufs, x) == Preds(b, x) + {p} && p !in Preds(b, x);
    } else {
      assert Preds(bufs, x) == Preds(b, x);
    }
  }

  lemma ReleaseOk(bufs: Bufs, chains: Chains, holders: multiset<nat>, p: nat)
    requires Ok(bufs, chains, holders) && p in bufs && p in holders && bufs[p].ref == 1
    ensures Ok(bufs - {p}, chains - {p}, holders - multiset{p} + Hold(bufs[p].next))
  {
    var b, hs := bufs - {p}, holders - multiset{p} + Hold(bufs[p].next);
    assert CountOk(bufs, holders, p) && LinkOk(bufs, chains, p);
    assert Preds(bufs, p) == {};
    NoSelfLink(bufs, chains, p);
    forall x | x in b ensures LinkOk(b, chains - {p}, x) && CountOk(b, hs, x) {
      assert CountOk(bufs, holders, x) && LinkOk(bufs, chains, x);
      ReleaseCount(bufs, holders, p, x);
    }
  }

  lemma NoSelfLink(bufs: Bufs, chains: Chains, p: nat)
    requires Linked(bufs, chains) && p in bufs
    ensures bufs[p].next != To(p)
  {
    assert LinkOk(bufs, chains, p);
  }

  lemma DropRef(bufs: Bufs, chains: Chains, holders: multiset<nat>, p: nat)
    requires Ok(bufs, chains, holders) && p in bufs && p in holders && bufs[p].ref > 1
    ensures Ok(bufs[p := bufs[p].(ref := bufs[p].ref - 1)], chains, holders - multiset{p})
  {
    var b := bufs[p := bufs[p].(ref := bufs[p].ref - 1)];
    forall x | x in b ensures LinkOk(b, chains, x) && CountOk(b, holders - multiset{p}, x) {
      assert LinkOk(bufs, chains, x) && CountOk(bufs, holders, x);
      RefOkFrame(bufs, b, x);
    }
  }

  lemma KeepWithout(chains: Chains, bufs: Bufs, p: nat, b: Bufs)
    requires chains.Keys == bufs.Keys && p !in b
    ensures Keep(chains - {p}, b) == Keep(chains, b) && Keep(chains, bufs) == chains
    ensures Keep(chains, bufs - {p}) == chains - {p}
  {
  }

  /** Giving up one reference: counts stay right, and what is left of the chains is unchanged. */
  lemma {:induction false} FreeOk(bufs: Bufs, chains: Chains, holders: multiset<nat>, p: nat)
    requires Ok(bufs, chains, holders) && p in bufs && p in holders
    ensures var b := FreeChain(bufs, chains[p]); Ok(b, Keep(chains, b), holders - multiset{p})
    decreases |chains[p]|
  {
    ChainShape(bufs, chains, p);
    assert LinkOk(bufs, chains, p) && CountOk(bufs, holders, p);
    KeepWithout(chains, bufs, p, map[]);
    if bufs[p].ref > 1 {
      DropRef(bufs, chains, holders, p);
      KeepSame(chains, bufs, FreeChain(bufs, chains[p]));
    } else {
      ReleaseOk(bufs, chains, holders, p);
      if bufs[p].next.To? {
        FreeMore(bufs, chains, holders, p, bufs[p].next.p);
      } else {
        assert FreeChain(bufs, chains[p]) == bufs - {p};
        assert holders - multiset{p} + Hold(Nil) == holders - multiset{p};
      }
    }
  }

  lemma KeepSame(chains: Chains, bufs: Bufs, b: Bufs)
    requires chains.Keys == bufs.Keys == b.Keys
    ensures Keep(chains, b) == chains
  {
  }

  lemma {:induction false} FreeMore(bufs: Bufs, chains: Chains, holders: multiset<nat>, p: nat, q: nat)
    requires Ok(bufs, chains, holders) && p in bufs && p in holders && bufs[p].ref == 1 && bufs[p].next == To(q)
    ensures var b := FreeChain(bufs, chains[p]); Ok(b, Keep(chains, b), holders - multiset{p})
    decreases |chains[p]|, 0
  {
    var c, cs, hs := chains[p], chains - {p}, holders - multiset{p} + multiset{q};
    assert LinkOk(bufs, chains, p);
    ReleaseOk(bufs, chains, holders, p);
    NoSelfLink(bufs, chains, p);
    assert c[1..] == cs[q];
    FreeOk(bufs - {p}, cs, hs, q);
    var b := FreeChain(bufs - {p}, cs[q]);
    assert FreeChain(bufs, c) == b;
    FreeKeys(bufs - {p}, c[1..]);
    KeepWithout(chains, bufs, p, b);
    assert hs - multiset{q} == holders - multiset{p};
  }

  /** Exactly the leading pbufs with a single reference go, the next one loses a reference, and no other
      pbuf changes. */
  lemma {:induction false} FreeKeys(bufs: Bufs, c: seq<nat>)
    ensures var b, k := FreeChain(bufs, c), Released(bufs, c);
            && b.Keys == bufs.Keys - (set x | x in c[..k])
            && (forall x :: x in b ==> b[x].(ref := 0) == bufs[x].(ref := 0))
            && (forall x :: x in b && (k < |c| ==> x != c[k]) ==> b[x] == bufs[x])
            && (k < |c| && c[k] in b ==> b[c[k]].ref == bufs[c[k]].ref - 1)
  {
    var k := Released(bufs, c);
    if k > 0 {
      FreeKeys(bufs - {c[0]}, c[1..]);
      assert c[..k] == [c[0]] + c[1..][..k - 1];
    }
  }

  /** Freeing leaves the bytes and totals of every chain that is still there. */
  lemma FreeFlat(bufs: Bufs, chains: Chains, holders: multiset<nat>, p: nat, x: nat)
    requires Ok(bufs, chains, holders) && p in bufs && p in holders
    requires x in FreeChain(bufs, chains[p])
    ensures x in bufs && Flat(FreeChain(bufs, chains[p]), chains[x]) == Flat(bufs, chains[x])
    ensures FreeChain(bufs, chains[p])[x].tot == bufs[x].tot
  {
    var b := FreeChain(bufs, chains[p]);
    FreeOk(bufs, chains, holders, p);
    FreeKeys(bufs, chains[p]);
    ChainShape(b, Keep(chains, b), x);
    FlatFrame(bufs, b, chains[x]);
  }

  lemma FreeTot(bufs: Bufs, chains: Chains, holders: multiset<nat>, p: nat)
    requires Ok(bufs, chains, holders) && p in bufs && p in holders && TotOk(bufs, chains)
    ensures var b := FreeChain(bufs, chains[p]); Keep(chains, b).Keys == b.Keys && TotOk(b, Keep(chains, b))
  {
    var b := FreeChain(bufs, chains[p]);
    FreeOk(bufs, chains, holders, p);
    forall x | x in b ensures TotAt(b, Keep(chains, b), x) {
      FreeFlat(bufs, chains, holders, p, x);
      assert TotAt(bufs, chains, x);
    }
  }

  // ----- cutting a chain -----

  /** Only lengths and payloads differ. */
  predicate SameShape(bufs: Bufs, b: Bufs) {
    b.Keys == bufs.Keys && forall x :: x in bufs ==> b[x].next == bufs[x].next && b[x].ref == bufs[x].ref
  }

  lemma SameShapeOk(bufs: Bufs, b: Bufs, chains: Chains, holders: multiset<nat>)
    requires Ok(bufs, chains, holders) && SameShape(bufs, b)
    ensures Ok(b, chains, holders)
  {
    forall x | x in b ensures LinkOk(b, chains, x) && CountOk(b, holders, x) {
      assert LinkOk(bufs, chains, x) && CountOk(bufs, holders, x);
      RefOkFrame(bufs, b, x);
    }
  }

  function Pos(c: seq<nat>, q: nat): (i: nat)
    ensures i <= |c|
    ensures i < |c| ==> c[i] == q
    ensures i == |c| <==> q !in c
  {
    if c == [] || c[0] == q then 0 else 1 + Pos(c[1..], q)
  }

  /** The link out of `q` is cleared. */
  function Cut(bufs: Bufs, q: nat): Bufs
    requires q in bufs
  {
    bufs[q := bufs[q].(next := Nil)]
  }

  /** Every chain through `q` now ends there. */
  function UpTo(c: seq<nat>, q: nat): seq<nat> { if q in c then c[..Pos(c, q) + 1] else c }

  function CutChains(chains: Chains, q: nat): Chains { map x | x in chains :: UpTo(chains[x], q) }

  lemma CutLinkAt(bufs: Bufs, chains: Chains, b: Bufs, cs: Chains, q: nat, x: nat)
    requires Linked(bufs, chains) && q in bufs && x in bufs && b == Cut(bufs, q) && cs == CutChains(chains, q)
    ensures LinkOk(b, cs, x)
  {
    assert LinkOk(bufs, chains, x);
    ChainShape(bufs, chains, x);
    if x != q && bufs[x].next.To? {
      var y := bufs[x].next.p;
      assert chains[x][1..] == chains[y];
    }
  }

  lemma CutCount(bufs: Bufs, holders: multiset<nat>, q: nat, n: nat, x: nat)
    requires q in bufs && bufs[q].next == To(n) && x in bufs && CountOk(bufs, holders, x)
    ensures CountOk(Cut(bufs, q), holders + multiset{n}, x)
  {
    var b := Cut(bufs, q);
    if x == n {
      assert Preds(bufs, x) == Preds(b, x) + {q} && q !in Preds(b, x);
    } else {
      assert Preds(bufs, x) == Preds(b, x);
    }
  }

  /** Whoever clears the link holds the reference it stood for. */
  lemma CutOk(bufs: Bufs, chains: Chains, holders: multiset<nat>, q: nat)
    requires Ok(bufs, chains, holders) && q in bufs && bufs[q].next.To?
    ensures Ok(Cut(bufs, q), CutChains(chains, q), holders + multiset{bufs[q].next.p})
  {
    var b, cs, n := Cut(bufs, q), CutChains(chains, q), bufs[q].next.p;
    assert LinkOk(bufs, chains, q);
    forall x | x in b ensures LinkOk(b, cs, x) && CountOk(b, holders + multiset{n}, x) {
      CutLinkAt(bufs, chains, b, cs, q, x);
      assert CountOk(bufs, holders, x);
      CutCount(bufs, holders, q, n, x);
    }
  }

  /** Nothing behind `q` leads back to it. */
  lemma CutTail(bufs: Bufs, chains: Chains, q: nat)
    requires Linked(bufs, chains) && q in bufs && bufs[q].next.To?
    ensures bufs[q].next.p in bufs && CutChains(chains, q)[bufs[q].next.p] == chains[bufs[q].next.p]
    ensures chains[q] == [q] + chains[bufs[q].next.p] && CutChains(chains, q)[q] == [q]
  {
    var n := bufs[q].next.p;
    assert LinkOk(bufs, chains, q);
    if q in chains[n] {
      var k := Behind(bufs, chains, n, q);
    }
  }

  /** Cut behind `q` and free the rest. */
  function CutFree(bufs: Bufs, chains: Chains, q: nat): Bufs
    requires q in bufs
  {
    if bufs[q].next.To? && bufs[q].next.p in chains then FreeChain(Cut(bufs, q), chains[bufs[q].next.p])
    else bufs
  }

  lemma CutFreeOk(bufs: Bufs, chains: Chains, holders: multiset<nat>, q: nat)
    requires Ok(bufs, chains, holders) && q in bufs
    ensures var b := CutFree(bufs, chains, q); Ok(b, Keep(CutChains(chains, q), b), holders)
  {
    assert LinkOk(bufs, chains, q);
    if bufs[q].next.To? {
      var n := bufs[q].next.p;
      CutOk(bufs, chains, holders, q);
      CutTail(bufs, chains, q);
      FreeOk(Cut(bufs, q), CutChains(chains, q), holders + multiset{n}, n);
      assert holders + multiset{n} - multiset{n} == holders;
    } else {
      forall x | x in bufs ensures UpTo(chains[x], q) == chains[x] {
        EndsAt(bufs, chains, q, x);
      }
      assert Keep(CutChains(chains, q), bufs) == chains;
    }
  }

  /** A chain through a pbuf without a link ends there. */
  lemma EndsAt(bufs: Bufs, chains: Chains, q: nat, x: nat)
    requires Linked(bufs, chains) && q in bufs && x in bufs && bufs[q].next.Nil?
    ensures UpTo(chains[x], q) == chains[x]
  {
    if q in chains[x] {
      LinksAlong(bufs, chains, x, Pos(chains[x], q));
    }
  }

  /** The pbufs that are still there keep their payload and totals. */
  lemma CutFreeKeys(bufs: Bufs, chains: Chains, holders: multiset<nat>, q: nat)
    requires Ok(bufs, chains, holders) && q in bufs
    ensures var b := CutFree(bufs, chains, q);
            && b.Keys <= bufs.Keys && (forall x :: x in b ==> b[x].data == bufs[x].data && b[x].tot == bufs[x].tot)
            && (forall x :: x in bufs && x !in b ==> x in chains[q] && x != q)
  {
    assert LinkOk(bufs, chains, q);
    if bufs[q].next.To? {
      var n := bufs[q].next.p;
      CutTail(bufs, chains, q);
      FreeKeys(Cut(bufs, q), chains[n]);
      var k := Released(Cut(bufs, q), chains[n]);
      assert forall x :: x in chains[n][..k] ==> x in chains[n];
      if q in chains[n] {
        var i := Behind(bufs, chains, n, q);
      }
    }
  }
}
