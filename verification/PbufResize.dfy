/**
 `pbuf_realloc`, `pbuf_dechain` and `pbuf_header`: shrinking a chain to its first bytes,
 taking its first pbuf off, and moving the start of a payload.
 */
module PbufResize {
  import opened PbufModel
  import opened PbufOps

  /** The pbufs of chain `c` when it is to end `rem` bytes into its `k`-th pbuf and so loses `d`
      bytes. */
  function Trimmed(bufs: Bufs, c: seq<nat>, k: nat, rem: nat, d: nat): Bufs
    requires k < |c|
  {
    map x | x in bufs ::
      if x == c[k]
      then bufs[x].(data := if rem <= |bufs[x].data| then bufs[x].data[..rem] else bufs[x].data, tot := rem)
      else if x in c[..k] then bufs[x].(tot := (bufs[x].tot - d) % 0x1_0000)
      else bufs[x]
  }

  function EndAt(bufs: Bufs, chains: Chains, c: seq<nat>, k: nat, rem: nat, d: nat): Bufs
    requires k < |c| && c[k] in bufs
  {
    CutFree(Trimmed(bufs, c, k, rem, d), chains, c[k])
  }

  /** The chain of `p` can end there. */
  predicate Cuts(bufs: Bufs, chains: Chains, p: nat, k: nat, rem: nat, d: nat) {
    && Linked(bufs, chains) && p in bufs && k < |chains[p]| && chains[p][k] in bufs
    && rem <= |bufs[chains[p][k]].data|
    && d == |bufs[chains[p][k]].data| - rem + |Flat(bufs, chains[p][k + 1..])|
  }

  lemma EndAtOk(bufs: Bufs, chains: Chains, holders: multiset<nat>, p: nat, k: nat, rem: nat, d: nat)
    requires Ok(bufs, chains, holders) && Cuts(bufs, chains, p, k, rem, d)
    ensures var b := EndAt(bufs, chains, chains[p], k, rem, d);
            Ok(b, Keep(CutChains(chains, chains[p][k]), b), holders)
  {
    var t := Trimmed(bufs, chains[p], k, rem, d);
    SameShapeOk(bufs, t, chains, holders);
    CutFreeOk(t, chains, holders, chains[p][k]);
  }

  /** What is left: everything but pbufs behind the new end. */
  lemma EndAtKeys(bufs: Bufs, chains: Chains, holders: multiset<nat>, p: nat, k: nat, rem: nat, d: nat, q: nat)
    requires Ok(bufs, chains, holders) && Cuts(bufs, chains, p, k, rem, d) && q == chains[p][k]
    ensures var b, t := EndAt(bufs, chains, chains[p], k, rem, d), Trimmed(bufs, chains[p], k, rem, d);
            && b.Keys <= bufs.Keys
            && (forall x :: x in b ==> b[x].data == t[x].data && b[x].tot == t[x].tot)
            && (forall x :: x in bufs && q in chains[x] ==> x in b)
  {
    var t := Trimmed(bufs, chains[p], k, rem, d);
    SameShapeOk(bufs, t, chains, holders);
    CutFreeKeys(t, chains, holders, q);
    forall x | x in bufs && q in chains[x] ensures x in EndAt(bufs, chains, chains[p], k, rem, d) {
      if x != q && x in chains[q] {
        NoReturn(bufs, chains, q, x);
      }
    }
  }

  /** Two pbufs do not lead to each other. */
  lemma NoReturn(bufs: Bufs, chains: Chains, q: nat, x: nat)
    requires Linked(bufs, chains) && q in bufs && x in bufs && x in chains[q] && q in chains[x]
    ensures q == x
  {
    var i := Behind(bufs, chains, q, x);
    var j := Behind(bufs, chains, x, q);
    ChainShape(bufs, chains, q);
    ChainShape(bufs, chains, x);
  }

  lemma FlatSplit(bufs: Bufs, a: seq<nat>, q: nat, rest: seq<nat>)
    requires q in bufs
    ensures Flat(bufs, a + [q]) == Flat(bufs, a) + bufs[q].data
    ensures Flat(bufs, a + ([q] + rest)) == Flat(bufs, a) + bufs[q].data + Flat(bufs, rest)
  {
    FlatConcat(bufs, a, [q]);
    FlatConcat(bufs, a, [q] + rest);
    FlatConcat(bufs, [q], rest);
    assert [q][1..] == [];
  }

  /** A chain through `q`, split there. */
  lemma SplitAt(bufs: Bufs, chains: Chains, x: nat, q: nat) returns (a: seq<nat>, rest: seq<nat>)
    requires Linked(bufs, chains) && x in bufs && q in chains[x]
    ensures q in bufs && chains[q] == [q] + rest && chains[x] == a + ([q] + rest) && UpTo(chains[x], q) == a + [q]
    ensures a == chains[x][..|a|]
  {
    var c, k := chains[x], Pos(chains[x], q);
    a, rest := c[..k], c[k + 1..];
    Suffix(bufs, chains, x, k);
    assert c[k..] == [q] + rest && c[..k + 1] == a + [q];
  }

  /** Whatever leads to `q` in a chain is not `q` and leads there by itself. */
  lemma BeforeSplit(bufs: Bufs, chains: Chains, x: nat, q: nat, k: nat, y: nat)
    requires Linked(bufs, chains) && x in bufs && k < |chains[x]| && chains[x][k] == q && y in chains[x][..k]
    ensures y in bufs && y != q && q in chains[y]
  {
    var i :| 0 <= i < k && chains[x][i] == y;
    Suffix(bufs, chains, x, i);
    assert chains[y][k - i] == q;
    ChainDistinct(bufs, chains, x, i, k);
  }

  /** The bytes of a chain through the new end. */
  lemma EndAtFlat(bufs: Bufs, chains: Chains, holders: multiset<nat>, p: nat, k: nat, rem: nat, d: nat, q: nat, x: nat,
                  b: Bufs)
    requires Ok(bufs, chains, holders) && Cuts(bufs, chains, p, k, rem, d) && q == chains[p][k] && x in bufs
             && q in chains[x]
    requires b == EndAt(bufs, chains, chains[p], k, rem, d)
    ensures |Flat(bufs, chains[x])| >= d
    ensures Flat(b, UpTo(chains[x], q)) == Flat(bufs, chains[x])[..|Flat(bufs, chains[x])| - d]
  {
    var a, rest := SplitAt(bufs, chains, x, q);
    EndAtKeys(bufs, chains, holders, p, k, rem, d, q);
    Suffix(bufs, chains, p, k);
    assert rest == chains[p][k + 1..];
    forall y | y in a ensures y in bufs && y != q && y in b {
      BeforeSplit(bufs, chains, x, q, |a|, y);
    }
    ChainShape(bufs, chains, q);
    FlatFrame(bufs, b, a);
    FlatSplit(bufs, a, q, rest);
    FlatSplit(b, a, q, rest);
    CutPrefix(Flat(bufs, a), bufs[q].data, Flat(bufs, rest), rem, d);
  }

  lemma CutPrefix(u: seq<Byte>, v: seq<Byte>, w: seq<Byte>, rem: nat, d: nat)
    requires rem <= |v| && d == |v| - rem + |w|
    ensures u + v[..rem] == (u + v + w)[..|u + v + w| - d]
  {
  }

  /** Nobody outside the first `k + 1` pbufs of `c` leads into them. */
  predicate Unshared(chains: Chains, c: seq<nat>, k: nat)
    requires k < |c|
  {
    forall x :: x in chains && c[k] in chains[x] ==> x in c[..k + 1]
  }

  lemma EndAtSize(bufs: Bufs, chains: Chains, holders: multiset<nat>, p: nat, k: nat, rem: nat, d: nat, q: nat, x: nat,
                  b: Bufs, n: nat)
    requires Ok(bufs, chains, holders) && Cuts(bufs, chains, p, k, rem, d) && q == chains[p][k] && x in bufs
             && q in chains[x]
    requires b == EndAt(bufs, chains, chains[p], k, rem, d) && n == |Flat(bufs, chains[x])|
    ensures x in b && n >= d && |Flat(b, UpTo(chains[x], q))| == n - d
    ensures x == q ==> n - d == rem
  {
    EndAtFlat(bufs, chains, holders, p, k, rem, d, q, x, b);
    EndAtKeys(bufs, chains, holders, p, k, rem, d, q);
    if x == q {
      Suffix(bufs, chains, p, k);
      FlatSplit(bufs, [], q, chains[p][k + 1..]);
      assert [] + ([q] + chains[p][k + 1..]) == chains[q];
    }
  }

  /** The total stored at `x`. */
  lemma EndAtField(bufs: Bufs, chains: Chains, holders: multiset<nat>, p: nat, k: nat, rem: nat, d: nat, q: nat, x: nat,
                   b: Bufs)
    requires Ok(bufs, chains, holders) && Cuts(bufs, chains, p, k, rem, d) && q == chains[p][k] && x in bufs && x in b
    requires b == EndAt(bufs, chains, chains[p], k, rem, d) && d <= bufs[x].tot <= 0xffff
    ensures b[x].tot == if x == q then rem else if x in chains[p][..k + 1] then bufs[x].tot - d else bufs[x].tot
  {
    EndAtKeys(bufs, chains, holders, p, k, rem, d, q);
    assert chains[p][..k + 1] == chains[p][..k] + [q];
  }

  /** At a pbuf that leads to the new end, the total is right exactly when it belongs to the chain that
      is shortened, or nothing is lost. */
  lemma EndAtThrough(bufs: Bufs, chains: Chains, holders: multiset<nat>, p: nat, k: nat, rem: nat, d: nat, b: Bufs,
                     cs: Chains, x: nat)
    requires Ok(bufs, chains, holders) && TotOk(bufs, chains) && Cuts(bufs, chains, p, k, rem, d)
    requires b == EndAt(bufs, chains, chains[p], k, rem, d) && cs == Keep(CutChains(chains, chains[p][k]), b)
    requires x in bufs && chains[p][k] in chains[x]
    ensures x in b && x in cs && (TotAt(b, cs, x) <==> d == 0 || x in chains[p][..k + 1])
  {
    var q, n := chains[p][k], bufs[x].tot;
    assert TotAt(bufs, chains, x);
    EndAtSize(bufs, chains, holders, p, k, rem, d, q, x, b, n);
    EndAtField(bufs, chains, holders, p, k, rem, d, q, x, b);
    assert chains[p][..k + 1][k] == q;
  }

  /** All totals stay right exactly when the part that loses bytes is not shared. */
  lemma EndAtTotExact(bufs: Bufs, chains: Chains, holders: multiset<nat>, p: nat, k: nat, rem: nat, d: nat, b: Bufs,
                      cs: Chains)
    requires Ok(bufs, chains, holders) && TotOk(bufs, chains) && Cuts(bufs, chains, p, k, rem, d)
    requires b == EndAt(bufs, chains, chains[p], k, rem, d) && cs == Keep(CutChains(chains, chains[p][k]), b)
    ensures b.Keys == cs.Keys && (TotOk(b, cs) <==> d == 0 || Unshared(chains, chains[p], k))
  {
    var q := chains[p][k];
    EndAtKeys(bufs, chains, holders, p, k, rem, d, q);
    if d == 0 || Unshared(chains, chains[p], k) {
      forall x | x in b ensures TotAt(b, cs, x) {
        if q in chains[x] {
          EndAtThrough(bufs, chains, holders, p, k, rem, d, b, cs, x);
        } else {
          assert TotAt(bufs, chains, x);
          Untouched(bufs, chains, holders, p, k, rem, d, b, x);
        }
      }
    } else {
      var x :| x in chains && q in chains[x] && x !in chains[p][..k + 1];
      EndAtThrough(bufs, chains, holders, p, k, rem, d, b, cs, x);
    }
  }

  lemma NotBefore(bufs: Bufs, chains: Chains, p: nat, q: nat, k: nat, x: nat, y: nat)
    requires Linked(bufs, chains) && p in bufs && x in bufs && k < |chains[p]| && chains[p][k] == q
    requires y in chains[x] && q !in chains[x]
    ensures y in bufs && y != q && y !in chains[p][..k]
  {
    var i := Behind(bufs, chains, x, y);
    if y in chains[p][..k] {
      BeforeSplit(bufs, chains, p, q, k, y);
    }
  }

  /** A chain that does not run through the new end is as before. */
  lemma Untouched(bufs: Bufs, chains: Chains, holders: multiset<nat>, p: nat, k: nat, rem: nat, d: nat, b: Bufs, x: nat)
    requires Ok(bufs, chains, holders) && Cuts(bufs, chains, p, k, rem, d)
    requires b == EndAt(bufs, chains, chains[p], k, rem, d) && x in b && x in bufs && chains[p][k] !in chains[x]
    ensures Flat(b, chains[x]) == Flat(bufs, chains[x]) && b[x].tot == bufs[x].tot
  {
    var q := chains[p][k];
    EndAtOk(bufs, chains, holders, p, k, rem, d);
    EndAtKeys(bufs, chains, holders, p, k, rem, d, q);
    ChainShape(b, Keep(CutChains(chains, q), b), x);
    forall y | y in chains[x] ensures y in bufs && y in b && y != q && y !in chains[p][..k] {
      NotBefore(bufs, chains, p, q, k, x, y);
    }
    ChainShape(bufs, chains, x);
    FlatFrame(bufs, b, chains[x]);
  }

  // ----- pbuf_realloc -----

  /** The last pbuf that `pbuf_realloc` keeps for `n` bytes. */
  function KeepAt(bufs: Bufs, c: seq<nat>, n: nat): nat {
    if c == [] || c[0] !in bufs || n <= |bufs[c[0]].data| then 0
    else 1 + KeepAt(bufs, c[1..], n - |bufs[c[0]].data|)
  }

  lemma {:induction false} KeepAtSplit(bufs: Bufs, c: seq<nat>, n: nat)
    requires c != [] && (forall x :: x in c ==> x in bufs) && n <= |Flat(bufs, c)|
    ensures var k := KeepAt(bufs, c, n);
            k < |c| && c[k] in bufs && |Flat(bufs, c[..k])| <= n <= |Flat(bufs, c[..k])| + |bufs[c[k]].data|
  {
    assert c[0] in c;
    if n > |bufs[c[0]].data| {
      var k := KeepAt(bufs, c[1..], n - |bufs[c[0]].data|);
      KeepAtSplit(bufs, c[1..], n - |bufs[c[0]].data|);
      assert c[..k + 1] == [c[0]] + c[1..][..k];
      FlatConcat(bufs, [c[0]], c[1..][..k]);
      assert [c[0]][1..] == [];
    }
  }

  /** No pbuf is kept for nothing: those before the last one kept hold less than `n` bytes. */
  lemma {:induction false} KeepAtLeast(bufs: Bufs, c: seq<nat>, n: nat)
    requires KeepAt(bufs, c, n) <= |c|
    ensures KeepAt(bufs, c, n) > 0 ==> |Flat(bufs, c[..KeepAt(bufs, c, n)])| < n
  {
    var k := KeepAt(bufs, c, n);
    if k > 0 {
      KeepAtLeast(bufs, c[1..], n - |bufs[c[0]].data|);
      assert c[..k] == [c[0]] + c[1..][..k - 1];
      FlatConcat(bufs, [c[0]], c[1..][..k - 1]);
      assert [c[0]][1..] == [];
    }
  }

  /** `pbuf_realloc`, with `k` the pbuf at which the chain is to end. */
  function ReallocAt(bufs: Bufs, chains: Chains, p: nat, n: nat, k: nat): Bufs
    requires p in bufs && p in chains
  {
    var c := chains[p];
    if n >= bufs[p].tot || k >= |c| || c[k] !in bufs || |Flat(bufs, c[..k])| > n then bufs
    else EndAt(bufs, chains, c, k, n - |Flat(bufs, c[..k])|, bufs[p].tot - n)
  }

  function Realloc(bufs: Bufs, chains: Chains, p: nat, n: nat): Bufs
    requires p in bufs && p in chains
  {
    ReallocAt(bufs, chains, p, n, KeepAt(bufs, chains[p], n))
  }

  function ReallocChains(bufs: Bufs, chains: Chains, p: nat, n: nat): Chains
    requires p in bufs && p in chains
  {
    var k := KeepAt(bufs, chains[p], n);
    if n >= bufs[p].tot || k >= |chains[p]| then chains
    else Keep(CutChains(chains, chains[p][k]), Realloc(bufs, chains, p, n))
  }

  lemma ReallocCuts(bufs: Bufs, chains: Chains, p: nat, n: nat, k: nat)
    requires Linked(bufs, chains) && p in bufs && TotAt(bufs, chains, p) && n < bufs[p].tot
             && k == KeepAt(bufs, chains[p], n)
    ensures k < |chains[p]| && |Flat(bufs, chains[p][..k])| <= n
    ensures Cuts(bufs, chains, p, k, n - |Flat(bufs, chains[p][..k])|, bufs[p].tot - n)
    ensures chains[p][k] in chains[p]
  {
    var c := chains[p];
    ChainShape(bufs, chains, p);
    KeepAtSplit(bufs, c, n);
    assert c == c[..k] + ([c[k]] + c[k + 1..]);
    FlatSplit(bufs, c[..k], c[k], c[k + 1..]);
  }

  /** `pbuf_realloc` leaves exactly the first `n` bytes, and the counts right. */
  lemma ReallocExact(bufs: Bufs, chains: Chains, holders: multiset<nat>, p: nat, n: nat)
    requires Ok(bufs, chains, holders) && p in bufs && TotAt(bufs, chains, p)
    ensures var b, cs := Realloc(bufs, chains, p, n), ReallocChains(bufs, chains, p, n);
            && Ok(b, cs, holders) && p in b
            && Flat(b, cs[p]) == if n < |Flat(bufs, chains[p])| then Flat(bufs, chains[p])[..n]
              else Flat(bufs, chains[p])
  {
    if n < bufs[p].tot {
      ReallocShorter(bufs, chains, holders, p, n, KeepAt(bufs, chains[p], n), Realloc(bufs, chains, p, n));
    }
  }

  /** The chain ends with the pbuf that holds its `n`-th byte: the ones before hold less. */
  lemma ReallocEnds(bufs: Bufs, chains: Chains, holders: multiset<nat>, p: nat, n: nat)
    requires Ok(bufs, chains, holders) && p in bufs && TotAt(bufs, chains, p) && n < bufs[p].tot
    ensures var cs := ReallocChains(bufs, chains, p, n);
            && p in cs && cs[p] != [] && cs[p] <= chains[p]
            && (|cs[p]| > 1 ==> |Flat(bufs, cs[p][..|cs[p]| - 1])| < n)
  {
    var k := KeepAt(bufs, chains[p], n);
    ReallocCuts(bufs, chains, p, n, k);
    ReallocShorter(bufs, chains, holders, p, n, k, Realloc(bufs, chains, p, n));
    KeepAtLeast(bufs, chains[p], n);
    EndsAtKeep(bufs, chains, p, k);
    assert ReallocChains(bufs, chains, p, n)[p] == chains[p][..k + 1];
  }

  lemma EndsAtKeep(bufs: Bufs, chains: Chains, p: nat, k: nat)
    requires Linked(bufs, chains) && p in bufs && k < |chains[p]|
    ensures UpTo(chains[p], chains[p][k]) == chains[p][..k + 1] && chains[p][..k + 1][..k] == chains[p][..k]
  {
    var i := Pos(chains[p], chains[p][k]);
    assert chains[p][k] in chains[p];
    if i < k {
      ChainDistinct(bufs, chains, p, i, k);
    } else if i > k {
      ChainDistinct(bufs, chains, p, k, i);
    }
  }

  lemma ReallocShorter(bufs: Bufs, chains: Chains, holders: multiset<nat>, p: nat, n: nat, k: nat, b: Bufs)
    requires Ok(bufs, chains, holders) && p in bufs && TotAt(bufs, chains, p) && n < bufs[p].tot
    requires k == KeepAt(bufs, chains[p], n) && b == ReallocAt(bufs, chains, p, n, k)
    ensures k < |chains[p]| && p in b && Ok(b, Keep(CutChains(chains, chains[p][k]), b), holders)
    ensures Flat(b, UpTo(chains[p], chains[p][k])) == Flat(bufs, chains[p])[..n]
  {
    ReallocCuts(bufs, chains, p, n, k);
    ShorterAt(bufs, chains, holders, p, n, k, n - |Flat(bufs, chains[p][..k])|, bufs[p].tot - n, b);
  }

  lemma ShorterAt(bufs: Bufs, chains: Chains, holders: multiset<nat>, p: nat, n: nat, k: nat, rem: nat, d: nat, b: Bufs)
    requires Ok(bufs, chains, holders) && Cuts(bufs, chains, p, k, rem, d)
             && b == EndAt(bufs, chains, chains[p], k, rem, d)
    requires n + d == |Flat(bufs, chains[p])|
    ensures p in b && Ok(b, Keep(CutChains(chains, chains[p][k]), b), holders)
    ensures Flat(b, UpTo(chains[p], chains[p][k])) == Flat(bufs, chains[p])[..n]
  {
    EndAtAll(bufs, chains, holders, p, k, rem, d, b);
  }

  lemma EndAtAll(bufs: Bufs, chains: Chains, holders: multiset<nat>, p: nat, k: nat, rem: nat, d: nat, b: Bufs)
    requires Ok(bufs, chains, holders) && Cuts(bufs, chains, p, k, rem, d)
             && b == EndAt(bufs, chains, chains[p], k, rem, d)
    ensures var cs := Keep(CutChains(chains, chains[p][k]), b);
            && Ok(b, cs, holders) && p in b && |Flat(bufs, chains[p])| >= d
            && Flat(b, cs[p]) == Flat(bufs, chains[p])[..|Flat(bufs, chains[p])| - d]
  {
    var q := chains[p][k];
    assert q in chains[p];
    EndAtOk(bufs, chains, holders, p, k, rem, d);
    EndAtKeys(bufs, chains, holders, p, k, rem, d, q);
    EndAtFlat(bufs, chains, holders, p, k, rem, d, q, p, b);
  }

  /** It keeps all totals right exactly when nobody outside shares the part it keeps. */
  lemma ReallocTotExact(bufs: Bufs, chains: Chains, holders: multiset<nat>, p: nat, n: nat, k: nat, b: Bufs, cs: Chains)
    requires Ok(bufs, chains, holders) && p in bufs && TotOk(bufs, chains) && TotAt(bufs, chains, p)
    requires k == KeepAt(bufs, chains[p], n) && n < bufs[p].tot
    requires b == Realloc(bufs, chains, p, n) && cs == ReallocChains(bufs, chains, p, n)
    ensures k < |chains[p]| && b.Keys == cs.Keys && (TotOk(b, cs) <==> Unshared(chains, chains[p], k))
  {
    ReallocCuts(bufs, chains, p, n, k);
    EndAtTotExact(bufs, chains, holders, p, k, n - |Flat(bufs, chains[p][..k])|, bufs[p].tot - n, b, cs);
  }

  // ----- pbuf_dechain -----

  /** `pbuf_dechain`: the first pbuf alone, the rest loses the reference that the link was. */
  function Dechain(bufs: Bufs, chains: Chains, p: nat): Bufs
    requires Linked(bufs, chains) && p in bufs
  {
    ChainShape(bufs, chains, p);
    if bufs[p].next.Nil? then bufs else EndAt(bufs, chains, chains[p], 0, |bufs[p].data|, 0)
  }

  lemma DechainCuts(bufs: Bufs, chains: Chains, p: nat)
    requires Linked(bufs, chains) && p in bufs
    ensures chains[p] != [] && chains[p][0] == p
    ensures Cuts(bufs, chains, p, 0, |bufs[p].data|, |Flat(bufs, chains[p][1..])|)
    ensures forall d, e ::
            Trimmed(bufs, chains[p], 0, |bufs[p].data|, d) == Trimmed(bufs, chains[p], 0, |bufs[p].data|, e)
  {
    ChainShape(bufs, chains, p);
  }

  /** The first pbuf keeps its bytes and every count stays right. */
  lemma DechainOk(bufs: Bufs, chains: Chains, holders: multiset<nat>, p: nat)
    requires Ok(bufs, chains, holders) && p in bufs && bufs[p].next.To?
    ensures var b := Dechain(bufs, chains, p); var cs := Keep(CutChains(chains, p), b);
            && Ok(b, cs, holders) && p in b && cs[p] == [p] && b[p].data == bufs[p].data && b[p].tot == |bufs[p].data|
  {
    DechainCuts(bufs, chains, p);
    var n, d := |bufs[p].data|, |Flat(bufs, chains[p][1..])|;
    assert EndAt(bufs, chains, chains[p], 0, n, d) == Dechain(bufs, chains, p);
    EndAtOk(bufs, chains, holders, p, 0, n, d);
    EndAtKeys(bufs, chains, holders, p, 0, n, d, p);
    CutTail(bufs, chains, p);
  }

  /** The totals stay right exactly when the rest was empty or nothing else leads to `p`. */
  lemma DechainExact(bufs: Bufs, chains: Chains, holders: multiset<nat>, p: nat)
    requires Ok(bufs, chains, holders) && TotOk(bufs, chains) && p in bufs && bufs[p].next.To?
    ensures var b := Dechain(bufs, chains, p); var cs := Keep(CutChains(chains, p), b);
            cs.Keys == b.Keys
              && (TotOk(b, cs) <==> bufs[p].tot == |bufs[p].data| || forall x :: x in bufs && p in chains[x] ==> x == p)
  {
    DechainCuts(bufs, chains, p);
    var n, d := |bufs[p].data|, |Flat(bufs, chains[p][1..])|;
    var b := EndAt(bufs, chains, chains[p], 0, n, d);
    assert b == Dechain(bufs, chains, p);
    EndAtTotExact(bufs, chains, holders, p, 0, n, d, b, Keep(CutChains(chains, p), b));
    assert TotAt(bufs, chains, p);
    FlatSplit(bufs, [], p, chains[p][1..]);
    assert [] + ([p] + chains[p][1..]) == chains[p];
    assert chains[p][..1] == [p];
  }

  // ----- pbuf_header -----

  /** `pbuf_header` can move the start of the payload by `inc` bytes. */
  predicate CanMove(b: Pbuf, inc: int) {
    if inc <= 0 then -inc <= |b.data| else (b.kind.Ram? || b.kind.Pool?) && inc <= |b.room|
  }

  function Moved(b: Pbuf, inc: int): Pbuf
    requires CanMove(b, inc)
  {
    if inc <= 0
    then b.(room := b.room + b.data[..-inc], data := b.data[-inc..], tot := (b.tot as int + inc) % 0x1_0000)
    else b.(room := b.room[..|b.room| - inc], data := b.room[|b.room| - inc..] + b.data,
      tot := (b.tot as int + inc) % 0x1_0000)
  }

  /** Hiding a header and revealing it again gives back the same pbuf. */
  lemma HeaderRoundTrip(b: Pbuf, n: nat)
    requires (b.kind.Ram? || b.kind.Pool?) && n <= |b.data| && b.tot <= 0xffff
    ensures CanMove(b, -(n as int)) && CanMove(Moved(b, -(n as int)), n) && Moved(Moved(b, -(n as int)), n) == b
  {
    var m := Moved(b, -(n as int));
    assert m.room[..|m.room| - n] == b.room && m.room[|m.room| - n..] + m.data == b.data;
    assert ((b.tot as int - n) % 0x1_0000 + n) % 0x1_0000 == b.tot;
  }

  /** One payload changes: what comes before and after it in a chain stays. */
  lemma PayloadThrough(bufs: Bufs, chains: Chains, p: nat, b: Bufs, x: nat) returns (u: seq<Byte>, w: seq<Byte>)
    requires Linked(bufs, chains) && p in bufs && x in bufs && b.Keys == bufs.Keys && p in chains[x]
    requires forall y :: y in bufs && y != p ==> b[y] == bufs[y]
    ensures Flat(bufs, chains[x]) == u + bufs[p].data + w && Flat(b, chains[x]) == u + b[p].data + w
    ensures x == p ==> u == []
  {
    var a, rest := SplitAt(bufs, chains, x, p);
    FlatSplit(bufs, a, p, rest);
    FlatSplit(b, a, p, rest);
    forall y | y in a || y in rest ensures y in bufs && y != p {
      AroundSplit(bufs, chains, x, p, a, rest, y);
    }
    FlatFrame(bufs, b, a);
    FlatFrame(bufs, b, rest);
    u, w := Flat(bufs, a), Flat(bufs, rest);
    if x == p {
      assert |chains[x]| == |a| + |chains[p]|;
    }
  }

  lemma PayloadElsewhere(bufs: Bufs, chains: Chains, p: nat, b: Bufs, x: nat)
    requires Linked(bufs, chains) && p in bufs && x in bufs && b.Keys == bufs.Keys && p !in chains[x]
    requires forall y :: y in bufs && y != p ==> b[y] == bufs[y]
    ensures Flat(b, chains[x]) == Flat(bufs, chains[x])
  {
    ChainShape(bufs, chains, x);
    FlatFrame(bufs, b, chains[x]);
  }

  lemma AroundSplit(bufs: Bufs, chains: Chains, x: nat, p: nat, a: seq<nat>, rest: seq<nat>, y: nat)
    requires Linked(bufs, chains) && x in bufs && chains[x] == a + ([p] + rest) && (y in a || y in rest)
    ensures y in bufs && y != p
  {
    ChainShape(bufs, chains, x);
    var c := chains[x];
    assert c[|a|] == p;
    if y in a {
      var i :| 0 <= i < |a| && a[i] == y;
      assert c[i] == y;
      ChainDistinct(bufs, chains, x, i, |a|);
    } else {
      var i :| 0 <= i < |rest| && rest[i] == y;
      assert c[|a| + 1 + i] == y;
      ChainDistinct(bufs, chains, x, |a|, |a| + 1 + i);
    }
  }

  /** The chain's bytes lose the hidden ones, or gain the revealed ones, in front. */
  lemma HeaderBytes(bufs: Bufs, chains: Chains, p: nat, inc: int, b: Bufs)
    requires Linked(bufs, chains) && p in bufs && CanMove(bufs[p], inc) && b == bufs[p := Moved(bufs[p], inc)]
    ensures inc <= 0 ==> -inc <= |Flat(bufs, chains[p])| && Flat(b, chains[p]) == Flat(bufs, chains[p])[-inc..]
    ensures inc > 0 ==> Flat(b, chains[p]) == bufs[p].room[|bufs[p].room| - inc..] + Flat(bufs, chains[p])
  {
    ChainShape(bufs, chains, p);
    assert p in chains[p];
    var u, w := PayloadThrough(bufs, chains, p, b, p);
  }

  /** Counts stay right, and totals exactly when nothing else leads to `p` and the new total fits 16 bits (or
      nothing moves). */
  lemma HeaderExact(bufs: Bufs, chains: Chains, holders: multiset<nat>, p: nat, inc: int, b: Bufs)
    requires Ok(bufs, chains, holders) && TotOk(bufs, chains) && p in bufs && CanMove(bufs[p], inc)
    requires b == bufs[p := Moved(bufs[p], inc)]
    ensures Ok(b, chains, holders)
    ensures TotOk(b, chains) <==>
            inc == 0 || (bufs[p].tot + inc <= 0xffff && forall x :: x in bufs && p in chains[x] ==> x == p)
  {
    SameShapeOk(bufs, b, chains, holders);
    if bufs[p].tot + inc > 0xffff {
      HeaderTooLong(bufs, chains, p, inc, b);
    } else if inc == 0 || forall x :: x in bufs && p in chains[x] ==> x == p {
      forall x | x in b ensures TotAt(b, chains, x) {
        HeaderTot(bufs, chains, p, inc, b, x);
      }
    } else {
      var x :| x in bufs && p in chains[x] && x != p;
      HeaderTot(bufs, chains, p, inc, b, x);
    }
  }

  /** A total over 16 bits wraps. */
  lemma HeaderTooLong(bufs: Bufs, chains: Chains, p: nat, inc: int, b: Bufs)
    requires Linked(bufs, chains) && TotOk(bufs, chains) && p in bufs && CanMove(bufs[p], inc)
    requires b == bufs[p := Moved(bufs[p], inc)] && bufs[p].tot + inc > 0xffff
    ensures inc > 0 && !TotAt(b, chains, p) && !TotOk(b, chains)
  {
    assert TotAt(bufs, chains, p);
    HeaderBytes(bufs, chains, p, inc, b);
    assert |Flat(b, chains[p])| == bufs[p].tot + inc;
  }

  lemma HeaderField(bufs: Bufs, p: nat, inc: int, b: Bufs, x: nat)
    requires p in bufs && x in bufs && CanMove(bufs[p], inc) && b == bufs[p := Moved(bufs[p], inc)]
    requires 0 <= bufs[p].tot + inc <= 0xffff
    ensures b[x].tot == bufs[x].tot + if x == p then inc else 0
  {
  }

  lemma HeaderTot(bufs: Bufs, chains: Chains, p: nat, inc: int, b: Bufs, x: nat)
    requires Linked(bufs, chains) && TotOk(bufs, chains) && p in bufs && x in bufs && CanMove(bufs[p], inc)
    requires b == bufs[p := Moved(bufs[p], inc)] && bufs[p].tot + inc <= 0xffff
    ensures TotAt(b, chains, x) <==> x == p || inc == 0 || p !in chains[x]
  {
    assert TotAt(bufs, chains, x) && TotAt(bufs, chains, p);
    ChainShape(bufs, chains, x);
    if p in chains[x] {
      var u, w := PayloadThrough(bufs, chains, p, b, x);
      assert |b[p].data| == |bufs[p].data| + inc;
      TotLocal(bufs, chains, p);
      HeaderField(bufs, p, inc, b, x);
    } else {
      PayloadElsewhere(bufs, chains, p, b, x);
    }
  }
}
