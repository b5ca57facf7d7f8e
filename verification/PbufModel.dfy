/**
 Packet buffers (pbuf.c): reference-counted pbufs linked into chains that may share
 their tails.  `chains` records for every pbuf the chain that begins with it.
 */
module PbufModel {

  type Byte = bv8

  datatype Kind = Ram | Rom | Ref | Pool

  /** A `next` pointer. */
  datatype Link = Nil | To(p: nat)

  /** `room` is the memory in front of the payload, `data` the payload; `len` is `|data|`. */
  datatype Pbuf = Pbuf(next: Link, room: seq<Byte>, data: seq<Byte>, tot: nat, ref: nat, kind: Kind)

  type Bufs = map<nat, Pbuf>
  type Chains = map<nat, seq<nat>>

  // ----- chains -----

  /** One pbuf's chain is itself and the chain of the next one. */
  predicate LinkOk(bufs: Bufs, chains: Chains, p: nat)
    requires p in bufs && chains.Keys == bufs.Keys
  {
    match bufs[p].next
    case Nil => chains[p] == [p]
    case To(q) => q in bufs && chains[p] == [p] + chains[q]
  }

  predicate Linked(bufs: Bufs, chains: Chains) {
    chains.Keys == bufs.Keys && forall p {:trigger LinkOk(bufs, chains, p)} :: p in bufs ==> LinkOk(bufs, chains, p)
  }

  /** The last pbuf of a chain (chains are never empty). */
  function Last(c: seq<nat>): nat { if c == [] then 0 else c[|c| - 1] }

  /** Every rest of a chain is the chain of its first pbuf. */
  lemma {:induction false} Suffix(bufs: Bufs, chains: Chains, p: nat, k: nat)
    requires Linked(bufs, chains) && p in bufs && k < |chains[p]|
    ensures chains[p][k] in bufs && chains[chains[p][k]] == chains[p][k..]
    decreases k
  {
    assert LinkOk(bufs, chains, p);
    if k > 0 {
      var q := bufs[p].next.p;
      Suffix(bufs, chains, q, k - 1);
      assert chains[p][k..] == chains[q][k - 1..];
    }
  }

  /** The links along a chain. */
  lemma LinksAlong(bufs: Bufs, chains: Chains, p: nat, k: nat)
    requires Linked(bufs, chains) && p in bufs && k < |chains[p]|
    ensures chains[p][k] in bufs
    ensures bufs[chains[p][k]].next == if k + 1 < |chains[p]| then To(chains[p][k + 1]) else Nil
  {
    Suffix(bufs, chains, p, k);
    var x := chains[p][k];
    assert LinkOk(bufs, chains, x);
    if bufs[x].next.To? {
      var q := bufs[x].next.p;
      assert LinkOk(bufs, chains, q);
      assert chains[q][0] == q;
      assert chains[x][1] == q && chains[x] == chains[p][k..];
    }
  }

  lemma ChainShape(bufs: Bufs, chains: Chains, p: nat)
    requires Linked(bufs, chains) && p in bufs
    ensures chains[p] != [] && chains[p][0] == p && Last(chains[p]) in bufs
    ensures forall x :: x in chains[p] ==> x in bufs
  {
    assert LinkOk(bufs, chains, p);
    forall x | x in chains[p] ensures x in bufs {
      var k :| 0 <= k < |chains[p]| && chains[p][k] == x;
      Suffix(bufs, chains, p, k);
    }
    assert Last(chains[p]) in chains[p];
  }

  /** No pbuf is twice in a chain. */
  lemma ChainDistinct(bufs: Bufs, chains: Chains, p: nat, i: nat, k: nat)
    requires Linked(bufs, chains) && p in bufs && i < k < |chains[p]|
    ensures chains[p][i] != chains[p][k]
  {
    Suffix(bufs, chains, p, i);
    Suffix(bufs, chains, p, k);
  }

  /** What is behind a pbuf in a chain is that pbuf's own chain. */
  lemma Behind(bufs: Bufs, chains: Chains, p: nat, x: nat) returns (k: nat)
    requires Linked(bufs, chains) && p in bufs && x in chains[p]
    ensures k < |chains[p]| && chains[p][k] == x && x in bufs && chains[x] == chains[p][k..]
    ensures Last(chains[x]) == Last(chains[p])
  {
    k :| 0 <= k < |chains[p]| && chains[p][k] == x;
    Suffix(bufs, chains, p, k);
  }

  // ----- the bytes of a chain -----

  function Flat(bufs: Bufs, c: seq<nat>): seq<Byte> {
    if c == [] then [] else (if c[0] in bufs then bufs[c[0]].data else []) + Flat(bufs, c[1..])
  }

  lemma {:induction false} FlatConcat(bufs: Bufs, a: seq<nat>, b: seq<nat>)
    ensures Flat(bufs, a + b) == Flat(bufs, a) + Flat(bufs, b)
  {
    if a == [] {
      assert a + b == b;
    } else {
      assert (a + b)[1..] == a[1..] + b;
      FlatConcat(bufs, a[1..], b);
    }
  }

  predicate SameData(bufs: Bufs, bufs': Bufs, c: seq<nat>) {
    forall x :: x in c ==> x in bufs && x in bufs' && bufs'[x].data == bufs[x].data
  }

  lemma {:induction false} FlatFrame(bufs: Bufs, bufs': Bufs, c: seq<nat>)
    requires SameData(bufs, bufs', c)
    ensures Flat(bufs', c) == Flat(bufs, c)
  {
    if c != [] {
      assert c[0] in c;
      FlatFrame(bufs, bufs', c[1..]);
    }
  }

  // ----- reference counts and total lengths -----

  function Preds(bufs: Bufs, p: nat): set<nat> { set q | q in bufs && bufs[q].next == To(p) }

  /** The count is that of the holders and of the links into the pbuf. */
  predicate CountOk(bufs: Bufs, holders: multiset<nat>, p: nat)
    requires p in bufs
  {
    bufs[p].ref > 0 && bufs[p].ref == holders[p] + |Preds(bufs, p)|
  }

  predicate RefOk(bufs: Bufs, holders: multiset<nat>) {
    && (forall p :: p in holders ==> p in bufs)
    && (forall p {:trigger CountOk(bufs, holders, p)} :: p in bufs ==> CountOk(bufs, holders, p))
  }

  predicate Ok(bufs: Bufs, chains: Chains, holders: multiset<nat>) {
    Linked(bufs, chains) && RefOk(bufs, holders)
  }

  /** `tot_len` is the number of bytes from there on. */
  predicate TotAt(bufs: Bufs, chains: Chains, p: nat)
    requires p in bufs && p in chains
  {
    bufs[p].tot == |Flat(bufs, chains[p])| <= 0xffff
  }

  predicate TotOk(bufs: Bufs, chains: Chains)
    requires chains.Keys == bufs.Keys
  {
    forall p {:trigger TotAt(bufs, chains, p)} :: p in bufs ==> TotAt(bufs, chains, p)
  }

  /** This is the rule `tot_len == len + next->tot_len`, at one pbuf ... */
  lemma TotRule(bufs: Bufs, chains: Chains, p: nat)
    requires Linked(bufs, chains) && p in bufs && TotAt(bufs, chains, p)
    requires bufs[p].next.To? && bufs[p].next.p in bufs && bufs[p].next.p in chains ==>
             TotAt(bufs, chains, bufs[p].next.p)
    ensures bufs[p].next.To? ==> bufs[p].next.p in bufs
    ensures bufs[p].tot == |bufs[p].data| + if bufs[p].next.To? then bufs[bufs[p].next.p].tot else 0
  {
    assert LinkOk(bufs, chains, p);
    if bufs[p].next.To? {
      FlatConcat(bufs, [p], chains[bufs[p].next.p]);
    }
    assert [p][1..] == [];
    assert Flat(bufs, [p]) == bufs[p].data;
  }

  /** ... and at every pbuf. */
  lemma TotLocal(bufs: Bufs, chains: Chains, p: nat)
    requires Linked(bufs, chains) && TotOk(bufs, chains) && p in bufs
    ensures bufs[p].next.To? ==> bufs[p].next.p in bufs
    ensures bufs[p].tot == |bufs[p].data| + if bufs[p].next.To? then bufs[bufs[p].next.p].tot else 0
  {
    assert LinkOk(bufs, chains, p) && TotAt(bufs, chains, p);
    if bufs[p].next.To? {
      assert TotAt(bufs, chains, bufs[p].next.p);
    }
    TotRule(bufs, chains, p);
  }

  /** Every live pbuf can be reached from one that somebody holds: nothing leaks. */
  lemma {:induction false} Reachable(bufs: Bufs, chains: Chains, holders: multiset<nat>, p: nat) returns (h: nat)
    requires Ok(bufs, chains, holders) && p in bufs
    ensures h in holders && h in bufs && p in chains[h]
    decreases |bufs| - |chains[p]|
  {
    ChainShape(bufs, chains, p);
    if holders[p] > 0 {
      return p;
    }
    assert CountOk(bufs, holders, p);
    var q :| q in Preds(bufs, p);
    assert LinkOk(bufs, chains, q);
    ChainFits(bufs, chains, q);
    h := Reachable(bufs, chains, holders, q);
    var k := Behind(bufs, chains, h, q);
    assert chains[h][k + 1] == chains[q][1];
  }

  /** A chain is no longer than there are pbufs. */
  lemma ChainFits(bufs: Bufs, chains: Chains, p: nat)
    requires Linked(bufs, chains) && p in bufs
    ensures |chains[p]| <= |bufs|
  {
    var c, s := chains[p], set x | x in chains[p];
    ChainShape(bufs, chains, p);
    forall i, k | 0 <= i < k < |c| ensures c[i] != c[k] {
      ChainDistinct(bufs, chains, p, i, k);
    }
    DistinctSize(c, s);
    assert s <= bufs.Keys;
    SubsetSize(s, bufs.Keys);
    assert |bufs.Keys| == |bufs|;
  }

  lemma {:induction false} DistinctSize(c: seq<nat>, s: set<nat>)
    requires s == (set x | x in c) && forall i, k :: 0 <= i < k < |c| ==> c[i] != c[k]
    ensures |s| == |c|
  {
    if c != [] {
      var r := set x | x in c[1..];
      DistinctSize(c[1..], r);
      assert s == {c[0]} + r && c[0] !in r;
    }
  }

  lemma {:induction false} SubsetSize(a: set<nat>, b: set<nat>)
    requires a <= b
    ensures |a| <= |b|
    decreases a
  {
    if a != {} {
      var x :| x in a;
      SubsetSize(a - {x}, b - {x});
    }
  }
}
