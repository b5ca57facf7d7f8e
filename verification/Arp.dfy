/**
 The ARP table of etharp.c (with ARP_QUEUEING): at most one entry per address, packets
 queued on pending entries only, and every queued packet sent once in order or dropped.
 */
module Arp {

  type Ip = nat
  type Mac = nat
  type Pkt = nat

  datatype St = Empty | Pending | Stable | Rerequesting

  /** A `struct etharp_entry`. */
  datatype Entry = Entry(st: St, ip: Ip, mac: Mac, ctime: nat, q: seq<Pkt>)

  type Table = seq<Entry>

  const MaxAge: nat := 240
  const MaxPending: nat := 2

  predicate IsStable(e: Entry) { e.st.Stable? || e.st.Rerequesting? }
  predicate Idle(e: Entry) { e.st.Pending? && e.q == [] }
  predicate Waiting(e: Entry) { e.st.Pending? && e.q != [] }

  // ----- the invariant -----

  /** At most one entry that is not empty per address. */
  predicate Unique(t: Table) {
    forall i, j :: 0 <= i < j < |t| && !t[i].st.Empty? && !t[j].st.Empty? ==> t[i].ip != t[j].ip
  }

  /** Packets are queued on pending entries only. */
  predicate QueuesPending(t: Table) { forall i :: 0 <= i < |t| && t[i].q != [] ==> t[i].st.Pending? }

  predicate Inv(t: Table) { Unique(t) && QueuesPending(t) }

  /** Writing an entry whose address no other entry has. */
  lemma PutInv(t: Table, i: nat, e: Entry)
    requires Inv(t) && i < |t| && (e.q != [] ==> e.st.Pending?)
    requires e.st.Empty? || forall j :: 0 <= j < |t| && j != i && !t[j].st.Empty? ==> t[j].ip != e.ip
    ensures Inv(t[i := e])
  {
  }

  // ----- all queued packets -----

  /** How often packet `x` is in a queue, and in the whole table. */
  function Times(q: seq<Pkt>, x: Pkt): nat { multiset(q)[x] }

  function Queued(t: Table, x: Pkt): nat { if t == [] then 0 else Times(t[0].q, x) + Queued(t[1..], x) }

  lemma {:induction false} QueuedPut(t: Table, i: nat, e: Entry, x: Pkt)
    requires i < |t|
    ensures Queued(t[i := e], x) == Queued(t, x) - Times(t[i].q, x) + Times(e.q, x)
  {
    var u := t[i := e];
    if i > 0 {
      QueuedPut(t[1..], i - 1, e, x);
      assert u[1..] == t[1..][i - 1 := e];
    } else {
      assert u[1..] == t[1..];
    }
  }

  /** Packets taken over for queueing, packets sent from a queue, and packets dropped with their entry. */
  datatype Ledger = Ledger(accepted: seq<Pkt>, flushed: seq<Pkt>, dropped: seq<Pkt>)

  /** Every packet taken over is queued, was sent from a queue, or was dropped. */
  ghost predicate Balanced(t: Table, l: Ledger) {
    forall x :: Times(l.accepted, x) == Queued(t, x) + Times(l.flushed, x) + Times(l.dropped, x)
  }

  lemma TimesConcat(a: seq<Pkt>, b: seq<Pkt>, x: Pkt)
    ensures Times(a + b, x) == Times(a, x) + Times(b, x)
  {
    assert multiset(a + b) == multiset(a) + multiset(b);
  }

  /** One entry is written; what its queue loses or gains is entered in the ledger. */
  lemma PutBalanced(t: Table, i: nat, e: Entry, l: Ledger, l': Ledger, a: seq<Pkt>, f: seq<Pkt>, d: seq<Pkt>)
    requires i < |t| && Balanced(t, l)
    requires l' == Ledger(l.accepted + a, l.flushed + f, l.dropped + d)
    requires (e.q == t[i].q + a && f == [] && d == []) || (e.q == [] && f + d == t[i].q && a == [])
    ensures Balanced(t[i := e], l')
  {
    forall x ensures Times(l'.accepted, x) == Queued(t[i := e], x) + Times(l'.flushed, x) + Times(l'.dropped, x) {
      QueuedPut(t, i, e, x);
      TimesConcat(l.accepted, a, x);
      TimesConcat(l.flushed, f, x);
      TimesConcat(l.dropped, d, x);
      TimesConcat(t[i].q, a, x);
      TimesConcat(f, d, x);
    }
  }

  lemma KeepBalanced(t: Table, i: nat, e: Entry, l: Ledger)
    requires i < |t| && Balanced(t, l) && e.q == t[i].q
    ensures Balanced(t[i := e], l)
  {
    assert l == Ledger(l.accepted + [], l.flushed + [], l.dropped + []) && e.q == t[i].q + [];
    PutBalanced(t, i, e, l, l, [], [], []);
  }

  lemma DropBalanced(t: Table, i: nat, e: Entry, l: Ledger)
    requires i < |t| && Balanced(t, l) && e.q == []
    ensures Balanced(t[i := e], l.(dropped := l.dropped + t[i].q))
  {
    assert l.accepted == l.accepted + [] && l.flushed == l.flushed + [];
    PutBalanced(t, i, e, l, l.(dropped := l.dropped + t[i].q), [], [], t[i].q);
  }

  lemma FlushBalanced(t: Table, i: nat, e: Entry, l: Ledger)
    requires i < |t| && Balanced(t, l) && e.q == []
    ensures Balanced(t[i := e], l.(flushed := l.flushed + t[i].q))
  {
    assert l.accepted == l.accepted + [] && l.dropped == l.dropped + [] && t[i].q + [] == t[i].q;
    PutBalanced(t, i, e, l, l.(flushed := l.flushed + t[i].q), [], t[i].q, []);
  }

  lemma AcceptBalanced(t: Table, i: nat, e: Entry, l: Ledger, p: Pkt)
    requires i < |t| && Balanced(t, l) && e.q == t[i].q + [p]
    ensures Balanced(t[i := e], l.(accepted := l.accepted + [p]))
  {
    assert l.flushed == l.flushed + [] && l.dropped == l.dropped + [];
    PutBalanced(t, i, e, l, l.(accepted := l.accepted + [p]), [p], [], []);
  }

  // ----- etharp_find_entry -----

  /** Entry `i` is in use for the address. */
  predicate Has(t: Table, i: int, ip: Ip) { 0 <= i < |t| && !t[i].st.Empty? && t[i].ip == ip }

  predicate NoneHas(t: Table, n: nat, ip: Ip)
    requires n <= |t|
  {
    forall i :: 0 <= i < n ==> t[i].st.Empty? || t[i].ip != ip
  }

  datatype Class = Stables | Idles | Waitings

  predicate In(e: Entry, k: Class) {
    match k
    case Stables => IsStable(e)
    case Idles => Idle(e)
    case Waitings => Waiting(e)
  }

  predicate Youngers(t: Table, n: nat, k: Class, r: nat)
    requires r < n <= |t|
  {
    forall j :: 0 <= j < n && In(t[j], k) ==> t[j].ctime <= t[r].ctime && (j > r ==> t[j].ctime < t[r].ctime)
  }

  /** Among the first `n` entries, `r` is the oldest of its class, the last of equally old ones; `|t|` if there
      is none. */
  predicate Oldest(t: Table, n: nat, k: Class, r: nat, age: nat)
    requires n <= |t|
  {
    && (r == |t| ==> age == 0 && forall j :: 0 <= j < n ==> !In(t[j], k))
    && (r != |t| ==> r < n && In(t[r], k) && t[r].ctime == age && Youngers(t, n, k, r))
  }

  /** `r` is the first empty entry of the first `n`. */
  predicate FirstEmpty(t: Table, n: nat, r: nat)
    requires n <= |t|
  {
    && (r == |t| ==> forall j :: 0 <= j < n ==> !t[j].st.Empty?)
    && (r != |t| ==> r < n && t[r].st.Empty? && forall j :: 0 <= j < r ==> !t[j].st.Empty?)
  }

  /** One entry of the sweep for one class. */
  method Consider(t: Table, i: nat, k: Class, r: nat, age: nat) returns (r': nat, age': nat)
    requires i < |t| && Oldest(t, i, k, r, age)
    ensures Oldest(t, i + 1, k, r', age')
  {
    if In(t[i], k) && t[i].ctime >= age {
      r', age' := i, t[i].ctime;
    } else {
      r', age' := r, age;
    }
  }

  /** The least destructive entry to use for a new address: the first empty one, else the oldest stable one,
      else the oldest pending one without packets, else the oldest pending one with packets. */
  ghost predicate Least(t: Table, r: nat) {
    && r < |t|
    && (if t[r].st.Empty? then FirstEmpty(t, |t|, r)
        else
          && FirstEmpty(t, |t|, |t|)
          && (IsStable(t[r]) ==> Oldest(t, |t|, Stables, r, t[r].ctime))
          && (Idle(t[r]) ==> Oldest(t, |t|, Stables, |t|, 0) && Oldest(t, |t|, Idles, r, t[r].ctime))
          && (Waiting(t[r]) ==> Oldest(t, |t|, Stables, |t|, 0) && Oldest(t, |t|, Idles, |t|, 0)
                                && Oldest(t, |t|, Waitings, r, t[r].ctime)))
  }

  /** The sweep of `etharp_find_entry`: a match, or the candidates. */
  method Sweep(t: Table, ip: Ip) returns (found: bool, i: nat, empty: nat, stable: nat, idle: nat, waiting: nat)
    ensures found ==> Has(t, i, ip) && NoneHas(t, i, ip)
    ensures !found ==> NoneHas(t, |t|, ip) && FirstEmpty(t, |t|, empty)
    ensures !found ==> empty == |t| ==>
              && Oldest(t, |t|, Stables, stable, if stable < |t| then t[stable].ctime else 0)
              && Oldest(t, |t|, Idles, idle, if idle < |t| then t[idle].ctime else 0)
              && Oldest(t, |t|, Waitings, waiting, if waiting < |t| then t[waiting].ctime else 0)
  {
    var ageStable, ageIdle, ageWaiting := 0, 0, 0;
    found, i, empty, stable, idle, waiting := false, 0, |t|, |t|, |t|, |t|;
    while i < |t|
      invariant i <= |t| && NoneHas(t, i, ip) && FirstEmpty(t, i, empty)
      invariant Oldest(t, i, Stables, stable, ageStable) && Oldest(t, i, Idles, idle, ageIdle)
      invariant Oldest(t, i, Waitings, waiting, ageWaiting)
    {
      if empty == |t| && t[i].st.Empty? {
        empty := i;
      } else if !t[i].st.Empty? {
        if t[i].ip == ip {
          return true, i, empty, stable, idle, waiting;
        }
      }
      stable, ageStable := Consider(t, i, Stables, stable, ageStable);
      idle, ageIdle := Consider(t, i, Idles, idle, ageIdle);
      waiting, ageWaiting := Consider(t, i, Waitings, waiting, ageWaiting);
      i := i + 1;
    }
  }

  /** What `etharp_find_entry` returns. */
  datatype Find = Match(i: nat) | New(i: nat) | NoMem

  /** `etharp_find_entry` up to the recycling: a match first; otherwise the least destructive entry, if a new
      entry may be made of it. */
  method FindEntry(t: Table, ip: Ip, tryHard: bool, findOnly: bool) returns (r: Find)
    ensures r.Match? ==> Has(t, r.i, ip) && NoneHas(t, r.i, ip)
    ensures r.New? ==> NoneHas(t, |t|, ip) && Least(t, r.i) && !findOnly && (tryHard || t[r.i].st.Empty?)
    ensures r.NoMem? ==> NoneHas(t, |t|, ip) && (findOnly || t == [] || (!tryHard && FirstEmpty(t, |t|, |t|)))
  {
    var found, i, empty, stable, idle, waiting := Sweep(t, ip);
    if found {
      return Match(i);
    }
    if findOnly || (empty == |t| && !tryHard) {
      return NoMem;
    }
    if empty < |t| {
      return New(empty);
    }
    if stable < |t| {
      return New(stable);
    }
    if idle < |t| {
      return New(idle);
    }
    if waiting < |t| {
      return New(waiting);
    }
    assert t != [] ==> In(t[0], Stables) || In(t[0], Idles) || In(t[0], Waitings);
    return NoMem;
  }

  // ----- the table in place -----

  datatype Err = OK | MEM | ARG

  /** The packets of a queue, addressed. */
  function Addressed(q: seq<Pkt>, mac: Mac): seq<(Mac, Pkt)> { seq(|q|, i requires 0 <= i < |q| => (mac, q[i])) }

  /** An entry one timer tick later; an expired one is emptied. */
  predicate Expires(e: Entry) { e.ctime + 1 >= MaxAge || (e.st.Pending? && e.ctime + 1 >= MaxPending) }

  function Aged(e: Entry): Entry {
    if e.st.Empty? then e
    else if Expires(e) then Emptied(e.(ctime := e.ctime + 1))
    else e.(ctime := e.ctime + 1, st := if e.st.Rerequesting? then Stable else e.st)
  }

  function Emptied(e: Entry): Entry { e.(st := Empty, q := []) }

  /** An entry made new for an address. */
  function Renewed(e: Entry, ip: Ip): Entry { Emptied(e).(ip := ip, ctime := 0) }

  /** What `etharp_query` does to the table and the ledger for an address without a resolved entry: entry `i`
      waits for it, with the packet behind what waited before if it could be queued.  When no entry had the
      address, `i` is the least destructive one to recycle, and what was queued on it is dropped.  No other
      entry changes. */
  ghost predicate Queried(t: Table, l: Ledger, i: nat, ip: Ip, p: Pkt, queued: bool, t': Table, l': Ledger) {
    var more := if queued then [p] else [];
    && i < |t|
    && (Has(t, i, ip) || (NoneHas(t, |t|, ip) && Least(t, i)))
    && t' == t[i := Awaiting(t, i, ip).(q := Awaiting(t, i, ip).q + more)]
    && l' == Ledger(l.accepted + more, l.flushed, l.dropped + if Has(t, i, ip) then [] else t[i].q)
  }

  /** The entry found, or a fresh one for the address, waiting to be resolved. */
  function Awaiting(t: Table, i: nat, ip: Ip): Entry
    requires i < |t|
  {
    if Has(t, i, ip) then t[i].(st := Pending) else Entry(Pending, ip, t[i].mac, 0, [])
  }

  /** The entry after a packet has been sent to it: one that is about to expire is marked once it has been
      requested again. */
  function Used(e: Entry, requested: bool): Entry {
    if e.st.Stable? && e.ctime >= MaxAge - 12 && requested then e.(st := Rerequesting) else e
  }

  // ----- how long an entry lives -----

  /** An entry after `n` timer ticks in which nothing else happens to it. */
  function Ticks(e: Entry, n: nat): Entry
    decreases n
  {
    if n == 0 then e else Ticks(Aged(e), n - 1)
  }

  lemma {:induction false} EmptyStays(e: Entry, n: nat)
    requires e.st.Empty?
    ensures Ticks(e, n) == e
    decreases n
  {
    if n > 0 {
      EmptyStays(e, n - 1);
    }
  }

  /** An entry is gone with its packets at the first tick at which it is two ticks old and not resolved, or 240 ticks
      old; until then only its age changes, and a request that was under way counts as answered. */
  lemma {:induction false} LifeTime(e: Entry, n: nat)
    requires !e.st.Empty? && n > 0
    ensures if e.ctime + n >= (if e.st.Pending? then 2 else 240) then Ticks(e, n).st.Empty? && Ticks(e, n).q == []
            else Ticks(e, n) == e.(ctime := e.ctime + n, st := if e.st.Pending? then Pending else Stable)
    decreases n
  {
    var a := Aged(e);
    if a.st.Empty? {
      EmptyStays(a, n - 1);
    } else if n > 1 {
      LifeTime(a, n - 1);
    } else {
      assert Ticks(a, 0) == a;
    }
  }

  /** A packet sent to a resolved entry marks it exactly if the entry has at most twelve ticks left and the address has
      been requested again; the mark is gone at the next tick, and the entry lives no longer for it. */
  lemma {:induction false} UsedExact(e: Entry, requested: bool, n: nat)
    requires IsStable(e) && n > 0
    ensures Used(e, requested) == if requested && Ticks(e, 12).st.Empty? then e.(st := Rerequesting) else e
    ensures Ticks(Used(e, requested), n).st == Ticks(e, n).st && Ticks(Used(e, requested), n).q == Ticks(e, n).q
  {
    LifeTime(e, 12);
    LifeTime(e, n);
    LifeTime(Used(e, requested), n);
  }

  class ArpTable {
    const table: array<Entry>
    var cached: nat
    ghost var ledger: Ledger

    ghost predicate Valid()
      reads this, table
    {
      0 < table.Length && cached < table.Length && Inv(table[..]) && Balanced(table[..], ledger)
    }

    /** `etharp_free_entry`: the queued packets are dropped. */
    method FreeEntry(i: nat)
      requires Valid() && i < table.Length
      modifies table, this`ledger
      ensures Valid() && table[..] == old(table[..])[i := Emptied(old(table[i]))]
      ensures ledger == old(ledger).(dropped := old(ledger).dropped + old(table[i]).q)
    {
      ghost var t := table[..];
      DropBalanced(t, i, Emptied(t[i]), ledger);
      PutInv(t, i, Emptied(t[i]));
      ledger := ledger.(dropped := ledger.dropped + table[i].q);
      table[i] := table[i].(q := [], st := Empty);
    }

    /** `etharp_find_entry`: a new entry has the address but is still empty. */
    method EtharpFindEntry(ip: Ip, tryHard: bool, findOnly: bool) returns (r: Find)
      requires Valid()
      modifies table, this`ledger
      ensures Valid()
      ensures !r.New? ==> table[..] == old(table[..]) && ledger == old(ledger)
      ensures r.Match? ==> Has(table[..], r.i, ip)
      ensures r.NoMem? ==> NoneHas(table[..], table.Length, ip) && (findOnly || !tryHard)
      ensures r.New? ==> Least(old(table[..]), r.i) && NoneHas(old(table[..]), table.Length, ip)
      ensures r.New? ==> table[..] == old(table[..])[r.i := Renewed(old(table[..])[r.i], ip)]
      ensures r.New? ==> ledger == old(ledger).(dropped := old(ledger).dropped + old(table[..])[r.i].q)
    {
      r := FindEntry(table[..], ip, tryHard, findOnly);
      if r.New? {
        FreeEntry(r.i);
        Rename(r.i, ip);
      }
    }

    /** An empty entry gets the address. */
    method Rename(i: nat, ip: Ip)
      requires Valid() && i < table.Length && table[i].st.Empty?
      modifies table
      ensures Valid() && table[..] == old(table[..])[i := old(table[i]).(ip := ip, ctime := 0)]
    {
      ghost var t, e := table[..], table[i].(ip := ip, ctime := 0);
      KeepBalanced(t, i, e, ledger);
      PutInv(t, i, e);
      table[i] := table[i].(ip := ip, ctime := 0);
    }

    constructor (size: nat)
      requires size > 0
      ensures Valid() && fresh(table) && table.Length == size && forall i :: 0 <= i < size ==> table[i].st.Empty?
    {
      table := new Entry[size](_ => Entry(Empty, 0, 0, 0, []));
      cached, ledger := 0, Ledger([], [], []);
      new;
      NothingQueued(table[..]);
    }

    /** The queue of a resolved entry is sent, first packet first. */
    method FlushQueue(i: nat, mac: Mac) returns (out: seq<(Mac, Pkt)>)
      requires i < table.Length
      modifies table
      ensures table[..] == old(table[..])[i := old(table[i]).(q := [])]
      ensures out == Addressed(old(table[i]).q, mac)
    {
      ghost var t, q := table[..], table[i].q;
      out := [];
      while table[i].q != []
        invariant table[..] == t[i := t[i].(q := table[i].q)]
        invariant out + Addressed(table[i].q, mac) == Addressed(q, mac)
        decreases |table[i].q|
      {
        var p := table[i].q[0];
        AddressedStep(table[i].q, mac);
        table[i] := table[i].(q := table[i].q[1..]);
        out := out + [(mac, p)];
      }
    }

    /** `etharp_update_arp_entry`: the address is resolved, and what waited for it is sent. */
    method EtharpUpdateArpEntry(ip: Ip, mac: Mac, unicast: bool, tryHard: bool, findOnly: bool)
      returns (err: Err, out: seq<(Mac, Pkt)>, ghost i: nat)
      requires Valid()
      modifies table, this`ledger
      ensures Valid()
      ensures !err.OK? ==> out == [] && table[..] == old(table[..])
      ensures err.ARG? <==> !unicast
      ensures err.MEM? ==> NoneHas(table[..], table.Length, ip)
      ensures err.OK? ==> i < table.Length && table[..] == old(table[..])[i := Entry(Stable, ip, mac, 0, [])]
      ensures err.OK? ==> if Has(old(table[..]), i, ip) then out == Addressed(old(table[..])[i].q, mac)
                          else out == [] && Least(old(table[..]), i) && NoneHas(old(table[..]), table.Length, ip)
    {
      if !unicast {
        return ARG, [], 0;
      }
      var r := EtharpFindEntry(ip, tryHard, findOnly);
      if r.NoMem? {
        return MEM, [], 0;
      }
      out := Resolve(r.i, ip, mac);
      return OK, out, r.i;
    }

    /** Marks the entry stable and sends its queue. */
    method Resolve(i: nat, ip: Ip, mac: Mac) returns (out: seq<(Mac, Pkt)>)
      requires Valid() && i < table.Length && table[i].ip == ip
      requires Has(table[..], i, ip) || NoneHas(table[..], table.Length, ip)
      modifies table, this`ledger
      ensures Valid() && table[..] == old(table[..])[i := Entry(Stable, ip, mac, 0, [])]
      ensures out == Addressed(old(table[i]).q, mac)
              && ledger == old(ledger).(flushed := old(ledger).flushed + old(table[i]).q)
    {
      ghost var t, e := table[..], Entry(Stable, ip, mac, 0, []);
      FlushBalanced(t, i, e, ledger);
      PutInv(t, i, e);
      ledger := ledger.(flushed := ledger.flushed + table[i].q);
      table[i] := table[i].(st := Stable, mac := mac, ctime := 0);
      out := FlushQueue(i, mac);
      assert table[..] == t[i := e];
    }

    /** The part of `etharp_query` behind `etharp_find_entry`, for entry `i` of that address: a packet for a
        resolved address is sent, one for a pending address is queued behind the others, provided that it
        could be copied (`copied`) and a queue entry be had (`slot`). */
    method Submit(i: nat, ip: Ip, p: Pkt, copied: bool, slot: bool) returns (err: Err, out: seq<(Mac, Pkt)>)
      requires Valid() && i < table.Length && table[i].ip == ip
      requires Has(table[..], i, ip) || NoneHas(table[..], table.Length, ip)
      modifies table, this`ledger, this`cached
      ensures Valid()
      ensures IsStable(old(table[i])) ==>
              err.OK? && out == [(old(table[i]).mac, p)] && table[..] == old(table[..]) && ledger == old(ledger)
      ensures !IsStable(old(table[i])) ==>
                && out == [] && err == (if copied && slot then OK else MEM)
                && table[..] == old(table[..])[i := old(table[i]).(
                     st := Pending, q := if err.OK? then old(table[i]).q + [p] else old(table[i]).q)]
                && ledger == if err.OK? then old(ledger).(accepted := old(ledger).accepted + [p]) else old(ledger)
    {
      if IsStable(table[i]) {
        cached := i;
        return OK, [(table[i].mac, p)];
      }
      ghost var t := table[..];
      ghost var e := t[i].(st := Pending);
      if copied && slot {
        AcceptBalanced(t, i, e.(q := t[i].q + [p]), ledger, p);
        PutInv(t, i, e.(q := t[i].q + [p]));
        ledger := ledger.(accepted := ledger.accepted + [p]);
        table[i] := table[i].(st := Pending, q := table[i].q + [p]);
        return OK, [];
      }
      KeepBalanced(t, i, e, ledger);
      PutInv(t, i, e);
      table[i] := table[i].(st := Pending);
      return MEM, [];
    }

    /** `etharp_query` for a packet. */
    method EtharpQuery(ip: Ip, p: Pkt, unicast: bool, copied: bool, slot: bool)
      returns (err: Err, out: seq<(Mac, Pkt)>, ghost i: nat)
      requires Valid()
      modifies table, this`ledger, this`cached
      ensures Valid()
      ensures err.ARG? <==> !unicast
      ensures err.ARG? ==> out == [] && table[..] == old(table[..]) && ledger == old(ledger)
      ensures unicast ==> i < table.Length && Has(table[..], i, ip)
      ensures unicast && Has(old(table[..]), i, ip) && IsStable(old(table[..])[i]) ==>
                err.OK? && out == [(old(table[..])[i].mac, p)] && table[..] == old(table[..]) && ledger == old(ledger)
      ensures unicast && !(Has(old(table[..]), i, ip) && IsStable(old(table[..])[i])) ==>
                && out == [] && err == (if copied && slot then OK else MEM)
                && Queried(old(table[..]), old(ledger), i, ip, p, err.OK?, table[..], ledger)
    {
      if !unicast {
        return ARG, [], 0;
      }
      ghost var t, l := table[..], ledger;
      var r := EtharpFindEntry(ip, true, false);
      assert !r.NoMem?;
      ghost var u, m := table[..], ledger;
      err, out := Submit(r.i, ip, p, copied, slot);
      i := r.i;
      if !(Has(t, i, ip) && IsStable(t[i])) {
        QueriedBy(t, l, i, ip, p, err.OK?, u, m, table[..], ledger);
      }
    }

    /** `etharp_output_to_arp_index`: the entry may be marked as being requested again. */
    method OutputTo(i: nat, p: Pkt, requested: bool) returns (out: seq<(Mac, Pkt)>)
      requires Valid() && i < table.Length && IsStable(table[i])
      modifies table
      ensures Valid() && out == [(old(table[i]).mac, p)]
      ensures table[..] == old(table[..])[i := Used(old(table[i]), requested)]
    {
      ghost var t, e := table[..], table[i].(st := Rerequesting);
      out := [(table[i].mac, p)];
      if table[i].st.Stable? && table[i].ctime >= MaxAge - 12 && requested {
        KeepBalanced(t, i, e, ledger);
        PutInv(t, i, e);
        table[i] := table[i].(st := Rerequesting);
      }
    }

    /** The look-up of `etharp_output` for a unicast address: the cached index first, then a scan. */
    method Lookup(ip: Ip) returns (hit: bool, i: nat)
      requires Valid()
      modifies this`cached
      ensures Valid() && (hit ==> Has(table[..], i, ip) && IsStable(table[i]))
      ensures !hit ==> forall j :: Has(table[..], j, ip) ==> !IsStable(table[..][j])
      ensures hit ==> forall j :: Has(table[..], j, ip) ==> j == i
    {
      if IsStable(table[cached]) && table[cached].ip == ip {
        return true, cached;
      }
      i := 0;
      while i < table.Length
        invariant i <= table.Length && Valid()
        invariant forall j :: 0 <= j < i && Has(table[..], j, ip) ==> !IsStable(table[..][j])
      {
        if IsStable(table[i]) && table[i].ip == ip {
          cached := i;
          return true, i;
        }
        i := i + 1;
      }
      return false, i;
    }

    /** `etharp_output` to a unicast address: whichever index was cached, the packet goes to the address of
        the one stable entry, and is queued if there is none. */
    method EtharpOutput(ip: Ip, p: Pkt, requested: bool, copied: bool, slot: bool)
      returns (err: Err, out: seq<(Mac, Pkt)>, ghost i: nat)
      requires Valid()
      modifies table, this`ledger, this`cached
      ensures Valid() && i < table.Length
      ensures (exists j :: Has(old(table[..]), j, ip) && IsStable(old(table[..])[j]))
              <==> Has(old(table[..]), i, ip) && IsStable(old(table[..])[i])
      ensures Has(old(table[..]), i, ip) && IsStable(old(table[..])[i]) ==>
                && err.OK? && out == [(old(table[..])[i].mac, p)] && ledger == old(ledger)
                && table[..] == old(table[..])[i := Used(old(table[..])[i], requested)]
      ensures !(Has(old(table[..]), i, ip) && IsStable(old(table[..])[i])) ==>
                && out == [] && err == (if copied && slot then OK else MEM)
                && Queried(old(table[..]), old(ledger), i, ip, p, err.OK?, table[..], ledger)
    {
      var hit, k := Lookup(ip);
      i := k;
      if hit {
        out := OutputTo(k, p, requested);
        err := OK;
      } else {
        err, out, i := EtharpQuery(ip, p, true, copied, slot);
      }
    }

    /** `etharp_tmr`: every entry ages, and expired ones are freed with their packets. */
    method EtharpTmr()
      requires Valid()
      modifies table, this`ledger
      ensures Valid() && forall j :: 0 <= j < table.Length ==> table[j] == Aged(old(table[..])[j])
    {
      ghost var t := table[..];
      for i := 0 to table.Length
        invariant Valid()
        invariant forall j :: 0 <= j < table.Length ==> table[j] == if j < i then Aged(t[j]) else t[j]
      {
        if !table[i].st.Empty? {
          Tick(i);
        }
      }
    }

    method Tick(i: nat)
      requires Valid() && i < table.Length && !table[i].st.Empty?
      modifies table, this`ledger
      ensures Valid() && table[..] == old(table[..])[i := Aged(old(table[i]))]
    {
      ghost var t, e := table[..], table[i].(ctime := table[i].ctime + 1);
      KeepBalanced(t, i, e, ledger);
      PutInv(t, i, e);
      table[i] := table[i].(ctime := table[i].ctime + 1);
      assert table[..] == t[i := e];
      if table[i].ctime >= MaxAge || (table[i].st.Pending? && table[i].ctime >= MaxPending) {
        FreeEntry(i);
      } else if table[i].st.Rerequesting? {
        KeepBalanced(table[..], i, e.(st := Stable), ledger);
        PutInv(table[..], i, e.(st := Stable));
        table[i] := table[i].(st := Stable);
      }
    }
  }

  /** Finding the entry and submitting the packet to it compose. */
  lemma QueriedBy(t: Table, l: Ledger, i: nat, ip: Ip, p: Pkt, queued: bool, u: Table, m: Ledger, v: Table, n: Ledger)
    requires i < |t| && (Has(t, i, ip) ==> u == t && m == l && t[i].st.Pending?)
    requires !Has(t, i, ip) ==> Least(t, i) && NoneHas(t, |t|, ip) && u == t[i := Renewed(t[i], ip)]
                                && m == l.(dropped := l.dropped + t[i].q)
    requires v == u[i := u[i].(st := Pending, q := if queued then u[i].q + [p] else u[i].q)]
    requires n == if queued then m.(accepted := m.accepted + [p]) else m
    ensures Queried(t, l, i, ip, p, queued, v, n)
  {
    assert l.accepted + [] == l.accepted && l.dropped + [] == l.dropped;
    assert Awaiting(t, i, ip).q + [] == Awaiting(t, i, ip).q;
  }

  lemma AddressedStep(q: seq<Pkt>, mac: Mac)
    requires q != []
    ensures Addressed(q, mac) == [(mac, q[0])] + Addressed(q[1..], mac)
  {
  }

  lemma {:induction false} NothingQueued(t: Table)
    requires forall i :: 0 <= i < |t| ==> t[i].q == []
    ensures Balanced(t, Ledger([], [], []))
  {
    if t != [] {
      NothingQueued(t[1..]);
      forall x ensures Times([], x) == Queued(t, x) + Times([], x) + Times([], x) {
        assert Times([], x) == Queued(t[1..], x) + Times([], x) + Times([], x);
      }
    }
  }
}
