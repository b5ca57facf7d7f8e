/** Every step of `Select` keeps its invariant: no wakeup is lost, and no `select` is signalled twice. */
module SelectProofs {
  import opened Select

  // ----- the counts of waiting threads -----

  /** Nothing about who is counted changes. */
  lemma SameCount(socks: seq<Sock>, sels: map<nat, Sel>, id: nat, s: Sel)
    requires CountOk(socks, sels)
    requires forall j :: 0 <= j < |socks| ==> (Counted(s, j) <==> id in sels && Counted(sels[id], j))
    ensures CountOk(socks, sels[id := s])
  {
    forall j | 0 <= j < |socks| ensures socks[j].waiting == |Waiters(sels[id := s], j)| {
      assert Waiters(sels[id := s], j) == Waiters(sels, j);
    }
  }

  /** One socket counts one `select` more, or one less. */
  lemma BumpCount(socks: seq<Sock>, sels: map<nat, Sel>, id: nat, s: Sel, i: nat, d: int)
    requires CountOk(socks, sels) && id in sels && s.watch == sels[id].watch && i < s.watch.max
    requires forall j :: j != i ==> (Counted(s, j) <==> Counted(sels[id], j))
    requires d == 1 || d == -1
    requires Wants(s.watch, i) ==> (Counted(s, i) <==> d == 1) && (Counted(sels[id], i) <==> d == -1)
    ensures CountOk(Bump(socks, s.watch, i, d), sels[id := s])
  {
    var q := Bump(socks, s.watch, i, d);
    forall j | 0 <= j < |q| ensures q[j].waiting == |Waiters(sels[id := s], j)| {
      if j != i || !Wants(s.watch, i) {
        WaitersSame(sels, id, s, j);
      } else {
        WaitersBump(sels, id, s, j, d);
      }
    }
  }

  lemma WaitersSame(sels: map<nat, Sel>, id: nat, s: Sel, j: nat)
    requires id in sels && s.watch == sels[id].watch
    requires Wants(s.watch, j) ==> (Counted(s, j) <==> Counted(sels[id], j))
    ensures Waiters(sels[id := s], j) == Waiters(sels, j)
  {
  }

  lemma WaitersBump(sels: map<nat, Sel>, id: nat, s: Sel, j: nat, d: int)
    requires id in sels && s.watch == sels[id].watch && Wants(s.watch, j) && (d == 1 || d == -1)
    requires (Counted(s, j) <==> d == 1) && (Counted(sels[id], j) <==> d == -1)
    ensures |Waiters(sels[id := s], j)| == |Waiters(sels, j)| + d
  {
    var was, now := Waiters(sels, j), Waiters(sels[id := s], j);
    if d == 1 {
      assert now == was + {id} && id !in was;
    } else {
      assert was == now + {id} && id !in now;
    }
  }

  // ----- steps of one `select` -----

  /** The steps that move one `select` on without touching the list. */
  lemma MoveSel(st: State, id: nat, s: Sel, socks: seq<Sock>, t: State)
    requires Inv(st) && id in st.sels && t == st.(sels := st.sels[id := s], socks := socks)
    requires |socks| == |st.socks| && forall j :: 0 <= j < |socks| ==>
             socks[j] == st.socks[j].(waiting := socks[j].waiting)
    requires OnList(s.pc) == OnList(st.sels[id].pc) && s.watch == st.sels[id].watch && SelOk(s, |socks|)
    requires CountOk(socks, t.sels)
    requires forall j :: Needs(s, j, st.socks) ==> Needs(st.sels[id], j, st.socks)
    ensures Inv(t)
  {
    forall x, j | x in t.sels && Needs(t.sels[x], j, t.socks)
      ensures Pending(t, x, j)
    {
      assert t.socks[j] == st.socks[j].(waiting := t.socks[j].waiting);
      assert Needs(t.sels[x], j, st.socks) && Needs(st.sels[x], j, st.socks);
      assert Pending(st, x, j);
      var w :| w in st.walks && st.walks[w].sock == j && WillVisit(st, st.walks[w], x);
      assert WillVisit(t, t.walks[w], x);
    }
  }

  lemma CallInv(st: State, id: nat, watch: Watch)
    requires Inv(st) && Enabled(st, Call(id, watch))
    ensures Inv(Next(st, Call(id, watch)))
  {
    var s, t := Sel(watch, First(0, false), false, 0, 0), Next(st, Call(id, watch));
    SameCount(st.socks, st.sels, id, s);
    forall x, j | x in t.sels && Needs(t.sels[x], j, t.socks)
      ensures Pending(t, x, j)
    {
      assert x in st.sels && Needs(st.sels[x], j, st.socks) && Pending(st, x, j);
      var w :| w in st.walks && st.walks[w].sock == j && WillVisit(st, st.walks[w], x);
      assert WillVisit(t, t.walks[w], x);
    }
  }

  /** The list changes: every walk will notice, and begin again. */
  lemma ListChange(st: State, id: nat, s: Sel, list: seq<nat>, t: State)
    requires Inv(st) && id in st.sels && t == st.(sels := st.sels[id := s], list := list, ctr := st.ctr + 1)
    requires s.watch == st.sels[id].watch && SelOk(s, |st.socks|) && !s.pc.Sleep? && !s.pc.Second?
    requires forall j :: !Counted(s, j) && !Counted(st.sels[id], j)
    requires Distinct(list) && (id in list <==> OnList(s.pc)) && forall x :: x != id ==> (x in list <==> x in st.list)
    ensures Inv(t)
  {
    SameCount(st.socks, st.sels, id, s);
    forall x, j | x in t.sels && Needs(t.sels[x], j, t.socks)
      ensures Pending(t, x, j)
    {
      assert x != id && Needs(st.sels[x], j, st.socks) && Pending(st, x, j);
      var w :| w in st.walks && st.walks[w].sock == j && WillVisit(st, st.walks[w], x);
      assert WillVisit(t, t.walks[w], x);
    }
  }

  lemma WithoutList(l: seq<nat>, id: nat)
    requires Distinct(l) && id in l
    ensures Distinct(Without(l, id)) && id !in Without(l, id)
    ensures forall x :: x != id ==> (x in Without(l, id) <==> x in l)
  {
    var i, r := IndexIn(l, id), Without(l, id);
    assert forall k :: 0 <= k < |r| ==> r[k] == l[if k < i then k else k + 1];
    forall x | x != id && x in l ensures x in r {
      var k :| 0 <= k < |l| && l[k] == x;
      assert r[if k < i then k else k - 1] == x;
    }
  }

  /** The steps outside the list: the first scan and the end of the call. */
  lemma ScanInv(st: State, id: nat, left: bool)
    requires Inv(st) && id in st.sels && (st.sels[id].pc.First? || st.sels[id].pc.Done?)
    ensures Inv(SelectStep(st, id, left))
  {
    var t := SelectStep(st, id, left);
    SameCount(st.socks, st.sels, id, t.sels[id]);
    assert st == st.(sels := st.sels[id := st.sels[id]]);
    MoveSel(st, id, t.sels[id], st.socks, t);
  }

  /** The second scan, falling asleep and waking up.  The scan looks at every socket once more while
      the `select` is on the list and counted. */
  lemma WaitInv(st: State, id: nat, left: bool)
    requires Inv(st) && id in st.sels && (st.sels[id].pc.Second? || st.sels[id].pc.Sleep?)
    ensures Inv(SelectStep(st, id, left))
  {
    var t := SelectStep(st, id, left);
    SameCount(st.socks, st.sels, id, t.sels[id]);
    assert st == st.(sels := st.sels[id := st.sels[id]]);
    MoveSel(st, id, t.sels[id], st.socks, t);
  }

  /** The loops that count the `select` at its sockets. */
  lemma CountInv(st: State, id: nat, left: bool)
    requires Inv(st) && id in st.sels && (st.sels[id].pc.Count? || st.sels[id].pc.Uncount?)
    ensures Inv(SelectStep(st, id, left))
  {
    var s, t := st.sels[id], SelectStep(st, id, left);
    if s.pc.i < s.watch.max {
      BumpCount(st.socks, st.sels, id, t.sels[id], s.pc.i, if s.pc.Count? then 1 else -1);
    } else {
      SameCount(st.socks, st.sels, id, t.sels[id]);
    }
    MoveSel(st, id, t.sels[id], t.socks, t);
  }

  lemma EnlistInv(st: State, id: nat, left: bool)
    requires Inv(st) && id in st.sels && (st.sels[id].pc.Enlist? || st.sels[id].pc.Delist?)
    ensures Inv(SelectStep(st, id, left))
  {
    var s, t := st.sels[id], SelectStep(st, id, left);
    if s.pc.Delist? {
      WithoutList(st.list, id);
    }
    ListChange(st, id, t.sels[id], t.list, t);
  }

  lemma SelectInv(st: State, id: nat, left: bool)
    requires Inv(st) && id in st.sels
    ensures Inv(SelectStep(st, id, left))
  {
    var pc := st.sels[id].pc;
    if pc.First? || pc.Done? {
      ScanInv(st, id, left);
    } else if pc.Second? || pc.Sleep? {
      WaitInv(st, id, left);
    } else if pc.Count? || pc.Uncount? {
      CountInv(st, id, left);
    } else {
      EnlistInv(st, id, left);
    }
  }

  // ----- steps of the callbacks -----

  /** Finding entries in a list without repetitions. */
  lemma IndexAt(l: seq<nat>, k: nat)
    requires Distinct(l) && k < |l|
    ensures IndexIn(l, l[k]) == k
  {
    var i := IndexIn(l, l[k]);
    assert l[k] in l;
  }

  /** Testing an entry leaves it unsignalled only where its events of `j` have not happened. */
  lemma TestedKeeps(s: Sel, j: nat, sock: Sock, n: nat)
    requires SelOk(s, n) && OnList(s.pc)
    ensures var r := Tested(s, j, sock);
            && SelOk(r, n) && r.watch == s.watch && r.pc == s.pc
            && (r.signalled <==> s.signalled || Ready(s.watch, j, sock))
            && forall x :: Counted(r, x) <==> Counted(s, x)
  {
  }

  /** What a walk for socket `j` that now looks at position `k` owes: it has passed only entries that
      did not need it. */
  ghost predicate Owes(st: State, j: nat, k: nat) {
    forall id, i :: id in st.sels && Needs(st.sels[id], i, st.socks)
      ==> Pending(st, id, i) || (i == j && id in st.list && k <= IndexIn(st.list, id))
  }

  /** Everything but the wakeups. */
  predicate Base(st: State) {
    ListOk(st) && WalksOk(st) && CountOk(st.socks, st.sels) && SelsOk(st)
  }

  /** The walk looks at position `k`.  Wakeups left to it by earlier positions stay with it. */
  lemma VisitInv(st: State, w: nat, j: nat, k: nat)
    requires Base(st) && j < |st.socks| && w !in st.walks && Owes(st, j, k)
    ensures Inv(VisitAt(st, w, j, k))
  {
    var t := VisitAt(st, w, j, k);
    if k < |st.list| {
      var id := st.list[k];
      IndexAt(st.list, k);
      TestedKeeps(st.sels[id], j, st.socks[j], |st.socks|);
      SameCount(st.socks, st.sels, id, t.sels[id]);
    } else {
      assert t == st;
    }
    forall x, i | x in t.sels && Needs(t.sels[x], i, t.socks) ensures Pending(t, x, i) {
      VisitPending(st, w, j, k, x, i);
    }
  }

  lemma VisitPending(st: State, w: nat, j: nat, k: nat, x: nat, i: int)
    requires Base(st) && j < |st.socks| && w !in st.walks && Owes(st, j, k)
    requires var t := VisitAt(st, w, j, k); x in t.sels && Needs(t.sels[x], i, t.socks)
    ensures Pending(VisitAt(st, w, j, k), x, i)
  {
    var t := VisitAt(st, w, j, k);
    assert x in st.sels && Needs(st.sels[x], i, st.socks);
    if Pending(st, x, i) {
      var v :| v in st.walks && st.walks[v].sock == i && WillVisit(st, st.walks[v], x);
      assert v != w && WillVisit(t, t.walks[v], x);
    } else {
      assert i == j && x in st.list && k <= IndexIn(st.list, x);
      IndexAt(st.list, k);
      assert WillVisit(t, t.walks[w], x);
    }
  }

  /** Where a walk goes on. */
  function NextPos(st: State, wk: Walk): nat {
    if wk.last != st.ctr then 0 else IndexIn(st.list, wk.pos) + 1
  }

  /** What the walk was still to do, it does from there. */
  lemma WalkOwes(st: State, t: State, w: nat)
    requires NoLost(st) && w in st.walks && t == st.(walks := st.walks - {w})
    ensures Owes(t, st.walks[w].sock, NextPos(st, st.walks[w]))
  {
    var wk := st.walks[w];
    forall id, i | id in t.sels && Needs(t.sels[id], i, t.socks)
      ensures Pending(t, id, i) || (i == wk.sock && id in t.list && NextPos(st, wk) <= IndexIn(t.list, id))
    {
      assert Needs(st.sels[id], i, st.socks) && Pending(st, id, i);
      var v :| v in st.walks && st.walks[v].sock == i && WillVisit(st, st.walks[v], id);
      if v != w {
        assert v in t.walks && WillVisit(t, t.walks[v], id);
      }
    }
  }

  lemma WalkOnInv(st: State, w: nat)
    requires Inv(st) && w in st.walks
    ensures Inv(WalkOn(st, w))
  {
    var j, k, t := st.walks[w].sock, NextPos(st, st.walks[w]), st.(walks := st.walks - {w});
    WalkOwes(st, t, w);
    VisitInv(t, w, j, k);
    SameVisit(st, w, j, k);
  }

  /** The walk's old position does not matter. */
  lemma SameVisit(st: State, w: nat, j: nat, k: nat)
    ensures VisitAt(st, w, j, k) == VisitAt(st.(walks := st.walks - {w}), w, j, k)
  {
    assert (st.walks - {w}) - {w} == st.walks - {w};
    if k < |st.list| {
      var x := Walk(j, st.list[k], st.ctr);
      assert st.walks[w := x] == (st.walks - {w})[w := x];
    }
  }

  /** A `select` that relies on events of `j` is counted there, so the callback does not skip the list. */
  lemma ReliesCounted(st: State, id: nat, j: nat, sock: Sock)
    requires Base(st) && j < |st.socks| && id in st.sels && Relies(st.sels[id], j) && Ready(st.sels[id].watch, j, sock)
    ensures st.socks[j].waiting != 0 && id in st.list
  {
    assert id in Waiters(st.sels, j);
  }

  lemma CallbackInv(st: State, w: nat, j: nat, e: Evt)
    requires Inv(st) && w !in st.walks && j < |st.socks|
    ensures Inv(Callback(st, w, j, e))
  {
    var t := st.(socks := st.socks[j := SetEvent(st.socks[j], e)]);
    assert CountOk(t.socks, t.sels);
    forall id, i | id in t.sels && Needs(t.sels[id], i, t.socks)
      ensures Pending(t, id, i) || (i == j && id in t.list && st.socks[j].waiting != 0)
    {
      if i == j {
        ReliesCounted(t, id, j, t.socks[j]);
      } else {
        assert Needs(st.sels[id], i, st.socks) && Pending(st, id, i);
        var v :| v in st.walks && st.walks[v].sock == i && WillVisit(st, st.walks[v], id);
        assert WillVisit(t, t.walks[v], id);
      }
    }
    if st.socks[j].waiting != 0 {
      VisitInv(t, w, j, 0);
    }
  }

  // ----- what one call does -----

  /** Something that this `select` watches has happened at socket `i`. */
  predicate HasEvent(w: Watch, i: nat, rcv: int, send: bool, err: bool) {
    (i in w.read && rcv > 0) || (i in w.write && send) || (i in w.exc && err)
  }

  /** A `select` leaves its place for these reasons only: after the first scan it returns exactly if that found
      something or the caller does not wait, otherwise it goes on the list; after the second scan it sleeps exactly if
      that found nothing; it wakes exactly if it has been signalled or its time is over.  No other `select` is
      touched. */
  lemma SelectExact(st: State, id: nat, left: bool)
    requires Inv(st) && id in st.sels
    ensures var s, t := st.sels[id], SelectStep(st, id, left);
            var r := t.sels[id];
            && t.sels.Keys == st.sels.Keys && (forall x :: x in st.sels && x != id ==> t.sels[x] == st.sels[x])
            && t.walks == st.walks && r == s.(pc := r.pc, sem := s.sem - if s.pc.Sleep? && s.sem > 0 then 1 else 0)
            && match s.pc
               case First(i, found) =>
                 r.pc == if i < s.watch.max then First(i + 1, Finds(s, i, found, st.socks, left))
                         else if found || left then Done else Enlist
               case Enlist => r.pc == Count(0) && t.list == [id] + st.list
               case Count(i) => r.pc == if i < s.watch.max then Count(i + 1) else Second(0, false)
               case Second(i, found) =>
                 r.pc == if i < s.watch.max then Second(i + 1, Finds(s, i, found, st.socks, left))
                         else if found then Uncount(0) else Sleep
               case Sleep => r.pc == if s.sem > 0 || left then Uncount(0) else Sleep
               case Uncount(i) => r.pc == if i < s.watch.max then Uncount(i + 1) else Delist
               case Delist => r.pc == Done && id !in t.list
               case Done => r.pc == Done
  {
    if st.sels[id].pc.Delist? {
      WithoutList(st.list, id);
    }
  }

  /** A scan has found something at socket `i` or before. */
  predicate Finds(s: Sel, i: nat, found: bool, socks: seq<Sock>, left: bool) {
    || found
    || (i < |socks| && HasEvent(s.watch, i, socks[i].rcv, socks[i].send, socks[i].err))
    || (left && i in s.watch.read)
  }

  /** A callback for a socket that nobody waits for does not look at the list. */
  lemma CallbackAlone(st: State, w: nat, j: nat, e: Evt)
    requires Inv(st) && w !in st.walks && j < |st.socks| && Waiters(st.sels, j) == {}
    ensures var t := Callback(st, w, j, e);
            t == st.(socks := t.socks) && t.socks == st.socks[j := t.socks[j]]
  {
    assert st.socks[j].waiting == |Waiters(st.sels, j)|;
  }

  // ----- what has happened at a socket -----

  /** Packets received less packets taken, by one event and by a run. */
  function Delta(v: Event, j: nat): int {
    if !v.Happens? || v.sock != j then 0 else if v.e.RcvPlus? then 1 else if v.e.RcvMinus? then -1 else 0
  }

  function Arrived(vs: seq<Event>, j: nat): int { if vs == [] then 0 else Delta(vs[0], j) + Arrived(vs[1..], j) }

  /** The event is the last word on sending for the socket. */
  predicate OnSending(v: Event, j: nat) { v.Happens? && v.sock == j && (v.e.SendPlus? || v.e.SendMinus?) }

  function CanSend(vs: seq<Event>, j: nat, before: bool): bool
    decreases |vs|
  {
    if vs == [] then before
    else CanSend(vs[1..], j, if OnSending(vs[0], j) then vs[0].e.SendPlus? else before)
  }

  predicate IsError(v: Event, j: nat) { v.Happens? && v.sock == j && v.e.Error? }

  /** What the callbacks do not change. */
  lemma OtherStep(st: State, v: Event, j: nat)
    requires Enabled(st, v) && j < |st.socks| && !v.Happens?
    ensures var t := Next(st, v);
            |t.socks| == |st.socks| && t.socks[j] == st.socks[j].(waiting := t.socks[j].waiting)
  {
  }

  lemma SocketStep(st: State, v: Event, j: nat)
    requires Enabled(st, v) && j < |st.socks|
    ensures var t := Next(st, v);
            && |t.socks| == |st.socks|
            && t.socks[j].rcv == st.socks[j].rcv + Delta(v, j)
            && t.socks[j].send == (if OnSending(v, j) then v.e.SendPlus? else st.socks[j].send)
            && (t.socks[j].err <==> st.socks[j].err || IsError(v, j))
  {
    if v.Happens? {
      assert Next(st, v).socks == st.socks[v.sock := SetEvent(st.socks[v.sock], v.e)];
    } else {
      OtherStep(st, v, j);
    }
  }

  /** The fields that `select` looks at say what the callbacks have told: how many packets wait, whether the last word
      on sending was that it is possible, whether there ever was an error. */
  lemma {:induction false} SocketFollows(s: State, vs: seq<Event>, t: State, j: nat)
    requires Run(s, vs, t) && j < |s.socks|
    ensures |t.socks| == |s.socks|
    ensures t.socks[j].rcv == s.socks[j].rcv + Arrived(vs, j) && t.socks[j].send == CanSend(vs, j, s.socks[j].send)
    ensures t.socks[j].err <==> s.socks[j].err || exists i :: 0 <= i < |vs| && IsError(vs[i], j)
    decreases |vs|
  {
    if vs != [] {
      SocketStep(s, vs[0], j);
      SocketFollows(Next(s, vs[0]), vs[1..], t, j);
      ErrorsSplit(vs, j);
    }
  }

  lemma {:induction false} ErrorsSplit(vs: seq<Event>, j: nat)
    requires vs != []
    ensures (exists i :: 0 <= i < |vs| && IsError(vs[i], j)) <==>
            IsError(vs[0], j) || exists i :: 0 <= i < |vs[1..]| && IsError(vs[1..][i], j)
  {
    assert forall i :: 0 <= i < |vs[1..]| ==> vs[1..][i] == vs[i + 1];
    if k :| 0 <= k < |vs| && IsError(vs[k], j) && k > 0 {
      assert IsError(vs[1..][k - 1], j);
    }
    if k :| 0 <= k < |vs[1..]| && IsError(vs[1..][k], j) {
      assert IsError(vs[k + 1], j);
    }
  }

  // ----- every run -----

  lemma NextInv(st: State, v: Event)
    requires Inv(st) && Enabled(st, v)
    ensures Inv(Next(st, v))
  {
    match v
    case Call(id, watch) => CallInv(st, id, watch);
    case Select(id, left) => SelectInv(st, id, left);
    case Happens(w, sock, e) => CallbackInv(st, w, sock, e);
    case Walks(w) => WalkOnInv(st, w);
  }

  lemma {:induction false} RunInv(s: State, vs: seq<Event>, t: State)
    requires Inv(s) && Run(s, vs, t)
    ensures Inv(t)
    decreases |vs|
  {
    if vs != [] {
      NextInv(s, vs[0]);
      RunInv(Next(s, vs[0]), vs[1..], t);
    }
  }

  lemma StartInv(st: State)
    requires Start(st)
    ensures Inv(st)
  {
    forall j | 0 <= j < |st.socks| ensures st.socks[j].waiting == |Waiters(st.sels, j)| {
      assert Waiters(st.sels, j) == {};
    }
  }

  /** No lost wakeup: a `select` that sleeps unsignalled although an event it watches has happened
      is still ahead of a walk for that socket. */
  lemma NoLostWakeup(s: State, vs: seq<Event>, t: State, id: nat, j: nat) returns (w: nat)
    requires Start(s) && Run(s, vs, t) && id in t.sels && j < |t.socks|
    requires t.sels[id].pc.Sleep? && !t.sels[id].signalled && j < t.sels[id].watch.max
    requires HasEvent(t.sels[id].watch, j, t.socks[j].rcv, t.socks[j].send, t.socks[j].err)
    ensures w in t.walks && t.walks[w].sock == j && WillVisit(t, t.walks[w], id)
  {
    StartInv(s);
    RunInv(s, vs, t);
    assert Needs(t.sels[id], j, t.socks);
    w :| w in t.walks && t.walks[w].sock == j && WillVisit(t, t.walks[w], id);
  }

  /** Each `select` is signalled at most once, only while its entry is on the list, and `select_waiting`
      counts exactly the threads that wait for the socket. */
  lemma SignalledOnce(s: State, vs: seq<Event>, t: State)
    requires Start(s) && Run(s, vs, t)
    ensures forall id :: id in t.sels ==> t.sels[id].signals <= 1 && (t.sels[id].pc.Enlist? ==> t.sels[id].signals == 0)
    ensures forall id :: id in t.list <==> id in t.sels && OnList(t.sels[id].pc)
    ensures forall j :: 0 <= j < |t.socks| ==> t.socks[j].waiting == |Waiters(t.sels, j)|
  {
    StartInv(s);
    RunInv(s, vs, t);
    assert forall id :: id in t.sels ==> SelOk(t.sels[id], |t.socks|);
  }

  lemma NoNeeds(t: State, id: nat, j: nat)
    requires NoLost(t) && t.walks == map[] && id in t.sels
    ensures !Needs(t.sels[id], j, t.socks)
  {
  }

  /** When no callback is under way, no `select` sleeps past an event. */
  lemma Quiescent(s: State, vs: seq<Event>, t: State, id: nat, j: nat)
    requires Start(s) && Run(s, vs, t) && t.walks == map[] && id in t.sels && j < |t.socks|
    requires t.sels[id].pc.Sleep? && j < t.sels[id].watch.max
    requires HasEvent(t.sels[id].watch, j, t.socks[j].rcv, t.socks[j].send, t.socks[j].err)
    ensures t.sels[id].signalled && t.sels[id].sem == 1
  {
    StartInv(s);
    RunInv(s, vs, t);
    assert SelOk(t.sels[id], |t.socks|);
    NoNeeds(t, id, j);
  }

  // ----- a walk that is left alone -----

  function WalkN(st: State, w: nat, n: nat): State
    decreases n
  {
    if n == 0 || w !in st.walks then st else WalkN(WalkOn(st, w), w, n - 1)
  }

  /** One step of a walk that will visit `id`: it signals `id` if it has come to it, and has not
      passed it otherwise. */
  lemma WalkStep(st: State, w: nat, id: nat)
    requires Inv(st) && w in st.walks && WillVisit(st, st.walks[w], id)
    requires Ready(st.sels[id].watch, st.walks[w].sock, st.socks[st.walks[w].sock])
    ensures var t, k := WalkOn(st, w), NextPos(st, st.walks[w]);
            && t.list == st.list && t.ctr == st.ctr && t.socks == st.socks && k <= IndexIn(st.list, id)
            && id in t.sels && t.sels[id].watch == st.sels[id].watch
            && (k == IndexIn(st.list, id) ==> t.sels[id].signalled)
            && (k < IndexIn(st.list, id) ==>
                  && w in t.walks && t.walks[w].sock == st.walks[w].sock && t.walks[w].last == t.ctr
                  && IndexIn(t.list, t.walks[w].pos) == k)
  {
    var k := NextPos(st, st.walks[w]);
    IndexAt(st.list, k);
  }

  /** A walk that will visit an entry whose event has happened signals it, if it is left to run. */
  lemma {:induction false} WalkSignals(st: State, w: nat, id: nat) returns (n: nat, t: State)
    requires Inv(st) && w in st.walks && WillVisit(st, st.walks[w], id)
    requires Ready(st.sels[id].watch, st.walks[w].sock, st.socks[st.walks[w].sock])
    ensures t == WalkN(st, w, n) && id in t.sels && t.sels[id].signalled
    decreases |st.list| - NextPos(st, st.walks[w])
  {
    WalkStep(st, w, id);
    t := WalkOn(st, w);
    if NextPos(st, st.walks[w]) == IndexIn(st.list, id) {
      n := 1;
      assert WalkN(t, w, 0) == t;
    } else {
      WalkOnInv(st, w);
      n, t := WalkSignals(t, w, id);
      n := n + 1;
    }
  }
}
