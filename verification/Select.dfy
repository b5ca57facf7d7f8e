/**
 `select` against `event_callback` (sockets.c): any number of threads in `lwip_select`,
 any number of callbacks walking `select_cb_list`, interleaved at every point where
 the protection is released.
 */
module Select {

  /** A `struct lwip_sock`, reduced to the fields the protocol uses. */
  datatype Sock = Sock(rcv: int, send: bool, err: bool, waiting: int)

  /** The arguments of one `select`; a missing set is empty. */
  datatype Watch = Watch(max: nat, read: set<nat>, write: set<nat>, exc: set<nat>)

  predicate Wants(w: Watch, i: nat) { i in w.read || i in w.write || i in w.exc }

  /** The events of socket `i` that this `select` waits for have happened. */
  predicate Ready(w: Watch, i: nat, s: Sock) {
    (s.rcv > 0 && i in w.read) || (s.send && i in w.write) || (s.err && i in w.exc)
  }

  /** Where a `select` is; `i` is the next socket of the loop it is in. */
  datatype SelPc =
    | First(i: nat, found: bool)
    | Enlist
    | Count(i: nat)
    | Second(i: nat, found: bool)
    | Sleep
    | Uncount(i: nat)
    | Delist
    | Done

  /** A `select` with its `select_cb`: the semaphore counts `sem`, and was signalled `signals` times. */
  datatype Sel = Sel(watch: Watch, pc: SelPc, signalled: bool, sem: int, signals: int)

  /** An `event_callback` for `sock` that has unprotected after looking at entry `pos`. */
  datatype Walk = Walk(sock: nat, pos: nat, last: int)

  datatype State = State(socks: seq<Sock>, sels: map<nat, Sel>, list: seq<nat>, ctr: int, walks: map<nat, Walk>)

  datatype Evt = RcvPlus | RcvMinus | SendPlus | SendMinus | Error

  // ----- event_callback -----

  function SetEvent(s: Sock, e: Evt): Sock {
    match e
    case RcvPlus => s.(rcv := s.rcv + 1)
    case RcvMinus => s.(rcv := s.rcv - 1)
    case SendPlus => s.(send := true)
    case SendMinus => s.(send := false)
    case Error => s.(err := true)
  }

  /** The test of one list entry. */
  function Tested(s: Sel, j: nat, sock: Sock): Sel {
    if !s.signalled && Ready(s.watch, j, sock)
    then s.(signalled := true, sem := s.sem + 1, signals := s.signals + 1) else s
  }

  function IndexIn(l: seq<nat>, id: nat): (i: nat)
    ensures i <= |l|
    ensures i < |l| ==> l[i] == id
    ensures i == |l| <==> id !in l
  {
    if l == [] then 0 else if l[0] == id then 0 else 1 + IndexIn(l[1..], id)
  }

  /** The walk looks at list position `k` and unprotects, or ends. */
  function VisitAt(st: State, w: nat, j: nat, k: nat): State {
    if k >= |st.list| || st.list[k] !in st.sels || j >= |st.socks| then st.(walks := st.walks - {w})
    else
      var id := st.list[k];
      st.(sels := st.sels[id := Tested(st.sels[id], j, st.socks[j])], walks := st.walks[w := Walk(j, id, st.ctr)])
  }

  function Callback(st: State, w: nat, j: nat, e: Evt): State
    requires j < |st.socks|
  {
    var t := st.(socks := st.socks[j := SetEvent(st.socks[j], e)]);
    if st.socks[j].waiting == 0 then t else VisitAt(t, w, j, 0)
  }

  function WalkOn(st: State, w: nat): State
    requires w in st.walks
  {
    var wk := st.walks[w];
    if wk.last != st.ctr then VisitAt(st, w, wk.sock, 0) else VisitAt(st, w, wk.sock, IndexIn(st.list, wk.pos) + 1)
  }

  // ----- lwip_select -----

  /** One round of `lwip_selscan`; `left` says that the socket has data left from an earlier read. */
  function ScanOne(s: Sel, i: nat, found: bool, socks: seq<Sock>, left: bool): bool {
    found || (i < |socks| && Ready(s.watch, i, socks[i])) || (left && i in s.watch.read)
  }

  /** What `lwip_selscan` is to report of the sockets below `n`. */
  function Readable(w: Watch, socks: seq<Sock>, left: set<nat>, n: nat): set<nat> {
    set i: nat | i < n && i < |socks| && i in w.read && (i in left || socks[i].rcv > 0)
  }
  function Writable(w: Watch, socks: seq<Sock>, n: nat): set<nat> {
    set i: nat | i < n && i < |socks| && i in w.write && socks[i].send
  }
  function Failing(w: Watch, socks: seq<Sock>, n: nat): set<nat> {
    set i: nat | i < n && i < |socks| && i in w.exc && socks[i].err
  }

  lemma NextSocket(w: Watch, socks: seq<Sock>, left: set<nat>, n: nat)
    requires n < |socks|
    ensures Readable(w, socks, left, n + 1) ==
            Readable(w, socks, left, n) + if n in w.read && (n in left || socks[n].rcv > 0) then {n} else {}
    ensures Writable(w, socks, n + 1) == Writable(w, socks, n) + if n in w.write && socks[n].send then {n} else {}
    ensures Failing(w, socks, n + 1) == Failing(w, socks, n) + if n in w.exc && socks[n].err then {n} else {}
  {
  }

  lemma NoSocket(w: Watch, socks: seq<Sock>, left: set<nat>, n: nat)
    requires |socks| <= n
    ensures Readable(w, socks, left, n + 1) == Readable(w, socks, left, n)
    ensures Writable(w, socks, n + 1) == Writable(w, socks, n) && Failing(w, socks, n + 1) == Failing(w, socks, n)
  {
  }

  /** `lwip_selscan` on sockets that do not change meanwhile: it reports exactly the sockets with
      events (`left` are those with data left from an earlier read) and counts every report. */
  method SelScan(w: Watch, socks: seq<Sock>, left: set<nat>)
    returns (r: set<nat>, s: set<nat>, x: set<nat>, nready: nat)
    ensures r == Readable(w, socks, left, w.max) && s == Writable(w, socks, w.max) && x == Failing(w, socks, w.max)
    ensures nready == |r| + |s| + |x|
  {
    r, s, x, nready := {}, {}, {}, 0;
    for n := 0 to w.max
      invariant r == Readable(w, socks, left, n) && s == Writable(w, socks, n) && x == Failing(w, socks, n)
      invariant nready == |r| + |s| + |x|
    {
      if n < |socks| {
        NextSocket(w, socks, left, n);
        r, nready := Report(r, n, n in w.read && (n in left || socks[n].rcv > 0), nready);
        s, nready := Report(s, n, n in w.write && socks[n].send, nready);
        x, nready := Report(x, n, n in w.exc && socks[n].err, nready);
      } else {
        NoSocket(w, socks, left, n);
      }
    }
  }

  method Report(r: set<nat>, n: nat, event: bool, nready: nat) returns (q: set<nat>, m: nat)
    requires n !in r
    ensures q == r + (if event then {n} else {}) && m == nready + |q| - |r|
  {
    if event { q, m := r + {n}, nready + 1; } else { q, m := r, nready; }
  }

  function Bump(socks: seq<Sock>, w: Watch, i: nat, d: int): seq<Sock> {
    if Wants(w, i) && i < |socks| then socks[i := socks[i].(waiting := socks[i].waiting + d)] else socks
  }

  function Without(l: seq<nat>, id: nat): seq<nat> {
    var i := IndexIn(l, id);
    if i < |l| then l[..i] + l[i + 1..] else l
  }

  /** One step of `select` `id`.  `left` is as for `ScanOne`; in `Sleep` it says that the wait timed
      out, and after the first scan that the caller asked not to wait. */
  function SelectStep(st: State, id: nat, left: bool): State
    requires id in st.sels
  {
    var s := st.sels[id];
    match s.pc
    case First(i, found) =>
      if i < s.watch.max then st.(sels := st.sels[id := s.(pc := First(i + 1, ScanOne(s, i, found, st.socks, left)))])
      else st.(sels := st.sels[id := s.(pc := if found || left then Done else Enlist)])
    case Enlist =>
      st.(sels := st.sels[id := s.(pc := Count(0))], list := [id] + st.list, ctr := st.ctr + 1)
    case Count(i) =>
      if i < s.watch.max then
        st.(sels := st.sels[id := s.(pc := Count(i + 1))], socks := Bump(st.socks, s.watch, i, 1))
      else st.(sels := st.sels[id := s.(pc := Second(0, false))])
    case Second(i, found) =>
      if i < s.watch.max then st.(sels := st.sels[id := s.(pc := Second(i + 1, ScanOne(s, i, found, st.socks, left)))])
      else st.(sels := st.sels[id := s.(pc := if found then Uncount(0) else Sleep)])
    case Sleep =>
      if s.sem > 0 then st.(sels := st.sels[id := s.(pc := Uncount(0), sem := s.sem - 1)])
      else if left then st.(sels := st.sels[id := s.(pc := Uncount(0))])
      else st
    case Uncount(i) =>
      if i < s.watch.max then
        st.(sels := st.sels[id := s.(pc := Uncount(i + 1))], socks := Bump(st.socks, s.watch, i, -1))
      else st.(sels := st.sels[id := s.(pc := Delist)])
    case Delist =>
      st.(sels := st.sels[id := s.(pc := Done)], list := Without(st.list, id), ctr := st.ctr + 1)
    case Done => st
  }

  // ----- runs -----

  datatype Event =
    | Call(id: nat, watch: Watch)
    | Select(id: nat, left: bool)
    | Happens(w: nat, sock: nat, e: Evt)
    | Walks(w: nat)

  /** Callers watch sockets that exist. */
  predicate Enabled(st: State, v: Event) {
    match v
    case Call(id, watch) => id !in st.sels && forall i :: 0 <= i < watch.max && Wants(watch, i) ==> i < |st.socks|
    case Select(id, left) => id in st.sels
    case Happens(w, sock, e) => w !in st.walks && sock < |st.socks|
    case Walks(w) => w in st.walks
  }

  function Next(st: State, v: Event): State
    requires Enabled(st, v)
  {
    match v
    case Call(id, watch) => st.(sels := st.sels[id := Sel(watch, First(0, false), false, 0, 0)])
    case Select(id, left) => SelectStep(st, id, left)
    case Happens(w, sock, e) => Callback(st, w, sock, e)
    case Walks(w) => WalkOn(st, w)
  }

  predicate Run(s: State, vs: seq<Event>, t: State)
    decreases |vs|
  {
    if vs == [] then t == s else Enabled(s, vs[0]) && Run(Next(s, vs[0]), vs[1..], t)
  }

  predicate Start(st: State) {
    && st.sels == map[] && st.walks == map[] && st.list == []
    && forall j :: 0 <= j < |st.socks| ==> st.socks[j].waiting == 0
  }

  // ----- the invariant -----

  predicate OnList(pc: SelPc) { pc.Count? || pc.Second? || pc.Sleep? || pc.Uncount? || pc.Delist? }

  /** This `select` is counted in `select_waiting` of socket `j`. */
  predicate Counted(s: Sel, j: nat) {
    && j < s.watch.max && Wants(s.watch, j)
    && match s.pc {
      case Count(i) => j < i
      case Second(i, found) => true
      case Sleep => true
      case Uncount(i) => i <= j
      case _ => false
    }
  }

  /** The counting loops stay within their bounds. */
  predicate PcOk(s: Sel) {
    match s.pc
    case Count(i) => i <= s.watch.max
    case Second(i, found) => i <= s.watch.max
    case Uncount(i) => i <= s.watch.max
    case _ => true
  }

  /** This `select` relies on being woken for events of socket `j`: it is asleep, or about to be and
      past `j` in its second scan. */
  predicate Relies(s: Sel, j: nat) {
    !s.signalled && j < s.watch.max && (s.pc.Sleep? || (s.pc.Second? && !s.pc.found && j < s.pc.i))
  }

  /** It has to be woken for socket `j` now. */
  predicate Needs(s: Sel, j: int, socks: seq<Sock>) {
    0 <= j < |socks| && Relies(s, j) && Ready(s.watch, j, socks[j])
  }

  /** The walk will still come to entry `id`. */
  predicate WillVisit(st: State, wk: Walk, id: nat) {
    id in st.list && (wk.last != st.ctr || IndexIn(st.list, wk.pos) < IndexIn(st.list, id))
  }

  /** Some walk for socket `j` will still come to entry `id`. */
  ghost predicate Pending(st: State, id: nat, j: nat) {
    exists w :: w in st.walks && st.walks[w].sock == j && WillVisit(st, st.walks[w], id)
  }

  predicate Distinct(l: seq<nat>) { forall i, k :: 0 <= i < k < |l| ==> l[i] != l[k] }

  predicate ListOk(st: State) {
    && Distinct(st.list)
    && (forall id :: id in st.list ==> id in st.sels)
    && (forall id :: id in st.sels ==> (id in st.list <==> OnList(st.sels[id].pc)))
  }

  predicate WalksOk(st: State) {
    forall w :: w in st.walks ==>
      var wk := st.walks[w];
      wk.sock < |st.socks| && wk.last <= st.ctr && (wk.last == st.ctr ==> wk.pos in st.list)
  }

  function Waiters(sels: map<nat, Sel>, j: nat): set<nat> { set id | id in sels && Counted(sels[id], j) }

  predicate CountOk(socks: seq<Sock>, sels: map<nat, Sel>) {
    forall j :: 0 <= j < |socks| ==> socks[j].waiting == |Waiters(sels, j)|
  }

  predicate SelOk(s: Sel, n: nat) {
    && PcOk(s) && 0 <= s.sem <= s.signals == (if s.signalled then 1 else 0)
    && (forall i :: 0 <= i < s.watch.max && Wants(s.watch, i) ==> i < n)
    && (!OnList(s.pc) && !s.pc.Done? ==> !s.signalled)
    && (s.pc.Count? || s.pc.Second? || s.pc.Sleep? ==> s.sem == s.signals)
  }

  predicate SelsOk(st: State) { forall id :: id in st.sels ==> SelOk(st.sels[id], |st.socks|) }

  ghost predicate NoLost(st: State) {
    forall id, j :: id in st.sels && Needs(st.sels[id], j, st.socks) ==> Pending(st, id, j)
  }

  ghost predicate Inv(st: State) {
    ListOk(st) && WalksOk(st) && CountOk(st.socks, st.sels) && SelsOk(st) && NoLost(st)
  }
}
