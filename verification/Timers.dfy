/**
 The timer list of timers.c: every entry stores the time after its predecessor.  The list
 refines a queue of absolute deadlines under insertion, removal and expiry.
 */
module Timers {

  /** A `struct sys_timeo`. */
  datatype Timeo = Timeo(time: nat, h: nat, arg: nat)

  /** A deadline of the abstract queue. */
  datatype Due = Due(at: nat, h: nat, arg: nat)

  type List = seq<Timeo>

  /** The deadlines that a list stands for when its times count from `base`. */
  function Abs(l: List, base: nat): seq<Due> {
    if l == [] then [] else [Due(base + l[0].time, l[0].h, l[0].arg)] + Abs(l[1..], base + l[0].time)
  }

  /** When the last entry is due, counted from the base. */
  function Total(l: List): nat { if l == [] then 0 else l[0].time + Total(l[1..]) }

  predicate Sorted(q: seq<Due>) { forall i, j :: 0 <= i < j < |q| ==> q[i].at <= q[j].at }

  // ----- the queue of deadlines -----

  /** A new deadline goes behind all that are not later: equal ones stay in order of arrival. */
  function Enter(q: seq<Due>, d: Due): seq<Due> {
    if q == [] || q[0].at > d.at then [d] + q else [q[0]] + Enter(q[1..], d)
  }

  function Matches(t: Timeo, h: nat, arg: nat): bool { t.h == h && t.arg == arg }

  /** The first deadline with that handler and argument is taken out. */
  function Cancel(q: seq<Due>, h: nat, arg: nat): seq<Due> {
    if q == [] then [] else if q[0].h == h && q[0].arg == arg then q[1..] else [q[0]] + Cancel(q[1..], h, arg)
  }

  /** At most one deadline is taken out: the first that matches. */
  lemma {:induction false} CancelExact(q: seq<Due>, h: nat, arg: nat) returns (i: nat)
    ensures i <= |q| && (i < |q| ==> q[i].h == h && q[i].arg == arg)
    ensures forall k :: 0 <= k < i ==> q[k].h != h || q[k].arg != arg
    ensures Cancel(q, h, arg) == if i < |q| then q[..i] + q[i + 1..] else q
  {
    if q == [] || (q[0].h == h && q[0].arg == arg) {
      i := 0;
    } else {
      i := CancelExact(q[1..], h, arg);
      assert q == [q[0]] + q[1..] && q[..i + 1] == [q[0]] + q[1..][..i];
      i := i + 1;
    }
  }

  /** Where it goes. */
  function Place(q: seq<Due>, d: Due): (i: nat)
    ensures i <= |q| && (i < |q| ==> q[i].at > d.at)
    ensures forall k :: 0 <= k < i ==> q[k].at <= d.at
  {
    if q == [] || q[0].at > d.at then 0 else 1 + Place(q[1..], d)
  }

  lemma {:induction false} EnterShape(q: seq<Due>, d: Due)
    ensures Enter(q, d) == q[..Place(q, d)] + [d] + q[Place(q, d)..]
  {
    if q != [] && q[0].at <= d.at {
      EnterShape(q[1..], d);
      var i := Place(q[1..], d);
      assert q[..i + 1] == [q[0]] + q[1..][..i] && q[i + 1..] == q[1..][i..];
    }
  }

  lemma {:induction false} EnterSorted(q: seq<Due>, d: Due)
    requires Sorted(q)
    ensures Sorted(Enter(q, d))
  {
    EnterShape(q, d);
    SortedWith(q, d, Place(q, d));
  }

  lemma {:induction false} SortedWith(q: seq<Due>, d: Due, i: nat)
    requires Sorted(q) && i <= |q| && (i < |q| ==> q[i].at > d.at) && (forall k :: 0 <= k < i ==> q[k].at <= d.at)
    ensures Sorted(q[..i] + [d] + q[i..])
  {
    var r := q[..i] + [d] + q[i..];
    forall j, k | 0 <= j < k < |r| ensures r[j].at <= r[k].at {
      assert r[k] == if k < i then q[k] else if k == i then d else q[k - 1];
      assert r[j] == if j < i then q[j] else if j == i then d else q[j - 1];
    }
  }

  // ----- the list of differences -----

  /** The list when `base` moves on by the time of a predecessor that is taken out. */
  function Later(l: List, t: nat): List { if l == [] then [] else [l[0].(time := l[0].time + t)] + l[1..] }

  /** `sys_timeout`. */
  function Insert(l: List, t: Timeo): List {
    if l == [] then [t]
    else if l[0].time > t.time then [t, l[0].(time := l[0].time - t.time)] + l[1..]
    else [l[0]] + Insert(l[1..], t.(time := t.time - l[0].time))
  }

  /** `sys_untimeout`. */
  function Remove(l: List, h: nat, arg: nat): List {
    if l == [] then [] else if Matches(l[0], h, arg) then Later(l[1..], l[0].time) else [l[0]] + Remove(l[1..], h, arg)
  }

  lemma {:induction false} AbsSorted(l: List, base: nat)
    ensures |Abs(l, base)| == |l| && Sorted(Abs(l, base))
    ensures forall i :: 0 <= i < |l| ==> base <= Abs(l, base)[i].at <= base + Total(l)
  {
    if l != [] {
      AbsSorted(l[1..], base + l[0].time);
    }
  }

  /** Insertion adds exactly one deadline and leaves every other one as it was. */
  lemma {:induction false} InsertRefines(l: List, t: Timeo, base: nat)
    ensures Abs(Insert(l, t), base) == Enter(Abs(l, base), Due(base + t.time, t.h, t.arg))
    ensures Total(Insert(l, t)) == if Total(l) > t.time then Total(l) else t.time
  {
    if l == [] {
      assert [t][1..] == [];
    } else if l[0].time > t.time {
      var x := l[0].(time := l[0].time - t.time);
      assert ([t, x] + l[1..])[1..] == [x] + l[1..] && ([x] + l[1..])[1..] == l[1..];
      assert Abs([x] + l[1..], base + t.time) == Abs(l, base);
    } else {
      var u := t.(time := t.time - l[0].time);
      InsertRefines(l[1..], u, base + l[0].time);
      assert ([l[0]] + Insert(l[1..], u))[1..] == Insert(l[1..], u);
      assert Abs(l, base)[1..] == Abs(l[1..], base + l[0].time);
    }
  }

  lemma {:induction false} LaterAbs(l: List, t: nat, base: nat)
    ensures Abs(Later(l, t), base) == Abs(l, base + t) && (l != [] ==> Total(Later(l, t)) == Total(l) + t)
  {
    if l != [] {
      var m := Later(l, t);
      assert m[1..] == l[1..] && m[0].time == l[0].time + t;
      assert base + m[0].time == base + t + l[0].time;
    }
  }

  /** Removal takes out exactly one deadline and leaves every other one as it was. */
  lemma {:induction false} RemoveRefines(l: List, h: nat, arg: nat, base: nat)
    ensures Abs(Remove(l, h, arg), base) == Cancel(Abs(l, base), h, arg)
    ensures Total(Remove(l, h, arg)) <= Total(l)
  {
    if l != [] {
      assert Abs(l, base)[1..] == Abs(l[1..], base + l[0].time);
      if Matches(l[0], h, arg) {
        LaterAbs(l[1..], l[0].time, base);
      } else {
        RemoveRefines(l[1..], h, arg, base + l[0].time);
        assert ([l[0]] + Remove(l[1..], h, arg))[1..] == Remove(l[1..], h, arg);
      }
    }
  }

  // ----- expiry -----

  /** What a handler does to the timers. */
  datatype Op = Arm(msecs: nat, h: nat, arg: nat) | Disarm(h: nat, arg: nat)

  predicate Rearms(ops: seq<Op>) { forall o :: o in ops && o.Arm? ==> o.msecs >= 1 }

  function Apply(l: List, ops: seq<Op>): List
    decreases |ops|
  {
    if ops == [] then l
    else Apply(if ops[0].Arm? then Insert(l, Timeo(ops[0].msecs, ops[0].h, ops[0].arg))
               else Remove(l, ops[0].h, ops[0].arg), ops[1..])
  }

  function ApplyAbs(q: seq<Due>, ops: seq<Op>, now: nat): seq<Due>
    decreases |ops|
  {
    if ops == [] then q
    else ApplyAbs(if ops[0].Arm? then Enter(q, Due(now + ops[0].msecs, ops[0].h, ops[0].arg))
                  else Cancel(q, ops[0].h, ops[0].arg), ops[1..], now)
  }

  lemma {:induction false} ApplyRefines(l: List, ops: seq<Op>, base: nat)
    ensures Abs(Apply(l, ops), base) == ApplyAbs(Abs(l, base), ops, base)
    decreases |ops|
  {
    if ops != [] {
      if ops[0].Arm? {
        InsertRefines(l, Timeo(ops[0].msecs, ops[0].h, ops[0].arg), base);
        ApplyRefines(Insert(l, Timeo(ops[0].msecs, ops[0].h, ops[0].arg)), ops[1..], base);
      } else {
        RemoveRefines(l, ops[0].h, ops[0].arg, base);
        ApplyRefines(Remove(l, ops[0].h, ops[0].arg), ops[1..], base);
      }
    }
  }

  /** How many entries are due at the base itself. */
  function DueNow(l: List): nat { if l == [] || l[0].time > 0 then 0 else 1 + DueNow(l[1..]) }

  lemma {:induction false} InsertDueNow(l: List, t: Timeo)
    requires t.time >= 1
    ensures DueNow(Insert(l, t)) == DueNow(l)
  {
    if l != [] && l[0].time <= t.time {
      var u := t.(time := t.time - l[0].time);
      assert ([l[0]] + Insert(l[1..], u))[1..] == Insert(l[1..], u);
      if l[0].time == 0 {
        InsertDueNow(l[1..], u);
      }
    } else if l != [] {
      assert Insert(l, t)[0] == t;
    }
  }

  lemma {:induction false} RemoveDueNow(l: List, h: nat, arg: nat)
    ensures DueNow(Remove(l, h, arg)) <= DueNow(l)
  {
    if l != [] {
      if Matches(l[0], h, arg) {
        if l[0].time == 0 {
          assert Later(l[1..], 0) == l[1..];
        } else if l[1..] != [] {
          assert Later(l[1..], l[0].time)[0].time > 0;
        }
      } else {
        RemoveDueNow(l[1..], h, arg);
        assert ([l[0]] + Remove(l[1..], h, arg))[1..] == Remove(l[1..], h, arg);
      }
    }
  }

  lemma {:induction false} ApplyDueNow(l: List, ops: seq<Op>)
    requires Rearms(ops)
    ensures DueNow(Apply(l, ops)) <= DueNow(l)
    decreases |ops|
  {
    if ops != [] {
      assert ops[0] in ops;
      if ops[0].Arm? {
        InsertDueNow(l, Timeo(ops[0].msecs, ops[0].h, ops[0].arg));
        ApplyDueNow(Insert(l, Timeo(ops[0].msecs, ops[0].h, ops[0].arg)), ops[1..]);
      } else {
        RemoveDueNow(l, ops[0].h, ops[0].arg);
        ApplyDueNow(Remove(l, ops[0].h, ops[0].arg), ops[1..]);
      }
    }
  }

  /** What is left, how much of the elapsed time is left over, and what was called at which deadline. */
  datatype Expired = Expired(left: List, over: nat, fired: seq<Due>)

  /** The loop of `sys_check_timeouts` for `diff` elapsed milliseconds.  `script(n)` is what the `n`-th handler
      called does; handlers that arm timers with at least one millisecond let the loop end. */
  function Expire(l: List, base: nat, diff: nat, script: nat -> seq<Op>, n: nat): (r: Expired)
    requires forall k :: Rearms(script(k))
    ensures r.over <= diff
    decreases diff, DueNow(l)
  {
    if l == [] || l[0].time > diff then Expired(l, diff, [])
    else
      ApplyDueNow(l[1..], script(n));
      var r := Expire(Apply(l[1..], script(n)), base + l[0].time, diff - l[0].time, script, n + 1);
      r.(fired := [Due(base + l[0].time, l[0].h, l[0].arg)] + r.fired)
  }

  /** The same on deadlines: as long as the first one is not after `limit`, it is served, and its handler
      acts at that moment. */
  predicate Served(q: seq<Due>, limit: nat, script: nat -> seq<Op>, n: nat, fired: seq<Due>, left: seq<Due>)
    decreases |fired|
  {
    if fired == [] then left == q && (q == [] || q[0].at > limit)
    else q != [] && q[0] == fired[0] && q[0].at <= limit
         && Served(ApplyAbs(q[1..], script(n), q[0].at), limit, script, n + 1, fired[1..], left)
  }

  lemma {:induction false} ServedOnce(l: List, base: nat, limit: nat, script: nat -> seq<Op>, n: nat,
                                      fired: seq<Due>, left: seq<Due>)
    requires l != [] && base + l[0].time <= limit
    requires Served(Abs(Apply(l[1..], script(n)), base + l[0].time), limit, script, n + 1, fired, left)
    ensures Served(Abs(l, base), limit, script, n, [Due(base + l[0].time, l[0].h, l[0].arg)] + fired, left)
  {
    ApplyRefines(l[1..], script(n), base + l[0].time);
    assert Abs(l, base)[1..] == Abs(l[1..], base + l[0].time);
    ServedFirst(Abs(l, base), limit, script, n, fired, left);
  }

  lemma {:induction false} ServedFirst(q: seq<Due>, limit: nat, script: nat -> seq<Op>, n: nat, fired: seq<Due>,
                                       left: seq<Due>)
    requires q != [] && q[0].at <= limit
             && Served(ApplyAbs(q[1..], script(n), q[0].at), limit, script, n + 1, fired, left)
    ensures Served(q, limit, script, n, [q[0]] + fired, left)
  {
    assert ([q[0]] + fired)[1..] == fired;
  }

  /** One round of it: `m` is the list after the first handler, and `u` what comes of it. */
  lemma {:induction false} ExpireOnce(l: List, base: nat, diff: nat, limit: nat, script: nat -> seq<Op>, n: nat,
                                      m: List, u: Expired)
    requires (forall k :: Rearms(script(k))) && l != [] && l[0].time <= diff && m == Apply(l[1..], script(n))
    requires limit == base + diff && u == Expire(m, base + l[0].time, diff - l[0].time, script, n + 1)
    requires Served(Abs(m, base + l[0].time), limit, script, n + 1, u.fired, Abs(u.left, limit - u.over))
    ensures var r := Expire(l, base, diff, script, n);
            Served(Abs(l, base), limit, script, n, r.fired, Abs(r.left, limit - r.over))
  {
    ServedOnce(l, base, limit, script, n, u.fired, Abs(u.left, limit - u.over));
    assert Expire(l, base, diff, script, n) == u.(fired := [Due(base + l[0].time, l[0].h, l[0].arg)] + u.fired);
  }

  lemma {:induction false} ExpireNone(l: List, base: nat, diff: nat, limit: nat, script: nat -> seq<Op>, n: nat)
    requires (forall k :: Rearms(script(k))) && (l == [] || l[0].time > diff) && limit == base + diff
    ensures var r := Expire(l, base, diff, script, n);
            Served(Abs(l, base), limit, script, n, r.fired, Abs(r.left, limit - r.over))
  {
    assert Expire(l, base, diff, script, n) == Expired(l, diff, []);
  }

  lemma {:induction false} ExpireUpTo(l: List, base: nat, diff: nat, limit: nat, script: nat -> seq<Op>, n: nat)
    requires (forall k :: Rearms(script(k))) && limit == base + diff
    ensures var r := Expire(l, base, diff, script, n);
            Served(Abs(l, base), limit, script, n, r.fired, Abs(r.left, limit - r.over))
    decreases diff, DueNow(l)
  {
    if l == [] || l[0].time > diff {
      ExpireNone(l, base, diff, limit, script, n);
    } else {
      var t, m := l[0].time, Apply(l[1..], script(n));
      ApplyDueNow(l[1..], script(n));
      ExpireUpTo(m, base + t, diff - t, limit, script, n + 1);
      ExpireOnce(l, base, diff, limit, script, n, m, Expire(m, base + t, diff - t, script, n + 1));
    }
  }

  /** Expiry on the list of differences is serving the deadlines it stands for. */
  lemma {:induction false} ExpireRefines(l: List, base: nat, diff: nat, script: nat -> seq<Op>, n: nat)
    requires forall k :: Rearms(script(k))
    ensures var r := Expire(l, base, diff, script, n);
            Served(Abs(l, base), base + diff, script, n, r.fired, Abs(r.left, base + diff - r.over))
  {
    ExpireUpTo(l, base, diff, base + diff, script, n);
  }

  lemma {:induction false} CancelSorted(q: seq<Due>, h: nat, arg: nat)
    requires Sorted(q)
    ensures Sorted(Cancel(q, h, arg)) && forall d :: d in Cancel(q, h, arg) ==> d in q
  {
    if q != [] && !(q[0].h == h && q[0].arg == arg) {
      CancelSorted(q[1..], h, arg);
      var r := Cancel(q[1..], h, arg);
      forall d | d in r ensures q[0].at <= d.at {
        var k :| 0 <= k < |q[1..]| && q[1..][k] == d;
      }
    }
  }

  predicate From(q: seq<Due>, t: nat) { forall d :: d in q ==> t <= d.at }

  lemma {:induction false} ApplySorted(q: seq<Due>, ops: seq<Op>, now: nat)
    requires Sorted(q) && From(q, now)
    ensures Sorted(ApplyAbs(q, ops, now)) && From(ApplyAbs(q, ops, now), now)
    decreases |ops|
  {
    if ops != [] {
      if ops[0].Arm? {
        var d := Due(now + ops[0].msecs, ops[0].h, ops[0].arg);
        EnterSorted(q, d);
        EnterShape(q, d);
        ApplySorted(Enter(q, d), ops[1..], now);
      } else {
        CancelSorted(q, ops[0].h, ops[0].arg);
        ApplySorted(Cancel(q, ops[0].h, ops[0].arg), ops[1..], now);
      }
    }
  }

  /** What is behind the first deadline is not before it. */
  lemma {:induction false} TailFrom(q: seq<Due>)
    requires q != [] && Sorted(q)
    ensures Sorted(q[1..]) && From(q[1..], q[0].at)
  {
    forall d | d in q[1..] ensures q[0].at <= d.at {
      var k :| 0 <= k < |q[1..]| && q[1..][k] == d;
    }
  }

  lemma {:induction false} ConsOrder(d: Due, rest: seq<Due>, from: nat, limit: nat)
    requires from <= d.at <= limit && Sorted(rest) && From(rest, d.at) && forall e :: e in rest ==> e.at <= limit
    ensures Sorted([d] + rest) && From([d] + rest, from) && forall e :: e in [d] + rest ==> e.at <= limit
  {
    var q := [d] + rest;
    forall i, j | 0 <= i < j < |q| ensures q[i].at <= q[j].at {
      assert q[j] == rest[j - 1] && rest[j - 1] in rest;
    }
  }

  lemma {:induction false} NoneDue(q: seq<Due>, limit: nat)
    requires Sorted(q) && (q == [] || q[0].at > limit)
    ensures forall d :: d in q ==> d.at > limit
  {
    forall d | d in q ensures d.at > limit {
      var k :| 0 <= k < |q| && q[k] == d;
    }
  }

  /** Handlers are called in the order of their deadlines, none before its deadline, and nothing that is due is
      left. */
  lemma {:induction false} ServedInOrder(q: seq<Due>, limit: nat, script: nat -> seq<Op>, n: nat,
                                         fired: seq<Due>, left: seq<Due>, from: nat)
    requires Served(q, limit, script, n, fired, left) && Sorted(q) && From(q, from)
    ensures Sorted(fired) && From(fired, from) && (forall d :: d in fired ==> d.at <= limit)
    ensures Sorted(left) && forall d :: d in left ==> d.at > limit
    decreases |fired|
  {
    if fired == [] {
      NoneDue(q, limit);
    } else {
      var t := q[0].at;
      assert q[0] in q;
      TailFrom(q);
      ApplySorted(q[1..], script(n), t);
      ServedInOrder(ApplyAbs(q[1..], script(n), t), limit, script, n + 1, fired[1..], left, t);
      ConsOrder(q[0], fired[1..], from, limit);
      assert fired == [q[0]] + fired[1..];
    }
  }

  /** The handlers leave the timers alone. */
  ghost predicate Quiet(script: nat -> seq<Op>) { forall k :: script(k) == [] }

  /** When they do, exactly the deadlines up to the limit are served. */
  lemma {:induction false} ServedQuiet(q: seq<Due>, limit: nat, script: nat -> seq<Op>, n: nat, fired: seq<Due>,
                                       left: seq<Due>)
    requires Served(q, limit, script, n, fired, left) && Quiet(script)
    ensures q == fired + left
    decreases |fired|
  {
    if fired != [] {
      ServedQuiet(q[1..], limit, script, n + 1, fired[1..], left);
      assert q == [q[0]] + q[1..] && fired == [fired[0]] + fired[1..];
    }
  }

  // ----- between two calls -----

  function Delay(q: seq<Due>, d: nat): seq<Due> {
    if q == [] then [] else [q[0].(at := q[0].at + d)] + Delay(q[1..], d)
  }

  lemma {:induction false} AbsDelay(l: List, base: nat, d: nat)
    ensures Abs(l, base + d) == Delay(Abs(l, base), d)
  {
    if l != [] {
      AbsDelay(l[1..], base + l[0].time, d);
      assert Abs(l, base)[1..] == Abs(l[1..], base + l[0].time);
    }
  }

  /** Serving can go only one way. */
  lemma {:induction false} ServedUnique(q: seq<Due>, limit: nat, script: nat -> seq<Op>, n: nat,
                                        fired: seq<Due>, left: seq<Due>, fired': seq<Due>, left': seq<Due>)
    requires Served(q, limit, script, n, fired, left) && Served(q, limit, script, n, fired', left')
    ensures fired == fired' && left == left'
    decreases |fired|
  {
    if fired != [] && fired' != [] {
      ServedUnique(ApplyAbs(q[1..], script(n), q[0].at), limit, script, n + 1, fired[1..], left, fired'[1..], left');
      assert fired == [fired[0]] + fired[1..] && fired' == [fired'[0]] + fired'[1..];
    }
  }

  /** How long before `limit` the last one served was due: 0 when none was. */
  function Late(fired: seq<Due>, limit: nat): int { if fired == [] then 0 else limit - fired[|fired| - 1].at }

  lemma {:induction false} NoneFired(l: List, base: nat, diff: nat, script: nat -> seq<Op>, n: nat)
    requires forall k :: Rearms(script(k))
    ensures var r := Expire(l, base, diff, script, n); r.fired == [] ==> r.over == diff
  {
  }

  /** What is left over is the time since the last deadline served. */
  lemma {:induction false} OverLate(l: List, base: nat, diff: nat, script: nat -> seq<Op>, n: nat)
    requires forall k :: Rearms(script(k))
    ensures var r := Expire(l, base, diff, script, n); r.fired != [] ==> r.over == Late(r.fired, base + diff)
    decreases diff, DueNow(l)
  {
    if l != [] && l[0].time <= diff {
      var m, b := Apply(l[1..], script(n)), base + l[0].time;
      ApplyDueNow(l[1..], script(n));
      OverLate(m, b, diff - l[0].time, script, n + 1);
      OverOnce(l, base, diff, script, n, Expire(m, b, diff - l[0].time, script, n + 1));
    }
  }

  lemma {:induction false} OverOnce(l: List, base: nat, diff: nat, script: nat -> seq<Op>, n: nat, u: Expired)
    requires (forall k :: Rearms(script(k))) && l != [] && l[0].time <= diff
    requires u == Expire(Apply(l[1..], script(n)), base + l[0].time, diff - l[0].time, script, n + 1)
    requires u.fired != [] ==> u.over == Late(u.fired, base + diff)
    ensures var r := Expire(l, base, diff, script, n); r.over == Late(r.fired, base + diff)
  {
    var d := Due(base + l[0].time, l[0].h, l[0].arg);
    assert Expire(l, base, diff, script, n) == u.(fired := [d] + u.fired);
    if u.fired == [] {
      NoneFired(Apply(l[1..], script(n)), d.at, diff - l[0].time, script, n + 1);
    }
  }

  /** `timeouts_last_time` after a call at `now` that served `fired`. */
  function LastTime(fired: seq<Due>, last: nat, now: nat): nat { if fired == [] then last else now }

  lemma {:induction false} DelayChanges(q: seq<Due>, d: nat)
    ensures Delay(q, d) == q <==> d == 0 || q == []
  {
    if q != [] {
      assert Delay(q, d)[0].at == q[0].at + d;
      DelayChanges(q[1..], d);
    }
  }

  lemma {:induction false} LeftLate(r: Expired, left: seq<Due>, base: nat, now: nat)
    requires base <= now && r.over <= now && (r.fired == [] ==> r.over == now - base)
    requires (r.fired != [] ==> r.over == Late(r.fired, now)) && left == Abs(r.left, now - r.over)
    ensures Late(r.fired, now) >= 0 && Abs(r.left, LastTime(r.fired, base, now)) == Delay(left, Late(r.fired, now))
    ensures Abs(r.left, LastTime(r.fired, base, now)) == left
            <==> r.fired == [] || left == [] || r.fired[|r.fired| - 1].at == now
  {
    var b := LastTime(r.fired, base, now);
    AbsDelay(r.left, now - r.over, Late(r.fired, now));
    assert b == now - r.over + Late(r.fired, now);
    DelayChanges(left, Late(r.fired, now));
  }

  /** The loop serves what there is to serve, and leaves what is left. */
  lemma {:induction false} ExpiresAs(l: List, base: nat, diff: nat, script: nat -> seq<Op>, r: Expired,
                                     fired: seq<Due>, left: seq<Due>)
    requires (forall k :: Rearms(script(k))) && r == Expire(l, base, diff, script, 0)
    requires Served(Abs(l, base), base + diff, script, 0, fired, left)
    ensures r.fired == fired && left == Abs(r.left, base + diff - r.over)
  {
    ExpireRefines(l, base, diff, script, 0);
    ServedUnique(Abs(l, base), base + diff, script, 0, fired, left, r.fired, Abs(r.left, base + diff - r.over));
  }

  lemma {:induction false} LeftOver(l: List, base: nat, diff: nat, script: nat -> seq<Op>, r: Expired)
    requires (forall k :: Rearms(script(k))) && r == Expire(l, base, diff, script, 0)
    ensures r.over == if r.fired == [] then diff else Late(r.fired, base + diff)
  {
    OverLate(l, base, diff, script, 0);
    NoneFired(l, base, diff, script, 0);
  }

  /** Serving the deadlines up to `base + diff` leaves `left`, but after a call that served something the code
      counts the rest from the time of the call: every deadline left is then late by the time since the last
      one served, so they are kept if and only if nothing was served, nothing is left, or that time is 0. */
  lemma {:induction false} DriftExact(l: List, base: nat, diff: nat, script: nat -> seq<Op>, r: Expired,
                                      fired: seq<Due>, left: seq<Due>)
    requires (forall k :: Rearms(script(k))) && r == Expire(l, base, diff, script, 0)
    requires Served(Abs(l, base), base + diff, script, 0, fired, left)
    ensures r.fired == fired && left == Abs(r.left, base + diff - r.over) && Late(fired, base + diff) >= 0
    ensures Abs(r.left, LastTime(fired, base, base + diff)) == Delay(left, Late(fired, base + diff))
    ensures Abs(r.left, LastTime(fired, base, base + diff)) == left
            <==> fired == [] || left == [] || fired[|fired| - 1].at == base + diff
  {
    ExpiresAs(l, base, diff, script, r, fired, left);
    LeftOver(l, base, diff, script, r);
    LeftLate(r, left, base, base + diff);
  }

  /** At `now` nothing is due, everything is, or something is due exactly then. */
  predicate OnTime(l: List, last: nat, now: nat) {
    l == [] || last + l[0].time > now || last + Total(l) <= now || exists d :: d in Abs(l, last) && d.at == now
  }

  /** Everything is due exactly when the last entry is. */
  lemma {:induction false} AllDue(l: List, base: nat)
    requires l != []
    ensures Abs(l, base) != [] && Abs(l, base)[|Abs(l, base)| - 1].at == base + Total(l)
  {
    if l[1..] != [] {
      AllDue(l[1..], base + l[0].time);
    }
  }

  /** With handlers that leave the timers alone, a call at `base + diff` keeps the deadlines it leaves if and
      only if it is on time for the list it finds. */
  lemma {:induction false} DriftQuiet(l: List, base: nat, diff: nat, script: nat -> seq<Op>, r: Expired,
                                      fired: seq<Due>, left: seq<Due>)
    requires Quiet(script) && r == Expire(l, base, diff, script, 0)
    requires Served(Abs(l, base), base + diff, script, 0, fired, left)
    ensures Abs(r.left, LastTime(fired, base, base + diff)) == left <==> OnTime(l, base, base + diff)
  {
    DriftExact(l, base, diff, script, r, fired, left);
    ServedOnTime(l, base, base + diff, script, fired, left);
  }

  lemma {:induction false} ServedOnTime(l: List, base: nat, limit: nat, script: nat -> seq<Op>,
                                        fired: seq<Due>, left: seq<Due>)
    requires Quiet(script) && Served(Abs(l, base), limit, script, 0, fired, left)
    ensures OnTime(l, base, limit) <==> fired == [] || left == [] || fired[|fired| - 1].at == limit
  {
    ServedQuiet(Abs(l, base), limit, script, 0, fired, left);
    AbsSorted(l, base);
    ServedInOrder(Abs(l, base), limit, script, 0, fired, left, 0);
    QuietOnTime(l, base, limit, fired, left);
  }

  /** With a sorted prefix served, something is due exactly at `limit` if and only if the last one served is. */
  lemma {:induction false} DueExactly(fired: seq<Due>, left: seq<Due>, limit: nat)
    requires Sorted(fired) && fired != [] && (forall d :: d in fired ==> d.at <= limit)
             && (forall d :: d in left ==> d.at > limit)
    ensures (exists d :: d in fired + left && d.at == limit) <==> fired[|fired| - 1].at == limit
  {
    var z := fired[|fired| - 1];
    assert z in fired && z in fired + left;
    forall d | d in fired + left && d.at == limit ensures z.at == limit {
      assert d in fired;
      var k :| 0 <= k < |fired| && fired[k] == d;
    }
  }

  lemma {:induction false} QuietOnTime(l: List, base: nat, limit: nat, fired: seq<Due>, left: seq<Due>)
    requires Abs(l, base) == fired + left && |Abs(l, base)| == |l| && Sorted(fired)
    requires (forall d :: d in fired ==> d.at <= limit) && (forall d :: d in left ==> d.at > limit)
    ensures OnTime(l, base, limit) <==> fired == [] || left == [] || fired[|fired| - 1].at == limit
  {
    var q := Abs(l, base);
    if fired != [] {
      AllDue(l, base);
      DueExactly(fired, left, limit);
      assert q[0] == fired[0] && fired[0] in fired;
      if left == [] {
        assert q[|q| - 1] == fired[|fired| - 1] && fired[|fired| - 1] in fired;
      } else {
        assert q[|q| - 1] == left[|left| - 1] && left[|left| - 1] in left;
      }
    } else if l != [] {
      assert q[0] == left[0] && left[0] in left;
    }
  }

  /** An instance: timers of 1 ms and 10 ms and a call after 5 ms.  The second is then due at 14, 4 ms late. */
  lemma {:induction false} LateExample(script: nat -> seq<Op>)
    requires Quiet(script)
    ensures var l := Insert(Insert([], Timeo(1, 1, 0)), Timeo(10, 2, 0));
            var r := Expire(l, 0, 5, script, 0);
            && Abs(l, 0) == [Due(1, 1, 0), Due(10, 2, 0)] && !OnTime(l, 0, 5)
            && r.fired == [Due(1, 1, 0)] && Abs(r.left, LastTime(r.fired, 0, 5)) == [Due(14, 2, 0)]
  {
    var a, b := Timeo(1, 1, 0), Timeo(9, 2, 0);
    assert Insert([a][1..], b) == [b];
    assert Insert([a], Timeo(10, 2, 0)) == [a, b] && [a, b][1..] == [b] && [b][1..] == [];
    assert Abs([b], 1) == [Due(10, 2, 0)] && Total([b]) == 9 && Abs([b], 5) == [Due(14, 2, 0)];
    ExpireFirst(a, b, script);
  }

  lemma {:induction false} ExpireFirst(a: Timeo, b: Timeo, script: nat -> seq<Op>)
    requires Quiet(script) && a.time == 1 && b.time > 4
    ensures Expire([a, b], 0, 5, script, 0) == Expired([b], 4, [Due(1, a.h, a.arg)])
  {
    assert [a, b][1..] == [b] && Apply([b], script(0)) == [b];
    assert Expire([b], 1, 4, script, 1) == Expired([b], 4, []);
  }

  // ----- the clock at which a timer is armed -----

  lemma {:induction false} EnterAdds(q: seq<Due>, d: Due)
    ensures multiset(Enter(q, d)) == multiset(q) + multiset{d}
  {
    EnterShape(q, d);
    SplitAdds(q, d, Place(q, d));
  }

  lemma {:induction false} SplitAdds(q: seq<Due>, d: Due, i: nat)
    requires i <= |q|
    ensures multiset(q[..i] + [d] + q[i..]) == multiset(q) + multiset{d}
  {
    assert q == q[..i] + q[i..];
  }

  /** A timer armed at the clock `now` is entered `now - last` too early, since its time counts from `last`: it
      gets the deadline `now + msecs` if and only if no time has passed. */
  lemma {:induction false} EarlyExact(l: List, last: nat, now: nat, t: Timeo)
    requires last <= now
    ensures Abs(Insert(l, t), last) == Enter(Abs(l, last), Due(now + t.time - (now - last), t.h, t.arg))
    ensures Abs(Insert(l, t), last) == Enter(Abs(l, last), Due(now + t.time, t.h, t.arg)) <==> now == last
  {
    InsertRefines(l, t, last);
    var q, d, e := Abs(l, last), Due(last + t.time, t.h, t.arg), Due(now + t.time, t.h, t.arg);
    EnterAdds(q, d);
    EnterAdds(q, e);
    if d != e {
      assert (multiset(q) + multiset{d})[d] == multiset(q)[d] + 1 && (multiset(q) + multiset{e})[d] == multiset(q)[d];
    }
  }

  /** An instance: a timer of 50 ms armed at the clock 100, 100 ms after `last`, is called at the clock 100. */
  lemma {:induction false} EarlyExample(script: nat -> seq<Op>)
    requires Quiet(script)
    ensures Expire(Insert([], Timeo(50, 1, 0)), 0, 100, script, 0) == Expired([], 50, [Due(50, 1, 0)])
  {
    var a := Timeo(50, 1, 0);
    assert [a][1..] == [] && Apply([], script(0)) == [];
    assert Expire([], 50, 50, script, 1) == Expired([], 50, []);
  }

  // ----- the code -----

  /** One round of the loop of `sys_timeout`: the walk goes past the entry in front. */
  lemma {:induction false} InsertStep(pre: List, l: List, u: Timeo, whole: List)
    requires l != [] && l[0].time <= u.time && whole == pre + Insert(l, u)
    ensures whole == (pre + [l[0]]) + Insert(l[1..], u.(time := u.time - l[0].time))
  {
    Regroup(pre, l[0], Insert(l[1..], u.(time := u.time - l[0].time)));
  }

  lemma {:induction false} Regroup(pre: List, x: Timeo, rest: List)
    ensures pre + ([x] + rest) == (pre + [x]) + rest
  {
  }

  lemma {:induction false} RemoveStep(pre: List, l: List, h: nat, arg: nat, whole: List)
    requires l != [] && !Matches(l[0], h, arg) && whole == pre + Remove(l, h, arg)
    ensures whole == (pre + [l[0]]) + Remove(l[1..], h, arg)
  {
    Regroup(pre, l[0], Remove(l[1..], h, arg));
  }

  /** The handlers in `fired` have been called, at the deadlines in `done`, and going on from here ends as `r`
      says. */
  ghost predicate ExpiresTo(l: List, base: nat, diff: nat, script: nat -> seq<Op>, done: seq<Due>,
                            fired: seq<(nat, nat)>, r: Expired)
    requires forall k :: Rearms(script(k))
  {
    var e := Expire(l, base, diff, script, |done|);
    && r.left == e.left && r.fired == done + e.fired
    && |fired| == |done| && forall k :: 0 <= k < |fired| ==> fired[k] == (done[k].h, done[k].arg)
  }

  lemma {:induction false} ExpireStep(l: List, base: nat, diff: nat, script: nat -> seq<Op>, done: seq<Due>,
                                      fired: seq<(nat, nat)>, r: Expired)
    requires forall k :: Rearms(script(k))
    requires ExpiresTo(l, base, diff, script, done, fired, r) && l != [] && l[0].time <= diff
    ensures ExpiresTo(Apply(l[1..], script(|fired|)), base + l[0].time, diff - l[0].time, script,
                      done + [Due(base + l[0].time, l[0].h, l[0].arg)], fired + [(l[0].h, l[0].arg)], r)
    ensures l[0].time == 0 ==> DueNow(Apply(l[1..], script(|fired|))) < DueNow(l)
  {
    ApplyDueNow(l[1..], script(|done|));
    var d, m := Due(base + l[0].time, l[0].h, l[0].arg), Apply(l[1..], script(|done|));
    var e := Expire(m, base + l[0].time, diff - l[0].time, script, |done| + 1);
    assert Expire(l, base, diff, script, |done|) == e.(fired := [d] + e.fired);
    assert done + ([d] + e.fired) == (done + [d]) + e.fired;
  }

  lemma {:induction false} ExpireEnd(l: List, base: nat, diff: nat, script: nat -> seq<Op>, done: seq<Due>,
                                     fired: seq<(nat, nat)>, r: Expired)
    requires forall k :: Rearms(script(k))
    requires ExpiresTo(l, base, diff, script, done, fired, r) && (l == [] || l[0].time > diff)
    ensures l == r.left && done == r.fired
  {
  }

  /** What the call that ends as `r` means for the deadlines: it serves them, and those left are late by the
      time since the last one served.  Handlers that leave the timers alone keep them if and only if the call
      is on time. */
  ghost predicate Checked(l: List, last: nat, now: nat, script: nat -> seq<Op>, r: Expired)
    requires r.over <= now
  {
    var left := Abs(r.left, now - r.over);
    && Served(Abs(l, last), now, script, 0, r.fired, left) && Late(r.fired, now) >= 0
    && Abs(r.left, LastTime(r.fired, last, now)) == Delay(left, Late(r.fired, now))
    && (Quiet(script) ==> (Abs(r.left, LastTime(r.fired, last, now)) == left <==> OnTime(l, last, now)))
  }

  lemma {:induction false} CheckedExpire(l: List, last: nat, now: nat, script: nat -> seq<Op>, r: Expired)
    requires last <= now && (forall k :: Rearms(script(k))) && r == Expire(l, last, now - last, script, 0)
    ensures Checked(l, last, now, script, r)
  {
    ExpireRefines(l, last, now - last, script, 0);
    CheckedServed(l, last, now - last, script, r, Abs(r.left, now - r.over));
  }

  lemma {:induction false} CheckedServed(l: List, last: nat, diff: nat, script: nat -> seq<Op>, r: Expired,
                                         left: seq<Due>)
    requires (forall k :: Rearms(script(k))) && r == Expire(l, last, diff, script, 0)
    requires left == Abs(r.left, last + diff - r.over) && Served(Abs(l, last), last + diff, script, 0, r.fired, left)
    ensures Checked(l, last, last + diff, script, r)
  {
    DriftExact(l, last, diff, script, r, r.fired, left);
    if Quiet(script) {
      DriftQuiet(l, last, diff, script, r, r.fired, left);
    }
  }

  /** The head of the list and `timeouts_last_time`, which the times count from. */
  class SysTimers {
    var timeouts: List
    var last: nat

    /** No time can overflow 32 bits, whatever is added up. */
    ghost predicate Valid()
      reads this
    {
      Total(timeouts) < 0x1_0000_0000
    }

    constructor (now: nat)
      ensures Valid() && timeouts == [] && last == now
    {
      timeouts, last := [], now;
    }

    /** `sys_timeout` called at the clock `now`, which it does not read; without memory for the entry nothing
        happens. */
    method SysTimeout(msecs: nat, h: nat, arg: nat, memory: bool, ghost now: nat)
      requires Valid() && msecs < 0x1_0000_0000 && last <= now
      modifies this`timeouts
      ensures Valid()
      ensures timeouts == if memory then Insert(old(timeouts), Timeo(msecs, h, arg)) else old(timeouts)
      ensures memory ==> Abs(timeouts, last) == Enter(Abs(old(timeouts), last), Due(last + msecs, h, arg))
      ensures memory ==>
        (Abs(timeouts, last) == Enter(Abs(old(timeouts), last), Due(now + msecs, h, arg)) <==> now == last)
    {
      if !memory {
        return;
      }
      var timeout := Timeo(msecs, h, arg);
      InsertRefines(timeouts, timeout, 0);
      EarlyExact(timeouts, last, now, timeout);
      timeouts := InsertTimeout(timeouts, timeout);
    }

    /** `sys_untimeout`. */
    method SysUntimeout(h: nat, arg: nat)
      requires Valid()
      modifies this`timeouts
      ensures Valid() && timeouts == Remove(old(timeouts), h, arg)
      ensures Abs(timeouts, last) == Cancel(Abs(old(timeouts), last), h, arg)
    {
      RemoveRefines(timeouts, h, arg, last);
      timeouts := Unlink(timeouts, h, arg);
    }

    /** What a handler does when it is called. */
    method CallHandler(ops: seq<Op>)
      requires Valid() && forall o :: o in ops && o.Arm? ==> o.msecs < 0x1_0000_0000
      modifies this`timeouts
      ensures Valid() && timeouts == Apply(old(timeouts), ops)
    {
      ghost var end := Apply(timeouts, ops);
      var i := 0;
      assert ops[0..] == ops;
      while i < |ops|
        invariant 0 <= i <= |ops| && Valid() && Apply(timeouts, ops[i..]) == end
      {
        assert ops[i] in ops && ops[i..][1..] == ops[i + 1..];
        if ops[i].Arm? {
          SysTimeout(ops[i].msecs, ops[i].h, ops[i].arg, true, last);
        } else {
          SysUntimeout(ops[i].h, ops[i].arg);
        }
        i := i + 1;
      }
    }

    /** `sys_check_timeouts` at the clock `now`. */
    method SysCheckTimeouts(now: nat, script: nat -> seq<Op>) returns (fired: seq<(nat, nat)>)
      requires Valid() && last <= now
      requires forall k :: Rearms(script(k))
      requires forall k, o :: o in script(k) && o.Arm? ==> o.msecs < 0x1_0000_0000
      modifies this
      ensures Valid()
      ensures var r := Expire(old(timeouts), old(last), now - old(last), script, 0);
              && timeouts == r.left && |fired| == |r.fired|
              && (forall k :: 0 <= k < |fired| ==> fired[k] == (r.fired[k].h, r.fired[k].arg))
              && last == LastTime(r.fired, old(last), now)
      ensures Checked(old(timeouts), old(last), now, script,
              Expire(old(timeouts), old(last), now - old(last), script, 0))
    {
      ghost var done: seq<Due>;
      CheckedExpire(timeouts, last, now, script, Expire(timeouts, last, now - last, script, 0));
      fired, done := ServeDue(now, script);
    }

    /** Its loop. */
    method ServeDue(now: nat, script: nat -> seq<Op>) returns (fired: seq<(nat, nat)>, ghost done: seq<Due>)
      requires Valid() && last <= now
      requires forall k :: Rearms(script(k))
      requires forall k, o :: o in script(k) && o.Arm? ==> o.msecs < 0x1_0000_0000
      modifies this
      ensures Valid() && last == LastTime(done, old(last), now)
      ensures var r := Expire(old(timeouts), old(last), now - old(last), script, 0);
              && timeouts == r.left && done == r.fired && |fired| == |done|
              && (forall k :: 0 <= k < |fired| ==> fired[k] == (done[k].h, done[k].arg))
    {
      var diff: nat := now - last;
      ghost var r := Expire(timeouts, last, diff, script, 0);
      ghost var base: nat := last;
      done, fired := [], [];
      while timeouts != [] && timeouts[0].time <= diff
        invariant Valid() && ExpiresTo(timeouts, base, diff, script, done, fired, r)
        invariant last == LastTime(done, old(last), now)
        decreases diff, DueNow(timeouts)
      {
        diff, fired, base, done := ServeFirst(now, diff, script, fired, base, done, r);
      }
      ExpireEnd(timeouts, base, diff, script, done, fired, r);
    }

    /** One round of it. */
    method ServeFirst(now: nat, diff: nat, script: nat -> seq<Op>, fired: seq<(nat, nat)>,
                      ghost base: nat, ghost done: seq<Due>, ghost r: Expired)
      returns (diff': nat, fired': seq<(nat, nat)>, ghost base': nat, ghost done': seq<Due>)
      requires Valid() && (forall k :: Rearms(script(k))) && ExpiresTo(timeouts, base, diff, script, done, fired, r)
      requires timeouts != [] && timeouts[0].time <= diff
      requires forall k, o :: o in script(k) && o.Arm? ==> o.msecs < 0x1_0000_0000
      modifies this
      ensures Valid() && last == now && done' != [] && ExpiresTo(timeouts, base', diff', script, done', fired', r)
      ensures diff' < diff || (diff' == diff && DueNow(timeouts) < DueNow(old(timeouts)))
    {
      ExpireStep(timeouts, base, diff, script, done, fired, r);
      var t := FireFirst(now, script(|fired|));
      diff', base' := diff - t.time, base + t.time;
      done' := done + [Due(base', t.h, t.arg)];
      fired' := fired + [(t.h, t.arg)];
    }

    /** The first entry is taken off and its handler called. */
    method FireFirst(now: nat, ops: seq<Op>) returns (t: Timeo)
      requires Valid() && timeouts != [] && forall o :: o in ops && o.Arm? ==> o.msecs < 0x1_0000_0000
      modifies this
      ensures Valid() && last == now && t == old(timeouts)[0] && timeouts == Apply(old(timeouts)[1..], ops)
    {
      t := timeouts[0];
      last := now;
      timeouts := timeouts[1..];
      CallHandler(ops);
    }
  }

  /** The entry goes in front of the head, or behind it. */
  method InsertTimeout(l: List, t: Timeo) returns (r: List)
    ensures r == Insert(l, t)
  {
    if l == [] {
      r := [t];
    } else if l[0].time > t.time {
      r := [t, l[0].(time := l[0].time - t.time)] + l[1..];
    } else {
      r := InsertBehind(l, t);
    }
  }

  /** The loop of `sys_timeout` behind a head that is not later. */
  method InsertBehind(l: List, t: Timeo) returns (r: List)
    requires l != [] && l[0].time <= t.time
    ensures r == Insert(l, t)
  {
    var pre, rest, u := [], l, t;
    ghost var whole := Insert(l, t);
    assert whole == pre + Insert(rest, u);
    while true
      invariant rest != [] && rest[0].time <= u.time && whole == pre + Insert(rest, u)
      decreases |rest|
    {
      InsertStep(pre, rest, u, whole);
      u := u.(time := u.time - rest[0].time);
      pre, rest := pre + [rest[0]], rest[1..];
      if rest == [] || rest[0].time > u.time {
        InsertEnd(rest, u);
        return pre + ([u] + Sooner(rest, u.time));
      }
    }
  }

  /** The next entry waits less. */
  function Sooner(l: List, t: nat): List
    requires l != [] ==> l[0].time >= t
  {
    if l == [] then [] else [l[0].(time := l[0].time - t)] + l[1..]
  }

  lemma {:induction false} InsertEnd(l: List, u: Timeo)
    requires l == [] || l[0].time > u.time
    ensures Insert(l, u) == [u] + Sooner(l, u.time)
  {
  }

  lemma {:induction false} UnlinkFirst(l: List, h: nat, arg: nat)
    requires l != [] && Matches(l[0], h, arg)
    ensures Remove(l, h, arg) == Later(l[1..], l[0].time)
  {
  }

  /** The loop of `sys_untimeout`. */
  method Unlink(l: List, h: nat, arg: nat) returns (r: List)
    ensures r == Remove(l, h, arg)
  {
    var pre, rest := [], l;
    while rest != []
      invariant Remove(l, h, arg) == pre + Remove(rest, h, arg) && l == pre + rest
      decreases |rest|
    {
      var t := rest[0];
      if Matches(t, h, arg) {
        UnlinkFirst(rest, h, arg);
        rest := rest[1..];
        if rest != [] {
          rest := [rest[0].(time := rest[0].time + t.time)] + rest[1..];
        }
        return pre + rest;
      }
      RemoveStep(pre, rest, h, arg, Remove(l, h, arg));
      pre, rest := pre + [t], rest[1..];
    }
    r := l;
  }
}
