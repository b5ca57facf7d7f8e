/**
 The request and completion machine of TCP netconns (api_msg.c, without
 LWIP_TCPIP_CORE_LOCKING): API messages that finish at once or stay pending as `current_msg` until
 a TCP callback completes them.
 */
module Netconn {

  datatype St = NONE | WRITE | LISTEN | CONNECT | CLOSE

  datatype Cur = NoMsg | Msg(id: nat)

  /** A `struct netconn`: `nbConnect` is IN_NONBLOCKING_CONNECT, `pcb` that there is a pcb; `offset`, `len` and
      `closing` belong to the message that is being worked on.  `issued` are all messages ever received, `acked`
      the acknowledgements in order, `queued` the bytes that `tcp_write` took for the current write, and
      `reported` the lengths that completed writes returned. */
  datatype Conn = Conn(st: St, cur: Cur, nbConnect: bool, pcb: bool, offset: nat, len: nat, closing: bool,
                       issued: set<nat>, acked: seq<nat>, queued: nat, reported: map<nat, nat>)

  function Ack(c: Conn, id: nat): Conn { c.(acked := c.acked + [id]) }

  /** The current message is finished: it is acknowledged and the connection is free again. */
  function Complete(c: Conn): Conn {
    if c.cur.Msg? then Ack(c.(cur := NoMsg, st := NONE), c.cur.id) else c.(st := NONE)
  }

  // ----- writing -----

  /** What `tcp_write` answers. */
  datatype Wrote = OK | MEM | Other

  function Min(a: nat, b: nat): nat { if a < b then a else b }

  /** The bytes of the message not yet taken by TCP. */
  function Rest(c: Conn): nat { if c.offset < c.len then c.len - c.offset else 0 }

  /** The bytes offered to `tcp_write`. */
  function Chunk(c: Conn, avail: nat): nat { Min(Min(Rest(c), 0xffff), avail) }

  function Report(c: Conn, n: nat): Conn {
    if c.cur.Msg? then c.(reported := c.reported[c.cur.id := n]) else c
  }

  /** `do_writemore`: `timeout` that the send timeout has passed, `avail` is the free send buffer, `dontblock` that the
      caller must not wait. */
  function WriteMore(c: Conn, timeout: bool, avail: nat, dontblock: bool, w: Wrote): Conn {
    var n := Chunk(c, avail);
    if timeout then Complete(Report(c, c.offset))
    else if avail < Min(Rest(c), 0xffff) && dontblock && n == 0 then Complete(Report(c, 0))
    else if w.OK? then
      var d := c.(offset := c.offset + n, queued := c.queued + n);
      if d.offset == d.len || dontblock then Complete(Report(d, d.offset)).(offset := 0) else d
    else if w.MEM? && !dontblock then c
    else Complete(Report(c, 0))
  }

  /** `do_write`. */
  function Write(c: Conn, id: nat, len: nat, fatal: bool, timeout: bool, avail: nat, dontblock: bool, w: Wrote): Conn {
    var d := c.(issued := c.issued + {id});
    if fatal || c.st != NONE || !c.pcb then Ack(d, id)
    else WriteMore(d.(st := WRITE, cur := Msg(id), offset := 0, len := len, queued := 0), timeout, avail, dontblock, w)
  }

  // ----- closing -----

  /** `do_close_internal`: `ok` is the answer of `tcp_close` or `tcp_shutdown`. */
  function CloseInternal(c: Conn, ok: bool): Conn {
    if !ok then c else Complete(if c.closing then c.(pcb := false) else c)
  }

  /** `do_close`; `both` says that both directions are shut down. */
  function Close(c: Conn, id: nat, both: bool, ok: bool): Conn {
    var d := c.(issued := c.issued + {id});
    if (c.st != NONE && c.st != LISTEN) || !c.pcb || (!both && c.st == LISTEN) then Ack(d, id)
    else CloseInternal(d.(st := CLOSE, cur := Msg(id), closing := both), ok)
  }

  /** `do_delconn`. */
  function Delete(c: Conn, id: nat, ok: bool): Conn {
    var d := c.(issued := c.issued + {id});
    if c.st == WRITE || c.st == CLOSE || !c.pcb then Ack(d, id)
    else CloseInternal(d.(st := CLOSE, cur := Msg(id), closing := true), ok)
  }

  // ----- connecting -----

  /** `do_connect`; `ok` is the answer of `tcp_connect`. */
  function Connect(c: Conn, id: nat, nonblocking: bool, ok: bool): Conn {
    var d := c.(issued := c.issued + {id});
    if !c.pcb || c.st != NONE || !ok then Ack(d, id)
    else if nonblocking then Ack(d.(st := CONNECT, nbConnect := true), id)
    else d.(st := CONNECT, nbConnect := false, cur := Msg(id))
  }

  /** `do_connected`. */
  function Connected(c: Conn): Conn { Complete(c).(nbConnect := false) }

  /** `do_listen`; `ok` says that the listening pcb could be made. */
  function Listen(c: Conn, id: nat, ok: bool): Conn {
    var d := c.(issued := c.issued + {id});
    Ack(if c.pcb && c.st == NONE && ok then d.(st := LISTEN) else d, id)
  }

  // ----- TCP callbacks -----

  /** `sent_tcp` and `poll_tcp`. */
  function Progress(c: Conn, timeout: bool, avail: nat, dontblock: bool, w: Wrote, closed: bool): Conn {
    if c.st == WRITE then WriteMore(c, timeout, avail, dontblock, w)
    else if c.st == CLOSE then CloseInternal(c, closed)
    else c
  }

  /** `err_tcp`. */
  function Error(c: Conn): Conn {
    var d := c.(pcb := false, st := NONE);
    if c.st == WRITE || c.st == CLOSE || c.st == CONNECT then
      if c.nbConnect then d.(nbConnect := false) else Complete(d)
    else d
  }

  // ----- runs -----

  datatype Event =
    | WriteMsg(id: nat, n: nat, fatal: bool, timeout: bool, avail: nat, dontblock: bool, w: Wrote)
    | CloseMsg(id: nat, both: bool, ok: bool)
    | DeleteMsg(id: nat, ok: bool)
    | ConnectMsg(id: nat, nonblocking: bool, ok: bool)
    | ListenMsg(id: nat, ok: bool)
    | ConnectedCb
    | ProgressCb(timeout: bool, avail: nat, dontblock: bool, w: Wrote, closed: bool)
    | ErrorCb

  /** Messages are new and writes not empty; callbacks come only while there is a pcb, and `do_connected` only in a
      connect; nobody deletes a connection under a blocking connect (the code asserts this), and a pcb that is still
      connecting closes at once. */
  predicate Enabled(c: Conn, v: Event) {
    match v
    case WriteMsg(id, n, fatal, timeout, avail, dontblock, w) => id !in c.issued && n > 0
    case CloseMsg(id, both, ok) => id !in c.issued
    case DeleteMsg(id, ok) => id !in c.issued && (c.st == CONNECT ==> c.nbConnect && ok)
    case ConnectMsg(id, nonblocking, ok) => id !in c.issued
    case ListenMsg(id, ok) => id !in c.issued
    case ConnectedCb => c.st == CONNECT
    case ProgressCb(timeout, avail, dontblock, w, closed) => c.pcb
    case ErrorCb => c.pcb
  }

  function Next(c: Conn, v: Event): Conn
    requires Enabled(c, v)
  {
    match v
    case WriteMsg(id, n, fatal, timeout, avail, dontblock, w) => Write(c, id, n, fatal, timeout, avail, dontblock, w)
    case CloseMsg(id, both, ok) => Close(c, id, both, ok)
    case DeleteMsg(id, ok) => Delete(c, id, ok)
    case ConnectMsg(id, nonblocking, ok) => Connect(c, id, nonblocking, ok)
    case ListenMsg(id, ok) => Listen(c, id, ok)
    case ConnectedCb => Connected(c)
    case ProgressCb(timeout, avail, dontblock, w, closed) => Progress(c, timeout, avail, dontblock, w, closed)
    case ErrorCb => Error(c)
  }

  // ----- the invariant -----

  function Times(q: seq<nat>, x: nat): nat { multiset(q)[x] }

  /** `current_msg` is set exactly in a write, a close, or a connect that blocks. */
  predicate CurOk(c: Conn) {
    c.cur.Msg? <==> c.st == WRITE || c.st == CLOSE || (c.st == CONNECT && !c.nbConnect)
  }

  /** Every message received has been acknowledged once, except the current one, which has not. */
  ghost predicate AckOk(c: Conn) {
    && (c.cur.Msg? ==> c.cur.id in c.issued)
    && forall x :: Times(c.acked, x) == if x in c.issued && c.cur != Msg(x) then 1 else 0
  }

  /** A write in progress has bytes left, and those before the offset are exactly those that TCP took. */
  predicate WriteOk(c: Conn) { c.st == WRITE ==> c.offset < c.len && c.queued == c.offset }

  ghost predicate Inv(c: Conn) {
    && CurOk(c) && AckOk(c) && WriteOk(c)
    && (c.st == WRITE || c.st == CLOSE || c.st == CONNECT ==> c.pcb)
    && (c.nbConnect && c.pcb ==> c.st == CONNECT)
  }

  const Fresh: Conn := Conn(NONE, NoMsg, false, true, 0, 0, false, {}, [], 0, map[])

  lemma AckStep(q: seq<nat>, id: nat, x: nat)
    ensures Times(q + [id], x) == Times(q, x) + if x == id then 1 else 0
  {
    assert multiset(q + [id]) == multiset(q) + multiset{id};
  }

  /** A new message that is answered at once. */
  lemma AtOnce(c: Conn, id: nat)
    requires AckOk(c) && id !in c.issued
    ensures AckOk(Ack(c.(issued := c.issued + {id}), id))
  {
    forall x ensures Times(c.acked + [id], x) == if x in c.issued + {id} && c.cur != Msg(x) then 1 else 0 {
      AckStep(c.acked, id, x);
    }
  }

  /** A new message that becomes the current one. */
  lemma Taken(c: Conn, d: Conn, id: nat)
    requires AckOk(c) && c.cur.NoMsg? && id !in c.issued
    requires d.issued == c.issued + {id} && d.cur == Msg(id) && d.acked == c.acked
    ensures AckOk(d)
  {
  }

  lemma Completes(c: Conn)
    requires AckOk(c)
    ensures AckOk(Complete(c)) && Complete(c).cur.NoMsg? && Complete(c).st == NONE
  {
    if c.cur.Msg? {
      forall x ensures Times(c.acked + [c.cur.id], x) == if x in c.issued then 1 else 0 {
        AckStep(c.acked, c.cur.id, x);
      }
    }
  }

  lemma WriteMoreInv(c: Conn, timeout: bool, avail: nat, dontblock: bool, w: Wrote)
    requires Inv(c) && c.st == WRITE
    ensures Inv(WriteMore(c, timeout, avail, dontblock, w))
  {
    var n := Chunk(c, avail);
    var d := c.(offset := c.offset + n, queued := c.queued + n);
    Completes(Report(c, c.offset));
    Completes(Report(c, 0));
    Completes(Report(d, d.offset));
  }

  lemma CloseInternalInv(c: Conn, ok: bool)
    requires Inv(c) && c.st == CLOSE
    ensures Inv(CloseInternal(c, ok))
  {
    Completes(if c.closing then c.(pcb := false) else c);
  }

  /** Every message and every callback keeps the invariant. */
  lemma NextInv(c: Conn, v: Event)
    requires Inv(c) && Enabled(c, v)
    ensures Inv(Next(c, v))
  {
    match v
    case WriteMsg(id, n, fatal, timeout, avail, dontblock, w) => WriteInv(c, v);
    case CloseMsg(id, both, ok) => CloseInv(c, v);
    case DeleteMsg(id, ok) => DeleteInv(c, v);
    case ConnectMsg(id, nonblocking, ok) => ConnectInv(c, v);
    case ListenMsg(id, ok) => AtOnce(c, id);
    case ConnectedCb => Completes(c);
    case ProgressCb(timeout, avail, dontblock, w, closed) => ProgressInv(c, v);
    case ErrorCb => Completes(c.(pcb := false, st := NONE));
  }

  lemma WriteInv(c: Conn, v: Event)
    requires Inv(c) && Enabled(c, v) && v.WriteMsg?
    ensures Inv(Next(c, v))
  {
    AtOnce(c, v.id);
    if !(v.fatal || c.st != NONE || !c.pcb) {
      var d := c.(issued := c.issued + {v.id}, st := WRITE, cur := Msg(v.id), offset := 0, len := v.n, queued := 0);
      Taken(c, d, v.id);
      WriteMoreInv(d, v.timeout, v.avail, v.dontblock, v.w);
    }
  }

  lemma CloseInv(c: Conn, v: Event)
    requires Inv(c) && Enabled(c, v) && v.CloseMsg?
    ensures Inv(Next(c, v))
  {
    AtOnce(c, v.id);
    if !((c.st != NONE && c.st != LISTEN) || !c.pcb || (!v.both && c.st == LISTEN)) {
      var d := c.(issued := c.issued + {v.id}, st := CLOSE, cur := Msg(v.id), closing := v.both);
      Taken(c, d, v.id);
      CloseInternalInv(d, v.ok);
    }
  }

  lemma DeleteInv(c: Conn, v: Event)
    requires Inv(c) && Enabled(c, v) && v.DeleteMsg?
    ensures Inv(Next(c, v))
  {
    AtOnce(c, v.id);
    if !(c.st == WRITE || c.st == CLOSE || !c.pcb) {
      var d := c.(issued := c.issued + {v.id}, st := CLOSE, cur := Msg(v.id), closing := true);
      Taken(c, d, v.id);
      Completes(d.(pcb := false));
      if c.st != CONNECT {
        CloseInternalInv(d, v.ok);
      }
    }
  }

  lemma ConnectInv(c: Conn, v: Event)
    requires Inv(c) && Enabled(c, v) && v.ConnectMsg?
    ensures Inv(Next(c, v))
  {
    AtOnce(c, v.id);
    var d := c.(issued := c.issued + {v.id}, st := CONNECT, nbConnect := false, cur := Msg(v.id));
    if c.cur.NoMsg? {
      Taken(c, d, v.id);
    }
  }

  lemma ProgressInv(c: Conn, v: Event)
    requires Inv(c) && Enabled(c, v) && v.ProgressCb?
    ensures Inv(Next(c, v))
  {
    if c.st == WRITE {
      WriteMoreInv(c, v.timeout, v.avail, v.dontblock, v.w);
    } else if c.st == CLOSE {
      CloseInternalInv(c, v.closed);
    }
  }

  predicate Run(c: Conn, vs: seq<Event>, d: Conn)
    decreases |vs|
  {
    if vs == [] then d == c else Enabled(c, vs[0]) && Run(Next(c, vs[0]), vs[1..], d)
  }

  lemma {:induction false} RunInv(c: Conn, vs: seq<Event>, d: Conn)
    requires Inv(c) && Run(c, vs, d)
    ensures Inv(d)
    decreases |vs|
  {
    if vs != [] {
      NextInv(c, vs[0]);
      RunInv(Next(c, vs[0]), vs[1..], d);
    }
  }

  /** In every interleaving of messages and callbacks, each message is acknowledged at most once, and is unacknowledged
      exactly while it is the current one; there is a current one exactly in a write, a close, or a blocking
      connect. */
  lemma EachOnce(vs: seq<Event>, d: Conn, x: nat)
    requires Run(Fresh, vs, d)
    ensures Times(d.acked, x) <= 1
    ensures x in d.issued ==> (Times(d.acked, x) == 0 <==> d.cur == Msg(x))
    ensures d.cur.Msg? <==> d.st == WRITE || d.st == CLOSE || (d.st == CONNECT && !d.nbConnect)
  {
    assert Times([], x) == 0;
    RunInv(Fresh, vs, d);
  }

  // ----- when a close, a write or a connect ends -----

  /** The close or deletion goes to TCP instead of being refused. */
  predicate TakenUp(c: Conn, v: Event) {
    && c.pcb
    && match v
       case CloseMsg(id, both, ok) => c.st == NONE || (c.st == LISTEN && both)
       case DeleteMsg(id, ok) => c.st == NONE || c.st == LISTEN || c.st == CONNECT
       case _ => false
  }

  /** It shuts both directions. */
  predicate ShutsBoth(v: Event) { v.DeleteMsg? || (v.CloseMsg? && v.both) }

  /** What ends a close that is under way: TCP takes it at last, or the connection breaks. */
  predicate EndsClose(v: Event) { v.ErrorCb? || (v.ProgressCb? && v.closed) }

  /** Message `id` is acknowledged, no other one is, and the connection is idle; the pcb is left as `pcb` says. */
  predicate Ends(c: Conn, d: Conn, id: nat, pcb: bool) {
    d.acked == c.acked + [id] && d.cur.NoMsg? && d.st == NONE && d.pcb == pcb
  }

  /** Message `id` has been received and acknowledged, and nothing else changed. */
  predicate Answered(c: Conn, d: Conn, id: nat) {
    d == c.(issued := c.issued + {id}, acked := c.acked + [id])
  }

  /** A new close or deletion that is taken up ends at once exactly if TCP's answer is OK, and takes the pcb with it
      exactly if it shuts both directions; otherwise it stays the current message.  One that is not taken up is
      answered and changes nothing. */
  lemma CloseBegins(c: Conn, v: Event)
    requires Inv(c) && Enabled(c, v) && (v.CloseMsg? || v.DeleteMsg?)
    ensures var d, ok := Next(c, v), v.ok;
            if !TakenUp(c, v) then Answered(c, d, v.id)
            else if ok then Ends(c, d, v.id, !ShutsBoth(v))
            else d == c.(issued := c.issued + {v.id}, st := CLOSE, cur := Msg(v.id), closing := ShutsBoth(v))
  {
  }

  /** While it is under way: only TCP's answer OK or an error ends it.  Any other step leaves message, state and pcb
      alone, and what else is acknowledged then is a message that was refused. */
  lemma CloseUnderWay(c: Conn, v: Event)
    requires Inv(c) && Enabled(c, v) && c.st == CLOSE
    ensures var d := Next(c, v);
            if EndsClose(v) then Ends(c, d, c.cur.id, v.ProgressCb? && !c.closing)
            else d == c.(issued := d.issued, acked := d.acked)
                 && d.acked == c.acked + if v.ProgressCb? || v.ConnectedCb? then [] else [v.id]
  {
  }

  lemma {:induction false} WaitsOn(c: Conn, vs: seq<Event>, d: Conn)
    requires Inv(c) && c.st == CLOSE && Run(c, vs, d) && forall j :: 0 <= j < |vs| ==> !EndsClose(vs[j])
    ensures Inv(d) && d == c.(issued := d.issued, acked := d.acked)
    decreases |vs|
  {
    if vs != [] {
      NextInv(c, vs[0]);
      CloseUnderWay(c, vs[0]);
      WaitsOn(Next(c, vs[0]), vs[1..], d);
    }
  }

  /** In every run: a close or deletion that TCP could not take at once stays the current message, unacknowledged, and
      the pcb stays, until an event says that TCP has taken it or the connection broke; that event acknowledges it, and
      the pcb is gone afterwards exactly if both directions were to be shut, or after an error. */
  lemma CloseAnswered(vs: seq<Event>, c: Conn, v: Event, ws: seq<Event>, d: Conn, w: Event)
    requires Run(Fresh, vs, c) && Enabled(c, v) && TakenUp(c, v) && !v.ok && Run(Next(c, v), ws, d) && Enabled(d, w)
    requires forall j :: 0 <= j < |ws| ==> !EndsClose(ws[j])
    ensures d.st == CLOSE && d.cur == Msg(v.id) && d.pcb && Times(d.acked, v.id) == 0
    ensures if EndsClose(w) then Ends(d, Next(d, w), v.id, w.ProgressCb? && !ShutsBoth(v))
            else Next(d, w).st == CLOSE && Next(d, w).cur == Msg(v.id) && Next(d, w).pcb
                 && Times(Next(d, w).acked, v.id) == 0
  {
    assert forall x :: Times([], x) == 0;
    RunInv(Fresh, vs, c);
    CloseBegins(c, v);
    NextInv(c, v);
    WaitsOn(Next(c, v), ws, d);
    CloseUnderWay(d, w);
    NextInv(d, w);
  }

  /** The pcb goes in exactly these steps: a close of both directions or a deletion that TCP takes, at once or later,
      and an error.  It never comes back. */
  lemma PcbGoes(c: Conn, v: Event)
    requires Inv(c) && Enabled(c, v)
    ensures Next(c, v).pcb <==>
            c.pcb && !(|| v.ErrorCb?
                       || (TakenUp(c, v) && v.ok && ShutsBoth(v))
                       || (c.st == CLOSE && v.ProgressCb? && v.closed && c.closing))
  {
    if v.CloseMsg? || v.DeleteMsg? {
      CloseBegins(c, v);
    } else if c.st == CLOSE {
      CloseUnderWay(c, v);
    }
  }

  /** A round of a write: how much TCP takes, and when the write goes on.  It does exactly if its time is not over, it
      may wait, and TCP had no memory or took less than what was left. */
  lemma WriteEnds(c: Conn, timeout: bool, avail: nat, dontblock: bool, w: Wrote)
    requires Inv(c) && c.st == WRITE
    ensures var d := WriteMore(c, timeout, avail, dontblock, w);
            var rest := c.len - c.offset;
            var n := Min(rest, Min(0xffff, avail));
            && (d.queued - c.queued == if !timeout && w.OK? && (avail > 0 || !dontblock) then n else 0)
            && d.pcb == c.pcb
            && (d.st == WRITE <==> !timeout && !dontblock && (w.MEM? || (w.OK? && n < rest)))
            && (d.st == WRITE ==> d == c.(offset := d.offset, queued := d.queued))
            && (d.st != WRITE ==> Ends(c, d, c.cur.id, c.pcb))
  {
  }

  /** A new write is refused, or it begins with no byte taken. */
  lemma WriteBegins(c: Conn, v: Event)
    requires Inv(c) && Enabled(c, v) && v.WriteMsg?
    ensures Next(c, v) ==
            if v.fatal || c.st != NONE || !c.pcb
            then c.(issued := c.issued + {v.id}, acked := c.acked + [v.id])
            else Next(c.(issued := c.issued + {v.id}, st := WRITE, cur := Msg(v.id), offset := 0, len := v.n,
                         queued := 0),
                      ProgressCb(v.timeout, v.avail, v.dontblock, v.w, false))
  {
  }

  /** A connect is acknowledged at once if it is refused or need not block, and otherwise when the connection stands or
      breaks; either way the connection is then idle. */
  lemma ConnectEnds(c: Conn, v: Event)
    requires Inv(c) && Enabled(c, v) && (v.ConnectMsg? || c.st == CONNECT)
    ensures var d := Next(c, v);
            match v
            case ConnectMsg(id, nonblocking, ok) =>
              if !c.pcb || c.st != NONE || !ok then Answered(c, d, id)
              else d.st == CONNECT && d.pcb && d.nbConnect == nonblocking
                   && (if nonblocking then d.acked == c.acked + [id] && d.cur.NoMsg?
                       else d.acked == c.acked && d.cur == Msg(id))
            case ConnectedCb =>
              d.st == NONE && d.cur.NoMsg? && d.pcb && !d.nbConnect
              && d.acked == c.acked + if c.nbConnect then [] else [c.cur.id]
            case ErrorCb =>
              d.st == NONE && d.cur.NoMsg? && !d.pcb && !d.nbConnect
              && d.acked == c.acked + if c.nbConnect then [] else [c.cur.id]
            case _ => true
  {
    assert c.acked + [] == c.acked;
  }

  /** An error in a write or a close acknowledges it, one in an idle connection nothing. */
  lemma ErrorEnds(c: Conn)
    requires Inv(c) && c.pcb && c.st != CONNECT
    ensures var d := Next(c, ErrorCb);
            d.st == NONE && d.cur.NoMsg? && !d.pcb
            && d.acked == c.acked + if c.st == WRITE || c.st == CLOSE then [c.cur.id] else []
  {
    assert c.acked + [] == c.acked;
  }

  /** A listen is answered at once; it changes the connection exactly if that is idle and the listening pcb is made. */
  lemma ListenEnds(c: Conn, v: Event)
    requires Inv(c) && Enabled(c, v) && v.ListenMsg?
    ensures Next(c, v) == c.(issued := c.issued + {v.id}, acked := c.acked + [v.id],
                             st := if c.pcb && c.st == NONE && v.ok then LISTEN else c.st)
  {
  }

  /** A write that finishes reports exactly the bytes that TCP took, unless `tcp_write` failed after it had taken
      some: then it reports none. */
  lemma ReportExact(c: Conn, timeout: bool, avail: nat, dontblock: bool, w: Wrote)
    requires Inv(c) && c.st == WRITE
    ensures var d, n := WriteMore(c, timeout, avail, dontblock, w), Chunk(c, avail);
            d.st != WRITE ==>
              && c.cur.id in d.reported
              && (d.reported[c.cur.id] == d.queued <==>
                    timeout || c.offset == 0 || (w.OK? && !(dontblock && avail == 0)))
  {
  }

  /** TCP takes 5 of the 10 bytes of the first message. */
  const HalfTaken: Event := WriteMsg(0, 10, false, false, 5, false, OK)

  lemma Half()
    ensures Enabled(Fresh, HalfTaken)
    ensures Next(Fresh, HalfTaken) ==
            Fresh.(st := WRITE, cur := Msg(0), offset := 5, len := 10, queued := 5, issued := {} + {0})
  {
  }

  /** An instance: when `tcp_write` then refuses a byte for good, a length of 0 is reported. */
  lemma ReportExample(dontblock: bool, w: Wrote)
    requires w.Other? || (w.MEM? && dontblock)
    ensures var vs, d := [HalfTaken, ProgressCb(false, 1, dontblock, w, false)],
            Next(Next(Fresh, HalfTaken), ProgressCb(false, 1, dontblock, w, false));
            Run(Fresh, vs, d) && d.st == NONE && 0 in d.reported && d.reported[0] == 0 && d.queued == 5
  {
    Half();
    var v := ProgressCb(false, 1, dontblock, w, false);
    TwoSteps(HalfTaken, v);
  }

  lemma TwoSteps(v: Event, w: Event)
    requires Enabled(Fresh, v) && Enabled(Next(Fresh, v), w)
    ensures Run(Fresh, [v, w], Next(Next(Fresh, v), w))
  {
    assert [v, w][1..] == [w] && [w][1..] == [];
    assert Run(Next(Fresh, v), [w], Next(Next(Fresh, v), w));
  }

  // ----- the write offset between writes -----

  /** What the code asserts when it takes up a write, a close or a deletion: no message is being worked on, and
      nothing is left of the last write. */
  predicate Asserted(c: Conn, v: Event) {
    match v
    case WriteMsg(id, n, fatal, timeout, avail, dontblock, w) =>
      fatal || c.st != NONE || !c.pcb || (c.cur.NoMsg? && c.offset == 0)
    case CloseMsg(id, both, ok) =>
      (c.st != NONE && c.st != LISTEN) || !c.pcb || (!both && c.st == LISTEN) || (c.cur.NoMsg? && c.offset == 0)
    case DeleteMsg(id, ok) => c.st == WRITE || c.st == CLOSE || !c.pcb || (c.cur.NoMsg? && c.offset == 0)
    case _ => true
  }

  /** Outside a write the offset is 0, as long as there is a pcb. */
  predicate Clean(c: Conn) { c.pcb && c.st != WRITE ==> c.offset == 0 }

  /** A write of which TCP took some bytes is given up: its time is over, it must not wait, or `tcp_write` fails. */
  predicate Abandons(c: Conn, v: Event) {
    && v.ProgressCb? && c.st == WRITE && c.offset > 0
    && (v.timeout || (v.avail == 0 && v.dontblock) || v.w.Other? || (v.w.MEM? && v.dontblock))
  }

  /** Exactly the steps that give up such a write leave the offset behind. */
  lemma CleanExact(c: Conn, v: Event)
    requires Inv(c) && Clean(c) && Enabled(c, v)
    ensures Asserted(c, v)
    ensures Clean(Next(c, v)) <==> !Abandons(c, v)
  {
    if v.WriteMsg? && !(v.fatal || c.st != NONE || !c.pcb) {
      var d := c.(issued := c.issued + {v.id}, st := WRITE, cur := Msg(v.id), offset := 0, len := v.n, queued := 0);
      WriteMoreOffset(d, v.timeout, v.avail, v.dontblock, v.w);
    } else if v.ProgressCb? && c.st == WRITE {
      WriteMoreOffset(c, v.timeout, v.avail, v.dontblock, v.w);
    }
  }

  lemma WriteMoreOffset(c: Conn, timeout: bool, avail: nat, dontblock: bool, w: Wrote)
    requires c.st == WRITE && c.cur.Msg? && c.offset < c.len && c.pcb
    ensures Clean(WriteMore(c, timeout, avail, dontblock, w)) <==>
            c.offset == 0 || !(timeout || (avail == 0 && dontblock) || w.Other? || (w.MEM? && dontblock))
  {
  }

  ghost predicate SteadyRun(c: Conn, vs: seq<Event>, d: Conn)
    decreases |vs|
  {
    if vs == [] then d == c
    else Enabled(c, vs[0]) && !Abandons(c, vs[0]) && SteadyRun(Next(c, vs[0]), vs[1..], d)
  }

  /** In every run without such a step the assertions hold, whatever message comes next. */
  lemma {:induction false} AssertionsHold(c: Conn, vs: seq<Event>, d: Conn, v: Event)
    requires Inv(c) && Clean(c) && SteadyRun(c, vs, d) && Enabled(d, v)
    ensures Asserted(d, v)
    decreases |vs|
  {
    if vs == [] {
      CleanExact(c, v);
    } else {
      CleanExact(c, vs[0]);
      NextInv(c, vs[0]);
      AssertionsHold(Next(c, vs[0]), vs[1..], d, v);
    }
  }

  /** An instance: the time for a write of which 5 bytes were taken is over, and the next write fails the assertion. */
  lemma OffsetExample(avail: nat, w: Wrote, n: nat)
    requires n > 0
    ensures var v := ProgressCb(true, avail, false, w, false);
            var d := Next(Next(Fresh, HalfTaken), v);
            && Run(Fresh, [HalfTaken, v], d) && d.st == NONE && d.pcb && d.offset == 5
            && Enabled(d, WriteMsg(1, n, false, false, avail, false, w))
            && !Asserted(d, WriteMsg(1, n, false, false, avail, false, w))
  {
    Half();
    TwoSteps(HalfTaken, ProgressCb(true, avail, false, w, false));
  }

  // ----- the handlers in place -----

  class TcpNetconn {
    var conn: Conn

    ghost predicate Valid()
      reads this
    {
      Inv(conn)
    }

    constructor ()
      ensures Valid() && conn == Fresh
    {
      conn := Fresh;
      assert forall x :: Times([], x) == 0;
    }

    /** The message is handed back to its thread and the connection set free. */
    method Finish()
      requires conn.cur.Msg?
      modifies this
      ensures conn == Complete(old(conn))
    {
      var id := conn.cur.id;
      conn := conn.(cur := NoMsg);
      conn := conn.(st := NONE);
      conn := conn.(acked := conn.acked + [id]);
    }

    /** `do_writemore`. */
    method DoWritemore(timeout: bool, avail: nat, dontblock: bool, w: Wrote)
      requires Valid() && conn.st == WRITE
      modifies this
      ensures Valid() && conn == WriteMore(old(conn), timeout, avail, dontblock, w)
    {
      WriteMoreInv(conn, timeout, avail, dontblock, w);
      WriteRound(timeout, avail, dontblock, w);
    }

    /** Its body. */
    method WriteRound(timeout: bool, avail: nat, dontblock: bool, w: Wrote)
      requires conn.st == WRITE && conn.cur.Msg? && conn.offset < conn.len
      modifies this
      ensures conn == WriteMore(old(conn), timeout, avail, dontblock, w)
    {
      var c := conn;
      if timeout {
        Return(c, c.offset);
        return;
      }
      Attempt(avail, dontblock, w);
    }

    /** The write returns to its thread with `n` bytes. */
    method Return(c: Conn, n: nat)
      requires c.cur.Msg?
      modifies this
      ensures conn == Complete(Report(c, n))
    {
      conn := Report(c, n);
      Finish();
    }

    /** The part of it with `tcp_write`. */
    method Attempt(avail: nat, dontblock: bool, w: Wrote)
      requires conn.st == WRITE && conn.cur.Msg? && conn.offset < conn.len
      modifies this
      ensures conn == WriteMore(old(conn), false, avail, dontblock, w)
    {
      var c := conn;
      var diff := c.len - c.offset;
      var len := if diff > 0xffff then 0xffff else diff;
      var wouldBlock := false;
      if avail < len {
        len := avail;
        wouldBlock := dontblock && len == 0;
      }
      if !wouldBlock && w.OK? {
        c := c.(offset := c.offset + len, queued := c.queued + len);
        conn := c;
        if c.offset == c.len || dontblock {
          Return(c, c.offset);
          conn := conn.(offset := 0);
        }
      } else if wouldBlock || !w.MEM? || dontblock {
        Return(c, 0);
      }
    }

    /** `do_write`. */
    method DoWrite(id: nat, n: nat, fatal: bool, timeout: bool, avail: nat, dontblock: bool, w: Wrote)
      requires Valid() && Enabled(conn, WriteMsg(id, n, fatal, timeout, avail, dontblock, w))
      modifies this
      ensures Valid() && conn == Write(old(conn), id, n, fatal, timeout, avail, dontblock, w)
    {
      NextInv(conn, WriteMsg(id, n, fatal, timeout, avail, dontblock, w));
      ghost var c := conn;
      conn := conn.(issued := conn.issued + {id});
      if !fatal && conn.st == NONE && conn.pcb {
        Taken(c, conn.(cur := Msg(id)), id);
        conn := conn.(st := WRITE);
        conn := conn.(cur := Msg(id), offset := 0, len := n, queued := 0);
        DoWritemore(timeout, avail, dontblock, w);
        return;
      }
      conn := conn.(acked := conn.acked + [id]);
    }

    /** `do_close_internal`. */
    method DoCloseInternal(ok: bool)
      requires conn.st == CLOSE && conn.cur.Msg?
      modifies this
      ensures conn == CloseInternal(old(conn), ok)
      ensures if ok then Ends(old(conn), conn, old(conn).cur.id, old(conn).pcb && !old(conn).closing)
              else conn == old(conn)
      ensures old(Valid()) ==> Valid()
    {
      if Valid() {
        CloseInternalInv(conn, ok);
      }
      if ok {
        if conn.closing {
          conn := conn.(pcb := false);
        }
        Finish();
      }
    }

    /** `do_close`. */
    method DoClose(id: nat, both: bool, ok: bool)
      requires Valid() && Enabled(conn, CloseMsg(id, both, ok))
      modifies this
      ensures Valid() && conn == Close(old(conn), id, both, ok)
      ensures if !TakenUp(old(conn), CloseMsg(id, both, ok)) then Answered(old(conn), conn, id)
              else if ok then Ends(old(conn), conn, id, !both)
              else conn == old(conn).(issued := conn.issued, st := CLOSE, cur := Msg(id), closing := both)
    {
      CloseBegins(conn, CloseMsg(id, both, ok));
      NextInv(conn, CloseMsg(id, both, ok));
      conn := conn.(issued := conn.issued + {id});
      if (conn.st == NONE || conn.st == LISTEN) && conn.pcb && (both || conn.st != LISTEN) {
        conn := conn.(st := CLOSE, closing := both);
        conn := conn.(cur := Msg(id));
        DoCloseInternal(ok);
        return;
      }
      conn := conn.(acked := conn.acked + [id]);
    }

    /** `do_delconn`. */
    method DoDelconn(id: nat, ok: bool)
      requires Valid() && Enabled(conn, DeleteMsg(id, ok))
      modifies this
      ensures Valid() && conn == Delete(old(conn), id, ok)
      ensures if !TakenUp(old(conn), DeleteMsg(id, ok)) then Answered(old(conn), conn, id)
              else if ok then Ends(old(conn), conn, id, false)
              else conn == old(conn).(issued := conn.issued, st := CLOSE, cur := Msg(id), closing := true)
    {
      CloseBegins(conn, DeleteMsg(id, ok));
      NextInv(conn, DeleteMsg(id, ok));
      conn := conn.(issued := conn.issued + {id});
      if conn.st != NONE && conn.st != LISTEN && conn.st != CONNECT {
        conn := conn.(acked := conn.acked + [id]);
        return;
      }
      if conn.pcb {
        conn := conn.(st := CLOSE, closing := true);
        conn := conn.(cur := Msg(id));
        DoCloseInternal(ok);
        return;
      }
      conn := conn.(acked := conn.acked + [id]);
    }

    /** `do_connect`. */
    method DoConnect(id: nat, nonblocking: bool, ok: bool)
      requires Valid() && Enabled(conn, ConnectMsg(id, nonblocking, ok))
      modifies this
      ensures Valid() && conn == Connect(old(conn), id, nonblocking, ok)
    {
      NextInv(conn, ConnectMsg(id, nonblocking, ok));
      conn := conn.(issued := conn.issued + {id});
      if conn.pcb && conn.st == NONE && ok {
        conn := conn.(st := CONNECT);
        conn := conn.(nbConnect := nonblocking);
        if !nonblocking {
          conn := conn.(cur := Msg(id));
          return;
        }
      }
      conn := conn.(acked := conn.acked + [id]);
    }

    /** `do_connected`. */
    method DoConnected()
      requires Valid() && Enabled(conn, ConnectedCb)
      modifies this
      ensures Valid() && conn == Connected(old(conn))
    {
      NextInv(conn, ConnectedCb);
      var blocking, id := !conn.nbConnect, if conn.cur.Msg? then conn.cur.id else 0;
      conn := conn.(nbConnect := false);
      conn := conn.(cur := NoMsg);
      conn := conn.(st := NONE);
      if blocking {
        conn := conn.(acked := conn.acked + [id]);
      }
    }

    /** `sent_tcp` and `poll_tcp`. */
    method SentTcp(timeout: bool, avail: nat, dontblock: bool, w: Wrote, closed: bool)
      requires Valid() && Enabled(conn, ProgressCb(timeout, avail, dontblock, w, closed))
      modifies this
      ensures Valid() && conn == Progress(old(conn), timeout, avail, dontblock, w, closed)
    {
      NextInv(conn, ProgressCb(timeout, avail, dontblock, w, closed));
      if conn.st == WRITE {
        DoWritemore(timeout, avail, dontblock, w);
      } else if conn.st == CLOSE {
        DoCloseInternal(closed);
      }
    }

    /** `err_tcp`. */
    method ErrTcp()
      requires Valid() && Enabled(conn, ErrorCb)
      modifies this
      ensures Valid() && conn == Error(old(conn))
      ensures !conn.pcb && conn.st == NONE && conn.cur.NoMsg?
    {
      NextInv(conn, ErrorCb);
      conn := conn.(pcb := false);
      var was := conn.st;
      conn := conn.(st := NONE);
      if was == WRITE || was == CLOSE || was == CONNECT {
        var nonblocking := conn.nbConnect;
        conn := conn.(nbConnect := false);
        if !nonblocking {
          Finish();
        }
      }
    }
  }
}
