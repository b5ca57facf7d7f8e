/**
 SLIP framing (slipif.c; RFC 1055): `slipif_output` and the byte-driven decoder
 `slipif_rxbyte`.
 */
module Slip {

  type Byte = x: int | 0 <= x < 0x100

  const END: Byte := 0xC0
  const ESC: Byte := 0xDB
  const ESC_END: Byte := 0xDC
  const ESC_ESC: Byte := 0xDD

  // ----- encoding -----

  function EscapeByte(c: Byte): seq<Byte> {
    if c == END then [ESC, ESC_END] else if c == ESC then [ESC, ESC_ESC] else [c]
  }

  function Escape(d: seq<Byte>): seq<Byte> { if d == [] then [] else EscapeByte(d[0]) + Escape(d[1..]) }

  function Encode(d: seq<Byte>): seq<Byte> { [END] + Escape(d) + [END] }

  lemma {:induction false} EscapeConcat(a: seq<Byte>, b: seq<Byte>)
    ensures Escape(a + b) == Escape(a) + Escape(b)
  {
    if a == [] {
      assert a + b == b;
    } else {
      assert (a + b)[1..] == a[1..] + b;
      EscapeConcat(a[1..], b);
    }
  }

  /** What may stand inside a frame: no END, and an ESC only in front of one of its two codes. */
  predicate Clean(e: seq<Byte>) { forall i :: 0 <= i < |e| ==> CleanAt(e, i) }

  predicate CleanAt(e: seq<Byte>, i: nat)
    requires i < |e|
  {
    e[i] != 0xC0 && (e[i] == 0xDB ==> i + 1 < |e| && (e[i + 1] == 0xDC || e[i + 1] == 0xDD))
  }

  lemma {:induction false} EscapeClean(d: seq<Byte>)
    ensures Clean(Escape(d)) && |d| <= |Escape(d)| <= 2 * |d|
  {
    if d != [] {
      EscapeClean(d[1..]);
      var a, b := EscapeByte(d[0]), Escape(d[1..]);
      forall i | 0 <= i < |a + b| ensures CleanAt(a + b, i) {
        if i >= |a| {
          assert CleanAt(b, i - |a|) && (a + b)[i] == b[i - |a|];
          assert i + 1 < |a + b| ==> (a + b)[i + 1] == b[i + 1 - |a|];
        } else {
          assert (a + b)[i] == a[i] && (i + 1 < |a| ==> (a + b)[i + 1] == a[i + 1]);
        }
      }
    }
  }

  /** On the wire a frame begins and ends with END (0xC0) and has none inside, and ESC (0xDB) stands only in front of
      0xDC and 0xDD. */
  lemma FrameClean(d: seq<Byte>)
    ensures var e := Encode(d);
            && |e| >= 2 && e[0] == 0xC0 && e[|e| - 1] == 0xC0 && Clean(e[1..|e| - 1])
            && |d| <= |e| - 2 <= 2 * |d|
  {
    EscapeClean(d);
    assert Encode(d)[1..|Encode(d)| - 1] == Escape(d);
  }

  function Flat(chain: seq<seq<Byte>>): seq<Byte> { if chain == [] then [] else chain[0] + Flat(chain[1..]) }

  lemma {:induction false} FlatStep(done: seq<Byte>, q: seq<seq<Byte>>)
    requires q != []
    ensures (done + q[0]) + Flat(q[1..]) == done + Flat(q)
  {
  }

  /** `slipif_output`: what is sent for a pbuf chain is the frame of its bytes, however the chain is cut. */
  method Output(chain: seq<seq<Byte>>) returns (sent: seq<Byte>)
    ensures sent == Encode(Flat(chain))
  {
    sent := [END];
    ghost var done := [];
    var q := chain;
    while q != []
      invariant sent == [END] + Escape(done) && done + Flat(q) == Flat(chain)
      decreases |q|
    {
      sent := OutputPbuf(q[0], sent, done);
      FlatStep(done, q);
      done := done + q[0];
      q := q[1..];
    }
    assert done == Flat(chain);
    sent := sent + [END];
  }

  method OutputPbuf(d: seq<Byte>, before: seq<Byte>, ghost done: seq<Byte>) returns (sent: seq<Byte>)
    requires before == [END] + Escape(done)
    ensures sent == [END] + Escape(done + d)
  {
    sent := before;
    assert done + d[..0] == done;
    for i := 0 to |d|
      invariant sent == [END] + Escape(done + d[..i])
    {
      EscapeNext(done, d, i);
      sent := SendByte(d[i], sent);
    }
    assert d[..|d|] == d;
  }

  method SendByte(c: Byte, before: seq<Byte>) returns (sent: seq<Byte>)
    ensures sent == before + EscapeByte(c)
  {
    if c == END {
      sent := before + [ESC] + [ESC_END];
    } else if c == ESC {
      sent := before + [ESC] + [ESC_ESC];
    } else {
      sent := before + [c];
    }
  }

  lemma {:induction false} EscapeOne(d: seq<Byte>)
    requires |d| == 1
    ensures Escape(d) == EscapeByte(d[0])
  {
    assert d[1..] == [];
  }

  lemma {:induction false} EscapeNext(done: seq<Byte>, d: seq<Byte>, i: nat)
    requires i < |d|
    ensures [END] + Escape(done + d[..i + 1]) == [END] + Escape(done + d[..i]) + EscapeByte(d[i])
  {
    var one: seq<Byte> := [d[i]];
    EscapeOne(one);
    EscapeConcat(done + d[..i], one);
    assert done + d[..i + 1] == (done + d[..i]) + one;
  }

  // ----- decoding -----

  /** SLIP_MAX_SIZE and the payload size of a pbuf from the pool. */
  datatype Cfg = Cfg(max: nat, pbuf: nat)

  /** `struct slipif_priv`: `data` are the `recved` bytes stored in the chain `q`; `hasP` says that `p` is a pbuf
      with room, into which `i` bytes were stored. */
  datatype Priv = Priv(escape: bool, data: seq<Byte>, hasP: bool, i: nat)

  const Fresh: Priv := Priv(false, [], false, 0)

  datatype Packet = None | Some(d: seq<Byte>)

  predicate Wf(s: Priv, c: Cfg) {
    c.pbuf > 0 && c.max > 0 && s.i < c.pbuf && (s.data == [] ==> !s.hasP && s.i == 0) && (!s.hasP ==> s.i == 0)
  }

  /** A byte of the packet is stored, if there is a pbuf for it (`memory`: a new one can be had). */
  function Stored(s: Priv, c: Cfg, b: Byte, memory: bool): Priv {
    if !s.hasP && !memory then s.(escape := false)
    else if |s.data| <= c.max then
      var i := s.i + 1;
      s.(escape := false, data := s.data + [b], hasP := i < c.pbuf, i := if i < c.pbuf then i else 0)
    else s.(escape := false, hasP := true)
  }

  /** `slipif_rxbyte`. */
  function Rx(s: Priv, c: Cfg, b: Byte, memory: bool): (Priv, Packet) {
    if !s.escape then
      if b == END then (if s.data != [] then (Fresh, Some(s.data)) else (s, None))
      else if b == ESC then (s.(escape := true), None)
      else (Stored(s, c, b, memory), None)
    else
      (Stored(s, c, if b == ESC_END then END else if b == ESC_ESC then ESC else b, memory), None)
  }

  lemma RxWf(s: Priv, c: Cfg, b: Byte, memory: bool)
    requires Wf(s, c)
    ensures Wf(Rx(s, c, b, memory).0, c)
  {
  }

  /** One byte, with or without memory: END delivers what there is, ESC is remembered; any other byte is stored as what
      it stands for, unless it needs a pbuf and there is none, or the packet is too long. */
  lemma RxExact(s: Priv, c: Cfg, b: Byte, memory: bool)
    ensures var (r, p) := Rx(s, c, b, memory);
            if !s.escape && b == 0xC0 then
              if s.data == [] then r == s && p == None else r == Fresh && p == Some(s.data)
            else if !s.escape && b == 0xDB then r == s.(escape := true) && p == None
            else
              var x := if !s.escape then b else if b == 0xDC then 0xC0 else if b == 0xDD then 0xDB else b;
              && !r.escape && p == None
              && r.data == if (!s.hasP && !memory) || |s.data| > c.max then s.data else s.data + [x]
  {
  }

  /** How many of `n` bytes lie in the last pbuf of `p` bytes, when all others are full. */
  function Fill(n: nat, p: nat): nat { if n == 0 then 0 else if Fill(n - 1, p) + 1 < p then Fill(n - 1, p) + 1 else 0 }

  /** That is the remainder. */
  lemma {:induction false} FillRemainder(n: nat, p: nat) returns (q: nat)
    requires p > 0
    ensures n == q * p + Fill(n, p) && Fill(n, p) < p
  {
    if n == 0 {
      q := 0;
    } else {
      q := FillRemainder(n - 1, p);
      if Fill(n - 1, p) + 1 >= p {
        assert (q + 1) * p == q * p + p;
        q := q + 1;
      }
    }
  }

  /** The bytes lie in pbufs that are all full but the last, and there is one with room exactly if that is begun. */
  predicate Placed(s: Priv, c: Cfg) {
    |s.data| <= c.max ==> s.i == Fill(|s.data|, c.pbuf) && (s.hasP <==> s.i > 0)
  }

  /** Whatever memory there is, every byte keeps it so: a new pbuf is begun exactly when the last one is full. */
  lemma {:induction false} RxPlaced(s: Priv, c: Cfg, b: Byte, memory: bool)
    requires Wf(s, c) && Placed(s, c)
    ensures Placed(Rx(s, c, b, memory).0, c)
    ensures |Rx(s, c, b, memory).0.data| <= (if |s.data| > c.max + 1 then |s.data| else c.max + 1)
  {
  }

  /** The decoder and the packets it has delivered. */
  datatype Fed = Fed(s: Priv, out: seq<seq<Byte>>)

  function FeedByte(f: Fed, c: Cfg, b: Byte): Fed {
    var r := Rx(f.s, c, b, true);
    Fed(r.0, if r.1.Some? then f.out + [r.1.d] else f.out)
  }

  /** The decoder fed with a run of bytes, pbufs being available. */
  function Feed(f: Fed, c: Cfg, bs: seq<Byte>): Fed
    decreases |bs|
  {
    if bs == [] then f else Feed(FeedByte(f, c, bs[0]), c, bs[1..])
  }

  lemma {:induction false} FeedConcat(f: Fed, c: Cfg, a: seq<Byte>, b: seq<Byte>)
    ensures Feed(f, c, a + b) == Feed(Feed(f, c, a), c, b)
    decreases |a|
  {
    if a == [] {
      assert a + b == b;
    } else {
      FeedConcat(FeedByte(f, c, a[0]), c, a[1..], b);
      assert (a + b)[1..] == a[1..] + b;
    }
  }

  lemma FeedFew(f: Fed, c: Cfg, a: Byte, b: Byte)
    ensures Feed(f, c, [a]) == FeedByte(f, c, a)
    ensures Feed(f, c, [a, b]) == FeedByte(FeedByte(f, c, a), c, b)
  {
    var g := FeedByte(f, c, a);
    assert [a][1..] == [] && Feed(g, c, []) == g;
    assert [b][1..] == [] && Feed(g, c, [b]) == Feed(FeedByte(g, c, b), c, []);
    assert [a, b][1..] == [b];
  }

  /** The bytes `bs` make the decoder store `d`, and nothing else happens. */
  predicate Takes(f: Fed, c: Cfg, bs: seq<Byte>, d: seq<Byte>) {
    var g := Feed(f, c, bs);
    g.out == f.out && Wf(g.s, c) && !g.s.escape && g.s.data == f.s.data + d
  }

  /** Storing one byte of a packet that is not too long. */
  lemma TakesByte(f: Fed, c: Cfg, b: Byte)
    requires Wf(f.s, c) && !f.s.escape && |f.s.data| <= c.max
    ensures Takes(f, c, EscapeByte(b), [b])
  {
    FeedFew(f, c, b, b);
    FeedFew(f, c, ESC, if b == END then ESC_END else ESC_ESC);
  }

  lemma {:induction false} TakesAll(f: Fed, c: Cfg, d: seq<Byte>)
    requires Wf(f.s, c) && !f.s.escape && |f.s.data| + |d| <= c.max
    ensures Takes(f, c, Escape(d), d)
    decreases |d|
  {
    if d != [] {
      TakesByte(f, c, d[0]);
      TakesAll(Feed(f, c, EscapeByte(d[0])), c, d[1..]);
      FeedConcat(f, c, EscapeByte(d[0]), Escape(d[1..]));
      assert f.s.data + [d[0]] + d[1..] == f.s.data + d;
    }
  }

  lemma FeedEnd(f: Fed, c: Cfg)
    requires !f.s.escape
    ensures Feed(f, c, [END]) == if f.s.data != [] then Fed(Fresh, f.out + [f.s.data]) else f
  {
    FeedFew(f, c, END, END);
  }

  /** One frame to a decoder between packets. */
  lemma FeedFrame(out: seq<seq<Byte>>, c: Cfg, d: seq<Byte>)
    requires c.pbuf > 0 && 1 <= |d| <= c.max
    ensures Feed(Fed(Fresh, out), c, Encode(d)) == Fed(Fresh, out + [d])
  {
    var f := Fed(Fresh, out);
    FeedEnd(f, c);
    TakesAll(f, c, d);
    FeedEnd(Feed(f, c, Escape(d)), c);
    FeedConcat(f, c, [END], Escape(d));
    FeedConcat(f, c, [END] + Escape(d), [END]);
    assert [] + d == d;
  }

  /** The part of a packet that the decoder keeps: the check lets one byte more than SLIP_MAX_SIZE pass. */
  function Kept(c: Cfg, d: seq<Byte>): seq<Byte> { if |d| <= c.max + 1 then d else d[..c.max + 1] }

  lemma {:induction false} TakesKept(f: Fed, c: Cfg, d: seq<Byte>)
    requires Wf(f.s, c) && !f.s.escape && |f.s.data| <= c.max + 1
    ensures var g := Feed(f, c, Escape(d));
            g.out == f.out && Wf(g.s, c) && !g.s.escape && g.s.data == Kept(c, f.s.data + d)
    decreases |d|
  {
    if d == [] {
      assert f.s.data + d == f.s.data;
    } else {
      var e := EscapeByte(d[0]);
      KeepsByte(f, c, d[0]);
      TakesKept(Feed(f, c, e), c, d[1..]);
      FeedConcat(f, c, e, Escape(d[1..]));
      KeptMore(c, f.s.data, d);
    }
  }

  /** One byte, stored unless there are too many. */
  lemma KeepsByte(f: Fed, c: Cfg, b: Byte)
    requires Wf(f.s, c) && !f.s.escape && |f.s.data| <= c.max + 1
    ensures var g := Feed(f, c, EscapeByte(b));
            g.out == f.out && Wf(g.s, c) && !g.s.escape && g.s.data == Kept(c, f.s.data + [b])
  {
    assert |f.s.data| == c.max + 1 ==> (f.s.data + [b])[..c.max + 1] == f.s.data;
    FeedFew(f, c, b, b);
    FeedFew(f, c, ESC, if b == END then ESC_END else ESC_ESC);
  }

  lemma {:induction false} KeptMore(c: Cfg, a: seq<Byte>, d: seq<Byte>)
    requires d != [] && |a| <= c.max + 1
    ensures Kept(c, Kept(c, a + [d[0]]) + d[1..]) == Kept(c, a + d)
  {
    assert a + [d[0]] + d[1..] == a + d;
    if |a| == c.max + 1 {
      assert (a + [d[0]])[..c.max + 1] == a && (a + d)[..c.max + 1] == a;
      assert d[1..] != [] ==> (a + d[1..])[..c.max + 1] == a;
    }
  }

  /** A frame of any length to a decoder between packets: its first SLIP_MAX_SIZE + 1 bytes are delivered, an empty
      frame is skipped. */
  lemma FeedAny(out: seq<seq<Byte>>, c: Cfg, d: seq<Byte>)
    requires c.pbuf > 0 && c.max > 0
    ensures Feed(Fed(Fresh, out), c, Encode(d)) == Fed(Fresh, if d == [] then out else out + [Kept(c, d)])
  {
    var f := Fed(Fresh, out);
    FeedEnd(f, c);
    TakesKept(f, c, d);
    FeedEnd(Feed(f, c, Escape(d)), c);
    FeedConcat(f, c, [END], Escape(d));
    FeedConcat(f, c, [END] + Escape(d), [END]);
    assert [] + d == d;
    if d == [] {
      assert Escape(d) == [] && Feed(f, c, []) == f;
    }
  }

  function Frames(ds: seq<seq<Byte>>): seq<Byte>
    decreases |ds|
  {
    if ds == [] then [] else Encode(ds[0]) + Frames(ds[1..])
  }

  /** One frame is decoded, and the rest as from a fresh decoder. */
  lemma {:induction false} FramesStep(out: seq<seq<Byte>>, c: Cfg, ds: seq<seq<Byte>>, more: seq<seq<Byte>>)
    requires c.pbuf > 0 && ds != [] && 1 <= |ds[0]| <= c.max && more == out + [ds[0]]
    requires Feed(Fed(Fresh, more), c, Frames(ds[1..])) == Fed(Fresh, more + ds[1..])
    ensures Feed(Fed(Fresh, out), c, Frames(ds)) == Fed(Fresh, out + ds)
  {
    FeedFrame(out, c, ds[0]);
    FeedConcat(Fed(Fresh, out), c, Encode(ds[0]), Frames(ds[1..]));
    assert more + ds[1..] == out + ds;
  }

  predicate Fit(c: Cfg, ds: seq<seq<Byte>>) { forall d :: d in ds ==> 1 <= |d| <= c.max }

  lemma FitRest(c: Cfg, ds: seq<seq<Byte>>)
    requires Fit(c, ds) && ds != []
    ensures 1 <= |ds[0]| <= c.max && Fit(c, ds[1..])
  {
    assert ds[0] in ds;
  }

  /** Decoding the frames of any packets of 1 to SLIP_MAX_SIZE bytes gives exactly those packets. */
  lemma {:induction false} RoundTrip(out: seq<seq<Byte>>, c: Cfg, ds: seq<seq<Byte>>)
    requires c.pbuf > 0 && Fit(c, ds)
    ensures Feed(Fed(Fresh, out), c, Frames(ds)) == Fed(Fresh, out + ds)
    decreases |ds|
  {
    if ds == [] {
      assert out + ds == out;
    } else {
      FitRest(c, ds);
      RoundTrip(out + [ds[0]], c, ds[1..]);
      FramesStep(out, c, ds, out + [ds[0]]);
    }
  }

  // ----- resynchronisation -----

  /** Whatever state the decoder is in, storing bytes leaves it with some. */
  lemma {:induction false} TakesSome(f: Fed, c: Cfg, d: seq<Byte>)
    requires Wf(f.s, c) && !f.s.escape && (f.s.data != [] || d != [])
    ensures var g := Feed(f, c, Escape(d)); !g.s.escape && g.s.data != []
    decreases |d|
  {
    if d != [] {
      var e := EscapeByte(d[0]);
      AnyByte(f, c, d[0]);
      TakesSome(Feed(f, c, e), c, d[1..]);
      FeedConcat(f, c, e, Escape(d[1..]));
    }
  }

  lemma AnyByte(f: Fed, c: Cfg, b: Byte)
    requires Wf(f.s, c) && !f.s.escape
    ensures var g := Feed(f, c, EscapeByte(b)); Wf(g.s, c) && !g.s.escape && g.s.data != []
  {
    FeedFew(f, c, b, b);
    FeedFew(f, c, ESC, if b == END then ESC_END else ESC_ESC);
  }

  /** After one complete frame the decoder is between packets, whatever state it was in. */
  lemma FirstFrame(f: Fed, c: Cfg, d: seq<Byte>)
    requires Wf(f.s, c) && d != []
    ensures Feed(f, c, Encode(d)).s == Fresh
  {
    FeedFew(f, c, END, END);
    RxWf(f.s, c, END, true);
    var g := Feed(f, c, [END]);
    TakesSome(g, c, d);
    FeedEnd(Feed(g, c, Escape(d)), c);
    FeedConcat(f, c, [END], Escape(d));
    FeedConcat(f, c, [END] + Escape(d), [END]);
  }

  /** From any state, the second complete frame onward is decoded exactly. */
  lemma Resync(f: Fed, c: Cfg, d: seq<Byte>, ds: seq<seq<Byte>>) returns (junk: seq<seq<Byte>>)
    requires Wf(f.s, c) && d != [] && forall x :: x in ds ==> 1 <= |x| <= c.max
    ensures Feed(f, c, Encode(d) + Frames(ds)) == Fed(Fresh, junk + ds)
  {
    FirstFrame(f, c, d);
    junk := Feed(f, c, Encode(d)).out;
    RoundTrip(junk, c, ds);
    FeedConcat(f, c, Encode(d), Frames(ds));
  }

  // ----- the decoder in place -----

  class Decoder {
    const c: Cfg
    var priv: Priv

    ghost predicate Valid()
      reads this
    {
      Wf(priv, c)
    }

    constructor (c: Cfg)
      requires c.pbuf > 0 && c.max > 0
      ensures Valid() && this.c == c && priv == Fresh
    {
      this.c := c;
      priv := Fresh;
    }

    /** `slipif_rxbyte`; `memory` says that a pbuf could be allocated if one was needed. */
    method RxByte(byte: Byte, memory: bool) returns (packet: Packet)
      requires Valid()
      modifies this
      ensures Valid() && (priv, packet) == Rx(old(priv), c, byte, memory)
    {
      var b := byte;
      if !priv.escape {
        if b == END {
          if |priv.data| > 0 {
            packet := Some(priv.data);
            priv := priv.(data := [], hasP := false, i := 0);
            return;
          }
          return None;
        }
        if b == ESC {
          priv := priv.(escape := true);
          return None;
        }
      } else {
        if b == ESC_END {
          b := END;
        } else if b == ESC_ESC {
          b := ESC;
        }
        priv := priv.(escape := false);
      }
      if !priv.hasP {
        if !memory {
          return None;
        }
        priv := priv.(hasP := true);
      }
      if |priv.data| <= c.max {
        priv := priv.(data := priv.data + [b], i := priv.i + 1);
        if priv.i >= c.pbuf {
          priv := priv.(i := 0, hasP := false);
        }
      }
      return None;
    }
  }
}
