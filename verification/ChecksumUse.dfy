/**
 Checksums in packets: what `udp_sendto_if` generates passes the check in `udp_input`, and
 the update that `icmp_input` makes in an echo request keeps a valid checksum valid.
 */
module ChecksumUse {
  import opened Checksum

  // ----- fields -----

  /** The octets of a 16-bit field that the machine reads as `n`. */
  function Put(n: nat, host: Host): (r: seq<Octet>)
    requires n <= 0xffff
    ensures |r| == 2 && Word(r[0], r[1], host) == n
  {
    if host.Big? then [n / 0x100, n % 0x100] else [n % 0x100, n / 0x100]
  }

  /** The packet with field `k` overwritten. */
  function Store(d: seq<Octet>, k: nat, n: nat, host: Host): seq<Octet>
    requires k + 2 <= |d| && n <= 0xffff
  {
    d[k := Put(n, host)[0]][k + 1 := Put(n, host)[1]]
  }

  /** The sum around the field at an even place. */
  lemma SumAround(d: seq<Octet>, k: nat, host: Host)
    requires k % 2 == 0 && k + 2 <= |d|
    ensures Sum(d, host.Big?) == Sum(d[..k], host.Big?) + Word(d[k], d[k + 1], host) + Sum(d[k + 2..], host.Big?)
  {
    assert d == d[..k] + d[k..];
    SumConcat(d[..k], d[k..], host.Big?);
    SumTwo(d, k, host);
  }

  lemma SumStore(d: seq<Octet>, k: nat, n: nat, host: Host)
    requires k % 2 == 0 && k + 2 <= |d| && n <= 0xffff
    ensures Sum(Store(d, k, n, host), host.Big?) == Sum(d, host.Big?) - Word(d[k], d[k + 1], host) + n
  {
    var e := Store(d, k, n, host);
    SumAround(d, k, host);
    SumAround(e, k, host);
    assert e[..k] == d[..k] && e[k + 2..] == d[k + 2..];
  }

  // ----- UDP -----

  const UdpProto: Octet := 17

  /** The check in `udp_input` for a datagram that carries a checksum. */
  predicate UdpAccepts(d: seq<Octet>, src: seq<Octet>, dst: seq<Octet>, host: Host)
    requires 8 <= |d| <= 0xffff
  {
    Word(d[6], d[7], host) == 0 || Complement(Raw(Pseudo(src, dst, UdpProto, |d|) + d, host)) == 0
  }

  /** The sum of a datagram together with its pseudo header, and what a stored checksum adds to it. */
  lemma UdpSum(d: seq<Octet>, src: seq<Octet>, dst: seq<Octet>, c: nat, host: Host)
    requires 8 <= |d| <= 0xffff && |src| == 4 && |dst| == 4 && d[6] == 0 && d[7] == 0 && c <= 0xffff
    ensures Sum(Pseudo(src, dst, UdpProto, |d|) + d, host.Big?) > 0
    ensures |Store(d, 6, c, host)| == |d|
    ensures Sum(Pseudo(src, dst, UdpProto, |d|) + Store(d, 6, c, host), host.Big?) ==
            Sum(Pseudo(src, dst, UdpProto, |d|) + d, host.Big?) + c
  {
    SumPseudo(src, dst, UdpProto, |d|, d, host);
    SumPseudo(src, dst, UdpProto, |d|, Store(d, 6, c, host), host);
    SumStore(d, 6, c, host);
  }

  /** A nonzero value that complements the sum makes it 0xffff. */
  lemma Completes(n: nat, c: nat, k: nat)
    requires n > 0 && n + c == 0xffff * k
    ensures Norm(n + c) == 0xffff
  {
    assert k >= 1;
    NormShift(0xffff, k - 1);
    NormSmall(0xffff);
  }

  /** The value stored: zero would mean that there is no checksum. */
  function UdpField(c: nat): nat { if c == 0 then 0xffff else c }

  /** Whatever congruent value is stored, the receiver accepts. */
  lemma UdpFieldOk(d: seq<Octet>, src: seq<Octet>, dst: seq<Octet>, c: nat, k: nat, host: Host)
    requires 8 <= |d| <= 0xffff && |src| == 4 && |dst| == 4 && d[6] == 0 && d[7] == 0 && c <= 0xffff
    requires Sum(Pseudo(src, dst, UdpProto, |d|) + d, host.Big?) + c == 0xffff * k
    ensures var e := Store(d, 6, UdpField(c), host);
            |e| == |d| && Word(e[6], e[7], host) != 0 && UdpAccepts(e, src, dst, host)
  {
    var n := Sum(Pseudo(src, dst, UdpProto, |d|) + d, host.Big?);
    UdpSum(d, src, dst, UdpField(c), host);
    Completes(n, UdpField(c), if c == 0 then k + 1 else k);
  }

  /** `udp_sendto_if`: the length and the checksum are filled into the header, which lies at the start of
      the first pbuf; the datagram then passes the check of the receiver, however it is cut into pbufs
      there. */
  method UdpFill(first: array<Octet>, rest: seq<seq<Octet>>, odd: seq<bool>, host: Host, src: seq<Octet>,
                 dst: seq<Octet>)
    requires 8 <= first.Length && first.Length + |Join(rest)| <= 0xffff && |odd| == 1 + |rest|
    requires |src| == 4 && |dst| == 4 && forall i :: 0 <= i < |rest| ==> |rest[i]| <= 0xffff
    modifies first
    ensures first[..4] == old(first[..4]) && first[8..] == old(first[8..])
    ensures (first[4] as int) * 0x100 + first[5] as int == first.Length + |Join(rest)|
    ensures Word(first[6], first[7], host) != 0 && UdpAccepts(first[..] + Join(rest), src, dst, host)
  {
    var len := first.Length + |Join(rest)|;
    first[6], first[7] := 0, 0;
    first[4], first[5] := len / 0x100, len % 0x100;
    ghost var head := first[..];
    ghost var d := head + Join(rest);
    var chain: seq<seq<Octet>> := [first[..]] + rest;
    assert chain[1..] == rest && Join(chain) == d;
    var c := InetChksumPseudo(chain, odd, host, src, dst, UdpProto, len, len);
    ghost var n := Sum(Pseudo(src, dst, UdpProto, len) + d, host.Big?);
    ghost var k := NormParts(n);
    UdpFieldOk(d, src, dst, c as int, k + 1, host);
    var f := Put(UdpField(c as int), host);
    first[6], first[7] := f[0], f[1];
    assert first[..] + Join(rest) == Store(d, 6, UdpField(c as int), host);
  }

  /** The variant that adds the header's checksum to one made while the payload was copied. */
  lemma UdpFromCopy(d: seq<Octet>, src: seq<Octet>, dst: seq<Octet>, host: Host, c: nat)
    requires 8 <= |d| <= 0xffff && |src| == 4 && |dst| == 4 && d[6] == 0 && d[7] == 0
    requires c == Fold(Complement(Raw(Pseudo(src, dst, UdpProto, |d|) + d[..8], host)) + Complement(Raw(d[8..], host)))
    ensures c <= 0xffff && UdpAccepts(Store(d, 6, UdpField(c), host), src, dst, host)
  {
    var p := Pseudo(src, dst, UdpProto, |d|);
    var a, b := Sum(p + d[..8], host.Big?), Sum(d[8..], host.Big?);
    assert p + d == (p + d[..8]) + d[8..];
    SumConcat(p + d[..8], d[8..], host.Big?);
    var k := NormParts(a);
    var l := NormParts(b);
    var s := Complement(Norm(a)) + Complement(Norm(b));
    FoldNorm(s);
    assert s == c + 0xffff * (s / 0x1_0000);
    UdpFieldOk(d, src, dst, c, k + l + 2 - s / 0x1_0000, host);
  }

  // ----- ICMP echo -----

  /** What the type 8 in the first octet adds to the sum. */
  function Step(host: Host): nat { Word(8, 0, host) }

  /** The new checksum field: the old one plus what the type no longer adds, with the carry. */
  function Updated(c: nat, host: Host): nat
    requires c <= 0xffff
  {
    if c >= 0xffff - Step(host) then (c + Step(host) + 1) % 0x1_0000 else c + Step(host)
  }

  /** The echo reply made of a request. */
  function Reply(d: seq<Octet>, host: Host): seq<Octet>
    requires 8 <= |d|
  {
    Store(d[0 := 0], 2, Updated(Word(d[2], d[3], host), host), host)
  }

  predicate Valid(d: seq<Octet>, host: Host) { Complement(Raw(d, host)) == 0 }

  /** Apart from type and checksum, everything is zero. */
  predicate Blank(d: seq<Octet>)
    requires 8 <= |d|
  {
    d[1] == 0 && forall i :: 4 <= i < |d| ==> d[i] == 0
  }

  lemma {:induction false} SumZero(s: seq<Octet>, hi: bool)
    ensures Sum(s, hi) == 0 <==> forall i :: 0 <= i < |s| ==> s[i] == 0
  {
    if s != [] {
      SumZero(s[1..], !hi);
      if Sum(s, hi) == 0 {
        forall i | 0 <= i < |s| ensures s[i] == 0 {
          assert i > 0 ==> s[i] == s[1..][i - 1];
        }
      } else if s[0] == 0 {
        var i :| 0 <= i < |s[1..]| && s[1..][i] != 0;
        assert s[i + 1] != 0;
      }
    }
  }

  /** The sums of a request and of its reply: `rest` is all but the type and the checksum. */
  lemma EchoSums(d: seq<Octet>, host: Host, rest: nat)
    requires 8 <= |d| && d[0] == 8 && rest == Word(0, d[1], host) + Sum(d[4..], host.Big?)
    ensures Sum(d, host.Big?) == Step(host) + Word(d[2], d[3], host) + rest
    ensures Sum(Reply(d, host), host.Big?) == Updated(Word(d[2], d[3], host), host) + rest
    ensures rest == 0 <==> Blank(d)
  {
    var e := d[0 := 0];
    SumStore(e, 2, Updated(Word(d[2], d[3], host), host), host);
    HeadSum(d, host);
    HeadSum(e, host);
    assert e[4..] == d[4..];
    SumZero(d[4..], host.Big?);
    assert forall i :: 4 <= i < |d| ==> d[i] == d[4..][i - 4];
  }

  lemma HeadSum(d: seq<Octet>, host: Host)
    requires 8 <= |d|
    ensures Sum(d, host.Big?) == Word(d[0], d[1], host) + Word(d[2], d[3], host) + Sum(d[4..], host.Big?)
  {
    assert d[0..] == d;
    SumTwo(d, 0, host);
    SumTwo(d, 2, host);
  }

  /** The reply to a valid request has a valid checksum exactly when the request is not blank. */
  lemma EchoExact(d: seq<Octet>, host: Host)
    requires 8 <= |d| && d[0] == 8 && Valid(d, host)
    ensures Valid(Reply(d, host), host) <==> !Blank(d)
  {
    var c, rest := Word(d[2], d[3], host), Word(0, d[1], host) + Sum(d[4..], host.Big?);
    EchoSums(d, host, rest);
    EchoArithmetic(Step(host), c, rest, Updated(c, host));
  }

  /** An instance, on either host: the request of type 8 with nothing else in it, and its valid checksum 0xf7ff. */
  lemma BlankRequest(host: Host)
    ensures var d := [8, 0, 0xf7, 0xff, 0, 0, 0, 0]; Valid(d, host) && !Valid(Reply(d, host), host)
  {
    var d: seq<Octet> := [8, 0, 0xf7, 0xff, 0, 0, 0, 0];
    HeadSum(d, host);
    SumZero(d[4..], host.Big?);
    assert Blank(d) && Raw(d, host) == 0xffff;
    EchoExact(d, host);
  }

  lemma EchoArithmetic(step: nat, c: nat, rest: nat, u: nat)
    requires 0 < step < 0xffff && c <= 0xffff && Norm(step + c + rest) == 0xffff
    requires u == if c >= 0xffff - step then (c + step + 1) % 0x1_0000 else c + step
    ensures Norm(u + rest) == 0xffff <==> rest > 0
  {
    var n := step + c + rest;
    var k := NormParts(n);
    if c >= 0xffff - step {
      assert u == c + step - 0xffff;
      assert u + rest == 0xffff * k;
      if k > 0 {
        NormShift(0xffff, k - 1);
        NormSmall(0xffff);
      }
    }
  }

  /** `icmp_input` makes the reply in the request's own buffer: type and checksum change, and the checksum of
      what was a valid request is valid again unless the request was blank. */
  method EchoReply(a: array<Octet>, host: Host)
    requires 8 <= a.Length
    modifies a
    ensures a[..] == Reply(old(a[..]), host)
    ensures a[0] == 0 && forall k :: 0 <= k < a.Length && k != 0 && k != 2 && k != 3 ==> a[k] == old(a[k])
    ensures old(a[0]) == 8 && Valid(old(a[..]), host) ==> (Valid(a[..], host) <==> !Blank(old(a[..])))
  {
    ghost var d := a[..];
    a[0] := 0;
    var c := Word(a[2], a[3], host);
    if c >= 0xffff - Step(host) {
      c := (c + Step(host) + 1) % 0x1_0000;
    } else {
      c := c + Step(host);
    }
    a[2], a[3] := Put(c, host)[0], Put(c, host)[1];
    assert a[..] == Reply(d, host);
    if d[0] == 8 && Valid(d, host) {
      EchoExact(d, host);
    }
  }
}
