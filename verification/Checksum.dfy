/**
 The Internet checksum (inet_chksum.c; RFC 1071): the three versions of
 `lwip_standard_chksum`, the versions over pbuf chains, and the pseudo header.
 */
module Checksum {

  type Octet = x: int | 0 <= x < 0x100

  newtype u16 = x: int | 0 <= x < 0x1_0000
  newtype u32 = x: int | 0 <= x < 0x1_0000_0000

  /** The byte order of the machine. */
  datatype Host = Little | Big

  // ----- the specification: a sum modulo 65535 with two zeros -----

  /** The octets as 16-bit words; `hi` says that the first octet is the high one. */
  function Sum(s: seq<Octet>, hi: bool): nat {
    if s == [] then 0 else (if hi then 0x100 * s[0] else s[0]) + Sum(s[1..], !hi)
  }

  /** The 16-bit ones' complement value of a sum: 0 only for the sum 0. */
  function Norm(n: nat): (r: nat)
    ensures r <= 0xffff && (r == 0 <==> n == 0)
  {
    if n == 0 then 0 else 1 + (n - 1) % 0xffff
  }

  /** What `lwip_standard_chksum` is to return: words as the machine reads them. */
  function Raw(s: seq<Octet>, host: Host): nat { Norm(Sum(s, host.Big?)) }

  lemma NormShift(n: nat, k: nat)
    requires n > 0
    ensures Norm(n + 0xffff * k) == Norm(n)
  {
  }

  lemma NormSmall(n: nat)
    requires n <= 0xffff
    ensures Norm(n) == n
  {
  }

  lemma NormParts(n: nat) returns (k: nat)
    ensures n == Norm(n) + 0xffff * k
  {
    k := if n == 0 then 0 else (n - 1) / 0xffff;
  }

  lemma NormAdd(a: nat, b: nat)
    ensures Norm(Norm(a) + Norm(b)) == Norm(a + b)
  {
    var k := NormParts(a);
    var l := NormParts(b);
    if Norm(a) + Norm(b) > 0 {
      NormShift(Norm(a) + Norm(b), k + l);
    }
  }

  // ----- FOLD_U32T and SWAP_BYTES_IN_WORD -----

  function Fold(n: nat): nat { n / 0x1_0000 + n % 0x1_0000 }

  function Swap(n: nat): nat { n % 0x100 * 0x100 + n / 0x100 }

  lemma FoldNorm(n: nat)
    ensures Norm(Fold(n)) == Norm(n)
    ensures n <= 0x1_fffe ==> Fold(n) <= 0xffff
    ensures n < 0x1_0000_0000 ==> Fold(n) <= 0x1_fffe
  {
    if n > 0 {
      NormShift(Fold(n), n / 0x1_0000);
    }
  }

  /** Two folds bring any 32-bit sum to its 16-bit value. */
  lemma FoldTwice(n: nat)
    requires n < 0x1_0000_0000
    ensures Fold(Fold(n)) == Norm(n)
  {
    FoldNorm(n);
    FoldNorm(Fold(n));
    NormSmall(Fold(Fold(n)));
  }

  lemma SwapNorm(n: nat)
    requires n <= 0xffff
    ensures Swap(n) <= 0xffff && Swap(n) == Norm(0x100 * n) && Swap(Swap(n)) == n
  {
    var h, l := n / 0x100, n % 0x100;
    assert 0x100 * n == Swap(n) + 0xffff * h;
    if n > 0 {
      NormShift(Swap(n), h);
    }
    NormSmall(Swap(n));
    assert Swap(n) / 0x100 == l && Swap(n) % 0x100 == h;
  }

  // ----- sums -----

  lemma {:induction false} SumConcat(s: seq<Octet>, t: seq<Octet>, hi: bool)
    ensures Sum(s + t, hi) == Sum(s, hi) + Sum(t, if |s| % 2 == 0 then hi else !hi)
  {
    if s == [] {
      assert s + t == t;
    } else {
      assert (s + t)[1..] == s[1..] + t;
      SumConcat(s[1..], t, !hi);
    }
  }

  /** Reading words in the other byte order multiplies by 256, which is what swapping does. */
  lemma {:induction false} SumOther(s: seq<Octet>, hi: bool) returns (k: nat)
    ensures 0x100 * Sum(s, hi) == Sum(s, !hi) + 0xffff * k
    ensures Sum(s, hi) == 0 <==> Sum(s, !hi) == 0
  {
    if s == [] {
      k := 0;
    } else {
      var j := SumOther(s[1..], !hi);
      k := j + if hi then s[0] else 0;
    }
  }

  lemma SwapSum(s: seq<Octet>, hi: bool)
    ensures Swap(Norm(Sum(s, hi))) == Norm(Sum(s, !hi))
  {
    var n := Sum(s, hi);
    var k := SumOther(s, hi);
    var j := NormParts(n);
    SwapNorm(Norm(n));
    if n > 0 {
      NormShift(Sum(s, !hi), k);
      NormShift(0x100 * Norm(n), 0x100 * j);
      assert 0x100 * n == 0x100 * Norm(n) + 0xffff * (0x100 * j);
    }
  }

  lemma {:induction false} SumBound(s: seq<Octet>, hi: bool)
    ensures Sum(s, hi) <= 0xffff * ((|s| + 1) / 2)
    ensures |s| >= 1 && !hi ==> Sum(s, hi) <= 0xff + 0xffff * (|s| / 2)
  {
    if |s| == 1 {
      assert s[1..] == [];
    } else if |s| >= 2 {
      assert s[1..][1..] == s[2..];
      assert Sum(s[1..], !hi) == (if !hi then 0x100 * s[1] else s[1]) + Sum(s[2..], hi);
      SumBound(s[2..], hi);
      assert (|s| + 1) / 2 == (|s[2..]| + 1) / 2 + 1 && |s| / 2 == |s[2..]| / 2 + 1;
      assert Sum(s, hi) <= 0xffff + Sum(s[2..], hi);
    }
  }

  // ----- the three algorithms -----

  /** Two octets as the machine reads them. */
  function Word(a: Octet, b: Octet, host: Host): (r: nat)
    ensures r <= 0xffff
  {
    if host.Big? then 0x100 * a + b else a + 0x100 * b
  }

  lemma SumTwo(s: seq<Octet>, i: nat, host: Host)
    requires i + 1 < |s|
    ensures Sum(s[i..], host.Big?) == Word(s[i], s[i + 1], host) + Sum(s[i + 2..], host.Big?)
  {
    assert s[i..][1..] == s[i + 1..] && s[i + 1..][1..] == s[i + 2..];
  }

  lemma SumOne(s: seq<Octet>, i: nat, hi: bool)
    requires i < |s|
    ensures Sum(s[i..], hi) == (if hi then 0x100 * s[i] else s[i]) + Sum(s[i + 1..], !hi)
    ensures i + 1 == |s| ==> Sum(s[i + 1..], !hi) == 0
  {
    assert s[i..][1..] == s[i + 1..];
  }

  /** The loop over 16-bit words; a last octet may remain.  The accumulator cannot overflow. */
  method WordSum(s: seq<Octet>, start: nat, host: Host, ghost t: nat, ghost total: nat) returns (sum: u32, i: nat)
    requires start <= |s| && t + Sum(s[start..], host.Big?) == total < 0x1_0000_0000
    ensures |s| - 1 <= i <= |s| && sum as int + t + Sum(s[i..], host.Big?) == total
  {
    sum, i := 0, start;
    while |s| - i > 1
      invariant i <= |s| && sum as int + t + Sum(s[i..], host.Big?) == total
    {
      SumTwo(s, i, host);
      sum := sum + Word(s[i], s[i + 1], host) as u32;
      i := i + 2;
    }
  }

  lemma SumLast(s: seq<Octet>, i: nat, hi: bool)
    requires |s| - 1 <= i <= |s|
    ensures Sum(s[i..], hi) == if i == |s| then 0 else if hi then 0x100 * (s[i] as int) else s[i] as int
  {
    if i < |s| {
      SumOne(s, i, hi);
    }
  }

  /** The carries folded in, with the second fold only where it is needed. */
  method FoldCarries(acc: u32) returns (r: u16)
    ensures r as int == Norm(acc as int)
  {
    FoldTwice(acc as int);
    FoldNorm(acc as int);
    var n := Fold(acc as int);
    if n > 0xffff {
      n := Fold(n);
    } else {
      NormSmall(n);
    }
    r := n as u16;
  }

  /** Version 1: words in network order, then `htons`. */
  method StandardChksum1(s: seq<Octet>, host: Host) returns (r: u16)
    requires |s| <= 0xffff
    ensures r as int == Raw(s, host)
  {
    SumBound(s, true);
    assert s[0..] == s;
    var acc, i := WordSum(s, 0, Big, 0, Sum(s, true));
    SumLast(s, i, true);
    if |s| - i > 0 {
      acc := acc + (0x100 * (s[i] as int)) as u32;
    }
    r := FoldCarries(acc);
    SwapSum(s, true);
    if host.Little? {
      SwapNorm(r as int);
      r := Swap(r as int) as u16;
    }
  }

  /** The sum that versions 2 and 3 form: at an odd address all words are read one octet off. */
  lemma OddSum(s: seq<Octet>, odd: bool, host: Host)
    ensures var n := Norm(Sum(s, host.Big? != odd)); (if odd then Swap(n) else n) == Raw(s, host)
  {
    SwapSum(s, host.Big? != odd);
  }

  /** The end of versions 2 and 3: two folds, and a swap for an odd address. */
  method Finish(sum: u32, odd: bool, ghost s: seq<Octet>, host: Host) returns (r: u16)
    requires Norm(sum as int) == Norm(Sum(s, host.Big? != odd))
    ensures r as int == Raw(s, host)
  {
    FoldTwice(sum as int);
    OddSum(s, odd, host);
    var n := Fold(Fold(sum as int));
    SwapNorm(n);
    r := (if odd then Swap(n) else n) as u16;
  }

  /** Version 2: aligned words, for up to 0x20000 octets at any address. */
  method StandardChksum2(s: seq<Octet>, odd: bool, host: Host) returns (r: u16)
    requires |s| <= 0x2_0000
    ensures r as int == Raw(s, host)
  {
    var t0: Octet, t1: Octet, i: nat := 0, 0, 0;
    SumBound(s, host.Big? != odd);
    assert s[0..] == s;
    if odd && |s| > 0 {
      SumOne(s, 0, host.Big? != odd);
      t1, i := s[0], 1;
    }
    var sum;
    sum, i := WordSum(s, i, host, Word(0, t1, host), Sum(s, host.Big? != odd));
    SumLast(s, i, host.Big?);
    if |s| - i > 0 {
      t0 := s[i];
    }
    sum := sum + Word(t0, t1, host) as u32;
    r := Finish(sum, odd, s, host);
  }

  // ----- version 3 -----

  /** Four octets as the machine reads them. */
  function Long(s: seq<Octet>, i: nat, host: Host): (r: nat)
    requires i + 4 <= |s|
    ensures r < 0x1_0000_0000
  {
    if host.Big? then 0x1_0000 * Word(s[i], s[i + 1], host) + Word(s[i + 2], s[i + 3], host)
    else Word(s[i], s[i + 1], host) + 0x1_0000 * Word(s[i + 2], s[i + 3], host)
  }

  lemma NormCong(a: nat, b: nat, k: nat, l: nat)
    requires a + 0xffff * k == b + 0xffff * l && (a == 0 <==> b == 0)
    ensures Norm(a) == Norm(b)
  {
    if a > 0 {
      NormShift(a, k);
      NormShift(b, l);
    }
  }

  /** Adding with the carry added back. */
  method AddCarry(sum: u32, x: u32) returns (r: u32)
    ensures r == 0 <==> sum == 0 && x == 0
    ensures r as int == sum as int + x as int || r as int + 0xffff * 0x1_0001 == sum as int + x as int
  {
    var n := sum as int + x as int;
    var tmp := (n % 0x1_0000_0000) as u32;
    r := if tmp < sum then tmp + 1 else tmp;
  }

  /** One 32-bit step keeps the sum modulo 65535. */
  lemma LongStep(s: seq<Octet>, i: nat, host: Host, sum: nat, sum': nat, t: nat)
    requires i + 4 <= |s| && (sum' == 0 <==> sum == 0 && Long(s, i, host) == 0)
    requires sum' == sum + Long(s, i, host) || sum' + 0xffff * 0x1_0001 == sum + Long(s, i, host)
    ensures Norm(sum' + t + Sum(s[i + 4..], host.Big?)) == Norm(sum + t + Sum(s[i..], host.Big?))
  {
    SumTwo(s, i, host);
    SumTwo(s, i + 2, host);
    var rest := Sum(s[i + 4..], host.Big?);
    var k := if host.Big? then Word(s[i], s[i + 1], host) else Word(s[i + 2], s[i + 3], host);
    var m := if sum' == sum + Long(s, i, host) then 0 else 0x1_0001;
    assert Long(s, i, host) == Word(s[i], s[i + 1], host) + Word(s[i + 2], s[i + 3], host) + 0xffff * k;
    NormCong(sum' + t + rest, sum + t + Sum(s[i..], host.Big?), m, k);
  }

  /** The loop of version 3 over eight octets at a time. */
  method LongSum(s: seq<Octet>, start: nat, ghost t: nat, host: Host, first: u32) returns (sum: u32, i: nat)
    requires start <= |s|
    ensures start <= i <= |s| < i + 8
    ensures Norm(sum as int + t + Sum(s[i..], host.Big?)) == Norm(first as int + t + Sum(s[start..], host.Big?))
  {
    sum, i := first, start;
    while |s| - i > 7
      invariant start <= i <= |s|
      invariant Norm(sum as int + t + Sum(s[i..], host.Big?)) == Norm(first as int + t + Sum(s[start..], host.Big?))
    {
      ghost var was := sum;
      var tmp := AddCarry(sum, Long(s, i, host) as u32);
      LongStep(s, i, host, was as int, tmp as int, t);
      sum := AddCarry(tmp, Long(s, i + 4, host) as u32);
      LongStep(s, i + 4, host, tmp as int, sum as int, t);
      i := i + 8;
    }
  }

  /** Version 3 up to a four-octet boundary: `t1` is the octet in front of it that has no partner. */
  method AlignStart(s: seq<Octet>, addr: nat, host: Host) returns (t1: Octet, sum: u32, i: nat)
    ensures i <= |s| && sum <= 0xffff
    ensures sum as int + Word(0, t1, host) + Sum(s[i..], host.Big?) == Sum(s, host.Big? != (addr % 2 == 1))
  {
    t1, sum, i := 0, 0, 0;
    assert s[0..] == s;
    if addr % 2 == 1 && |s| > 0 {
      SumOne(s, 0, host.Little?);
      t1, i := s[0], 1;
    }
    if (addr + i) % 4 != 0 && |s| - i > 1 {
      SumTwo(s, i, host);
      sum := Word(s[i], s[i + 1], host) as u32;
      i := i + 2;
    }
  }

  /** Version 3: 32-bit words, at any address. */
  method StandardChksum3(s: seq<Octet>, addr: nat, host: Host) returns (r: u16)
    ensures r as int == Raw(s, host)
  {
    var t1, sum, i := AlignStart(s, addr, host);
    ghost var t := Word(0, t1, host);
    sum, i := LongSum(s, i, t, host, sum);
    FoldKeeps(sum as int, t + Sum(s[i..], host.Big?));
    sum := Fold(sum as int) as u32;
    sum := TailSum(s, i, 0, t1, host, sum, Norm(Sum(s, host.Big? != (addr % 2 == 1))));
    r := Finish(sum, addr % 2 == 1, s, host);
  }

  lemma FoldKeeps(a: nat, b: nat)
    requires a < 0x1_0000_0000
    ensures Norm(Fold(a) + b) == Norm(a + b) && Fold(a) <= 0x1_fffe
  {
    FoldNorm(a);
    NormCong(Fold(a) + b, a + b, a / 0x1_0000, 0);
  }

  /** The last words and octets of version 3. */
  method TailSum(s: seq<Octet>, start: nat, t0: Octet, t1: Octet, host: Host, first: u32, ghost target: nat)
    returns (sum: u32)
    requires start <= |s| < start + 8 && first <= 0x1_fffe && t0 == 0
    requires Norm(first as int + Word(0, t1, host) + Sum(s[start..], host.Big?)) == target
    ensures Norm(sum as int) == target
  {
    var i, t := start, t0;
    sum := first;
    while |s| - i > 1
      invariant start <= i <= |s| && sum as int <= 0x1_fffe + 0xffff * (i - start)
      invariant sum as int + Sum(s[i..], host.Big?) == first as int + Sum(s[start..], host.Big?)
    {
      SumTwo(s, i, host);
      sum := sum + Word(s[i], s[i + 1], host) as u32;
      i := i + 2;
    }
    if |s| - i > 0 {
      SumOne(s, i, host.Big?);
      t := s[i];
    }
    sum := sum + Word(t, t1, host) as u32;
  }

  // ----- chains of pbufs -----

  /** The octets of a chain. */
  function Join(c: seq<seq<Octet>>): seq<Octet> { if c == [] then [] else c[0] + Join(c[1..]) }

  /** The accumulator holds the sum of what came so far, swapped after an odd number of octets. */
  predicate Held(acc: nat, done: seq<Octet>, swapped: bool, host: Host) {
    acc == Norm(Sum(done, host.Big? != swapped))
  }

  lemma FoldSum(a: nat, b: nat)
    ensures Fold(Norm(a) + Norm(b)) == Norm(a + b)
  {
    NormAdd(a, b);
    FoldNorm(Norm(a) + Norm(b));
    NormSmall(Fold(Norm(a) + Norm(b)));
  }

  /** Adding the checksum of the next piece: it begins at an odd place exactly when `swapped` is set. */
  lemma AddPiece(acc: nat, done: seq<Octet>, piece: seq<Octet>, swapped: bool, host: Host)
    requires Held(acc, done, swapped, host) && (swapped <==> |done| % 2 == 1)
    ensures Fold(acc + Raw(piece, host)) <= 0xffff && Held(Fold(acc + Raw(piece, host)), done + piece, swapped, host)
  {
    SumConcat(done, piece, host.Big? != swapped);
    FoldSum(Sum(done, host.Big? != swapped), Sum(piece, host.Big?));
  }

  lemma SwapHeld(acc: nat, done: seq<Octet>, swapped: bool, host: Host)
    requires Held(acc, done, swapped, host)
    ensures Swap(acc) <= 0xffff && Held(Swap(acc), done, !swapped, host)
  {
    SwapSum(done, host.Big? != swapped);
    SwapNorm(acc);
  }

  lemma JoinStep(c: seq<seq<Octet>>, i: nat)
    requires i < |c|
    ensures Join(c[..i + 1]) == Join(c[..i]) + c[i]
  {
    var one: seq<seq<Octet>> := [c[i]];
    JoinConcat(c[..i], one);
    assert c[..i + 1] == c[..i] + one && one[1..] == [];
  }

  lemma {:induction false} JoinConcat(a: seq<seq<Octet>>, b: seq<seq<Octet>>)
    ensures Join(a + b) == Join(a) + Join(b)
  {
    if a == [] {
      assert a + b == b;
    } else {
      assert (a + b)[1..] == a[1..] + b;
      JoinConcat(a[1..], b);
    }
  }

  function Prefix(s: seq<Octet>, n: nat): seq<Octet> { if n < |s| then s[..n] else s }

  /** One pbuf: its checksum is added, and the accumulator swapped after an odd one. */
  method AddPbuf(acc: u32, swapped: bool, len: nat, piece: seq<Octet>, odd: bool, host: Host, ghost done: seq<Octet>)
    returns (acc': u32, swapped': bool)
    requires Held(acc as int, done, swapped, host) && (swapped <==> |done| % 2 == 1) && |piece| <= len <= 0xffff
    ensures acc' <= 0xffff && Held(acc' as int, done + piece, swapped', host) && swapped' == (swapped != (len % 2 == 1))
  {
    var sum := StandardChksum2(piece, odd, host);
    AddPiece(acc as int, done, piece, swapped, host);
    acc', swapped' := Fold(acc as int + sum as int) as u32, swapped;
    if len % 2 != 0 {
      SwapHeld(acc' as int, done + piece, swapped, host);
      acc', swapped' := Swap(acc' as int) as u32, !swapped;
    }
  }

  /** The loop that all chain versions share: the checksum of the first `limit` octets of the chain, however
      it is cut into pieces and wherever these lie. */
  method ChainSum(c: seq<seq<Octet>>, limit: nat, odd: seq<bool>, host: Host) returns (acc: u32)
    requires |odd| == |c| && forall i :: 0 <= i < |c| ==> |c[i]| <= 0xffff
    ensures acc as int == Raw(Prefix(Join(c), limit), host)
  {
    var swapped, left, i := false, limit, 0;
    ghost var done: seq<Octet> := [];
    acc := 0;
    assert c[..0] == [];
    while i < |c| && left > 0
      invariant 0 <= i <= |c| && acc <= 0xffff && Held(acc as int, done, swapped, host)
      invariant 0 <= left && |done| + left == limit && done == Prefix(Join(c[..i]), limit)
      invariant left > 0 ==> done == Join(c[..i]) && (swapped <==> |done| % 2 == 1)
    {
      var n := if |c[i]| > left then left else |c[i]|;
      PrefixStep(done, c[i], limit, left, n);
      JoinStep(c, i);
      acc, swapped := AddPbuf(acc, swapped, |c[i]|, c[i][..n], odd[i], host, done);
      done := done + c[i][..n];
      left, i := left - n, i + 1;
    }
    ChainDone(c, i, limit, left, done);
    if swapped {
      SwapHeld(acc as int, done, swapped, host);
      acc := Swap(acc as int) as u32;
    }
  }

  lemma ChainDone(c: seq<seq<Octet>>, i: nat, limit: nat, left: nat, done: seq<Octet>)
    requires i <= |c| && (i == |c| || left == 0) && |done| + left == limit && done == Prefix(Join(c[..i]), limit)
    ensures done == Prefix(Join(c), limit)
  {
    JoinConcat(c[..i], c[i..]);
    assert c == c[..i] + c[i..];
    if i == |c| {
      assert c[..i] == c;
    }
  }

  lemma PrefixStep(s: seq<Octet>, piece: seq<Octet>, limit: nat, left: nat, n: nat)
    requires |s| + left == limit && n == (if |piece| > left then left else |piece|)
    ensures Prefix(s + piece, limit) == s + piece[..n]
  {
  }

  // ----- the functions built on it -----

  function Complement(n: nat): nat
    requires n <= 0xffff
  {
    0xffff - n
  }

  /** `inet_chksum_pbuf`. */
  method InetChksumPbuf(c: seq<seq<Octet>>, odd: seq<bool>, host: Host) returns (r: u16)
    requires |odd| == |c| && forall i :: 0 <= i < |c| ==> |c[i]| <= 0xffff
    ensures r as int == Complement(Raw(Join(c), host))
  {
    var acc := ChainSum(c, |Join(c)|, odd, host);
    r := Complement(acc as int) as u16;
  }

  /** A 16-bit or 8-bit value in network order. */
  function Net16(n: nat): seq<Octet>
    requires n <= 0xffff
  {
    [n / 0x100, n % 0x100]
  }

  /** The pseudo header of UDP and TCP. */
  function Pseudo(src: seq<Octet>, dst: seq<Octet>, proto: Octet, len: nat): seq<Octet>
    requires len <= 0xffff
  {
    src + dst + [0, proto] + Net16(len)
  }

  lemma SumFour(s: seq<Octet>, host: Host)
    requires |s| == 4
    ensures Sum(s, host.Big?) == Word(s[0], s[1], host) + Word(s[2], s[3], host)
  {
    assert s[0..] == s;
    SumTwo(s, 0, host);
    SumTwo(s, 2, host);
  }

  lemma SumPair(a: Octet, b: Octet, host: Host)
    ensures Sum([a, b], host.Big?) == Word(a, b, host)
  {
    assert [a, b][0..] == [a, b];
    SumTwo([a, b], 0, host);
  }

  lemma SumPseudo(src: seq<Octet>, dst: seq<Octet>, proto: Octet, len: nat, data: seq<Octet>, host: Host)
    requires |src| == 4 && |dst| == 4 && len <= 0xffff
    ensures Sum(Pseudo(src, dst, proto, len) + data, host.Big?) ==
            Word(src[0], src[1], host) + Word(src[2], src[3], host) + Word(dst[0], dst[1], host)
              + Word(dst[2], dst[3], host)
            + Word(0, proto, host) + Word(len / 0x100, len % 0x100, host) + Sum(data, host.Big?)
  {
    var hi := host.Big?;
    SumConcat(Pseudo(src, dst, proto, len), data, hi);
    SumConcat(src + dst + [0, proto], Net16(len), hi);
    SumConcat(src + dst, [0, proto], hi);
    SumConcat(src, dst, hi);
    SumFour(src, host);
    SumFour(dst, host);
    SumPair(0, proto, host);
    SumPair(len / 0x100, len % 0x100, host);
  }

  /** `inet_chksum_pseudo_partial`; with the whole chain it is `inet_chksum_pseudo`.  The value is the
      complement of the sum over the pseudo header and the octets covered. */
  method InetChksumPseudo(c: seq<seq<Octet>>, odd: seq<bool>, host: Host, src: seq<Octet>, dst: seq<Octet>,
                          proto: Octet, len: nat, limit: nat) returns (r: u16)
    requires |odd| == |c| && forall i :: 0 <= i < |c| ==> |c[i]| <= 0xffff
    requires |src| == 4 && |dst| == 4 && len <= 0xffff
    ensures r as int == Complement(Raw(Pseudo(src, dst, proto, len) + Prefix(Join(c), limit), host))
  {
    var acc := ChainSum(c, limit, odd, host);
    ghost var data := Prefix(Join(c), limit);
    acc := AddHeader(acc, host, src, dst, proto, len, data);
    FoldTwice(acc as int);
    r := Complement(Fold(Fold(acc as int))) as u16;
  }

  /** The pseudo header is added word by word. */
  method AddHeader(sum: u32, host: Host, src: seq<Octet>, dst: seq<Octet>, proto: Octet, len: nat,
                   ghost data: seq<Octet>)
    returns (acc: u32)
    requires |src| == 4 && |dst| == 4 && len <= 0xffff && sum as int == Raw(data, host)
    ensures Norm(acc as int) == Raw(Pseudo(src, dst, proto, len) + data, host)
  {
    acc := sum;
    acc := acc + Word(src[0], src[1], host) as u32 + Word(src[2], src[3], host) as u32;
    acc := acc + Word(dst[0], dst[1], host) as u32 + Word(dst[2], dst[3], host) as u32;
    acc := acc + Word(0, proto, host) as u32 + Word(len / 0x100, len % 0x100, host) as u32;
    SumPseudo(src, dst, proto, len, data, host);
    AddNorm(acc as int - sum as int, Sum(data, host.Big?));
  }

  lemma AddNorm(a: nat, b: nat)
    ensures Norm(a + Norm(b)) == Norm(a + b)
  {
    NormAdd(a, b);
    NormAdd(a, Norm(b));
    NormSmall(Norm(b));
  }
}
