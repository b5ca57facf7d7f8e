/**
 The 32-bit sequence number comparisons of lwip/tcp_impl.h, and when they agree
 with comparing unwrapped numbers, as the TCP modules do.
 */
module SeqNum {

  const M: int := 0x1_0000_0000

  function U32(x: int): (r: nat) ensures r < M { x % M }

  /** `(s32_t)(u32_t)x` */
  function S32(x: int): (r: int)
    ensures -0x8000_0000 <= r < 0x8000_0000
  {
    if U32(x) < 0x8000_0000 then U32(x) else U32(x) - M
  }

  predicate SeqLt(a: nat, b: nat) { S32(a - b) < 0 }
  predicate SeqLeq(a: nat, b: nat) { S32(a - b) <= 0 }
  predicate SeqBetween(a: nat, b: nat, c: nat) { SeqLeq(b, a) && SeqLeq(a, c) }

  /** The signed difference of two wrapped numbers is their true difference exactly while that
      difference fits 32 bits signed. */
  lemma DiffExact(a: int, b: int)
    ensures S32(U32(a) - U32(b)) == a - b <==> -0x8000_0000 <= a - b < 0x8000_0000
  {
    DiffModulo(a, b);
  }

  lemma DiffModulo(a: int, b: int)
    ensures exists k: int :: S32(U32(a) - U32(b)) == a - b + k * M
  {
    var x := U32(a) - U32(b);
    var ka, kb, kx := a / M, b / M, x / M;
    assert a == ka * M + U32(a) && b == kb * M + U32(b) && x == kx * M + U32(x);
    var k := kb - ka - kx - if U32(x) < 0x8000_0000 then 0 else 1;
    assert S32(x) == a - b + k * M;
  }

  /** Within half the sequence space the macros compare unwrapped numbers. */
  lemma CompareUnwrapped(a: int, b: int)
    requires -0x8000_0000 < a - b < 0x8000_0000
    ensures SeqLt(U32(a), U32(b)) <==> a < b
    ensures SeqLeq(U32(a), U32(b)) <==> a <= b
  {
    DiffExact(a, b);
  }

  lemma BetweenUnwrapped(a: int, b: int, c: int)
    requires -0x8000_0000 < a - b < 0x8000_0000 && -0x8000_0000 < a - c < 0x8000_0000
    ensures SeqBetween(U32(a), U32(b), U32(c)) <==> b <= a <= c
  {
    CompareUnwrapped(b, a);
    CompareUnwrapped(a, c);
  }

  /** Comparing the wrapped numbers directly, as the window check for the last queued segment
      does, is right exactly while both lie in the same turn of the sequence space. */
  lemma RawCompareExact(a: int, b: int)
    requires -M < a - b < M
    ensures (U32(a) > U32(b) <==> a > b) <==> a / M == b / M
  {
    assert a == a / M * M + U32(a) && b == b / M * M + U32(b);
    if a / M > b / M {
      assert a / M == b / M + 1;
    } else if a / M < b / M {
      assert b / M == a / M + 1;
    }
  }

  /** Turns are in order, and a wrapped number is smaller in the later one within one turn's distance. */
  lemma TurnOrder(a: int, b: int)
    requires -M < a - b < M
    ensures a / M < b / M ==> a < b && U32(a) > U32(b)
    ensures a / M > b / M ==> a > b && U32(a) < U32(b)
  {
    assert a == a / M * M + U32(a) && b == b / M * M + U32(b);
    if a / M > b / M {
      assert a / M == b / M + 1;
    } else if a / M < b / M {
      assert b / M == a / M + 1;
    }
  }

  /** An instance: a window that ends just behind a turn, and a segment that ends before it. */
  lemma RawCompareWrong()
    ensures 0xffff_fff0 < 0x1_0000_0010 && U32(0xffff_fff0) > U32(0x1_0000_0010)
  {
  }
}
