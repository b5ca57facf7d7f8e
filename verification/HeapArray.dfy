/**
 The in-place code of mem.c: `struct mem` headers stored at their offsets in the heap
 memory, with `mem_init`, `plug_holes`, `mem_free`, `mem_trim` and `mem_malloc` proved
 equal to the operations of `HeapModel`.
 */
module HeapArray {
  import opened HeapModel

  /** A `struct mem`.  Offsets at which no block starts hold garbage. */
  datatype Mem = Mem(next: nat, prev: nat, used: bool)

  type Ram = seq<Mem>

  /** The start of the last block of `h`, or `p`. */
  function LastStart(h: Blocks, p: nat): nat { if h == [] then p else h[|h| - 1].start }

  /** The headers in memory link exactly the blocks of `h`; `p` is the block in front of them. */
  predicate Linked(r: Ram, h: Blocks, p: nat, end: nat) {
    h == [] || (h[0].start < |r| && r[h[0].start] == Mem(First(h[1..], end), p, h[0].used)
                && Linked(r, h[1..], h[0].start, end))
  }

  lemma {:induction false} LinkedConcat(r: Ram, a: Blocks, b: Blocks, p: nat, end: nat)
    ensures Linked(r, a + b, p, end) <==> Linked(r, a, p, First(b, end)) && Linked(r, b, LastStart(a, p), end)
  {
    if a == [] {
      assert a + b == b;
    } else {
      assert (a + b)[1..] == a[1..] + b;
      LinkedConcat(r, a[1..], b, a[0].start, end);
      assert LastStart(a, p) == LastStart(a[1..], a[0].start);
    }
  }

  /** Only the headers of the blocks themselves matter. */
  lemma {:induction false} LinkedFrame(r: Ram, q: Ram, h: Blocks, p: nat, end: nat)
    requires Linked(r, h, p, end) && |q| == |r|
    requires forall b :: b in h && b.start < |r| ==> q[b.start] == r[b.start]
    ensures Linked(q, h, p, end)
  {
    if h != [] {
      assert h[0] in h;
      LinkedFrame(r, q, h[1..], h[0].start, end);
    }
  }

  /** The header of one block. */
  lemma {:induction false} LinkedAt(r: Ram, h: Blocks, i: nat, end: nat)
    requires Linked(r, h, 0, end) && i < |h|
    ensures h[i].start < |r|
    ensures r[h[i].start] == Mem(NextOf(h, i, end), if i > 0 then h[i - 1].start else 0, h[i].used)
  {
    assert h == h[..i] + h[i..];
    LinkedConcat(r, h[..i], h[i..], 0, end);
  }

  /** The header behind block `i`; the end of the heap counts as used. */
  lemma {:induction false} NextHeader(r: Ram, h: Blocks, i: nat, end: nat, hdr: nat)
    requires hdr > 0 && Tile(h, 0, end, hdr) && Linked(r, h, 0, end) && i < |h|
    requires |r| == end + 1 && r[end].used
    ensures h[i].start + hdr <= NextOf(h, i, end) <= end
    ensures r[h[i].start].next == NextOf(h, i, end)
    ensures NextFree(h, i) <==> !r[NextOf(h, i, end)].used
    ensures NextFree(h, i) ==> NextOf(h, i, end) + hdr <= NextOf(h, i + 1, end) <= end
    ensures NextFree(h, i) ==> r[NextOf(h, i, end)].next == NextOf(h, i + 1, end)
  {
    LinkedAt(r, h, i, end);
    BlocksEnd(h, i, end, hdr);
    if i + 1 < |h| {
      LinkedAt(r, h, i + 1, end);
      BlocksEnd(h, i + 1, end, hdr);
    }
  }

  /** What the stretch between `lo` and `hi` may change outside itself: the back link at `hi`. */
  predicate Outside(r: Ram, q: Ram, lo: nat, hi: nat) {
    && |q| == |r|
    && (forall x :: 0 <= x < |r| && (x < lo || hi < x) ==> q[x] == r[x])
    && (hi < |r| ==> q[hi].next == r[hi].next && q[hi].used == r[hi].used)
  }

  /** The headers after the stretch, with a new back link in front. */
  lemma {:induction false} LinkedAfter(r: Ram, q: Ram, b: Blocks, p: nat, p': nat, lo: nat, hi: nat, end: nat, hdr: nat)
    requires hdr > 0 && Tile(b, hi, end, hdr) && Outside(r, q, lo, hi) && lo <= hi
    requires Linked(r, b, p, end)
    requires b != [] ==> hi < |q| && q[hi].prev == p'
    ensures Linked(q, b, p', end)
  {
    if b != [] {
      TileRange(b[1..], First(b[1..], end), end, hdr);
      LinkedFrame(r, q, b[1..], hi, end);
    }
  }

  /** Rewriting the headers of one stretch. */
  lemma {:induction false} Relink(r: Ram, q: Ram, a: Blocks, m: Blocks, m': Blocks, b: Blocks, lo: nat, hi: nat,
                                  end: nat, hdr: nat)
    requires hdr > 0 && m != [] && m' != [] && lo == m[0].start == m'[0].start && hi == First(b, end)
    requires Tile(a + m + b, 0, end, hdr) && Linked(r, a + m + b, 0, end)
    requires Outside(r, q, lo, hi)
    requires Linked(q, m', LastStart(a, 0), hi)
    requires b != [] ==> hi < |q| && q[hi].prev == LastStart(m', 0)
    ensures Linked(q, a + m' + b, 0, end)
  {
    Middle(a, m, b, end, hdr);
    LinkedConcat(r, a + m, b, 0, end);
    LinkedConcat(r, a, m, 0, hi);
    TileRange(a, 0, lo, hdr);
    TileRange(m, lo, hi, hdr);
    LinkedFrame(r, q, a, 0, lo);
    LinkedAfter(r, q, b, LastStart(a + m, 0), LastStart(m', 0), lo, hi, end, hdr);
    LinkedConcat(q, a + m', b, 0, end);
    LinkedConcat(q, a, m', 0, hi);
    assert LastStart(a + m', 0) == LastStart(m', 0);
  }

  lemma {:induction false} LinkedOne(q: Ram, x: Blk, p: nat, hi: nat)
    ensures Linked(q, [x], p, hi) <==> x.start < |q| && q[x.start] == Mem(hi, p, x.used)
  {
    assert [x][1..] == [];
  }

  lemma {:induction false} LinkedTwo(q: Ram, x: Blk, y: Blk, p: nat, hi: nat)
    ensures Linked(q, [x, y], p, hi) <==>
            && x.start < |q| && q[x.start] == Mem(y.start, p, x.used)
            && y.start < |q| && q[y.start] == Mem(hi, x.start, y.used)
  {
    assert [x, y][1..] == [y];
    LinkedOne(q, y, x.start, hi);
  }

  // ----- the three ways in which headers change -----

  /** Block `k` takes over the block after it. */
  function Joined(h: Blocks, k: nat): Blocks
    requires k + 1 < |h|
  {
    h[..k] + [h[k]] + h[k + 2..]
  }

  function SetPrev(r: Ram, x: nat, p: nat): Ram
    requires x < |r|
  {
    r[x := r[x].(prev := p)]
  }

  lemma {:induction false} JoinLinks(r: Ram, h: Blocks, k: nat, n: nat, end: nat, hdr: nat)
    requires hdr > 0 && k + 1 < |h| && Tile(h, 0, end, hdr) && Linked(r, h, 0, end) && |r| == end + 1
    requires n == NextOf(h, k + 1, end)
    ensures h[k].start < n <= end
    ensures Linked(SetPrev(r[h[k].start := r[h[k].start].(next := n)], n, h[k].start), Joined(h, k), 0, end)
    ensures Tile(Joined(h, k), 0, end, hdr)
  {
    var p := h[k].start;
    StretchRange(h, k, k + 2, end, hdr);
    BlocksEnd(h, k + 1, end, hdr);
    LinkedAt(r, h, k, end);
    var q := SetPrev(r[p := r[p].(next := n)], n, p);
    assert h == h[..k] + [h[k], h[k + 1]] + h[k + 2..];
    LinkedOne(q, h[k], LastStart(h[..k], 0), n);
    Relink(r, q, h[..k], [h[k], h[k + 1]], [h[k]], h[k + 2..], p, n, end, hdr);
    Small(h[k], h[k + 1], n, hdr);
    Replace(h[..k], [h[k], h[k + 1]], [h[k]], h[k + 2..], end, hdr);
  }

  lemma {:induction false} MarkLinks(r: Ram, h: Blocks, i: nat, u: bool, end: nat, hdr: nat)
    requires hdr > 0 && i < |h| && Tile(h, 0, end, hdr) && Linked(r, h, 0, end) && |r| == end + 1
    ensures h[i].start < |r|
    ensures Linked(r[h[i].start := r[h[i].start].(used := u)], h[i := Blk(h[i].start, u)], 0, end)
    ensures Tile(h[i := Blk(h[i].start, u)], 0, end, hdr)
  {
    var p, n, x := h[i].start, NextOf(h, i, end), Blk(h[i].start, u);
    LinkedAt(r, h, i, end);
    BlocksEnd(h, i, end, hdr);
    var q := r[p := r[p].(used := u)];
    assert h == h[..i] + [h[i]] + h[i + 1..];
    assert h[i := x] == h[..i] + [x] + h[i + 1..];
    LinkedOne(q, x, LastStart(h[..i], 0), n);
    if i + 1 < |h| {
      LinkedAt(r, h, i + 1, end);
    }
    Relink(r, q, h[..i], [h[i]], [x], h[i + 1..], p, n, end, hdr);
    Small(h[i], x, n, hdr);
    Small(x, x, n, hdr);
    Replace(h[..i], [h[i]], [x], h[i + 1..], end, hdr);
  }

  /** The header written at `y`, linked in between block `p` and the header at `n`. */
  function Inserted(r: Ram, p: nat, y: nat, n: nat, u: bool, end: nat): Ram
    requires p < |r| && y < |r| && n < |r|
  {
    var q := r[y := Mem(n, p, false)][p := Mem(y, r[p].prev, u)];
    if n != end then SetPrev(q, n, y) else q
  }

  /** A stretch `m` that begins with block `x` becomes `x` and a free block at `y`. */
  lemma {:induction false} InsertLinks(r: Ram, h: Blocks, i: nat, m: Blocks, b: Blocks, u: bool, y: nat, n: nat,
                                       end: nat, hdr: nat)
    requires hdr > 0 && i < |h| && Tile(h, 0, end, hdr) && Linked(r, h, 0, end) && |r| == end + 1
    requires m != [] && h == h[..i] + m + b && n == First(b, end)
    requires h[i].start + hdr <= y < n <= end
    ensures h[i].start < n
    ensures Linked(Inserted(r, h[i].start, y, n, u, end), h[..i] + [Blk(h[i].start, u), Blk(y, false)] + b, 0, end)
  {
    var p, x, z := h[i].start, Blk(h[i].start, u), Blk(y, false);
    var q := Inserted(r, p, y, n, u, end);
    assert h[i] == m[0];
    LinkedAt(r, h, i, end);
    LinkedTwo(q, x, z, LastStart(h[..i], 0), n);
    InsertedOutside(r, p, y, n, u, end);
    EndIsLast(b, h, end, hdr);
    Relink(r, q, h[..i], m, [x, z], b, p, n, end, hdr);
  }

  lemma {:induction false} InsertedOutside(r: Ram, p: nat, y: nat, n: nat, u: bool, end: nat)
    requires p < y < n < |r|
    ensures Outside(r, Inserted(r, p, y, n, u, end), p, n)
  {
  }

  /** Blocks start below the end of the heap. */
  lemma EndIsLast(b: Blocks, h: Blocks, end: nat, hdr: nat)
    requires hdr > 0 && Tile(h, 0, end, hdr) && (forall x :: x in b ==> x in h)
    ensures b != [] ==> First(b, end) < end
  {
    TileRange(h, 0, end, hdr);
    if b != [] {
      assert b[0] in b;
    }
  }

  /** Freeing block `i` is marking it free and joining it with its free neighbours. */
  lemma FreedJoined(h: Blocks, g: Blocks, f: Blocks, i: nat)
    requires i < |h| && g == h[i := Blk(h[i].start, false)]
    requires f == if NextFree(g, i) then Joined(g, i) else g
    ensures |f| > i && (PrevFree(h, i) <==> i > 0 && !f[i - 1].used)
    ensures Freed(h, i) == if PrevFree(h, i) then Joined(f, i - 1) else f
  {
    var x, rest := Blk(h[i].start, false), h[MergeTo(h, i)..];
    assert f == h[..i] + [x] + rest;
    if PrevFree(h, i) {
      assert f[..i - 1] == h[..i - 1] && f[i + 1..] == rest;
    }
  }

  /** What holds of the list of blocks between two calls. */
  predicate Proper(s: Heap, c: Cfg) {
    c.Ok() && Sound(s, c) && Lowest(s.h, s.lfree, c.size) && Aligned(s.h, c.align)
  }

  lemma {:induction false} InitProper(r: Ram, c: Cfg)
    requires c.Ok() && |r| > 0 && r[0] == Mem(c.size, 0, false)
    ensures Linked(r, Init(c).h, 0, c.size)
    ensures Proper(Init(c), c)
  {
    LinkedOne(r, Blk(0, false), 0, c.size);
    InitSound(c);
  }

  lemma FreeProper(s: Heap, c: Cfg, i: nat)
    requires Proper(s, c) && i < |s.h| && s.h[i].used
    ensures Proper(Free(s, c, i), c)
  {
    FreeSound(s, c, i);
    FreeLow(s, c, i);
    FreeAligned(s.h, c, i);
  }

  lemma TrimProper(s: Heap, c: Cfg, i: nat, newsize: nat)
    requires Proper(s, c) && i < |s.h| && s.h[i].used && newsize % c.align == 0
    requires s.h[i].start + c.hdr + newsize <= NextOf(s.h, i, c.size)
    ensures Proper(Trim(s, c, i, newsize), c)
  {
    TrimSound(s, c, i, newsize);
    TrimLow(s, c, i, newsize);
    CutAligned(s.h, c, i, newsize);
  }

  lemma MallocProper(s: Heap, c: Cfg, size: nat)
    requires Proper(s, c) && size % c.align == 0
    ensures Proper(Malloc(s, c, size), c)
  {
    MallocOk(s, c, size);
    var i := FirstFit(s.h, c, size);
    if i < |s.h| {
      CutAligned(s.h, c, i, size);
    }
  }

  /** LWIP_MEM_ALIGN_SIZE. */
  function AlignUp(n: nat, a: nat): (r: nat)
    requires a > 0
    ensures n <= r < n + a && r % a == 0
  {
    MultipleAligned((n + a - 1) / a, a);
    (n + a - 1) / a * a
  }

  /** The size `mem_malloc` and `mem_trim` work with: the least aligned one that is enough. */
  function Request(c: Cfg, size: nat): (r: nat)
    requires c.Ok()
    ensures size <= r && c.min <= r && r % c.align == 0 && (r < size + c.align || r == c.min)
  {
    if AlignUp(size, c.align) < c.min then c.min else AlignUp(size, c.align)
  }

  /** The block handed out. */
  lemma MallocBlock(s: Heap, c: Cfg, size: nat, i: nat)
    requires Proper(s, c) && i == FirstFit(s.h, c, size) && i < |s.h| && size % c.align == 0
    ensures var r := Malloc(s, c, size);
            Index(r.h, s.h[i].start) == i && i < |r.h| && r.h[i].used && (s.h[i].start + c.hdr) % c.align == 0
  {
    CommitTiles(s, c, i, size);
    IndexOf(Malloc(s, c, size).h, i, c.size, c.hdr);
    assert s.h[i] in s.h;
    SumAligned(s.h[i].start, c.hdr, c.align);
  }

  /** No free block has room for `size` bytes, or the first one that has is handed out, and little more of it than
      that. */
  lemma MallocTight(s: Heap, c: Cfg, size: nat)
    requires c.Ok()
    ensures var i, r := FirstFit(s.h, c, size), Malloc(s, c, size);
            if forall j :: 0 <= j < |s.h| && !s.h[j].used ==> NextOf(s.h, j, c.size) < s.h[j].start + c.hdr + size
            then i == |s.h| && r == s
            else HandedOut(s.h, r.h, i, c, size) && r.used - s.used < size + 2 * c.hdr + c.min
                 && forall j :: 0 <= j < i && !s.h[j].used ==> NextOf(s.h, j, c.size) < s.h[j].start + c.hdr + size
  {
    FirstFitExact(s.h, c, size);
    if FirstFit(s.h, c, size) < |s.h| {
      CommitTight(s, c, FirstFit(s.h, c, size), size);
    }
  }

  /** The two ways in which a block gets smaller, and the one in which it does not. */
  lemma TrimShape(s: Heap, c: Cfg, i: nat, newsize: nat, n: nat, y: nat)
    requires i < |s.h| && n == NextOf(s.h, i, c.size) && y == s.h[i].start + c.hdr + newsize < n
    ensures var h, x, z := s.h, s.h[i], Blk(y, false);
            var r := Trim(s, c, i, newsize);
            if NextFree(h, i) then
              && h == h[..i] + [x, h[i + 1]] + h[i + 2..]
              && r == Heap(h[..i] + [x, z] + h[i + 2..], if s.lfree == n then y else s.lfree, s.used - (n - y))
            else if y + c.hdr + c.min <= n then
              && h == h[..i] + [x] + h[i + 1..]
              && r == Heap(h[..i] + [x, z] + h[i + 1..], if y < s.lfree then y else s.lfree, s.used - (n - y))
            else r == s
  {
    if Shrinks(s.h, i, c, newsize) {
      ShrunkShape(s.h, i, c, newsize);
    }
  }

  /** A `void *` into the heap, as an offset. */
  datatype Ptr = Null | At(offset: int)

  class MemHeap {
    const c: Cfg
    const ram: array<Mem>
    var lfree: nat
    var stat: int
    ghost var blocks: Blocks

    ghost function State(): Heap
      reads this
    {
      Heap(blocks, lfree, stat)
    }

    /** The memory holds the blocks, in order and linked both ways. */
    ghost predicate Formed()
      reads this, ram
    {
      && c.Ok() && ram.Length == c.size + 1
      && ram[c.size].used && ram[c.size].next == c.size
      && Tile(blocks, 0, c.size, c.hdr) && Linked(ram[..], blocks, 0, c.size)
    }

    ghost predicate Valid()
      reads this, ram
    {
      Formed() && Proper(State(), c)
    }

    /** A pointer that `mem_malloc` handed out and that was not freed since. */
    ghost predicate Allocated(p: Ptr)
      reads this
    {
      p.At? && Index(blocks, p.offset - c.hdr) < |blocks| && blocks[Index(blocks, p.offset - c.hdr)].used
    }

    /** `mem_init`. */
    constructor (c: Cfg)
      requires c.Ok()
      ensures Valid() && this.c == c && fresh(ram) && State() == Init(c)
    {
      this.c := c;
      var a := new Mem[c.size + 1](_ => Mem(0, 0, false));
      a[0] := Mem(c.size, 0, false);
      a[c.size] := Mem(c.size, c.size, true);
      ram := a;
      lfree, stat := 0, 0;
      blocks := [Blk(0, false)];
      new;
      InitProper(ram[..], c);
    }

    /** The forward half of `plug_holes`. */
    method PlugForward(mem: nat, ghost i: nat)
      requires Formed() && i < |blocks| && blocks[i] == Blk(mem, false)
      modifies this`lfree, this`blocks, ram
      ensures Formed()
      ensures blocks == if NextFree(old(blocks), i) then Joined(old(blocks), i) else old(blocks)
      ensures lfree == if NextFree(old(blocks), i) && old(lfree) == old(blocks)[i + 1].start then mem else old(lfree)
    {
      NextHeader(ram[..], blocks, i, c.size, c.hdr);
      var nmem := ram[mem].next;
      if mem != nmem && !ram[nmem].used && nmem != c.size {
        if lfree == nmem {
          lfree := mem;
        }
        ghost var r := ram[..];
        var n := ram[nmem].next;
        JoinLinks(r, blocks, i, n, c.size, c.hdr);
        ram[mem] := ram[mem].(next := n);
        ram[n] := ram[n].(prev := mem);
        blocks := Joined(blocks, i);
        assert ram[..] == SetPrev(r[mem := r[mem].(next := n)], n, mem);
      }
    }

    /** The backward half of `plug_holes`. */
    method PlugBackward(mem: nat, ghost i: nat)
      requires Formed() && i < |blocks| && blocks[i] == Blk(mem, false)
      modifies this`lfree, this`blocks, ram
      ensures Formed()
      ensures blocks == if PrevFree(old(blocks), i) then Joined(old(blocks), i - 1) else old(blocks)
      ensures lfree == if PrevFree(old(blocks), i) && old(lfree) == mem then old(blocks)[i - 1].start else old(lfree)
    {
      LinkedAt(ram[..], blocks, i, c.size);
      var pmem := ram[mem].prev;
      ghost var k := if i > 0 then i - 1 else i;
      LinkedAt(ram[..], blocks, k, c.size);
      BlocksEnd(blocks, k, c.size, c.hdr);
      assert i == 0 ==> mem == 0;
      if pmem != mem && !ram[pmem].used {
        if lfree == mem {
          lfree := pmem;
        }
        ghost var r := ram[..];
        var n := ram[mem].next;
        JoinLinks(r, blocks, k, n, c.size, c.hdr);
        ram[pmem] := ram[pmem].(next := n);
        ram[n] := ram[n].(prev := pmem);
        blocks := Joined(blocks, k);
        assert ram[..] == SetPrev(r[pmem := r[pmem].(next := n)], n, pmem);
      }
    }

    /** `plug_holes`, called for block `i` of `h`, which just became free. */
    method PlugHoles(mem: nat, ghost h: Blocks, ghost i: nat)
      requires Formed() && i < |h| && h[i].start == mem && blocks == h[i := Blk(mem, false)]
      modifies this`lfree, this`blocks, ram
      ensures Formed() && blocks == Freed(h, i)
      ensures lfree == PluggedLow(h, i, old(lfree))
    {
      ghost var g := blocks;
      PlugForward(mem, i);
      FreedJoined(h, g, blocks, i);
      PlugBackward(mem, i);
    }

    /** The block is marked unused and leaves the statistic. */
    method Release(mem: nat, ghost i: nat)
      requires Formed() && i < |blocks| && blocks[i].start == mem
      modifies this`stat, this`lfree, this`blocks, ram
      ensures Formed() && blocks == old(blocks)[i := Blk(mem, false)]
      ensures lfree == if mem < old(lfree) then mem else old(lfree)
      ensures stat == old(stat) - (NextOf(old(blocks), i, c.size) - mem)
    {
      ghost var r := ram[..];
      LinkedAt(r, blocks, i, c.size);
      BlocksEnd(blocks, i, c.size, c.hdr);
      MarkLinks(r, blocks, i, false, c.size, c.hdr);
      ram[mem] := ram[mem].(used := false);
      assert ram[..] == r[mem := r[mem].(used := false)];
      blocks := blocks[i := Blk(mem, false)];
      if mem < lfree {
        lfree := mem;
      }
      stat := stat - (ram[mem].next - mem);
    }

    /** `mem_free`: NULL and pointers outside the heap are ignored. */
    method MemFree(rmem: Ptr)
      requires Valid() && (rmem.At? && 0 <= rmem.offset < c.size ==> Allocated(rmem))
      modifies this, ram
      ensures Valid()
      ensures State() == if rmem.Null? || !(0 <= rmem.offset < c.size) then old(State())
                         else Free(old(State()), c, Index(old(blocks), rmem.offset - c.hdr))
    {
      if rmem.Null? || rmem.offset < 0 || rmem.offset >= c.size {
        return;
      }
      var mem := rmem.offset - c.hdr;
      ghost var s, i := State(), Index(blocks, mem);
      FreeProper(s, c, i);
      Release(mem, i);
      PlugHoles(mem, s.h, i);
    }

    /** The header of a free block is written at `y` and linked in behind block `i`, up to `n`. */
    method LinkAfter(mem: nat, u: bool, y: nat, n: nat, ghost i: nat, ghost m: Blocks, ghost b: Blocks)
      requires Formed() && i < |blocks| && blocks[i].start == mem
      requires m != [] && blocks == blocks[..i] + m + b && n == First(b, c.size)
      requires mem + c.hdr <= y && y + c.hdr <= n <= c.size
      modifies this`blocks, ram
      ensures Formed() && blocks == old(blocks)[..i] + [Blk(mem, u), Blk(y, false)] + b
    {
      ghost var r, h, x, z := ram[..], blocks, Blk(mem, u), Blk(y, false);
      InsertLinks(r, h, i, m, b, u, y, n, c.size, c.hdr);
      assert h[i] == m[0];
      Small(x, z, n, c.hdr);
      Replace(h[..i], m, [x, z], b, c.size, c.hdr);
      ram[y] := Mem(n, mem, false);
      ram[mem] := Mem(y, ram[mem].prev, u);
      if n != c.size {
        ram[n] := ram[n].(prev := y);
      }
      assert ram[..] == Inserted(r, mem, y, n, u, c.size);
      blocks := h[..i] + [x, z] + b;
    }

    /** The part of `mem_trim` under protection, for a block that is to become smaller. */
    method Shrink(mem: nat, newsize: nat, ghost i: nat)
      requires Formed() && Merged(blocks) && i < |blocks| && blocks[i] == Blk(mem, true)
      requires mem + c.hdr + newsize < NextOf(blocks, i, c.size)
      modifies this`lfree, this`stat, this`blocks, ram
      ensures Formed() && State() == Trim(old(State()), c, i, newsize)
    {
      ghost var h := blocks;
      NextHeader(ram[..], h, i, c.size, c.hdr);
      var mem2, ptr2 := ram[mem].next, mem + c.hdr + newsize;
      var size := mem2 - mem - c.hdr;
      TrimShape(State(), c, i, newsize, mem2, ptr2);
      if !ram[mem2].used {
        var next := ram[mem2].next;
        if lfree == mem2 {
          lfree := ptr2;
        }
        LinkAfter(mem, true, ptr2, next, i, [h[i], h[i + 1]], h[i + 2..]);
        stat := stat - (size - newsize);
      } else if newsize + c.hdr + c.min <= size {
        if ptr2 < lfree {
          lfree := ptr2;
        }
        LinkAfter(mem, true, ptr2, mem2, i, [h[i]], h[i + 1..]);
        stat := stat - (size - newsize);
      }
    }

    /** `mem_trim`: NULL for a request that would grow the block. */
    method MemTrim(rmem: Ptr, size: nat) returns (p: Ptr)
      requires Valid() && (rmem.At? && 0 <= rmem.offset < c.size ==> Allocated(rmem))
      modifies this, ram
      ensures Valid()
      ensures var n, i := Request(c, size), if rmem.At? then Index(old(blocks), rmem.offset - c.hdr) else 0;
              var legal := rmem.At? && 0 <= rmem.offset < c.size;
              if n > c.size || (legal && rmem.offset + n > NextOf(old(blocks), i, c.size))
              then p == Null && State() == old(State())
              else p == rmem && State() == if legal then Trim(old(State()), c, i, n) else old(State())
      ensures var n, i := Request(c, size), if rmem.At? then Index(old(blocks), rmem.offset - c.hdr) else 0;
              rmem.At? && 0 <= rmem.offset < c.size && p.At? ==>
                && Shortened(old(blocks), blocks, i, c, n)
                && n <= NextOf(blocks, i, c.size) - rmem.offset < n + c.hdr + c.min
    {
      var n := Request(c, size);
      if n > c.size {
        return Null;
      }
      if rmem.Null? || rmem.offset < 0 || rmem.offset >= c.size {
        return rmem;
      }
      var mem := rmem.offset - c.hdr;
      ghost var s, i := State(), Index(blocks, mem);
      LinkedAt(ram[..], blocks, i, c.size);
      var had := ram[mem].next - mem - c.hdr;
      if n > had {
        return Null;
      }
      TrimProper(s, c, i, n);
      TrimTight(s, c, i, n);
      if n < had {
        Shrink(mem, n, i);
      }
      return rmem;
    }

    /** Marks block `i` used, with the remainder split off where it is large enough. */
    method Take(mem: nat, size: nat, ghost i: nat)
      requires Formed() && i < |blocks| && blocks[i].start == mem && BlockFits(blocks, i, c, size)
      modifies this`stat, this`blocks, ram
      ensures Formed() && State() == Commit(old(State()), c, i, size)
    {
      ghost var h, r := blocks, ram[..];
      LinkedAt(r, h, i, c.size);
      BlocksEnd(h, i, c.size, c.hdr);
      TakenShape(h, i, c, size);
      if ram[mem].next - (mem + c.hdr) >= size + c.hdr + c.min {
        LinkAfter(mem, true, mem + c.hdr + size, ram[mem].next, i, [h[i]], h[i + 1..]);
        stat := stat + (size + c.hdr);
      } else {
        MarkLinks(r, h, i, true, c.size, c.hdr);
        ram[mem] := ram[mem].(used := true);
        assert ram[..] == r[mem := r[mem].(used := true)];
        blocks := h[i := Blk(mem, true)];
        stat := stat + (ram[mem].next - mem);
      }
    }

    /** Finds the next free block and makes it the lowest one. */
    method AdjustLfree(ghost i: nat)
      requires Formed() && i < |blocks| && blocks[i].start == lfree
      modifies this`lfree
      ensures Formed() && lfree == FirstFreeFrom(blocks, i, c.size)
    {
      var cur := lfree;
      ghost var j := i;
      LinkedAt(ram[..], blocks, i, c.size);
      BlocksEnd(blocks, i, c.size, c.hdr);
      while ram[cur].used && cur != c.size
        invariant j <= |blocks| && cur == (if j < |blocks| then blocks[j].start else c.size) <= c.size
        invariant cur < c.size <==> j < |blocks|
        invariant j < |blocks| ==> ram[cur] == Mem(NextOf(blocks, j, c.size), ram[cur].prev, blocks[j].used)
        invariant FirstFreeFrom(blocks, i, c.size) == FirstFreeFrom(blocks, j, c.size)
        decreases |blocks| - j
      {
        BlocksEnd(blocks, j, c.size, c.hdr);
        j := j + 1;
        cur := ram[cur].next;
        if j < |blocks| {
          LinkedAt(ram[..], blocks, j, c.size);
          BlocksEnd(blocks, j, c.size, c.hdr);
        }
      }
      lfree := cur;
    }

    /** The scan of `mem_malloc` from the lowest free block. */
    method Scan(size: nat) returns (ptr: nat, fits: bool, ghost i: nat)
      requires Valid() && size <= c.size
      ensures i == FirstFit(blocks, c, size)
      ensures fits <==> i < |blocks|
      ensures fits ==> ptr == blocks[i].start
    {
      ptr := lfree;
      i := ScanStart(State(), c, size);
      ghost var h := blocks;
      while ptr < c.size - size
        invariant NoneFits(h, i, c, size) && ptr == First(h[i..], c.size)
        decreases |h| - i
      {
        LinkedAt(ram[..], h, i, c.size);
        ScanStep(h, i, c, size);
        if !ram[ptr].used && ram[ptr].next - (ptr + c.hdr) >= size {
          return ptr, true, i;
        }
        ptr, i := ram[ptr].next, i + 1;
      }
      ScanEnd(h, i, c, size);
      return ptr, false, |blocks|;
    }

    /** What `mem_malloc` does with the block it found. */
    method Allocate(ptr: nat, size: nat, ghost i: nat)
      requires Valid() && size % c.align == 0 && i == FirstFit(blocks, c, size) && i < |blocks|
               && blocks[i].start == ptr
      modifies this`stat, this`lfree, this`blocks, ram
      ensures Valid() && State() == Malloc(old(State()), c, size)
    {
      MallocProper(State(), c, size);
      Take(ptr, size, i);
      if ptr == lfree {
        AdjustLfree(i);
      }
    }

    /** `mem_malloc` for an aligned size. */
    method MallocAligned(size: nat) returns (p: Ptr)
      requires Valid() && size % c.align == 0
      modifies this, ram
      ensures Valid()
      ensures var i := FirstFit(old(blocks), c, size);
              if i == |old(blocks)| then p == Null && State() == old(State())
              else p == At(old(blocks)[i].start + c.hdr) && p.offset % c.align == 0 && Allocated(p)
                   && State() == Malloc(old(State()), c, size)
    {
      if size > c.size {
        ScanEnd(blocks, 0, c, size);
        return Null;
      }
      var ptr, fits, i := Scan(size);
      if !fits {
        return Null;
      }
      MallocBlock(State(), c, size, i);
      Allocate(ptr, size, i);
      return At(ptr + c.hdr);
    }

    /** `mem_malloc`: exactly the first fit of a scan over the whole heap, and NULL only when there
        is none; the pointer is aligned. */
    method MemMalloc(wanted: nat) returns (p: Ptr)
      requires Valid()
      modifies this, ram
      ensures Valid()
      ensures var i := FirstFit(old(blocks), c, Request(c, wanted));
              if wanted == 0 || i == |old(blocks)| then p == Null && State() == old(State())
              else p == At(old(blocks)[i].start + c.hdr) && p.offset % c.align == 0 && Allocated(p)
                   && State() == Malloc(old(State()), c, Request(c, wanted))
      ensures var i, n := FirstFit(old(blocks), c, Request(c, wanted)), Request(c, wanted);
              if p.Null?
              then wanted == 0 || forall j :: 0 <= j < |blocks| && !blocks[j].used ==>
                     NextOf(blocks, j, c.size) < blocks[j].start + c.hdr + n
              else HandedOut(old(blocks), blocks, i, c, n) && stat - old(stat) < n + 2 * c.hdr + c.min
    {
      if wanted == 0 {
        return Null;
      }
      MallocTight(State(), c, Request(c, wanted));
      p := MallocAligned(Request(c, wanted));
    }
  }
}
