/**
 The heap of mem.c (the variant without pools) as the list of its blocks, with the
 operations of `mem_malloc`, `mem_free` and `mem_trim` on that list and what they
 keep.  `HeapArray` holds the in-place code, `HeapInterrupted` the variant in which
 frees interrupt an allocation.
 */
module HeapModel {

  /** MEM_SIZE_ALIGNED, SIZEOF_STRUCT_MEM, MIN_SIZE_ALIGNED and MEM_ALIGNMENT. */
  datatype Cfg = Cfg(size: nat, hdr: nat, min: nat, align: nat) {
    predicate Ok() {
      && 0 < hdr <= size && 0 < align
      && size % align == 0 && hdr % align == 0 && min % align == 0
    }
  }

  /** A `struct mem` at offset `start`; the block reaches up to the next one. */
  datatype Blk = Blk(start: nat, used: bool)

  type Blocks = seq<Blk>

  /** Where the block before `h` ends. */
  function First(h: Blocks, end: nat): nat { if h == [] then end else h[0].start }

  /** Where block `i` ends. */
  function NextOf(h: Blocks, i: nat, end: nat): nat
    requires i < |h|
  {
    if i + 1 < |h| then h[i + 1].start else end
  }

  // ----- well-formedness -----

  /** The blocks tile the range from `lo` to `end`, each with room for its header. */
  predicate Tile(h: Blocks, lo: nat, end: nat, hdr: nat) {
    if h == [] then lo == end
    else h[0].start == lo && lo + hdr <= First(h[1..], end) && Tile(h[1..], First(h[1..], end), end, hdr)
  }

  /** No two adjacent blocks are free. */
  predicate Merged(h: Blocks) {
    |h| < 2 || ((h[0].used || h[1].used) && Merged(h[1..]))
  }

  predicate AllUsed(h: Blocks) { forall b :: b in h ==> b.used }

  /** No free block lies below `lfree`. */
  predicate NoneBelow(h: Blocks, lfree: nat) { forall b :: b in h && !b.used ==> lfree <= b.start }

  /** `lfree` is a block or the end of the heap. */
  predicate Points(h: Blocks, lfree: nat, end: nat) { lfree == end || Blk(lfree, true) in h || Blk(lfree, false) in h }

  /** `lfree` is the lowest free block, or the end if there is none. */
  predicate Lowest(h: Blocks, lfree: nat, end: nat) {
    NoneBelow(h, lfree) && (if lfree == end then AllUsed(h) else Blk(lfree, false) in h)
  }

  /** The extents of the used blocks. */
  function Used(h: Blocks, end: nat): set<(nat, nat)> {
    if h == [] then {} else
    (if h[0].used then {(h[0].start, First(h[1..], end))} else {}) + Used(h[1..], end)
  }

  /** Their total. */
  function UsedBytes(h: Blocks, end: nat): int {
    if h == [] then 0 else
    (if h[0].used then First(h[1..], end) - h[0].start else 0) + UsedBytes(h[1..], end)
  }

  // ----- concatenation -----

  lemma {:induction false} TileConcat(a: Blocks, b: Blocks, lo: nat, end: nat, hdr: nat)
    ensures Tile(a + b, lo, end, hdr) <==> Tile(a, lo, First(b, end), hdr) && (Tile(b, First(b, end), end, hdr))
  {
    if a == [] {
      assert a + b == b;
    } else {
      assert (a + b)[1..] == a[1..] + b;
      TileConcat(a[1..], b, First(a[1..] + b, end), end, hdr);
    }
  }

  lemma {:induction false} MergedConcat(a: Blocks, b: Blocks)
    ensures Merged(a + b) <==> Merged(a) && Merged(b) && (a != [] && b != [] ==> a[|a| - 1].used || b[0].used)
  {
    if a == [] {
      assert a + b == b;
    } else {
      assert (a + b)[1..] == a[1..] + b;
      MergedConcat(a[1..], b);
    }
  }

  lemma {:induction false} UsedConcat(a: Blocks, b: Blocks, end: nat)
    ensures Used(a + b, end) == Used(a, First(b, end)) + Used(b, end)
    ensures UsedBytes(a + b, end) == UsedBytes(a, First(b, end)) + UsedBytes(b, end)
  {
    if a == [] {
      assert a + b == b;
    } else {
      assert (a + b)[1..] == a[1..] + b;
      UsedConcat(a[1..], b, end);
    }
  }

  /** Blocks of a tiling lie in its range, in order. */
  lemma {:induction false} TileRange(h: Blocks, lo: nat, end: nat, hdr: nat)
    requires Tile(h, lo, end, hdr) && hdr > 0
    ensures lo <= end && (h != [] ==> lo < end)
    ensures forall b :: b in h ==> lo <= b.start && b.start + hdr <= end
    ensures forall e :: e in Used(h, end) ==> lo <= e.0 && e.0 + hdr <= e.1 <= end
  {
    if h != [] {
      TileRange(h[1..], First(h[1..], end), end, hdr);
    }
  }

  /** The used extents are pairwise disjoint. */
  lemma {:induction false} UsedDisjoint(h: Blocks, lo: nat, end: nat, hdr: nat)
    requires Tile(h, lo, end, hdr) && hdr > 0
    ensures forall e, f :: e in Used(h, end) && f in Used(h, end) && e != f ==> e.1 <= f.0 || f.1 <= e.0
  {
    if h != [] {
      TileRange(h[1..], First(h[1..], end), end, hdr);
      UsedDisjoint(h[1..], First(h[1..], end), end, hdr);
    }
  }

  /** A stretch `m` of blocks inside a heap, between `a` and `b`. */
  lemma Middle(a: Blocks, m: Blocks, b: Blocks, end: nat, hdr: nat)
    requires m != []
    ensures var h, lo, hi := a + m + b, m[0].start, First(b, end);
            && (Tile(h, 0, end, hdr) <==> Tile(a, 0, lo, hdr) && Tile(m, lo, hi, hdr) && Tile(b, hi, end, hdr))
            && Used(h, end) == Used(a, lo) + Used(m, hi) + Used(b, end)
            && UsedBytes(h, end) == UsedBytes(a, lo) + UsedBytes(m, hi) + UsedBytes(b, end)
  {
    TileConcat(a + m, b, 0, end, hdr);
    TileConcat(a, m, 0, First(b, end), hdr);
    UsedConcat(a + m, b, end);
    UsedConcat(a, m, First(b, end));
  }

  lemma MiddleMerged(a: Blocks, m: Blocks, b: Blocks)
    requires m != []
    ensures Merged(a + m + b) <==>
            && Merged(a) && Merged(m) && Merged(b)
            && (a != [] ==> a[|a| - 1].used || m[0].used)
            && (b != [] ==> m[|m| - 1].used || b[0].used)
  {
    MergedConcat(a + m, b);
    MergedConcat(a, m);
  }

  /** Single blocks and pairs, spelled out. */
  lemma Small(x: Blk, y: Blk, hi: nat, hdr: nat)
    ensures Tile([x], x.start, hi, hdr) <==> x.start + hdr <= hi
    ensures Used([x], hi) == (if x.used then {(x.start, hi)} else {})
    ensures UsedBytes([x], hi) == (if x.used then hi - x.start else 0)
    ensures Tile([x, y], x.start, hi, hdr) <==> x.start + hdr <= y.start && y.start + hdr <= hi
    ensures Used([x, y], hi) == (if x.used then {(x.start, y.start)} else {}) + (if y.used then {(y.start, hi)} else {})
    ensures UsedBytes([x, y], hi) == (if x.used then y.start - x.start else 0) + (if y.used then hi - y.start else 0)
  {
    assert [x][1..] == [] && [x, y][1..] == [y] && [y][1..] == [];
  }

  /** Replacing a stretch by another one over the same range changes only its own extents. */
  lemma Replace(a: Blocks, m: Blocks, m': Blocks, b: Blocks, end: nat, hdr: nat)
    requires m != [] && m' != [] && hdr > 0 && Tile(a + m + b, 0, end, hdr)
    requires m'[0].start == m[0].start && Tile(m', m[0].start, First(b, end), hdr)
    ensures Tile(a + m' + b, 0, end, hdr)
    ensures Used(a + m' + b, end) == Used(a + m + b, end) - Used(m, First(b, end)) + Used(m', First(b, end))
    ensures UsedBytes(a + m' + b, end) ==
            UsedBytes(a + m + b, end) - UsedBytes(m, First(b, end)) + UsedBytes(m', First(b, end))
  {
    var lo, hi := m[0].start, First(b, end);
    Middle(a, m, b, end, hdr);
    Middle(a, m', b, end, hdr);
    TileRange(a, 0, lo, hdr);
    TileRange(m, lo, hi, hdr);
    TileRange(b, hi, end, hdr);
    assert Used(a, lo) !! Used(m, hi) && Used(m, hi) !! Used(b, end);
  }

  // ===== operations =====

  /** The heap with the lowest-free hint `lfree` and the statistic `used`. */
  datatype Heap = Heap(h: Blocks, lfree: nat, used: int)

  /** What holds at every moment the heap is not locked. */
  predicate Sound(s: Heap, c: Cfg) {
    && Tile(s.h, 0, c.size, c.hdr) && Merged(s.h)
    && NoneBelow(s.h, s.lfree) && Points(s.h, s.lfree, c.size)
    && s.used == UsedBytes(s.h, c.size)
  }

  function Init(c: Cfg): Heap { Heap([Blk(0, false)], 0, 0) }

  lemma InitSound(c: Cfg)
    requires c.Ok()
    ensures Sound(Init(c), c) && Lowest(Init(c).h, Init(c).lfree, c.size)
  {
    assert [Blk(0, false)][1..] == [];
  }

  // ----- mem_free -----

  predicate NextFree(h: Blocks, i: nat) { i + 1 < |h| && !h[i + 1].used }
  predicate PrevFree(h: Blocks, i: nat) { 0 < i <= |h| && !h[i - 1].used }

  /** The stretch that becomes one free block when block `i` is freed. */
  function MergeFrom(h: Blocks, i: nat): nat { if PrevFree(h, i) then i - 1 else i }
  function MergeTo(h: Blocks, i: nat): nat { if NextFree(h, i) then i + 2 else i + 1 }

  /** Block `i` freed and merged with its free neighbours. */
  function Freed(h: Blocks, i: nat): Blocks
    requires i < |h|
  {
    h[..MergeFrom(h, i)] + [Blk(h[MergeFrom(h, i)].start, false)] + h[MergeTo(h, i)..]
  }

  /** `lfree` after `plug_holes`. */
  function PluggedLow(h: Blocks, i: nat, lfree: nat): nat
    requires i < |h|
  {
    var k := if NextFree(h, i) && lfree == h[i + 1].start then h[i].start else lfree;
    if PrevFree(h, i) && k == h[i].start then h[i - 1].start else k
  }

  /** `lfree` after `mem_free`. */
  function FreedLow(h: Blocks, i: nat, lfree: nat): nat
    requires i < |h|
  {
    PluggedLow(h, i, if h[i].start < lfree then h[i].start else lfree)
  }

  function Free(s: Heap, c: Cfg, i: nat): Heap
    requires i < |s.h|
  {
    Heap(Freed(s.h, i), FreedLow(s.h, i, s.lfree), s.used - (NextOf(s.h, i, c.size) - s.h[i].start))
  }

  /** The freed stretch: one used block between free ones, all merged. */
  lemma {:induction false} FreedStretch(h: Blocks, i: nat, end: nat, hdr: nat)
    requires i < |h| && h[i].used && Tile(h, 0, end, hdr) && Merged(h)
    ensures var p, q := MergeFrom(h, i), MergeTo(h, i);
            var m, hi := h[p..q], First(h[q..], end);
            && h == h[..p] + m + h[q..] && m != []
            && Used(m, hi) == {(h[i].start, NextOf(h, i, end))}
            && UsedBytes(m, hi) == NextOf(h, i, end) - h[i].start
            && (p > 0 ==> h[p - 1].used) && (q < |h| ==> h[q].used)
  {
    var p, q := MergeFrom(h, i), MergeTo(h, i);
    var m, hi := h[p..q], First(h[q..], end);
    assert h == h[..p] + m + h[q..];
    Small(h[i], if q == i + 2 then h[i + 1] else h[i], hi, hdr);
    assert m == (if p < i then [h[p]] else []) + h[i..q];
    assert h[i..q] == if q == i + 2 then [h[i], h[i + 1]] else [h[i]];
    if p < i {
      assert m[1..] == h[i..q];
    }
    NeighboursUsed(h, i);
  }

  /** In a merged heap the neighbours of a free block are used. */
  lemma NeighboursUsed(h: Blocks, i: nat)
    requires i < |h| && Merged(h)
    ensures PrevFree(h, i) && i > 1 ==> h[i - 2].used
    ensures NextFree(h, i) && i + 2 < |h| ==> h[i + 2].used
  {
    if PrevFree(h, i) && i > 1 {
      assert h == h[..i - 1] + h[i - 1..];
      MergedConcat(h[..i - 1], h[i - 1..]);
    }
    if NextFree(h, i) && i + 2 < |h| {
      assert h == h[..i + 2] + h[i + 2..];
      MergedConcat(h[..i + 2], h[i + 2..]);
    }
  }

  /** Freeing gives back exactly the block's extent and leaves every other used block alone;
      the heap stays tiled. */
  lemma {:induction false} FreeTiles(s: Heap, c: Cfg, i: nat)
    requires c.Ok() && Sound(s, c) && i < |s.h| && s.h[i].used
    ensures var r := Free(s, c, i);
            && Tile(r.h, 0, c.size, c.hdr)
            && Used(r.h, c.size) == Used(s.h, c.size) - {(s.h[i].start, NextOf(s.h, i, c.size))}
            && r.used == UsedBytes(r.h, c.size)
  {
    FreedStretch(s.h, i, c.size, c.hdr);
    GiveBack(s.h, MergeFrom(s.h, i), MergeTo(s.h, i), (s.h[i].start, NextOf(s.h, i, c.size)), c.size, c.hdr);
  }

  /** A stretch in which only the extent `e` is used becomes one free block. */
  lemma {:induction false} GiveBack(h: Blocks, p: nat, q: nat, e: (nat, nat), end: nat, hdr: nat)
    requires p < q <= |h| && Tile(h, 0, end, hdr) && hdr > 0
    requires Used(h[p..q], First(h[q..], end)) == {e} && UsedBytes(h[p..q], First(h[q..], end)) == e.1 - e.0
    ensures var f := h[..p] + [Blk(h[p].start, false)] + h[q..];
            && Tile(f, 0, end, hdr) && Used(f, end) == Used(h, end) - {e}
            && UsedBytes(f, end) == UsedBytes(h, end) - (e.1 - e.0)
  {
    var x := Blk(h[p].start, false);
    assert h == h[..p] + h[p..q] + h[q..];
    StretchRange(h, p, q, end, hdr);
    Small(x, x, First(h[q..], end), hdr);
    Replace(h[..p], h[p..q], [x], h[q..], end, hdr);
  }

  lemma StretchRange(h: Blocks, p: nat, q: nat, end: nat, hdr: nat)
    requires p < q <= |h| && Tile(h, 0, end, hdr) && hdr > 0
    ensures h[p].start + hdr <= First(h[q..], end)
  {
    assert h == h[..p] + h[p..q] + h[q..];
    Middle(h[..p], h[p..q], h[q..], end, hdr);
    TileRange(h[p..q], h[p].start, First(h[q..], end), hdr);
    assert h[p..q][0] in h[p..q];
  }

  lemma FreeMerged(h: Blocks, i: nat, end: nat, hdr: nat)
    requires i < |h| && h[i].used && Tile(h, 0, end, hdr) && Merged(h)
    ensures Merged(Freed(h, i))
  {
    var p, q := MergeFrom(h, i), MergeTo(h, i);
    FreedStretch(h, i, end, hdr);
    MiddleMerged(h[..p], h[p..q], h[q..]);
    MiddleMerged(h[..p], [Blk(h[p].start, false)], h[q..]);
  }

  /** Earlier blocks start earlier. */
  lemma StartsIncrease(h: Blocks, i: nat, j: nat, end: nat, hdr: nat)
    requires Tile(h, 0, end, hdr) && hdr > 0 && i < j < |h|
    ensures h[i].start < h[j].start < end
  {
    assert h == h[..j] + h[j..];
    TileConcat(h[..j], h[j..], 0, end, hdr);
    TileRange(h[..j], 0, h[j].start, hdr);
    TileRange(h[j..], h[j].start, end, hdr);
    assert h[..j][i] in h[..j];
  }

  /** The hint stays below every free block, and exact if it was. */
  lemma FreeLow(s: Heap, c: Cfg, i: nat)
    requires c.Ok() && Sound(s, c) && i < |s.h| && s.h[i].used
    ensures var r := Free(s, c, i);
            && NoneBelow(r.h, r.lfree) && Points(r.h, r.lfree, c.size)
            && (Lowest(s.h, s.lfree, c.size) ==> Lowest(r.h, r.lfree, c.size))
  {
    var h, p, q := s.h, MergeFrom(s.h, i), MergeTo(s.h, i);
    var r := Free(s, c, i);
    var x := Blk(h[p].start, false);
    assert h[i].start < c.size && (p < i ==> h[p].start < h[i].start)
           && (q == i + 2 ==> h[i].start < h[i + 1].start) by {
      TileRange(h, 0, c.size, c.hdr);
      assert h[i] in h;
      if p < i { StartsIncrease(h, p, i, c.size, c.hdr); }
      if q == i + 2 { StartsIncrease(h, i, i + 1, c.size, c.hdr); }
    }
    assert p < i ==> h[p] in h;
    assert q == i + 2 ==> h[i + 1] in h;
    FreedMembers(h, i);
    assert r.lfree == if x.start < s.lfree then x.start else s.lfree;
  }

  /** What is in the heap after a free. */
  lemma FreedMembers(h: Blocks, i: nat)
    requires i < |h|
    ensures var p, q := MergeFrom(h, i), MergeTo(h, i);
            && Blk(h[p].start, false) in Freed(h, i)
            && (forall b :: b in Freed(h, i) ==> b in h || b == Blk(h[p].start, false))
            && (forall b :: b in h && b != h[i] && (q == i + 2 ==> b != h[i + 1]) ==> b in Freed(h, i))
  {
    var p, q, f := MergeFrom(h, i), MergeTo(h, i), Freed(h, i);
    assert f[p] == Blk(h[p].start, false);
    forall b | b in h && b != h[i] && (q == i + 2 ==> b != h[i + 1]) ensures b in f {
      var j :| 0 <= j < |h| && h[j] == b;
      if j < p {
        assert f[j] == b;
      } else if j >= q {
        assert f[p + 1 + j - q] == b;
      } else {
        assert j == p && f[p] == b;
      }
    }
  }

  // ----- mem_malloc -----

  predicate BlockFits(h: Blocks, i: nat, c: Cfg, size: nat)
    requires i < |h|
  {
    !h[i].used && NextOf(h, i, c.size) - (h[i].start + c.hdr) >= size
  }

  /** The first block that fits, in a scan over the whole heap; `|h|` if none does. */
  function FirstFit(h: Blocks, c: Cfg, size: nat): (i: nat)
    ensures i <= |h|
    ensures i < |h| ==> BlockFits(h, i, c, size)
    ensures forall j :: 0 <= j < i ==> !BlockFits(h, j, c, size)
  {
    FirstFitFrom(h, 0, c, size)
  }

  function FirstFitFrom(h: Blocks, from: nat, c: Cfg, size: nat): (i: nat)
    requires from <= |h|
    ensures from <= i <= |h|
    ensures i < |h| ==> BlockFits(h, i, c, size)
    ensures forall j :: from <= j < i ==> !BlockFits(h, j, c, size)
    decreases |h| - from
  {
    if from == |h| || BlockFits(h, from, c, size) then from else FirstFitFrom(h, from + 1, c, size)
  }

  /** The remainder of the block can hold another header and `min` bytes. */
  predicate Splits(h: Blocks, i: nat, c: Cfg, size: nat)
    requires i < |h|
  {
    NextOf(h, i, c.size) - (h[i].start + c.hdr) >= size + c.hdr + c.min
  }

  /** Block `i` taken for `size` bytes. */
  function Taken(h: Blocks, i: nat, c: Cfg, size: nat): Blocks
    requires i < |h|
  {
    if Splits(h, i, c, size)
    then h[..i] + [Blk(h[i].start, true), Blk(h[i].start + c.hdr + size, false)] + h[i + 1..]
    else h[i := Blk(h[i].start, true)]
  }

  /** Commit of block `i`; the hint is adjusted afterwards. */
  function Commit(s: Heap, c: Cfg, i: nat, size: nat): Heap
    requires i < |s.h|
  {
    var h := Taken(s.h, i, c, size);
    s.(h := h, used := s.used + (NextOf(h, i, c.size) - h[i].start))
  }

  /** The first free block from `from` on. */
  function FirstFreeFrom(h: Blocks, from: nat, end: nat): nat
    decreases |h| - from
  {
    if from >= |h| then end else if !h[from].used then h[from].start else FirstFreeFrom(h, from + 1, end)
  }

  function Malloc(s: Heap, c: Cfg, size: nat): Heap {
    var i := FirstFit(s.h, c, size);
    if i == |s.h| then s
    else
      var r := Commit(s, c, i, size);
      if r.h[i].start == s.lfree then r.(lfree := FirstFreeFrom(r.h, i, c.size)) else r
  }

  /** What replaces block `i`. */
  function TakenBlocks(h: Blocks, i: nat, c: Cfg, size: nat): Blocks
    requires i < |h|
  {
    if Splits(h, i, c, size) then [Blk(h[i].start, true), Blk(h[i].start + c.hdr + size, false)]
      else [Blk(h[i].start, true)]
  }

  lemma TakenShape(h: Blocks, i: nat, c: Cfg, size: nat)
    requires i < |h|
    ensures h == h[..i] + [h[i]] + h[i + 1..]
    ensures Taken(h, i, c, size) == h[..i] + TakenBlocks(h, i, c, size) + h[i + 1..]
  {
  }

  /** A commit takes a block of at least `size` bytes out of free space, and nothing else. */
  lemma CommitTiles(s: Heap, c: Cfg, i: nat, size: nat)
    requires c.Ok() && Sound(s, c) && i < |s.h| && BlockFits(s.h, i, c, size)
    ensures var r := Commit(s, c, i, size);
            && Tile(r.h, 0, c.size, c.hdr)
            && r.h[i] == Blk(s.h[i].start, true)
            && size <= NextOf(r.h, i, c.size) - (r.h[i].start + c.hdr) < size + c.hdr + c.min
            && Used(r.h, c.size) == Used(s.h, c.size) + {(r.h[i].start, NextOf(r.h, i, c.size))}
            && r.used == UsedBytes(r.h, c.size)
  {
    var h, m, hi := s.h, TakenBlocks(s.h, i, c, size), NextOf(s.h, i, c.size);
    TakenShape(h, i, c, size);
    Small(h[i], h[i], hi, c.hdr);
    Small(m[0], m[|m| - 1], hi, c.hdr);
    Replace(h[..i], [h[i]], m, h[i + 1..], c.size, c.hdr);
  }

  /** Free block `i` of `h`, handed out for `size` bytes, leaves `f`.  The block has room for the request and less to
      spare than a block of its own would need; what it had beyond that is one free block behind it. */
  predicate HandedOut(h: Blocks, f: Blocks, i: nat, c: Cfg, size: nat) {
    && i < |h| && i < |f| && !h[i].used && f[i] == Blk(h[i].start, true) && f[..i] == h[..i]
    && var had := NextOf(h, i, c.size) - (h[i].start + c.hdr);
       var got := NextOf(f, i, c.size) - (f[i].start + c.hdr);
       && size <= got < size + c.hdr + c.min
       && if had < size + c.hdr + c.min then got == had && f[i + 1..] == h[i + 1..]
          else got == size && |f| == |h| + 1 && !f[i + 1].used && f[i + 2..] == h[i + 1..]
  }

  /** What an allocation takes, told by sizes alone. */
  lemma {:induction false} CommitTight(s: Heap, c: Cfg, i: nat, size: nat)
    requires c.Ok() && i < |s.h| && BlockFits(s.h, i, c, size)
    ensures var r := Commit(s, c, i, size);
            && HandedOut(s.h, r.h, i, c, size)
            && r.lfree == s.lfree && size + c.hdr <= r.used - s.used < size + 2 * c.hdr + c.min
            && r.used - s.used == NextOf(r.h, i, c.size) - s.h[i].start
  {
    TakenShape(s.h, i, c, size);
  }

  /** The search finds the first free block with room for a header and `size` bytes, and the end only if there is
      none. */
  lemma {:induction false} FirstFitExact(h: Blocks, c: Cfg, size: nat)
    ensures var i := FirstFit(h, c, size);
            && i <= |h| && (i < |h| ==> !h[i].used && h[i].start + c.hdr + size <= NextOf(h, i, c.size))
            && forall j :: 0 <= j < i && !h[j].used ==> NextOf(h, j, c.size) < h[j].start + c.hdr + size
  {
    forall j | 0 <= j < FirstFit(h, c, size) && !h[j].used
      ensures NextOf(h, j, c.size) < h[j].start + c.hdr + size
    {
      assert !BlockFits(h, j, c, size);
    }
  }

  lemma CommitMerged(h: Blocks, c: Cfg, i: nat, size: nat)
    requires i < |h| && Merged(h) && BlockFits(h, i, c, size)
    ensures Merged(Taken(h, i, c, size))
  {
    var m := TakenBlocks(h, i, c, size);
    TakenShape(h, i, c, size);
    MiddleMerged(h[..i], [h[i]], h[i + 1..]);
    MiddleMerged(h[..i], m, h[i + 1..]);
    assert |m| == 2 ==> m[1..] == [m[1]];
  }

  lemma CommitLow(s: Heap, c: Cfg, i: nat, size: nat)
    requires c.Ok() && Sound(s, c) && i < |s.h| && BlockFits(s.h, i, c, size)
    ensures var r := Commit(s, c, i, size); NoneBelow(r.h, r.lfree) && Points(r.h, r.lfree, c.size)
  {
    var h, m, r := s.h, TakenBlocks(s.h, i, c, size), Commit(s, c, i, size);
    TakenShape(h, i, c, size);
    assert h[i] in h;
    assert forall b :: b in r.h ==> b in h || b in m;
    assert m[0] in r.h;
    forall b | b in h && b != h[i] ensures b in r.h {
      assert b in h[..i] || b in h[i + 1..];
    }
  }

  lemma CommitSound(s: Heap, c: Cfg, i: nat, size: nat)
    requires c.Ok() && Sound(s, c) && i < |s.h| && BlockFits(s.h, i, c, size)
    ensures Sound(Commit(s, c, i, size), c)
  {
    CommitTiles(s, c, i, size);
    CommitMerged(s.h, c, i, size);
    CommitLow(s, c, i, size);
  }

  lemma FreeSound(s: Heap, c: Cfg, i: nat)
    requires c.Ok() && Sound(s, c) && i < |s.h| && s.h[i].used
    ensures Sound(Free(s, c, i), c)
  {
    FreeTiles(s, c, i);
    FreeMerged(s.h, i, c.size, c.hdr);
    FreeLow(s, c, i);
  }

  // ----- the hint after an allocation -----

  lemma {:induction false} FirstFreeLowest(h: Blocks, from: nat, c: Cfg)
    requires c.Ok() && Tile(h, 0, c.size, c.hdr) && from <= |h|
    requires forall j :: 0 <= j < from ==> h[j].used
    ensures Lowest(h, FirstFreeFrom(h, from, c.size), c.size)
    decreases |h| - from
  {
    if from < |h| && h[from].used {
      FirstFreeLowest(h, from + 1, c);
    } else if from < |h| {
      TileRange(h, 0, c.size, c.hdr);
      assert h[from] in h;
      forall b | b in h && !b.used ensures h[from].start <= b.start {
        var j :| 0 <= j < |h| && h[j] == b;
        if j > from {
          StartsIncrease(h, from, j, c.size, c.hdr);
        }
      }
    } else {
      forall b | b in h ensures b.used {
        var j :| 0 <= j < |h| && h[j] == b;
      }
    }
  }

  /** Everything below the hint is in use. */
  lemma BelowUsed(h: Blocks, i: nat, lfree: nat, c: Cfg)
    requires c.Ok() && Tile(h, 0, c.size, c.hdr) && NoneBelow(h, lfree) && i < |h| && h[i].start == lfree
    ensures forall j :: 0 <= j < i ==> h[j].used
  {
    forall j | 0 <= j < i ensures h[j].used {
      StartsIncrease(h, j, i, c.size, c.hdr);
      assert h[j] in h;
    }
  }

  /** `mem_malloc` keeps the heap sound and the hint exact, returns the first fit, and fails only
      when no block fits. */
  lemma MallocOk(s: Heap, c: Cfg, size: nat)
    requires c.Ok() && Sound(s, c) && Lowest(s.h, s.lfree, c.size)
    ensures var r := Malloc(s, c, size); Sound(r, c) && Lowest(r.h, r.lfree, c.size)
  {
    var i := FirstFit(s.h, c, size);
    if i < |s.h| {
      var r := Commit(s, c, i, size);
      CommitSound(s, c, i, size);
      CommitTiles(s, c, i, size);
      if s.h[i].start == s.lfree {
        BelowUsed(r.h, i, s.lfree, c);
        FirstFreeLowest(r.h, i, c);
      } else {
        CommitKeepsLow(s, c, i, size);
      }
    }
  }

  lemma CommitKeepsLow(s: Heap, c: Cfg, i: nat, size: nat)
    requires c.Ok() && Sound(s, c) && i < |s.h| && BlockFits(s.h, i, c, size)
    requires Lowest(s.h, s.lfree, c.size) && s.h[i].start != s.lfree
    ensures Lowest(Commit(s, c, i, size).h, s.lfree, c.size)
  {
    var h, r := s.h, Commit(s, c, i, size);
    CommitLow(s, c, i, size);
    TakenShape(h, i, c, size);
    assert h[i] in h;
    var b := Blk(s.lfree, false);
    assert b in h && b != h[i];
    assert b in h[..i] || b in h[i + 1..];
  }

  // ----- mem_trim -----

  /** Trimming to `newsize` bytes has an effect: the next block is free, or the rest is big
      enough for a block of its own. */
  predicate Shrinks(h: Blocks, i: nat, c: Cfg, newsize: nat)
    requires i < |h|
  {
    var cut := h[i].start + c.hdr + newsize;
    NextOf(h, i, c.size) != cut && (NextFree(h, i) || cut + c.hdr + c.min <= NextOf(h, i, c.size))
  }

  /** The heap when block `i` shrinks to `newsize` bytes. */
  function Shrunk(h: Blocks, i: nat, c: Cfg, newsize: nat): Blocks
    requires i < |h|
  {
    var y := Blk(h[i].start + c.hdr + newsize, false);
    if !Shrinks(h, i, c, newsize) then h
    else if NextFree(h, i) then h[i + 1 := y]
    else h[..i + 1] + [y] + h[i + 1..]
  }

  function Trim(s: Heap, c: Cfg, i: nat, newsize: nat): Heap
    requires i < |s.h|
  {
    var h, cut := s.h, s.h[i].start + c.hdr + newsize;
    var f := Shrunk(h, i, c, newsize);
    Heap(f,
         if !Shrinks(h, i, c, newsize) then s.lfree
         else if NextFree(h, i) then (if s.lfree == h[i + 1].start then cut else s.lfree)
         else if cut < s.lfree then cut else s.lfree,
         s.used - (NextOf(h, i, c.size) - NextOf(f, i, c.size)))
  }

  /** One block in front of `b`, or two, replaced by the shrunk block and a free one. */
  lemma ShrinkStretch(h: Blocks, f: Blocks, a: Blocks, m: Blocks, x: Blk, y: Blk, b: Blocks, was: nat, end: nat,
                      hdr: nat)
    requires m != [] && was == NextOf(m, 0, First(b, end))
    requires h == a + m + b && f == a + [x, y] + b
    requires hdr > 0 && x.used && !y.used && Tile(h, 0, end, hdr) && Merged(h)
    requires m == [x] || (|m| == 2 && m == [x, m[1]] && !m[1].used)
    requires b != [] ==> b[0].used
    requires x.start + hdr <= y.start && y.start + hdr <= First(b, end)
    ensures Tile(f, 0, end, hdr) && Merged(f)
    ensures Used(f, end) == Used(h, end) - {(x.start, was)} + {(x.start, y.start)}
    ensures UsedBytes(f, end) == UsedBytes(h, end) - (was - y.start)
  {
    Small(x, y, First(b, end), hdr);
    Small(x, m[|m| - 1], First(b, end), hdr);
    Replace(a, m, [x, y], b, end, hdr);
    MiddleMerged(a, m, b);
    MiddleMerged(a, [x, y], b);
    assert [x, y][1..] == [y];
  }

  /** Shrinking keeps the block, its start and everything else in use, and gives back exactly
      what is cut off. */
  lemma TrimTiles(s: Heap, c: Cfg, i: nat, newsize: nat)
    requires c.Ok() && Sound(s, c) && i < |s.h| && s.h[i].used
    requires s.h[i].start + c.hdr + newsize <= NextOf(s.h, i, c.size)
    ensures var r := Trim(s, c, i, newsize);
            && Tile(r.h, 0, c.size, c.hdr) && Merged(r.h) && i < |r.h|
            && Used(r.h, c.size) == Used(s.h, c.size) - {(s.h[i].start, NextOf(s.h, i, c.size))}
                                    + {(s.h[i].start, NextOf(r.h, i, c.size))}
            && r.used == UsedBytes(r.h, c.size)
  {
    TrimBlock(s, c, i, newsize);
    if !Shrinks(s.h, i, c, newsize) {
      UsedIn(s.h, i, c.size, c.hdr);
    } else {
      ShrunkTiles(s.h, Shrunk(s.h, i, c, newsize), c, i, newsize, NextOf(s.h, i, c.size),
        s.h[i].start + c.hdr + newsize);
    }
  }

  /** The next block is free and moves down, or a new free block is cut off. */
  lemma ShrunkTiles(h: Blocks, f: Blocks, c: Cfg, i: nat, newsize: nat, was: nat, cut: nat)
    requires c.Ok() && Tile(h, 0, c.size, c.hdr) && Merged(h) && i < |h| && h[i].used && Shrinks(h, i, c, newsize)
    requires f == Shrunk(h, i, c, newsize) && was == NextOf(h, i, c.size) && cut == h[i].start + c.hdr + newsize <= was
    ensures Tile(f, 0, c.size, c.hdr) && Merged(f)
    ensures Used(f, c.size) == Used(h, c.size) - {(h[i].start, was)} + {(h[i].start, cut)}
    ensures UsedBytes(f, c.size) == UsedBytes(h, c.size) - (was - cut)
  {
    ShrunkShape(h, i, c, newsize);
    if NextFree(h, i) {
      ShrunkIntoNext(h, f, c, i, was, cut);
    } else {
      ShrinkStretch(h, f, h[..i], [h[i]], h[i], Blk(cut, false), h[i + 1..], was, c.size, c.hdr);
    }
  }

  lemma ShrunkIntoNext(h: Blocks, f: Blocks, c: Cfg, i: nat, was: nat, cut: nat)
    requires c.Ok() && Tile(h, 0, c.size, c.hdr) && Merged(h) && i < |h| && h[i].used && NextFree(h, i)
    requires h == h[..i] + [h[i], h[i + 1]] + h[i + 2..] && f == h[..i] + [h[i], Blk(cut, false)] + h[i + 2..]
    requires was == h[i + 1].start && h[i].start + c.hdr <= cut <= was
    ensures Tile(f, 0, c.size, c.hdr) && Merged(f)
    ensures Used(f, c.size) == Used(h, c.size) - {(h[i].start, was)} + {(h[i].start, cut)}
    ensures UsedBytes(f, c.size) == UsedBytes(h, c.size) - (was - cut)
  {
    NeighboursUsed(h, i);
    StretchRange(h, i + 1, i + 2, c.size, c.hdr);
    ShrinkStretch(h, f, h[..i], [h[i], h[i + 1]], h[i], Blk(cut, false), h[i + 2..], was, c.size, c.hdr);
  }

  /** The block itself stays where it is and keeps at least `newsize` bytes. */
  lemma TrimBlock(s: Heap, c: Cfg, i: nat, newsize: nat)
    requires i < |s.h| && s.h[i].used && s.h[i].start + c.hdr + newsize <= NextOf(s.h, i, c.size)
    ensures var r := Trim(s, c, i, newsize);
            && i < |r.h| && r.h[i] == s.h[i]
            && s.h[i].start + c.hdr + newsize <= NextOf(r.h, i, c.size) <= NextOf(s.h, i, c.size)
            && (Shrinks(s.h, i, c, newsize) ==> NextOf(r.h, i, c.size) == s.h[i].start + c.hdr + newsize)
  {
  }

  lemma ShrunkShape(h: Blocks, i: nat, c: Cfg, newsize: nat)
    requires i < |h| && Shrinks(h, i, c, newsize)
    ensures var f, y := Shrunk(h, i, c, newsize), Blk(h[i].start + c.hdr + newsize, false);
            && (NextFree(h, i) ==> h == h[..i] + [h[i], h[i + 1]] + h[i + 2..] && f == h[..i] + [h[i], y] + h[i + 2..])
            && (!NextFree(h, i) ==> h == h[..i] + [h[i]] + h[i + 1..] && f == h[..i] + [h[i], y] + h[i + 1..])
  {
  }

  /** Block `i` of `h`, cut to `newsize` bytes, leaves `f`: a free block behind it takes over what is cut off; otherwise
      that becomes a block of its own if it is large enough, and else the block stays as it is. */
  predicate Shortened(h: Blocks, f: Blocks, i: nat, c: Cfg, newsize: nat) {
    && i < |h| && i < |f| && f[i] == h[i] && f[..i] == h[..i]
    && var had := NextOf(h, i, c.size) - (h[i].start + c.hdr);
       var got := NextOf(f, i, c.size) - (f[i].start + c.hdr);
       if i + 1 < |h| && !h[i + 1].used then
         got == newsize && |f| == |h| && !f[i + 1].used && f[i + 2..] == h[i + 2..]
       else if had < newsize + c.hdr + c.min then f == h
       else got == newsize && |f| == |h| + 1 && !f[i + 1].used && f[i + 2..] == h[i + 1..]
  }

  /** What trimming gives back, told by sizes alone. */
  lemma {:induction false} TrimTight(s: Heap, c: Cfg, i: nat, newsize: nat)
    requires c.Ok() && i < |s.h| && s.h[i].used && s.h[i].start + c.hdr + newsize <= NextOf(s.h, i, c.size)
    ensures var r := Trim(s, c, i, newsize);
            && Shortened(s.h, r.h, i, c, newsize)
            && newsize <= NextOf(r.h, i, c.size) - (s.h[i].start + c.hdr) < newsize + c.hdr + c.min
            && r.used == s.used - (NextOf(s.h, i, c.size) - NextOf(r.h, i, c.size))
  {
    if Shrinks(s.h, i, c, newsize) {
      ShrunkShape(s.h, i, c, newsize);
    }
  }

  lemma UsedIn(h: Blocks, i: nat, end: nat, hdr: nat)
    requires i < |h| && h[i].used && Tile(h, 0, end, hdr)
    ensures (h[i].start, NextOf(h, i, end)) in Used(h, end)
  {
    assert h == h[..i] + [h[i]] + h[i + 1..];
    Middle(h[..i], [h[i]], h[i + 1..], end, hdr);
    Small(h[i], h[i], NextOf(h, i, end), hdr);
  }

  /** No block starts between two adjacent ones. */
  lemma NoStartBetween(h: Blocks, i: nat, l: nat, c: Cfg)
    requires c.Ok() && Tile(h, 0, c.size, c.hdr) && i + 1 < |h| && Points(h, l, c.size) && l < h[i + 1].start
    ensures l <= h[i].start
  {
    TileRange(h, 0, c.size, c.hdr);
    assert h[i + 1] in h;
    var j :| 0 <= j < |h| && h[j].start == l;
    if j > i + 1 {
      StartsIncrease(h, i + 1, j, c.size, c.hdr);
    } else if j < i {
      StartsIncrease(h, j, i, c.size, c.hdr);
    }
  }

  /** The hint after a trim. */
  lemma TrimLow(s: Heap, c: Cfg, i: nat, newsize: nat)
    requires c.Ok() && Sound(s, c) && i < |s.h| && s.h[i].used
    requires s.h[i].start + c.hdr + newsize <= NextOf(s.h, i, c.size)
    ensures var r := Trim(s, c, i, newsize);
            && NoneBelow(r.h, r.lfree) && Points(r.h, r.lfree, c.size)
            && (Lowest(s.h, s.lfree, c.size) ==> Lowest(r.h, r.lfree, c.size))
  {
    var h, r, y := s.h, Trim(s, c, i, newsize), Blk(s.h[i].start + c.hdr + newsize, false);
    if Shrinks(h, i, c, newsize) {
      ShrunkMembers(h, i, c, newsize);
      TileRange(h, 0, c.size, c.hdr);
      if NextFree(h, i) {
        assert h[i + 1] in h;
        if s.lfree != h[i + 1].start {
          NoStartBetween(h, i, s.lfree, c);
        }
      }
    }
  }

  lemma ShrunkMembers(h: Blocks, i: nat, c: Cfg, newsize: nat)
    requires i < |h| && h[i].used && Shrinks(h, i, c, newsize)
    ensures var y, f := Blk(h[i].start + c.hdr + newsize, false), Shrunk(h, i, c, newsize);
            && y in f
            && (forall b :: b in f ==> b in h || b == y)
            && (forall b :: b in h && (NextFree(h, i) ==> b != h[i + 1]) ==> b in f)
  {
    var y, f := Blk(h[i].start + c.hdr + newsize, false), Shrunk(h, i, c, newsize);
    assert f[i + 1] == y;
    forall b | b in h && (NextFree(h, i) ==> b != h[i + 1]) ensures b in f {
      var j :| 0 <= j < |h| && h[j] == b;
      assert f[if NextFree(h, i) || j <= i then j else j + 1] == b;
    }
  }

  lemma TrimSound(s: Heap, c: Cfg, i: nat, newsize: nat)
    requires c.Ok() && Sound(s, c) && i < |s.h| && s.h[i].used
    requires s.h[i].start + c.hdr + newsize <= NextOf(s.h, i, c.size)
    ensures Sound(Trim(s, c, i, newsize), c)
  {
    TrimTiles(s, c, i, newsize);
    TrimLow(s, c, i, newsize);
  }

  // ----- looking for blocks -----

  lemma BlocksEnd(h: Blocks, k: nat, end: nat, hdr: nat)
    requires hdr > 0 && k < |h| && Tile(h, 0, end, hdr)
    ensures h[k].start + hdr <= NextOf(h, k, end) <= end
  {
    StretchRange(h, k, k + 1, end, hdr);
    TileRange(h, 0, end, hdr);
    if k + 1 < |h| {
      assert h[k + 1] in h;
    }
  }

  /** None of the first `i` blocks fits. */
  ghost predicate NoneFits(h: Blocks, i: nat, c: Cfg, size: nat) {
    i <= |h| && FirstFit(h, c, size) >= i
  }

  /** A scan that has come to block `i` has come to the first fit, or can go on. */
  lemma ScanStep(h: Blocks, i: nat, c: Cfg, size: nat)
    requires NoneFits(h, i, c, size) && i < |h|
    ensures if BlockFits(h, i, c, size) then FirstFit(h, c, size) == i else NoneFits(h, i + 1, c, size)
  {
  }

  /** A block that starts too close to the end cannot fit. */
  lemma ScanEnd(h: Blocks, i: nat, c: Cfg, size: nat)
    requires c.Ok() && Tile(h, 0, c.size, c.hdr) && NoneFits(h, i, c, size)
    requires i < |h| ==> c.size - size <= h[i].start
    ensures FirstFit(h, c, size) == |h|
  {
    var j := FirstFit(h, c, size);
    if j < |h| {
      BlocksEnd(h, j, c.size, c.hdr);
      if j > i {
        StartsIncrease(h, i, j, c.size, c.hdr);
      }
    }
  }

  /** A scan may begin at the hint: everything below it is in use. */
  lemma ScanStart(s: Heap, c: Cfg, size: nat) returns (i: nat)
    requires c.Ok() && Sound(s, c) && Lowest(s.h, s.lfree, c.size)
    ensures NoneFits(s.h, i, c, size) && s.lfree == First(s.h[i..], c.size)
  {
    var k := FirstFit(s.h, c, size);
    assert k < |s.h| ==> s.h[k] in s.h;
    if s.lfree == c.size {
      return |s.h|;
    }
    i :| 0 <= i < |s.h| && s.h[i] == Blk(s.lfree, false);
    BelowUsed(s.h, i, s.lfree, c);
  }

  /** The block that starts at `start`; `|h|` if there is none. */
  function Index(h: Blocks, start: int): (i: nat)
    ensures i <= |h|
    ensures i < |h| ==> h[i].start == start
    ensures forall j :: 0 <= j < i ==> h[j].start != start
  {
    if h == [] then 0 else if h[0].start == start then 0 else 1 + Index(h[1..], start)
  }

  /** In a tiling, a start determines its block. */
  lemma IndexOf(h: Blocks, i: nat, end: nat, hdr: nat)
    requires i < |h| && Tile(h, 0, end, hdr) && hdr > 0
    ensures Index(h, h[i].start) == i
  {
    var j := Index(h, h[i].start);
    if j < i {
      StartsIncrease(h, j, i, end, hdr);
    }
  }

  // ----- alignment -----

  predicate Aligned(h: Blocks, a: nat)
    requires a > 0
  {
    forall b :: b in h ==> b.start % a == 0
  }

  lemma SumAligned(x: nat, y: nat, a: nat)
    requires a > 0 && x % a == 0 && y % a == 0
    ensures (x + y) % a == 0
  {
    var k := x / a + y / a;
    assert x + y == k * a;
    MultipleAligned(k, a);
  }

  lemma MultipleAligned(k: nat, a: nat)
    requires a > 0
    ensures (k * a) % a == 0
  {
    var q, r := (k * a) / a, (k * a) % a;
    assert k * a == q * a + r;
    assert (k - q) * a == r;
    if k > q {
      AtLeast(k - q, a);
    }
  }

  lemma AtLeast(d: nat, a: nat)
    requires d >= 1
    ensures d * a >= a
  {
    assert d * a == (d - 1) * a + a;
  }

  /** Every block stays aligned under allocation and trimming ... */
  lemma CutAligned(h: Blocks, c: Cfg, i: nat, size: nat)
    requires c.Ok() && i < |h| && Aligned(h, c.align) && size % c.align == 0
    ensures Aligned(Taken(h, i, c, size), c.align)
    ensures h[i].used ==> Aligned(Shrunk(h, i, c, size), c.align)
  {
    assert h[i] in h;
    SumAligned(h[i].start, c.hdr, c.align);
    SumAligned(h[i].start + c.hdr, size, c.align);
    TakenShape(h, i, c, size);
    if h[i].used && Shrinks(h, i, c, size) {
      ShrunkMembers(h, i, c, size);
    }
  }

  /** ... and under freeing. */
  lemma FreeAligned(h: Blocks, c: Cfg, i: nat)
    requires c.Ok() && i < |h| && Aligned(h, c.align)
    ensures Aligned(Freed(h, i), c.align)
  {
    FreedMembers(h, i);
    assert h[MergeFrom(h, i)] in h;
  }
}
