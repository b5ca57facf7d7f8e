/**
 `mem_malloc` when `mem_free` and `mem_trim` may run in another context
 (LWIP_ALLOW_MEM_FREE_FROM_OTHER_CONTEXT).  The allocation unprotects the heap once
 for every block it looks at, in its scan and again while it looks for the next free
 block; between two such windows it is one atomic step.
 */
module HeapInterrupted {
  import opened HeapModel

  /** Where the allocating thread is. */
  datatype Pc =
    | Idle
    | Scanning(ptr: nat, size: nat)
    | Adjusting(mem: nat, end: nat, cur: nat)

  datatype Outcome = Pending | Failed | Got(mem: nat, end: nat)

  /** `disturbed` is `mem_free_count`; `live` holds the extents that callers own. */
  datatype State = State(heap: Heap, pc: Pc, disturbed: bool, live: set<(nat, nat)>, outcome: Outcome)

  // ----- the allocating thread -----

  /** The head of the scan loop. */
  function ScanAt(s: State, c: Cfg, ptr: nat, size: nat): State {
    if ptr < c.size - size then s.(pc := Scanning(ptr, size), disturbed := false)
    else s.(pc := Idle, outcome := Failed)
  }

  function Done(s: State, mem: nat, end: nat): State {
    s.(pc := Idle, outcome := Got(mem, end), live := s.live + {(mem, end)})
  }

  /** The head of the loop that moves `lfree` up. */
  function AdjustAt(s: State, mem: nat, end: nat, cur: nat): State {
    var i := Index(s.heap.h, cur);
    if i < |s.heap.h| && s.heap.h[i].used
    then s.(pc := Adjusting(mem, end, cur), disturbed := false)
    else Done(s.(heap := s.heap.(lfree := cur)), mem, end)
  }

  /** From the label `mem_malloc_adjust_lfree` on. */
  function Adjust(s: State, mem: nat, end: nat): State {
    if mem == s.heap.lfree then AdjustAt(s, mem, end, s.heap.lfree) else Done(s, mem, end)
  }

  /** The body of the scan loop, after its window. */
  function Examine(s: State, c: Cfg, i: nat, size: nat): State
    requires i < |s.heap.h|
  {
    if BlockFits(s.heap.h, i, c, size)
    then
      var r := Commit(s.heap, c, i, size);
      Adjust(s.(heap := r), s.heap.h[i].start, NextOf(r.h, i, c.size))
    else ScanAt(s, c, NextOf(s.heap.h, i, c.size), size)
  }

  /** The thread goes on after a window. */
  function Resume(s: State, c: Cfg): State {
    match s.pc
    case Idle => s
    case Scanning(ptr, size) =>
      var i := Index(s.heap.h, ptr);
      if s.disturbed || i == |s.heap.h| then ScanAt(s, c, s.heap.lfree, size) else Examine(s, c, i, size)
    case Adjusting(mem, end, cur) =>
      var i := Index(s.heap.h, cur);
      if s.disturbed || i == |s.heap.h| then Adjust(s, mem, end)
      else AdjustAt(s, mem, end, NextOf(s.heap.h, i, c.size))
  }

  function Begin(s: State, c: Cfg, size: nat): State {
    if size > c.size then s.(outcome := Failed) else ScanAt(s.(outcome := Pending), c, s.heap.lfree, size)
  }

  // ----- the other context -----

  function FreeOther(s: State, c: Cfg, e: (nat, nat)): State {
    var i := Index(s.heap.h, e.0);
    if i == |s.heap.h| then s
    else s.(heap := Free(s.heap, c, i), disturbed := true, live := s.live - {e})
  }

  function TrimOther(s: State, c: Cfg, e: (nat, nat), newsize: nat): State {
    var i := Index(s.heap.h, e.0);
    if i == |s.heap.h| || e.0 + c.hdr + newsize >= e.1 then s
    else
      var r := Trim(s.heap, c, i, newsize);
      s.(heap := r, disturbed := true,
         live := s.live - {e} + {(e.0, if i < |r.h| then NextOf(r.h, i, c.size) else e.1)})
  }

  datatype Event = Malloc(size: nat) | Go | FreeOf(e: (nat, nat)) | TrimOf(e: (nat, nat), newsize: nat)

  /** One allocation runs at a time (`mem_mutex`); callers free and trim what they own. */
  predicate Enabled(s: State, v: Event) {
    match v
    case Malloc(size) => s.pc.Idle?
    case Go => !s.pc.Idle?
    case FreeOf(e) => e in s.live
    case TrimOf(e, newsize) => e in s.live
  }

  function Next(s: State, c: Cfg, v: Event): State {
    match v
    case Malloc(size) => Begin(s, c, size)
    case Go => Resume(s, c)
    case FreeOf(e) => FreeOther(s, c, e)
    case TrimOf(e, newsize) => TrimOther(s, c, e, newsize)
  }

  predicate Run(s: State, c: Cfg, vs: seq<Event>, t: State)
    decreases |vs|
  {
    if vs == [] then t == s else Enabled(s, vs[0]) && Run(Next(s, c, vs[0]), c, vs[1..], t)
  }

  function Start(c: Cfg): State { State(Init(c), Idle, false, {}, Pending) }

  // ----- the invariant -----

  /** The block being handed out. */
  function Own(pc: Pc): set<(nat, nat)> { if pc.Adjusting? then {(pc.mem, pc.end)} else {} }

  /** Every block up to and with the one at `cur` is in use. */
  predicate UsedUpTo(h: Blocks, cur: nat) {
    Index(h, cur) < |h| && forall j :: 0 <= j <= Index(h, cur) ==> h[j].used
  }

  /** The scan position is a block, and no block before it fits. */
  ghost predicate ScanOk(h: Blocks, c: Cfg, ptr: nat, size: nat) {
    Index(h, ptr) < |h| && NoneFits(h, Index(h, ptr), c, size)
  }

  ghost predicate PcOk(pc: Pc, heap: Heap, c: Cfg, disturbed: bool) {
    match pc
    case Idle => Lowest(heap.h, heap.lfree, c.size)
    case Scanning(ptr, size) => Lowest(heap.h, heap.lfree, c.size) && (!disturbed ==> ScanOk(heap.h, c, ptr, size))
    case Adjusting(mem, end, cur) =>
      && (heap.lfree != mem ==> Lowest(heap.h, heap.lfree, c.size))
      && (!disturbed ==> heap.lfree == mem && UsedUpTo(heap.h, cur))
  }

  /** The heap is well formed at every window, and the blocks in use are exactly those that callers
      own and the one being handed out. */
  ghost predicate Inv(s: State, c: Cfg) {
    && c.Ok() && Sound(s.heap, c)
    && Used(s.heap.h, c.size) == s.live + Own(s.pc) && s.live !! Own(s.pc)
    && PcOk(s.pc, s.heap, c, s.disturbed)
    && (!s.pc.Idle? ==> s.outcome.Pending?)
  }

  lemma StartInv(c: Cfg)
    requires c.Ok()
    ensures Inv(Start(c), c)
  {
    InitSound(c);
    Small(Blk(0, false), Blk(0, false), c.size, c.hdr);
  }

  /** Every used extent is that of one block. */
  lemma {:induction false} UsedIndex(h: Blocks, e: (nat, nat), lo: nat, end: nat, hdr: nat)
    requires Tile(h, lo, end, hdr) && hdr > 0 && e in Used(h, end)
    ensures var i := Index(h, e.0); i < |h| && h[i].used && NextOf(h, i, end) == e.1
  {
    if e in Used(h[1..], end) {
      TileRange(h[1..], First(h[1..], end), end, hdr);
      UsedIndex(h[1..], e, First(h[1..], end), end, hdr);
    }
  }

  // ----- the scan -----

  lemma ScanAtInv(s: State, c: Cfg, i: nat, size: nat)
    requires c.Ok() && Sound(s.heap, c) && Lowest(s.heap.h, s.heap.lfree, c.size) && s.outcome.Pending?
    requires Used(s.heap.h, c.size) == s.live && NoneFits(s.heap.h, i, c, size)
    ensures var t := ScanAt(s, c, First(s.heap.h[i..], c.size), size);
            && Inv(t, c) && t.heap == s.heap && !t.outcome.Got? && !t.pc.Adjusting?
            && (t.outcome.Failed? ==> FirstFit(s.heap.h, c, size) == |s.heap.h|)
  {
    var h, ptr := s.heap.h, First(s.heap.h[i..], c.size);
    if i < |h| {
      IndexOf(h, i, c.size, c.hdr);
    }
    if ptr >= c.size - size {
      ScanEnd(h, i, c, size);
    }
  }

  lemma RestartInv(s: State, c: Cfg, size: nat)
    requires c.Ok() && Sound(s.heap, c) && Lowest(s.heap.h, s.heap.lfree, c.size) && s.outcome.Pending?
    requires Used(s.heap.h, c.size) == s.live
    ensures var t := ScanAt(s, c, s.heap.lfree, size);
            && Inv(t, c) && t.heap == s.heap && !t.outcome.Got? && !t.pc.Adjusting?
            && (t.outcome.Failed? ==> FirstFit(s.heap.h, c, size) == |s.heap.h|)
  {
    var i := ScanStart(s.heap, c, size);
    ScanAtInv(s, c, i, size);
  }

  lemma BeginInv(s: State, c: Cfg, size: nat)
    requires Inv(s, c) && s.pc.Idle?
    ensures var t := Begin(s, c, size);
            && Inv(t, c) && t.heap == s.heap && !t.outcome.Got?
            && (t.outcome.Failed? ==> FirstFit(s.heap.h, c, size) == |s.heap.h|)
  {
    if size > c.size {
      ScanEnd(s.heap.h, 0, c, size);
    } else {
      RestartInv(s.(outcome := Pending), c, size);
    }
  }

  // ----- moving `lfree` up -----

  lemma AdjustAtInv(s: State, c: Cfg, mem: nat, end: nat, j: nat)
    requires c.Ok() && Sound(s.heap, c) && s.outcome.Pending? && s.heap.lfree == mem
    requires Used(s.heap.h, c.size) == s.live + {(mem, end)} && (mem, end) !in s.live
    requires j <= |s.heap.h| && forall k :: 0 <= k < j ==> s.heap.h[k].used
    ensures var t := AdjustAt(s, mem, end, First(s.heap.h[j..], c.size));
            Inv(t, c) && t.heap.h == s.heap.h && (t.pc.Idle? ==> t.outcome == Got(mem, end))
  {
    var h, cur := s.heap.h, First(s.heap.h[j..], c.size);
    FirstFreeLowest(h, j, c);
    if j < |h| {
      IndexOf(h, j, c.size, c.hdr);
      assert h[j] in h;
    } else {
      var k := Index(h, cur);
      assert k < |h| ==> h[k] in h;
      TileRange(h, 0, c.size, c.hdr);
    }
  }

  lemma AdjustInv(s: State, c: Cfg, mem: nat, end: nat)
    requires c.Ok() && Sound(s.heap, c) && s.outcome.Pending?
    requires Used(s.heap.h, c.size) == s.live + {(mem, end)} && (mem, end) !in s.live
    requires s.heap.lfree != mem ==> Lowest(s.heap.h, s.heap.lfree, c.size)
    ensures var t := Adjust(s, mem, end);
            Inv(t, c) && t.heap.h == s.heap.h && (t.pc.Idle? ==> t.outcome == Got(mem, end))
  {
    if mem == s.heap.lfree {
      var h, e := s.heap.h, (mem, end);
      UsedIndex(h, e, 0, c.size, c.hdr);
      var j := Index(h, mem);
      BelowUsed(h, j, mem, c);
      AdjustAtInv(s, c, mem, end, j);
    }
  }

  // ----- the steps -----

  /** A window of the scan: what happens next rests on the heap as it is now.  A block that is taken
      is the first fit of this heap, comes out of its free space alone, and NULL means that nothing
      in it fits. */
  lemma ExamineInv(s: State, c: Cfg, i: nat, size: nat)
    requires Inv(s, c) && s.pc.Scanning? && i < |s.heap.h| && NoneFits(s.heap.h, i, c, size)
    ensures var t, h := Examine(s, c, i, size), s.heap.h;
            && Inv(t, c)
            && (if BlockFits(h, i, c, size) then
                  && i == FirstFit(h, c, size)
                  && t.heap.h == Taken(h, i, c, size)
                  && Used(t.heap.h, c.size) == Used(h, c.size) + {(h[i].start, NextOf(t.heap.h, i, c.size))}
                  && (t.pc.Idle? ==> t.outcome == Got(h[i].start, NextOf(t.heap.h, i, c.size)))
                else
                  && t.heap == s.heap && !t.outcome.Got? && !t.pc.Adjusting?
                  && (t.outcome.Failed? ==> FirstFit(h, c, size) == |h|))
  {
    var h := s.heap.h;
    ScanStep(h, i, c, size);
    if BlockFits(h, i, c, size) {
      TakenInv(s, c, i, size, Commit(s.heap, c, i, size), NextOf(Commit(s.heap, c, i, size).h, i, c.size));
    } else {
      ScanAtInv(s, c, i + 1, size);
    }
  }

  lemma TakenInv(s: State, c: Cfg, i: nat, size: nat, r: Heap, end: nat)
    requires Inv(s, c) && s.pc.Scanning? && i < |s.heap.h| && BlockFits(s.heap.h, i, c, size)
    requires r == Commit(s.heap, c, i, size) && end == NextOf(r.h, i, c.size)
    ensures var t := Adjust(s.(heap := r), s.heap.h[i].start, end);
            && Inv(t, c) && t.heap.h == r.h && (t.pc.Idle? ==> t.outcome == Got(s.heap.h[i].start, end))
            && Used(r.h, c.size) == Used(s.heap.h, c.size) + {(s.heap.h[i].start, end)}
  {
    var h, e := s.heap.h, (s.heap.h[i].start, end);
    CommitSound(s.heap, c, i, size);
    CommitTiles(s.heap, c, i, size);
    if e in s.live {
      UsedIndex(h, e, 0, c.size, c.hdr);
      IndexOf(h, i, c.size, c.hdr);
    }
    if s.heap.lfree != e.0 {
      CommitKeepsLow(s.heap, c, i, size);
    }
    AdjustInv(s.(heap := r), c, e.0, e.1);
  }

  lemma ResumeInv(s: State, c: Cfg)
    requires Inv(s, c) && !s.pc.Idle?
    ensures Inv(Resume(s, c), c)
  {
    match s.pc
    case Scanning(ptr, size) =>
      if s.disturbed {
        RestartInv(s, c, size);
      } else {
        ExamineInv(s, c, Index(s.heap.h, ptr), size);
      }
    case Adjusting(mem, end, cur) =>
      if s.disturbed {
        AdjustInv(s, c, mem, end);
      } else {
        var i := Index(s.heap.h, cur);
        assert NextOf(s.heap.h, i, c.size) == First(s.heap.h[i + 1..], c.size);
        AdjustAtInv(s, c, mem, end, i + 1);
      }
  }

  /** A free by the other context: the hint stays or moves to the block that became free. */
  lemma FreeHint(s: Heap, c: Cfg, i: nat)
    requires c.Ok() && Sound(s, c) && i < |s.h| && s.h[i].used
    ensures var r := Free(s, c, i); Sound(r, c) && (r.lfree == s.lfree || Lowest(r.h, r.lfree, c.size))
  {
    FreeSound(s, c, i);
    var r, p := Free(s, c, i), MergeFrom(s.h, i);
    FreedMembers(s.h, i);
    if r.lfree != s.lfree {
      TileRange(r.h, 0, c.size, c.hdr);
      if NextFree(s.h, i) {
        assert s.h[i + 1] in s.h;
        StartsIncrease(s.h, i, i + 1, c.size, c.hdr);
      }
      if p < i {
        assert s.h[p] in s.h;
      }
      assert r.lfree == s.h[p].start;
    }
  }

  lemma TrimHint(s: Heap, c: Cfg, i: nat, newsize: nat)
    requires c.Ok() && Sound(s, c) && i < |s.h| && s.h[i].used
    requires s.h[i].start + c.hdr + newsize <= NextOf(s.h, i, c.size)
    ensures var r := Trim(s, c, i, newsize); Sound(r, c) && (r.lfree == s.lfree || Lowest(r.h, r.lfree, c.size))
  {
    TrimSound(s, c, i, newsize);
    var r := Trim(s, c, i, newsize);
    if Shrinks(s.h, i, c, newsize) && r.lfree != s.lfree {
      ShrunkMembers(s.h, i, c, newsize);
      TileRange(r.h, 0, c.size, c.hdr);
    }
  }

  /** What the other context must keep of the allocating thread's state. */
  lemma OtherPc(pc: Pc, s: Heap, r: Heap, c: Cfg, d: bool)
    requires PcOk(pc, s, c, d) && (Lowest(s.h, s.lfree, c.size) ==> Lowest(r.h, r.lfree, c.size))
    requires r.lfree == s.lfree || Lowest(r.h, r.lfree, c.size)
    ensures PcOk(pc, r, c, true)
  {
  }

  lemma FreeParts(pc: Pc, s: Heap, r: Heap, c: Cfg, i: nat, d: bool)
    requires c.Ok() && Sound(s, c) && i < |s.h| && s.h[i].used && PcOk(pc, s, c, d) && r == Free(s, c, i)
    ensures Sound(r, c) && PcOk(pc, r, c, true)
    ensures Used(r.h, c.size) == Used(s.h, c.size) - {(s.h[i].start, NextOf(s.h, i, c.size))}
  {
    FreeTiles(s, c, i);
    FreeHint(s, c, i);
    FreeLow(s, c, i);
    OtherPc(pc, s, r, c, d);
  }

  lemma FreeOtherInv(s: State, c: Cfg, e: (nat, nat))
    requires Inv(s, c) && e in s.live
    ensures Inv(FreeOther(s, c, e), c)
    ensures Used(FreeOther(s, c, e).heap.h, c.size) == Used(s.heap.h, c.size) - {e}
  {
    UsedIndex(s.heap.h, e, 0, c.size, c.hdr);
    var i := Index(s.heap.h, e.0);
    FreeParts(s.pc, s.heap, Free(s.heap, c, i), c, i, s.disturbed);
  }

  lemma TrimOtherInv(s: State, c: Cfg, e: (nat, nat), newsize: nat)
    requires Inv(s, c) && e in s.live
    ensures Inv(TrimOther(s, c, e, newsize), c)
    ensures var t, i := TrimOther(s, c, e, newsize), Index(s.heap.h, e.0);
            if e.1 <= e.0 + c.hdr + newsize then t == s
            else Shortened(s.heap.h, t.heap.h, i, c, newsize)
                 && t.live == s.live - {e} + {(e.0, NextOf(t.heap.h, i, c.size))}
  {
    UsedIndex(s.heap.h, e, 0, c.size, c.hdr);
    var i := Index(s.heap.h, e.0);
    if e.0 + c.hdr + newsize < e.1 {
      TrimTight(s.heap, c, i, newsize);
      TrimExtent(s.heap, c, i, newsize, e, s.live, Own(s.pc));
      TrimHint(s.heap, c, i, newsize);
      TrimLow(s.heap, c, i, newsize);
      OtherPc(s.pc, s.heap, Trim(s.heap, c, i, newsize), c, s.disturbed);
    }
  }

  lemma TrimExtent(s: Heap, c: Cfg, i: nat, newsize: nat, e: (nat, nat), live: set<(nat, nat)>, own: set<(nat, nat)>)
    requires c.Ok() && Sound(s, c) && i < |s.h| && s.h[i].used && e == (s.h[i].start, NextOf(s.h, i, c.size))
    requires s.h[i].start + c.hdr + newsize <= e.1 && live !! own && Used(s.h, c.size) == live + own && e in live
    ensures var r := Trim(s, c, i, newsize);
            && i < |r.h|
            && var l := live - {e} + {(e.0, NextOf(r.h, i, c.size))};
               Used(r.h, c.size) == l + own && l !! own
  {
    TrimTiles(s, c, i, newsize);
    TrimBlock(s, c, i, newsize);
    var r := Trim(s, c, i, newsize);
    var f := (e.0, NextOf(r.h, i, c.size));
    SameStart(s.h, c, e, f, own, live);
    SwapExtent(Used(s.h, c.size), Used(r.h, c.size), live, own, e, f);
  }

  /** Nothing else that is in use starts where `e` does. */
  lemma SameStart(h: Blocks, c: Cfg, e: (nat, nat), f: (nat, nat), own: set<(nat, nat)>, live: set<(nat, nat)>)
    requires Tile(h, 0, c.size, c.hdr) && c.hdr > 0 && Used(h, c.size) == live + own && live !! own
    requires e in live && f.0 == e.0
    ensures f !in own
  {
    UsedDisjoint(h, 0, c.size, c.hdr);
    TileRange(h, 0, c.size, c.hdr);
    assert e in Used(h, c.size);
    assert f in Used(h, c.size) ==> f == e;
  }

  lemma SwapExtent<T>(used: set<T>, used': set<T>, live: set<T>, own: set<T>, e: T, f: T)
    requires used == live + own && live !! own && e in live && f !in own && used' == used - {e} + {f}
    ensures used' == (live - {e} + {f}) + own && (live - {e} + {f}) !! own
  {
  }

  lemma NextInv(s: State, c: Cfg, v: Event)
    requires Inv(s, c) && Enabled(s, v)
    ensures Inv(Next(s, c, v), c)
  {
    match v
    case Malloc(size) => BeginInv(s, c, size);
    case Go => ResumeInv(s, c);
    case FreeOf(e) => FreeOtherInv(s, c, e);
    case TrimOf(e, newsize) => TrimOtherInv(s, c, e, newsize);
  }

  /** Every run, however frees and trims interleave with the windows of allocations. */
  lemma {:induction false} RunInv(s: State, c: Cfg, vs: seq<Event>, t: State)
    requires Inv(s, c) && Run(s, c, vs, t)
    ensures Inv(t, c)
    decreases |vs|
  {
    if vs != [] {
      NextInv(s, c, vs[0]);
      RunInv(Next(s, c, vs[0]), c, vs[1..], t);
    }
  }

  /** In every run: the heap stays well formed with no free block below `lfree`, callers own pairwise
      disjoint blocks inside the heap, and the statistic counts exactly what is in use. */
  lemma RunSafe(c: Cfg, vs: seq<Event>, t: State)
    requires c.Ok() && Run(Start(c), c, vs, t)
    ensures Sound(t.heap, c) && t.heap.used == UsedBytes(t.heap.h, c.size)
    ensures t.pc.Idle? ==> Lowest(t.heap.h, t.heap.lfree, c.size) && Used(t.heap.h, c.size) == t.live
    ensures forall e :: e in t.live ==> e.0 + c.hdr <= e.1 <= c.size
    ensures forall e, f :: e in t.live && f in t.live && e != f ==> e.1 <= f.0 || f.1 <= e.0
  {
    StartInv(c);
    RunInv(Start(c), c, vs, t);
    UsedDisjoint(t.heap.h, 0, c.size, c.hdr);
    TileRange(t.heap.h, 0, c.size, c.hdr);
  }

  /** How the step after a window of the scan ends the scan, if it does. */
  ghost predicate Decided(h: Blocks, t: State, c: Cfg, i: nat, size: nat)
    requires i <= |h|
  {
    && (t.outcome.Failed? ==> i == |h| && t.heap.h == h)
    && (t.outcome.Got? || t.pc.Adjusting? ==>
          && i < |h| && t.heap.h == Taken(h, i, c, size) && HandedOut(h, t.heap.h, i, c, size)
          && (t.pc.Adjusting? ==> t.pc.mem == h[i].start)
          && (t.outcome.Got? ==> t.outcome == Got(h[i].start, NextOf(t.heap.h, i, c.size))))
  }

  lemma WindowDecides(s: State, c: Cfg)
    requires Inv(s, c) && s.pc.Scanning?
    ensures Decided(s.heap.h, Resume(s, c), c, FirstFit(s.heap.h, c, s.pc.size), s.pc.size)
  {
    var h, i := s.heap.h, FirstFit(s.heap.h, c, s.pc.size);
    if i < |h| {
      CommitTight(s.heap, c, i, s.pc.size);
    }
    if s.disturbed {
      RestartInv(s, c, s.pc.size);
    } else {
      ExamineInv(s, c, Index(h, s.pc.ptr), s.pc.size);
    }
  }

  /** In every run, an allocation that stops scanning decides on the heap as it stands: it takes the
      first fit of that heap, or nothing in that heap fits. */
  lemma FirstFitNow(c: Cfg, vs: seq<Event>, s: State)
    requires c.Ok() && Run(Start(c), c, vs, s) && s.pc.Scanning?
    ensures Decided(s.heap.h, Resume(s, c), c, FirstFit(s.heap.h, c, s.pc.size), s.pc.size)
  {
    StartInv(c);
    RunInv(Start(c), c, vs, s);
    WindowDecides(s, c);
  }

  // ----- allocations that are left alone -----

  function Steps(s: State, c: Cfg, n: nat): State
    decreases n
  {
    if n == 0 then s else Steps(Resume(s, c), c, n - 1)
  }

  /** One undisturbed step of the thread while it moves `lfree` up. */
  lemma AdjustStep(s: State, c: Cfg, i: nat, low: nat)
    requires Inv(s, c) && s.pc.Adjusting? && !s.disturbed && i == Index(s.heap.h, s.pc.cur)
    requires low == FirstFreeFrom(s.heap.h, i, c.size)
    ensures i < |s.heap.h|
    ensures var t := Resume(s, c);
            if t.pc.Idle?
            then t.heap == s.heap.(lfree := low) && t.outcome == Got(s.pc.mem, s.pc.end)
            else t.heap == s.heap && t.pc.Adjusting? && t.pc.mem == s.pc.mem && t.pc.end == s.pc.end && !t.disturbed
                 && Index(t.heap.h, t.pc.cur) == i + 1 && FirstFreeFrom(s.heap.h, i + 1, c.size) == low
  {
    var h := s.heap.h;
    if i + 1 < |h| {
      IndexOf(h, i + 1, c.size, c.hdr);
    } else {
      NoneAtEnd(h, c);
    }
  }

  lemma NoneAtEnd(h: Blocks, c: Cfg)
    requires c.Ok() && Tile(h, 0, c.size, c.hdr)
    ensures Index(h, c.size) == |h|
  {
    var k := Index(h, c.size);
    assert k < |h| ==> h[k] in h;
    TileRange(h, 0, c.size, c.hdr);
  }

  lemma {:induction false} AdjustEnds(s: State, c: Cfg, i: nat, low: nat) returns (n: nat, t: State)
    requires Inv(s, c) && s.pc.Adjusting? && !s.disturbed && i == Index(s.heap.h, s.pc.cur)
    requires low == FirstFreeFrom(s.heap.h, i, c.size)
    ensures t == Steps(s, c, n) && t.pc.Idle?
    ensures t.heap == s.heap.(lfree := low) && t.outcome == Got(s.pc.mem, s.pc.end)
    decreases |s.heap.h| - i
  {
    AdjustStep(s, c, i, low);
    ResumeInv(s, c);
    t := Resume(s, c);
    if t.pc.Idle? {
      n := 1;
      assert Steps(t, c, 0) == t;
    } else {
      n, t := AdjustEnds(t, c, i + 1, low);
      n := n + 1;
    }
  }

  /** The thread has taken block `i` and looks for the new hint. */
  lemma TakenEnds(s: State, c: Cfg, i: nat, size: nat) returns (n: nat, t: State)
    requires Inv(s, c) && s.pc.Scanning? && i < |s.heap.h| && i == FirstFit(s.heap.h, c, size)
    ensures t == Steps(Examine(s, c, i, size), c, n) && t.pc.Idle? && t.heap == HeapModel.Malloc(s.heap, c, size)
    ensures t.outcome == Got(s.heap.h[i].start, NextOf(t.heap.h, i, c.size))
  {
    var r, u := Commit(s.heap, c, i, size), Examine(s, c, i, size);
    var mem, end := s.heap.h[i].start, NextOf(r.h, i, c.size);
    ExamineInv(s, c, i, size);
    CommitTiles(s.heap, c, i, size);
    IndexOf(r.h, i, c.size, c.hdr);
    if u.pc.Adjusting? {
      n, t := AdjustEnds(u, c, i, FirstFreeFrom(r.h, i, c.size));
    } else {
      n, t := 0, u;
    }
  }

  lemma {:induction false} ScanEnds(s: State, c: Cfg, i: nat, size: nat) returns (n: nat, t: State)
    requires Inv(s, c) && s.pc.Scanning? && !s.disturbed && i == Index(s.heap.h, s.pc.ptr) && size == s.pc.size
    ensures t == Steps(s, c, n) && t.pc.Idle? && t.heap == HeapModel.Malloc(s.heap, c, size)
    ensures t.outcome.Failed? <==> FirstFit(s.heap.h, c, size) == |s.heap.h|
    decreases |s.heap.h| - i
  {
    if BlockFits(s.heap.h, i, c, size) {
      ScanStep(s.heap.h, i, c, size);
      n, t := TakenEnds(s, c, i, size);
    } else {
      ScanOn(s, c, i, size);
      t := Resume(s, c);
      if t.pc.Idle? {
        n := 0;
      } else {
        n, t := ScanEnds(t, c, i + 1, size);
      }
    }
    n := n + 1;
  }

  /** One undisturbed step of the scan that does not take the block. */
  lemma ScanOn(s: State, c: Cfg, i: nat, size: nat)
    requires Inv(s, c) && s.pc.Scanning? && !s.disturbed && i == Index(s.heap.h, s.pc.ptr) && size == s.pc.size
    requires !BlockFits(s.heap.h, i, c, size)
    ensures i < |s.heap.h|
    ensures var t := Resume(s, c);
            && Inv(t, c) && t.heap == s.heap
            && if t.pc.Idle? then t.outcome.Failed? && FirstFit(s.heap.h, c, size) == |s.heap.h|
               else t.pc.Scanning? && t.pc.size == size && !t.disturbed && Index(t.heap.h, t.pc.ptr) == i + 1
  {
    ExamineInv(s, c, i, size);
    var t := Resume(s, c);
    if !t.pc.Idle? {
      ScanMoves(s.heap.h, i, c, size, t.pc.ptr);
    }
  }

  lemma ScanMoves(h: Blocks, i: nat, c: Cfg, size: nat, ptr: nat)
    requires c.Ok() && Tile(h, 0, c.size, c.hdr) && i < |h| && ptr == NextOf(h, i, c.size) < c.size
    ensures Index(h, ptr) == i + 1
  {
    if i + 1 < |h| {
      IndexOf(h, i + 1, c.size, c.hdr);
    }
  }

  /** Left alone, the interruptible allocation is the sequential one. */
  lemma UninterruptedMalloc(s: State, c: Cfg, size: nat) returns (n: nat, t: State)
    requires Inv(s, c) && s.pc.Idle?
    ensures t == Steps(Begin(s, c, size), c, n) && t.pc.Idle? && t.heap == HeapModel.Malloc(s.heap, c, size)
    ensures t.outcome.Failed? <==> FirstFit(s.heap.h, c, size) == |s.heap.h|
  {
    BeginInv(s, c, size);
    t := Begin(s, c, size);
    if t.pc.Idle? {
      n := 0;
    } else {
      n, t := ScanEnds(t, c, Index(t.heap.h, t.pc.ptr), size);
    }
  }
}
