/** Whole runs of the allocator: allocations of any of the four kinds and releases of live
    allocations, in any order, from the memory `init` leaves behind. */
module MemRuns {
  import opened Words
  import opened FreeBlocks
  import opened MemLayout
  import opened Memman

  /** The free list, the allocations outstanding, the ranges lost and the account of them. */
  datatype State = State(free: seq<Block>, live: seq<Block>, lost: seq<Block>, lostsize: u32)

  predicate IsZone(z: Zone, size: u32) {
    || z == ALLOC_ZONE || z == KALLOC_ZONE
    || (z == ALLOC_4K_ZONE && size == PAGE) || (z == KALLOC_4K_ZONE && size == PAGE)
  }

  ghost predicate Allocates(s: State, z: Zone, size: u32, a: u32, s': State) {
    && Bounded(s.free) && Took(s.free, s'.free, z, size, a) && s'.lost == s.lost && s'.lostsize == s.lostsize
    && s'.live == if a == MAX_UNSIGNED_INT then s.live else s.live + [Block(a, size)]
  }

  ghost predicate Frees(s: State, k: nat, s': State)
    requires k < |s.live|
  {
    var b := s.live[k];
    && Bounded(s.free) && b.End() < TWO32
    && var rel := Release(s.free, b.addr, b.size, MEMMAN_FREES);
       && s'.free == rel.blocks
       && s'.lost == (if rel.lost then s.lost + [b] else s.lost)
       && s'.lostsize == (if rel.lost then Add32(s.lostsize, b.size) else s.lostsize)
       && s'.live == s.live[..k] + s.live[k + 1..]
  }

  ghost predicate AllocStep(s: State, s': State) {
    exists z, size, a :: IsZone(z, size) && Allocates(s, z, size, a, s')
  }

  ghost predicate FreeStep(s: State, s': State) {
    exists k :: 0 <= k < |s.live| && Frees(s, k, s')
  }

  ghost predicate IsRun(m: seq<Block>, ss: seq<State>) {
    && ss != [] && ss[0] == State(m, [], [], 0)
    && forall i :: 0 < i < |ss| ==> AllocStep(ss[i - 1], ss[i]) || FreeStep(ss[i - 1], ss[i])
  }

  /** Every byte is where it started: free, held by one live allocation, or lost. */
  ghost predicate Conserved(m: seq<Block>, s: State) {
    && Total(s.free) + Total(s.live) + Total(s.lost) == Total(m)
    && forall x :: Count(s.free, x) + Count(s.live, x) + Count(s.lost, x) == Count(m, x)
  }

  ghost predicate Zoned(s: State) {
    forall k :: 0 <= k < |s.live| ==>
      exists z :: IsZone(z, s.live[k].size) && z.lo <= s.live[k].addr && s.live[k].End() < z.hi
  }

  ghost predicate Inv(m: seq<Block>, s: State) {
    Separated(m) && Separated(s.free) && Conserved(m, s) && Zoned(s) && s.lostsize == Total(s.lost)
  }

  lemma AllocKeeps(m: seq<Block>, s: State, z: Zone, size: u32, a: u32, s': State)
    requires Inv(m, s) && IsZone(z, size) && Allocates(s, z, size, a, s')
    ensures Inv(m, s')
  {
    hide Took, Separated, Fits;
    AllocGrants(s.free, s'.free, z, size, a);
    if a != MAX_UNSIGNED_INT {
      TotalConcat(s.live, [Block(a, size)]);
      forall x
        ensures Count(s'.free, x) + Count(s'.live, x) + Count(s'.lost, x) == Count(m, x)
      {
        CountConcat(s.live, [Block(a, size)], x);
        assert Count(s'.free, x) + (if Block(a, size).Has(x) then 1 else 0) == Count(s.free, x);
        assert Count([Block(a, size)], x) == if Block(a, size).Has(x) then 1 else 0;
      }
    }
  }

  /** A live byte is not free, so a release never overlaps free memory. */
  lemma LiveIsUnfree(m: seq<Block>, s: State, k: nat)
    requires Inv(m, s) && k < |s.live|
    ensures s.live[k].End() < TWO32 && Unfree(s.free, s.live[k].addr, s.live[k].size)
  {
    forall x | s.live[k].Has(x)
      ensures Count(s.free, x) == 0
    {
      CountedInside(s.live, k, x);
      SeparatedCountsOnce(m, x);
      assert Count(s.free, x) + Count(s.live, x) + Count(s.lost, x) == Count(m, x);
    }
  }

  lemma FreeConserves(m: seq<Block>, s: State, k: nat, s': State)
    requires Conserved(m, s) && k < |s.live| && Frees(s, k, s')
    ensures Conserved(m, s')
  {
    var b := s.live[k];
    forall x
      ensures Total(s'.free) + Total(s'.live) + Total(s'.lost) == Total(m)
      ensures Count(s'.free, x) + Count(s'.live, x) + Count(s'.lost, x) == Count(m, x)
    {
      hide Release;
      assert Count(s.free, x) + Count(s.live, x) + Count(s.lost, x) == Count(m, x);
      ReleaseCount(s.free, b.addr, b.size, MEMMAN_FREES, x);
      Around(s.live, k, x);
      CountConcat(s.live[..k], s.live[k + 1..], x);
      TotalConcat(s.live[..k], s.live[k + 1..]);
      CountConcat(s.lost, [b], x);
      TotalConcat(s.lost, [b]);
    }
  }

  lemma FreeKeeps(m: seq<Block>, s: State, k: nat, s': State)
    requires Inv(m, s) && k < |s.live| && Frees(s, k, s')
    ensures Inv(m, s')
  {
    LiveIsUnfree(m, s, k);
    ReleaseSeparated(s.free, s.live[k].addr, s.live[k].size, MEMMAN_FREES);
    FreeConserves(m, s, k, s');
    FreeAccount(m, s, k, s');
    hide Release, Conserved;
  }

  lemma FreeAccount(m: seq<Block>, s: State, k: nat, s': State)
    requires Separated(m) && s.lostsize == Total(s.lost) && Conserved(m, s') && k < |s.live| && Frees(s, k, s')
    ensures s'.lostsize == Total(s'.lost)
  {
    TotalSmall(m);
    LostFits(m, s');
    TotalConcat(s.lost, [s.live[k]]);
    hide Release, Conserved, Separated;
  }

  lemma TotalSmall(m: seq<Block>)
    requires Separated(m)
    ensures Total(m) < TWO32
  {
    if m != [] {
      TotalBelow(m);
    }
  }

  lemma LostFits(m: seq<Block>, s: State)
    requires Conserved(m, s)
    ensures Total(s.lost) <= Total(m)
  {
  }

  /** What `memman_total` reports, what is outstanding and what the account says is lost add
      up to the initial memory, in every reachable state. */
  lemma AccountBalances(m: seq<Block>, ss: seq<State>)
    requires Separated(m) && IsRun(m, ss)
    ensures var s := ss[|ss| - 1]; Total(s.free) + Total(s.live) + s.lostsize == Total(m)
  {
    RunKeeps(m, ss);
    hide IsRun;
  }

  /** The allocator's invariant holds in every reachable state. */
  lemma {:induction false} RunKeeps(m: seq<Block>, ss: seq<State>)
    requires Separated(m) && IsRun(m, ss)
    ensures Inv(m, ss[|ss| - 1])
  {
    if |ss| > 1 {
      var s, s' := ss[|ss| - 2], ss[|ss| - 1];
      RunKeeps(m, ss[..|ss| - 1]);
      if AllocStep(s, s') {
        var z, size, a :| IsZone(z, size) && Allocates(s, z, size, a, s');
        AllocKeeps(m, s, z, size, a, s');
      } else {
        var k :| 0 <= k < |s.live| && Frees(s, k, s');
        FreeKeeps(m, s, k, s');
      }
    }
  }

  /** Two live allocations never share a byte, and no live byte is free or lost. */
  lemma LiveApart(m: seq<Block>, ss: seq<State>, j: nat, k: nat, x: int)
    requires Separated(m) && IsRun(m, ss)
    requires var live := ss[|ss| - 1].live; j < k < |live|
    ensures var s := ss[|ss| - 1];
            && !(s.live[j].Has(x) && s.live[k].Has(x))
            && (s.live[j].Has(x) ==> Count(s.free, x) == 0 && Count(s.lost, x) == 0)
  {
    var s := ss[|ss| - 1];
    RunKeeps(m, ss);
    SeparatedCountsOnce(m, x);
    assert Count(s.free, x) + Count(s.live, x) + Count(s.lost, x) == Count(m, x);
    if s.live[j].Has(x) {
      Around(s.live, j, x);
      if s.live[k].Has(x) {
        CountedInside(s.live[j + 1..], k - j - 1, x);
      }
    }
  }

  /** Memory that was never handed to the allocator, a guard page above all, is never free,
      live or lost; and no block of any kind reaches across a wall. */
  lemma WallsStand(m: seq<Block>, ss: seq<State>, wall: u32, b: Block)
    requires Separated(m) && IsRun(m, ss) && Walled(m, wall)
    requires var s := ss[|ss| - 1]; b in s.free || b in s.live || b in s.lost
    ensures forall x :: b.Has(x) ==> Count(m, x) == 1
    ensures !(b.addr < wall < b.End())
  {
    RunKeeps(m, ss);
    var s := ss[|ss| - 1];
    forall x | b.Has(x)
      ensures Count(m, x) == 1
    {
      HasCounts(s.free, b, x);
      HasCounts(s.live, b, x);
      HasCounts(s.lost, b, x);
      assert Count(s.free, x) + Count(s.live, x) + Count(s.lost, x) == Count(m, x);
      SeparatedCountsOnce(m, x);
    }
    assert b.Has(wall - 1) && b.Has(wall) ==> Count(m, wall - 1) == Count(m, wall) == 1;
  }

  /** A guard page below a wall that memory runs through: in no state of any run after `init`
      is one of its bytes free, live or lost. */
  lemma GuardsStand(raw: seq<Block>, ss: seq<State>, wall: u32, x: int)
    requires Separated(raw) && Uncramped(raw) && IsWall(wall) && Guarded(raw, wall, x)
    requires IsRun(Initial(raw), ss)
    ensures var s := ss[|ss| - 1]; Count(s.free, x) == 0 && Count(s.live, x) == 0 && Count(s.lost, x) == 0
  {
    InitialSound(raw);
    GuardClearIff(raw, wall);
    RunKeeps(Initial(raw), ss);
    var s := ss[|ss| - 1];
    hide IsRun, Initial, Uncramped, Zoned;
    assert Count(s.free, x) + Count(s.live, x) + Count(s.lost, x) == Count(Initial(raw), x) == 0;
  }

  lemma HasCounts(bs: seq<Block>, b: Block, x: int)
    requires b.Has(x)
    ensures b in bs ==> Count(bs, x) >= 1
  {
    if b in bs {
      var i :| 0 <= i < |bs| && bs[i] == b;
      CountedInside(bs, i, x);
    }
  }

  // ---------------------------------------------------------------- page frames

  ghost predicate Paged(bs: seq<Block>) {
    && (forall i :: 0 <= i < |bs| && bs[i].addr >= UWALL ==> bs[i].addr % PAGE == 0 && bs[i].size % PAGE == 0)
    && forall i :: 0 <= i < |bs| && bs[i].addr < KWALL ==> bs[i].addr % PAGE == 0
  }

  /** Page frames stay whole: from page-aligned memory, every block in the two zones of pages,
      free or live, stays aligned, whatever sizes the byte allocators are asked for. */
  ghost predicate PagedState(s: State) {
    Paged(s.free) && Paged(s.live)
  }

  lemma TakePaged(bs: seq<Block>, z: Zone, size: u32, i: nat)
    requires Separated(bs) && Paged(bs) && IsZone(z, size) && i < |bs| && Fits(bs[i], z, size)
    ensures Paged(Take(bs, i, size))
    ensures bs[i].addr >= UWALL ==> bs[i].addr % PAGE == 0 && size % PAGE == 0
    ensures bs[i].addr < KWALL ==> bs[i].addr % PAGE == 0
  {
    var t := Take(bs, i, size);
    forall k | 0 <= k < |t|
      ensures t[k].addr >= UWALL ==> t[k].addr % PAGE == 0 && t[k].size % PAGE == 0
      ensures t[k].addr < KWALL ==> t[k].addr % PAGE == 0
    {
      if k < i {
        assert t[k] == bs[k];
      } else if bs[i].size == size {
        assert t[k] == bs[k + 1];
      } else if k > i {
        assert t[k] == bs[k];
      } else {
        assert bs[i].addr >= UWALL || bs[i].addr < KWALL ==> size == PAGE;
      }
    }
  }

  lemma ReleasePaged(bs: seq<Block>, addr: u32, size: u32)
    requires Bounded(bs) && Paged(bs) && addr + size < TWO32
    requires if addr >= UWALL then addr % PAGE == 0 && size % PAGE == 0 else addr + size < UWALL
    requires addr < KWALL ==> addr % PAGE == 0
    ensures Paged(Release(bs, addr, size, MEMMAN_FREES).blocks)
  {
    var r := Release(bs, addr, size, MEMMAN_FREES);
    if size > 0 && !r.lost {
      SidesPaged(bs, addr, size);
      MergedPaged(bs, addr, size);
      PagedMiddle(LeftOf(bs, addr), Merged(bs, addr, size), RightOf(bs, addr, size));
      hide Paged, LeftOf, RightOf, Merged;
    }
  }

  lemma SidesPaged(bs: seq<Block>, addr: u32, size: u32)
    requires Bounded(bs) && Paged(bs) && addr + size < TWO32
    ensures Paged(LeftOf(bs, addr)) && Paged(RightOf(bs, addr, size))
  {
    hide Position, Paged;
    var i := Position(bs, addr);
    PagedTake(bs, i);
    PagedDrop(bs, i);
    if i > 0 {
      PagedTake(bs, i - 1);
    }
    if i < |bs| {
      PagedDrop(bs, i + 1);
    }
  }

  lemma PagedTake(bs: seq<Block>, i: nat)
    requires Paged(bs) && i <= |bs|
    ensures Paged(bs[..i])
  {
  }

  lemma PagedDrop(bs: seq<Block>, i: nat)
    requires Paged(bs) && i <= |bs|
    ensures Paged(bs[i..])
  {
  }

  lemma PagedMiddle(a: seq<Block>, m: Block, c: seq<Block>)
    requires Paged(a) && Paged(c)
    requires m.addr >= UWALL ==> m.addr % PAGE == 0 && m.size % PAGE == 0
    requires m.addr < KWALL ==> m.addr % PAGE == 0
    ensures Paged(a + [m] + c)
  {
  }

  lemma MergedPaged(bs: seq<Block>, addr: u32, size: u32)
    requires Bounded(bs) && Paged(bs) && addr + size < TWO32
    requires if addr >= UWALL then addr % PAGE == 0 && size % PAGE == 0 else addr + size < UWALL
    requires addr < KWALL ==> addr % PAGE == 0
    ensures var m := Merged(bs, addr, size);
            && (m.addr >= UWALL ==> m.addr % PAGE == 0 && m.size % PAGE == 0)
            && (m.addr < KWALL ==> m.addr % PAGE == 0)
  {
    hide Position;
    var m := Merged(bs, addr, size);
    if m.addr >= UWALL {
      assert LeftSize(bs, addr) % PAGE == 0 && RightSize(bs, addr, size) % PAGE == 0;
    }
  }

  lemma AllocPaged(s: State, z: Zone, size: u32, a: u32, s': State)
    requires Separated(s.free) && PagedState(s) && IsZone(z, size) && Allocates(s, z, size, a, s')
    ensures PagedState(s')
  {
    var i := FirstFit(s.free, z, size);
    if i < |s.free| {
      TakePaged(s.free, z, size, i);
    }
  }

  lemma FreePaged(m: seq<Block>, s: State, k: nat, s': State)
    requires Inv(m, s) && PagedState(s) && k < |s.live| && Frees(s, k, s')
    ensures PagedState(s')
  {
    var b := s.live[k];
    assert b.addr < UWALL ==> b.End() < UWALL;
    ReleasePaged(s.free, b.addr, b.size);
    hide Release, Conserved;
  }

  lemma StepPaged(m: seq<Block>, s: State, s': State)
    requires Inv(m, s) && PagedState(s) && (AllocStep(s, s') || FreeStep(s, s'))
    ensures PagedState(s')
  {
    assert Separated(s.free);
    hide PagedState, Allocates, Frees, Inv, Separated;
    if AllocStep(s, s') {
      var z, size, a :| IsZone(z, size) && Allocates(s, z, size, a, s');
      AllocPaged(s, z, size, a, s');
    } else {
      var k :| 0 <= k < |s.live| && Frees(s, k, s');
      FreePaged(m, s, k, s');
    }
  }

  lemma {:induction false} RunPaged(m: seq<Block>, ss: seq<State>)
    requires Separated(m) && Paged(m) && IsRun(m, ss)
    ensures PagedState(ss[|ss| - 1])
  {
    if |ss| > 1 {
      var s, s' := ss[|ss| - 2], ss[|ss| - 1];
      RunPaged(m, ss[..|ss| - 1]);
      RunKeeps(m, ss[..|ss| - 1]);
      hide PagedState, Paged, Inv, Separated, AllocStep, FreeStep;
      StepPaged(m, s, s');
    }
  }

  /** Allocations from 4 to 6 MiB, tables and directories, and from 16 MiB up, user pages. */
  predicate IsFrame(b: Block) {
    b.addr < KWALL || b.addr >= UWALL
  }

  /** What paging relies on: live page frames are whole aligned pages, and no two have one
      frame number. */
  lemma FramesDistinct(m: seq<Block>, ss: seq<State>, j: nat, k: nat)
    requires Separated(m) && Paged(m) && IsRun(m, ss)
    requires var live := ss[|ss| - 1].live; j < k < |live| && IsFrame(live[j]) && IsFrame(live[k])
    ensures var live := ss[|ss| - 1].live;
            && live[j].size == live[k].size == PAGE
            && live[j].addr % PAGE == 0 && live[k].addr % PAGE == 0
            && live[j].addr / PAGE != live[k].addr / PAGE
  {
    RunPaged(m, ss);
    RunKeeps(m, ss);
    LiveApart(m, ss, j, k, ss[|ss| - 1].live[j].addr);
  }

  // ---------------------------------------------------------------- from the boot loader's report

  ghost predicate AllPaged(bs: seq<Block>) {
    forall i :: 0 <= i < |bs| ==> bs[i].addr % PAGE == 0 && bs[i].size % PAGE == 0
  }

  lemma SegmentsFirst(info: seq<u32>, start: u32)
    requires Readable(info) && info != []
    ensures Readable(info[1..]) && info[0] + GUARD < TWO32
    ensures Segments(info, start)
         == (if info[0] <= start then [] else [Block(start, info[0] - start)])
            + Segments(info[1..], After(info[0], start))
  {
  }

  lemma NoSegments(start: u32)
    ensures Readable([]) && Segments([], start) == []
  {
  }

  lemma {:induction false} SegmentsPaged(info: seq<u32>, start: u32)
    requires Readable(info) && start % PAGE == 0 && forall i :: 0 <= i < |info| ==> info[i] % PAGE == 0
    ensures AllPaged(Segments(info, start))
  {
    hide Readable, Segments;
    if info != [] {
      SegmentsFirst(info, start);
      SegmentsPaged(info[1..], After(info[0], start));
    } else {
      NoSegments(start);
    }
  }

  lemma PartsPaged(b: Block, wall: u32)
    requires b.addr % PAGE == 0 && b.size % PAGE == 0 && wall % PAGE == 0
    requires b.addr + GUARD < wall < b.End() < TWO32
    ensures AllPaged([LeftPart(b, wall), RightPart(b, wall)])
  {
    assert Sub32(Sub32(wall, GUARD), b.addr) == wall - GUARD - b.addr;
    DifferencePaged(wall, GUARD, b.addr);
    DifferencePaged(b.addr + b.size, 0, wall);
    hide Sub32;
  }

  lemma DifferencePaged(a: int, b: int, c: int)
    requires a % PAGE == 0 && b % PAGE == 0 && c % PAGE == 0
    ensures (a - b - c) % PAGE == 0
  {
  }

  lemma CutPaged(bs: seq<Block>, i: nat, wall: u32)
    requires AllPaged(bs) && i < |bs| && wall % PAGE == 0 && bs[i].addr + GUARD < wall < bs[i].End() < TWO32
    ensures AllPaged(Cut(bs, i, wall))
  {
    PartsPaged(bs[i], wall);
    AroundPaged(bs, i, LeftPart(bs[i], wall), RightPart(bs[i], wall));
  }

  lemma AroundPaged(bs: seq<Block>, i: nat, b: Block, c: Block)
    requires AllPaged(bs) && i < |bs| && AllPaged([b, c])
    ensures AllPaged(bs[..i] + [b] + ([c] + bs[i + 1..]))
  {
    var s := bs[..i] + [b] + ([c] + bs[i + 1..]);
    forall k | 0 <= k < |s|
      ensures s[k] == if k < i then bs[k] else if k == i then b else if k == i + 1 then c else bs[k - 1]
    {
    }
    assert [b, c][0] == b && [b, c][1] == c;
  }

  lemma SplitPaged(bs: seq<Block>, wall: u32)
    requires Separated(bs) && AllPaged(bs) && wall >= GUARD && wall % PAGE == 0 && !Cramped(bs, wall)
    ensures AllPaged(Split(bs, wall))
  {
    var i := Straddler(bs, wall);
    if i < |bs| && bs[i].addr != wall {
      NotCrampedAt(bs, wall, i);
      hide AllPaged, Cramped, Cut;
      CutPaged(bs, i, wall);
    }
  }

  lemma NotCrampedAt(bs: seq<Block>, wall: u32, i: nat)
    requires i < |bs| && !Cramped(bs, wall) && bs[i].addr < wall < bs[i].End()
    ensures bs[i].addr + GUARD < wall
  {
  }

  /** From any page-granular report that leaves room at the walls, every run keeps the
      allocator's invariant, three standing walls, whole page frames, and clear guard pages
      wherever memory runs through the wall. */
  lemma BootedRuns(info: seq<u32>, ss: seq<State>)
    requires Readable(info) && forall i :: 0 <= i < |info| ==> info[i] % PAGE == 0
    requires Uncramped(Segments(info, MEMSTART))
    requires (SegmentsSeparated(info, MEMSTART); IsRun(Initial(Segments(info, MEMSTART)), ss))
    ensures Inv(ss[0].free, ss[|ss| - 1]) && PagedState(ss[|ss| - 1])
    ensures Walled(ss[0].free, KWALL) && Walled(ss[0].free, WALL) && Walled(ss[0].free, UWALL)
    ensures forall wall: u32, x :: IsWall(wall) && Guarded(Segments(info, MEMSTART), wall, x) ==>
      var s := ss[|ss| - 1]; Count(s.free, x) == 0 && Count(s.live, x) == 0 && Count(s.lost, x) == 0
  {
    var raw := Segments(info, MEMSTART);
    SegmentsSeparated(info, MEMSTART);
    SegmentsPaged(info, MEMSTART);
    InitialSound(raw);
    InitialPaged(raw);
    RunKeeps(Initial(raw), ss);
    RunPaged(Initial(raw), ss);
    forall wall: u32, x | IsWall(wall) && Guarded(raw, wall, x)
      ensures var s := ss[|ss| - 1]; Count(s.free, x) == 0 && Count(s.live, x) == 0 && Count(s.lost, x) == 0
    {
      GuardsStand(raw, ss, wall, x);
    }
  }

  lemma InitialPaged(raw: seq<Block>)
    requires Separated(raw) && Uncramped(raw) && AllPaged(raw)
    ensures AllPaged(Initial(raw))
  {
    InitialSound(raw);
    SplitPaged(raw, KWALL);
    SplitKeepsUncramped(raw, KWALL, WALL);
    SplitKeepsUncramped(raw, KWALL, UWALL);
    var a := Split(raw, KWALL);
    SplitPaged(a, WALL);
    SplitKeepsUncramped(a, WALL, UWALL);
    SplitPaged(Split(a, WALL), UWALL);
  }
}
