/** The free-list allocator of kernel/memman.c, in place on its array. */
module Memman {
  import opened Words
  import opened FreeBlocks
  import opened MemLayout

  const MEMMAN_FREES: nat := 4090
  const MEMSTART: u32 := 0x0040_0000
  const KWALL: u32 := 0x0060_0000
  const WALL: u32 := 0x0080_0000
  const UWALL: u32 := 0x0100_0000
  const MEMEND: u32 := 0x0200_0000
  const PAGE: u32 := 0x1000

  const ALLOC_ZONE := Zone(WALL, UWALL)
  const KALLOC_ZONE := Zone(KWALL, WALL)
  const ALLOC_4K_ZONE := Zone(UWALL, MEMEND)
  const KALLOC_4K_ZONE := Zone(MEMSTART, KWALL)

  function Without(bs: seq<Block>, i: nat): seq<Block>
    requires i < |bs|
  {
    seq(|bs| - 1, k requires 0 <= k < |bs| - 1 => if k < i then bs[k] else bs[k + 1])
  }

  function With(bs: seq<Block>, i: nat, b: Block): seq<Block>
    requires i <= |bs|
  {
    seq(|bs| + 1, k requires 0 <= k <= |bs| => if k < i then bs[k] else if k == i then b else bs[k - 1])
  }

  lemma WithoutIs(bs: seq<Block>, i: nat)
    requires i < |bs|
    ensures Without(bs, i) == bs[..i] + bs[i + 1..]
  {
  }

  lemma WithIs(bs: seq<Block>, i: nat, b: Block)
    requires i <= |bs|
    ensures With(bs, i, b) == bs[..i] + [b] + bs[i..]
  {
  }

  lemma InsertMerges(bs: seq<Block>, addr: u32, size: u32)
    requires Bounded(bs) && addr + size < TWO32 && !TouchesLeft(bs, addr) && !TouchesRight(bs, addr, size)
    ensures With(bs, Position(bs, addr), Block(addr, size)) == MergedIn(bs, addr, size)
  {
    WithIs(bs, Position(bs, addr), Block(addr, size));
  }

  lemma PartsAre(b: Block, wall: u32)
    requires wall < b.End() < TWO32
    ensures RightPart(b, wall) == Block(wall, Sub32(Add32(b.addr, b.size), wall))
    ensures LeftPart(b, wall) == Block(b.addr, Sub32(Sub32(wall, GUARD), b.addr))
  {
  }

  lemma CutIs(bs: seq<Block>, i: nat, wall: u32)
    requires i < |bs| && wall < bs[i].End() < TWO32
    ensures With(bs, i + 1, RightPart(bs[i], wall))[i := LeftPart(bs[i], wall)] == Cut(bs, i, wall)
  {
  }

  /** The block before i grown by the range and, when they now touch, by block i. */
  function GrownLeft(bs: seq<Block>, i: nat, addr: u32, size: u32): seq<Block>
    requires 0 < i <= |bs| && addr + size < TWO32
    requires bs[i - 1].End() == addr && (i < |bs| ==> bs[i].End() < TWO32)
  {
    var b := bs[i - 1];
    if i < |bs| && addr + size == bs[i].addr then Without(bs[i - 1 := Block(b.addr, b.size + size + bs[i].size)], i)
    else bs[i - 1 := Block(b.addr, b.size + size)]
  }

  lemma GrownLeftMerges(bs: seq<Block>, addr: u32, size: u32)
    requires Bounded(bs) && addr + size < TWO32 && TouchesLeft(bs, addr)
    ensures GrownLeft(bs, Position(bs, addr), addr, size) == MergedIn(bs, addr, size)
  {
    hide Position;
    var i := Position(bs, addr);
    var b := Merged(bs, addr, size);
    if TouchesRight(bs, addr, size) {
      var grown := bs[i - 1 := b];
      WithoutIs(grown, i);
      assert grown[..i] == bs[..i - 1] + [b] && grown[i + 1..] == bs[i + 1..];
    } else {
      assert bs[i - 1 := b] == bs[..i - 1] + [b] + bs[i..];
    }
  }

  lemma GrownRightMerges(bs: seq<Block>, addr: u32, size: u32)
    requires Bounded(bs) && addr + size < TWO32 && !TouchesLeft(bs, addr) && TouchesRight(bs, addr, size)
    ensures var i := Position(bs, addr);
            bs[i := Block(addr, bs[i].size + size)] == MergedIn(bs, addr, size)
  {
  }

  class MemMan {
    const free: array<Block>
    var frees: nat
    var maxfrees: nat
    var lostsize: u32
    var losts: u32

    predicate Shape()
      reads this
    {
      free.Length == MEMMAN_FREES && frees <= MEMMAN_FREES
    }

    ghost predicate Valid()
      reads this, free
    {
      Shape() && Bounded(Blocks())
    }

    /** The abstract value: the blocks in use. */
    ghost function Blocks(): seq<Block>
      reads this, free
      requires Shape()
    {
      free[..frees]
    }

    /** `memman_init` on a fresh table. */
    constructor ()
      ensures Valid() && fresh(free) && Blocks() == []
      ensures maxfrees == 0 && lostsize == 0 && losts == 0
    {
      free := new Block[MEMMAN_FREES](_ => Block(0, 0));
      frees, maxfrees, lostsize, losts := 0, 0, 0, 0;
    }

    /** Delete entry i, moving the later ones one place forward. */
    method CloseGap(i: nat)
      requires Shape() && i < frees
      modifies this`frees, free
      ensures Shape() && Blocks() == Without(old(Blocks()), i)
    {
      ghost var bs := Blocks();
      frees := frees - 1;
      var k := i;
      while k < frees
        invariant i <= k <= frees == |bs| - 1
        invariant forall j :: 0 <= j < i ==> free[j] == bs[j]
        invariant forall j :: i <= j < k ==> free[j] == bs[j + 1]
        invariant forall j :: k <= j < |bs| ==> free[j] == bs[j]
        modifies free
      {
        free[k] := free[k + 1];
        k := k + 1;
      }
    }

    /** Make room at i, moving the later entries one place back, and put b there. */
    method InsertAt(i: nat, b: Block)
      requires Shape() && i <= frees < MEMMAN_FREES
      modifies this`frees, this`maxfrees, free
      ensures Shape() && Blocks() == With(old(Blocks()), i, b)
      ensures frees == old(frees) + 1 && maxfrees == Max(old(maxfrees), frees)
    {
      ghost var bs := Blocks();
      var j := frees;
      while j > i
        invariant i <= j <= |bs| == frees
        invariant forall k :: 0 <= k < j ==> free[k] == bs[k]
        invariant forall k :: j < k <= |bs| ==> free[k] == bs[k - 1]
        modifies free
      {
        free[j] := free[j - 1];
        j := j - 1;
      }
      frees := frees + 1;
      if maxfrees < frees {
        maxfrees := frees;
      }
      free[i] := b;
    }

    /** The front of block i is handed out; a block of which nothing is left goes. */
    method TakeAt(i: nat, size: u32)
      requires Valid() && i < frees && size <= free[i].size
      modifies this`frees, free
      ensures Valid() && Blocks() == Take(old(Blocks()), i, size)
    {
      ghost var bs := Blocks();
      free[i] := Block(free[i].addr + size, free[i].size - size);
      if free[i].size == 0 {
        CloseGap(i);
        WithoutIs(bs[i := Block(bs[i].addr + size, 0)], i);
      }
      TakeBounded(bs, i, size);
    }

    /** The loop the four allocators share: first fit inside the zone. */
    method AllocIn(z: Zone, size: u32) returns (a: u32)
      requires Valid()
      modifies this`frees, free
      ensures Valid()
      ensures Took(old(Blocks()), Blocks(), z, size, a)
    {
      hide Take, Bounded;
      ghost var bs := Blocks();
      var i := 0;
      while i < frees
        invariant 0 <= i <= frees && Shape() && Blocks() == bs
        invariant forall j :: 0 <= j < i ==> !Fits(free[j], z, size)
      {
        if free[i].addr >= z.lo && Add32(free[i].addr, size) < z.hi {
          if free[i].size >= size {
            FirstFitIs(Blocks(), z, size, i);
            a := free[i].addr;
            TakeAt(i, size);
            return;
          }
        }
        i := i + 1;
      }
      FirstFitIs(Blocks(), z, size, i);
      a := MAX_UNSIGNED_INT;
    }

    /** 8 MiB to 16 MiB. */
    method Alloc(size: u32) returns (a: u32)
      requires Valid() && Separated(Blocks())
      modifies this`frees, free
      ensures Valid() && Separated(Blocks())
      ensures Took(old(Blocks()), Blocks(), ALLOC_ZONE, size, a) && Granted(old(Blocks()), Blocks(), ALLOC_ZONE, size, a)
      ensures a == 0xFFFF_FFFF <==> forall i :: 0 <= i < |old(Blocks())| ==>
        var b := old(Blocks())[i]; !(0x80_0000 <= b.addr && b.addr + size < 0x100_0000 && size <= b.size)
      ensures a != 0xFFFF_FFFF ==> 0x80_0000 <= a && a + size < 0x100_0000
    {
      a := AllocIn(ALLOC_ZONE, size);
      AllocGrants(old(Blocks()), Blocks(), ALLOC_ZONE, size, a);
      FailsIff(old(Blocks()), Blocks(), ALLOC_ZONE, size, a);
    }

    /** 6 MiB to 8 MiB. */
    method KAlloc(size: u32) returns (a: u32)
      requires Valid() && Separated(Blocks())
      modifies this`frees, free
      ensures Valid() && Separated(Blocks())
      ensures Took(old(Blocks()), Blocks(), KALLOC_ZONE, size, a) && Granted(old(Blocks()), Blocks(), KALLOC_ZONE, size, a)
      ensures a == 0xFFFF_FFFF <==> forall i :: 0 <= i < |old(Blocks())| ==>
        var b := old(Blocks())[i]; !(0x60_0000 <= b.addr && b.addr + size < 0x80_0000 && size <= b.size)
      ensures a != 0xFFFF_FFFF ==> 0x60_0000 <= a && a + size < 0x80_0000
    {
      a := AllocIn(KALLOC_ZONE, size);
      AllocGrants(old(Blocks()), Blocks(), KALLOC_ZONE, size, a);
      FailsIff(old(Blocks()), Blocks(), KALLOC_ZONE, size, a);
    }

    /** 16 MiB to 32 MiB, one page. */
    method Alloc4K() returns (a: u32)
      requires Valid() && Separated(Blocks())
      modifies this`frees, free
      ensures Valid() && Separated(Blocks())
      ensures Took(old(Blocks()), Blocks(), ALLOC_4K_ZONE, PAGE, a) && Granted(old(Blocks()), Blocks(), ALLOC_4K_ZONE, PAGE, a)
      ensures a == 0xFFFF_FFFF <==> forall i :: 0 <= i < |old(Blocks())| ==>
        var b := old(Blocks())[i]; !(0x100_0000 <= b.addr && b.addr + 0x1000 < 0x200_0000 && 0x1000 <= b.size)
      ensures a != 0xFFFF_FFFF ==> 0x100_0000 <= a && a + 0x1000 < 0x200_0000
    {
      a := AllocIn(ALLOC_4K_ZONE, PAGE);
      AllocGrants(old(Blocks()), Blocks(), ALLOC_4K_ZONE, PAGE, a);
      FailsIff(old(Blocks()), Blocks(), ALLOC_4K_ZONE, PAGE, a);
    }

    /** 4 MiB to 6 MiB, one page. */
    method KAlloc4K() returns (a: u32)
      requires Valid() && Separated(Blocks())
      modifies this`frees, free
      ensures Valid() && Separated(Blocks())
      ensures Took(old(Blocks()), Blocks(), KALLOC_4K_ZONE, PAGE, a) && Granted(old(Blocks()), Blocks(), KALLOC_4K_ZONE, PAGE, a)
      ensures a == 0xFFFF_FFFF <==> forall i :: 0 <= i < |old(Blocks())| ==>
        var b := old(Blocks())[i]; !(0x40_0000 <= b.addr && b.addr + 0x1000 < 0x60_0000 && 0x1000 <= b.size)
      ensures a != 0xFFFF_FFFF ==> 0x40_0000 <= a && a + 0x1000 < 0x60_0000
    {
      a := AllocIn(KALLOC_4K_ZONE, PAGE);
      AllocGrants(old(Blocks()), Blocks(), KALLOC_4K_ZONE, PAGE, a);
      FailsIff(old(Blocks()), Blocks(), KALLOC_4K_ZONE, PAGE, a);
    }

    method FindPosition(addr: u32) returns (i: nat)
      requires Valid()
      ensures i == Position(Blocks(), addr)
    {
      i := 0;
      while i < frees
        invariant 0 <= i <= frees
        invariant forall j :: 0 <= j < i ==> free[j].addr <= addr
      {
        if free[i].addr > addr {
          break;
        }
        i := i + 1;
      }
      PositionIs(Blocks(), addr, i);
    }

    /** The range starts where the block before it ends. */
    method GrowLeft(i: nat, addr: u32, size: u32)
      requires Shape() && 0 < i <= frees && addr + size < TWO32
      requires free[i - 1].End() == addr && (i < frees ==> free[i].End() < TWO32)
      modifies this`frees, free
      ensures Shape() && Blocks() == GrownLeft(old(Blocks()), i, addr, size) && frees <= old(frees)
    {
      free[i - 1] := Block(free[i - 1].addr, free[i - 1].size + size);
      if i < frees {
        if addr + size == free[i].addr {
          free[i - 1] := Block(free[i - 1].addr, free[i - 1].size + free[i].size);
          CloseGap(i);
        }
      }
    }

    /** The range ends where block i starts. */
    method GrowRight(i: nat, addr: u32, size: u32)
      requires Shape() && i < frees && free[i].size + size < TWO32
      modifies free
      ensures Shape() && Blocks() == old(Blocks())[i := Block(addr, old(Blocks())[i].size + size)]
    {
      free[i] := Block(addr, free[i].size + size);
    }

    /** Put the range back, unless it would need a slot the table does not have. */
    method PutBack(addr: u32, size: u32) returns (ok: bool)
      requires Valid() && 0 < size && addr + size < TWO32
      modifies this`frees, this`maxfrees, free
      ensures Shape()
      ensures Released(Blocks(), !ok) == Release(old(Blocks()), addr, size, MEMMAN_FREES)
      ensures maxfrees == if frees > old(frees) then Max(old(maxfrees), frees) else old(maxfrees)
    {
      hide Position, LeftOf, RightOf, Merged, GrownLeft, MergedIn, With;
      ghost var bs := Blocks();
      var i := FindPosition(addr);
      if i > 0 {
        if Add32(free[i - 1].addr, free[i - 1].size) == addr {
          GrowLeft(i, addr, size);
          GrownLeftMerges(bs, addr, size);
          return true;
        }
      }
      if i < frees {
        if addr + size == free[i].addr {
          GrownRightMerges(bs, addr, size);
          GrowRight(i, addr, size);
          return true;
        }
      }
      if frees < MEMMAN_FREES {
        InsertAt(i, Block(addr, size));
        InsertMerges(bs, addr, size);
        return true;
      }
      return false;
    }

    method Free(addr: u32, size: u32) returns (r: u32)
      requires Valid() && addr + size < TWO32
      modifies this, free
      ensures Valid()
      ensures var rel := Release(old(Blocks()), addr, size, MEMMAN_FREES);
              && Blocks() == rel.blocks
              && r == (if rel.lost then MAX_UNSIGNED_INT else 0)
              && losts == (if rel.lost then Add32(old(losts), 1) else old(losts))
              && lostsize == (if rel.lost then Add32(old(lostsize), size) else old(lostsize))
      ensures maxfrees == if frees > old(frees) then Max(old(maxfrees), frees) else old(maxfrees)
    {
      ReleaseBounded(Blocks(), addr, size, MEMMAN_FREES);
      if size == 0 {
        return 0;
      }
      var ok := PutBack(addr, size);
      if ok {
        return 0;
      }
      losts := Add32(losts, 1);
      lostsize := Add32(lostsize, size);
      r := MAX_UNSIGNED_INT;
    }

    method FindStraddler(wall: u32) returns (i: nat)
      requires Valid()
      ensures i == Straddler(Blocks(), wall)
    {
      i := 0;
      while i < frees
        invariant 0 <= i <= frees
        invariant forall j :: 0 <= j < i ==> !Straddles(free[j], wall)
      {
        if free[i].addr <= wall && Add32(free[i].addr, free[i].size) > wall {
          break;
        }
        i := i + 1;
      }
      StraddlerFirst(Blocks(), wall, i);
    }

    /** One wall of `init`: cut the block that runs through it. */
    method SplitAt(wall: u32)
      requires Valid() && frees < MEMMAN_FREES && wall >= GUARD
      modifies this`frees, this`maxfrees, free
      ensures Shape() && frees <= old(frees) + 1
      ensures Blocks() == Split(old(Blocks()), wall)
    {
      ghost var bs := Blocks();
      var i := FindStraddler(wall);
      hide Straddler, With, Cut, LeftPart, RightPart, Sub32, Add32;
      if i < frees && free[i].addr != wall {
        CutIs(bs, i, wall);
        PartsAre(bs[i], wall);
        var right := Block(wall, Sub32(Add32(free[i].addr, free[i].size), wall));
        InsertAndPut(i, Block(free[i].addr, Sub32(Sub32(wall, GUARD), free[i].addr)), right);
      }
    }

    /** Block i becomes two. */
    method InsertAndPut(i: nat, left: Block, right: Block)
      requires Shape() && i < frees < MEMMAN_FREES
      modifies this`frees, this`maxfrees, free
      ensures Shape() && frees == old(frees) + 1
      ensures Blocks() == With(old(Blocks()), i + 1, right)[i := left]
    {
      InsertAt(i + 1, right);
      free[i] := left;
    }

    /** The first loop of `init`: free every segment the boot loader found usable. */
    method LoadSegments(info: seq<u32>)
      requires Shape() && Blocks() == [] && |info| <= 255 && Readable(info)
      modifies this, free
      ensures Valid() && Blocks() == Segments(info, MEMSTART)
    {
      hide Release, Segments;
      var memstart := MEMSTART;
      assert Segments(info[..0], MEMSTART) == [] by { SegmentsSeparated([], MEMSTART); }
      var i := 0;
      while i < |info|
        invariant 0 <= i <= |info|
        invariant Valid()
        invariant memstart == AfterAll(info[..i], MEMSTART)
        invariant Blocks() == Segments(info[..i], MEMSTART)
      {
        SegmentsGrow(info[..i], info[i], MEMSTART);
        assert info[..i + 1] == info[..i] + [info[i]];
        if info[i] >= memstart {
          var r := Free(memstart, info[i] - memstart);
          memstart := Add32(info[i], GUARD);
        }
        i := i + 1;
      }
      assert info[..|info|] == info;
    }

    /** `init`: `info` lists the ends of the usable segments, as the boot loader reports them. */
    method Init(info: seq<u32>)
      requires Shape() && Blocks() == [] && |info| <= 255 && Readable(info)
      requires Uncramped(Segments(info, MEMSTART))
      modifies this, free
      ensures Valid() && (SegmentsSeparated(info, MEMSTART); Blocks() == Initial(Segments(info, MEMSTART)))
    {
      LoadSegments(info);
      SegmentsSeparated(info, MEMSTART);
      InitialSound(Blocks());
      SplitAt(KWALL);
      SplitAt(WALL);
      SplitAt(UWALL);
    }

    method MemTotal() returns (t: u32)
      requires Valid() && Separated(Blocks())
      ensures t == Total(Blocks())
    {
      t := 0;
      var i := 0;
      while i < frees
        invariant 0 <= i <= frees
        invariant t == Total(Blocks()[..i])
      {
        TotalPrefix(Blocks(), i);
        t := Add32(t, free[i].size);
        i := i + 1;
      }
      assert Blocks()[..frees] == Blocks();
    }
  }

  lemma TotalPrefix(bs: seq<Block>, i: nat)
    requires Separated(bs) && i < |bs|
    ensures Total(bs[..i + 1]) == Total(bs[..i]) + bs[i].size < TWO32
  {
    assert bs[..i + 1] == bs[..i] + [bs[i]];
    TotalConcat(bs[..i], [bs[i]]);
    EndsSeparated(bs, i + 1);
    TotalBelow(bs[..i + 1]);
  }

  lemma {:induction false} FirstFitIs(bs: seq<Block>, z: Zone, size: u32, i: nat)
    requires i <= |bs|
    requires forall j :: 0 <= j < i ==> !Fits(bs[j], z, size)
    requires i < |bs| ==> Fits(bs[i], z, size)
    ensures FirstFit(bs, z, size) == i
  {
  }

  lemma {:induction false} StraddlerFirst(bs: seq<Block>, wall: u32, i: nat)
    requires i <= |bs|
    requires forall j :: 0 <= j < i ==> !Straddles(bs[j], wall)
    requires i < |bs| ==> Straddles(bs[i], wall)
    ensures Straddler(bs, wall) == i
  {
  }

  lemma AppendMerges(bs: seq<Block>, addr: u32, size: u32)
    requires Bounded(bs) && addr + size < TWO32 && size > 0 && |bs| < MEMMAN_FREES
    requires forall i :: 0 <= i < |bs| ==> bs[i].End() < addr
    ensures Release(bs, addr, size, MEMMAN_FREES) == Released(bs + [Block(addr, size)], false)
  {
    PositionIs(bs, addr, |bs|);
    assert !TouchesLeft(bs, addr) && !TouchesRight(bs, addr, size);
    InsertMerges(bs, addr, size);
  }

  /** Releasing the next segment appends it. */
  lemma SegmentsGrow(info: seq<u32>, e: u32, start: u32)
    requires Readable(info) && e + GUARD < TWO32 && Readable(info + [e]) && |info| < MEMMAN_FREES
    ensures var last := AfterAll(info, start);
            var bs := Segments(info, start);
            && Bounded(bs) && |bs| <= |info|
            && AfterAll(info + [e], start) == After(e, last)
            && (e < last ==> Segments(info + [e], start) == bs)
            && (e >= last ==> Release(bs, last, e - last, MEMMAN_FREES) == Released(Segments(info + [e], start), false))
  {
    hide Readable, Separated, MergedIn, Segments, AfterAll, After;
    SegmentsSeparated(info, start);
    SegmentsSnoc(info, e, start);
    var last := AfterAll(info, start);
    var bs := Segments(info, start);
    if e > last {
      AppendMerges(bs, last, e - last);
    }
  }

  /** A released range is lost exactly when all 4090 slots are in use and no free block ends
      where it starts or starts where it ends. */
  lemma LostIff(bs: seq<Block>, addr: u32, size: u32)
    requires Separated(bs) && size > 0 && addr + size < TWO32 && Unfree(bs, addr, size)
    ensures Release(bs, addr, size, MEMMAN_FREES).lost
            <==> |bs| >= 4090 && forall i :: 0 <= i < |bs| ==> bs[i].End() != addr && bs[i].addr != addr + size
  {
    NeighboursMakeRoom(bs, addr, size);
    hide MergedIn;
    var p := Position(bs, addr);
    forall i | 0 <= i < |bs| && (bs[i].End() == addr || bs[i].addr == addr + size)
      ensures TouchesLeft(bs, addr) || TouchesRight(bs, addr, size)
    {
      if bs[i].End() == addr {
        assert forall j :: i < j < |bs| ==> addr < bs[j].addr;
      } else {
        assert forall j :: 0 <= j < i ==> bs[j].End() < addr + size;
      }
    }
  }

  /** No usable segment starts inside the page below a wall and runs through that wall. */
  ghost predicate Uncramped(raw: seq<Block>) {
    !Cramped(raw, KWALL) && !Cramped(raw, WALL) && !Cramped(raw, UWALL)
  }

  /** The three cuts, in the order `init` makes them. */
  function Initial(raw: seq<Block>): seq<Block>
    requires Separated(raw) && Uncramped(raw)
  {
    InitialSound(raw);
    Split(Split(Split(raw, KWALL), WALL), UWALL)
  }

  /** Memory that is not cramped at a wall is walled off there, and still a proper free list. */
  lemma InitialSound(raw: seq<Block>)
    requires Separated(raw) && Uncramped(raw)
    ensures var a := Split(raw, KWALL);
            && Separated(a) && Separated(Split(a, WALL)) && Separated(Split(Split(a, WALL), UWALL))
            && var m := Split(Split(a, WALL), UWALL);
               Walled(m, KWALL) && Walled(m, WALL) && Walled(m, UWALL)
  {
    var a := Split(raw, KWALL);
    SplitSound(raw, KWALL);
    SplitWalls(raw, KWALL);
    SplitKeepsUncramped(raw, KWALL, WALL);
    SplitKeepsUncramped(raw, KWALL, UWALL);
    var b := Split(a, WALL);
    SplitSound(a, WALL);
    SplitWalls(a, WALL);
    SplitKeepsUncramped(a, WALL, UWALL);
    SplitKeepsWalled(a, WALL, KWALL);
    SplitSound(b, UWALL);
    SplitWalls(b, UWALL);
    SplitKeepsWalled(b, UWALL, KWALL);
    SplitKeepsWalled(b, UWALL, WALL);
  }

  /** Byte x is in the guard page below a wall that memory runs through. */
  predicate Guarded(raw: seq<Block>, wall: u32, x: int) {
    Through(raw, wall) && wall - GUARD <= x < wall
  }

  /** What `init` takes away: exactly the guard pages below the walls memory runs through. */
  lemma InitialCount(raw: seq<Block>, x: int)
    requires Separated(raw) && Uncramped(raw)
    ensures Count(Initial(raw), x)
            == Count(raw, x) - if Guarded(raw, KWALL, x) || Guarded(raw, WALL, x) || Guarded(raw, UWALL, x) then 1 else 0
  {
    hide Through, Count, Split, Cramped;
    InitialSound(raw);
    SplitKeepsUncramped(raw, KWALL, WALL);
    SplitKeepsUncramped(raw, KWALL, UWALL);
    var a := Split(raw, KWALL);
    SplitKeepsUncramped(a, WALL, UWALL);
    SplitCount(raw, KWALL, x);
    SplitCount(a, WALL, x);
    SplitCount(Split(a, WALL), UWALL, x);
    SplitKeepsThrough(raw, KWALL, WALL);
    SplitKeepsThrough(raw, KWALL, UWALL);
    SplitKeepsThrough(a, WALL, UWALL);
  }

  predicate IsWall(wall: u32) {
    wall == KWALL || wall == WALL || wall == UWALL
  }

  /** No block holds any byte of the page below the wall. */
  ghost predicate GuardClear(bs: seq<Block>, wall: u32) {
    forall x :: wall - GUARD <= x < wall ==> Count(bs, x) == 0
  }

  /** A guard page is clear after `init` exactly when memory runs through its wall, or when
      there was no memory in it to begin with. */
  lemma GuardClearIff(raw: seq<Block>, wall: u32)
    requires Separated(raw) && Uncramped(raw) && IsWall(wall)
    ensures GuardClear(Initial(raw), wall) <==> Through(raw, wall) || GuardClear(raw, wall)
  {
    forall x | wall - GUARD <= x < wall
      ensures Count(Initial(raw), x) == if Through(raw, wall) then 0 else Count(raw, x)
    {
      GuardCount(raw, wall, x);
    }
    hide Through, Uncramped, Separated, Split;
  }

  lemma GuardCount(raw: seq<Block>, wall: u32, x: int)
    requires Separated(raw) && Uncramped(raw) && IsWall(wall) && wall - GUARD <= x < wall
    ensures Count(Initial(raw), x) == if Through(raw, wall) then 0 else Count(raw, x)
  {
    InitialCount(raw, x);
    SeparatedCountsOnce(raw, x);
    hide Through, Initial, Uncramped;
  }

  /** Such a page that is not clear: memory that ends at the first wall. */
  lemma GuardNotClear()
    ensures var raw := [Block(0x40_0000, 0x20_0000)];
            && Separated(raw) && Uncramped(raw) && !Through(raw, KWALL) && Count(Initial(raw), KWALL - 1) == 1
  {
    var raw := [Block(0x40_0000, 0x20_0000)];
    assert Straddler(raw, KWALL) == 1 && Straddler(raw, WALL) == 1 && Straddler(raw, UWALL) == 1;
  }

  lemma {:induction false} PositionIs(bs: seq<Block>, addr: u32, i: nat)
    requires i <= |bs|
    requires forall j :: 0 <= j < i ==> bs[j].addr <= addr
    requires i < |bs| ==> addr < bs[i].addr
    ensures Position(bs, addr) == i
  {
  }

  lemma {:induction false} TotalBelow(bs: seq<Block>)
    requires Separated(bs) && bs != []
    ensures bs[0].addr + Total(bs) < TWO32
  {
    if |bs| > 1 {
      EndsSeparated(bs, 1);
      TotalBelow(bs[1..]);
    }
  }

  /** What an allocator does: cut the first block that fits, or fail. */
  ghost predicate Took(before: seq<Block>, after: seq<Block>, z: Zone, size: u32, a: u32)
    requires Bounded(before)
  {
    var i := FirstFit(before, z, size);
    if i < |before| then a == before[i].addr && after == Take(before, i, size)
    else a == MAX_UNSIGNED_INT && after == before
  }

  /** What every caller of an allocator relies on: a range inside the zone that was free
      and no longer is, with every other byte as before; failure only when nothing fits. */
  ghost predicate Granted(before: seq<Block>, after: seq<Block>, z: Zone, size: u32, a: u32) {
    if a == MAX_UNSIGNED_INT then
      after == before && forall i :: 0 <= i < |before| ==> !Fits(before[i], z, size)
    else
      && z.lo <= a && a + size < z.hi
      && Total(after) + size == Total(before)
      && (forall x :: Count(after, x) + (if Block(a, size).Has(x) then 1 else 0) == Count(before, x))
      && (forall i :: 0 <= i < |before| && before[i].addr < a ==> !Fits(before[i], z, size))
  }

  lemma TakeGrants(bs: seq<Block>, z: Zone, size: u32, i: nat)
    requires Separated(bs) && i < |bs| && Fits(bs[i], z, size)
    requires forall j :: 0 <= j < i ==> !Fits(bs[j], z, size)
    ensures Separated(Take(bs, i, size)) && Granted(bs, Take(bs, i, size), z, size, bs[i].addr)
  {
    TakeSeparated(bs, i, size);
    TakeCount(bs, i, size, 0);
    var after := Take(bs, i, size);
    forall x
      ensures Count(after, x) + (if Block(bs[i].addr, size).Has(x) then 1 else 0) == Count(bs, x)
    {
      TakeCount(bs, i, size, x);
    }
  }

  /** An allocator fails exactly when no block starts in the zone, ends the range before its end
      and is large enough; a block that fits to the byte is taken. */
  lemma FailsIff(before: seq<Block>, after: seq<Block>, z: Zone, size: u32, a: u32)
    requires Separated(before) && Took(before, after, z, size, a)
    ensures a == MAX_UNSIGNED_INT <==>
      forall i :: 0 <= i < |before| ==>
        !(z.lo <= before[i].addr && before[i].addr + size < z.hi && size <= before[i].size)
    ensures a != MAX_UNSIGNED_INT ==> z.lo <= a && a + size < z.hi
  {
    var k := FirstFit(before, z, size);
    forall i | 0 <= i < |before|
      ensures Fits(before[i], z, size) <==>
        z.lo <= before[i].addr && before[i].addr + size < z.hi && size <= before[i].size
    {
      FitsIs(before[i], z, size);
    }
    hide Fits, Take;
  }

  lemma FitsIs(b: Block, z: Zone, size: u32)
    requires b.End() < TWO32
    ensures Fits(b, z, size) <==> z.lo <= b.addr && b.addr + size < z.hi && size <= b.size
  {
  }

  lemma AllocGrants(before: seq<Block>, after: seq<Block>, z: Zone, size: u32, a: u32)
    requires Separated(before) && Took(before, after, z, size, a)
    ensures Separated(after) && Granted(before, after, z, size, a)
  {
    var i := FirstFit(before, z, size);
    if i < |before| {
      TakeGrants(before, z, size, i);
    }
  }
}
