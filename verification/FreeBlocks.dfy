/** Free lists as values: what `memman_alloc*` and `memman_free` do to the list, and what
    that means for each byte of memory. */
module FreeBlocks {
  import opened Words

  datatype Block = Block(addr: u32, size: u32) {
    function End(): int { addr + size }

    predicate Has(x: int) { addr <= x < addr + size }
  }

  ghost predicate Bounded(bs: seq<Block>) {
    forall i :: 0 <= i < |bs| ==> bs[i].End() < TWO32
  }

  /** Sorted, nonempty, below 4 GiB, and with a strict gap between neighbours:
      nothing that could be coalesced has been left apart. */
  ghost predicate Separated(bs: seq<Block>) {
    && (forall i :: 0 <= i < |bs| ==> 0 < bs[i].size && bs[i].End() < TWO32)
    && (forall i, j :: 0 <= i < j < |bs| ==> bs[i].End() < bs[j].addr)
  }

  /** How many blocks of a list hold byte x. */
  function Count(bs: seq<Block>, x: int): nat {
    if bs == [] then 0 else (if bs[0].Has(x) then 1 else 0) + Count(bs[1..], x)
  }

  /** `memman_total`, without the wrap. */
  function Total(bs: seq<Block>): nat {
    if bs == [] then 0 else bs[0].size + Total(bs[1..])
  }

  lemma {:induction false} CountConcat(a: seq<Block>, b: seq<Block>, x: int)
    ensures Count(a + b, x) == Count(a, x) + Count(b, x)
  {
    if a == [] {
      assert a + b == b;
    } else {
      assert (a + b)[1..] == a[1..] + b;
      CountConcat(a[1..], b, x);
    }
  }

  lemma {:induction false} TotalConcat(a: seq<Block>, b: seq<Block>)
    ensures Total(a + b) == Total(a) + Total(b)
  {
    if a == [] {
      assert a + b == b;
    } else {
      assert (a + b)[1..] == a[1..] + b;
      TotalConcat(a[1..], b);
    }
  }

  lemma CountMiddle(a: seq<Block>, m: Block, c: seq<Block>, x: int)
    ensures Count(a + [m] + c, x) == Count(a, x) + (if m.Has(x) then 1 else 0) + Count(c, x)
  {
    CountConcat(a + [m], c, x);
    CountConcat(a, [m], x);
  }

  lemma TotalMiddle(a: seq<Block>, m: Block, c: seq<Block>)
    ensures Total(a + [m] + c) == Total(a) + m.size + Total(c)
  {
    TotalConcat(a + [m], c);
    TotalConcat(a, [m]);
  }

  lemma Around(bs: seq<Block>, i: nat, x: int)
    requires i < |bs|
    ensures Count(bs, x) == Count(bs[..i], x) + (if bs[i].Has(x) then 1 else 0) + Count(bs[i + 1..], x)
    ensures Total(bs) == Total(bs[..i]) + bs[i].size + Total(bs[i + 1..])
  {
    assert bs == bs[..i] + [bs[i]] + bs[i + 1..];
    CountMiddle(bs[..i], bs[i], bs[i + 1..], x);
    TotalMiddle(bs[..i], bs[i], bs[i + 1..]);
  }

  lemma Halves(bs: seq<Block>, i: nat, x: int)
    requires i <= |bs|
    ensures Count(bs, x) == Count(bs[..i], x) + Count(bs[i..], x)
    ensures Total(bs) == Total(bs[..i]) + Total(bs[i..])
  {
    assert bs == bs[..i] + bs[i..];
    CountConcat(bs[..i], bs[i..], x);
    TotalConcat(bs[..i], bs[i..]);
  }

  lemma CountedInside(bs: seq<Block>, i: nat, x: int)
    requires i < |bs| && bs[i].Has(x)
    ensures Count(bs, x) >= 1
  {
    Around(bs, i, x);
  }

  lemma {:induction false} CountedSomewhere(bs: seq<Block>, x: int) returns (i: nat)
    requires Count(bs, x) >= 1
    ensures i < |bs| && bs[i].Has(x)
  {
    if bs[0].Has(x) {
      i := 0;
    } else {
      i := CountedSomewhere(bs[1..], x);
      i := i + 1;
    }
  }

  /** Separated blocks share no byte. */
  lemma {:induction false} SeparatedCountsOnce(bs: seq<Block>, x: int)
    requires Separated(bs)
    ensures Count(bs, x) <= 1
  {
    if bs != [] {
      SeparatedCountsOnce(bs[1..], x);
      if Count(bs[1..], x) == 1 {
        var i := CountedSomewhere(bs[1..], x);
        assert bs[1..][i] == bs[i + 1];
      }
    }
  }

  // ---------------------------------------------------------------- allocation

  /** The address window one allocator function searches. */
  datatype Zone = Zone(lo: u32, hi: u32)

  /** The two tests of every allocator; the sum in the first one wraps. */
  predicate Fits(b: Block, z: Zone, size: u32) {
    z.lo <= b.addr && Add32(b.addr, size) < z.hi && size <= b.size
  }

  function FirstFit(bs: seq<Block>, z: Zone, size: u32): (i: nat)
    ensures i <= |bs|
    ensures forall j :: 0 <= j < i ==> !Fits(bs[j], z, size)
    ensures i < |bs| ==> Fits(bs[i], z, size)
  {
    if bs == [] then 0
    else if Fits(bs[0], z, size) then 0
    else 1 + FirstFit(bs[1..], z, size)
  }

  /** Cut `size` bytes off the front of block i; drop the block when nothing is left. */
  function Take(bs: seq<Block>, i: nat, size: u32): seq<Block>
    requires i < |bs| && size <= bs[i].size && bs[i].End() < TWO32
  {
    if bs[i].size == size then bs[..i] + bs[i + 1..]
    else bs[..i] + [Block(bs[i].addr + size, bs[i].size - size)] + bs[i + 1..]
  }

  lemma TakeBounded(bs: seq<Block>, i: nat, size: u32)
    requires Bounded(bs) && i < |bs| && size <= bs[i].size
    ensures Bounded(Take(bs, i, size))
  {
  }

  lemma TakeSeparated(bs: seq<Block>, i: nat, size: u32)
    requires Separated(bs) && i < |bs| && size <= bs[i].size
    ensures Separated(Take(bs, i, size))
  {
  }

  /** Taking removes exactly the bytes handed out. */
  lemma TakeCount(bs: seq<Block>, i: nat, size: u32, x: int)
    requires i < |bs| && size <= bs[i].size && bs[i].End() < TWO32
    ensures Count(Take(bs, i, size), x) + (if Block(bs[i].addr, size).Has(x) then 1 else 0) == Count(bs, x)
    ensures Total(Take(bs, i, size)) + size == Total(bs)
  {
    Around(bs, i, x);
    if bs[i].size == size {
      CountConcat(bs[..i], bs[i + 1..], x);
      TotalConcat(bs[..i], bs[i + 1..]);
    } else {
      CountMiddle(bs[..i], Block(bs[i].addr + size, bs[i].size - size), bs[i + 1..], x);
      TotalMiddle(bs[..i], Block(bs[i].addr + size, bs[i].size - size), bs[i + 1..]);
    }
  }

  // ---------------------------------------------------------------- release

  /** Where `memman_free` stops: the first block that starts after addr. */
  function Position(bs: seq<Block>, addr: u32): (i: nat)
    ensures i <= |bs|
    ensures forall j :: 0 <= j < i ==> bs[j].addr <= addr
    ensures i < |bs| ==> addr < bs[i].addr
  {
    if bs == [] then 0
    else if bs[0].addr > addr then 0
    else 1 + Position(bs[1..], addr)
  }

  predicate TouchesLeft(bs: seq<Block>, addr: u32) {
    var i := Position(bs, addr);
    i > 0 && bs[i - 1].End() == addr
  }

  predicate TouchesRight(bs: seq<Block>, addr: u32, size: u32) {
    var i := Position(bs, addr);
    i < |bs| && addr + size == bs[i].addr
  }

  /** What stays on the left of a released range, and what stays on the right. */
  function LeftOf(bs: seq<Block>, addr: u32): seq<Block> {
    var i := Position(bs, addr);
    if TouchesLeft(bs, addr) then bs[..i - 1] else bs[..i]
  }

  function RightOf(bs: seq<Block>, addr: u32, size: u32): seq<Block> {
    var i := Position(bs, addr);
    if TouchesRight(bs, addr, size) then bs[i + 1..] else bs[i..]
  }

  /** How far the range grows to the left and to the right. */
  function LeftSize(bs: seq<Block>, addr: u32): (n: u32) {
    if TouchesLeft(bs, addr) then bs[Position(bs, addr) - 1].size else 0
  }

  function RightSize(bs: seq<Block>, addr: u32, size: u32): u32 {
    if TouchesRight(bs, addr, size) then bs[Position(bs, addr)].size else 0
  }

  function Merged(bs: seq<Block>, addr: u32, size: u32): Block
    requires addr + size < TWO32 && Bounded(bs)
  {
    Block(addr - LeftSize(bs, addr), LeftSize(bs, addr) + size + RightSize(bs, addr, size))
  }

  datatype Released = Released(blocks: seq<Block>, lost: bool)

  /** The range is merged with the neighbours it touches; a range that touches none
      needs a new slot, and is lost when the table has no slot left. */
  function Release(bs: seq<Block>, addr: u32, size: u32, capacity: nat): Released
    requires addr + size < TWO32 && Bounded(bs)
  {
    if size == 0 then Released(bs, false)
    else if !TouchesLeft(bs, addr) && !TouchesRight(bs, addr, size) && |bs| >= capacity then
      Released(bs, true)
    else
      Released(MergedIn(bs, addr, size), false)
  }

  function MergedIn(bs: seq<Block>, addr: u32, size: u32): seq<Block>
    requires addr + size < TWO32 && Bounded(bs)
  {
    LeftOf(bs, addr) + [Merged(bs, addr, size)] + RightOf(bs, addr, size)
  }

  lemma ReleaseBounded(bs: seq<Block>, addr: u32, size: u32, capacity: nat)
    requires addr + size < TWO32 && Bounded(bs)
    ensures Bounded(Release(bs, addr, size, capacity).blocks)
  {
    if size > 0 {
      var a, m, c := LeftOf(bs, addr), Merged(bs, addr, size), RightOf(bs, addr, size);
      assert m.End() < TWO32;
      assert Bounded(a) && Bounded(c);
      BoundedMiddle(a, m, c);
    }
  }

  lemma BoundedMiddle(a: seq<Block>, m: Block, c: seq<Block>)
    requires Bounded(a) && m.End() < TWO32 && Bounded(c)
    ensures Bounded(a + [m] + c)
  {
  }

  lemma LeftCount(bs: seq<Block>, addr: u32, x: int)
    ensures var n := LeftSize(bs, addr);
            && Count(bs[..Position(bs, addr)], x)
               == Count(LeftOf(bs, addr), x) + (if addr - n <= x < addr then 1 else 0)
            && Total(bs[..Position(bs, addr)]) == Total(LeftOf(bs, addr)) + n
  {
    var i := Position(bs, addr);
    if TouchesLeft(bs, addr) {
      Around(bs[..i], i - 1, x);
      assert bs[..i][..i - 1] == bs[..i - 1] && bs[..i][i..] == [];
    }
  }

  lemma RightCount(bs: seq<Block>, addr: u32, size: u32, x: int)
    ensures var n := RightSize(bs, addr, size);
            && Count(bs[Position(bs, addr)..], x)
               == Count(RightOf(bs, addr, size), x) + (if addr + size <= x < addr + size + n then 1 else 0)
            && Total(bs[Position(bs, addr)..]) == Total(RightOf(bs, addr, size)) + n
  {
    var i := Position(bs, addr);
    if TouchesRight(bs, addr, size) {
      Around(bs[i..], 0, x);
      assert bs[i..][..0] == [] && bs[i..][1..] == bs[i + 1..];
    }
  }

  /** Releasing adds exactly the range to the free bytes, unless the table is full
      and nothing touches the range; then nothing changes and the range is lost. */
  lemma ReleaseCount(bs: seq<Block>, addr: u32, size: u32, capacity: nat, x: int)
    requires Bounded(bs) && addr + size < TWO32
    ensures var r := Release(bs, addr, size, capacity);
            if r.lost then r.blocks == bs && size > 0 && |bs| >= capacity
            else && Count(r.blocks, x) == Count(bs, x) + (if Block(addr, size).Has(x) then 1 else 0)
                 && Total(r.blocks) == Total(bs) + size
  {
    var r := Release(bs, addr, size, capacity);
    if size > 0 && !r.lost {
      Halves(bs, Position(bs, addr), x);
      LeftCount(bs, addr, x);
      RightCount(bs, addr, size, x);
      CountMiddle(LeftOf(bs, addr), Merged(bs, addr, size), RightOf(bs, addr, size), x);
      TotalMiddle(LeftOf(bs, addr), Merged(bs, addr, size), RightOf(bs, addr, size));
    }
  }

  /** No byte of the range is free yet. */
  ghost predicate Unfree(bs: seq<Block>, addr: u32, size: u32) {
    forall x :: addr <= x < addr + size ==> Count(bs, x) == 0
  }

  /** The neighbours of a range that is not free leave room for it. */
  lemma NeighboursMakeRoom(bs: seq<Block>, addr: u32, size: u32)
    requires Separated(bs) && size > 0 && addr + size < TWO32 && Unfree(bs, addr, size)
    ensures var i := Position(bs, addr);
            && (i > 0 ==> bs[i - 1].End() <= addr)
            && (i < |bs| ==> addr + size <= bs[i].addr)
  {
    var i := Position(bs, addr);
    if i > 0 {
      assert Count(bs, addr) == 0;
      if bs[i - 1].Has(addr) {
        CountedInside(bs, i - 1, addr);
      }
    }
    if i < |bs| {
      CountedInside(bs, i, bs[i].addr);
    }
  }

  /** A block that keeps a gap on both sides may stand between two lists. */
  lemma SeparatedMiddle(a: seq<Block>, b: Block, c: seq<Block>)
    requires Separated(a) && Separated(c) && 0 < b.size && b.End() < TWO32
    requires a != [] ==> a[|a| - 1].End() < b.addr
    requires c != [] ==> b.End() < c[0].addr
    ensures Separated(a + [b] + c)
  {
    var s := a + [b] + c;
    forall i, j | 0 <= i < j < |s|
      ensures s[i].End() < s[j].addr
    {
      assert i < |a| ==> s[i].End() <= a[|a| - 1].End();
      assert j > |a| ==> s[j] == c[j - |a| - 1] && c[0].addr <= s[j].addr;
    }
  }

  lemma EndsSeparated(bs: seq<Block>, i: nat)
    requires Separated(bs) && i <= |bs|
    ensures Separated(bs[..i]) && Separated(bs[i..])
  {
  }

  lemma SidesSeparated(bs: seq<Block>, addr: u32, size: u32)
    requires Separated(bs)
    ensures Separated(LeftOf(bs, addr)) && Separated(RightOf(bs, addr, size))
  {
    var i := Position(bs, addr);
    var a := if TouchesLeft(bs, addr) then i - 1 else i;
    var c := if TouchesRight(bs, addr, size) then i + 1 else i;
    EndsSeparated(bs, a);
    EndsSeparated(bs, c);
  }

  lemma SidesApart(bs: seq<Block>, addr: u32, size: u32)
    requires Separated(bs) && size > 0 && addr + size < TWO32 && Unfree(bs, addr, size)
    ensures var a, b, c := LeftOf(bs, addr), Merged(bs, addr, size), RightOf(bs, addr, size);
            && 0 < b.size && b.End() < TWO32
            && (a != [] ==> a[|a| - 1].End() < b.addr)
            && (c != [] ==> b.End() < c[0].addr)
  {
    NeighboursMakeRoom(bs, addr, size);
  }

  lemma ReleaseSeparated(bs: seq<Block>, addr: u32, size: u32, capacity: nat)
    requires Separated(bs) && addr + size < TWO32 && Unfree(bs, addr, size)
    ensures Separated(Release(bs, addr, size, capacity).blocks)
  {
    if size > 0 {
      SidesSeparated(bs, addr, size);
      SidesApart(bs, addr, size);
      SeparatedMiddle(LeftOf(bs, addr), Merged(bs, addr, size), RightOf(bs, addr, size));
    }
  }
}
