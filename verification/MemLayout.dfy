/** What `init` of kernel/memman.c makes of the machine's memory: the usable segments above
    4 MiB, cut at three walls with a guard page below each. */
module MemLayout {
  import opened Words
  import opened FreeBlocks

  const GUARD: u32 := 0x1000

  predicate Readable(info: seq<u32>) {
    forall i :: 0 <= i < |info| ==> info[i] + GUARD < TWO32
  }

  /** The segments between bad pages: `info` lists where each segment ends, and the next
      one starts a page later. */
  function Segments(info: seq<u32>, start: u32): seq<Block>
    requires Readable(info)
  {
    if info == [] then []
    else if info[0] <= start then Segments(info[1..], After(info[0], start))
    else [Block(start, info[0] - start)] + Segments(info[1..], After(info[0], start))
  }

  /** Where the next segment starts once entry e has been seen. */
  function After(e: u32, start: u32): u32
    requires e + GUARD < TWO32
  {
    if e < start then start else e + GUARD
  }

  function AfterAll(info: seq<u32>, start: u32): u32
    requires Readable(info)
  {
    if info == [] then start else AfterAll(info[1..], After(info[0], start))
  }

  lemma SeparatedCons(b: Block, rest: seq<Block>)
    requires Separated(rest) && 0 < b.size && b.End() < TWO32
    requires forall i :: 0 <= i < |rest| ==> b.End() < rest[i].addr
    ensures Separated([b] + rest)
  {
  }

  /** Segments are separated and end a page before the next one may start. */
  lemma {:induction false} SegmentsSeparated(info: seq<u32>, start: u32)
    requires Readable(info)
    ensures var bs := Segments(info, start);
            && Separated(bs) && start <= AfterAll(info, start) && |bs| <= |info|
            && forall i :: 0 <= i < |bs| ==> start <= bs[i].addr && bs[i].End() + GUARD <= AfterAll(info, start)
  {
    if info != [] {
      var rest := Segments(info[1..], After(info[0], start));
      SegmentsSeparated(info[1..], After(info[0], start));
      if info[0] > start {
        SeparatedCons(Block(start, info[0] - start), rest);
      }
    }
  }

  /** One more entry adds at most one segment, at the end. */
  lemma {:induction false} SegmentsSnoc(info: seq<u32>, e: u32, start: u32)
    requires Readable(info) && e + GUARD < TWO32 && Readable(info + [e])
    ensures var last := AfterAll(info, start);
            && AfterAll(info + [e], start) == After(e, last)
            && Segments(info + [e], start)
               == Segments(info, start) + if e <= last then [] else [Block(last, e - last)]
  {
    if info == [] {
      assert info + [e] == [e] && [e][1..] == [];
    } else {
      var more := info + [e];
      assert more[1..] == info[1..] + [e] && more[0] == info[0];
      SegmentsSnoc(info[1..], e, After(info[0], start));
      assert Segments(more, start)
          == (if info[0] <= start then [] else [Block(start, info[0] - start)])
           + Segments(more[1..], After(info[0], start));
    }
  }

  /** Byte x lies between the end of the bad page before segment i and the segment's end. */
  predicate InSegment(info: seq<u32>, start: u32, i: nat, x: int) {
    i < |info| && (if i == 0 then start as int else info[i - 1] as int + 0x1000) <= x < info[i]
  }

  /** For a report that rises by a page and more, exactly these bytes are in the list. */
  lemma {:induction false} SegmentsHold(info: seq<u32>, start: u32, x: int)
    requires Readable(info) && (info != [] ==> start <= info[0])
    requires forall i :: 0 < i < |info| ==> info[i - 1] as int + 0x1000 <= info[i]
    ensures Count(Segments(info, start), x) >= 1 <==> exists i: nat :: InSegment(info, start, i, x)
  {
    if info != [] {
      var rest := info[1..];
      assert |rest| > 0 ==> rest[0] == info[0 + 1];
      SegmentsHold(rest, After(info[0], start), x);
      FirstSegment(info, start, x);
      if i: nat :| InSegment(rest, After(info[0], start), i, x) {
        assert InSegment(info, start, i + 1, x);
      }
      if i: nat :| InSegment(info, start, i, x) {
        if i == 0 {
          assert start <= x < info[0];
        } else {
          assert InSegment(rest, After(info[0], start), i - 1, x);
        }
      }
      if start <= x < info[0] {
        assert InSegment(info, start, 0, x);
      }
    }
  }

  lemma FirstSegment(info: seq<u32>, start: u32, x: int)
    requires Readable(info) && info != [] && start <= info[0]
    ensures Count(Segments(info, start), x)
            == (if start <= x < info[0] then 1 else 0) + Count(Segments(info[1..], After(info[0], start)), x)
  {
    var rest := Segments(info[1..], After(info[0], start));
    if info[0] > start {
      assert ([Block(start, info[0] - start)] + rest)[1..] == rest;
    }
  }

  // ---------------------------------------------------------------- walls

  predicate Straddles(b: Block, wall: u32) {
    b.addr <= wall && b.End() > wall
  }

  function Straddler(bs: seq<Block>, wall: u32): (i: nat)
    ensures i <= |bs|
    ensures forall j :: 0 <= j < i ==> !Straddles(bs[j], wall)
    ensures i < |bs| ==> Straddles(bs[i], wall)
  {
    if bs == [] then 0
    else if Straddles(bs[0], wall) then 0
    else 1 + Straddler(bs[1..], wall)
  }

  /** The wall lies inside block i: keep what is more than a page below it and what is above.
      The size of the left part is an unsigned difference and may wrap. */
  function LeftPart(b: Block, wall: u32): Block {
    Block(b.addr, Sub32(Sub32(wall, GUARD), b.addr))
  }

  function RightPart(b: Block, wall: u32): Block
    requires wall < b.End() < TWO32
  {
    Block(wall, b.End() - wall)
  }

  function Cut(bs: seq<Block>, i: nat, wall: u32): seq<Block>
    requires i < |bs| && wall < bs[i].End() < TWO32
  {
    bs[..i] + [LeftPart(bs[i], wall)] + ([RightPart(bs[i], wall)] + bs[i + 1..])
  }

  /** One of the three wall loops of `init`. */
  function Split(bs: seq<Block>, wall: u32): seq<Block>
    requires Bounded(bs)
  {
    var i := Straddler(bs, wall);
    if i == |bs| || bs[i].addr == wall then bs else Cut(bs, i, wall)
  }

  /** A straddling block that starts inside the page below the wall. */
  ghost predicate Cramped(bs: seq<Block>, wall: u32) {
    exists i :: 0 <= i < |bs| && wall < bs[i].End() && bs[i].addr < wall <= bs[i].addr + GUARD
  }

  lemma CutSeparated(bs: seq<Block>, i: nat, wall: u32)
    requires Separated(bs) && i < |bs| && bs[i].addr + GUARD < wall < bs[i].End()
    ensures Separated(Cut(bs, i, wall))
  {
    var left, right := LeftPart(bs[i], wall), RightPart(bs[i], wall);
    EndsSeparated(bs, i);
    EndsSeparated(bs, i + 1);
    SeparatedCons(right, bs[i + 1..]);
    SeparatedMiddle(bs[..i], left, [right] + bs[i + 1..]);
  }

  lemma CutCramped(bs: seq<Block>, i: nat, wall: u32)
    requires i < |bs| && wall >= GUARD
    requires bs[i].addr < wall <= bs[i].addr + GUARD && wall < bs[i].End() < TWO32
    ensures !Separated(Cut(bs, i, wall))
  {
    var left := LeftPart(bs[i], wall);
    assert left.size == 0 || left.End() >= TWO32;
    assert Cut(bs, i, wall)[i] == left;
  }

  /** At most one block straddles a wall. */
  lemma StraddlerIsIt(bs: seq<Block>, wall: u32, k: nat)
    requires Separated(bs) && k < |bs| && Straddles(bs[k], wall)
    ensures Straddler(bs, wall) == k
  {
  }

  /** The cut leaves a proper free list exactly when no straddling block starts inside
      the page below the wall. */
  lemma SplitSound(bs: seq<Block>, wall: u32)
    requires Separated(bs) && wall >= GUARD
    ensures Separated(Split(bs, wall)) <==> !Cramped(bs, wall)
  {
    var i := Straddler(bs, wall);
    if k :| 0 <= k < |bs| && wall < bs[k].End() && bs[k].addr < wall <= bs[k].addr + GUARD {
      StraddlerIsIt(bs, wall, k);
      CutCramped(bs, k, wall);
    } else if i < |bs| && bs[i].addr != wall {
      CutSeparated(bs, i, wall);
    }
  }

  lemma CutCount(bs: seq<Block>, i: nat, wall: u32, x: int)
    requires i < |bs| && bs[i].addr + GUARD <= wall < bs[i].End() < TWO32
    ensures Count(Cut(bs, i, wall), x) + (if wall - GUARD <= x < wall then 1 else 0) == Count(bs, x)
    ensures Total(Cut(bs, i, wall)) + GUARD == Total(bs)
  {
    var left, right := LeftPart(bs[i], wall), RightPart(bs[i], wall);
    Around(bs, i, x);
    CountMiddle(bs[..i], left, [right] + bs[i + 1..], x);
    CountConcat([right], bs[i + 1..], x);
    TotalMiddle(bs[..i], left, [right] + bs[i + 1..]);
    TotalConcat([right], bs[i + 1..]);
  }

  /** Memory runs through the wall. */
  predicate Through(bs: seq<Block>, wall: u32) {
    var i := Straddler(bs, wall);
    i < |bs| && bs[i].addr < wall
  }

  /** The cut takes away exactly the guard page, and only when memory runs through the wall. */
  lemma SplitCount(bs: seq<Block>, wall: u32, x: int)
    requires Separated(bs) && wall >= GUARD && !Cramped(bs, wall)
    ensures Count(Split(bs, wall), x) + (if Through(bs, wall) && wall - GUARD <= x < wall then 1 else 0)
         == Count(bs, x)
    ensures Total(Split(bs, wall)) + (if Through(bs, wall) then GUARD else 0) == Total(bs)
  {
    var i := Straddler(bs, wall);
    if i < |bs| && bs[i].addr != wall {
      CutCount(bs, i, wall, x);
    }
  }

  /** Memory is interrupted at the wall: not both the byte below and the byte at it. */
  ghost predicate Walled(bs: seq<Block>, wall: u32) {
    Count(bs, wall - 1) == 0 || Count(bs, wall) == 0
  }

  lemma NothingThrough(bs: seq<Block>, wall: u32)
    requires Separated(bs) && !Through(bs, wall)
    ensures Walled(bs, wall)
  {
    if Count(bs, wall - 1) >= 1 && Count(bs, wall) >= 1 {
      var p := CountedSomewhere(bs, wall - 1);
      var q := CountedSomewhere(bs, wall);
      StraddlerIsIt(bs, wall, q);
      assert false;
    }
  }

  /** Memory runs through the wall exactly when the bytes on both sides of it are there. */
  lemma ThroughIff(bs: seq<Block>, wall: u32)
    requires Separated(bs)
    ensures Through(bs, wall) <==> Count(bs, wall - 1) >= 1 && Count(bs, wall) >= 1
  {
    if Through(bs, wall) {
      var i := Straddler(bs, wall);
      CountedInside(bs, i, wall - 1);
      CountedInside(bs, i, wall);
    } else {
      NothingThrough(bs, wall);
      hide Count;
    }
  }

  /** Cutting at one wall leaves the other walls as they are. */
  lemma SplitKeepsThrough(bs: seq<Block>, wall: u32, other: u32)
    requires Separated(bs) && wall >= GUARD && !Cramped(bs, wall) && (other + GUARD < wall || wall < other - GUARD)
    ensures Separated(Split(bs, wall)) && (Through(Split(bs, wall), other) <==> Through(bs, other))
  {
    hide Count, Through, Cramped, Split;
    SplitSound(bs, wall);
    ThroughIff(bs, other);
    ThroughIff(Split(bs, wall), other);
    SplitCount(bs, wall, other - 1);
    SplitCount(bs, wall, other);
  }

  lemma SplitWalls(bs: seq<Block>, wall: u32)
    requires Separated(bs) && wall >= GUARD && !Cramped(bs, wall)
    ensures Walled(Split(bs, wall), wall)
  {
    SplitCount(bs, wall, wall - 1);
    SplitCount(bs, wall, wall);
    if Through(bs, wall) {
      SeparatedCountsOnce(bs, wall - 1);
    } else {
      NothingThrough(bs, wall);
    }
  }

  /** A cut neither cramps a later wall nor opens an earlier one. */
  lemma SplitKeepsUncramped(bs: seq<Block>, wall: u32, later: u32)
    requires Separated(bs) && wall >= GUARD && !Cramped(bs, wall) && !Cramped(bs, later)
    requires wall + GUARD < later
    ensures !Cramped(Split(bs, wall), later)
  {
    var i := Straddler(bs, wall);
    if i < |bs| && bs[i].addr != wall {
      var s := Cut(bs, i, wall);
      forall k | 0 <= k < |s|
        ensures !(later < s[k].End() && s[k].addr < later <= s[k].addr + GUARD)
      {
        assert k < i ==> s[k] == bs[k];
        assert k > i + 1 ==> s[k] == bs[k - 1];
      }
    }
  }

  lemma SplitKeepsWalled(bs: seq<Block>, wall: u32, other: u32)
    requires Separated(bs) && wall >= GUARD && !Cramped(bs, wall) && Walled(bs, other)
    ensures Walled(Split(bs, wall), other)
  {
    SplitCount(bs, wall, other - 1);
    SplitCount(bs, wall, other);
  }
}
