/** The inode map and the sector map of kernel/fs.c, edited through a one-sector buffer. */
module OrangeFs {
  import opened Bitmaps

  const SECTOR_SIZE: nat := 512
  const SECTOR_BITS: nat := 4096
  const INODE_SIZE: nat := 32
  const NR_DEFAULT_FILE_SECTS: nat := 2048
  const NR_CONSOLES: nat := 3

  /** A sector as its bits: byte j is the bits 8j to 8j + 7, lowest first. */
  type Sector = s: seq<bool> | |s| == SECTOR_BITS witness seq(SECTOR_BITS, _ => false)

  /** Byte j of the buffer has no clear bit. */
  predicate Full(fsbuf: Sector, j: nat)
    requires j < SECTOR_SIZE
  {
    forall k :: 8 * j <= k < 8 * j + 8 ==> fsbuf[k]
  }

  /** The scan for the lowest clear bit of byte j. */
  method SkipOnes(fsbuf: Sector, j: nat) returns (k: nat)
    requires j < SECTOR_SIZE && !Full(fsbuf, j)
    ensures k < 8 && !fsbuf[8 * j + k]
    ensures forall b :: 8 * j <= b < 8 * j + k ==> fsbuf[b]
  {
    k := 0;
    while fsbuf[8 * j + k]
      invariant k < 8
      invariant forall b :: 8 * j <= b < 8 * j + k ==> fsbuf[b]
      decreases 8 - k
    {
      assert k < 7 by {
        if k == 7 {
          assert Full(fsbuf, j);
        }
      }
      k := k + 1;
    }
  }

  /** The innermost loop of `alloc_smap_bit`: set bits of byte j from bit k on. */
  method SetBits(fsbuf: Sector, j: nat, k: nat, left: nat) returns (out: Sector, rest: nat)
    requires j < SECTOR_SIZE && k < 8 && left > 0
    ensures var m := if left < 8 - k then left else 8 - k;
            out == Stroke(fsbuf, 8 * j + k, 8 * j + k + m, true) && rest == left - m
  {
    out, rest := fsbuf, left;
    var b := k;
    StrokeEmpty(fsbuf, 8 * j + k, true);
    while b < 8
      invariant k <= b <= 8 && rest == left - (b - k) && (b > k ==> rest > 0) && rest >= 0
      invariant out == Stroke(fsbuf, 8 * j + k, 8 * j + b, true)
    {
      StrokeNext(fsbuf, 8 * j + k, 8 * j + b, true);
      out := out[8 * j + b := true];
      rest := rest - 1;
      if rest == 0 {
        return;
      }
      b := b + 1;
    }
  }

  /** The byte loop of `alloc_smap_bit` over one sector. `found` tells that the run started
      in an earlier sector; `start` is where it starts in this one. */
  method FillSector(fsbuf: Sector, found: bool, left: nat) returns (out: Sector, start: nat, rest: nat)
    requires left > 0
    ensures start == if found then 0 else FirstFree(fsbuf)
    ensures var m := if left < SECTOR_BITS - start then left else SECTOR_BITS - start;
            out == Stroke(fsbuf, start, start + m, true) && rest == left - m
  {
    out, rest := fsbuf, left;
    start := if found then 0 else SECTOR_BITS;
    var begun := found;
    var j := 0;
    StrokeEmpty(fsbuf, 0, true);
    while j < SECTOR_SIZE && rest > 0
      invariant 0 <= j <= SECTOR_SIZE && rest <= left
      invariant !begun ==> !found && out == fsbuf && rest == left && forall b :: 0 <= b < 8 * j ==> fsbuf[b]
      invariant begun ==> start == (if found then 0 else FirstFree(fsbuf))
      invariant begun ==> start <= 8 * j && start + left - rest <= 8 * j
      invariant begun ==> out == Stroke(fsbuf, start, start + left - rest, true)
      invariant begun && rest > 0 ==> start + left - rest == 8 * j
    {
      var k := 0;
      var skip := false;
      if !begun {
        if Full(out, j) {
          skip := true;
        } else {
          k := SkipOnes(out, j);
          FirstFreeIs(fsbuf, 8 * j + k);
          start := 8 * j + k;
          begun := true;
          StrokeEmpty(fsbuf, start, true);
        }
      }
      if !skip {
        ghost var before := rest;
        out, rest := SetBits(out, j, k, rest);
        StrokeOn(fsbuf, start, 8 * j + k, 8 * j + k + (before - rest), true);
      }
      j := j + 1;
    }
    if !begun {
      FirstFreeIs(fsbuf, SECTOR_BITS);
      start := SECTOR_BITS;
      StrokeEmpty(fsbuf, SECTOR_BITS, true);
    }
  }

  /** Two disks agree outside the n sectors from s0 on. */
  ghost predicate SameBut(d: seq<Sector>, d': seq<Sector>, s0: nat, n: nat) {
    |d'| == |d| && forall s :: 0 <= s < |d| && !(s0 <= s < s0 + n) ==> d'[s] == d[s]
  }

  /** Sectors read as one map. */
  ghost function MapOf(secs: seq<Sector>): (m: seq<bool>)
    ensures |m| == |secs| * SECTOR_BITS
  {
    seq(|secs| * SECTOR_BITS,
        b requires 0 <= b < |secs| * SECTOR_BITS => secs[b / SECTOR_BITS][b % SECTOR_BITS])
  }

  lemma StrokeSector(secs: seq<Sector>, i: nat, a: nat, b: nat, v: bool)
    requires i < |secs| && a <= b <= SECTOR_BITS
    ensures var out: Sector := Stroke(secs[i], a, b, v);
            MapOf(secs[i := out]) == Stroke(MapOf(secs), SECTOR_BITS * i + a, SECTOR_BITS * i + b, v)
  {
    var out: Sector := Stroke(secs[i], a, b, v);
    var l, r := MapOf(secs[i := out]), Stroke(MapOf(secs), SECTOR_BITS * i + a, SECTOR_BITS * i + b, v);
    forall x | 0 <= x < |l|
      ensures l[x] == r[x]
    {
      assert SECTOR_BITS * i + a <= x < SECTOR_BITS * i + b
         <==> x / SECTOR_BITS == i && a <= x % SECTOR_BITS < b;
    }
  }

  lemma MapAt(secs: seq<Sector>, i: nat, k: nat)
    requires i < |secs| && k < SECTOR_BITS
    ensures MapOf(secs)[SECTOR_BITS * i + k] == secs[i][k]
  {
    var b := SECTOR_BITS * i + k;
    assert b / SECTOR_BITS == i && b % SECTOR_BITS == k;
  }

  /** Bits below sector i are all set and sector i's first free bit is `start`. */
  lemma FirstFreeInSector(secs: seq<Sector>, i: nat, start: nat)
    requires i < |secs| && start == FirstFree(secs[i])
    requires forall b :: 0 <= b < SECTOR_BITS * i ==> MapOf(secs)[b]
    ensures forall b :: 0 <= b < SECTOR_BITS * i + start ==> MapOf(secs)[b]
    ensures start < SECTOR_BITS ==> FirstFree(MapOf(secs)) == SECTOR_BITS * i + start
  {
    var m := MapOf(secs);
    forall b | SECTOR_BITS * i <= b < SECTOR_BITS * i + start
      ensures m[b]
    {
      MapAt(secs, i, b - SECTOR_BITS * i);
    }
    if start < SECTOR_BITS {
      MapAt(secs, i, start);
      FirstFreeIs(m, SECTOR_BITS * i + start);
    }
  }

  /** Clear the first byte of a run: bits r and up of byte j, as long as any are left. */
  method ClearFirstByte(fsbuf: Sector, j: nat, r: nat, left: nat) returns (out: Sector, rest: nat)
    requires j < SECTOR_SIZE && r < 8
    ensures var m := if left < 8 - r then left else 8 - r;
            out == Stroke(fsbuf, 8 * j + r, 8 * j + r + m, false) && rest == left - m
  {
    out, rest := fsbuf, left;
    var i := r;
    StrokeEmpty(fsbuf, 8 * j + r, false);
    while i < 8 && rest > 0
      invariant r <= i <= 8 && rest == left - (i - r) && rest >= 0
      invariant out == Stroke(fsbuf, 8 * j + r, 8 * j + i, false)
    {
      StrokeNext(fsbuf, 8 * j + r, 8 * j + i, false);
      out := out[8 * j + i := false];
      i, rest := i + 1, rest - 1;
    }
  }

  /** The low n bits of byte i masked off; n is 8 for a whole byte. */
  function ClearLow(fsbuf: Sector, i: nat, n: nat): Sector
    requires i < SECTOR_SIZE && n <= 8
  {
    Stroke(fsbuf, 8 * i, 8 * i + n, false)
  }

  /** The byte and bit that `free_smap_bit` computes for a bit of the map. */
  lemma BitPlace(smap0: nat, nrSmap: nat, bit: nat, n: nat)
    requires bit + n <= nrSmap * SECTOR_BITS
    ensures var s, i, r := smap0 + bit / 8 / SECTOR_SIZE, bit / 8 % SECTOR_SIZE, bit % 8;
            && SECTOR_BITS * s + 8 * i + r == SECTOR_BITS * smap0 + bit
            && (s < smap0 + nrSmap || (s == smap0 + nrSmap && n == 0 && i == 0 && r == 0))
  {
  }

  /** C's division rounds toward zero. */
  function TruncDiv8(x: int): int {
    if x >= 0 then x / 8 else -((-x) / 8)
  }

  /** Whole bytes between the first byte and the rest, which is less than a byte. */
  lemma WholeBytes(nrSects: nat, r: nat)
    requires r < 8
    ensures var c := TruncDiv8(nrSects - (8 - r));
            if nrSects < 16 - r then c <= 0 else c >= 1 && 8 - r + 8 * c <= nrSects < 16 - r + 8 * c
  {
  }

  /** The file system's part of the disk that holds its bit maps: sectors as bits, the
      inode map from sector 2, the sector map behind it, the inode array after that. */
  class OrangeFs {
    var disk: seq<Sector>
    const nrImap: nat
    const nrSmap: nat
    const n1stSect: nat

    ghost predicate Valid()
      reads this
    {
      && nrImap >= 1 && 2 + nrImap + nrSmap < |disk|
      && n1stSect > 2 + nrImap + nrSmap
    }

    function Smap0(): nat { 2 + nrImap }

    function SmapBits(): nat { nrSmap * SECTOR_BITS }

    /** The sector map as one sequence of bits. */
    ghost function Smap(): (m: seq<bool>)
      requires Valid()
      reads this
      ensures |m| == SmapBits()
    {
      MapOf(disk[Smap0()..Smap0() + nrSmap])
    }

    /** Where its bits are: from sector 2 + nrImap on, 4096 to a sector. */
    lemma MapPlace(b: nat)
      requires Valid() && b < nrSmap * 4096
      ensures Smap()[b] == disk[2 + nrImap + b / 4096][b % 4096]
    {
    }

    function Imap(): Sector
      requires Valid()
      reads this
    {
      disk[2]
    }

    /** `alloc_imap_bit`. The return statement stands inside the sector loop, so only the
        first inode-map sector is ever searched; 0 when it is full. */
    method AllocImapBit() returns (inodeNr: nat)
      requires Valid()
      modifies this`disk
      ensures Valid() && SameBut(old(disk), disk, 2, 1)
      ensures var f := FirstFree(old(disk)[2]);
              && disk[2] == Stroke(old(disk)[2], f, f + 1, true)
              && inodeNr == if f < SECTOR_BITS then f else 0
    {
      var fsbuf := disk[2];
      ghost var was := fsbuf;
      inodeNr := 0;
      var j := 0;
      while j < SECTOR_SIZE
        invariant 0 <= j <= SECTOR_SIZE
        invariant forall b :: 0 <= b < 8 * j ==> fsbuf[b]
      {
        if !Full(fsbuf, j) {
          var k := SkipOnes(fsbuf, j);
          FirstFreeIs(fsbuf, 8 * j + k);
          StrokeEmpty(fsbuf, 8 * j + k, true);
          StrokeNext(fsbuf, 8 * j + k, 8 * j + k, true);
          inodeNr := 8 * j + k;
          disk := disk[2 := fsbuf[inodeNr := true]];
          return;
        }
        j := j + 1;
      }
      FirstFreeIs(fsbuf, SECTOR_BITS);
      assert Stroke(fsbuf, SECTOR_BITS, SECTOR_BITS + 1, true) == fsbuf;
    }

    /** `alloc_smap_bit`: takes n bits from the first free one on, whatever is in them,
        and reports the first sector; 0 when no bit is free. */
    method AllocSmapBit(n: nat) returns (freeSectNr: nat)
      requires Valid() && n > 0
      modifies this`disk
      ensures Valid() && SameBut(old(disk), disk, 2 + nrImap, nrSmap)
      ensures Smap() == Allocated(old(Smap()), n)
      ensures var f := FirstFree(old(Smap()));
              freeSectNr == if f < SmapBits() then f - 1 + n1stSect else 0
    {
      ghost var was := Smap();
      ghost var f := FirstFree(was);
      freeSectNr := 0;
      var left: nat := n;
      var i := 0;
      while i < nrSmap && left > 0
        invariant 0 <= i <= nrSmap && 0 <= left <= n
        invariant Valid() && SameBut(old(disk), disk, Smap0(), nrSmap)
        invariant Progress(was, Smap(), n, SECTOR_BITS * i, freeSectNr, left)
      {
        freeSectNr, left := FillMapSector(i, freeSectNr, left, was, n);
        i := i + 1;
      }
      ProgressEnds(was, Smap(), n, SECTOR_BITS * i, freeSectNr, left);
    }

    /** How far `alloc_smap_bit` is once it has gone through the first `upto` bits. */
    ghost predicate Progress(was: seq<bool>, now: seq<bool>, n: nat, upto: nat, freeSectNr: nat, left: nat) {
      var f := FirstFree(was);
      if freeSectNr == 0 then
        now == was && left == n && forall b :: 0 <= b < upto && b < |was| ==> was[b]
      else
        && f < |was| && freeSectNr == f - 1 + n1stSect && left <= n
        && f + n - left <= upto && (left > 0 ==> f + n - left == upto)
        && now == Stroke(was, f, f + n - left, true)
    }

    lemma ProgressEnds(was: seq<bool>, now: seq<bool>, n: nat, upto: nat, freeSectNr: nat, left: nat)
      requires Progress(was, now, n, upto, freeSectNr, left) && n1stSect > 2
      requires left == 0 || upto == |was|
      requires n > 0
      ensures now == Allocated(was, n)
      ensures freeSectNr == if FirstFree(was) < |was| then FirstFree(was) - 1 + n1stSect else 0
    {
      if freeSectNr == 0 {
        FirstFreeIs(was, |was|);
        StrokeBeyond(was, |was|, |was| + n, true);
        StrokeEmpty(was, |was|, true);
      } else if left > 0 {
        StrokeBeyond(was, FirstFree(was), FirstFree(was) + n, true);
      }
    }

    /** The body of the sector loop. */
    method FillMapSector(i: nat, freeSectNr: nat, left: nat, ghost was: seq<bool>, ghost n: nat)
        returns (first: nat, rest: nat)
      requires Valid() && i < nrSmap && 0 < left <= n && |was| == SmapBits()
      requires Progress(was, Smap(), n, SECTOR_BITS * i, freeSectNr, left)
      modifies this`disk
      ensures Valid() && SameBut(old(disk), disk, Smap0(), nrSmap) && rest <= n
      ensures Progress(was, Smap(), n, SECTOR_BITS * (i + 1), first, rest)
    {
      hide Progress, MapOf, Stroke, FirstFree;
      ghost var secs := disk[Smap0()..Smap0() + nrSmap];
      var fsbuf := disk[Smap0() + i];
      var out, start;
      out, start, rest := FillSector(fsbuf, freeSectNr > 0, left);
      ProgressSteps(was, secs, n, i, freeSectNr, left, start, out, rest);
      first := freeSectNr;
      if freeSectNr == 0 && start < SECTOR_BITS {
        first := SECTOR_BITS * i + start - 1 + n1stSect;
      }
      if first > 0 {
        disk := disk[Smap0() + i := out];
        assert disk[Smap0()..Smap0() + nrSmap] == secs[i := out];
      }
    }

    lemma ProgressSteps(was: seq<bool>, secs: seq<Sector>, n: nat, i: nat, freeSectNr: nat, left: nat,
                        start: nat, out: Sector, rest: nat)
      requires i < |secs| && 0 < left <= n && |was| == |secs| * SECTOR_BITS && n1stSect > 2
      requires Progress(was, MapOf(secs), n, SECTOR_BITS * i, freeSectNr, left)
      requires start == (if freeSectNr > 0 then 0 else FirstFree(secs[i])) && rest <= left
      requires var m := if left < SECTOR_BITS - start then left else SECTOR_BITS - start;
               out == Stroke(secs[i], start, start + m, true) && rest == left - m
      ensures var first := if freeSectNr == 0 && start < SECTOR_BITS then SECTOR_BITS * i + start - 1 + n1stSect
                           else freeSectNr;
              Progress(was, if first > 0 then MapOf(secs[i := out]) else MapOf(secs), n,
                       SECTOR_BITS * (i + 1), first, rest)
    {
      hide FirstFree, MapOf;
      StrokeSector(secs, i, start, start + (left - rest), true);
      if freeSectNr == 0 {
        FirstFreeInSector(secs, i, start);
      } else {
        StrokeOn(was, FirstFree(was), SECTOR_BITS * i, SECTOR_BITS * i + (left - rest), true);
      }
    }

    /** The inode-map half of `do_unlink`. */
    method FreeImapBit(inodeNr: nat)
      requires Valid()
      modifies this`disk
      ensures Valid() && SameBut(old(disk), disk, 2, 1)
      ensures disk[2] == old(disk)[2][inodeNr % 4096 := false]
    {
      var byteIdx, bitIdx := inodeNr / 8, inodeNr % 8;
      var fsbuf := disk[2];
      assert (byteIdx % SECTOR_SIZE) * 8 + bitIdx == inodeNr % SECTOR_BITS;
      fsbuf := fsbuf[(byteIdx % SECTOR_SIZE) * 8 + bitIdx := false];
      disk := disk[2 := fsbuf];
    }

    /** What the disk will be when the buffer is written, and how far the run is cleared. */
    ghost predicate Clearing(was: seq<Sector>, s: nat, fsbuf: Sector, first: nat, done: nat)
      reads this
    {
      && s < |disk| && |disk| == |was|
      && MapOf(disk[s := fsbuf]) == Stroke(MapOf(was), first, first + done, false)
    }

    lemma ClearMore(was: seq<Sector>, s: nat, fsbuf: Sector, first: nat, done: nat, a: nat, n: nat)
      requires Clearing(was, s, fsbuf, first, done) && a + n <= SECTOR_BITS
      requires n > 0 ==> SECTOR_BITS * s + a == first + done
      ensures Clearing(was, s, Stroke(fsbuf, a, a + n, false), first, done + n)
    {
      if n == 0 {
        StrokeEmpty(fsbuf, a, false);
      } else {
        hide MapOf;
        StrokeSector(disk[s := fsbuf], s, a, a + n, false);
        assert disk[s := fsbuf][s := Stroke(fsbuf, a, a + n, false)] == disk[s := Stroke(fsbuf, a, a + n, false)];
        StrokeOn(MapOf(was), first, first + done, first + done + n, false);
      }
    }

    /** Write the buffer and read the next sector. */
    method NextSector(s: nat, fsbuf: Sector, ghost was: seq<Sector>, ghost first: nat, ghost done: nat)
        returns (s': nat, buf: Sector)
      requires Valid() && s + 1 < |disk| && Clearing(was, s, fsbuf, first, done)
      modifies this`disk
      ensures Valid() && s' == s + 1 && Clearing(was, s', buf, first, done)
    {
      disk := disk[s := fsbuf];
      s' := s + 1;
      buf := disk[s'];
      assert disk[s' := buf] == disk;
    }

    /** The middle loop of `do_unlink`: n whole bytes from byte i of sector s on. */
    method ClearBytes(s: nat, i: nat, fsbuf: Sector, n: nat, ghost was: seq<Sector>, ghost first: nat, ghost done: nat)
        returns (s': nat, i': nat, buf: Sector)
      requires Valid() && i <= SECTOR_SIZE && Clearing(was, s, fsbuf, first, done)
      requires n > 0 ==> SECTOR_BITS * s + 8 * i == first + done
      requires n > 0 ==> SECTOR_BITS * s + 8 * i + 8 * n <= SECTOR_BITS * (|disk| - 1)
      modifies this`disk
      ensures Valid() && i' <= SECTOR_SIZE && Clearing(was, s', buf, first, done + 8 * n)
      ensures SECTOR_BITS * s' + 8 * i' == SECTOR_BITS * s + 8 * i + 8 * n
    {
      s', i', buf := s, i, fsbuf;
      var k := 0;
      while k < n
        invariant 0 <= k <= n && i' <= SECTOR_SIZE && |disk| == |old(disk)|
        invariant SECTOR_BITS * s' + 8 * i' == SECTOR_BITS * s + 8 * i + 8 * k
        invariant Valid() && Clearing(was, s', buf, first, done + 8 * k)
      {
        if i' == SECTOR_SIZE {
          i' := 0;
          s', buf := NextSector(s', buf, was, first, done + 8 * k);
        }
        ClearMore(was, s', buf, first, done + 8 * k, 8 * i', 8);
        buf := ClearLow(buf, i', 8);
        k, i' := k + 1, i' + 1;
      }
    }

    /** The sector-map half of `do_unlink`: clears the run's bits, first byte, whole bytes,
        last byte, moving from sector to sector. */
    method FreeSmapBits(startSect: nat, nrSects: nat)
      requires Valid() && n1stSect <= startSect + 1
      requires startSect - n1stSect + 1 + nrSects <= SmapBits()
      modifies this`disk
      ensures Valid() && SameBut(old(disk), disk, 2 + nrImap, nrSmap)
      ensures Smap() == Cleared(old(Smap()), startSect - n1stSect + 1, nrSects)
    {
      hide MapOf, Stroke, TruncDiv8;
      ghost var was := disk;
      var bitIdx := startSect - n1stSect + 1;
      var byteIdx := bitIdx / 8;
      var r := bitIdx % 8;
      var byteCnt := TruncDiv8(nrSects - (8 - r));
      var n: nat := if byteCnt > 0 then byteCnt else 0;
      WholeBytes(nrSects, r);
      var s: nat := 2 + nrImap + byteIdx / SECTOR_SIZE;
      ghost var first := SECTOR_BITS * Smap0() + bitIdx;
      var i := byteIdx % SECTOR_SIZE;
      BitPlace(Smap0(), nrSmap, bitIdx, nrSects);
      var fsbuf := disk[s];
      StrokeEmpty(MapOf(was), first, false);
      assert disk[s := fsbuf] == disk;

      ghost var before := fsbuf;
      var left;
      fsbuf, left := ClearFirstByte(fsbuf, i, r, nrSects);
      ClearMore(was, s, before, first, 0, 8 * i + r, nrSects - left);
      s, i, fsbuf := ClearBytes(s, i + 1, fsbuf, n, was, first, nrSects - left);
      left := left - 8 * n;
      ClearLast(s, i, fsbuf, left, was, first, nrSects - left);
      OnlyMap(was, disk, bitIdx, nrSects);
    }

    method ClearLast(s: nat, i: nat, fsbuf: Sector, left: nat, ghost was: seq<Sector>, ghost first: nat, ghost done: nat)
      requires Valid() && i <= SECTOR_SIZE && left <= 8 && Clearing(was, s, fsbuf, first, done)
      requires left > 0 ==> SECTOR_BITS * s + 8 * i == first + done
      requires i == SECTOR_SIZE ==> s + 1 < |disk|
      modifies this`disk
      ensures Valid() && |disk| == |was| && MapOf(disk) == Stroke(MapOf(was), first, first + done + left, false)
    {
      hide MapOf, Stroke;
      var j, t, buf := i, s, fsbuf;
      if j == SECTOR_SIZE {
        j := 0;
        t, buf := NextSector(t, buf, was, first, done);
      }
      ClearMore(was, t, buf, first, done, 8 * j, left);
      buf := ClearLow(buf, j, left);
      disk := disk[t := buf];
    }

    /** `create_file`: one inode bit and one slot of sector bits. */
    method CreateFile() returns (inodeNr: nat, startSect: nat)
      requires Valid()
      modifies this`disk
      ensures Valid()
      ensures Imap() == Allocated(old(Imap()), 1) && Smap() == Allocated(old(Smap()), 2048)
      ensures inodeNr == if FirstFree(old(Imap())) < SECTOR_BITS then FirstFree(old(Imap())) else 0
      ensures startSect == if FirstFree(old(Smap())) < SmapBits() then FirstFree(old(Smap())) - 1 + n1stSect else 0
    {
      ghost var was := disk;
      inodeNr := AllocImapBit();
      assert disk[Smap0()..Smap0() + nrSmap] == was[Smap0()..Smap0() + nrSmap];
      startSect := AllocSmapBit(NR_DEFAULT_FILE_SECTS);
    }

    /** `do_unlink`, as far as the two maps go. */
    method Unlink(inodeNr: nat, startSect: nat, nrSects: nat)
      requires Valid() && n1stSect <= startSect + 1
      requires startSect - n1stSect + 1 + nrSects <= SmapBits()
      modifies this`disk
      ensures Valid()
      ensures Imap() == old(Imap())[inodeNr % SECTOR_BITS := false]
      ensures Smap() == Cleared(old(Smap()), startSect - n1stSect + 1, nrSects)
    {
      ghost var was := disk;
      FreeImapBit(inodeNr);
      assert disk[Smap0()..Smap0() + nrSmap] == was[Smap0()..Smap0() + nrSmap];
      FreeSmapBits(startSect, nrSects);
    }

    /** The maps `mkfs` writes: the first inode numbers, the root directory's sectors with
        the reserved bit 0, and the sectors of the archive installed at `bitOffset`. */
    method Mkfs(bitOffset: nat, installed: nat)
      requires Valid() && nrSmap >= 1 && bitOffset + installed <= SmapBits()
      modifies this`disk
      ensures Valid()
      ensures Imap() == Stroke(seq(SECTOR_BITS, _ => false), 0, 6, true)
      ensures Smap() == Stroke(Stroke(seq(SmapBits(), _ => false), 0, NR_DEFAULT_FILE_SECTS + 1, true),
                               bitOffset, bitOffset + installed, true)
    {
      var zero: Sector := seq(SECTOR_BITS, _ => false);
      disk := disk[2 := Stroke(zero, 0, NR_CONSOLES + 3, true)];
      ghost var imapBits := disk[2];
      disk := disk[Smap0() := Stroke(zero, 0, NR_DEFAULT_FILE_SECTS + 1, true)];
      var i := 1;
      while i < nrSmap
        invariant 1 <= i <= nrSmap && Valid() && disk[2] == imapBits
        invariant disk[Smap0()] == Stroke(zero, 0, NR_DEFAULT_FILE_SECTS + 1, true)
        invariant forall k :: Smap0() < k < Smap0() + i ==> disk[k] == zero
      {
        disk := disk[Smap0() + i := zero];
        i := i + 1;
      }
      FreshMap(disk[Smap0()..Smap0() + nrSmap], zero);
      Install(bitOffset, installed);
    }

    /** The last loop of the sector-map part of `mkfs`: one bit at a time. */
    method Install(bitOffset: nat, installed: nat)
      requires Valid() && bitOffset + installed <= SmapBits()
      modifies this`disk
      ensures Valid() && disk[2] == old(disk)[2]
      ensures Smap() == Stroke(old(Smap()), bitOffset, bitOffset + installed, true)
    {
      hide MapOf, Stroke;
      ghost var was := Smap();
      ghost var d0 := disk;
      var off := bitOffset % SECTOR_BITS;
      var left := installed;
      var cur := bitOffset / SECTOR_BITS;
      var fsbuf := disk[Smap0() + cur];
      StrokeEmpty(was, bitOffset, true);
      assert disk[Smap0() + cur := fsbuf] == disk;
      while left > 0
        invariant 0 <= left <= installed && 0 <= off < SECTOR_BITS && cur <= nrSmap
        invariant SECTOR_BITS * cur + off == bitOffset + (installed - left)
        invariant Valid() && |disk| == |d0| && disk[2] == d0[2]
        invariant MapOf(disk[Smap0() + cur := fsbuf][Smap0()..Smap0() + nrSmap])
               == Stroke(was, bitOffset, bitOffset + (installed - left), true)
      {
        InstallBit(disk, Smap0(), nrSmap, cur, fsbuf, off, was, bitOffset, bitOffset + (installed - left));
        fsbuf := fsbuf[off := true];
        left, off := left - 1, off + 1;
        if off == SECTOR_BITS {
          disk := disk[Smap0() + cur := fsbuf];
          cur := cur + 1;
          fsbuf := disk[Smap0() + cur];
          off := 0;
          assert disk[Smap0() + cur := fsbuf] == disk;
        }
      }
      disk := disk[Smap0() + cur := fsbuf];
    }

    /** A run cleared inside the sector map leaves the rest of the disk alone. */
    lemma OnlyMap(was: seq<Sector>, now: seq<Sector>, b: nat, n: nat)
      requires |now| == |was| && Smap0() + nrSmap < |was| && b + n <= SmapBits()
      requires var first := SECTOR_BITS * Smap0() + b;
               MapOf(now) == Stroke(MapOf(was), first, first + n, false)
      ensures SameBut(was, now, Smap0(), nrSmap)
      ensures MapOf(now[Smap0()..Smap0() + nrSmap]) == Cleared(MapOf(was[Smap0()..Smap0() + nrSmap]), b, n)
    {
      var first := SECTOR_BITS * Smap0() + b;
      forall s, k | 0 <= s < |was| && 0 <= k < SECTOR_BITS
        ensures now[s][k] == if first <= SECTOR_BITS * s + k < first + n then false else was[s][k]
      {
        hide MapOf;
        MapAt(now, s, k);
        MapAt(was, s, k);
      }
      forall s | 0 <= s < |was| && !(Smap0() <= s < Smap0() + nrSmap)
        ensures now[s] == was[s]
      {
        assert forall k :: 0 <= k < SECTOR_BITS ==> now[s][k] == was[s][k];
      }
      StrokeSlice(was, now, Smap0(), nrSmap, b, n);
    }
  }

  lemma InstallBit(disk: seq<Sector>, s0: nat, m: nat, cur: nat, fsbuf: Sector, off: nat,
                   was: seq<bool>, from: nat, to: nat)
    requires s0 + m < |disk| && cur < m && off < SECTOR_BITS
    requires from <= to == SECTOR_BITS * cur + off
    requires MapOf(disk[s0 + cur := fsbuf][s0..s0 + m]) == Stroke(was, from, to, true)
    ensures MapOf(disk[s0 + cur := fsbuf[off := true]][s0..s0 + m]) == Stroke(was, from, to + 1, true)
  {
    hide MapOf;
    var secs := disk[s0 + cur := fsbuf][s0..s0 + m];
    assert secs[cur] == fsbuf;
    StrokeEmpty(fsbuf, off, true);
    StrokeNext(fsbuf, off, off, true);
    StrokeSector(secs, cur, off, off + 1, true);
    assert secs[cur := fsbuf[off := true]] == disk[s0 + cur := fsbuf[off := true]][s0..s0 + m];
    StrokeOn(was, from, to, to + 1, true);
  }

  lemma FreshMap(secs: seq<Sector>, zero: Sector)
    requires |secs| >= 1 && forall k :: 0 <= k < SECTOR_BITS ==> !zero[k]
    requires secs[0] == Stroke(zero, 0, NR_DEFAULT_FILE_SECTS + 1, true)
    requires forall k :: 1 <= k < |secs| ==> secs[k] == zero
    ensures MapOf(secs) == Stroke(seq(|secs| * SECTOR_BITS, _ => false), 0, NR_DEFAULT_FILE_SECTS + 1, true)
  {
  }

  lemma StrokeSlice(was: seq<Sector>, now: seq<Sector>, s0: nat, m: nat, b: nat, n: nat)
    requires |now| == |was| && s0 + m <= |was|
    requires forall s, k :: 0 <= s < |was| && 0 <= k < SECTOR_BITS ==>
      now[s][k] == if SECTOR_BITS * s0 + b <= SECTOR_BITS * s + k < SECTOR_BITS * s0 + b + n then false else was[s][k]
    ensures MapOf(now[s0..s0 + m]) == Cleared(MapOf(was[s0..s0 + m]), b, n)
  {
    var x, y := MapOf(now[s0..s0 + m]), Cleared(MapOf(was[s0..s0 + m]), b, n);
    forall i | 0 <= i < |x|
      ensures x[i] == y[i]
    {
      var s, k := i / SECTOR_BITS, i % SECTOR_BITS;
      assert x[i] == now[s0 + s][k];
      assert MapOf(was[s0..s0 + m])[i] == was[s0 + s][k];
    }
  }
}
