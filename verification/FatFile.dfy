/** Files of the FAT layer: finding a file's sectors and growing its chain (kernel/base.c),
    `WriteFile` (kernel/fat32.c). */
module FatFile {
  import opened Words
  import opened FlatFile
  import opened FatDisk
  import opened FatVolume

  const ACCESSDENIED: int := 7

  /** Flags of an open file: create, read and write, write. */
  const C: nat := 1
  const RW: nat := 2
  const W: nat := 6

  class File {
    const flag: nat
    var start: u32
    var off: u32

    constructor (flag: nat)
      ensures this.flag == flag && start == 0 && off == 0
    {
      this.flag := flag;
      start, off := 0, 0;
    }
  }

  // ---------------------------------------------------------------- growing a chain

  /** `NeedMoreCluster`: how many clusters size more bytes need, if off is where the file ends. */
  method NeedMoreCluster(off: nat, size: nat) returns (more: bool, n: nat)
    ensures more <==> off > 0 && ClustersFor(off + size) > ClustersFor(off)
    ensures more ==> n == ClustersFor(off + size) - ClustersFor(off)
  {
    n := 0;
    if off == 0 {
      return false, n;
    }
    var clusterNum := if off % CLUSTER == 0 then off / CLUSTER else off / CLUSTER + 1;
    if size > clusterNum * CLUSTER - off {
      var rest := size - (clusterNum * CLUSTER - off);
      n := if rest % CLUSTER == 0 then rest / CLUSTER else rest / CLUSTER + 1;
      return true, n;
    }
    more := false;
  }

  /** From chain cs to cs + new: the table links them, the new clusters are zero, and neither
      another entry nor another sector has changed. */
  ghost predicate Extended(d: Disk, d': Disk, g: Geometry, cs: seq<nat>, new_: seq<nat>) {
    && Fits(g, |d|) && |d'| == |d| && |cs + new_| > 0
    && IsChain(Table(d', g), (cs + new_)[0], cs + new_) && ChainOnDisk(d', g, cs + new_)
    && Untouched(d, d', g, cs + new_)
    && forall x :: DataStart(g) <= x < |d| ==> d'[x] == if InClusters(g, new_, x) then Zeros() else d[x]
  }

  /** Neither an entry nor a sector outside the clusters has changed, apart from table sectors. */
  ghost predicate Untouched(d: Disk, d': Disk, g: Geometry, cs: seq<nat>) {
    && Fits(g, |d|) && |d'| == |d|
    && (forall c :: 0 <= c < Slots(g) && c !in cs ==> Table(d', g)[c] == Table(d, g)[c])
    && forall x :: 0 <= x < |d| && (x < g.reserved || x > g.reserved + g.perFat) && !InClusters(g, cs, x) ==> d'[x] == d[x]
  }

  lemma FreeNotInChain(t: seq<u32>, cs: seq<nat>, c: nat)
    requires |cs| > 0 && IsChain(t, cs[0], cs) && c < |t| && t[c] == 0
    ensures c !in cs
  {
  }

  lemma FreesUsable(t: seq<u32>, n: nat, cs: seq<nat>)
    requires n <= |Frees(t, 2)| && (|cs| > 0 ==> IsChain(t, cs[0], cs))
    ensures var f := Frees(t, 2)[..n];
            Distinct(f) && InTable(t, f) && forall i :: 0 <= i < n ==> f[i] !in cs
  {
    FreesAre(t, 2);
    hide Frees, IsChain;
    var f := Frees(t, 2)[..n];
    forall i | 0 <= i < n
      ensures f[i] !in cs
    {
      if |cs| > 0 {
        FreeNotInChain(t, cs, f[i]);
      }
    }
  }

  lemma InEither(g: Geometry, a: seq<nat>, b: seq<nat>, x: nat)
    requires InClusters(g, a, x) || InClusters(g, b, x)
    ensures InClusters(g, a + b, x)
  {
    if InClusters(g, a, x) {
      var i :| 0 <= i < |a| && a[i] >= 2 && DataSector(g, a[i], 0) <= x < DataSector(g, a[i], 0) + SECTORS_PER_CLUSTER;
      assert (a + b)[i] == a[i];
    } else {
      var i :| 0 <= i < |b| && b[i] >= 2 && DataSector(g, b[i], 0) <= x < DataSector(g, b[i], 0) + SECTORS_PER_CLUSTER;
      assert (a + b)[|a| + i] == b[i];
    }
  }

  /** What `WriteFAT` is given: the new clusters, after the last of the chain if there is one. */
  ghost function Tail(cs: seq<nat>, new_: seq<nat>): seq<nat> {
    (if |cs| > 0 then [cs[|cs| - 1]] else []) + new_
  }

  lemma NowChain(t: seq<u32>, t': seq<u32>, cs: seq<nat>, new_: seq<nat>)
    requires (|cs| > 0 ==> IsChain(t, cs[0], cs)) && |new_| > 0 && Linked(t, t', Tail(cs, new_))
    requires Distinct(new_) && forall i :: 0 <= i < |new_| ==> new_[i] !in cs
    ensures IsChain(t', (cs + new_)[0], cs + new_)
    ensures forall c :: 0 <= c < |t| && c !in cs + new_ ==> t'[c] == t[c]
  {
    if |cs| > 0 {
      AppendIsChain(t, t', cs, new_);
    } else {
      assert cs + new_ == new_ == Tail(cs, new_);
      LinkedIsChain(t, t', new_);
    }
  }

  lemma WipedOutside(d: Disk, d1: Disk, d2: Disk, g: Geometry, cs: seq<nat>, new_: seq<nat>, x: nat)
    requires Wiped(d, d1, g, new_) && OnlyTables(d1, d2, g) && x < |d|
    requires (x < g.reserved || x > g.reserved + g.perFat) && !InClusters(g, cs + new_, x)
    ensures |d2| == |d| && d2[x] == d[x]
  {
    hide InClusters;
    if InClusters(g, new_, x) {
      InEither(g, cs, new_, x);
    }
  }

  lemma WipedInside(d: Disk, d1: Disk, d2: Disk, g: Geometry, new_: seq<nat>, x: nat)
    requires Fits(g, |d|) && Wiped(d, d1, g, new_) && OnlyTables(d1, d2, g) && DataStart(g) <= x < |d|
    ensures |d2| == |d| && d2[x] == if InClusters(g, new_, x) then Zeros() else d[x]
  {
    hide InClusters;
  }

  /** Wiping new clusters, then linking them after the last of the old, extends the chain. */
  lemma WipeThenLink(d: Disk, d1: Disk, d2: Disk, g: Geometry, cs: seq<nat>, new_: seq<nat>)
    requires Fits(g, |d|) && Wiped(d, d1, g, new_) && |d1| == |d| && OnlyTables(d1, d2, g) && |new_| > 0
    requires |cs| > 0 ==> IsChain(Table(d, g), cs[0], cs)
    requires Distinct(new_) && forall i :: 0 <= i < |new_| ==> new_[i] !in cs
    requires Linked(Table(d1, g), Table(d2, g), Tail(cs, new_))
    requires ChainOnDisk(d, g, cs) && forall i :: 0 <= i < |new_| ==> 2 <= new_[i] < ClusterLimit(g, |d|)
    ensures Extended(d, d2, g, cs, new_)
  {
    hide Table, InClusters, IsChain, Distinct, Linked, Wiped, OnlyTables, Fits, Tail, ClusterLimit;
    WipedKeepsTable(d, d1, g, new_);
    SameLength(d1, d2, g);
    NowChain(Table(d, g), Table(d2, g), cs, new_);
    BothOnDisk(d, d2, g, cs, new_);
    forall x | 0 <= x < |d| && (x < g.reserved || x > g.reserved + g.perFat) && !InClusters(g, cs + new_, x)
      ensures d2[x] == d[x]
    {
      WipedOutside(d, d1, d2, g, cs, new_, x);
    }
    forall x | DataStart(g) <= x < |d|
      ensures d2[x] == if InClusters(g, new_, x) then Zeros() else d[x]
    {
      WipedInside(d, d1, d2, g, new_, x);
    }
  }

  lemma BothOnDisk(d: Disk, d': Disk, g: Geometry, cs: seq<nat>, new_: seq<nat>)
    requires ChainOnDisk(d, g, cs) && |d'| == |d| && Distinct(new_) && forall i :: 0 <= i < |new_| ==> new_[i] !in cs
    requires forall i :: 0 <= i < |new_| ==> 2 <= new_[i] < ClusterLimit(g, |d|)
    ensures ChainOnDisk(d', g, cs + new_)
  {
    hide ClusterLimit, Fits;
    var all := cs + new_;
    forall i, j | 0 <= i < j < |all|
      ensures all[i] != all[j]
    {
      if i < |cs| <= j {
        assert all[j] == new_[j - |cs|];
      }
    }
  }

  lemma SameLength(d: Disk, d': Disk, g: Geometry)
    requires OnlyTables(d, d', g)
    ensures |d'| == |d|
  {
  }

  /** `AllotClustersForEmptyFile`. Its test for a failed search never holds: without enough
      free clusters it links whatever the array holds, and reports success. `before` is what
      the array held, entries of the table at worst. */
  method AllotClusters(v: Volume, size: nat, before: seq<nat>) returns (r: int, start: nat)
    requires v.Valid() && size > 0 && |before| == ClustersFor(size)
    requires |Frees(v.Fat(), 2)| >= |before| ==> Room(v.Fat(), v.g, |v.disk|, |before|)
    requires forall i :: 0 <= i < |before| ==> before[i] < Slots(v.g)
    modifies v`disk, v`fatBuf
    ensures v.Valid() && r == OK
    ensures |Frees(old(v.Fat()), 2)| >= |before| ==>
      && Extended(old(v.disk), v.disk, v.g, [], Frees(old(v.Fat()), 2)[..|before|])
      && start == Frees(old(v.Fat()), 2)[0]
    ensures |Frees(old(v.Fat()), 2)| < |before| ==> Misallotted(old(v.disk), v.disk, v.g, before, start)
  {
    hide Table, Frees, Wiped, OnlyTables, Linked, Extended, LinkedUpTo, Misallotted, Room, Filled, Distinct, InTable, Fits,
         ClusterLimit, Found;
    ghost var d0, t := v.disk, v.Fat();
    var n := if size % CLUSTER == 0 then size / CLUSTER else size / CLUSTER + 1;
    var state, clusters := v.FindClusterForFile(n, before);
    FoundIs(t, v.g, |d0|, before, clusters);
    ghost var d1 := v.disk;
    start := clusters[0];
    v.WriteFAT(clusters);
    AllotEnds(d0, d1, v.disk, v.g, before, clusters);
    r := OK;
  }

  /** What the search for clusters leaves in the array, and where these are. */
  ghost predicate Found(t: seq<u32>, g: Geometry, sectors: nat, before: seq<nat>, clusters: seq<nat>)
    requires Fits(g, sectors)
  {
    && |clusters| == |before| && (forall i :: 0 <= i < |clusters| ==> clusters[i] < Slots(g))
    && if |Frees(t, 2)| >= |before|
       then clusters == Frees(t, 2)[..|before|] && Distinct(clusters) && InTable(t, clusters)
            && forall i :: 0 <= i < |clusters| ==> 2 <= clusters[i] < ClusterLimit(g, sectors)
       else clusters == Filled(t, before)
  }

  lemma FoundIs(t: seq<u32>, g: Geometry, sectors: nat, before: seq<nat>, clusters: seq<nat>)
    requires Fits(g, sectors) && |t| == Slots(g) && (|Frees(t, 2)| >= |before| ==> Room(t, g, sectors, |before|))
    requires forall i :: 0 <= i < |before| ==> before[i] < Slots(g)
    requires clusters == if |Frees(t, 2)| >= |before| then Frees(t, 2)[..|before|] else Filled(t, before)
    ensures Found(t, g, sectors, before, clusters) && (forall i :: 0 <= i < |clusters| ==> clusters[i] < Slots(g))
  {
    hide Frees, Filled, Fits, ClusterLimit, Room, Distinct, InTable;
    if |Frees(t, 2)| >= |before| {
      RoomFrees(t, g, sectors, |before|);
      FreesUsable(t, |before|, []);
      FreesAtLeastTwo(t, |before|);
      UsableInTable(t, |before|);
    } else {
      FilledInTable(t, before);
    }
  }

  lemma AllotEnds(d0: Disk, d1: Disk, d2: Disk, g: Geometry, before: seq<nat>, clusters: seq<nat>)
    requires Fits(g, |d0|) && |before| > 0 && Found(Table(d0, g), g, |d0|, before, clusters) && |d1| == |d0|
    requires (forall i :: 0 <= i < |before| ==> before[i] < Slots(g)) && Table(d1, g) == Table(d0, g)
    requires if |Frees(Table(d0, g), 2)| >= |before| then Wiped(d0, d1, g, clusters) else d1 == d0
    requires OnlyTables(d1, d2, g) && Table(d2, g) == LinkedUpTo(Table(d0, g), clusters, |clusters|)
    requires Distinct(clusters) && InTable(Table(d0, g), clusters) ==> Linked(Table(d0, g), Table(d2, g), clusters)
    ensures |Frees(Table(d0, g), 2)| >= |before| ==>
      && Extended(d0, d2, g, [], Frees(Table(d0, g), 2)[..|before|])
      && clusters[0] == Frees(Table(d0, g), 2)[0]
    ensures |Frees(Table(d0, g), 2)| < |before| ==> Misallotted(d0, d2, g, before, clusters[0])
  {
    hide Table, Frees, Wiped, OnlyTables, Linked, Extended, LinkedUpTo, Misallotted, Filled, Distinct, InTable, Fits,
         ClusterLimit, IsChain;
    if |Frees(Table(d0, g), 2)| >= |before| {
      assert clusters == Tail([], clusters);
      NothingOnDisk(d0, g);
      WipeThenLink(d0, d1, d2, g, [], clusters);
    } else {
      MisallottedIs(d0, d2, g, before);
    }
  }

  /** What a first write gets when there are too few free clusters: the array, with the free
      clusters in front and its old contents behind, linked as if it were a chain. */
  ghost predicate Misallotted(d: Disk, d': Disk, g: Geometry, before: seq<nat>, start: nat) {
    && Fits(g, |d|) && |before| > |Frees(Table(d, g), 2)| && (forall i :: 0 <= i < |before| ==> before[i] < Slots(g))
    && var clusters := Filled(Table(d, g), before);
       && (forall i :: 0 <= i < |clusters| ==> clusters[i] < Slots(g)) && start == clusters[0]
       && OnlyTables(d, d', g) && Table(d', g) == LinkedUpTo(Table(d, g), clusters, |clusters|)
  }

  lemma MisallottedIs(d: Disk, d': Disk, g: Geometry, before: seq<nat>)
    requires Fits(g, |d|) && |before| > |Frees(Table(d, g), 2)| && forall i :: 0 <= i < |before| ==> before[i] < Slots(g)
    requires OnlyTables(d, d', g) && forall i :: 0 <= i < |before| ==> Filled(Table(d, g), before)[i] < Slots(g)
    requires Table(d', g) == LinkedUpTo(Table(d, g), Filled(Table(d, g), before), |before|)
    ensures Misallotted(d, d', g, before, Filled(Table(d, g), before)[0])
  {
    hide Table, Frees, LinkedUpTo, OnlyTables, Filled;
  }

  lemma FilledInTable(t: seq<u32>, before: seq<nat>)
    requires |Frees(t, 2)| <= |before| && forall i :: 0 <= i < |before| ==> before[i] < |t|
    ensures forall i :: 0 <= i < |before| ==> Filled(t, before)[i] < |t|
  {
    FreesAre(t, 2);
    hide Frees;
  }

  lemma UsableInTable(t: seq<u32>, n: nat)
    ensures n <= |Frees(t, 2)| ==> forall i :: 0 <= i < n ==> Frees(t, 2)[i] < |t|
  {
    FreesAre(t, 2);
    hide Frees;
  }

  lemma NothingOnDisk(d: Disk, g: Geometry)
    requires Fits(g, |d|)
    ensures ChainOnDisk(d, g, [])
  {
  }

  /** Nothing could have saved that write: there are no n free clusters to give. */
  lemma MisallottedNotFree(t: seq<u32>, before: seq<nat>)
    requires |before| > |Frees(t, 2)|
    ensures !exists cs: seq<nat> :: |cs| == |before| && Distinct(cs) && InTable(t, cs) &&
              forall i :: 0 <= i < |cs| ==> t[cs[i]] == 0
  {
    forall cs: seq<nat> | Distinct(cs) && InTable(t, cs) && forall i :: 0 <= i < |cs| ==> t[cs[i]] == 0
      ensures |cs| != |before|
    {
      TooFewFrees(t, cs);
    }
  }

  /** The failing call: on a full table, an array that happens to hold the first cluster of
      another file makes that cluster the new file's too, and cuts the other file short. */
  lemma MisallottedShares(t: seq<u32>, other: seq<nat>)
    requires |t| <= FAT_END && |Frees(t, 2)| == 0 && |other| > 1 && IsChain(t, other[0], other)
    ensures Filled(t, [other[0]]) == [other[0]] && other[0] < |t|
    ensures var t' := LinkedUpTo(t, [other[0]], 1);
            IsChain(t', other[0], [other[0]]) && !IsChain(t', other[0], other)
  {
    var t' := LinkedUpTo(t, [other[0]], 1);
    assert LinkedUpTo(t, [other[0]], 0) == t;
    assert t'[other[0]] == FAT_END && other[1] < |t|;
    assert Link(other, 0) == other[1];
  }

  /** `AddCluster` */
  method AddCluster(v: Volume, start: u32, num: nat, before: seq<nat>, ghost cs: seq<nat>) returns (r: int)
    requires v.Valid() && IsChain(v.Fat(), start, cs) && ChainOnDisk(v.disk, v.g, cs) && num > 0 && |before| == num
    requires |Frees(v.Fat(), 2)| >= num ==> Room(v.Fat(), v.g, |v.disk|, num)
    modifies v`disk, v`fatBuf, v`globalSectorIndex
    ensures v.Valid()
    ensures if |Frees(old(v.Fat()), 2)| >= num
            then r == OK && Extended(old(v.disk), v.disk, v.g, cs, Frees(old(v.Fat()), 2)[..num])
            else r == INSUFFICIENTSPACE && v.disk == old(v.disk)
  {
    hide Table, Frees, Wiped, OnlyTables, Linked, Extended, IsChain, LinkedUpTo, Room, Filled, Distinct, InTable;
    ghost var d0, t := v.disk, v.Fat();
    ChainInTable(t, start, cs);
    ChainEnds(t, start, cs);
    var state, clusters := v.FindClusterForFile(num, before);
    if state != OK {
      return state;
    }
    RoomFrees(t, v.g, |v.disk|, num);
    FreesUsable(t, num, cs);
    FreesAtLeastTwo(t, num);
    ghost var d1 := v.disk;
    var cur := start;
    ghost var i := 0;
    ChainSteps(t, start, cs, 0);
    while true
      invariant i < |cs| && cur == cs[i] && 2 <= cur < |t| && v.Valid() && v.disk == d1
      decreases |cs| - i
    {
      ChainSteps(t, start, cs, i);
      var next := v.GetNextCluster(cur);
      if next == FAT_END {
        break;
      }
      cur := next;
      i := i + 1;
    }
    TailUsable(t, start, cs, clusters);
    assert [cur] + clusters == Tail(cs, clusters);
    EachInTable(t, Tail(cs, clusters));
    v.WriteFAT([cur] + clusters);
    WipeThenLink(d0, d1, v.disk, v.g, cs, clusters);
    r := OK;
  }

  lemma EachInTable(t: seq<u32>, cs: seq<nat>)
    requires InTable(t, cs)
    ensures forall i :: 0 <= i < |cs| ==> cs[i] < |t|
  {
  }

  lemma ChainSteps(t: seq<u32>, start: nat, cs: seq<nat>, i: nat)
    requires IsChain(t, start, cs) && i < |cs| && |t| <= FAT_END
    ensures 2 <= cs[i] < |t| && t[cs[i]] == Link(cs, i)
    ensures if i + 1 < |cs| then t[cs[i]] == cs[i + 1] != FAT_END && 2 <= cs[i + 1] < |t| else t[cs[i]] == FAT_END
    ensures cs[0] == start
  {
  }

  lemma TailUsable(t: seq<u32>, start: nat, cs: seq<nat>, new_: seq<nat>)
    requires IsChain(t, start, cs) && Distinct(new_) && InTable(t, new_) && forall i :: 0 <= i < |new_| ==> new_[i] !in cs
    ensures InTable(t, Tail(cs, new_)) && Distinct(Tail(cs, new_))
  {
    var all, last := Tail(cs, new_), cs[|cs| - 1];
    assert last in cs && 2 <= last < |t|;
    hide IsChain;
    forall i | 0 <= i < |all|
      ensures 2 <= all[i] < |t|
    {
      assert all[i] == if i == 0 then last else new_[i - 1];
    }
    forall i, j | 0 <= i < j < |all|
      ensures all[i] != all[j]
    {
      assert all[j] == new_[j - 1] && all[i] == if i == 0 then last else new_[i - 1];
    }
  }

  // ---------------------------------------------------------------- finding a sector

  /** `GetNextSector` for a file not opened read-only: from sector x of the file to the next;
      at the last one the result is left as it was. */
  method GetNextSector(v: Volume, cur: nat, prev: nat, ghost start: nat, ghost cs: seq<nat>, ghost x: nat)
    returns (next: nat)
    requires v.Valid() && IsChain(v.Fat(), start, cs) && x < SECTORS_PER_CLUSTER * |cs| && cur == FileSector(v.g, cs, x)
    modifies v`fatBuf, v`globalSectorIndex
    ensures v.Valid()
    ensures next == if x + 1 < SECTORS_PER_CLUSTER * |cs| then FileSector(v.g, cs, x + 1) else prev
  {
    hide Table, IsChain, Distinct, InTable;
    ghost var k := x / SECTORS_PER_CLUSTER;
    ChainInTable(v.Fat(), start, cs);
    ChainSteps(v.Fat(), start, cs, k);
    var temp := cur - v.g.reserved - 2 * v.g.perFat;
    var curCluster := temp / SECTORS_PER_CLUSTER + 2;
    var offInCluster := temp % SECTORS_PER_CLUSTER;
    assert temp == (cs[k] - 2) * SECTORS_PER_CLUSTER + x % SECTORS_PER_CLUSTER;
    assert curCluster == cs[k] && offInCluster == x % SECTORS_PER_CLUSTER;
    next := prev;
    var nextCluster := v.GetNextCluster(curCluster);
    if nextCluster == FAT_END {
      var last := SECTORS_PER_CLUSTER;
      if offInCluster < last - 1 {
        next := v.g.reserved + 2 * v.g.perFat + (curCluster - 2) * SECTORS_PER_CLUSTER + offInCluster + 1;
      }
    } else {
      if offInCluster < SECTORS_PER_CLUSTER - 1 {
        next := v.g.reserved + 2 * v.g.perFat + (curCluster - 2) * SECTORS_PER_CLUSTER + offInCluster + 1;
      } else {
        curCluster := nextCluster;
        next := v.g.reserved + 2 * v.g.perFat + (curCluster - 2) * SECTORS_PER_CLUSTER;
      }
      nextCluster := v.GetNextCluster(curCluster);
    }
  }

  /** `GetFileOffset`: stepping sector by sector finds sector off / 512 of the file. */
  method GetFileOffset(v: Volume, start: u32, off: nat, ghost cs: seq<nat>) returns (sector: nat, offInSector: nat)
    requires v.Valid() && IsChain(v.Fat(), start, cs) && off < CLUSTER * |cs|
    modifies v`fatBuf, v`globalSectorIndex
    ensures v.Valid() && InTable(v.Fat(), cs)
    ensures cs[off / 4096] >= 2 && offInSector == off % 512
    ensures sector == v.g.reserved + 2 * v.g.perFat + (cs[off / 4096] - 2) * 8 + off / 512 % 8
  {
    hide Table, IsChain, Distinct;
    ChainInTable(v.Fat(), start, cs);
    ChainEnds(v.Fat(), start, cs);
    var sectorNum := off / SECTOR + 1;
    offInSector := off % SECTOR;
    sector := v.g.reserved + 2 * v.g.perFat + (start - 2) * SECTORS_PER_CLUSTER;
    var next, counter := 0, 0;
    while true
      invariant counter < sectorNum && v.Valid() && sector == FileSector(v.g, cs, counter)
      decreases sectorNum - counter
    {
      counter := counter + 1;
      if counter == sectorNum {
        break;
      }
      next := GetNextSector(v, sector, next, start, cs, counter - 1);
      sector := next;
    }
  }

  // ---------------------------------------------------------------- writing along a chain

  /** The bytes from pos on along the chain are data, every other byte of the chain and every
      sector outside it is as it was. */
  ghost predicate Stored(d: Disk, d': Disk, g: Geometry, cs: seq<nat>, pos: nat, data: seq<byte>)
  {
    && ChainOnDisk(d, g, cs) && |d'| == |d| && pos + |data| <= CLUSTER * |cs|
    && (forall i :: 0 <= i < CLUSTER * |cs| ==>
          ByteAt(d', g, cs, i) == if pos <= i < pos + |data| then data[i - pos] else ByteAt(d, g, cs, i))
    && forall x :: 0 <= x < |d| && !InClusters(g, cs, x) ==> d'[x] == d[x]
  }

  lemma StoredNothing(d: Disk, g: Geometry, cs: seq<nat>, pos: nat)
    requires ChainOnDisk(d, g, cs) && pos <= CLUSTER * |cs|
    ensures Stored(d, d, g, cs, pos, [])
  {
    hide ByteAt, InClusters;
  }

  /** A sector with piece copied over it from o on. */
  function Overlaid(s: Sector, o: nat, piece: seq<byte>): Sector
    requires o + |piece| <= SECTOR
  {
    s[..o] + piece + s[o + |piece|..]
  }

  lemma OverlaidAt(s: Sector, o: nat, piece: seq<byte>, i: nat)
    requires o + |piece| <= SECTOR && i < SECTOR
    ensures Overlaid(s, o, piece)[i] == if o <= i < o + |piece| then piece[i - o] else s[i]
  {
  }

  /** A byte after sector y of the file was overlaid. */
  lemma ByteAfter(d: Disk, g: Geometry, cs: seq<nat>, p: nat, piece: seq<byte>, i: nat)
    requires ChainOnDisk(d, g, cs) && p % SECTOR + |piece| <= SECTOR && p < CLUSTER * |cs| && i < CLUSTER * |cs|
    ensures p / SECTOR / SECTORS_PER_CLUSTER < |cs| && FileSector(g, cs, p / SECTOR) < |d|
    ensures var s := FileSector(g, cs, p / SECTOR);
            ByteAt(d[s := Overlaid(d[s], p % SECTOR, piece)], g, cs, i)
            == if p <= i < p + |piece| then piece[i - p] else ByteAt(d, g, cs, i)
  {
    hide Overlaid, FileSector, Distinct, Fits;
    SectorOnDisk(d, g, cs, p / SECTOR);
    SectorOnDisk(d, g, cs, i / SECTOR);
    var s := FileSector(g, cs, p / SECTOR);
    if i / SECTOR == p / SECTOR {
      OverlaidAt(d[s], p % SECTOR, piece, i % SECTOR);
    } else {
      SectorsApart(d, g, cs, i / SECTOR, p / SECTOR);
    }
  }

  lemma FileSectorInside(g: Geometry, cs: seq<nat>, x: nat)
    requires x < SECTORS_PER_CLUSTER * |cs| && forall i :: 0 <= i < |cs| ==> cs[i] >= 2
    ensures InClusters(g, cs, FileSector(g, cs, x))
  {
    assert cs[x / SECTORS_PER_CLUSTER] >= 2;
  }

  lemma StoredMore(d: Disk, d': Disk, g: Geometry, cs: seq<nat>, pos: nat, data: seq<byte>, piece: seq<byte>)
    requires Stored(d, d', g, cs, pos, data) && |piece| > 0 && (pos + |data|) % SECTOR + |piece| <= SECTOR
    requires pos + |data| < CLUSTER * |cs|
    ensures var p := pos + |data|;
            && p / SECTOR / SECTORS_PER_CLUSTER < |cs|
            && var s := FileSector(g, cs, p / SECTOR);
               s < |d'| && Stored(d, d'[s := Overlaid(d'[s], p % SECTOR, piece)], g, cs, pos, data + piece)
  {
    hide ByteAt, Overlaid, FileSector, Distinct, Fits, InClusters;
    var p := pos + |data|;
    SectorOnDisk(d', g, cs, p / SECTOR);
    var s := FileSector(g, cs, p / SECTOR);
    var e := d'[s := Overlaid(d'[s], p % SECTOR, piece)];
    SectorFits(p, |piece|, |cs|);
    forall i | 0 <= i < CLUSTER * |cs|
      ensures ByteAt(e, g, cs, i)
              == if pos <= i < pos + |data + piece| then (data + piece)[i - pos] else ByteAt(d, g, cs, i)
    {
      ByteAfter(d', g, cs, p, piece, i);
    }
    FileSectorInside(g, cs, p / SECTOR);
  }

  lemma SectorFits(p: nat, n: nat, clusters: nat)
    requires p % SECTOR + n <= SECTOR && p < CLUSTER * clusters
    ensures p + n <= CLUSTER * clusters
  {
    var k := p / SECTOR;
    assert p == k * SECTOR + p % SECTOR && k < SECTORS_PER_CLUSTER * clusters;
  }

  /** Read from the front, the file is what it was up to pos, then the data. */
  lemma StoredContent(d: Disk, d': Disk, g: Geometry, cs: seq<nat>, pos: nat, data: seq<byte>)
    requires Stored(d, d', g, cs, pos, data)
    ensures ChainOnDisk(d', g, cs)
    ensures Content(d', g, cs, pos + |data|) == Content(d, g, cs, pos) + data
  {
    hide ByteAt, Distinct, Fits;
    forall i | 0 <= i < pos + |data|
      ensures Content(d', g, cs, pos + |data|)[i] == (Content(d, g, cs, pos) + data)[i]
    {
    }
  }

  lemma OutsideTables(g: Geometry, cs: seq<nat>, x: nat)
    ensures InClusters(g, cs, x) ==> x >= DataStart(g)
  {
  }

  /** Storing along a chain leaves the table alone. */
  lemma StoredKeepsTable(d: Disk, d': Disk, g: Geometry, cs: seq<nat>, pos: nat, data: seq<byte>)
    requires Stored(d, d', g, cs, pos, data)
    ensures Fits(g, |d|) && |d'| == |d| && Table(d', g) == Table(d, g)
  {
    hide ByteAt, Distinct, Table, InClusters;
    forall x | 0 <= x < DataStart(g)
      ensures d'[x] == d[x]
    {
      OutsideTables(g, cs, x);
    }
    TableSame(d, d', g);
  }

  method StorePiece(v: Volume, cur: nat, offInSector: nat, piece: seq<byte>, ghost d: Disk, ghost start: nat,
                    ghost cs: seq<nat>, ghost pos: nat, ghost data: seq<byte>)
    requires v.Valid() && Stored(d, v.disk, v.g, cs, pos, data) && |piece| > 0 && offInSector + |piece| <= SECTOR
    requires offInSector == (pos + |data|) % SECTOR && pos + |data| < CLUSTER * |cs|
    requires IsChain(v.Fat(), start, cs) && cur == FileSector(v.g, cs, (pos + |data|) / SECTOR)
    modifies v`disk, v`fatBuf
    ensures v.Valid() && Stored(d, v.disk, v.g, cs, pos, data + piece) && IsChain(v.Fat(), start, cs)
  {
    hide Table, IsChain, Stored, Overlaid, FileSector;
    StoredMore(d, v.disk, v.g, cs, pos, data, piece);
    StoredKeepsTable(d, v.disk, v.g, cs, pos, data);
    var sector := v.ReadSector(cur);
    v.WriteSector(Overlaid(sector, offInSector, piece), cur);
    StoredKeepsTable(d, v.disk, v.g, cs, pos, data + piece);
  }

  lemma SectorOfByte(g: Geometry, cs: seq<nat>, off: nat)
    requires off < CLUSTER * |cs| && forall i :: 0 <= i < |cs| ==> cs[i] >= 2
    ensures off / SECTOR / SECTORS_PER_CLUSTER < |cs|
    ensures DataSector(g, cs[off / CLUSTER], off / SECTOR % SECTORS_PER_CLUSTER) == FileSector(g, cs, off / SECTOR)
  {
  }

  lemma NextSectorStarts(off: nat, clusters: nat, end: nat)
    requires off + (SECTOR - off % SECTOR) < end <= CLUSTER * clusters
    ensures var next := off + (SECTOR - off % SECTOR);
            next / SECTOR == off / SECTOR + 1 && next % SECTOR == 0
    ensures off / SECTOR + 1 < SECTORS_PER_CLUSTER * clusters
  {
  }

  /** The second half of `WriteFile`: the chain is long enough; fill it sector by sector. */
  method FillChain(v: Volume, f: File, buf: seq<byte>, ghost cs: seq<nat>)
    requires v.Valid() && |buf| > 0 && IsChain(v.Fat(), f.start, cs) && f.off + |buf| <= CLUSTER * |cs|
    requires ChainOnDisk(v.disk, v.g, cs)
    requires f.off + |buf| < TWO32
    modifies v`disk, v`fatBuf, v`globalSectorIndex, f`off
    ensures v.Valid() && f.off == old(f.off) + |buf|
    ensures Stored(old(v.disk), v.disk, v.g, cs, old(f.off), buf)
  {
    hide Table, IsChain, Stored, Distinct, FileSector, InTable, Link;
    ghost var d, pos := v.disk, f.off;
    ChainInTable(v.Fat(), f.start, cs);
    StoredNothing(d, v.g, cs, pos);
    var cur, offInSector := GetFileOffset(v, f.start, f.off, cs);
    SectorOfByte(v.g, cs, f.off);
    var free, offInBuf, next := SECTOR - offInSector, 0, 0;
    assert buf[..0] == [];
    while free < |buf| - offInBuf
      invariant v.Valid() && IsChain(v.Fat(), f.start, cs) && 0 <= offInBuf < |buf| && f.off == pos + offInBuf
      invariant offInSector == f.off % SECTOR && free == SECTOR - offInSector && cur == FileSector(v.g, cs, f.off / SECTOR)
      invariant Stored(d, v.disk, v.g, cs, pos, buf[..offInBuf])
    {
      ghost var x := f.off / SECTOR;
      NextSectorStarts(f.off, |cs|, pos + |buf|);
      StorePiece(v, cur, offInSector, buf[offInBuf..offInBuf + free], d, f.start, cs, pos, buf[..offInBuf]);
      assert buf[..offInBuf + free] == buf[..offInBuf] + buf[offInBuf..offInBuf + free];
      offInBuf := offInBuf + free;
      f.off := f.off + free;
      next := GetNextSector(v, cur, next, f.start, cs, x);
      cur := next;
      free := SECTOR;
      offInSector := 0;
    }
    StorePiece(v, cur, offInSector, buf[offInBuf..], d, f.start, cs, pos, buf[..offInBuf]);
    assert buf == buf[..offInBuf] + buf[offInBuf..];
    f.off := f.off + (|buf| - offInBuf);
  }

  // ---------------------------------------------------------------- WriteFile

  /** A file as writes from its beginning leave it: no clusters yet, or just enough for off bytes. */
  ghost predicate Holds(d: Disk, g: Geometry, start: nat, off: nat, cs: seq<nat>) {
    && Fits(g, |d|) && ChainOnDisk(d, g, cs)
    && if start == 0 then off == 0 && cs == []
       else off > 0 && IsChain(Table(d, g), start, cs) && |cs| == ClustersFor(off)
  }

  /** The chain has grown by clusters that were free, its bytes by buf; no other entry and no
      other sector has changed. */
  ghost predicate Appended(d: Disk, d': Disk, g: Geometry, cs: seq<nat>, new_: seq<nat>, off: nat, buf: seq<byte>) {
    && ChainOnDisk(d, g, cs) && ChainOnDisk(d', g, cs + new_)
    && off <= CLUSTER * |cs| && off + |buf| <= CLUSTER * |cs + new_|
    && Content(d', g, cs + new_, off + |buf|) == Content(d, g, cs, off) + buf
    && Untouched(d, d', g, cs + new_)
    && forall i :: 0 <= i < |new_| ==> 2 <= new_[i] < Slots(g) && Table(d, g)[new_[i]] == 0
  }

  lemma ClustersApart(g: Geometry, cs: seq<nat>, c: nat, k: nat)
    requires c >= 2 && c !in cs && k < SECTORS_PER_CLUSTER
    ensures !InClusters(g, cs, DataSector(g, c, k))
  {
    forall i | 0 <= i < |cs| && cs[i] >= 2
      ensures !(DataSector(g, cs[i], 0) <= DataSector(g, c, k) < DataSector(g, cs[i], 0) + SECTORS_PER_CLUSTER)
    {
      TwoClusters(g, c, k, cs[i]);
    }
    hide DataSector;
  }

  lemma TwoClusters(g: Geometry, c: nat, k: nat, e: nat)
    requires c >= 2 && e >= 2 && c != e && k < SECTORS_PER_CLUSTER
    ensures !(DataSector(g, e, 0) <= DataSector(g, c, k) < DataSector(g, e, 0) + SECTORS_PER_CLUSTER)
  {
  }

  /** A longer chain still reads the old bytes in front. */
  lemma ExtendedReads(d: Disk, d': Disk, g: Geometry, cs: seq<nat>, new_: seq<nat>, n: nat)
    requires Extended(d, d', g, cs, new_) && ChainOnDisk(d, g, cs) && ChainOnDisk(d', g, cs + new_) && n <= CLUSTER * |cs|
    ensures Content(d', g, cs + new_, n) == Content(d, g, cs, n)
  {
    forall i | 0 <= i < n
      ensures ByteAt(d', g, cs + new_, i) == ByteAt(d, g, cs, i)
    {
      ExtendedByte(d, d', g, cs, new_, i);
    }
    hide ByteAt, ChainOnDisk;
  }

  lemma ExtendedByte(d: Disk, d': Disk, g: Geometry, cs: seq<nat>, new_: seq<nat>, i: nat)
    requires Extended(d, d', g, cs, new_) && ChainOnDisk(d, g, cs) && ChainOnDisk(d', g, cs + new_) && i < CLUSTER * |cs|
    ensures ByteAt(d', g, cs + new_, i) == ByteAt(d, g, cs, i)
  {
    SectorOnDisk(d, g, cs, i / SECTOR);
    var c := cs[i / SECTOR / SECTORS_PER_CLUSTER];
    assert (cs + new_)[i / SECTOR / SECTORS_PER_CLUSTER] == c;
    OldNotNew(cs, new_, i / SECTOR / SECTORS_PER_CLUSTER);
    ClustersApart(g, new_, c, i / SECTOR % SECTORS_PER_CLUSTER);
    hide IsChain, Distinct, InClusters, Untouched, Fits;
  }

  lemma OldNotNew(cs: seq<nat>, new_: seq<nat>, k: nat)
    requires Distinct(cs + new_) && k < |cs|
    ensures cs[k] !in new_
  {
    forall j | 0 <= j < |new_|
      ensures new_[j] != cs[k]
    {
      assert (cs + new_)[k] != (cs + new_)[|cs| + j];
    }
  }

  /** Growing the chain and then filling it appends. */
  lemma ExtendThenStore(d: Disk, d1: Disk, d2: Disk, g: Geometry, cs: seq<nat>, new_: seq<nat>, off: nat, buf: seq<byte>)
    requires Extended(d, d1, g, cs, new_) && ChainOnDisk(d, g, cs) && off <= CLUSTER * |cs|
    requires Stored(d1, d2, g, cs + new_, off, buf)
    requires forall i :: 0 <= i < |new_| ==> 2 <= new_[i] < Slots(g) && Table(d, g)[new_[i]] == 0
    ensures Appended(d, d2, g, cs, new_, off, buf)
    ensures Table(d2, g) == Table(d1, g)
  {
    hide Table, IsChain, ByteAt, Distinct, InClusters, Content;
    StoredKeepsTable(d1, d2, g, cs + new_, off, buf);
    ExtendedReads(d, d1, g, cs, new_, off);
    StoredContent(d1, d2, g, cs + new_, off, buf);
  }

  /** Filling a chain that is long enough appends too. */
  lemma StoreOnly(d: Disk, d2: Disk, g: Geometry, cs: seq<nat>, off: nat, buf: seq<byte>)
    requires Stored(d, d2, g, cs, off, buf)
    ensures Appended(d, d2, g, cs, [], off, buf)
    ensures Table(d2, g) == Table(d, g)
  {
    hide Table, ByteAt, Distinct, InClusters, Content;
    assert cs + [] == cs;
    StoredKeepsTable(d, d2, g, cs, off, buf);
    StoredContent(d, d2, g, cs, off, buf);
  }

  lemma ExtendedChain(d: Disk, d': Disk, g: Geometry, cs: seq<nat>, new_: seq<nat>)
    requires Extended(d, d', g, cs, new_)
    ensures |cs + new_| > 0 && |d'| == |d| && Fits(g, |d|) && IsChain(Table(d', g), (cs + new_)[0], cs + new_)
    ensures ChainOnDisk(d', g, cs + new_)
  {
    hide IsChain, Table, Untouched, ChainOnDisk;
  }

  lemma HoldsChain(d: Disk, g: Geometry, start: nat, off: nat, cs: seq<nat>)
    requires Holds(d, g, start, off, cs)
    ensures start != 0 ==> |cs| > 0 && cs[0] == start && IsChain(Table(d, g), start, cs)
    ensures ChainOnDisk(d, g, cs) && off <= CLUSTER * |cs| && |cs| == ClustersFor(off)
  {
  }

  /** Clusters a write still needs. */
  function Need(off: nat, size: nat, cs: seq<nat>): (n: nat)
    requires |cs| == ClustersFor(off)
    ensures n == ClustersFor(off + size) - |cs|
  {
    ClustersFor(off + size) - |cs|
  }

  /** The first half of `WriteFile`: clusters for size more bytes. Too few free ones are
      reported, and then nothing is written, if and only if the file already has clusters.
      `junk` is what freshly allocated memory holds. */
  method MakeRoom(v: Volume, f: File, size: nat, junk: seq<nat>, ghost cs: seq<nat>) returns (r: int, ghost new_: seq<nat>)
    requires v.Valid() && Holds(v.disk, v.g, f.start, f.off, cs) && size > 0
    requires |cs| == ClustersFor(f.off) && |junk| >= Need(f.off, size, cs)
    requires forall i :: 0 <= i < |junk| ==> junk[i] < Slots(v.g)
    requires var n := Need(f.off, size, cs); |Frees(v.Fat(), 2)| >= n ==> Room(v.Fat(), v.g, |v.disk|, n)
    modifies v`disk, v`fatBuf, v`globalSectorIndex, f`start
    ensures v.Valid() && (r == OK || r == INSUFFICIENTSPACE)
    ensures r == INSUFFICIENTSPACE <==> |Frees(old(v.Fat()), 2)| < Need(f.off, size, cs) && old(f.start) != 0
    ensures r != OK ==> v.disk == old(v.disk) && f.start == old(f.start)
    ensures |Frees(old(v.Fat()), 2)| >= Need(f.off, size, cs) ==>
      && new_ == Frees(old(v.Fat()), 2)[..Need(f.off, size, cs)]
      && f.start != 0 && IsChain(v.Fat(), f.start, cs + new_) && ChainOnDisk(v.disk, v.g, cs + new_)
      && if new_ == [] then v.disk == old(v.disk) else Extended(old(v.disk), v.disk, v.g, cs, new_)
    ensures |Frees(old(v.Fat()), 2)| < Need(f.off, size, cs) && old(f.start) == 0 ==>
      Misallotted(old(v.disk), v.disk, v.g, junk[..Need(f.off, size, cs)], f.start)
  {
    hide Table, IsChain, Frees, Extended, Distinct, Holds, Misallotted, Room, ClusterLimit;
    HoldsChain(v.disk, v.g, f.start, f.off, cs);
    new_ := [];
    assert cs + [] == cs;
    if f.start == 0 {
      EmptyHolds(v.disk, v.g, f.off, cs);
      ghost var n := ClustersFor(size);
      if |Frees(v.Fat(), 2)| >= n {
        StartIsFree(v.Fat(), n);
        new_ := Frees(v.Fat(), 2)[..n];
      }
      var start;
      r, start := AllotClusters(v, size, junk[..ClustersFor(size)]);
      if |new_| > 0 {
        ExtendedChain(old(v.disk), v.disk, v.g, cs, new_);
      } else {
        MisallottedStart(old(v.disk), v.disk, v.g, junk[..ClustersFor(size)], start);
      }
      f.start := start;
    } else {
      var more, n := NeedMoreCluster(f.off, size);
      StartedHolds(v.disk, v.g, f.start, f.off, cs);
      if more {
        r := AddCluster(v, f.start, n, junk[..n], cs);
        if r != OK {
          return r, new_;
        }
        new_ := Frees(old(v.Fat()), 2)[..n];
        ExtendedChain(old(v.disk), v.disk, v.g, cs, new_);
      }
    }
    r := OK;
  }

  lemma MisallottedStart(d: Disk, d': Disk, g: Geometry, before: seq<nat>, start: nat)
    requires Misallotted(d, d', g, before, start)
    ensures start < Slots(g) <= FAT_END
  {
  }

  lemma EmptyHolds(d: Disk, g: Geometry, off: nat, cs: seq<nat>)
    requires Holds(d, g, 0, off, cs)
    ensures off == 0 && cs == []
  {
  }

  lemma StartedHolds(d: Disk, g: Geometry, start: nat, off: nat, cs: seq<nat>)
    requires Holds(d, g, start, off, cs) && start != 0
    ensures off > 0
  {
  }

  lemma StartIsFree(t: seq<u32>, n: nat)
    requires n > 0 && |Frees(t, 2)| >= n
    ensures 2 <= Frees(t, 2)[0] < |t| && Frees(t, 2)[..n][0] == Frees(t, 2)[0]
  {
    FreeIsZero(t, 2, 0);
  }

  predicate Writable(flag: nat) {
    flag == W || flag == RW || flag == RW + C
  }

  /** `WriteFile` appends: where there is room, the file's bytes become its bytes and buf, on a
      chain of exactly as many clusters as they need; where there is none, nothing changes. */
  method WriteFile(v: Volume, f: File, buf: seq<byte>, junk: seq<nat>, ghost cs: seq<nat>)
    returns (r: int, ghost new_: seq<nat>)
    requires v.Valid() && Holds(v.disk, v.g, f.start, f.off, cs) && |buf| > 0 && f.off + |buf| < TWO32
    requires |cs| == ClustersFor(f.off) && |junk| >= Need(f.off, |buf|, cs)
    requires forall i :: 0 <= i < |junk| ==> junk[i] < Slots(v.g)
    requires var n := Need(f.off, |buf|, cs); |Frees(v.Fat(), 2)| >= n ==> Room(v.Fat(), v.g, |v.disk|, n)
    requires f.start == 0 && Writable(f.flag) ==> |Frees(v.Fat(), 2)| >= Need(f.off, |buf|, cs)
    modifies v`disk, v`fatBuf, v`globalSectorIndex, f`start, f`off
    ensures v.Valid()
    ensures r == if f.flag != 2 && f.flag != 3 && f.flag != 6 then 7
                 else if |Frees(old(v.Fat()), 2)| < Need(old(f.off), |buf|, cs) then 4
                 else 1
    ensures r != 1 ==> v.disk == old(v.disk) && f.start == old(f.start) && f.off == old(f.off)
    ensures r == 1 ==>
      && new_ == Frees(old(v.Fat()), 2)[..Need(old(f.off), |buf|, cs)]
      && f.off == old(f.off) + |buf| && f.start != 0 && Holds(v.disk, v.g, f.start, f.off, cs + new_)
      && Appended(old(v.disk), v.disk, v.g, cs, new_, old(f.off), buf)
  {
    hide Table, IsChain, Frees, Appended, Extended, Stored, Distinct, Holds;
    new_ := [];
    if !Writable(f.flag) {
      return ACCESSDENIED, new_;
    }
    HoldsChain(v.disk, v.g, f.start, f.off, cs);
    NewAreFree(v.Fat(), Need(f.off, |buf|, cs));
    r, new_ := MakeRoom(v, f, |buf|, junk, cs);
    if r != OK {
      return;
    }
    ghost var d1 := v.disk;
    FillChain(v, f, buf, cs + new_);
    AppendedHolds(old(v.disk), d1, v.disk, v.g, cs, new_, old(f.off), buf, f.start);
    r := OK;
  }

  lemma NewAreFree(t: seq<u32>, n: nat)
    ensures n <= |Frees(t, 2)| ==>
      forall i :: 0 <= i < n ==> 2 <= Frees(t, 2)[..n][i] < |t| && t[Frees(t, 2)[..n][i]] == 0
  {
    FreesAre(t, 2);
    hide Frees;
  }

  lemma AppendedHolds(d: Disk, d1: Disk, d2: Disk, g: Geometry, cs: seq<nat>, new_: seq<nat>, off: nat, buf: seq<byte>,
                      start: nat)
    requires if new_ == [] then d1 == d else Extended(d, d1, g, cs, new_)
    requires ChainOnDisk(d, g, cs) && off <= CLUSTER * |cs| && Stored(d1, d2, g, cs + new_, off, buf)
    requires Fits(g, |d1|) && IsChain(Table(d1, g), start, cs + new_) && start != 0 && |buf| > 0
    requires |cs + new_| == ClustersFor(off + |buf|) && ChainOnDisk(d1, g, cs + new_)
    requires Fits(g, |d|) && forall i :: 0 <= i < |new_| ==> 2 <= new_[i] < Slots(g) && Table(d, g)[new_[i]] == 0
    ensures Appended(d, d2, g, cs, new_, off, buf) && Holds(d2, g, start, off + |buf|, cs + new_)
  {
    hide Table, IsChain, Extended, Stored, Appended, Distinct;
    StoredKeepsTable(d1, d2, g, cs + new_, off, buf);
    if new_ == [] {
      assert cs + new_ == cs;
      StoreOnly(d, d2, g, cs, off, buf);
    } else {
      ExtendThenStore(d, d1, d2, g, cs, new_, off, buf);
    }
  }
}
