/** The FAT layer of kernel/base.c: sector access with the `FATBuf` cache, and the edits of the
    allocation table. */
module FatVolume {
  import opened Words
  import opened FlatFile
  import opened FatDisk

  const OK: int := 1
  const INSUFFICIENTSPACE: int := 4

  /** The disk as it will be once the buffered sector pre is written; 0 means none. */
  function Pending(d: Disk, buf: Sector, pre: nat): Disk
    requires pre < |d|
  {
    if pre == 0 then d else d[pre := buf]
  }

  /** Nothing but sectors the table code may write has changed. */
  ghost predicate OnlyTables(d: Disk, d': Disk, g: Geometry) {
    |d'| == |d| && forall s :: 0 <= s < |d| && (s < g.reserved || s > g.reserved + g.perFat) ==> d'[s] == d[s]
  }

  ghost predicate ClearedSoFar(t: seq<u32>, t': seq<u32>, cs: seq<nat>, i: nat)
  {
    && |t'| == |t| && i <= |cs| && InTable(t, cs)
    && (forall j :: 0 <= j < i ==> t'[cs[j]] == 0)
    && forall c :: 0 <= c < |t| && c !in cs[..i] ==> t'[c] == t[c]
  }

  lemma ClearOne(t: seq<u32>, t': seq<u32>, cs: seq<nat>, i: nat)
    requires ClearedSoFar(t, t', cs, i) && i < |cs| && Distinct(cs)
    ensures ClearedSoFar(t, t'[cs[i] := 0], cs, i + 1)
  {
    assert cs[..i + 1] == cs[..i] + [cs[i]];
  }

  /** The next cluster's number is still there when its turn comes. */
  lemma LinkStands(t: seq<u32>, t': seq<u32>, start: nat, cs: seq<nat>, i: nat)
    requires IsChain(t, start, cs) && ClearedSoFar(t, t', cs, i) && i < |cs| && |t| <= FAT_END
    ensures 2 <= cs[i] < |t| && t'[cs[i]] == Link(cs, i)
    ensures Link(cs, i) == FAT_END <==> i + 1 == |cs|
  {
    assert cs[i] !in cs[..i];
  }

  lemma AllCleared(t: seq<u32>, t': seq<u32>, cs: seq<nat>)
    requires ClearedSoFar(t, t', cs, |cs|)
    ensures Cleared(t, t', cs)
  {
    assert cs[..|cs|] == cs;
  }

  /** One word of the pending sector edited is one entry of the pending table edited. */
  lemma PendingPut(d0: Disk, d: Disk, g: Geometry, buf: Sector, c: nat, v: u32)
    requires Fits(g, |d|) && c < Slots(g)
    ensures g.reserved + c / WORDS < |d|
    ensures var s := g.reserved + c / WORDS;
            && Table(d[s := PutWord(buf, c % WORDS, v)], g) == Table(d[s := buf], g)[c := v]
            && Table(d[s := buf], g)[c] == Word(buf, c % WORDS)
            && (OnlyTables(d0, d[s := buf], g) ==> OnlyTables(d0, d[s := PutWord(buf, c % WORDS, v)], g))
  {
    var s := g.reserved + c / WORDS;
    TableAt(d, g, c);
    var p := d[s := buf];
    TablePut(p, g, c, v);
    TableAt(p, g, c);
    assert p[s := PutWord(buf, c % WORDS, v)] == d[s := PutWord(buf, c % WORDS, v)];
  }

  class Volume {
    const g: Geometry
    var disk: Disk
    /** The first 512 bytes of `FATBuf`, and the sector it mirrors; all ones for none. */
    var fatBuf: Sector
    var globalSectorIndex: u32

    /** The volume fits its disk, and the cache agrees with the disk. */
    ghost predicate Valid()
      reads this
    {
      && Fits(g, |disk|)
      && (globalSectorIndex != MAX_UNSIGNED_INT ==> globalSectorIndex < |disk| && fatBuf == disk[globalSectorIndex])
    }

    ghost function Fat(): seq<u32>
      requires Fits(g, |disk|)
      reads this
    {
      Table(disk, g)
    }

    /** As `LoadVDisk` leaves it: nothing cached. */
    constructor (g: Geometry, disk: Disk)
      requires Fits(g, |disk|)
      ensures Valid() && this.g == g && this.disk == disk
    {
      this.g := g;
      this.disk := disk;
      fatBuf := Zeros();
      globalSectorIndex := MAX_UNSIGNED_INT;
    }

    method ReadSector(i: nat) returns (buf: Sector)
      requires i < |disk|
      ensures buf == disk[i]
    {
      buf := disk[i];
    }

    method WriteSector(buf: Sector, i: nat)
      requires Valid() && i < |disk|
      modifies this`disk, this`fatBuf
      ensures Valid() && disk == old(disk)[i := buf]
    {
      if i == globalSectorIndex {
        fatBuf := buf;
      }
      disk := disk[i := buf];
    }

    /** The entry now on the disk, whatever has been written since it was last looked at. */
    method GetNextCluster(c: nat) returns (next: u32)
      requires Valid() && c < Slots(g)
      modifies this`fatBuf, this`globalSectorIndex
      ensures Valid() && next == Fat()[c]
    {
      var offset := Offset(c);
      EntryPlace(c);
      TableAt(disk, g, c);
      var sectorIndex := g.reserved + offset / SECTOR;
      if sectorIndex != globalSectorIndex {
        fatBuf := ReadSector(sectorIndex);
        globalSectorIndex := sectorIndex;
      }
      next := Word(fatBuf, offset % SECTOR / 4);
    }

    /** Both table edits keep one sector in a buffer and change it for another like this. */
    method TurnTo(buf: Sector, pre: nat, cur: nat) returns (b: Sector)
      requires Valid() && pre < |disk| && 0 < cur < |disk|
      modifies this`disk, this`fatBuf
      ensures Valid() && |disk| == |old(disk)| && disk[cur := b] == Pending(old(disk), buf, pre)
    {
      b := buf;
      if cur != pre {
        if pre != 0 {
          WriteSector(buf, pre);
        }
        b := ReadSector(cur);
      }
    }

    /** One turn of `WriteFAT`'s loop. */
    method LinkTurn(buf: Sector, pre: nat, cs: seq<nat>, i: nat, ghost d0: Disk, ghost t0: seq<u32>)
      returns (b: Sector, cur: nat)
      requires Valid() && pre < |disk| && i < |cs| && (forall j :: 0 <= j < |cs| ==> cs[j] < |t0|)
      requires |t0| == Slots(g) && OnlyTables(d0, Pending(disk, buf, pre), g)
      requires Table(Pending(disk, buf, pre), g) == LinkedUpTo(t0, cs, i)
      modifies this`disk, this`fatBuf
      ensures Valid() && 0 < cur < |disk| && OnlyTables(d0, Pending(disk, b, cur), g)
      ensures Table(Pending(disk, b, cur), g) == LinkedUpTo(t0, cs, i + 1)
    {
      hide Table, Word, PutWord, OnlyTables, Offset;
      var offset := Offset(cs[i]);
      EntryPlace(cs[i]);
      cur := g.reserved + offset / SECTOR;
      TableAt(disk, g, cs[i]);
      b := TurnTo(buf, pre, cur);
      PendingPut(d0, disk, g, b, cs[i], Link(cs, i));
      if i < |cs| - 1 {
        b := PutWord(b, offset % SECTOR / 4, cs[i + 1]);
      } else {
        b := PutWord(b, offset % SECTOR / 4, FAT_END);
      }
    }

    /** `WriteFAT`. For distinct clusters the result is `Linked`. */
    method WriteFAT(cs: seq<nat>)
      requires Valid() && |cs| > 0 && (forall i :: 0 <= i < |cs| ==> cs[i] < Slots(g))
      modifies this`disk, this`fatBuf
      ensures Valid() && OnlyTables(old(disk), disk, g) && Fat() == LinkedUpTo(old(Fat()), cs, |cs|)
      ensures Distinct(cs) && InTable(old(Fat()), cs) ==> Linked(old(Fat()), Fat(), cs)
      ensures Distinct(cs) && InTable(old(Fat()), cs) ==> Fat()[cs[|cs| - 1]] == 0x0FFF_FFFF
    {
      hide Table, LinkedUpTo, OnlyTables, Linked, Distinct, InTable;
      var buf := Zeros();
      var pre: nat := 0;
      var i := 0;
      StartSoFar(disk, g, cs);
      while i < |cs|
        invariant i <= |cs| && Valid() && pre < |disk| && (i > 0 ==> pre > 0) && (i == 0 ==> pre == 0)
        invariant OnlyTables(old(disk), Pending(disk, buf, pre), g)
        invariant Table(Pending(disk, buf, pre), g) == LinkedUpTo(old(Fat()), cs, i)
      {
        buf, pre := LinkTurn(buf, pre, cs, i, old(disk), old(Fat()));
        i := i + 1;
      }
      WriteSector(buf, pre);
      if Distinct(cs) && InTable(old(Fat()), cs) {
        LinkedWhole(old(Fat()), cs);
        LinkedEntries(old(Fat()), Fat(), cs, |cs| - 1);
      }
    }

    /** One turn of `ClearFATs`'s loop: the link is read before it is cleared. */
    method ClearTurn(buf: Sector, pre: nat, cur: nat, ghost start: nat, ghost cs: seq<nat>, ghost i: nat,
                     ghost d0: Disk, ghost t0: seq<u32>) returns (b: Sector, sector: nat, next: u32)
      requires Valid() && pre < |disk| && IsChain(t0, start, cs) && i < |cs| && cur == cs[i]
      requires |t0| == Slots(g) && OnlyTables(d0, Pending(disk, buf, pre), g)
      requires ClearedSoFar(t0, Table(Pending(disk, buf, pre), g), cs, i)
      modifies this`disk, this`fatBuf
      ensures Valid() && 0 < sector < |disk| && OnlyTables(d0, Pending(disk, b, sector), g)
      ensures ClearedSoFar(t0, Table(Pending(disk, b, sector), g), cs, i + 1)
      ensures next == Link(cs, i) && (next == FAT_END <==> i + 1 == |cs|)
    {
      hide Table, Word, PutWord, ClearedSoFar, OnlyTables, IsChain, Distinct, Link, InTable, Offset;
      ChainInTable(t0, start, cs);
      LinkStands(t0, Table(Pending(disk, buf, pre), g), start, cs, i);
      var offset := Offset(cur);
      EntryPlace(cur);
      sector := g.reserved + offset / SECTOR;
      TableAt(disk, g, cur);
      b := TurnTo(buf, pre, sector);
      PendingPut(d0, disk, g, b, cur, 0);
      ClearOne(t0, Table(disk[sector := b], g), cs, i);
      next := Word(b, offset % SECTOR / 4);
      b := PutWord(b, offset % SECTOR / 4, 0);
    }

    /** `ClearFATs` of a chain. */
    method ClearFATs(start: nat, ghost cs: seq<nat>)
      requires Valid() && (start != 0 ==> IsChain(Fat(), start, cs))
      modifies this`disk, this`fatBuf
      ensures Valid() && OnlyTables(old(disk), disk, g)
      ensures if start == 0 then disk == old(disk) else Cleared(old(Fat()), Fat(), cs)
    {
      hide Table, ClearedSoFar, Cleared, OnlyTables, IsChain, InTable, Distinct;
      StartSoFar(disk, g, cs);
      if start == 0 {
        return;
      }
      var buf, cur := Zeros(), start;
      var pre: nat := 0;
      ghost var i: nat := 0;
      ChainEnds(Fat(), start, cs);
      ChainInTable(Fat(), start, cs);
      while true
        invariant i < |cs| && Valid() && pre < |disk| && (i == 0 ==> pre == 0) && cur == cs[i]
        invariant OnlyTables(old(disk), Pending(disk, buf, pre), g)
        invariant ClearedSoFar(old(Fat()), Table(Pending(disk, buf, pre), g), cs, i)
        decreases |cs| - i
      {
        buf, pre, cur := ClearTurn(buf, pre, cur, start, cs, i, old(disk), old(Fat()));
        i := i + 1;
        if cur == FAT_END {
          break;
        }
      }
      AllCleared(old(Fat()), Table(Pending(disk, buf, pre), g), cs);
      WriteSector(buf, pre);
    }

    /** `ClearClusters` of one cluster. */
    method ClearClusters(c: nat)
      requires Valid() && 2 <= c < ClusterLimit(g, |disk|)
      modifies this`disk, this`fatBuf
      ensures Valid() && Wiped(old(disk), disk, g, [c])
      ensures forall x :: 0 <= x < |disk| && !(0 <= x - (g.reserved + 2 * g.perFat + (c - 2) * 8) < 8) ==>
        disk[x] == old(disk)[x]
      ensures forall x, i :: 0 <= x < |disk| && 0 <= x - (g.reserved + 2 * g.perFat + (c - 2) * 8) < 8 && 0 <= i < 512 ==>
        disk[x][i] == 0
    {
      ClusterOnDisk(g, |disk|, c);
      var first := DataStart(g) + (c - 2) * SECTORS_PER_CLUSTER;
      var s := first;
      while s < first + 8
        invariant first <= s <= first + 8 && Valid() && |disk| == |old(disk)|
        invariant forall x :: 0 <= x < |disk| ==> disk[x] == if first <= x < s then Zeros() else old(disk)[x]
      {
        WriteSector(Zeros(), s);
        s := s + 1;
      }
      forall x | 0 <= x < |disk|
        ensures InClusters(g, [c], x) <==> first <= x < first + 8
      {
        OneCluster(g, c, x);
      }
    }

    /** The loop at the end of `FindClusterForFile`. */
    method ClearAll(cs: seq<nat>)
      requires Valid() && forall i :: 0 <= i < |cs| ==> 2 <= cs[i] < ClusterLimit(g, |disk|)
      modifies this`disk, this`fatBuf
      ensures Valid() && Wiped(old(disk), disk, g, cs)
    {
      hide InClusters, ClusterLimit;
      var j := 0;
      WipedNone(disk, g);
      while j < |cs|
        invariant j <= |cs| && Valid() && Wiped(old(disk), disk, g, cs[..j])
      {
        ghost var d := disk;
        ClearClusters(cs[j]);
        WipedMore(old(disk), d, disk, g, cs[..j], cs[j]);
        assert cs[..j + 1] == cs[..j] + [cs[j]];
        j := j + 1;
      }
      assert cs[..|cs|] == cs;
    }

    /** The search in `FindClusterForFile`: the array gets the first n free clusters; if there
        are fewer, it gets those and keeps what was in it behind them. */
    method SearchFree(n: nat, before: seq<nat>) returns (r: int, clusters: seq<nat>)
      requires Valid() && n > 0 && |before| == n
      ensures |clusters| == n
      ensures if |Frees(Fat(), 2)| >= n then r == OK && clusters == Frees(Fat(), 2)[..n]
              else r == INSUFFICIENTSPACE && clusters == Filled(Fat(), before)
    {
      hide Table, Word, Frees, Filled;
      ghost var t := Fat();
      var clusterIndex, cur, i, index := 1, g.reserved, 8, 0;
      clusters := before;
      while true
        invariant g.reserved <= cur <= g.reserved + g.perFat && 0 <= i <= 8 && i % 4 == 0
        invariant 0 <= index < n && |clusters| == n && clusters[index..] == before[index..]
        invariant clusterIndex + 1 == (cur - g.reserved) * WORDS + i / 4 && clusterIndex >= 1
        invariant clusters[..index] + Frees(t, clusterIndex + 1) == Frees(t, 2)
        decreases g.reserved + g.perFat - cur
      {
        var buf := ReadSector(cur);
        while i < SECTOR
          invariant 0 <= i <= SECTOR && i % 4 == 0
          invariant 0 <= index < n && |clusters| == n && clusters[index..] == before[index..]
          invariant clusterIndex + 1 == (cur - g.reserved) * WORDS + i / 4 && clusterIndex >= 1
          invariant clusters[..index] + Frees(t, clusterIndex + 1) == Frees(t, 2)
        {
          ScanPlace(disk, g, cur, i, clusterIndex + 1);
          FreesStep(t, clusterIndex + 1, clusters[..index]);
          clusterIndex := clusterIndex + 1;
          if Word(buf, i / 4) == 0 {
            PutAt(clusters, before, index, clusterIndex);
            clusters := clusters[index := clusterIndex];
            index := index + 1;
            if index >= n {
              FoundFree(t, clusters, clusterIndex + 1, n);
              return OK, clusters;
            }
          }
          i := i + 4;
        }
        if cur * SECTOR >= (g.reserved + g.perFat) * SECTOR {
          FreesEnd(t, clusterIndex + 1);
          FilledIs(t, before, clusters, index);
          return INSUFFICIENTSPACE, clusters;
        }
        cur := cur + 1;
        i := 0;
      }
    }

    /** `FindClusterForFile`: what the search finds is wiped. When it finds clusters without
        regard to the device, as it does without room, the wiping leaves the device. */
    method FindClusterForFile(n: nat, before: seq<nat>) returns (r: int, clusters: seq<nat>)
      requires Valid() && n > 0 && |before| == n && (|Frees(Fat(), 2)| >= n ==> Room(Fat(), g, |disk|, n))
      modifies this`disk, this`fatBuf
      ensures Valid() && |disk| == |old(disk)| && Fat() == old(Fat()) && |clusters| == n
      ensures if |Frees(old(Fat()), 2)| >= n
              then r == OK && clusters == Frees(old(Fat()), 2)[..n] && Wiped(old(disk), disk, g, clusters)
              else r == INSUFFICIENTSPACE && clusters == Filled(old(Fat()), before) && disk == old(disk)
    {
      hide Table, Frees, Wiped, Room, ClusterLimit;
      r, clusters := SearchFree(n, before);
      if r == OK {
        RoomFrees(Fat(), g, |disk|, n);
        FreesAtLeastTwo(Fat(), n);
        ClearAll(clusters);
        WipedKeepsTable(old(disk), disk, g, clusters);
      }
    }
  }

  /** The array behind a search that found too few. */
  function Filled(t: seq<u32>, before: seq<nat>): (r: seq<nat>)
    requires |Frees(t, 2)| <= |before|
    ensures |r| == |before|
  {
    Frees(t, 2) + before[|Frees(t, 2)|..]
  }

  lemma FilledIs(t: seq<u32>, before: seq<nat>, clusters: seq<nat>, index: nat)
    requires index <= |clusters| == |before| && clusters[index..] == before[index..]
    requires clusters[..index] == Frees(t, 2)
    ensures clusters == Filled(t, before)
  {
    assert clusters == clusters[..index] + clusters[index..];
  }

  lemma PutAt(clusters: seq<nat>, before: seq<nat>, index: nat, c: nat)
    requires index < |clusters| == |before| && clusters[index..] == before[index..]
    ensures clusters[index := c][..index + 1] == clusters[..index] + [c]
    ensures clusters[index := c][index + 1..] == before[index + 1..]
  {
    assert clusters[index..][1..] == before[index..][1..];
  }

  lemma FreesAtLeastTwo(t: seq<u32>, n: nat)
    requires n <= |Frees(t, 2)|
    ensures forall i :: 0 <= i < n ==> 2 <= Frees(t, 2)[i]
  {
    FreesAre(t, 2);
    hide Frees;
  }

  /** Sector x belongs to one of the clusters. */
  ghost predicate InClusters(g: Geometry, cs: seq<nat>, x: nat) {
    exists i :: 0 <= i < |cs| && cs[i] >= 2 && DataSector(g, cs[i], 0) <= x < DataSector(g, cs[i], 0) + SECTORS_PER_CLUSTER
  }

  /** The clusters' sectors are zero and every other sector is as it was. */
  ghost predicate Wiped(d: Disk, d': Disk, g: Geometry, cs: seq<nat>) {
    |d'| == |d| && forall x :: 0 <= x < |d| ==> d'[x] == if InClusters(g, cs, x) then Zeros() else d[x]
  }

  lemma OneCluster(g: Geometry, c: nat, x: nat)
    requires c >= 2
    ensures InClusters(g, [c], x) <==> DataSector(g, c, 0) <= x < DataSector(g, c, 0) + SECTORS_PER_CLUSTER
  {
    assert [c][0] == c;
  }

  lemma WipedNone(d: Disk, g: Geometry)
    ensures Wiped(d, d, g, [])
  {
  }

  lemma InMore(g: Geometry, cs: seq<nat>, c: nat, x: nat)
    ensures InClusters(g, cs + [c], x) <==> InClusters(g, cs, x) || InClusters(g, [c], x)
  {
    if InClusters(g, cs, x) {
      var i :| 0 <= i < |cs| && cs[i] >= 2 && DataSector(g, cs[i], 0) <= x < DataSector(g, cs[i], 0) + SECTORS_PER_CLUSTER;
      assert (cs + [c])[i] == cs[i];
    }
    if InClusters(g, [c], x) {
      assert (cs + [c])[|cs|] == c;
    }
  }

  lemma WipedMore(d0: Disk, d: Disk, d': Disk, g: Geometry, cs: seq<nat>, c: nat)
    requires Wiped(d0, d, g, cs) && Wiped(d, d', g, [c])
    ensures Wiped(d0, d', g, cs + [c])
  {
    hide InClusters;
    forall x | 0 <= x < |d0|
      ensures d'[x] == if InClusters(g, cs + [c], x) then Zeros() else d0[x]
    {
      InMore(g, cs, c, x);
    }
  }

  lemma WipedKeepsTable(d: Disk, d': Disk, g: Geometry, cs: seq<nat>)
    requires Wiped(d, d', g, cs) && Fits(g, |d|)
    ensures |d'| == |d| && Table(d', g) == Table(d, g)
  {
    hide Table;
    forall s | 0 <= s < DataStart(g)
      ensures d'[s] == d[s]
    {
      assert !InClusters(g, cs, s);
    }
    TableSame(d, d', g);
  }

  /** The scan's sector and offset are those of the next entry. */
  lemma ScanPlace(d: Disk, g: Geometry, cur: nat, i: nat, c: nat)
    requires Fits(g, |d|) && g.reserved <= cur <= g.reserved + g.perFat && i < SECTOR && i % 4 == 0
    requires c == (cur - g.reserved) * WORDS + i / 4
    ensures c < Slots(g) && cur < |d| && Table(d, g)[c] == Word(d[cur], i / 4)
  {
    assert c / WORDS == cur - g.reserved && c % WORDS == i / 4;
    TableAt(d, g, c);
  }

  lemma FreesStep(t: seq<u32>, c: nat, found: seq<nat>)
    requires c < |t|
    ensures found + Frees(t, c) == (if t[c] == 0 then found + [c] else found) + Frees(t, c + 1)
  {
    assert (found + [c]) + Frees(t, c + 1) == found + ([c] + Frees(t, c + 1));
    assert [] + Frees(t, c + 1) == Frees(t, c + 1);
  }

  lemma FreesEnd(t: seq<u32>, c: nat)
    requires c >= |t|
    ensures Frees(t, c) == []
  {
  }

  lemma FoundFree(t: seq<u32>, found: seq<nat>, c: nat, n: nat)
    requires found + Frees(t, c) == Frees(t, 2) && |found| == n
    ensures found == Frees(t, 2)[..n]
    ensures forall i :: 0 <= i < |found| ==> 2 <= found[i] < |t|
  {
    forall i | 0 <= i < n
      ensures found[i] == Frees(t, 2)[i] && 2 <= found[i] < |t|
    {
      assert found[i] == (found + Frees(t, c))[i];
      FreeIsZero(t, 2, i);
    }
  }

  lemma StartSoFar(d: Disk, g: Geometry, cs: seq<nat>)
    requires Fits(g, |d|)
    ensures OnlyTables(d, d, g)
    ensures (forall i :: 0 <= i < |cs| ==> cs[i] < Slots(g)) ==> LinkedUpTo(Table(d, g), cs, 0) == Table(d, g)
    ensures InTable(Table(d, g), cs) ==> ClearedSoFar(Table(d, g), Table(d, g), cs, 0)
  {
    hide Table;
  }

  lemma ChainInTable(t: seq<u32>, start: nat, cs: seq<nat>)
    requires IsChain(t, start, cs)
    ensures InTable(t, cs) && Distinct(cs) && cs[0] == start
  {
  }
}
