/** A FAT32 volume as a value: sectors of bytes, the allocation table in them, chains of
    clusters. FAT layout: section "FAT Data Structure" of the Microsoft FAT32 File System
    Specification 1.03. */
module FatDisk {
  import opened Common
  import opened Words
  import opened FlatFile

  const SECTOR: nat := 512
  const WORDS: nat := 128
  const SECTORS_PER_CLUSTER: nat := 8
  const CLUSTER: nat := 4096
  /** The only end mark the code knows. */
  const FAT_END: u32 := 268435455

  type Sector = s: seq<byte> | |s| == 512 witness seq<byte>(512, _ => 0)

  type Disk = seq<Sector>

  /** Reserved sectors and sectors of one table; there are two tables. */
  datatype Geometry = Geometry(reserved: nat, perFat: nat)

  /** Table entries the code may look at: it scans one sector beyond the first table. */
  function Slots(g: Geometry): nat { WORDS * (g.perFat + 1) }

  function DataStart(g: Geometry): nat { g.reserved + 2 * g.perFat }

  /** Both tables lie on the device, and table offsets and sector numbers are 32-bit. */
  predicate Fits(g: Geometry, sectors: nat) {
    && g.reserved > 0 && g.perFat > 0 && Slots(g) <= FAT_END && (g.reserved + g.perFat) * SECTOR < TWO32
    && DataStart(g) <= sectors < TWO32
  }

  /** Clusters from 2 up to here lie on the device with all their sectors. */
  function ClusterLimit(g: Geometry, sectors: nat): nat
    requires DataStart(g) <= sectors
  {
    2 + (sectors - DataStart(g)) / SECTORS_PER_CLUSTER
  }

  /** Clusters from 2 up to here lie on the device and have their entry in the first table. */
  function Usable(g: Geometry, sectors: nat): (b: nat)
    requires Fits(g, sectors)
    ensures 2 <= b <= Slots(g)
  {
    Min(ClusterLimit(g, sectors), WORDS * g.perFat)
  }

  function Zeros(): Sector { seq<byte>(512, _ => 0) }

  // ---------------------------------------------------------------- words in a sector

  /** Four bytes, the lowest first. */
  function Word(s: Sector, k: nat): u32
    requires k < WORDS
  {
    var a: int, b: int, c: int, e: int := s[4 * k], s[4 * k + 1], s[4 * k + 2], s[4 * k + 3];
    a + 0x100 * b + 0x1_0000 * c + 0x100_0000 * e
  }

  function PutWord(s: Sector, k: nat, v: u32): Sector
    requires k < WORDS
  {
    s[4 * k := v % 0x100][4 * k + 1 := v / 0x100 % 0x100][4 * k + 2 := v / 0x1_0000 % 0x100][4 * k + 3 := v / 0x100_0000]
  }

  lemma WordPut(s: Sector, k: nat, v: u32, j: nat)
    requires k < WORDS && j < WORDS
    ensures Word(PutWord(s, k, v), j) == if j == k then v else Word(s, j)
  {
    hide PutWord;
    if j != k {
      BytesKept(s, k, v, j);
    } else {
      BytesPut(s, k, v);
      BytesOf(v);
    }
  }

  lemma BytesPut(s: Sector, k: nat, v: u32)
    requires k < WORDS
    ensures var p := PutWord(s, k, v);
            && p[4 * k] == v % 0x100 && p[4 * k + 1] == v / 0x100 % 0x100
            && p[4 * k + 2] == v / 0x1_0000 % 0x100 && p[4 * k + 3] == v / 0x100_0000
  {
  }

  lemma BytesOf(v: u32)
    ensures v % 0x100 + 0x100 * (v / 0x100 % 0x100) + 0x1_0000 * (v / 0x1_0000 % 0x100) + 0x100_0000 * (v / 0x100_0000) == v
  {
  }

  lemma BytesKept(s: Sector, k: nat, v: u32, j: nat)
    requires k < WORDS && j < WORDS && j != k
    ensures var p := PutWord(s, k, v);
            && p[4 * j] == s[4 * j] && p[4 * j + 1] == s[4 * j + 1]
            && p[4 * j + 2] == s[4 * j + 2] && p[4 * j + 3] == s[4 * j + 3]
  {
    assert 4 * j + 3 < 4 * k || 4 * k + 3 < 4 * j;
  }

  // ---------------------------------------------------------------- the table

  function Entry(d: Disk, g: Geometry, c: nat): u32
    requires Fits(g, |d|) && c < Slots(g)
  {
    Word(d[g.reserved + c / WORDS], c % WORDS)
  }

  function Table(d: Disk, g: Geometry): (t: seq<u32>)
    requires Fits(g, |d|)
    ensures |t| == Slots(g)
  {
    seq<u32>(Slots(g), c requires 0 <= c < Slots(g) => Entry(d, g, c))
  }

  /** The byte offset of an entry as the code computes it, in 32 bits. */
  function Offset(c: u32): u32 {
    Add32(8, Sub32(c, 2) * 4 % TWO32)
  }

  /** The byte arithmetic of the code finds the entry's sector and word, for entries 0 and 1 too. */
  lemma EntryPlace(c: u32)
    requires c < 0x4000_0000
    ensures Offset(c) / SECTOR == c / WORDS && Offset(c) % SECTOR == 4 * (c % WORDS)
  {
    OffsetIs(c);
    hide Offset;
    var a, b := c / WORDS, c % WORDS;
    assert 4 * c == SECTOR * a + 4 * b;
  }

  lemma OffsetIs(c: u32)
    requires c < 0x4000_0000
    ensures Offset(c) == 4 * c
  {
  }

  lemma TableAt(d: Disk, g: Geometry, c: nat)
    requires Fits(g, |d|) && c < Slots(g)
    ensures g.reserved + c / WORDS < DataStart(g) <= |d|
    ensures Table(d, g)[c] == Word(d[g.reserved + c / WORDS], c % WORDS)
  {
  }

  /** Where entry c is, and how: four bytes of the first table, the lowest first. */
  lemma EntryBytes(d: Disk, g: Geometry, c: nat)
    requires Fits(g, |d|) && c < Slots(g)
    ensures g.reserved + c / 128 < |d|
    ensures var s, k := d[g.reserved + c / 128], 4 * (c % 128);
            var b0: int, b1: int, b2: int, b3: int := s[k], s[k + 1], s[k + 2], s[k + 3];
            Table(d, g)[c] == b0 + 0x100 * b1 + 0x1_0000 * b2 + 0x100_0000 * b3
  {
    TableAt(d, g, c);
  }

  lemma TablePut(d: Disk, g: Geometry, c: nat, v: u32)
    requires Fits(g, |d|) && c < Slots(g)
    ensures var s := g.reserved + c / WORDS;
            Table(d[s := PutWord(d[s], c % WORDS, v)], g) == Table(d, g)[c := v]
  {
    var s := g.reserved + c / WORDS;
    var d' := d[s := PutWord(d[s], c % WORDS, v)];
    forall e | 0 <= e < Slots(g)
      ensures Table(d', g)[e] == Table(d, g)[c := v][e]
    {
      if e / WORDS == c / WORDS {
        assert e == c <==> e % WORDS == c % WORDS;
        WordPut(d[s], c % WORDS, v, e % WORDS);
      }
    }
  }

  /** Sectors beyond both tables do not matter to the table. */
  lemma TableSame(d: Disk, d': Disk, g: Geometry)
    requires Fits(g, |d|) && |d'| == |d|
    requires forall s :: 0 <= s < DataStart(g) ==> d'[s] == d[s]
    ensures Table(d', g) == Table(d, g)
  {
    forall c | 0 <= c < Slots(g)
      ensures Table(d', g)[c] == Table(d, g)[c]
    {
      assert g.reserved + c / WORDS < DataStart(g);
    }
  }

  // ---------------------------------------------------------------- chains

  predicate Distinct(cs: seq<nat>) {
    forall i, j :: 0 <= i < j < |cs| ==> cs[i] != cs[j]
  }

  predicate InTable(t: seq<u32>, cs: seq<nat>) {
    forall i :: 0 <= i < |cs| ==> 2 <= cs[i] < |t|
  }

  /** What the entry of the i-th cluster of a chain says. */
  function Link(cs: seq<nat>, i: nat): nat
    requires i < |cs|
  {
    if i + 1 < |cs| then cs[i + 1] else FAT_END
  }

  predicate IsChain(t: seq<u32>, start: nat, cs: seq<nat>) {
    && |cs| > 0 && cs[0] == start && Distinct(cs) && InTable(t, cs)
    && forall i :: 0 <= i < |cs| ==> t[cs[i]] == Link(cs, i)
  }

  /** The table after `WriteFAT`: the clusters linked in order, every other entry as it was. */
  predicate Linked(t: seq<u32>, t': seq<u32>, cs: seq<nat>)
  {
    && |t'| == |t| && InTable(t, cs)
    && (forall i :: 0 <= i < |cs| ==> t'[cs[i]] == Link(cs, i))
    && forall c :: 0 <= c < |t| && c !in cs ==> t'[c] == t[c]
  }

  /** The table after `ClearFATs`: exactly the chain's entries zero. */
  predicate Cleared(t: seq<u32>, t': seq<u32>, cs: seq<nat>)
  {
    && |t'| == |t| && InTable(t, cs)
    && (forall i :: 0 <= i < |cs| ==> t'[cs[i]] == 0)
    && forall c :: 0 <= c < |t| && c !in cs ==> t'[c] == t[c]
  }

  /** The table after the first i turns of `WriteFAT`, whatever the clusters are: a later turn
      may undo an earlier one. */
  function LinkedUpTo(t: seq<u32>, cs: seq<nat>, i: nat): (r: seq<u32>)
    requires i <= |cs| && |t| <= FAT_END && forall j :: 0 <= j < |cs| ==> cs[j] < |t|
    ensures |r| == |t|
    decreases i
  {
    if i == 0 then t
    else
      var link: u32 := Link(cs, i - 1);
      LinkedUpTo(t, cs, i - 1)[cs[i - 1] := link]
  }

  /** For distinct clusters no turn undoes another. */
  lemma {:induction false} DistinctLinks(t: seq<u32>, cs: seq<nat>, i: nat)
    requires InTable(t, cs) && |t| <= FAT_END && Distinct(cs) && i <= |cs|
    ensures forall j :: 0 <= j < i ==> LinkedUpTo(t, cs, i)[cs[j]] == Link(cs, j)
    ensures forall c :: 0 <= c < |t| && c !in cs[..i] ==> LinkedUpTo(t, cs, i)[c] == t[c]
  {
    if i > 0 {
      DistinctLinks(t, cs, i - 1);
      assert cs[..i] == cs[..i - 1] + [cs[i - 1]];
    }
  }

  lemma LinkedWhole(t: seq<u32>, cs: seq<nat>)
    requires InTable(t, cs) && |t| <= FAT_END && Distinct(cs)
    ensures Linked(t, LinkedUpTo(t, cs, |cs|), cs)
  {
    DistinctLinks(t, cs, |cs|);
    assert cs[..|cs|] == cs;
    hide LinkedUpTo;
  }

  /** In numbers: each entry names the next cluster, the last holds the end mark. */
  lemma LinkedEntries(t: seq<u32>, t': seq<u32>, cs: seq<nat>, i: nat)
    requires Linked(t, t', cs) && i < |cs|
    ensures cs[i] < |t'| && t'[cs[i]] == if i + 1 < |cs| then cs[i + 1] else 0x0FFF_FFFF
  {
  }

  /** Distinct clusters linked in order are a chain. */
  lemma LinkedIsChain(t: seq<u32>, t': seq<u32>, cs: seq<nat>)
    requires Linked(t, t', cs) && Distinct(cs) && |cs| > 0
    ensures IsChain(t', cs[0], cs)
  {
  }

  lemma AppendDistinct(cs: seq<nat>, more: seq<nat>)
    requires Distinct(cs) && Distinct(more) && forall i :: 0 <= i < |more| ==> more[i] !in cs
    ensures Distinct(cs + more)
  {
    var all := cs + more;
    forall i, j | 0 <= i < j < |all|
      ensures all[i] != all[j]
    {
      if i < |cs| <= j {
        assert all[j] == more[j - |cs|];
      }
    }
  }

  /** A chain linked on from its last cluster to other clusters is the longer chain. */
  lemma AppendIsChain(t: seq<u32>, t': seq<u32>, cs: seq<nat>, more: seq<nat>)
    requires |cs| > 0 && IsChain(t, cs[0], cs) && Distinct(more) && (forall i :: 0 <= i < |more| ==> more[i] !in cs)
    requires Linked(t, t', [cs[|cs| - 1]] + more)
    ensures IsChain(t', cs[0], cs + more)
  {
    forall i | 0 <= i < |cs + more|
      ensures 2 <= (cs + more)[i] < |t'| && t'[(cs + more)[i]] == Link(cs + more, i)
    {
      if i < |cs| - 1 {
        AppendFront(t, t', cs, more, i);
      } else {
        AppendBack(t, t', cs, more, i);
      }
    }
    AppendDistinct(cs, more);
    hide Distinct, Link, Linked;
  }

  lemma AppendFront(t: seq<u32>, t': seq<u32>, cs: seq<nat>, more: seq<nat>, i: nat)
    requires |cs| > 0 && IsChain(t, cs[0], cs) && i < |cs| - 1 && forall k :: 0 <= k < |more| ==> more[k] !in cs
    requires Linked(t, t', [cs[|cs| - 1]] + more)
    ensures 2 <= (cs + more)[i] < |t'| && t'[(cs + more)[i]] == Link(cs + more, i)
  {
    ChainApart(t, cs, more, i);
    hide Distinct;
  }

  lemma AppendBack(t: seq<u32>, t': seq<u32>, cs: seq<nat>, more: seq<nat>, i: nat)
    requires |cs| > 0 && Linked(t, t', [cs[|cs| - 1]] + more) && |cs| - 1 <= i < |cs| + |more|
    ensures 2 <= (cs + more)[i] < |t'| && t'[(cs + more)[i]] == Link(cs + more, i)
  {
    hide Linked;
    var tail, k := [cs[|cs| - 1]] + more, i - (|cs| - 1);
    LinkedAt(t, t', tail, k);
    assert (cs + more)[i] == tail[k];
    assert k + 1 < |tail| ==> (cs + more)[i + 1] == tail[k + 1];
  }

  lemma LinkedAt(t: seq<u32>, t': seq<u32>, cs: seq<nat>, i: nat)
    requires Linked(t, t', cs) && i < |cs|
    ensures 2 <= cs[i] < |t'| && t'[cs[i]] == Link(cs, i)
  {
  }

  lemma ChainApart(t: seq<u32>, cs: seq<nat>, more: seq<nat>, i: nat)
    requires |cs| > 0 && IsChain(t, cs[0], cs) && i < |cs| - 1 && forall k :: 0 <= k < |more| ==> more[k] !in cs
    ensures cs[i] !in [cs[|cs| - 1]] + more
  {
    assert cs[i] != cs[|cs| - 1];
    assert cs[i] in cs;
  }

  lemma ChainLink(t: seq<u32>, start: nat, cs: seq<nat>, i: nat)
    requires IsChain(t, start, cs) && i < |cs|
    ensures cs[i] < |t| && t[cs[i]] == Link(cs, i)
    ensures i == 0 ==> cs[i] == start
  {
  }

  lemma {:induction false} ChainsAgree(t: seq<u32>, start: nat, a: seq<nat>, b: seq<nat>, i: nat)
    requires IsChain(t, start, a) && IsChain(t, start, b) && i < |a| && i < |b|
    ensures a[i] == b[i]
  {
    hide IsChain;
    ChainLink(t, start, a, if i > 0 then i - 1 else 0);
    ChainLink(t, start, b, if i > 0 then i - 1 else 0);
    if i > 0 {
      ChainsAgree(t, start, a, b, i - 1);
    }
  }

  lemma SameLink(t: seq<u32>, start: nat, a: seq<nat>, b: seq<nat>, i: nat)
    requires IsChain(t, start, a) && IsChain(t, start, b) && i < |a| && i < |b|
    ensures Link(a, i) == Link(b, i)
    ensures i + 1 < |b| ==> b[i + 1] < |t|
  {
    hide IsChain;
    ChainsAgree(t, start, a, b, i);
    ChainLink(t, start, a, i);
    ChainLink(t, start, b, i);
    if i + 1 < |b| {
      ChainLink(t, start, b, i + 1);
    }
  }

  lemma ChainNoLonger(t: seq<u32>, start: nat, a: seq<nat>, b: seq<nat>)
    requires |t| <= FAT_END && IsChain(t, start, a) && IsChain(t, start, b)
    ensures |b| <= |a|
  {
    ChainEnds(t, start, a);
    hide IsChain;
    if |a| <= |b| {
      SameLink(t, start, a, b, |a| - 1);
    }
  }

  lemma ChainEnds(t: seq<u32>, start: nat, cs: seq<nat>)
    requires IsChain(t, start, cs)
    ensures |cs| > 0
  {
  }

  /** A chain is determined by its start. */
  lemma ChainUnique(t: seq<u32>, start: nat, a: seq<nat>, b: seq<nat>)
    requires |t| <= FAT_END && IsChain(t, start, a) && IsChain(t, start, b)
    ensures a == b
  {
    hide IsChain;
    ChainNoLonger(t, start, a, b);
    ChainNoLonger(t, start, b, a);
    forall i | 0 <= i < |a|
      ensures a[i] == b[i]
    {
      ChainsAgree(t, start, a, b, i);
    }
  }

  /** Another file's chain, sharing no cluster with those edited, stays a chain. */
  lemma OtherChainKept(t: seq<u32>, t': seq<u32>, cs: seq<nat>, other: seq<nat>)
    requires |other| > 0 && IsChain(t, other[0], other) && |t'| == |t|
    requires forall c :: 0 <= c < |t| && c !in cs ==> t'[c] == t[c]
    requires forall i :: 0 <= i < |other| ==> other[i] !in cs
    ensures IsChain(t', other[0], other)
  {
  }

  // ---------------------------------------------------------------- free clusters

  /** The free clusters from `from` on, in order. */
  function Frees(t: seq<u32>, from: nat): seq<nat>
    decreases |t| - from
  {
    if from >= |t| then [] else (if t[from] == 0 then [from] else []) + Frees(t, from + 1)
  }

  lemma {:induction false} FreeIsZero(t: seq<u32>, from: nat, i: nat)
    requires i < |Frees(t, from)|
    ensures from <= Frees(t, from)[i] < |t| && t[Frees(t, from)[i]] == 0
    decreases |t| - from
  {
    if t[from] == 0 {
      if i > 0 {
        FreeIsZero(t, from + 1, i - 1);
      }
    } else {
      FreeIsZero(t, from + 1, i);
    }
  }

  lemma {:induction false} FreesSorted(t: seq<u32>, from: nat, i: nat, j: nat)
    requires i < j < |Frees(t, from)|
    ensures Frees(t, from)[i] < Frees(t, from)[j]
    decreases |t| - from
  {
    if t[from] == 0 {
      if i > 0 {
        FreesSorted(t, from + 1, i - 1, j - 1);
      } else {
        FreeIsZero(t, from + 1, j - 1);
      }
    } else {
      FreesSorted(t, from + 1, i, j);
    }
  }

  lemma {:induction false} FreesHasAll(t: seq<u32>, from: nat, c: nat)
    requires from <= c < |t| && t[c] == 0
    ensures c in Frees(t, from)
    decreases |t| - from
  {
    if from < c {
      FreesHasAll(t, from + 1, c);
    }
  }

  /** `Frees` lists exactly the zero entries, each once and in order. */
  lemma FreesAre(t: seq<u32>, from: nat)
    ensures var f := Frees(t, from);
            && (forall i :: 0 <= i < |f| ==> from <= f[i] < |t| && t[f[i]] == 0)
            && (forall i, j :: 0 <= i < j < |f| ==> f[i] < f[j])
            && forall c :: from <= c < |t| && t[c] == 0 ==> c in f
  {
    hide Frees;
    forall i | 0 <= i < |Frees(t, from)|
      ensures from <= Frees(t, from)[i] < |t| && t[Frees(t, from)[i]] == 0
    {
      FreeIsZero(t, from, i);
    }
    forall i, j | 0 <= i < j < |Frees(t, from)|
      ensures Frees(t, from)[i] < Frees(t, from)[j]
    {
      FreesSorted(t, from, i, j);
    }
    forall c | from <= c < |t| && t[c] == 0
      ensures c in Frees(t, from)
    {
      FreesHasAll(t, from, c);
    }
  }

  /** Clusters are taken from beyond the first table only if it has too few free ones. */
  lemma {:induction false} FreesSplit(t: seq<u32>, from: nat, n: nat)
    requires from <= n <= |t|
    ensures Frees(t, from) == Frees(t[..n], from) + Frees(t, n)
    decreases n - from
  {
    if from < n {
      FreesSplit(t, from + 1, n);
    }
  }

  /** The first n free clusters are all below a bound if and only if n of those below it are free. */
  lemma FreesBelow(t: seq<u32>, bound: nat, n: nat)
    requires 2 <= bound <= |t| && n <= |Frees(t, 2)|
    ensures (forall i :: 0 <= i < n ==> Frees(t, 2)[i] < bound) <==> n <= |Frees(t[..bound], 2)|
  {
    FreesSplit(t, 2, bound);
    FreesAre(t[..bound], 2);
    FreesAre(t, bound);
    hide Frees;
    var a, b := Frees(t[..bound], 2), Frees(t, bound);
    if n > |a| {
      assert Frees(t, 2)[|a|] == b[0];
    }
  }

  /** There are n free clusters that lie on the device and have their entry in the first table. */
  predicate Room(t: seq<u32>, g: Geometry, sectors: nat, n: nat)
    requires Fits(g, sectors) && |t| == Slots(g)
  {
    n <= |Frees(t[..Usable(g, sectors)], 2)|
  }

  /** The search looks at entries without regard to the device. What it finds is on the device
      and in the first table exactly when there is room. */
  lemma SearchStaysIff(t: seq<u32>, g: Geometry, sectors: nat, n: nat)
    requires Fits(g, sectors) && |t| == Slots(g) && n <= |Frees(t, 2)|
    ensures (forall i :: 0 <= i < n ==> Frees(t, 2)[i] < ClusterLimit(g, sectors) && Frees(t, 2)[i] < WORDS * g.perFat)
            <==> Room(t, g, sectors, n)
  {
    FreesBelow(t, Usable(g, sectors), n);
    hide Frees;
  }

  lemma RoomFrees(t: seq<u32>, g: Geometry, sectors: nat, n: nat)
    requires Fits(g, sectors) && |t| == Slots(g) && Room(t, g, sectors, n)
    ensures n <= |Frees(t, 2)|
    ensures forall i :: 0 <= i < n ==> Frees(t, 2)[i] < ClusterLimit(g, sectors)
  {
    FreesSplit(t, 2, Usable(g, sectors));
    SearchStaysIff(t, g, sectors, n);
    hide Frees;
  }

  /** Too few free entries leave no n free clusters to give a file. */
  lemma {:induction false} TooFewFrees(t: seq<u32>, cs: seq<nat>)
    requires Distinct(cs) && InTable(t, cs) && forall i :: 0 <= i < |cs| ==> t[cs[i]] == 0
    ensures |cs| <= |Frees(t, 2)|
  {
    var all := set i | 0 <= i < |Frees(t, 2)| :: Frees(t, 2)[i];
    var some := set i | 0 <= i < |cs| :: cs[i];
    forall c | c in some
      ensures c in all
    {
      FreesHasAll(t, 2, c);
    }
    hide Frees;
    ElementsAtMost(Frees(t, 2));
    DistinctElements(cs);
    SubsetSmaller(some, all);
  }

  lemma {:induction false} ElementsAtMost(s: seq<nat>)
    ensures |set i | 0 <= i < |s| :: s[i]| <= |s|
  {
    if s != [] {
      var r := s[..|s| - 1];
      ElementsAtMost(r);
      assert (set i | 0 <= i < |s| :: s[i]) == (set i | 0 <= i < |r| :: r[i]) + {s[|s| - 1]};
    }
  }

  lemma {:induction false} DistinctElements(s: seq<nat>)
    requires Distinct(s)
    ensures |set i | 0 <= i < |s| :: s[i]| == |s|
  {
    if s != [] {
      var r := s[..|s| - 1];
      DistinctElements(r);
      assert (set i | 0 <= i < |s| :: s[i]) == (set i | 0 <= i < |r| :: r[i]) + {s[|s| - 1]};
      assert s[|s| - 1] !in set i | 0 <= i < |r| :: r[i];
    }
  }

  // ---------------------------------------------------------------- a volume as it is formatted

  /** The geometry `mkfs_fat` gives a device of that many sectors. */
  function Formatted(sectors: u32): Geometry {
    Geometry(32, Sub32(sectors * SECTOR % TWO32, 8192) / 525312 + 1)
  }

  /** Such a volume is one the table code works on; and its first table always has an entry,
      at least, for a cluster that is not on the device. */
  lemma FormattedFits(sectors: u32)
    requires 34 <= sectors < 0x80_0000
    ensures Fits(Formatted(sectors), sectors)
    ensures Usable(Formatted(sectors), sectors) == ClusterLimit(Formatted(sectors), sectors) < WORDS * Formatted(sectors).perFat
  {
    var p := Formatted(sectors).perFat;
    assert sectors * SECTOR % TWO32 == sectors * SECTOR;
    assert p == (sectors * SECTOR - 8192) / 525312 + 1;
    assert 525312 * p > sectors * SECTOR - 8192 >= 525312 * (p - 1);
    assert 1026 * p > sectors - 16 >= 1026 * (p - 1);
  }

  /** When every cluster of a formatted volume is taken, the search finds one all the same, and
      its last sector is past the end of the device. */
  lemma SearchLeavesDevice(sectors: u32) returns (t: seq<u32>)
    requires 34 <= sectors < 0x80_0000
    ensures Fits(Formatted(sectors), sectors) && |t| == Slots(Formatted(sectors))
    ensures forall c :: 2 <= c < ClusterLimit(Formatted(sectors), sectors) ==> t[c] == FAT_END
    ensures |Frees(t, 2)| >= 1 && Frees(t, 2)[0] >= 2 && !Room(t, Formatted(sectors), sectors, 1)
    ensures DataSector(Formatted(sectors), Frees(t, 2)[0], SECTORS_PER_CLUSTER - 1) >= sectors
  {
    FormattedFits(sectors);
    var g := Formatted(sectors);
    hide Formatted;
    var limit := ClusterLimit(g, sectors);
    t := seq<u32>(Slots(g), c requires 0 <= c < Slots(g) => if c < limit then FAT_END else 0);
    FreesHasAll(t, 2, limit);
    FreeIsZero(t, 2, 0);
    NothingFree(t[..limit], 2);
    hide Frees;
  }

  /** A fresh formatted volume, with entries 0 to 2 set and the rest zero, has room for exactly
      the clusters of its device but the root directory's. */
  lemma FreshRoom(sectors: u32, t: seq<u32>, n: nat)
    requires 34 <= sectors < 0x80_0000 && |t| == Slots(Formatted(sectors))
    requires t[2] != 0 && forall c :: 3 <= c < |t| ==> t[c] == 0
    ensures Fits(Formatted(sectors), sectors)
    ensures Room(t, Formatted(sectors), sectors, n) <==> n == 0 || n <= ClusterLimit(Formatted(sectors), sectors) - 3
  {
    FormattedFits(sectors);
    hide Formatted;
    var u := t[..Usable(Formatted(sectors), sectors)];
    assert Frees(u, 2) == Frees(u, 3);
    AllFree(u, 3);
    hide Frees;
  }

  lemma {:induction false} AllFree(t: seq<u32>, from: nat)
    requires forall c :: from <= c < |t| ==> t[c] == 0
    ensures |Frees(t, from)| == if from < |t| then |t| - from else 0
    decreases |t| - from
  {
    if from < |t| {
      AllFree(t, from + 1);
    }
  }

  lemma {:induction false} NothingFree(t: seq<u32>, from: nat)
    requires forall c :: from <= c < |t| ==> t[c] != 0
    ensures Frees(t, from) == []
    decreases |t| - from
  {
    if from < |t| {
      NothingFree(t, from + 1);
    }
  }

  // ---------------------------------------------------------------- data

  /** Sector k of cluster c. */
  function DataSector(g: Geometry, c: nat, k: nat): nat
    requires c >= 2
  {
    DataStart(g) + (c - 2) * SECTORS_PER_CLUSTER + k
  }

  /** Sector x of a file. */
  function FileSector(g: Geometry, cs: seq<nat>, x: nat): nat
    requires x / SECTORS_PER_CLUSTER < |cs| && forall i :: 0 <= i < |cs| ==> cs[i] >= 2
  {
    DataSector(g, cs[x / SECTORS_PER_CLUSTER], x % SECTORS_PER_CLUSTER)
  }

  /** Clusters that n bytes need. */
  function ClustersFor(n: nat): nat {
    (n + CLUSTER - 1) / CLUSTER
  }

  predicate ChainOnDisk(d: Disk, g: Geometry, cs: seq<nat>) {
    Fits(g, |d|) && Distinct(cs) && forall i :: 0 <= i < |cs| ==> 2 <= cs[i] < ClusterLimit(g, |d|)
  }

  lemma ClusterOnDisk(g: Geometry, sectors: nat, c: nat)
    requires Fits(g, sectors) && 2 <= c < ClusterLimit(g, sectors)
    ensures DataSector(g, c, 0) + SECTORS_PER_CLUSTER <= sectors
  {
  }

  lemma SectorOnDisk(d: Disk, g: Geometry, cs: seq<nat>, x: nat)
    requires ChainOnDisk(d, g, cs) && x < SECTORS_PER_CLUSTER * |cs|
    ensures x / SECTORS_PER_CLUSTER < |cs| && DataStart(g) <= FileSector(g, cs, x) < |d|
  {
    ClusterOnDisk(g, |d|, cs[x / SECTORS_PER_CLUSTER]);
    hide ClusterLimit, Distinct;
  }

  /** Different sectors of a file are different sectors of the disk. */
  lemma SectorsApart(d: Disk, g: Geometry, cs: seq<nat>, x: nat, y: nat)
    requires ChainOnDisk(d, g, cs) && x < SECTORS_PER_CLUSTER * |cs| && y < SECTORS_PER_CLUSTER * |cs| && x != y
    ensures FileSector(g, cs, x) != FileSector(g, cs, y)
  {
    if x / SECTORS_PER_CLUSTER != y / SECTORS_PER_CLUSTER {
      assert cs[x / SECTORS_PER_CLUSTER] != cs[y / SECTORS_PER_CLUSTER];
    }
  }

  function ByteAt(d: Disk, g: Geometry, cs: seq<nat>, i: nat): byte
    requires ChainOnDisk(d, g, cs) && i < CLUSTER * |cs|
  {
    SectorOnDisk(d, g, cs, i / SECTOR);
    d[FileSector(g, cs, i / SECTOR)][i % SECTOR]
  }

  lemma ClustersForIs(n: nat)
    ensures 4096 * (ClustersFor(n) - 1) < n <= 4096 * ClustersFor(n) || (n == 0 && ClustersFor(n) == 0)
  {
  }

  /** Byte i of a file: behind the reserved sectors and two tables, eight sectors to a cluster. */
  lemma ContentAt(d: Disk, g: Geometry, cs: seq<nat>, n: nat, i: nat)
    requires ChainOnDisk(d, g, cs) && i < n <= CLUSTER * |cs|
    ensures var x := g.reserved + 2 * g.perFat + (cs[i / 4096] - 2) * 8 + i / 512 % 8;
            0 <= x < |d| && Content(d, g, cs, n)[i] == d[x][i % 512]
  {
    SectorOnDisk(d, g, cs, i / SECTOR);
    assert i / SECTOR / SECTORS_PER_CLUSTER == i / 4096;
    hide ChainOnDisk;
  }

  /** The first n bytes along a chain. */
  function Content(d: Disk, g: Geometry, cs: seq<nat>, n: nat): (r: seq<byte>)
    requires ChainOnDisk(d, g, cs) && n <= CLUSTER * |cs|
    ensures |r| == n
  {
    seq<byte>(n, i requires 0 <= i < n => ByteAt(d, g, cs, i))
  }
}
