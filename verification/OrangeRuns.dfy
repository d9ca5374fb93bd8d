/** Whole runs of Orange FS: files created and unlinked in any order after `mkfs`. */
module OrangeRuns {
  import opened Common
  import opened Bitmaps
  import opened OrangeFs

  const RESERVED: nat := NR_DEFAULT_FILE_SECTS + 1
  const RESERVED_INODES: nat := NR_CONSOLES + 3
  const SLOT: nat := NR_DEFAULT_FILE_SECTS

  /** Both maps, and for every live file the bit its sectors start at. */
  datatype Fs = Fs(ibits: seq<bool>, sbits: seq<bool>, files: map<nat, nat>)

  /** The maps of a fresh file system whose installed archive lies inside the root
      directory's reserved run, as the build's constants place it. */
  function Fresh(inodes: nat, sectors: nat, bitOffset: nat, installed: nat): Fs {
    Fs(Stroke(seq(inodes, _ => false), 0, RESERVED_INODES, true),
       Stroke(Stroke(seq(sectors, _ => false), 0, RESERVED, true), bitOffset, bitOffset + installed, true),
       map[])
  }

  /** A free inode, and a free bit with a whole slot's length of map behind it. */
  predicate HasRoom(s: Fs) {
    FirstFree(s.ibits) < |s.ibits| && FirstFree(s.sbits) + SLOT <= |s.sbits|
  }

  /** The number of a new file; 0 when the inode map is full. */
  function NewInode(s: Fs): nat {
    if FirstFree(s.ibits) < |s.ibits| then FirstFree(s.ibits) else 0
  }

  /** Creation does not look for room: it goes on with inode 0, and with as much of the last
      slot as the map has. A file without a start is put behind the map. */
  function Create(s: Fs): Fs {
    Fs(Allocated(s.ibits, 1), Allocated(s.sbits, SLOT), s.files[NewInode(s) := FirstFree(s.sbits)])
  }

  function Unlinked(s: Fs, i: nat): Fs
    requires i in s.files && i < |s.ibits|
  {
    Fs(s.ibits[i := false], Cleared(s.sbits, s.files[i], SLOT), s.files - {i})
  }

  datatype Call = Creates | Unlinks(i: nat)

  ghost predicate Step(s: Fs, c: Call, s': Fs) {
    match c
    case Creates => s' == Create(s)
    case Unlinks(i) => i in s.files && i < |s.ibits| && s' == Unlinked(s, i)
  }

  ghost predicate IsRun(ss: seq<Fs>, cs: seq<Call>) {
    |ss| == |cs| + 1 && forall k :: 0 <= k < |cs| ==> Step(ss[k], cs[k], ss[k + 1])
  }

  /** Every creation found room. */
  ghost predicate Roomy(ss: seq<Fs>, cs: seq<Call>) {
    |ss| == |cs| + 1 && forall k :: 0 <= k < |cs| && cs[k].Creates? ==> HasRoom(ss[k])
  }

  /** The start of the slot that bit b lies in. */
  function SlotOf(b: nat): nat
    requires b >= RESERVED
  {
    RESERVED + (b - RESERVED) / SLOT * SLOT
  }

  ghost predicate FilesFit(s: Fs) {
    && (forall i :: i in s.files ==>
          && RESERVED_INODES <= i < |s.ibits| && s.files[i] >= RESERVED
          && SlotOf(s.files[i]) == s.files[i] && s.files[i] + SLOT <= |s.sbits|)
    && (forall i, j :: i in s.files && j in s.files && i != j ==> s.files[i] != s.files[j])
  }

  /** The sector map is the reserved prefix and the live files' slots, nothing else. */
  ghost predicate MapFits(s: Fs) {
    forall b :: 0 <= b < |s.sbits| ==> (s.sbits[b] <==> b < RESERVED || SlotOf(b) in s.files.Values)
  }

  ghost predicate InodesFit(s: Fs) {
    forall i :: 0 <= i < |s.ibits| ==> (s.ibits[i] <==> i < RESERVED_INODES || i in s.files)
  }

  ghost predicate Slotted(s: Fs) {
    FilesFit(s) && MapFits(s) && InodesFit(s)
  }

  lemma FreshIsSlotted(inodes: nat, sectors: nat, bitOffset: nat, installed: nat)
    requires bitOffset + installed <= RESERVED <= sectors
    ensures Slotted(Fresh(inodes, sectors, bitOffset, installed))
  {
  }

  lemma SlotBounds(b: nat, c: nat)
    requires b >= RESERVED && c >= RESERVED && SlotOf(c) == c
    ensures SlotOf(b) <= b < SlotOf(b) + SLOT
    ensures SlotOf(SlotOf(b)) == SlotOf(b)
    ensures SlotOf(b) == c <==> c <= b < c + SLOT
  {
  }

  /** The first free bit is always the start of a slot that is free throughout. */
  lemma FirstFreeIsSlot(s: Fs)
    requires Slotted(s) && FirstFree(s.sbits) < |s.sbits|
    ensures var f := FirstFree(s.sbits);
            && f >= RESERVED && SlotOf(f) == f && f !in s.files.Values
            && forall b :: f <= b < f + SLOT && b < |s.sbits| ==> !s.sbits[b]
  {
    var f := FirstFree(s.sbits);
    assert !s.sbits[f];
    var c := SlotOf(f);
    SlotBounds(f, RESERVED);
    if c < f {
      assert false;
    }
    forall b | f <= b < f + SLOT && b < |s.sbits|
      ensures !s.sbits[b]
    {
      SlotBounds(b, f);
    }
  }

  lemma ValuesAdded(m: map<nat, nat>, i: nat, f: nat)
    requires i !in m
    ensures m[i := f].Values == m.Values + {f}
  {
    forall v | v in m.Values
      ensures v in m[i := f].Values
    {
      var j :| j in m && m[j] == v;
      assert m[i := f][j] == v;
    }
    assert m[i := f][i] == f;
  }

  lemma CreateMapFits(s: Fs)
    requires Slotted(s) && HasRoom(s) && FirstFree(s.ibits) !in s.files
    ensures MapFits(Create(s))
  {
    var s', f := Create(s), FirstFree(s.sbits);
    FirstFreeIsSlot(s);
    ValuesAdded(s.files, FirstFree(s.ibits), f);
    forall b | 0 <= b < |s'.sbits|
      ensures s'.sbits[b] <==> b < RESERVED || SlotOf(b) in s'.files.Values
    {
      if b >= RESERVED {
        SlotBounds(b, f);
      }
    }
  }

  lemma CreateKeeps(s: Fs)
    requires Slotted(s) && HasRoom(s)
    ensures Slotted(Create(s))
  {
    var i, f := FirstFree(s.ibits), FirstFree(s.sbits);
    FirstFreeIsSlot(s);
    assert !s.ibits[i];
    CreateMapFits(s);
    forall j | j in s.files
      ensures s.files[j] != f
    {
      assert s.files[j] in s.files.Values;
    }
    hide MapFits, FirstFree, Allocated;
    CreateInodesFit(s);
    CreateFilesFit(s);
  }

  lemma CreateInodesFit(s: Fs)
    requires InodesFit(s) && HasRoom(s)
    ensures InodesFit(Create(s))
  {
  }

  lemma CreateFilesFit(s: Fs)
    requires FilesFit(s) && HasRoom(s) && FirstFree(s.ibits) >= RESERVED_INODES
    requires FirstFree(s.sbits) >= RESERVED && SlotOf(FirstFree(s.sbits)) == FirstFree(s.sbits)
    requires forall j :: j in s.files ==> s.files[j] != FirstFree(s.sbits)
    ensures FilesFit(Create(s))
  {
    hide SlotOf;
  }

  /** Creation keeps the slots exactly when there is room. */
  lemma CreateKeepsIff(s: Fs)
    requires Slotted(s)
    ensures Slotted(Create(s)) <==> HasRoom(s)
  {
    if HasRoom(s) {
      CreateKeeps(s);
    } else {
      assert NewInode(s) in Create(s).files && Create(s).files[NewInode(s)] == FirstFree(s.sbits);
      assert FirstFree(s.ibits) == |s.ibits| ==> NewInode(s) == 0 < RESERVED_INODES;
    }
  }

  lemma UnlinkKeeps(s: Fs, i: nat)
    requires Slotted(s) && i in s.files
    ensures i < |s.ibits| && Slotted(Unlinked(s, i))
  {
    var s' := Unlinked(s, i);
    var f := s.files[i];
    assert s'.files.Values == s.files.Values - {f} by {
      forall v | v in s.files.Values && v != f
        ensures v in s'.files.Values
      {
        var j :| j in s.files && s.files[j] == v;
        assert j in s'.files && s'.files[j] == v;
      }
    }
    forall b | 0 <= b < |s'.sbits|
      ensures s'.sbits[b] <==> b < RESERVED || SlotOf(b) in s'.files.Values
    {
      if b >= RESERVED {
        SlotBounds(b, f);
      }
    }
  }

  /** In every state of a run the map is a reserved prefix plus disjoint slots, exactly if
      every creation on the way found room. */
  lemma {:induction false} RunKeepsSlots(ss: seq<Fs>, cs: seq<Call>)
    requires IsRun(ss, cs) && Slotted(ss[0])
    ensures (forall k :: 0 <= k < |ss| ==> Slotted(ss[k])) <==> Roomy(ss, cs)
  {
    hide Slotted, HasRoom;
    if Roomy(ss, cs) {
      forall k | 0 <= k < |ss|
        ensures Slotted(ss[k])
      {
        RoomyRun(ss, cs, k);
      }
    } else {
      var k :| 0 <= k < |cs| && cs[k].Creates? && !HasRoom(ss[k]);
      assert Step(ss[k], cs[k], ss[k + 1]);
      if Slotted(ss[k]) {
        CreateKeepsIff(ss[k]);
        assert !Slotted(ss[k + 1]);
      }
    }
  }

  lemma {:induction false} RoomyRun(ss: seq<Fs>, cs: seq<Call>, k: nat)
    requires IsRun(ss, cs) && Slotted(ss[0]) && Roomy(ss, cs) && k < |ss|
    ensures Slotted(ss[k])
  {
    hide Slotted, HasRoom;
    if k > 0 {
      RoomyRun(ss, cs, k - 1);
      assert Step(ss[k - 1], cs[k - 1], ss[k - 1 + 1]);
      match cs[k - 1]
      case Creates => CreateKeeps(ss[k - 1]);
      case Unlinks(i) => UnlinkKeeps(ss[k - 1], i);
    }
  }

  /** Live files never share a sector, and never own a reserved one. */
  lemma NoSharing(ss: seq<Fs>, cs: seq<Call>, i: nat, j: nat, b: nat)
    requires IsRun(ss, cs) && Slotted(ss[0]) && Roomy(ss, cs)
    requires var files := ss[|ss| - 1].files; i in files && j in files && i != j && files[i] <= b < files[i] + 2048
    ensures var files := ss[|ss| - 1].files; b >= 2049 && !(files[j] <= b < files[j] + 2048)
  {
    RunKeepsSlots(ss, cs);
    var files := ss[|ss| - 1].files;
    assert Slotted(ss[|ss| - 1]);
    SlotBounds(b, files[i]);
    SlotBounds(b, files[j]);
  }

  /** Unlinking a file right after creating it restores both maps bit for bit. */
  lemma CreateUnlinkRestores(s: Fs)
    requires Slotted(s) && HasRoom(s)
    ensures var i := FirstFree(s.ibits);
            i !in s.files && Unlinked(Create(s), i) == s
  {
    var i, f := FirstFree(s.ibits), FirstFree(s.sbits);
    FirstFreeIsSlot(s);
    assert !s.ibits[i];
    var t := Unlinked(Create(s), i);
    assert t.ibits == s.ibits;
    assert t.sbits == s.sbits;
    assert t.files == s.files;
  }

  /** The allocator does not look how much map is left: the last slot of a map of whole
      sectors is one bit short. A slot found free lies inside the map exactly when it is
      not that one. */
  lemma LastSlotIsShort(s: Fs)
    requires Slotted(s) && |s.sbits| % SECTOR_BITS == 0 && FirstFree(s.sbits) < |s.sbits|
    ensures FirstFree(s.sbits) + SLOT <= |s.sbits| <==> FirstFree(s.sbits) != |s.sbits| - (SLOT - 1)
    ensures FirstFree(s.sbits) == |s.sbits| - (SLOT - 1) ==> FirstFree(s.sbits) + SLOT == |s.sbits| + 1
  {
    FirstFreeIsSlot(s);
    var f := FirstFree(s.sbits);
    var k := (f - RESERVED) / SLOT;
    assert f == RESERVED + k * SLOT;
    var m := |s.sbits| / SECTOR_BITS;
    assert |s.sbits| == 2 * m * SLOT;
    assert f + SLOT - |s.sbits| == 1 + (k + 2 - 2 * m) * SLOT;
  }

  // ---------------------------------------------------------------- the device

  /** What `mkfs` puts on a device of n sectors: the bits of its sector map, and the first
      sector of data behind the two maps and the inodes. */
  function MapBits(n: nat): nat {
    (n / SECTOR_BITS + 1) * SECTOR_BITS
  }

  function FirstSect(n: nat): nat {
    1 + 1 + 1 + (n / SECTOR_BITS + 1) + SECTOR_BITS * INODE_SIZE / SECTOR_SIZE
  }

  /** The sectors of the slot at bit f lie on a device of n sectors. */
  predicate OnDevice(n: nat, f: nat) {
    f - 1 + FirstSect(n) + SLOT <= n
  }

  predicate IsSlot(n: nat, f: nat) {
    f >= RESERVED && SlotOf(f) == f && f + SLOT <= MapBits(n)
  }

  /** The slots that fit on the device behind the root directory's. */
  function Capacity(n: nat): int {
    (n - FirstSect(n) - SLOT) / SLOT
  }

  lemma SlotNumber(n: nat, f: nat)
    requires f >= RESERVED && SlotOf(f) == f
    ensures f == RESERVED + (f - RESERVED) / SLOT * SLOT
    ensures OnDevice(n, f) <==> (f - RESERVED) / SLOT < Capacity(n)
    ensures f + SLOT <= MapBits(n) <==> (f - RESERVED) / SLOT < 2 * (n / SECTOR_BITS)
  {
    var k := (f - RESERVED) / SLOT;
    assert MapBits(n) == 2 * (n / SECTOR_BITS) * SLOT + 2 * SLOT;
  }

  /** The map has a slot for more than the device holds, unless enough of the last map sector
      is in use: every slot of the map is on the device exactly then. */
  lemma SlotsOnDevice(n: nat)
    ensures (forall f: nat :: IsSlot(n, f) ==> OnDevice(n, f))
            <==> n < SECTOR_BITS || n % SECTOR_BITS >= SLOT + 260 + n / SECTOR_BITS
  {
    var q := n / SECTOR_BITS;
    CapacityIs(n);
    if n >= SECTOR_BITS {
      var f := RESERVED + (2 * q - 1) * SLOT;
      SlotNth(2 * q - 1);
      SlotNumber(n, f);
      assert IsSlot(n, f);
    }
    forall f: nat | IsSlot(n, f)
      ensures OnDevice(n, f) <==> (f - RESERVED) / SLOT < Capacity(n)
      ensures (f - RESERVED) / SLOT < 2 * q
    {
      SlotNumber(n, f);
    }
  }

  lemma CapacityIs(n: nat)
    ensures Capacity(n) >= 2 * (n / SECTOR_BITS) <==> n % SECTOR_BITS >= SLOT + 260 + n / SECTOR_BITS
  {
    var q, r := n / SECTOR_BITS, n % SECTOR_BITS;
    assert n - FirstSect(n) - SLOT == 2 * q * SLOT + (r - 260 - q - SLOT);
  }

  /** A device of 100 map sectors and a bit takes files whose sectors it does not have. */
  lemma SlotOffDevice()
    ensures exists f: nat :: IsSlot(409_600, f) && !OnDevice(409_600, f)
  {
    SlotsOnDevice(409_600);
  }

  /** Below the first free bit, every slot is some file's. */
  lemma {:induction false} SlotsBelow(s: Fs, n: nat) returns (t: set<nat>)
    requires MapFits(s) && (n > 0 ==> RESERVED + n * SLOT <= FirstFree(s.sbits))
    ensures |t| == n && t <= s.files.Values && forall v :: v in t ==> v < RESERVED + n * SLOT
  {
    hide SlotOf;
    t := {};
    if n > 0 {
      t := SlotsBelow(s, n - 1);
      var f := RESERVED + (n - 1) * SLOT;
      SlotNth(n - 1);
      assert s.sbits[f];
      t := t + {f};
    }
  }

  lemma SlotNth(k: nat)
    ensures SlotOf(RESERVED + k * SLOT) == RESERVED + k * SLOT
  {
  }

  lemma {:induction false} ValuesFewer(m: map<nat, nat>)
    ensures |m.Values| <= |m|
    decreases |m|
  {
    if m != map[] {
      var i :| i in m;
      ValuesFewer(m - {i});
      forall v | v in m.Values
        ensures v in (m - {i}).Values + {m[i]}
      {
        var j :| j in m && m[j] == v;
        assert j != i ==> j in m - {i} && (m - {i})[j] == v;
      }
      SubsetSmaller(m.Values, (m - {i}).Values + {m[i]});
    } else {
      assert m.Values == {};
    }
  }

  /** With fewer live files than the device holds, the next one lies on the device. */
  lemma CreatedOnDevice(s: Fs, n: nat)
    requires Slotted(s) && |s.sbits| == MapBits(n) && |s.files| < Capacity(n) && FirstFree(s.sbits) < |s.sbits|
    ensures OnDevice(n, FirstFree(s.sbits))
  {
    var f := FirstFree(s.sbits);
    FirstFreeIsSlot(s);
    SlotNumber(n, f);
    var k := (f - RESERVED) / SLOT;
    var t := SlotsBelow(s, k);
    SubsetSmaller(t, s.files.Values);
    ValuesFewer(s.files);
  }

  // ---------------------------------------------------------------- the volume takes these steps

  /** A volume and the files on it, as a state of the runs above. */
  ghost function StateOf(v: OrangeFs, files: map<nat, nat>): Fs
    requires v.Valid()
    reads v
  {
    Fs(v.Imap(), v.Smap(), files)
  }

  /** `mkfs` makes the fresh state. */
  method MakeFs(v: OrangeFs, bitOffset: nat, installed: nat) returns (ghost files: map<nat, nat>)
    requires v.Valid() && v.nrSmap >= 1 && bitOffset + installed <= RESERVED
    modifies v`disk
    ensures v.Valid() && StateOf(v, files) == Fresh(SECTOR_BITS, v.SmapBits(), bitOffset, installed)
    ensures Slotted(StateOf(v, files))
    ensures forall i :: 0 <= i < 4096 ==> (v.Imap()[i] <==> i < 6)
    ensures forall b :: 0 <= b < v.nrSmap * 4096 ==> (v.Smap()[b] <==> b < 2049)
  {
    v.Mkfs(bitOffset, installed);
    files := map[];
    FreshIsSlotted(SECTOR_BITS, v.SmapBits(), bitOffset, installed);
  }

  /** `create_file` takes a creating step, room or not. */
  method CreateStep(v: OrangeFs, ghost files: map<nat, nat>) returns (inodeNr: nat, startSect: nat, ghost files': map<nat, nat>)
    requires v.Valid() && Slotted(StateOf(v, files))
    modifies v`disk
    ensures v.Valid() && StateOf(v, files') == Create(old(StateOf(v, files)))
    ensures Slotted(StateOf(v, files')) <==> HasRoom(old(StateOf(v, files)))
    ensures inodeNr == NewInode(old(StateOf(v, files))) && inodeNr in files'
    ensures startSect == if files'[inodeNr] < v.SmapBits() then files'[inodeNr] - 1 + v.n1stSect else 0
  {
    hide Slotted, HasRoom;
    ghost var s := StateOf(v, files);
    CreateKeepsIff(s);
    files' := files[NewInode(s) := FirstFree(v.Smap())];
    inodeNr, startSect := v.CreateFile();
  }

  lemma LiveInside(s: Fs, i: nat)
    requires Slotted(s) && i in s.files
    ensures i < |s.ibits| && RESERVED <= s.files[i] && s.files[i] + SLOT <= |s.sbits|
  {
    hide MapFits, InodesFit;
  }

  /** `do_unlink` of a live file takes an unlinking step. */
  method UnlinkStep(v: OrangeFs, inodeNr: nat, startSect: nat, ghost files: map<nat, nat>)
    returns (ghost files': map<nat, nat>)
    requires v.Valid() && Slotted(StateOf(v, files)) && inodeNr in files
    requires startSect == files[inodeNr] - 1 + v.n1stSect
    modifies v`disk
    ensures v.Valid() && inodeNr < |old(v.Imap())|
    ensures StateOf(v, files') == Unlinked(old(StateOf(v, files)), inodeNr) && Slotted(StateOf(v, files'))
  {
    hide Slotted, Stroke;
    ghost var s := StateOf(v, files);
    UnlinkKeeps(s, inodeNr);
    LiveInside(s, inodeNr);
    files' := files - {inodeNr};
    v.Unlink(inodeNr, startSect, SLOT);
  }
}
