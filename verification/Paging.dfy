/** `lin_mapping_phy` and its helpers of kernel/pagetbl.c, on a machine's memory. */
module Paging {
  import opened Common
  import opened Words
  import opened PageTables

  const PG_P: nat := 1
  const PG_RWR: nat := 0
  const PG_RWW: nat := 2
  const PG_USS: nat := 0
  const PG_USU: nat := 4
  const KERNEL_LIN_BASE: u32 := 0xC000_0000
  const KERNEL_SIZE: u32 := 0x800_0000
  const KERNEL_PAGES: nat := 0x8000
  const KERNEL_TABLES: nat := 32
  const FIRST_KERNEL_SLOT: nat := 768

  function PageNr(addr: u32): nat { addr / PAGE }

  /** `get_pde_index` and `get_pte_index` together are the page number. */
  lemma IndicesArePage(addr: u32)
    ensures addr / 0x40_0000 == PageNr(addr) / ENTRIES
    ensures addr % 0x40_0000 / PAGE == PageNr(addr) % ENTRIES
  {
  }

  class Machine {
    var mem: Mem
    var cr3: map<int, u32>
    var kfree: set<nat>
    var ufree: set<nat>

    /** Before any process has a directory. */
    constructor (kfree: set<nat>, ufree: set<nat>)
      requires (forall f :: f in kfree ==> InK(f)) && (forall f :: f in ufree ==> InU(f))
      ensures Valid() && Dirs() == {} && this.kfree == kfree && this.ufree == ufree
    {
      mem := seq<Frame>(FRAMES, _ => Zeros());
      cr3 := map[];
      this.kfree, this.ufree := kfree, ufree;
    }

    /** The directories in use; a process whose cr3 is 0 has none yet. */
    function Dirs(): set<nat>
      reads this`cr3
    {
      set pid | pid in cr3 && cr3[pid] != 0 :: FrameOf(cr3[pid])
    }

    ghost predicate Valid()
      reads this
    {
      Good(mem, Dirs(), kfree, ufree)
    }

    /** `get_pde_phy_addr` as a frame number. */
    function DirOf(pid: int): nat
      requires pid in cr3
      reads this
    {
      FrameOf(cr3[pid])
    }

    /** `get_pte_phy_addr` as a frame number. */
    function TableOf(pid: int, addr: u32): nat
      requires pid in cr3
      reads this
    {
      FrameOf(Slot(mem, DirOf(pid), addr / 0x40_0000))
    }

    predicate PteExist(d: nat, addr: u32)
      reads this
    {
      Present(Slot(mem, d, addr / 0x40_0000))
    }

    predicate PhyExist(t: nat, addr: u32)
      reads this
    {
      t < FRAMES && Present(mem[t][addr % 0x40_0000 / PAGE])
    }

    /** `get_page_phy_addr`: the entry's frame address, present or not. */
    function GetPagePhyAddr(pid: int, addr: u32): u32
      requires pid in cr3
      reads this
    {
      var t := TableOf(pid, addr);
      if t < FRAMES then FrameOf(mem[t][addr % 0x40_0000 / PAGE]) * PAGE else 0
    }

    /** `do_kmalloc_4k` and `do_malloc_4k`: a page's address, or -1 as an unsigned number. */
    method KMalloc4K() returns (a: u32)
      requires forall f :: f in kfree ==> InK(f)
      modifies this`kfree
      ensures if old(kfree) == {} then a == MAX_UNSIGNED_INT && kfree == {}
              else a % PAGE == 0 && FrameOf(a) in old(kfree) && kfree == old(kfree) - {FrameOf(a)}
                   && 0x40_0000 <= a < 0x60_0000
    {
      if kfree == {} {
        return MAX_UNSIGNED_INT;
      }
      EmptyOrNot(kfree);
      var f :| f in kfree;
      kfree := kfree - {f};
      a := f * PAGE;
    }

    method Malloc4K() returns (a: u32)
      requires forall f :: f in ufree ==> InU(f)
      modifies this`ufree
      ensures if old(ufree) == {} then a == MAX_UNSIGNED_INT && ufree == {}
              else a % PAGE == 0 && FrameOf(a) in old(ufree) && ufree == old(ufree) - {FrameOf(a)}
                   && 0x100_0000 <= a < 0x200_0000
    {
      if ufree == {} {
        return MAX_UNSIGNED_INT;
      }
      EmptyOrNot(ufree);
      var f :| f in ufree;
      ufree := ufree - {f};
      a := f * PAGE;
    }

    /** The first half of `lin_mapping_phy`: find the page's table, making one if its
        directory slot is absent. */
    method EnsureTable(addr: u32, pid: int, pdeAttr: nat) returns (t: nat)
      requires Valid() && pid in cr3 && cr3[pid] != 0
      requires pdeAttr < PAGE && pdeAttr % 2 == 1
      requires !PteExist(DirOf(pid), addr) ==> kfree != {}
      modifies this`mem, this`kfree
      ensures Valid() && t == TableOf(pid, addr) && PteExist(DirOf(pid), addr)
      ensures SameWalks(old(mem), mem, Dirs())
      ensures old(PteExist(DirOf(pid), addr)) ==> mem == old(mem) && kfree == old(kfree)
      ensures TableMade(old(mem), old(kfree), mem, kfree, Dirs(), DirOf(pid), addr / 0x40_0000, pdeAttr)
      ensures !old(PteExist(DirOf(pid), addr)) ==> Slot(mem, DirOf(pid), addr / 0x40_0000) % 0x1000 == pdeAttr
    {
      var d := DirOf(pid);
      assert d in Dirs();
      if !PteExist(d, addr) {
        var a := KMalloc4K();
        t := FrameOf(a);
        NewTable(mem, Dirs(), old(kfree), ufree, d, addr / 0x40_0000, t, pdeAttr);
        DecodeEncode(t, pdeAttr);
        mem := mem[t := Zeros()];
        mem := Put(mem, d, addr / 0x40_0000, Encode(t, pdeAttr));
      } else {
        t := TableOf(pid, addr);
      }
    }

    /** The second half: write the page's entry. `write_page_pte` */
    method WritePte(t: nat, addr: u32, phy: u32, pid: int, pteAttr: nat)
      requires Valid() && pid in cr3 && cr3[pid] != 0 && t == TableOf(pid, addr) && PteExist(DirOf(pid), addr)
      requires pteAttr < PAGE
      requires addr < KERNEL_LIN_BASE && pteAttr % 2 == 1 ==> InU(FrameOf(phy)) && FrameOf(phy) !in ufree
      modifies this`mem
      ensures Valid() && PteExist(DirOf(pid), addr)
      ensures Remaps(old(mem), mem, Dirs(), DirOf(pid), PageNr(addr), Decode(Encode(FrameOf(phy), pteAttr)))
      ensures forall e, i :: e in Dirs() && 0 <= i < ENTRIES ==> Slot(mem, e, i) == Slot(old(mem), e, i)
    {
      assert DirOf(pid) in Dirs();
      IndicesArePage(addr);
      DecodeEncode(FrameOf(phy), pteAttr);
      PutEntry(mem, Dirs(), kfree, ufree, DirOf(pid), PageNr(addr), Encode(FrameOf(phy), pteAttr));
      mem := Put(mem, t, addr % 0x40_0000 / PAGE, Encode(FrameOf(phy), pteAttr));
    }

    /** `lin_mapping_phy` with an address of the caller's. */
    method MapGiven(addr: u32, phy: u32, pid: int, pdeAttr: nat, pteAttr: nat) returns (r: int)
      requires Valid() && pid in cr3 && cr3[pid] != 0
      requires pdeAttr < PAGE && pdeAttr % 2 == 1 && pteAttr < PAGE
      requires !PteExist(DirOf(pid), addr) ==> kfree != {}
      requires addr < KERNEL_LIN_BASE && pteAttr % 2 == 1 ==> InU(FrameOf(phy)) && FrameOf(phy) !in ufree
      modifies this`mem, this`kfree
      ensures Valid() && TableMade(old(mem), old(kfree), mem, kfree, Dirs(), DirOf(pid), addr / 0x40_0000, pdeAttr)
      ensures r == if phy % 0x400 == 0 then 0 else -1
      ensures if r == 0
              then Remaps(old(mem), mem, Dirs(), DirOf(pid), PageNr(addr), Decode(Encode(FrameOf(phy), pteAttr)))
              else SameWalks(old(mem), mem, Dirs())
      ensures !old(PteExist(DirOf(pid), addr)) ==> Slot(mem, DirOf(pid), addr / 0x40_0000) % 0x1000 == pdeAttr
    {
      hide Good, Slot, Walk, Remaps, SameWalks;
      ghost var m0 := mem;
      var t := EnsureTable(addr, pid, pdeAttr);
      ghost var m1 := mem;
      if phy % 0x400 != 0 {
        return -1;
      }
      WritePte(t, addr, phy, pid, pteAttr);
      SlotsTransfer(m0, old(kfree), m1, mem, kfree, Dirs(), DirOf(pid), addr / 0x40_0000, pdeAttr);
      SameThenRemaps(m0, m1, mem, Dirs(), DirOf(pid), PageNr(addr), Decode(Encode(FrameOf(phy), pteAttr)));
      r := 0;
    }

    /** `lin_mapping_phy` with phy = 0xFFFFFFFF: a frame is found unless the page has one. */
    method MapFresh(addr: u32, pid: int, pdeAttr: nat, pteAttr: nat) returns (r: int)
      requires Valid() && pid in cr3 && cr3[pid] != 0
      requires pdeAttr < PAGE && pdeAttr % 2 == 1 && pteAttr < PAGE && pteAttr % 2 == 1
      requires !PteExist(DirOf(pid), addr) ==> kfree != {}
      modifies this`mem, this`kfree, this`ufree
      ensures Valid() && PteExist(DirOf(pid), addr)
      ensures Walk(old(mem), DirOf(pid), PageNr(addr)).Some? ==>
        r == 0 && mem == old(mem) && kfree == old(kfree) && ufree == old(ufree)
      ensures addr < KERNEL_LIN_BASE ==>
        TableMade(old(mem), old(kfree), mem, kfree, Dirs(), DirOf(pid), addr / 0x40_0000, pdeAttr)
      ensures Walk(old(mem), DirOf(pid), PageNr(addr)).None? ==>
        Supplied(old(mem), old(kfree), old(ufree), mem, kfree, ufree, Dirs(), DirOf(pid), addr, pteAttr, r)
      ensures !old(PteExist(DirOf(pid), addr)) ==> Slot(mem, DirOf(pid), addr / 0x40_0000) % 0x1000 == pdeAttr
    {
      hide Good, Slot, Walk, Remaps, SameWalks, TableMade;
      SomeNeedsTable(mem, DirOf(pid), addr);
      ghost var m0 := mem;
      var t := EnsureTable(addr, pid, pdeAttr);
      ghost var m1 := mem;
      WalkIsEntry(pid, addr);
      SameAt(m0, m1, Dirs(), DirOf(pid), PageNr(addr));
      if PhyExist(t, addr) {
        return 0;
      }
      ghost var k1 := kfree;
      var phyAddr := TakeFrame(addr);
      if phyAddr % 0x400 != 0 {
        return -1;
      }
      WritePte(t, addr, phyAddr, pid, pteAttr);
      SlotsTransfer(m0, old(kfree), m1, mem, k1, Dirs(), DirOf(pid), addr / 0x40_0000, pdeAttr);
      DecodeEncode(FrameOf(phyAddr), pteAttr);
      SameThenRemaps(m0, m1, mem, Dirs(), DirOf(pid), PageNr(addr), Some(Mapping(FrameOf(phyAddr), pteAttr)));
      RemapsAt(m0, mem, Dirs(), DirOf(pid), PageNr(addr), Some(Mapping(FrameOf(phyAddr), pteAttr)));
      r := 0;
    }

    /** The kernel's zone serves kernel pages, the user's zone user pages. */
    method TakeFrame(addr: u32) returns (phyAddr: u32)
      requires Valid()
      modifies this`kfree, this`ufree
      ensures Valid()
      ensures addr < KERNEL_LIN_BASE ==> kfree == old(kfree)
      ensures addr >= KERNEL_LIN_BASE ==> ufree == old(ufree)
      ensures var pool := if addr < KERNEL_LIN_BASE then old(ufree) else old(kfree);
              if pool == {} then phyAddr == MAX_UNSIGNED_INT && kfree == old(kfree) && ufree == old(ufree)
              else phyAddr % PAGE == 0 && FrameOf(phyAddr) in pool
      ensures phyAddr != MAX_UNSIGNED_INT && addr < KERNEL_LIN_BASE ==>
        InU(FrameOf(phyAddr)) && ufree == old(ufree) - {FrameOf(phyAddr)}
      ensures phyAddr != MAX_UNSIGNED_INT && addr >= KERNEL_LIN_BASE ==> kfree == old(kfree) - {FrameOf(phyAddr)}
    {
      GoodPools();
      if addr >= KERNEL_LIN_BASE {
        FewerFree(mem, Dirs(), kfree, ufree, 0, 0);
        phyAddr := KMalloc4K();
        FewerFree(mem, Dirs(), old(kfree), ufree, FrameOf(phyAddr), 0);
      } else {
        phyAddr := Malloc4K();
        FewerFree(mem, Dirs(), kfree, old(ufree), 0, FrameOf(phyAddr));
      }
      hide Good;
    }

    /** `lin_mapping_phy` */
    method LinMappingPhy(addr: u32, phy: u32, pid: int, pdeAttr: nat, pteAttr: nat) returns (r: int)
      requires Valid() && pid in cr3 && cr3[pid] != 0
      requires pdeAttr < PAGE && pdeAttr % 2 == 1 && pteAttr < PAGE
      requires !PteExist(DirOf(pid), addr) ==> kfree != {}
      requires phy == MAX_UNSIGNED_INT ==> pteAttr % 2 == 1
      requires phy != MAX_UNSIGNED_INT && addr < KERNEL_LIN_BASE && pteAttr % 2 == 1 ==>
        InU(FrameOf(phy)) && FrameOf(phy) !in ufree
      modifies this`mem, this`kfree, this`ufree
      ensures Valid() && PteExist(DirOf(pid), addr)
      ensures phy != MAX_UNSIGNED_INT || addr < KERNEL_LIN_BASE ==>
        TableMade(old(mem), old(kfree), mem, kfree, Dirs(), DirOf(pid), addr / 0x40_0000, pdeAttr)
      ensures phy != MAX_UNSIGNED_INT ==> ufree == old(ufree) && (r == if phy % 0x400 == 0 then 0 else -1)
      ensures phy != MAX_UNSIGNED_INT ==>
        if r == 0
        then Remaps(old(mem), mem, Dirs(), DirOf(pid), PageNr(addr), Decode(Encode(FrameOf(phy), pteAttr)))
        else SameWalks(old(mem), mem, Dirs())
      ensures phy == MAX_UNSIGNED_INT && Walk(old(mem), DirOf(pid), PageNr(addr)).Some? ==>
        r == 0 && mem == old(mem) && kfree == old(kfree) && ufree == old(ufree)
      ensures phy == MAX_UNSIGNED_INT && Walk(old(mem), DirOf(pid), PageNr(addr)).None? ==>
        Supplied(old(mem), old(kfree), old(ufree), mem, kfree, ufree, Dirs(), DirOf(pid), addr, pteAttr, r)
      ensures !old(PteExist(DirOf(pid), addr)) ==> Slot(mem, DirOf(pid), addr / 0x40_0000) % 0x1000 == pdeAttr
    {
      hide Good, Slot, Walk, Remaps, SameWalks, Supplied;
      if phy == MAX_UNSIGNED_INT {
        r := MapFresh(addr, pid, pdeAttr, pteAttr);
      } else {
        r := MapGiven(addr, phy, pid, pdeAttr, pteAttr);
      }
    }

    /** The first lines of `init_page_pte`: an empty directory for the process. */
    method MakeDirectory(pid: int)
      requires Valid() && kfree != {}
      modifies this
      ensures Valid() && ufree == old(ufree) && pid in cr3 && cr3[pid] != 0 && cr3 == old(cr3)[pid := cr3[pid]]
      ensures DirOf(pid) in old(kfree) && kfree == old(kfree) - {DirOf(pid)}
      ensures DirOf(pid) !in old(Dirs()) && Dirs() <= old(Dirs()) + {DirOf(pid)}
      ensures Identity(old(mem), mem, Dirs(), DirOf(pid), 0)
    {
      ghost var m0, k0, dirs0 := mem, kfree, Dirs();
      GoodPools();
      var a := KMalloc4K();
      ghost var d := FrameOf(a);
      NewDirectory(mem, dirs0, k0, ufree, d);
      DirectoryIsNew(m0, dirs0, k0, ufree, d);
      hide Good, Identity, Walk, Slot;
      mem := mem[FrameOf(a) := Zeros()];
      cr3 := cr3[pid := a];
      FewerDirectories(mem, dirs0 + {d}, Dirs(), kfree, ufree);
    }

    /** `init_page_pte`: a directory for the process, its kernel half showing the bottom of
        memory. The directory the process had, if any, is forgotten. */
    method InitPagePte(pid: int)
      requires Valid() && |kfree| >= 1 + KERNEL_TABLES
      modifies this
      ensures Valid() && ufree == old(ufree) && pid in cr3 && cr3[pid] != 0 && cr3 == old(cr3)[pid := cr3[pid]]
      ensures DirOf(pid) in old(kfree) && kfree <= old(kfree) && |kfree| == |old(kfree)| - 1 - KERNEL_TABLES
      ensures DirOf(pid) !in old(Dirs()) && Dirs() <= old(Dirs()) + {DirOf(pid)}
      ensures Identity(old(mem), mem, Dirs(), DirOf(pid), KERNEL_PAGES)
      ensures forall q :: 0 <= q < PAGES ==>
        Walk(mem, DirOf(pid), q) == if 0xC_0000 <= q < 0xC_8000 then Some(Mapping(q - 0xC_0000, 3)) else None
      ensures forall i :: 0 <= i < 768 ==> Slot(mem, DirOf(pid), i) % 2 == 0
    {
      hide Good, Walk, Slot, Present, Remaps, TableMade, Identity;
      MakeDirectory(pid);
      ghost var d, k0 := DirOf(pid), kfree;
      var addr: u32 := KERNEL_LIN_BASE;
      var phy: u32 := 0;
      while addr < KERNEL_LIN_BASE + KERNEL_SIZE
        invariant phy == addr - KERNEL_LIN_BASE <= KERNEL_SIZE && phy % PAGE == 0
        invariant Valid() && pid in cr3 && cr3 == old(cr3)[pid := cr3[pid]] && cr3[pid] != 0 && DirOf(pid) == d
        invariant ufree == old(ufree)
        invariant Dirs() <= old(Dirs()) + {d} && kfree <= k0 && |kfree| == |k0| - TablesFor(phy / PAGE)
        invariant Identity(old(mem), mem, Dirs(), d, phy / PAGE)
      {
        MapKernelPage(addr, phy, pid, old(mem));
        addr := addr + PAGE;
        phy := phy + PAGE;
      }
      IdentityNumbers(old(mem), mem, Dirs(), d);
    }

    method MapKernelPage(addr: u32, phy: u32, pid: int, ghost m0: Mem)
      requires Valid() && pid in cr3 && cr3[pid] != 0
      requires phy == addr - KERNEL_LIN_BASE < KERNEL_SIZE && phy % PAGE == 0
      requires Identity(m0, mem, Dirs(), DirOf(pid), phy / PAGE)
      requires |kfree| >= KERNEL_TABLES - TablesFor(phy / PAGE)
      modifies this`mem, this`kfree, this`ufree
      ensures Valid() && ufree == old(ufree) && kfree <= old(kfree)
      ensures |kfree| == |old(kfree)| - (TablesFor(phy / PAGE + 1) - TablesFor(phy / PAGE))
      ensures Identity(m0, mem, Dirs(), DirOf(pid), phy / PAGE + 1)
    {
      hide Good, Walk, Slot, Present, Remaps, TableMade, Identity, SameWalks, Supplied, InU, Encode, Decode;
      assert DirOf(pid) in Dirs();
      KernelAddress(addr, phy);
      ghost var n := phy / PAGE;
      IdentityNeeds(m0, mem, Dirs(), DirOf(pid), n);
      var r := LinMappingPhy(addr, phy, pid, PG_P + PG_USU + PG_RWW, PG_P + PG_USS + PG_RWW);
      DecodeEncode(n, PG_P + PG_USS + PG_RWW);
      MadeFewer(old(mem), old(kfree), mem, kfree, Dirs(), DirOf(pid), FIRST_KERNEL_SLOT + n / ENTRIES,
                PG_P + PG_USU + PG_RWW);
      IdentityMore(m0, old(mem), mem, old(kfree), kfree, Dirs(), DirOf(pid), n);
    }

    lemma GoodPools()
      requires Valid()
      ensures (forall f :: f in kfree ==> InK(f)) && (forall f :: f in ufree ==> InU(f))
    {
    }

    /** The entry `phy_exist` looks at is the one the hardware finds. */
    lemma WalkIsEntry(pid: int, addr: u32)
      requires Valid() && pid in cr3 && cr3[pid] != 0 && PteExist(DirOf(pid), addr)
      ensures Walk(mem, DirOf(pid), PageNr(addr)).Some? <==> PhyExist(TableOf(pid, addr), addr)
      ensures Walk(mem, DirOf(pid), PageNr(addr)).Some? ==>
        GetPagePhyAddr(pid, addr) == Walk(mem, DirOf(pid), PageNr(addr)).value.frame * PAGE
    {
      assert DirOf(pid) in Dirs();
      IndicesArePage(addr);
    }
  }

  /** Nothing any process translates has changed, nor any frame outside the kernel's zone. */
  ghost predicate SameWalks(m: Mem, m': Mem, dirs: set<nat>) {
    && (forall e, q :: e in dirs && 0 <= q < PAGES ==> Walk(m', e, q) == Walk(m, e, q))
    && forall f :: 0 <= f < FRAMES && !InK(f) ==> m'[f] == m[f]
  }

  /** Slot i of directory d is present now; if it was not, it has these attribute bits and has
      cost a kernel frame; no other slot is different. */
  ghost predicate TableMade(m: Mem, k: set<nat>, m': Mem, k': set<nat>, dirs: set<nat>, d: nat, i: nat, attr: nat) {
    && Present(Slot(m', d, i)) && k' <= k
    && (if Present(Slot(m, d, i)) then k' == k && Slot(m', d, i) == Slot(m, d, i)
        else |k'| == |k| - 1 && Slot(m', d, i) % 0x1000 == attr)
    && forall e, j :: e in dirs && 0 <= j < ENTRIES && (e != d || j != i) ==> Slot(m', e, j) == Slot(m, e, j)
  }

  lemma SlotsTransfer(m: Mem, k: set<nat>, m1: Mem, m2: Mem, k': set<nat>, dirs: set<nat>, d: nat, i: nat, attr: nat)
    requires TableMade(m, k, m1, k', dirs, d, i, attr) && d in dirs && i < ENTRIES
    requires forall e, j :: e in dirs && 0 <= j < ENTRIES ==> Slot(m2, e, j) == Slot(m1, e, j)
    ensures TableMade(m, k, m2, k', dirs, d, i, attr) && Slot(m2, d, i) == Slot(m1, d, i)
  {
    hide Slot;
  }

  /** Every slot is as it was, or new and open to the user: present, writable, user. */
  ghost predicate SlotsKept(m: Mem, m': Mem, dirs: set<nat>) {
    forall e, i :: e in dirs && 0 <= i < ENTRIES ==>
      Slot(m', e, i) == Slot(m, e, i) || (!Present(Slot(m, e, i)) && Slot(m', e, i) % 0x1000 == 7)
  }

  lemma SlotsKeptTwice(m0: Mem, m1: Mem, m2: Mem, dirs: set<nat>)
    requires SlotsKept(m0, m1, dirs) && SlotsKept(m1, m2, dirs)
    ensures SlotsKept(m0, m2, dirs)
  {
    hide Slot;
    forall e, i | e in dirs && 0 <= i < ENTRIES
      ensures Slot(m2, e, i) == Slot(m0, e, i) || (!Present(Slot(m0, e, i)) && Slot(m2, e, i) % 0x1000 == 7)
    {
      OddIsPresent(Slot(m1, e, i));
    }
  }

  /** Every table in the user's half is open to the user: present, writable, user. */
  ghost predicate UserOpen(m: Mem, dirs: set<nat>) {
    forall d, i :: d in dirs && 0 <= i < 768 ==> (Slot(m, d, i) % 2 == 1 ==> Slot(m, d, i) % 8 == 7)
  }

  lemma StaysOpen(m: Mem, m': Mem, dirs: set<nat>)
    requires SlotsKept(m, m', dirs) && UserOpen(m, dirs)
    ensures UserOpen(m', dirs)
  {
    hide Slot, Present;
    forall d, i | d in dirs && 0 <= i < 768
      ensures Slot(m', d, i) % 2 == 1 ==> Slot(m', d, i) % 8 == 7
    {
      LowBits(Slot(m', d, i));
    }
  }

  lemma LowBits(w: u32)
    ensures w % 0x1000 == 7 ==> w % 8 == 7
  {
    assert w == 8 * (0x200 * (w / 0x1000)) + w % 0x1000;
  }

  lemma OddIsPresent(w: u32)
    ensures w % 0x1000 == 7 ==> Present(w)
  {
  }

  lemma MadeKept(m: Mem, k: set<nat>, m': Mem, k': set<nat>, dirs: set<nat>, d: nat, i: nat)
    requires TableMade(m, k, m', k', dirs, d, i, 7)
    ensures SlotsKept(m, m', dirs)
  {
    hide Slot, Present;
  }

  /** A frame out of the zone's pool now stands behind the page; or the pool was empty. */
  ghost predicate Supplied(m: Mem, k: set<nat>, u: set<nat>, m': Mem, k': set<nat>, u': set<nat>, dirs: set<nat>,
                           d: nat, addr: u32, attr: nat, r: int) {
    if r == 0 then
      var n := Walk(m', d, PageNr(addr));
      && n.Some? && n.value.attr == attr && Remaps(m, m', dirs, d, PageNr(addr), n)
      && (if addr < KERNEL_LIN_BASE then n.value.frame in u && u' == u - {n.value.frame}
          else n.value.frame in k && n.value.frame !in k' && u' == u)
    else
      r == -1 && SameWalks(m, m', dirs) && u' == u && (if addr < KERNEL_LIN_BASE then u == {} else k' == {})
  }

  /** Absent slots of a directory that a run may have to fill. */
  ghost function Lacking(m: Mem, d: nat, slots: set<nat>): set<nat> {
    set i | i in slots && !Present(Slot(m, d, i))
  }

  lemma SomeNeedsTable(m: Mem, d: nat, addr: u32)
    ensures Walk(m, d, PageNr(addr)).Some? ==> Present(Slot(m, d, addr / 0x40_0000))
  {
    IndicesArePage(addr);
  }

  lemma SameAt(m0: Mem, m1: Mem, dirs: set<nat>, d: nat, p: nat)
    requires SameWalks(m0, m1, dirs) && d in dirs && p < PAGES
    ensures Walk(m1, d, p) == Walk(m0, d, p)
  {
  }

  lemma RemapsAt(m0: Mem, m1: Mem, dirs: set<nat>, d: nat, p: nat, t: Option<Mapping>)
    requires Remaps(m0, m1, dirs, d, p, t) && d in dirs && p < PAGES
    ensures Walk(m1, d, p) == t
  {
  }

  lemma SameThenRemaps(m0: Mem, m1: Mem, m2: Mem, dirs: set<nat>, d: nat, p: nat, t: Option<Mapping>)
    requires SameWalks(m0, m1, dirs) && Remaps(m1, m2, dirs, d, p, t)
    ensures Remaps(m0, m2, dirs, d, p, t)
  {
    hide Walk;
  }

  // ---------------------------------------------------------------- the kernel half of a directory

  /** The first n pages of the kernel half show the first n frames. */
  function KernelHalf(q: nat, n: nat): Option<Mapping> {
    if USER_PAGES <= q < USER_PAGES + n then Some(Mapping(q - USER_PAGES, PG_P + PG_USS + PG_RWW)) else None
  }

  function TablesFor(n: nat): nat { (n + ENTRIES - 1) / ENTRIES }

  /** Directory d translates the first n pages of the kernel half and nothing else; the other
      directories translate what they did. */
  ghost predicate Identity(m0: Mem, m: Mem, dirs: set<nat>, d: nat, n: nat) {
    && (forall q :: 0 <= q < PAGES ==> Walk(m, d, q) == KernelHalf(q, n))
    && (forall i :: 0 <= i < ENTRIES ==>
          (Present(Slot(m, d, i)) <==> FIRST_KERNEL_SLOT <= i < FIRST_KERNEL_SLOT + TablesFor(n)))
    && (forall e, q :: e in dirs && e != d && 0 <= q < PAGES ==> Walk(m, e, q) == Walk(m0, e, q))
    && (forall e, i :: e in dirs && e != d && 0 <= i < ENTRIES ==> Slot(m, e, i) == Slot(m0, e, i))
    && forall f :: 0 <= f < FRAMES && !InK(f) ==> m[f] == m0[f]
  }

  /** In numbers: frame q - 768 Ki behind each of the 32 Ki pages from 3 GiB up, for the
      kernel alone, present and writable; and no table in the user's half. */
  lemma IdentityNumbers(m0: Mem, m: Mem, dirs: set<nat>, d: nat)
    requires Identity(m0, m, dirs, d, KERNEL_PAGES)
    ensures forall q :: 0 <= q < PAGES ==>
      Walk(m, d, q) == if 0xC_0000 <= q < 0xC_8000 then Some(Mapping(q - 0xC_0000, 3)) else None
    ensures forall i :: 0 <= i < 768 ==> Slot(m, d, i) % 2 == 0
  {
    hide Walk, Slot;
    forall i | 0 <= i < 768
      ensures Slot(m, d, i) % 2 == 0
    {
      assert !Present(Slot(m, d, i));
    }
  }

  lemma DirectoryIsNew(m: Mem, dirs0: set<nat>, k: set<nat>, u: set<nat>, d: nat)
    requires Good(m, dirs0, k, u) && d in k
    ensures d !in dirs0 && d < FRAMES
    ensures forall dirs :: dirs <= dirs0 + {d} ==> Identity(m, m[d := Zeros()], dirs, d, 0)
  {
    NewDirectory(m, dirs0, k, u, d);
    hide Walk, Slot;
  }

  lemma KernelAddress(addr: u32, phy: u32)
    requires phy == addr - KERNEL_LIN_BASE < KERNEL_SIZE && phy % PAGE == 0
    ensures PageNr(addr) == USER_PAGES + phy / PAGE && addr / 0x40_0000 == FIRST_KERNEL_SLOT + phy / PAGE / ENTRIES
    ensures FrameOf(phy) == phy / PAGE < KERNEL_PAGES && phy % 0x400 == 0 && phy != MAX_UNSIGNED_INT
  {
  }

  lemma MadeFewer(m: Mem, k: set<nat>, m': Mem, k': set<nat>, dirs: set<nat>, d: nat, i: nat, attr: nat)
    requires TableMade(m, k, m', k', dirs, d, i, attr)
    ensures k' <= k
  {
  }

  lemma IdentityNeeds(m0: Mem, m: Mem, dirs: set<nat>, d: nat, n: nat)
    requires Identity(m0, m, dirs, d, n) && n < KERNEL_PAGES
    ensures !Present(Slot(m, d, FIRST_KERNEL_SLOT + n / ENTRIES)) ==> TablesFor(n) < KERNEL_TABLES
  {
    hide Walk;
  }

  lemma IdentityMore(m0: Mem, m: Mem, m': Mem, k: set<nat>, k': set<nat>, dirs: set<nat>, d: nat, n: nat)
    requires Identity(m0, m, dirs, d, n) && n < KERNEL_PAGES && d in dirs
    requires TableMade(m, k, m', k', dirs, d, FIRST_KERNEL_SLOT + n / ENTRIES, PG_P + PG_USU + PG_RWW)
    requires Remaps(m, m', dirs, d, USER_PAGES + n, KernelHalf(USER_PAGES + n, n + 1))
    ensures Identity(m0, m', dirs, d, n + 1) && |k'| == |k| - (TablesFor(n + 1) - TablesFor(n))
  {
    hide Walk, Slot, Present;
    assert Present(Slot(m, d, FIRST_KERNEL_SLOT + n / ENTRIES)) <==> n % ENTRIES != 0;
  }
}
