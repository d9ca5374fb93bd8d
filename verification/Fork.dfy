/** `fork_mem_cpy` of kernel/fork.c: the child's address space, made page by page through
    the parent's shared window page. */
module Fork {
  import opened Common
  import opened Words
  import opened PageTables
  import opened Paging

  const SHARE_PAGE_BASE: u32 := 0x47FF_F000
  const SHARE: nat := 0x4_7FFF

  /** Attributes of a user's directory slot, of a writable page and of a code page. */
  const PDE_USER: nat := PG_P + PG_USU + PG_RWW
  const PTE_USER: nat := PG_P + PG_USU + PG_RWW
  const PTE_TEXT: nat := PG_P + PG_USU + PG_RWR

  /** A region's two ends; the stack's base is its upper one. */
  datatype Region = Region(base: u32, limit: u32)

  datatype MemMap = MemMap(text: Region, data: Region, vpage: Region, heap: Region, stack: Region, arg: Region)

  // ---------------------------------------------------------------- the pages a loop visits

  /** The pages at base, base + 4K, ... below limit. */
  function PagesUp(base: int, limit: int): set<nat>
    requires 0 <= base
    decreases limit - base
  {
    if base < limit then {base / PAGE} + PagesUp(base + PAGE, limit) else {}
  }

  function StepsUp(base: int, limit: int): nat {
    if base < limit then (limit - base + PAGE - 1) / PAGE else 0
  }

  /** The pages at base, base - 4K, ... above limit. */
  function PagesDown(base: int, limit: int): set<nat>
    requires 0 <= limit
    decreases base - limit
  {
    if base > limit then {base / PAGE} + PagesDown(base - PAGE, limit) else {}
  }

  function StepsDown(base: int, limit: int): nat {
    if base > limit then (base - limit + PAGE - 1) / PAGE else 0
  }

  lemma {:induction false} PagesUpAre(base: int, limit: int)
    requires 0 <= base
    ensures forall p :: p in PagesUp(base, limit) <==>
                        base / PAGE <= p && base < limit && p * PAGE + base % PAGE < limit
    ensures |PagesUp(base, limit)| == StepsUp(base, limit)
    decreases limit - base
  {
    if base < limit {
      PagesUpAre(base + PAGE, limit);
      assert base / PAGE !in PagesUp(base + PAGE, limit);
      forall p ensures p in PagesUp(base, limit) <==> base / PAGE <= p && p * PAGE + base % PAGE < limit {
        assert p in PagesUp(base, limit) <==> p == base / PAGE || p in PagesUp(base + PAGE, limit);
        assert (base + PAGE) / PAGE == base / PAGE + 1 && (base + PAGE) % PAGE == base % PAGE;
      }
    }
  }

  /** Every page holding a byte of a nonempty region is visited, exactly when the region does
      not run over a page boundary that its last step stops short of. */
  lemma PagesUpCover(base: int, limit: int)
    requires 0 <= base < limit
    ensures (forall a :: base <= a < limit ==> a / PAGE in PagesUp(base, limit))
            <==> base % PAGE <= (limit - 1) % PAGE
  {
    PagesUpAre(base, limit);
    assert (limit - 1) / PAGE in PagesUp(base, limit) <==> base % PAGE <= (limit - 1) % PAGE;
    if base % PAGE <= (limit - 1) % PAGE {
      forall a | base <= a < limit ensures a / PAGE in PagesUp(base, limit) {
        assert a / PAGE * PAGE + base % PAGE < limit;
      }
    }
  }

  lemma {:induction false} PagesDownAre(base: int, limit: int)
    requires 0 <= limit
    ensures forall p :: p in PagesDown(base, limit) <==>
                        0 <= p <= base / PAGE && base > limit && p * PAGE + base % PAGE > limit
    ensures |PagesDown(base, limit)| == StepsDown(base, limit)
    decreases base - limit
  {
    if base > limit {
      PagesDownAre(base - PAGE, limit);
      assert base / PAGE !in PagesDown(base - PAGE, limit);
      forall p ensures p in PagesDown(base, limit) <==> 0 <= p <= base / PAGE && p * PAGE + base % PAGE > limit {
        assert p in PagesDown(base, limit) <==> p == base / PAGE || p in PagesDown(base - PAGE, limit);
        assert (base - PAGE) / PAGE == base / PAGE - 1 && (base - PAGE) % PAGE == base % PAGE;
      }
    }
  }

  lemma AboveLimit(base: int, limit: int, a: int)
    requires 0 <= limit < a <= base && (limit + 1) % PAGE <= base % PAGE
    ensures 0 <= a / PAGE <= base / PAGE && a / PAGE * PAGE + base % PAGE > limit
  {
  }

  /** The stack loop's counterpart: the bytes above limit, up to base. */
  lemma PagesDownCover(base: int, limit: int)
    requires 0 <= limit < base
    ensures (forall a :: limit < a <= base ==> a / PAGE in PagesDown(base, limit))
            <==> (limit + 1) % PAGE <= base % PAGE
  {
    PagesDownAre(base, limit);
    hide PagesDown;
    assert (limit + 1) / PAGE in PagesDown(base, limit) <==> (limit + 1) % PAGE <= base % PAGE;
    if (limit + 1) % PAGE <= base % PAGE {
      forall a | limit < a <= base ensures a / PAGE in PagesDown(base, limit) {
        AboveLimit(base, limit, a);
      }
    }
  }

  // ---------------------------------------------------------------- one page

  /** Page p of the child is a frame out of the pool, with the bytes of the parent's page p;
      the window page shows the same frame; nothing else is translated or stored anew. */
  ghost predicate PageCopied(m: Mem, u: set<nat>, m': Mem, u': set<nat>, dirs: set<nat>, dp: nat, dc: nat, p: nat) {
    Walk(m, dp, p).Some? && Walk(m, dp, p).value.frame < FRAMES && Walk(m', dc, p).Some? &&
    var f := Walk(m', dc, p).value.frame;
    && f in u && u' == u - {f} && InU(f)
    && Walk(m', dc, p) == Some(Mapping(f, PTE_USER)) && Walk(m', dp, SHARE) == Some(Mapping(f, PTE_USER))
    && m'[f] == m[Walk(m, dp, p).value.frame]
    && (forall e, q :: e in dirs && 0 <= q < PAGES && !(e == dc && q == p) && !(e == dp && q == SHARE) ==>
          Walk(m', e, q) == Walk(m, e, q))
    && forall g :: 0 <= g < FRAMES && !InK(g) && g != f ==> m'[g] == m[g]
  }

  /** The child's page p is the parent's frame, read-only. */
  ghost predicate PageShared(m: Mem, m': Mem, dirs: set<nat>, dp: nat, dc: nat, p: nat) {
    Walk(m, dp, p).Some? && Remaps(m, m', dirs, dc, p, Some(Mapping(Walk(m, dp, p).value.frame, PTE_TEXT)))
  }

  /** Kernel frames for every table still to be made. */
  ghost predicate TablesSuffice(m: Mem, k: set<nat>, dp: nat, dc: nat, slots: set<nat>) {
    |k| >= |Lacking(m, dc, slots)| + |Lacking(m, dp, {SHARE / ENTRIES})|
  }

  lemma TableCosts(m: Mem, k: set<nat>, m': Mem, k': set<nat>, dirs: set<nat>, d: nat, i: nat, dp: nat, dc: nat,
                   slots: set<nat>)
    requires TableMade(m, k, m', k', dirs, d, i, 7) && TablesSuffice(m, k, dp, dc, slots)
    requires dp in dirs && dc in dirs && dp != dc && (forall j :: j in slots ==> 0 <= j < ENTRIES)
    requires (d == dc && i in slots) || (d == dp && i == SHARE / ENTRIES)
    ensures TablesSuffice(m', k', dp, dc, slots)
  {
    hide Slot, Present;
    var a, b := Lacking(m, dc, slots), Lacking(m, dp, {SHARE / ENTRIES});
    var a', b' := Lacking(m', dc, slots), Lacking(m', dp, {SHARE / ENTRIES});
    if Present(Slot(m, d, i)) {
      assert a' == a && b' == b;
    } else if d == dc {
      assert a' == a - {i} && b' == b && i in a;
    } else {
      assert a' == a && b' == b - {i} && i in b;
    }
  }

  lemma LackingMeansFrames(m: Mem, k: set<nat>, dp: nat, dc: nat, slots: set<nat>)
    requires TablesSuffice(m, k, dp, dc, slots)
    ensures forall i :: i in slots && !Present(Slot(m, dc, i)) ==> k != {}
    ensures !Present(Slot(m, dp, SHARE / ENTRIES)) ==> k != {}
  {
    if k == {} {
      assert Lacking(m, dc, slots) == {} && Lacking(m, dp, {SHARE / ENTRIES}) == {};
      forall i | i in slots ensures Present(Slot(m, dc, i)) {
        assert i !in Lacking(m, dc, slots);
      }
      assert SHARE / ENTRIES !in Lacking(m, dp, {SHARE / ENTRIES});
    }
  }

  /** `memcpy` between two pages of the running process. */
  method CopyBytes(m: Machine, pid: int, to: u32, from: u32)
    requires m.Valid() && pid in m.cr3 && m.cr3[pid] != 0
    requires Walk(m.mem, m.DirOf(pid), PageNr(to)).Some? && InU(Walk(m.mem, m.DirOf(pid), PageNr(to)).value.frame)
    requires Walk(m.mem, m.DirOf(pid), PageNr(from)).Some?
    requires Walk(m.mem, m.DirOf(pid), PageNr(from)).value.frame < FRAMES
    modifies m`mem
    ensures m.Valid()
    ensures m.mem == old(m.mem)[Walk(old(m.mem), m.DirOf(pid), PageNr(to)).value.frame :=
                                old(m.mem)[Walk(old(m.mem), m.DirOf(pid), PageNr(from)).value.frame]]
    ensures forall e, q :: e in m.Dirs() && 0 <= q < PAGES ==> Walk(m.mem, e, q) == Walk(old(m.mem), e, q)
    ensures forall e, i :: e in m.Dirs() && 0 <= i < ENTRIES ==> Slot(m.mem, e, i) == Slot(old(m.mem), e, i)
  {
    var t, s := Walk(m.mem, m.DirOf(pid), PageNr(to)), Walk(m.mem, m.DirOf(pid), PageNr(from));
    CopyFrame(m.mem, m.Dirs(), m.kfree, m.ufree, t.value.frame, s.value.frame);
    m.mem := m.mem[t.value.frame := m.mem[s.value.frame]];
  }

  /** The window has just been given a frame out of the pool. */
  ghost predicate WindowFilled(m: Mem, u: set<nat>, m': Mem, u': set<nat>, dirs: set<nat>, dp: nat) {
    Walk(m', dp, SHARE).Some? &&
    var n := Walk(m', dp, SHARE).value;
    && n.attr == PTE_USER && n.frame in u && u' == u - {n.frame} && InU(n.frame)
    && Remaps(m, m', dirs, dp, SHARE, Some(n))
  }

  lemma ThreeStepsCopy(m0: Mem, m2: Mem, m3: Mem, m4: Mem, u: set<nat>, u': set<nat>, dirs: set<nat>,
                       dp: nat, dc: nat, p: nat)
    requires dp in dirs && dc in dirs && dp != dc && p < USER_PAGES && p != SHARE
    requires Walk(m0, dp, p).Some? && InU(Walk(m0, dp, p).value.frame)
    requires WindowFilled(m0, u, m2, u', dirs, dp)
    requires m3 == m2[Walk(m2, dp, SHARE).value.frame := m2[Walk(m0, dp, p).value.frame]]
    requires forall e, q :: e in dirs && 0 <= q < PAGES ==> Walk(m3, e, q) == Walk(m2, e, q)
    requires Remaps(m3, m4, dirs, dc, p, Some(Mapping(Walk(m2, dp, SHARE).value.frame, PTE_USER)))
    ensures PageCopied(m0, u, m4, u', dirs, dp, dc, p)
  {
    hide Walk;
    var f := Walk(m2, dp, SHARE).value.frame;
    assert Walk(m4, dc, p) == Some(Mapping(f, PTE_USER));
    assert Walk(m4, dp, SHARE) == Walk(m3, dp, SHARE) == Walk(m2, dp, SHARE);
    forall e, q | e in dirs && 0 <= q < PAGES && !(e == dc && q == p) && !(e == dp && q == SHARE)
      ensures Walk(m4, e, q) == Walk(m0, e, q)
    {
      assert Walk(m4, e, q) == Walk(m3, e, q) == Walk(m2, e, q) == Walk(m0, e, q);
    }
  }

  lemma RemapsTwice(m0: Mem, m1: Mem, m2: Mem, dirs: set<nat>, d: nat, p: nat, s: Option<Mapping>, t: Option<Mapping>)
    requires Remaps(m0, m1, dirs, d, p, s) && Remaps(m1, m2, dirs, d, p, t)
    ensures Remaps(m0, m2, dirs, d, p, t)
  {
    hide Walk;
  }

  lemma ParentsFrame(m: Mem, dirs: set<nat>, k: set<nat>, u: set<nat>, d: nat, p: nat)
    requires Good(m, dirs, k, u) && d in dirs && p < USER_PAGES && Walk(m, d, p).Some?
    ensures InU(Walk(m, d, p).value.frame) && Walk(m, d, p).value.frame !in u
  {
  }

  /** What must hold of the two processes whenever a page is given to the child. */
  ghost predicate Forking(m: Machine, ppid: int, pid: int, slots: set<nat>)
    reads m
  {
    && m.Valid() && ppid in m.cr3 && pid in m.cr3 && m.cr3[ppid] != 0 && m.cr3[pid] != 0
    && m.DirOf(ppid) != m.DirOf(pid) && (forall j :: j in slots ==> 0 <= j < ENTRIES)
    && TablesSuffice(m.mem, m.kfree, m.DirOf(ppid), m.DirOf(pid), slots)
  }

  /** The window is cleared, so that it is then given a frame nobody uses. */
  method RefillWindow(m: Machine, ppid: int, pid: int, ghost slots: set<nat>)
    requires Forking(m, ppid, pid, slots) && m.ufree != {}
    modifies m`mem, m`kfree, m`ufree
    ensures Forking(m, ppid, pid, slots)
    ensures WindowFilled(old(m.mem), old(m.ufree), m.mem, m.ufree, m.Dirs(), m.DirOf(ppid))
    ensures SlotsKept(old(m.mem), m.mem, m.Dirs())
  {
    hide Good, Slot, Walk, Remaps, SameWalks, TableMade, TablesSuffice, InU, SlotsKept;
    ghost var dirs, dp, dc := m.Dirs(), m.DirOf(ppid), m.DirOf(pid);
    ghost var m0 := m.mem;
    assert dp in dirs && dc in dirs;
    IndicesArePage(SHARE_PAGE_BASE);
    LackingMeansFrames(m.mem, m.kfree, dp, dc, slots);
    var r := m.LinMappingPhy(SHARE_PAGE_BASE, 0, ppid, PDE_USER, 0);
    TableCosts(m0, old(m.kfree), m.mem, m.kfree, dirs, dp, SHARE / ENTRIES, dp, dc, slots);
    MadeKept(m0, old(m.kfree), m.mem, m.kfree, dirs, dp, SHARE / ENTRIES);
    DecodeEncode(0, 0);
    ghost var m1, k1 := m.mem, m.kfree;

    RemapsAt(m0, m1, dirs, dp, SHARE, None);
    LackingMeansFrames(m.mem, m.kfree, dp, dc, slots);
    r := m.LinMappingPhy(SHARE_PAGE_BASE, MAX_UNSIGNED_INT, ppid, PDE_USER, PTE_USER);
    TableCosts(m1, k1, m.mem, m.kfree, dirs, dp, SHARE / ENTRIES, dp, dc, slots);
    MadeKept(m1, k1, m.mem, m.kfree, dirs, dp, SHARE / ENTRIES);
    SlotsKeptTwice(m0, m1, m.mem, dirs);
    ParentsFrame(m.mem, dirs, m.kfree, m.ufree, dp, SHARE);
    RemapsTwice(m0, m1, m.mem, dirs, dp, SHARE, None, Walk(m.mem, dp, SHARE));
  }

  /** The body shared by five of the six loops. */
  method CopyPage(m: Machine, addr: u32, ppid: int, pid: int, ghost slots: set<nat>)
    requires Forking(m, ppid, pid, slots) && m.ufree != {}
    requires addr < KERNEL_LIN_BASE && PageNr(addr) != SHARE && PageNr(addr) / ENTRIES in slots
    requires Walk(m.mem, m.DirOf(ppid), PageNr(addr)).Some?
    modifies m`mem, m`kfree, m`ufree
    ensures Forking(m, ppid, pid, slots)
    ensures PageCopied(old(m.mem), old(m.ufree), m.mem, m.ufree, m.Dirs(), m.DirOf(ppid), m.DirOf(pid), PageNr(addr))
    ensures SlotsKept(old(m.mem), m.mem, m.Dirs())
  {
    hide Good, Slot, Walk, Remaps, SameWalks, TableMade, TablesSuffice, PageCopied, InU, SlotsKept;
    ghost var dirs, dp, dc := m.Dirs(), m.DirOf(ppid), m.DirOf(pid);
    ghost var p := PageNr(addr);
    ghost var m0 := m.mem;
    assert dp in dirs && dc in dirs;
    IndicesArePage(addr);
    ParentsFrame(m.mem, dirs, m.kfree, m.ufree, dp, p);

    RefillWindow(m, ppid, pid, slots);
    ghost var m2 := m.mem;
    RemapsElsewhere(m0, m2, dirs, dp, SHARE, Walk(m2, dp, SHARE), dp, p);
    UserFrame(Walk(m2, dp, p).value.frame);

    CopyBytes(m, ppid, SHARE_PAGE_BASE, addr - addr % PAGE);
    ghost var m3, k3 := m.mem, m.kfree;
    SlotsSame(m2, m3, dirs, k3, dp, dc, slots);
    SlotsKeptTwice(m0, m2, m3, dirs);
    LackingMeansFrames(m3, k3, dp, dc, slots);

    var phy := m.GetPagePhyAddr(ppid, SHARE_PAGE_BASE);
    EntryIsFrame(m, ppid, SHARE_PAGE_BASE);
    var r := m.LinMappingPhy(addr, phy, pid, PDE_USER, PTE_USER);
    DecodeEncode(FrameOf(phy), PTE_USER);
    TableCosts(m3, k3, m.mem, m.kfree, dirs, dc, p / ENTRIES, dp, dc, slots);
    MadeKept(m3, k3, m.mem, m.kfree, dirs, dc, p / ENTRIES);
    SlotsKeptTwice(m0, m3, m.mem, dirs);
    ThreeStepsCopy(m0, m2, m3, m.mem, old(m.ufree), m.ufree, dirs, dp, dc, p);
  }

  lemma UserFrame(f: nat)
    requires InU(f)
    ensures f < FRAMES
  {
  }

  lemma RemapsElsewhere(m: Mem, m': Mem, dirs: set<nat>, d: nat, p: nat, t: Option<Mapping>, e: nat, q: nat)
    requires Remaps(m, m', dirs, d, p, t) && e in dirs && q < PAGES && (e != d || q != p)
    ensures Walk(m', e, q) == Walk(m, e, q)
  {
  }

  lemma SlotsSame(m: Mem, m': Mem, dirs: set<nat>, k: set<nat>, dp: nat, dc: nat, slots: set<nat>)
    requires TablesSuffice(m, k, dp, dc, slots) && dp in dirs && dc in dirs
    requires forall j :: j in slots ==> 0 <= j < ENTRIES
    requires forall e, i :: e in dirs && 0 <= i < ENTRIES ==> Slot(m', e, i) == Slot(m, e, i)
    ensures TablesSuffice(m', k, dp, dc, slots) && SlotsKept(m, m', dirs)
  {
    assert Lacking(m', dc, slots) == Lacking(m, dc, slots);
    assert Lacking(m', dp, {SHARE / ENTRIES}) == Lacking(m, dp, {SHARE / ENTRIES});
  }

  /** `get_page_phy_addr` of a mapped user page is its frame's address. */
  lemma EntryIsFrame(m: Machine, ppid: int, addr: u32)
    requires m.Valid() && ppid in m.cr3 && m.cr3[ppid] != 0 && addr < KERNEL_LIN_BASE
    requires Walk(m.mem, m.DirOf(ppid), PageNr(addr)).Some?
    ensures var a := m.GetPagePhyAddr(ppid, addr);
            && FrameOf(a) == Walk(m.mem, m.DirOf(ppid), PageNr(addr)).value.frame
            && a % 0x400 == 0 && a != MAX_UNSIGNED_INT && InU(FrameOf(a)) && FrameOf(a) !in m.ufree
  {
    hide Good, Walk, Slot;
    assert m.DirOf(ppid) in m.Dirs();
    ParentsFrame(m.mem, m.Dirs(), m.kfree, m.ufree, m.DirOf(ppid), PageNr(addr));
    SomeNeedsTable(m.mem, m.DirOf(ppid), addr);
    m.WalkIsEntry(ppid, addr);
    FrameAddress(Walk(m.mem, m.DirOf(ppid), PageNr(addr)).value.frame);
  }

  /** The body of the code loop. */
  method SharePage(m: Machine, addr: u32, ppid: int, pid: int, ghost slots: set<nat>)
    requires Forking(m, ppid, pid, slots)
    requires addr < KERNEL_LIN_BASE && PageNr(addr) / ENTRIES in slots
    requires Walk(m.mem, m.DirOf(ppid), PageNr(addr)).Some?
    modifies m`mem, m`kfree, m`ufree
    ensures Forking(m, ppid, pid, slots) && m.ufree == old(m.ufree)
    ensures PageShared(old(m.mem), m.mem, m.Dirs(), m.DirOf(ppid), m.DirOf(pid), PageNr(addr))
    ensures SlotsKept(old(m.mem), m.mem, m.Dirs())
  {
    hide Good, Slot, Walk, Remaps, SameWalks, TableMade, TablesSuffice, InU, Decode, Encode, Present, SlotsKept;
    ghost var dirs, dp, dc := m.Dirs(), m.DirOf(ppid), m.DirOf(pid);
    assert dp in dirs && dc in dirs;
    IndicesArePage(addr);
    LackingMeansFrames(m.mem, m.kfree, dp, dc, slots);
    var f := m.GetPagePhyAddr(ppid, addr);
    EntryIsFrame(m, ppid, addr);
    var r := m.LinMappingPhy(addr, f, pid, PDE_USER, PTE_TEXT);
    DecodeEncode(FrameOf(f), PTE_TEXT);
    TableCosts(old(m.mem), old(m.kfree), m.mem, m.kfree, dirs, dc, PageNr(addr) / ENTRIES, dp, dc, slots);
    MadeKept(old(m.mem), old(m.kfree), m.mem, m.kfree, dirs, dc, PageNr(addr) / ENTRIES);
  }

  // ---------------------------------------------------------------- any number of pages

  /** Page q of the child stands on a frame that was free at the start, is free no longer, and
      holds what the parent's page held at the start. */
  ghost predicate Copied(m0: Mem, u0: set<nat>, m: Mem, u: set<nat>, dp: nat, dc: nat, q: nat) {
    && Walk(m0, dp, q).Some? && Walk(m0, dp, q).value.frame < FRAMES
    && Walk(m, dc, q).Some? && Walk(m, dc, q).value.attr == PTE_USER
    && Walk(m, dc, q).value.frame in u0 - u && InU(Walk(m, dc, q).value.frame)
    && m[Walk(m, dc, q).value.frame] == m0[Walk(m0, dp, q).value.frame]
  }

  /** Where a fork stands after sharing the pages in text and copying those in copied. */
  ghost predicate Forked(m0: Mem, u0: set<nat>, m: Mem, u: set<nat>, dirs: set<nat>, dp: nat, dc: nat,
                         text: set<nat>, copied: set<nat>)
  {
    && u <= u0
    && (forall e, q :: e in dirs && 0 <= q < PAGES ==>
          ((e == dp && q == SHARE) || (e == dc && (q in text || q in copied)) || Walk(m, e, q) == Walk(m0, e, q)))
    && (forall q :: q in text && q !in copied ==>
          Walk(m0, dp, q).Some? && Walk(m, dc, q) == Some(Mapping(Walk(m0, dp, q).value.frame, PTE_TEXT)))
    && (forall q :: q in copied ==> Copied(m0, u0, m, u, dp, dc, q))
    && Injective(m, dc, copied) && (copied != {} ==> WindowShows(m, dp, dc, copied))
    && forall f :: 0 <= f < FRAMES && !InK(f) && f !in u0 ==> m[f] == m0[f]
  }

  /** The parent's window page still shows a page the child was given. */
  ghost predicate WindowShows(m: Mem, dp: nat, dc: nat, copied: set<nat>) {
    exists q :: q in copied && Walk(m, dp, SHARE) == Walk(m, dc, q)
  }

  /** No two pages share a frame. */
  ghost predicate Injective(m: Mem, d: nat, pages: set<nat>) {
    forall q, r :: q in pages && r in pages && q != r ==>
      Walk(m, d, q).Some? && Walk(m, d, r).Some? && Walk(m, d, q).value.frame != Walk(m, d, r).value.frame
  }

  lemma SharedMore(m0: Mem, u0: set<nat>, m: Mem, u: set<nat>, m': Mem, dirs: set<nat>, dp: nat, dc: nat,
                   text: set<nat>, p: nat)
    requires Forked(m0, u0, m, u, dirs, dp, dc, text, {}) && PageShared(m, m', dirs, dp, dc, p)
    requires dp in dirs && dc in dirs && dp != dc && p < USER_PAGES && p != SHARE
    requires forall q :: q in text ==> 0 <= q < USER_PAGES
    ensures Forked(m0, u0, m', u, dirs, dp, dc, text + {p}, {})
  {
    hide Walk;
    assert Walk(m, dp, p) == Walk(m0, dp, p);
    forall q | q in text + {p}
      ensures Walk(m0, dp, q).Some? && Walk(m', dc, q) == Some(Mapping(Walk(m0, dp, q).value.frame, PTE_TEXT))
    {
      if q != p {
        assert q in text;
        assert Walk(m', dc, q) == Walk(m, dc, q);
      }
    }
  }

  lemma CopiedMore(m0: Mem, u0: set<nat>, m: Mem, u: set<nat>, m': Mem, u': set<nat>, dirs: set<nat>, dp: nat, dc: nat,
                   text: set<nat>, copied: set<nat>, p: nat)
    requires Forked(m0, u0, m, u, dirs, dp, dc, text, copied) && PageCopied(m, u, m', u', dirs, dp, dc, p)
    requires dp in dirs && dc in dirs && dp != dc && p < USER_PAGES && p != SHARE
    requires forall q :: q in text || q in copied ==> 0 <= q < USER_PAGES
    requires Walk(m0, dp, p).Some? && InU(Walk(m0, dp, p).value.frame) && Walk(m0, dp, p).value.frame !in u0
    ensures Forked(m0, u0, m', u', dirs, dp, dc, text, copied + {p})
  {
    hide Walk, InU, InK;
    var f := Walk(m', dc, p).value.frame;
    var src := Walk(m0, dp, p).value.frame;
    NotBoth(src);
    NotBoth(f);
    assert Walk(m, dp, p) == Walk(m0, dp, p);
    assert m'[f] == m[src] == m0[src];
    assert Copied(m0, u0, m', u', dp, dc, p);
    assert p in copied + {p} && Walk(m', dp, SHARE) == Walk(m', dc, p);
    forall q | q in copied && q != p
      ensures Copied(m0, u0, m', u', dp, dc, q) && Walk(m', dc, q) == Walk(m, dc, q)
      ensures Walk(m', dc, q).value.frame != f
    {
      assert Copied(m0, u0, m, u, dp, dc, q);
      assert Walk(m', dc, q) == Walk(m, dc, q);
      NotBoth(Walk(m, dc, q).value.frame);
    }
    assert Injective(m', dc, copied + {p});
    forall q | q in text && q !in copied + {p}
      ensures Walk(m0, dp, q).Some? && Walk(m', dc, q) == Some(Mapping(Walk(m0, dp, q).value.frame, PTE_TEXT))
    {
      assert Walk(m', dc, q) == Walk(m, dc, q);
    }
    forall e, q | e in dirs && 0 <= q < PAGES && !(e == dp && q == SHARE) &&
                  !(e == dc && (q in text || q in copied + {p}))
      ensures Walk(m', e, q) == Walk(m0, e, q)
    {
      assert Walk(m', e, q) == Walk(m, e, q);
    }
  }

  lemma NotBoth(f: nat)
    ensures InU(f) ==> !InK(f) && f < FRAMES
  {
  }

  // ---------------------------------------------------------------- the loops

  /** The pages are the user's, not the window, mapped by the parent, and their slots listed. */
  ghost predicate Fits(m0: Mem, dp: nat, pages: set<nat>, slots: set<nat>) {
    forall p :: p in pages ==> p < USER_PAGES && p != SHARE && p / ENTRIES in slots && Walk(m0, dp, p).Some?
  }

  /** A fork under way: the processes are sound, and the parent's pages are those of the start. */
  ghost predicate Underway(m: Machine, ppid: int, pid: int, slots: set<nat>, m0: Mem, u0: set<nat>, text: set<nat>,
                           copied: set<nat>)
    reads m
  {
    && Forking(m, ppid, pid, slots) && Mapped(m0, m.Dirs(), u0) && Fits(m0, m.DirOf(ppid), text + copied, slots)
    && Forked(m0, u0, m.mem, m.ufree, m.Dirs(), m.DirOf(ppid), m.DirOf(pid), text, copied)
    && SlotsKept(m0, m.mem, m.Dirs())
  }

  lemma StillMapped(m: Machine, ppid: int, pid: int, slots: set<nat>, m0: Mem, u0: set<nat>, text: set<nat>,
                    copied: set<nat>, p: nat)
    requires Underway(m, ppid, pid, slots, m0, u0, text, copied) && p < USER_PAGES && p != SHARE
    requires Walk(m0, m.DirOf(ppid), p).Some?
    ensures m.DirOf(ppid) in m.Dirs() && m.DirOf(pid) in m.Dirs()
    ensures Walk(m.mem, m.DirOf(ppid), p) == Walk(m0, m.DirOf(ppid), p)
    ensures InU(Walk(m0, m.DirOf(ppid), p).value.frame) && Walk(m0, m.DirOf(ppid), p).value.frame !in u0
  {
    hide Walk, Good, TablesSuffice, Injective, Copied;
  }

  method CopyOne(m: Machine, addr: u32, ppid: int, pid: int, ghost slots: set<nat>, ghost m0: Mem, ghost u0: set<nat>,
                 ghost text: set<nat>, ghost copied: set<nat>)
    requires Underway(m, ppid, pid, slots, m0, u0, text, copied) && m.ufree != {}
    requires Fits(m0, m.DirOf(ppid), {PageNr(addr)}, slots)
    modifies m`mem, m`kfree, m`ufree
    ensures Underway(m, ppid, pid, slots, m0, u0, text, copied + {PageNr(addr)})
    ensures |m.ufree| == |old(m.ufree)| - 1
  {
    hide Good, Walk, TablesSuffice, Forked, PageCopied, Mapped, SlotsKept;
    StillMapped(m, ppid, pid, slots, m0, u0, text, copied, PageNr(addr));
    CopyPage(m, addr, ppid, pid, slots);
    SlotsKeptTwice(m0, old(m.mem), m.mem, m.Dirs());
    CopiedMore(m0, u0, old(m.mem), old(m.ufree), m.mem, m.ufree, m.Dirs(), m.DirOf(ppid), m.DirOf(pid), text, copied,
               PageNr(addr));
    OneFewer(old(m.mem), old(m.ufree), m.mem, m.ufree, m.Dirs(), m.DirOf(ppid), m.DirOf(pid), PageNr(addr));
  }

  lemma OneFewer(m: Mem, u: set<nat>, m': Mem, u': set<nat>, dirs: set<nat>, dp: nat, dc: nat, p: nat)
    requires PageCopied(m, u, m', u', dirs, dp, dc, p)
    ensures |u'| == |u| - 1
  {
    hide Walk;
  }

  method CopyUp(m: Machine, r: Region, ppid: int, pid: int, ghost slots: set<nat>, ghost m0: Mem, ghost u0: set<nat>,
                ghost text: set<nat>, ghost copied: set<nat>)
    requires Underway(m, ppid, pid, slots, m0, u0, text, copied)
    requires r.limit <= KERNEL_LIN_BASE && |m.ufree| >= StepsUp(r.base, r.limit)
    requires Fits(m0, m.DirOf(ppid), PagesUp(r.base, r.limit), slots)
    modifies m`mem, m`kfree, m`ufree
    ensures Underway(m, ppid, pid, slots, m0, u0, text, copied + PagesUp(r.base, r.limit))
    ensures |m.ufree| == |old(m.ufree)| - StepsUp(r.base, r.limit)
  {
    hide Underway, Walk;
    var addr := r.base;
    ghost var done := {};
    assert copied + done == copied;
    while addr < r.limit
      invariant done + PagesUp(addr, r.limit) == PagesUp(r.base, r.limit)
      invariant Underway(m, ppid, pid, slots, m0, u0, text, copied + done)
      invariant |m.ufree| - StepsUp(addr, r.limit) == |old(m.ufree)| - StepsUp(r.base, r.limit)
      decreases r.limit - addr
    {
      CopyOne(m, addr, ppid, pid, slots, m0, u0, text, copied + done);
      assert copied + done + {PageNr(addr)} == copied + (done + {PageNr(addr)});
      done := done + {PageNr(addr)};
      addr := addr + PAGE;
    }
    assert done == PagesUp(r.base, r.limit);
  }

  method CopyDown(m: Machine, r: Region, ppid: int, pid: int, ghost slots: set<nat>, ghost m0: Mem, ghost u0: set<nat>,
                  ghost text: set<nat>, ghost copied: set<nat>)
    requires Underway(m, ppid, pid, slots, m0, u0, text, copied)
    requires PAGE <= r.limit && |m.ufree| >= StepsDown(r.base, r.limit)
    requires Fits(m0, m.DirOf(ppid), PagesDown(r.base, r.limit), slots)
    modifies m`mem, m`kfree, m`ufree
    ensures Underway(m, ppid, pid, slots, m0, u0, text, copied + PagesDown(r.base, r.limit))
    ensures |m.ufree| == |old(m.ufree)| - StepsDown(r.base, r.limit)
  {
    hide Underway, Walk;
    var addr := r.base;
    ghost var done := {};
    assert copied + done == copied;
    while addr > r.limit
      invariant done + PagesDown(addr, r.limit) == PagesDown(r.base, r.limit)
      invariant Underway(m, ppid, pid, slots, m0, u0, text, copied + done)
      invariant |m.ufree| - StepsDown(addr, r.limit) == |old(m.ufree)| - StepsDown(r.base, r.limit)
      decreases addr - r.limit
    {
      CopyOne(m, addr, ppid, pid, slots, m0, u0, text, copied + done);
      assert copied + done + {PageNr(addr)} == copied + (done + {PageNr(addr)});
      done := done + {PageNr(addr)};
      addr := addr - PAGE;
    }
    assert done == PagesDown(r.base, r.limit);
  }

  method ShareUp(m: Machine, r: Region, ppid: int, pid: int, ghost slots: set<nat>, ghost m0: Mem, ghost u0: set<nat>)
    requires Underway(m, ppid, pid, slots, m0, u0, {}, {})
    requires r.limit <= KERNEL_LIN_BASE && Fits(m0, m.DirOf(ppid), PagesUp(r.base, r.limit), slots)
    modifies m`mem, m`kfree, m`ufree
    ensures Underway(m, ppid, pid, slots, m0, u0, PagesUp(r.base, r.limit), {})
    ensures m.ufree == old(m.ufree)
  {
    hide Underway, Walk;
    var addr := r.base;
    ghost var done := {};
    while addr < r.limit
      invariant done + PagesUp(addr, r.limit) == PagesUp(r.base, r.limit)
      invariant Underway(m, ppid, pid, slots, m0, u0, done, {})
      invariant m.ufree == old(m.ufree)
      decreases r.limit - addr
    {
      ShareOne(m, addr, ppid, pid, slots, m0, u0, done);
      done := done + {PageNr(addr)};
      addr := addr + PAGE;
    }
    assert done == PagesUp(r.base, r.limit);
  }

  method ShareOne(m: Machine, addr: u32, ppid: int, pid: int, ghost slots: set<nat>, ghost m0: Mem, ghost u0: set<nat>,
                  ghost text: set<nat>)
    requires Underway(m, ppid, pid, slots, m0, u0, text, {})
    requires Fits(m0, m.DirOf(ppid), {PageNr(addr)}, slots)
    modifies m`mem, m`kfree, m`ufree
    ensures Underway(m, ppid, pid, slots, m0, u0, text + {PageNr(addr)}, {})
    ensures m.ufree == old(m.ufree)
  {
    hide Good, Walk, TablesSuffice, Forked, PageShared, Mapped, SlotsKept;
    StillMapped(m, ppid, pid, slots, m0, u0, text, {}, PageNr(addr));
    SharePage(m, addr, ppid, pid, slots);
    SlotsKeptTwice(m0, old(m.mem), m.mem, m.Dirs());
    SharedMore(m0, u0, old(m.mem), m.ufree, m.mem, m.Dirs(), m.DirOf(ppid), m.DirOf(pid), text, PageNr(addr));
  }

  // ---------------------------------------------------------------- the whole address space

  function CopiedPages(mm: MemMap): set<nat>
    requires PAGE <= mm.stack.limit
  {
    PagesUp(mm.data.base, mm.data.limit) + PagesUp(mm.vpage.base, mm.vpage.limit)
    + PagesUp(mm.heap.base, mm.heap.limit) + PagesDown(mm.stack.base, mm.stack.limit)
    + PagesUp(mm.arg.base, mm.arg.limit)
  }

  function TextPages(mm: MemMap): set<nat> {
    PagesUp(mm.text.base, mm.text.limit)
  }

  /** User frames the copy takes: one for each turn of each copying loop. */
  function FramesNeeded(mm: MemMap): nat {
    StepsUp(mm.data.base, mm.data.limit) + StepsUp(mm.vpage.base, mm.vpage.limit)
    + StepsUp(mm.heap.base, mm.heap.limit) + StepsDown(mm.stack.base, mm.stack.limit)
    + StepsUp(mm.arg.base, mm.arg.limit)
  }

  function SlotsOf(pages: set<nat>): set<nat> {
    set p | p in pages :: p / ENTRIES
  }

  /** Regions below 3 GiB, the stack's lower end above page 0. */
  predicate InUserSpace(mm: MemMap) {
    && mm.text.limit <= KERNEL_LIN_BASE && mm.data.limit <= KERNEL_LIN_BASE && mm.vpage.limit <= KERNEL_LIN_BASE
    && mm.heap.limit <= KERNEL_LIN_BASE && mm.arg.limit <= KERNEL_LIN_BASE && PAGE <= mm.stack.limit
  }

  /** Every page of the regions is mapped by the parent, is a user page and not the window. */
  ghost predicate Forkable(m: Mem, dp: nat, mm: MemMap) {
    InUserSpace(mm) &&
    forall p :: p in TextPages(mm) + CopiedPages(mm) ==> p < USER_PAGES && p != SHARE && Walk(m, dp, p).Some?
  }

  lemma ForkableFits(m: Mem, dp: nat, mm: MemMap)
    requires Forkable(m, dp, mm)
    ensures InUserSpace(mm)
    ensures Fits(m, dp, TextPages(mm) + CopiedPages(mm), SlotsOf(TextPages(mm) + CopiedPages(mm)))
    ensures forall j :: j in SlotsOf(TextPages(mm) + CopiedPages(mm)) ==> 0 <= j < ENTRIES
  {
    hide Walk, PagesUp, PagesDown;
  }

  lemma FitsPart(m: Mem, dp: nat, all: set<nat>, part: set<nat>, slots: set<nat>)
    requires Fits(m, dp, all, slots) && part <= all
    ensures Fits(m, dp, part, slots)
  {
    hide Walk;
  }

  /** `fork_mem_cpy` */
  method ForkMemCpy(m: Machine, mm: MemMap, ppid: int, pid: int)
    requires m.Valid() && ppid in m.cr3 && pid in m.cr3 && m.cr3[ppid] != 0 && m.cr3[pid] != 0
    requires m.DirOf(ppid) != m.DirOf(pid) && Forkable(m.mem, m.DirOf(ppid), mm)
    requires |m.ufree| >= FramesNeeded(mm)
    requires TablesSuffice(m.mem, m.kfree, m.DirOf(ppid), m.DirOf(pid), SlotsOf(TextPages(mm) + CopiedPages(mm)))
    modifies m`mem, m`kfree, m`ufree
    ensures m.Valid() && |m.ufree| == |old(m.ufree)| - FramesNeeded(mm)
    ensures Forked(old(m.mem), old(m.ufree), m.mem, m.ufree, m.Dirs(), m.DirOf(ppid), m.DirOf(pid), TextPages(mm),
                   CopiedPages(mm))
    ensures SlotsKept(old(m.mem), m.mem, m.Dirs())
  {
    hide SlotsKept, Walk, PagesUp, PagesDown, StepsUp, StepsDown, Good, Forked, TablesSuffice, Fits, Forkable;
    ghost var m0, u0, dp := m.mem, m.ufree, m.DirOf(ppid);
    ForkableFits(m0, dp, mm);
    ghost var all := TextPages(mm) + CopiedPages(mm);
    ghost var slots := SlotsOf(all);
    StartUnderway(m, ppid, pid, slots);
    hide Underway;

    FitsPart(m0, dp, all, TextPages(mm), slots);
    ShareUp(m, mm.text, ppid, pid, slots, m0, u0);
    ghost var t, c := TextPages(mm), {};
    assert c + PagesUp(mm.data.base, mm.data.limit) == PagesUp(mm.data.base, mm.data.limit);
    FitsPart(m0, dp, all, PagesUp(mm.data.base, mm.data.limit), slots);
    CopyUp(m, mm.data, ppid, pid, slots, m0, u0, t, c);
    c := PagesUp(mm.data.base, mm.data.limit);
    FitsPart(m0, dp, all, PagesUp(mm.vpage.base, mm.vpage.limit), slots);
    CopyUp(m, mm.vpage, ppid, pid, slots, m0, u0, t, c);
    c := c + PagesUp(mm.vpage.base, mm.vpage.limit);
    FitsPart(m0, dp, all, PagesUp(mm.heap.base, mm.heap.limit), slots);
    CopyUp(m, mm.heap, ppid, pid, slots, m0, u0, t, c);
    c := c + PagesUp(mm.heap.base, mm.heap.limit);
    FitsPart(m0, dp, all, PagesDown(mm.stack.base, mm.stack.limit), slots);
    CopyDown(m, mm.stack, ppid, pid, slots, m0, u0, t, c);
    c := c + PagesDown(mm.stack.base, mm.stack.limit);
    FitsPart(m0, dp, all, PagesUp(mm.arg.base, mm.arg.limit), slots);
    CopyUp(m, mm.arg, ppid, pid, slots, m0, u0, t, c);
    UnderwayMeans(m, ppid, pid, slots, m0, u0, t, CopiedPages(mm));
  }

  lemma StartUnderway(m: Machine, ppid: int, pid: int, slots: set<nat>)
    requires Forking(m, ppid, pid, slots)
    ensures Underway(m, ppid, pid, slots, m.mem, m.ufree, {}, {})
  {
    hide Walk, TablesSuffice;
  }

  lemma UnderwayMeans(m: Machine, ppid: int, pid: int, slots: set<nat>, m0: Mem, u0: set<nat>, text: set<nat>,
                      copied: set<nat>)
    requires Underway(m, ppid, pid, slots, m0, u0, text, copied)
    ensures m.Valid()
    ensures Forked(m0, u0, m.mem, m.ufree, m.Dirs(), m.DirOf(ppid), m.DirOf(pid), text, copied)
    ensures SlotsKept(m0, m.mem, m.Dirs())
  {
    hide Walk, TablesSuffice, Forked, SlotsKept;
  }

  // ---------------------------------------------------------------- what a fork means

  /** What a process reads at a page. */
  function Bytes(m: Mem, d: nat, p: nat): Option<Frame> {
    match Walk(m, d, p)
    case Some(n) => if n.frame < FRAMES then Some(m[n.frame]) else None
    case None => None
  }

  /** The child reads what the parent read, at every page of the regions. */
  lemma ChildReadsParents(m0: Mem, u0: set<nat>, m: Mem, u: set<nat>, dirs: set<nat>, dp: nat, dc: nat, text: set<nat>,
                          copied: set<nat>, p: nat)
    requires Forked(m0, u0, m, u, dirs, dp, dc, text, copied) && Mapped(m0, dirs, u0) && dp in dirs
    requires p in text || p in copied
    requires p < USER_PAGES
    ensures Bytes(m, dc, p).Some? && Bytes(m, dc, p) == Bytes(m0, dp, p)
  {
    hide Walk, InU, InK;
    if p in copied {
      assert Copied(m0, u0, m, u, dp, dc, p);
      NotBoth(Walk(m, dc, p).value.frame);
    } else {
      assert Walk(m, dc, p) == Some(Mapping(Walk(m0, dp, p).value.frame, PTE_TEXT));
      NotBoth(Walk(m0, dp, p).value.frame);
    }
  }

  /** The parent and everybody else read what they read before, but at the parent's window. */
  lemma OthersReadOn(m0: Mem, u0: set<nat>, m: Mem, u: set<nat>, dirs: set<nat>, dp: nat, dc: nat, text: set<nat>,
                     copied: set<nat>, e: nat, p: nat)
    requires Forked(m0, u0, m, u, dirs, dp, dc, text, copied) && Mapped(m0, dirs, u0) && dp != dc
    requires e in dirs && e != dc && p < USER_PAGES && !(e == dp && p == SHARE)
    ensures Walk(m, e, p) == Walk(m0, e, p) && Bytes(m, e, p) == Bytes(m0, e, p)
  {
    hide Walk, InU, InK, Copied;
    assert Walk(m, e, p) == Walk(m0, e, p);
    if Walk(m0, e, p).Some? {
      NotBoth(Walk(m0, e, p).value.frame);
    }
  }

  /** A copied page's frame stands behind no other page of any process, but the window. */
  lemma CopiesStandAlone(m0: Mem, u0: set<nat>, m: Mem, u: set<nat>, dirs: set<nat>, dp: nat, dc: nat, text: set<nat>,
                         copied: set<nat>, p: nat, e: nat, q: nat)
    requires Forked(m0, u0, m, u, dirs, dp, dc, text, copied) && Mapped(m0, dirs, u0) && dp in dirs && dp != dc
    requires p in copied
    requires e in dirs && q < USER_PAGES && Walk(m, e, q).Some? && !(e == dc && q == p) && !(e == dp && q == SHARE)
    ensures Walk(m, dc, p).Some? && InU(Walk(m, dc, p).value.frame)
    ensures Walk(m, e, q).value.frame != Walk(m, dc, p).value.frame
  {
    hide Walk, InU, InK;
    assert Copied(m0, u0, m, u, dp, dc, p);
    if e == dc && q in copied {
      assert Injective(m, dc, copied);
    } else if e == dc && q in text {
      assert Walk(m, dc, q) == Some(Mapping(Walk(m0, dp, q).value.frame, PTE_TEXT));
    } else {
      assert Walk(m, e, q) == Walk(m0, e, q);
    }
  }

  /** Storing a word through a mapped user page moves no translation. */
  lemma StoreKeepsWalks(m: Mem, dirs: set<nat>, k: set<nat>, u: set<nat>, f: nat, i: nat, w: u32, e: nat, q: nat)
    requires Good(m, dirs, k, u) && InU(f) && i < ENTRIES && e in dirs && q < PAGES
    ensures Walk(Put(m, f, i, w), e, q) == Walk(m, e, q)
  {
    assert Slot(Put(m, f, i, w), e, q / ENTRIES) == Slot(m, e, q / ENTRIES);
  }

  /** Isolation. A word the child stores in a copied page is read nowhere else, by it or by
      any other process, but at the parent's window. */
  lemma ChildStoreIsPrivate(m0: Mem, u0: set<nat>, m: Mem, k: set<nat>, u: set<nat>, dirs: set<nat>, dp: nat, dc: nat,
                            text: set<nat>, copied: set<nat>, p: nat, i: nat, w: u32, e: nat, q: nat)
    requires Forked(m0, u0, m, u, dirs, dp, dc, text, copied) && Mapped(m0, dirs, u0) && Good(m, dirs, k, u)
    requires dp in dirs && dc in dirs && dp != dc && p in copied && p < USER_PAGES && i < ENTRIES
    requires e in dirs && q < USER_PAGES && !(e == dp && q == SHARE)
    ensures Walk(m, dc, p).Some? && InU(Walk(m, dc, p).value.frame)
    ensures var m' := Put(m, Walk(m, dc, p).value.frame, i, w);
            if e == dc && q == p then Bytes(m, e, q).Some? && Bytes(m', e, q) == Some(Bytes(m, e, q).value[i := w])
            else Bytes(m', e, q) == Bytes(m, e, q)
  {
    hide Walk, Forked, Mapped, Good;
    CopyStands(m0, u0, m, u, dirs, dp, dc, text, copied, p);
    StoreKeepsWalks(m, dirs, k, u, Walk(m, dc, p).value.frame, i, w, e, q);
    if Walk(m, e, q).Some? && !(e == dc && q == p) {
      CopiesStandAlone(m0, u0, m, u, dirs, dp, dc, text, copied, p, e, q);
    }
  }

  lemma CopyStands(m0: Mem, u0: set<nat>, m: Mem, u: set<nat>, dirs: set<nat>, dp: nat, dc: nat, text: set<nat>,
                   copied: set<nat>, p: nat)
    requires Forked(m0, u0, m, u, dirs, dp, dc, text, copied) && p in copied
    ensures Walk(m, dc, p).Some? && InU(Walk(m, dc, p).value.frame)
  {
    hide Walk;
    assert Copied(m0, u0, m, u, dp, dc, p);
  }

  /** And a word stored by anybody else, elsewhere than at the window, is not read by the
      child at a copied page. */
  lemma OthersStoreUnseen(m0: Mem, u0: set<nat>, m: Mem, k: set<nat>, u: set<nat>, dirs: set<nat>, dp: nat, dc: nat,
                          text: set<nat>, copied: set<nat>, p: nat, i: nat, w: u32, e: nat, q: nat)
    requires Forked(m0, u0, m, u, dirs, dp, dc, text, copied) && Mapped(m0, dirs, u0) && Good(m, dirs, k, u)
    requires dp in dirs && dc in dirs && dp != dc && p in copied && p < USER_PAGES && i < ENTRIES
    requires e in dirs && q < USER_PAGES && !(e == dp && q == SHARE) && !(e == dc && q == p)
    requires Walk(m, e, q).Some? && InU(Walk(m, e, q).value.frame)
    ensures Bytes(Put(m, Walk(m, e, q).value.frame, i, w), dc, p) == Bytes(m, dc, p)
  {
    hide Walk, Forked, Mapped, Good;
    StoreKeepsWalks(m, dirs, k, u, Walk(m, e, q).value.frame, i, w, dc, p);
    CopiesStandAlone(m0, u0, m, u, dirs, dp, dc, text, copied, p, e, q);
  }

  // ---------------------------------------------------------------- any stores, by anybody

  /** A word stored through a user page of the process with directory d. */
  datatype Write = Write(d: nat, page: nat, index: nat, word: u32)

  ghost predicate Outside(w: Write, dirs: set<nat>, dp: nat) {
    w.d in dirs && w.page < USER_PAGES && w.index < ENTRIES && !(w.d == dp && w.page == SHARE)
  }

  /** An absent page takes no store. */
  function Written(m: Mem, w: Write): Mem {
    match Walk(m, w.d, w.page)
    case Some(t) => if t.frame < FRAMES && w.index < ENTRIES then Put(m, t.frame, w.index, w.word) else m
    case None => m
  }

  function WrittenAll(m: Mem, ws: seq<Write>): Mem
    decreases |ws|
  {
    if ws == [] then m else WrittenAll(Written(m, ws[0]), ws[1..])
  }

  predicate By(w: Write, d: nat, pages: set<nat>) {
    w.d == d && w.page in pages
  }

  /** A page that only its owner's stores reach. */
  function Replayed(b: Frame, ws: seq<Write>, d: nat, p: nat): Frame
    decreases |ws|
  {
    if ws == [] then b
    else Replayed(if By(ws[0], d, {p}) && ws[0].index < ENTRIES then b[ws[0].index := ws[0].word] else b, ws[1..], d, p)
  }

  function OthersOnly(ws: seq<Write>, d: nat, pages: set<nat>): (r: seq<Write>)
    ensures forall w :: w in r ==> w in ws
    decreases |ws|
  {
    if ws == [] then [] else (if By(ws[0], d, pages) then [] else [ws[0]]) + OthersOnly(ws[1..], d, pages)
  }

  /** User pages map user frames, and a copied page's frame shows nowhere else but in the window. */
  ghost predicate Alone(m: Mem, dirs: set<nat>, dp: nat, dc: nat, copied: set<nat>) {
    && (forall p :: p in copied ==> 0 <= p < USER_PAGES)
    && (forall e, q :: e in dirs && 0 <= q < USER_PAGES && Walk(m, e, q).Some? ==> InU(Walk(m, e, q).value.frame))
    && forall p, e, q :: p in copied && e in dirs && 0 <= q < USER_PAGES && Walk(m, e, q).Some? && Walk(m, dc, p).Some? ==>
         (e == dc && q == p) || (e == dp && q == SHARE) || Walk(m, e, q).value.frame != Walk(m, dc, p).value.frame
  }

  ghost predicate SameUserWalks(m: Mem, n: Mem, dirs: set<nat>) {
    forall e, q :: e in dirs && 0 <= q < USER_PAGES ==> Walk(n, e, q) == Walk(m, e, q)
  }

  lemma ForkedAlone(m0: Mem, u0: set<nat>, m: Mem, k: set<nat>, u: set<nat>, dirs: set<nat>, dp: nat, dc: nat,
                    text: set<nat>, copied: set<nat>)
    requires Forked(m0, u0, m, u, dirs, dp, dc, text, copied) && Mapped(m0, dirs, u0) && Good(m, dirs, k, u)
    requires dp in dirs && dp != dc && forall p :: p in copied ==> 0 <= p < USER_PAGES
    ensures Alone(m, dirs, dp, dc, copied)
  {
    GoodIsMapped(m, dirs, k, u);
    hide Walk, Forked, Good;
    forall p, e, q | p in copied && e in dirs && 0 <= q < USER_PAGES && Walk(m, e, q).Some? && Walk(m, dc, p).Some?
      ensures (e == dc && q == p) || (e == dp && q == SHARE) || Walk(m, e, q).value.frame != Walk(m, dc, p).value.frame
    {
      if !(e == dc && q == p) && !(e == dp && q == SHARE) {
        CopiesStandAlone(m0, u0, m, u, dirs, dp, dc, text, copied, p, e, q);
      }
    }
  }

  lemma StoreKeepsGood(m: Mem, dirs: set<nat>, k: set<nat>, u: set<nat>, f: nat, i: nat, w: u32)
    requires Good(m, dirs, k, u) && InU(f) && i < ENTRIES
    ensures Good(Put(m, f, i, w), dirs, k, u)
  {
    var m' := Put(m, f, i, w);
    forall e, j | e in dirs && 0 <= j < ENTRIES
      ensures Slot(m', e, j) == Slot(m, e, j)
    {
    }
    forall e, q | e in dirs && 0 <= q < PAGES
      ensures Walk(m', e, q) == Walk(m, e, q)
    {
      StoreKeepsWalks(m, dirs, k, u, f, i, w, e, q);
    }
    hide Walk, Slot;
  }

  /** One store: what it leaves of the tables, and what any page reads then. */
  lemma OneWrite(m: Mem, dirs: set<nat>, k: set<nat>, u: set<nat>, dp: nat, dc: nat, copied: set<nat>, w: Write)
    requires Good(m, dirs, k, u) && Alone(m, dirs, dp, dc, copied) && Outside(w, dirs, dp) && dc in dirs
    ensures var m' := Written(m, w);
            Good(m', dirs, k, u) && SameUserWalks(m, m', dirs) && Alone(m', dirs, dp, dc, copied)
    ensures Walk(m, w.d, w.page).Some? ==> Walk(m, w.d, w.page).value.frame < FRAMES
    ensures forall e, q :: e in dirs && 0 <= q < USER_PAGES ==>
      Bytes(Written(m, w), e, q)
      == if Bytes(m, e, q).Some? && Walk(m, w.d, w.page).Some? && Walk(m, w.d, w.page).value.frame == Walk(m, e, q).value.frame
         then Some(Bytes(m, e, q).value[w.index := w.word]) else Bytes(m, e, q)
  {
    hide Good, Walk;
    if Walk(m, w.d, w.page).Some? {
      var f := Walk(m, w.d, w.page).value.frame;
      StoreKeepsGood(m, dirs, k, u, f, w.index, w.word);
      forall e, q | e in dirs && 0 <= q < USER_PAGES
        ensures Walk(Written(m, w), e, q) == Walk(m, e, q)
      {
        StoreKeepsWalks(m, dirs, k, u, f, w.index, w.word, e, q);
      }
    }
  }

  /** Whatever is stored by whomever, outside the window, a copied page of the child reads its
      old words and the child's own stores, in order. */
  lemma {:induction false} StoresStayPrivate(m: Mem, dirs: set<nat>, k: set<nat>, u: set<nat>, dp: nat, dc: nat,
                                             copied: set<nat>, ws: seq<Write>, p: nat)
    requires Good(m, dirs, k, u) && Alone(m, dirs, dp, dc, copied) && forall w :: w in ws ==> Outside(w, dirs, dp)
    requires dc in dirs && p in copied && p < USER_PAGES && Bytes(m, dc, p).Some?
    ensures Bytes(WrittenAll(m, ws), dc, p) == Some(Replayed(Bytes(m, dc, p).value, ws, dc, p))
    decreases |ws|
  {
    if ws != [] {
      hide Good, Walk, Written, Outside;
      OneWrite(m, dirs, k, u, dp, dc, copied, ws[0]);
      WriteHits(m, dirs, dp, dc, copied, ws[0], p);
      StoresStayPrivate(Written(m, ws[0]), dirs, k, u, dp, dc, copied, ws[1..], p);
    }
  }

  lemma WriteHits(m: Mem, dirs: set<nat>, dp: nat, dc: nat, copied: set<nat>, w: Write, p: nat)
    requires Alone(m, dirs, dp, dc, copied) && Outside(w, dirs, dp) && dc in dirs && p in copied && Bytes(m, dc, p).Some?
    requires p < USER_PAGES
    ensures w.index < ENTRIES
    ensures Walk(m, w.d, w.page).Some? && Walk(m, w.d, w.page).value.frame == Walk(m, dc, p).value.frame <==> By(w, dc, {p})
  {
    hide Walk;
  }

  /** And nobody else, outside the window, reads any of it: leave the child's stores into its
      copied pages out, and every other page holds the same. */
  lemma {:induction false} StoresUnseen(m: Mem, n: Mem, dirs: set<nat>, k: set<nat>, u: set<nat>, dp: nat, dc: nat,
                                        copied: set<nat>, ws: seq<Write>, e: nat, q: nat)
    requires Good(m, dirs, k, u) && Alone(m, dirs, dp, dc, copied) && forall w :: w in ws ==> Outside(w, dirs, dp)
    requires Good(n, dirs, k, u) && SeenAlike(m, n, dirs, dp, dc, copied) && dc in dirs
    requires e in dirs && q < USER_PAGES && !(e == dp && q == SHARE) && !(e == dc && q in copied)
    ensures Bytes(WrittenAll(m, ws), e, q) == Bytes(WrittenAll(n, OthersOnly(ws, dc, copied)), e, q)
    decreases |ws|
  {
    if ws == [] {
      return;
    }
    hide Good, Walk, Written, Bytes, Outside, Alone, By, SeenAlike;
    OneWrite(m, dirs, k, u, dp, dc, copied, ws[0]);
    AlikeAfter(m, n, dirs, k, u, dp, dc, copied, ws[0]);
    var n' := if By(ws[0], dc, copied) then n else Written(n, ws[0]);
    StoresUnseen(Written(m, ws[0]), n', dirs, k, u, dp, dc, copied, ws[1..], e, q);
    OthersStep(n, ws, dc, copied);
  }

  lemma OthersStep(n: Mem, ws: seq<Write>, d: nat, pages: set<nat>)
    requires ws != []
    ensures WrittenAll(n, OthersOnly(ws, d, pages))
         == WrittenAll(if By(ws[0], d, pages) then n else Written(n, ws[0]), OthersOnly(ws[1..], d, pages))
  {
    hide By, Written;
    var r := OthersOnly(ws, d, pages);
    if By(ws[0], d, pages) {
      assert r == OthersOnly(ws[1..], d, pages);
    } else {
      assert r[0] == ws[0] && r[1..] == OthersOnly(ws[1..], d, pages);
    }
  }

  /** The same translations, and the same bytes but in the child's copied pages and the window. */
  ghost predicate SeenAlike(m: Mem, n: Mem, dirs: set<nat>, dp: nat, dc: nat, copied: set<nat>) {
    && SameUserWalks(m, n, dirs)
    && forall e, q :: e in dirs && 0 <= q < USER_PAGES && !(e == dp && q == SHARE) && !(e == dc && q in copied) ==>
         Bytes(n, e, q) == Bytes(m, e, q)
  }

  lemma AlikeAfter(m: Mem, n: Mem, dirs: set<nat>, k: set<nat>, u: set<nat>, dp: nat, dc: nat, copied: set<nat>, w: Write)
    requires Good(m, dirs, k, u) && Alone(m, dirs, dp, dc, copied) && Outside(w, dirs, dp) && dc in dirs
    requires Good(n, dirs, k, u) && SeenAlike(m, n, dirs, dp, dc, copied)
    ensures var n' := if By(w, dc, copied) then n else Written(n, w);
            Good(n', dirs, k, u) && SeenAlike(Written(m, w), n', dirs, dp, dc, copied)
  {
    hide Good, Walk, Written;
    assert Alone(n, dirs, dp, dc, copied);
    OneWrite(m, dirs, k, u, dp, dc, copied, w);
    OneWrite(n, dirs, k, u, dp, dc, copied, w);
  }

  /** Isolation after a fork, for any stores by any processes but through the window. */
  lemma ForkIsolates(m0: Mem, u0: set<nat>, m: Mem, k: set<nat>, u: set<nat>, dirs: set<nat>, dp: nat, dc: nat,
                     text: set<nat>, copied: set<nat>, ws: seq<Write>)
    requires Forked(m0, u0, m, u, dirs, dp, dc, text, copied) && Mapped(m0, dirs, u0) && Good(m, dirs, k, u)
    requires dp in dirs && dc in dirs && dp != dc && forall p :: p in copied ==> 0 <= p < USER_PAGES
    requires forall w :: w in ws ==> Outside(w, dirs, dp)
    ensures forall p :: p in copied ==>
      Bytes(m, dc, p).Some? && Bytes(WrittenAll(m, ws), dc, p) == Some(Replayed(Bytes(m, dc, p).value, ws, dc, p))
    ensures forall e, q :: e in dirs && 0 <= q < USER_PAGES && !(e == dp && q == SHARE) && !(e == dc && q in copied) ==>
      Bytes(WrittenAll(m, ws), e, q) == Bytes(WrittenAll(m, OthersOnly(ws, dc, copied)), e, q)
  {
    hide Walk, Forked, Mapped, Good, Alone, Written, WrittenAll, Replayed, OthersOnly, Outside;
    ForkedAlone(m0, u0, m, k, u, dirs, dp, dc, text, copied);
    forall p | p in copied
      ensures Bytes(m, dc, p).Some? && Bytes(WrittenAll(m, ws), dc, p) == Some(Replayed(Bytes(m, dc, p).value, ws, dc, p))
    {
      CopyStands(m0, u0, m, u, dirs, dp, dc, text, copied, p);
      StoresStayPrivate(m, dirs, k, u, dp, dc, copied, ws, p);
    }
    forall e, q | e in dirs && 0 <= q < USER_PAGES && !(e == dp && q == SHARE) && !(e == dc && q in copied)
      ensures Bytes(WrittenAll(m, ws), e, q) == Bytes(WrittenAll(m, OthersOnly(ws, dc, copied)), e, q)
    {
      StoresUnseen(m, m, dirs, k, u, dp, dc, copied, ws, e, q);
    }
  }

  /** The exception is real: if anything was copied, some page of the child reads whatever the
      parent stores at the window. */
  lemma WindowLeaks(m0: Mem, u0: set<nat>, m: Mem, k: set<nat>, u: set<nat>, dirs: set<nat>, dp: nat, dc: nat,
                    text: set<nat>, copied: set<nat>, i: nat, w: u32) returns (p: nat)
    requires Forked(m0, u0, m, u, dirs, dp, dc, text, copied) && Good(m, dirs, k, u) && copied != {}
    requires dp in dirs && dc in dirs && i < ENTRIES && forall q :: q in copied ==> 0 <= q < USER_PAGES
    ensures p in copied && Walk(m, dp, SHARE).Some? && InU(Walk(m, dp, SHARE).value.frame)
    ensures Bytes(m, dc, p).Some?
    ensures Bytes(Put(m, Walk(m, dp, SHARE).value.frame, i, w), dc, p) == Some(Bytes(m, dc, p).value[i := w])
  {
    hide Walk, Good;
    assert WindowShows(m, dp, dc, copied);
    p :| p in copied && Walk(m, dp, SHARE) == Walk(m, dc, p);
    assert Copied(m0, u0, m, u, dp, dc, p);
    StoreKeepsWalks(m, dirs, k, u, Walk(m, dp, SHARE).value.frame, i, w, dc, p);
  }

  // ---------------------------------------------------------------- the system call

  /** A copy of the parent's user space: same bytes at the regions' pages, nothing at other
      user pages, the kernel half as in every process, and nobody else's view altered. */
  ghost predicate Duplicated(m0: Mem, m: Mem, dirs: set<nat>, dp: nat, dc: nat, mm: MemMap)
    requires InUserSpace(mm)
  {
    && (forall p :: p in TextPages(mm) + CopiedPages(mm) ==> Bytes(m, dc, p).Some? && Bytes(m, dc, p) == Bytes(m0, dp, p))
    && (forall p :: 0 <= p < PAGES && p !in TextPages(mm) + CopiedPages(mm) ==> Walk(m, dc, p) == KernelHalf(p, KERNEL_PAGES))
    && (forall e, p :: e in dirs && e != dc && 0 <= p < PAGES && !(e == dp && p == SHARE) ==> Walk(m, e, p) == Walk(m0, e, p))
    && (forall e, p :: e in dirs && e != dc && 0 <= p < USER_PAGES && !(e == dp && p == SHARE) ==>
          Bytes(m, e, p) == Bytes(m0, e, p))
  }

  /** The child has the parent's bytes from lo to hi - 1 on frames of its own, out of the pool,
      which it may read and write: the bits of page and table are those of a user's own. */
  ghost predicate OwnCopy(m0: Mem, u0: set<nat>, m: Mem, u: set<nat>, dp: nat, dc: nat, lo: int, hi: int) {
    forall p :: 0 <= p && lo / 0x1000 <= p <= (hi - 1) / 0x1000 ==>
      && Bytes(m, dc, p).Some? && Bytes(m, dc, p) == Bytes(m0, dp, p)
      && Walk(m, dc, p).Some? && Walk(m, dc, p).value.attr == 7 && Walk(m, dc, p).value.frame in u0 - u
      && Slot(m, dc, p / 1024) % 8 == 7
  }

  /** It reads the parent's bytes from lo to hi - 1; by a table open to users. */
  ghost predicate SameView(m0: Mem, m: Mem, dp: nat, dc: nat, lo: int, hi: int) {
    forall p :: 0 <= p && lo / 0x1000 <= p <= (hi - 1) / 0x1000 ==>
      && Bytes(m, dc, p).Some? && Bytes(m, dc, p) == Bytes(m0, dp, p) && Slot(m, dc, p / 1024) % 8 == 7
  }

  /** The last step of an upward loop reaches the region's last page. */
  predicate Reached(base: int, limit: int) {
    base < limit && base % 0x1000 <= (limit - 1) % 0x1000
  }

  /** What the regions of the memory map become, one by one. */
  ghost predicate AllRegions(m0: Mem, u0: set<nat>, m: Mem, u: set<nat>, dp: nat, dc: nat, mm: MemMap) {
    && (Reached(mm.text.base, mm.text.limit) ==> SameView(m0, m, dp, dc, mm.text.base, mm.text.limit))
    && (Reached(mm.data.base, mm.data.limit) ==> OwnCopy(m0, u0, m, u, dp, dc, mm.data.base, mm.data.limit))
    && (Reached(mm.vpage.base, mm.vpage.limit) ==> OwnCopy(m0, u0, m, u, dp, dc, mm.vpage.base, mm.vpage.limit))
    && (Reached(mm.heap.base, mm.heap.limit) ==> OwnCopy(m0, u0, m, u, dp, dc, mm.heap.base, mm.heap.limit))
    && (Reached(mm.arg.base, mm.arg.limit) ==> OwnCopy(m0, u0, m, u, dp, dc, mm.arg.base, mm.arg.limit))
    && (mm.stack.limit < mm.stack.base && (mm.stack.limit + 1) % 0x1000 <= mm.stack.base % 0x1000 ==>
          OwnCopy(m0, u0, m, u, dp, dc, mm.stack.limit + 1, mm.stack.base + 1))
  }

  lemma UpPage(base: int, limit: int, p: int)
    requires 0 <= base && Reached(base, limit) && base / 0x1000 <= p <= (limit - 1) / 0x1000
    ensures p in PagesUp(base, limit)
  {
    PagesUpAre(base, limit);
  }

  lemma DownPage(base: int, limit: int, p: int)
    requires 0 <= limit < base && (limit + 1) % 0x1000 <= base % 0x1000
    requires (limit + 1) / 0x1000 <= p <= base / 0x1000
    ensures p in PagesDown(base, limit)
  {
    PagesDownAre(base, limit);
  }

  lemma OpenTable(start: Mem, m: Mem, dirs: set<nat>, dc: nat, p: nat)
    requires SlotsKept(start, m, dirs) && dc in dirs && p < USER_PAGES && Walk(m, dc, p).Some?
    requires forall i :: 0 <= i < 768 ==> Slot(start, dc, i) % 2 == 0
    ensures Slot(m, dc, p / 1024) % 8 == 7
  {
    hide Slot;
    LowBits(Slot(m, dc, p / 1024));
  }

  /** What SysFork knows when it is done. */
  ghost predicate ForkDone(m0: Mem, start: Mem, u0: set<nat>, m: Mem, u: set<nat>, dirs: set<nat>, dp: nat, dc: nat,
                           mm: MemMap)
  {
    && InUserSpace(mm) && dc in dirs && Duplicated(m0, m, dirs, dp, dc, mm)
    && Forked(start, u0, m, u, dirs, dp, dc, TextPages(mm), CopiedPages(mm)) && SlotsKept(start, m, dirs)
    && (forall p :: p in TextPages(mm) + CopiedPages(mm) ==> 0 <= p < USER_PAGES)
    && forall i :: 0 <= i < 768 ==> Slot(start, dc, i) % 2 == 0
  }

  lemma PageDone(m0: Mem, start: Mem, u0: set<nat>, m: Mem, u: set<nat>, dirs: set<nat>, dp: nat, dc: nat, mm: MemMap,
                 p: nat)
    requires ForkDone(m0, start, u0, m, u, dirs, dp, dc, mm) && p in TextPages(mm) + CopiedPages(mm)
    ensures Bytes(m, dc, p).Some? && Bytes(m, dc, p) == Bytes(m0, dp, p) && Slot(m, dc, p / 1024) % 8 == 7
    ensures p in CopiedPages(mm) ==>
      Walk(m, dc, p).Some? && Walk(m, dc, p).value.attr == 7 && Walk(m, dc, p).value.frame in u0 - u
  {
    hide Walk, Slot, TextPages, CopiedPages, SlotsKept;
    assert Walk(m, dc, p).Some?;
    OpenTable(start, m, dirs, dc, p);
    assert p in CopiedPages(mm) ==> Copied(start, u0, m, u, dp, dc, p);
  }

  /** The pages of the six loops are the pages of the six regions: every region that its loop
      covers is there, the stack from its lower end up. */
  lemma AllRegionsThere(m0: Mem, start: Mem, u0: set<nat>, m: Mem, u: set<nat>, dirs: set<nat>, dp: nat, dc: nat, mm: MemMap)
    requires ForkDone(m0, start, u0, m, u, dirs, dp, dc, mm)
    ensures AllRegions(m0, u0, m, u, dp, dc, mm)
  {
    hide OwnCopy, SameView, ForkDone, PagesUp, PagesDown, Reached, CopiedPages, TextPages;
    RegionsInside(m0, start, u0, m, u, dirs, dp, dc, mm);
    TextRegion(m0, start, u0, m, u, dirs, dp, dc, mm);
    UpRegion(m0, start, u0, m, u, dirs, dp, dc, mm, mm.data);
    UpRegion(m0, start, u0, m, u, dirs, dp, dc, mm, mm.vpage);
    UpRegion(m0, start, u0, m, u, dirs, dp, dc, mm, mm.heap);
    UpRegion(m0, start, u0, m, u, dirs, dp, dc, mm, mm.arg);
    if mm.stack.limit < mm.stack.base && (mm.stack.limit + 1) % 0x1000 <= mm.stack.base % 0x1000 {
      StackRegion(m0, start, u0, m, u, dirs, dp, dc, mm);
    }
  }

  lemma RegionsInside(m0: Mem, start: Mem, u0: set<nat>, m: Mem, u: set<nat>, dirs: set<nat>, dp: nat, dc: nat, mm: MemMap)
    requires ForkDone(m0, start, u0, m, u, dirs, dp, dc, mm)
    ensures InUserSpace(mm)
    ensures PagesUp(mm.data.base, mm.data.limit) <= CopiedPages(mm) && PagesUp(mm.vpage.base, mm.vpage.limit) <= CopiedPages(mm)
    ensures PagesUp(mm.heap.base, mm.heap.limit) <= CopiedPages(mm) && PagesUp(mm.arg.base, mm.arg.limit) <= CopiedPages(mm)
  {
    hide Walk, Slot, Duplicated, Forked, SlotsKept, PagesUp, PagesDown;
  }

  lemma TextRegion(m0: Mem, start: Mem, u0: set<nat>, m: Mem, u: set<nat>, dirs: set<nat>, dp: nat, dc: nat, mm: MemMap)
    requires ForkDone(m0, start, u0, m, u, dirs, dp, dc, mm)
    ensures Reached(mm.text.base, mm.text.limit) ==> SameView(m0, m, dp, dc, mm.text.base, mm.text.limit)
  {
    hide Walk, Slot, Bytes, Copied, ForkDone, PagesUp, PagesDown, Reached;
    if Reached(mm.text.base, mm.text.limit) {
      forall p | 0 <= p && mm.text.base / 0x1000 <= p <= (mm.text.limit - 1) / 0x1000
        ensures Bytes(m, dc, p).Some? && Bytes(m, dc, p) == Bytes(m0, dp, p) && Slot(m, dc, p / 1024) % 8 == 7
      {
        UpPage(mm.text.base, mm.text.limit, p);
        PageDone(m0, start, u0, m, u, dirs, dp, dc, mm, p);
      }
    }
  }

  lemma UpRegion(m0: Mem, start: Mem, u0: set<nat>, m: Mem, u: set<nat>, dirs: set<nat>, dp: nat, dc: nat, mm: MemMap,
                 r: Region)
    requires ForkDone(m0, start, u0, m, u, dirs, dp, dc, mm) && PagesUp(r.base, r.limit) <= CopiedPages(mm)
    ensures Reached(r.base, r.limit) ==> OwnCopy(m0, u0, m, u, dp, dc, r.base, r.limit)
  {
    hide Walk, Slot, Bytes, Copied, ForkDone, PagesUp, CopiedPages, Reached;
    if Reached(r.base, r.limit) {
      forall p | 0 <= p && r.base / 0x1000 <= p <= (r.limit - 1) / 0x1000
        ensures Bytes(m, dc, p).Some? && Bytes(m, dc, p) == Bytes(m0, dp, p)
        ensures Walk(m, dc, p).Some? && Walk(m, dc, p).value.attr == 7 && Walk(m, dc, p).value.frame in u0 - u
        ensures Slot(m, dc, p / 1024) % 8 == 7
      {
        UpPage(r.base, r.limit, p);
        PageDone(m0, start, u0, m, u, dirs, dp, dc, mm, p);
      }
    }
  }

  lemma StackRegion(m0: Mem, start: Mem, u0: set<nat>, m: Mem, u: set<nat>, dirs: set<nat>, dp: nat, dc: nat, mm: MemMap)
    requires ForkDone(m0, start, u0, m, u, dirs, dp, dc, mm)
    requires mm.stack.limit < mm.stack.base && (mm.stack.limit + 1) % 0x1000 <= mm.stack.base % 0x1000
    ensures OwnCopy(m0, u0, m, u, dp, dc, mm.stack.limit + 1, mm.stack.base + 1)
  {
    hide Walk, Slot, Bytes, Copied, ForkDone, PagesUp, PagesDown;
    forall p | 0 <= p && (mm.stack.limit + 1) / 0x1000 <= p <= mm.stack.base / 0x1000
      ensures Bytes(m, dc, p).Some? && Bytes(m, dc, p) == Bytes(m0, dp, p)
      ensures Walk(m, dc, p).Some? && Walk(m, dc, p).value.attr == 7 && Walk(m, dc, p).value.frame in u0 - u
      ensures Slot(m, dc, p / 1024) % 8 == 7
    {
      DownPage(mm.stack.base, mm.stack.limit, p);
      PageDone(m0, start, u0, m, u, dirs, dp, dc, mm, p);
    }
  }

  /** Byte by byte: a fork gives the child what its parent reads at every address of the five
      copied regions, on a frame of its own that it may write to. */
  lemma AddressCopied(m0: Mem, u0: set<nat>, m: Mem, u: set<nat>, dp: nat, dc: nat, lo: nat, hi: nat, a: nat)
    requires OwnCopy(m0, u0, m, u, dp, dc, lo, hi) && lo <= a < hi
    ensures Bytes(m, dc, a / 0x1000).Some? && Bytes(m, dc, a / 0x1000) == Bytes(m0, dp, a / 0x1000)
    ensures Walk(m, dc, a / 0x1000).Some? && Walk(m, dc, a / 0x1000).value.attr == 7
    ensures Walk(m, dc, a / 0x1000).value.frame in u0 - u && Slot(m, dc, a / 0x40_0000) % 8 == 7
  {
    hide Walk, Slot, Bytes;
    assert a / 0x1000 / 1024 == a / 0x40_0000;
  }

  // Words of the saved register frame.
  const EAX: nat := 11
  const EFLAGS: nat := 15

  type Registers = s: seq<u32> | |s| == 18 witness seq<u32>(18, _ => 0)

  datatype Stat = Idle | Ready | Sleeping | Killed

  /** A process table entry with the register frame on its kernel stack; `other` stands for
      the fields that are copied as they are. */
  class Process {
    var pid: int
    var stat: Stat
    var cr3: u32
    var ldtSel: u32
    var espSaveInt: u32
    var espSaveContext: u32
    var memmap: MemMap
    var ticks: int
    var priority: int
    var other: seq<u32>
    var frame: Registers
  }

  /** The entry's cr3 is the one paging works with. */
  predicate Agrees(m: Machine, p: Process)
    reads m, p
  {
    p.pid in m.cr3 && m.cr3[p.pid] == p.cr3
  }

  /** `fork_pcb_cpy`: the child keeps what identifies it, its page directory and its kernel
      stack above all, and becomes the parent otherwise. */
  method ForkPcbCpy(child: Process, parent: Process)
    requires child != parent
    modifies child
    ensures child.pid == old(child.pid) && child.cr3 == old(child.cr3) && child.ldtSel == old(child.ldtSel)
    ensures child.espSaveInt == old(child.espSaveInt) && child.espSaveContext == old(child.espSaveContext)
    ensures child.stat == Idle && child.memmap == parent.memmap && child.ticks == parent.ticks
    ensures child.priority == parent.priority && child.other == parent.other
    ensures forall i :: 0 <= i < 18 ==> child.frame[i] == if i == 15 then old(child.frame)[i] else parent.frame[i]
  {
    var pid, eflags, ldtSel, cr3 := child.pid, child.frame[EFLAGS], child.ldtSel, child.cr3;
    var espInt, espContext := child.espSaveInt, child.espSaveContext;
    child.pid, child.stat, child.cr3, child.ldtSel := parent.pid, parent.stat, parent.cr3, parent.ldtSel;
    child.espSaveInt, child.espSaveContext := parent.espSaveInt, parent.espSaveContext;
    child.memmap, child.ticks, child.priority, child.other := parent.memmap, parent.ticks, parent.priority, parent.other;
    child.stat := Idle;
    child.espSaveInt, child.espSaveContext := espInt, espContext;
    child.frame := parent.frame;
    child.pid := pid;
    child.frame := child.frame[EFLAGS := eflags];
    child.ldtSel, child.cr3 := ldtSel, cr3;
  }

  /** `sys_fork`, without names and process tree: `init_page_pte`, `fork_pcb_cpy`, then
      `fork_mem_cpy`. No table entry, no child. */
  method SysFork(m: Machine, parent: Process, child: Process?) returns (r: int, ghost start: Mem)
    requires m.Valid() && Agrees(m, parent) && parent.cr3 != 0 && child != parent
    requires child != null ==> child.pid != parent.pid
    requires Forkable(m.mem, m.DirOf(parent.pid), parent.memmap) && |m.ufree| >= FramesNeeded(parent.memmap)
    requires |m.kfree| >= 1 + KERNEL_TABLES + |SlotsOf(TextPages(parent.memmap) + CopiedPages(parent.memmap))|
                          + |Lacking(m.mem, m.DirOf(parent.pid), {SHARE / ENTRIES})|
    modifies m, child
    ensures m.Valid() && Agrees(m, parent)
    ensures child == null ==> r == -1 && m.mem == old(m.mem) && m.cr3 == old(m.cr3)
    ensures child != null ==>
      && r == child.pid == old(child.pid) && Agrees(m, child) && child.stat == Ready && child.memmap == parent.memmap
      && child.ticks == parent.ticks && child.priority == parent.priority && child.other == parent.other
      && child.ldtSel == old(child.ldtSel) && child.espSaveInt == old(child.espSaveInt)
      && child.espSaveContext == old(child.espSaveContext)
      && (forall i :: 0 <= i < 18 ==>
            child.frame[i] == if i == 11 then 0 else if i == 15 then old(child.frame)[i] else parent.frame[i])
      && child.cr3 != 0 && m.DirOf(child.pid) != m.DirOf(parent.pid)
      && |m.ufree| == |old(m.ufree)| - FramesNeeded(parent.memmap)
      && InUserSpace(parent.memmap)
      && Duplicated(old(m.mem), m.mem, m.Dirs(), m.DirOf(parent.pid), m.DirOf(child.pid), parent.memmap)
      && Mapped(start, m.Dirs(), old(m.ufree))
      && Forked(start, old(m.ufree), m.mem, m.ufree, m.Dirs(), m.DirOf(parent.pid), m.DirOf(child.pid),
                TextPages(parent.memmap), CopiedPages(parent.memmap))
      && AllRegions(old(m.mem), old(m.ufree), m.mem, m.ufree, m.DirOf(parent.pid), m.DirOf(child.pid), parent.memmap)
      && (forall e, p :: e in m.Dirs() && e != m.DirOf(child.pid) && 0 <= p < 0xC_0000 && p != 0x4_7FFF ==>
            Bytes(m.mem, e, p) == Bytes(old(m.mem), e, p))
      && (UserOpen(old(m.mem), old(m.Dirs())) ==> UserOpen(m.mem, m.Dirs()))
  {
    hide Good, Walk, Slot, Forked, TablesSuffice, Forkable, Duplicated, Lacking, FramesNeeded, Mapped, InUserSpace,
         TextPages, CopiedPages, SlotsOf, AllRegions, UserOpen, ForkDone;
    start := m.mem;
    if child == null {
      return -1, start;
    }
    start := ForkSpace(m, parent, child);
    AllRegionsThere(old(m.mem), start, old(m.ufree), m.mem, m.ufree, m.Dirs(), m.DirOf(parent.pid), m.DirOf(child.pid),
                    parent.memmap);
    OthersBytes(old(m.mem), m.mem, m.Dirs(), m.DirOf(parent.pid), m.DirOf(child.pid), parent.memmap);
    child.frame := child.frame[EAX := 0];
    child.stat := Ready;
    r := child.pid;
  }

  /** The entry, the directory and the pages of the child. */
  method ForkSpace(m: Machine, parent: Process, child: Process) returns (ghost start: Mem)
    requires m.Valid() && Agrees(m, parent) && parent.cr3 != 0 && child != parent && child.pid != parent.pid
    requires Forkable(m.mem, m.DirOf(parent.pid), parent.memmap) && |m.ufree| >= FramesNeeded(parent.memmap)
    requires |m.kfree| >= 1 + KERNEL_TABLES + |SlotsOf(TextPages(parent.memmap) + CopiedPages(parent.memmap))|
                          + |Lacking(m.mem, m.DirOf(parent.pid), {SHARE / ENTRIES})|
    modifies m, child
    ensures m.Valid() && Agrees(m, parent) && Agrees(m, child) && child.pid == old(child.pid) && child.cr3 != 0
    ensures child.memmap == parent.memmap && child.ticks == parent.ticks && child.priority == parent.priority
    ensures child.other == parent.other && child.ldtSel == old(child.ldtSel)
    ensures child.espSaveInt == old(child.espSaveInt) && child.espSaveContext == old(child.espSaveContext)
    ensures forall i :: 0 <= i < 18 ==> child.frame[i] == if i == 15 then old(child.frame)[i] else parent.frame[i]
    ensures m.DirOf(child.pid) != m.DirOf(parent.pid)
    ensures |m.ufree| == |old(m.ufree)| - FramesNeeded(parent.memmap)
    ensures InUserSpace(parent.memmap)
    ensures Duplicated(old(m.mem), m.mem, m.Dirs(), m.DirOf(parent.pid), m.DirOf(child.pid), parent.memmap)
    ensures Mapped(start, m.Dirs(), old(m.ufree))
    ensures Forked(start, old(m.ufree), m.mem, m.ufree, m.Dirs(), m.DirOf(parent.pid), m.DirOf(child.pid),
                   TextPages(parent.memmap), CopiedPages(parent.memmap))
    ensures ForkDone(old(m.mem), start, old(m.ufree), m.mem, m.ufree, m.Dirs(), m.DirOf(parent.pid), m.DirOf(child.pid),
                     parent.memmap)
    ensures UserOpen(old(m.mem), old(m.Dirs())) ==> UserOpen(m.mem, m.Dirs())
  {
    hide Good, Walk, Slot, Forked, TablesSuffice, Forkable, Duplicated, Identity, Lacking, FramesNeeded, Mapped,
         SlotsKept, UserOpen, TextPages, CopiedPages, SlotsOf;
    ghost var m0, mm := m.mem, parent.memmap;
    var ppid, pid := parent.pid, child.pid;
    assert m.DirOf(ppid) in m.Dirs();
    m.InitPagePte(pid);
    child.cr3 := m.cr3[pid];
    start := m.mem;
    ghost var dp, dc := m.DirOf(ppid), m.DirOf(pid);
    assert dp in m.Dirs() && dc in m.Dirs();
    ForkableAfter(m0, start, m.Dirs(), dp, dc, mm);
    EnoughTables(m0, start, m.kfree, m.Dirs(), dp, dc, SlotsOf(TextPages(mm) + CopiedPages(mm)));
    GoodIsMapped(start, m.Dirs(), m.kfree, m.ufree);
    ForkPcbCpy(child, parent);
    ForkMemCpy(m, parent.memmap, ppid, pid);
    DuplicatedAfter(m0, start, old(m.ufree), m.mem, m.ufree, m.Dirs(), dp, dc, mm);
    UserPagesOnly(start, dp, mm);
    if UserOpen(m0, old(m.Dirs())) {
      StartsOpen(m0, start, old(m.Dirs()), m.Dirs(), dc);
      StaysOpen(start, m.mem, m.Dirs());
    }
  }

  lemma OthersBytes(m0: Mem, m: Mem, dirs: set<nat>, dp: nat, dc: nat, mm: MemMap)
    requires InUserSpace(mm) && Duplicated(m0, m, dirs, dp, dc, mm)
    ensures forall e, p :: e in dirs && e != dc && 0 <= p < 0xC_0000 && p != 0x4_7FFF ==> Bytes(m, e, p) == Bytes(m0, e, p)
  {
    hide Walk, Bytes;
  }

  lemma UserPagesOnly(m: Mem, dp: nat, mm: MemMap)
    requires Forkable(m, dp, mm)
    ensures InUserSpace(mm) && forall p :: p in TextPages(mm) + CopiedPages(mm) ==> 0 <= p < USER_PAGES
  {
    hide Walk, TextPages, CopiedPages;
  }

  lemma StartsOpen(m0: Mem, start: Mem, dirs0: set<nat>, dirs: set<nat>, dc: nat)
    requires UserOpen(m0, dirs0) && Identity(m0, start, dirs, dc, KERNEL_PAGES) && dirs <= dirs0 + {dc}
    requires forall i :: 0 <= i < 768 ==> Slot(start, dc, i) % 2 == 0
    ensures UserOpen(start, dirs)
  {
    hide Walk, Slot;
  }

  lemma GoodIsMapped(m: Mem, dirs: set<nat>, k: set<nat>, u: set<nat>)
    requires Good(m, dirs, k, u)
    ensures Mapped(m, dirs, u)
  {
    hide Mapped;
  }

  lemma ForkableAfter(m0: Mem, m: Mem, dirs: set<nat>, dp: nat, dc: nat, mm: MemMap)
    requires Identity(m0, m, dirs, dc, KERNEL_PAGES) && dp in dirs && dp != dc && Forkable(m0, dp, mm)
    ensures Forkable(m, dp, mm) && InUserSpace(mm)
    ensures forall j :: j in SlotsOf(TextPages(mm) + CopiedPages(mm)) ==> 0 <= j < ENTRIES
  {
    hide Walk, Slot, PagesUp, PagesDown;
  }

  lemma EnoughTables(m0: Mem, m: Mem, k: set<nat>, dirs: set<nat>, dp: nat, dc: nat, slots: set<nat>)
    requires Identity(m0, m, dirs, dc, KERNEL_PAGES) && dp in dirs && dp != dc
    requires |k| >= |slots| + |Lacking(m0, dp, {SHARE / ENTRIES})|
    ensures TablesSuffice(m, k, dp, dc, slots)
  {
    hide Walk, Slot;
    assert Lacking(m, dp, {SHARE / ENTRIES}) == Lacking(m0, dp, {SHARE / ENTRIES});
    SubsetSmaller(Lacking(m, dc, slots), slots);
  }

  lemma DuplicatedAfter(m0: Mem, m1: Mem, u1: set<nat>, m: Mem, u: set<nat>, dirs: set<nat>, dp: nat, dc: nat, mm: MemMap)
    requires Identity(m0, m1, dirs, dc, KERNEL_PAGES) && dp in dirs && dc in dirs && dp != dc && Forkable(m1, dp, mm)
    requires InUserSpace(mm) && Mapped(m1, dirs, u1)
    requires Forked(m1, u1, m, u, dirs, dp, dc, TextPages(mm), CopiedPages(mm))
    ensures Duplicated(m0, m, dirs, dp, dc, mm)
  {
    hide Walk, Slot, PagesUp, PagesDown, Mapped, Bytes, TextPages, CopiedPages;
    var text, copied := TextPages(mm), CopiedPages(mm);
    forall e, p | e in dirs && e != dc && 0 <= p < USER_PAGES
      ensures Bytes(m1, e, p) == Bytes(m0, e, p)
    {
      SameBytes(m0, m1, dirs, u1, e, p);
    }
    forall p | p in text + copied
      ensures Bytes(m, dc, p).Some? && Bytes(m, dc, p) == Bytes(m0, dp, p)
    {
      ChildReadsParents(m1, u1, m, u, dirs, dp, dc, text, copied, p);
    }
    forall e, p | e in dirs && e != dc && 0 <= p < USER_PAGES && !(e == dp && p == SHARE)
      ensures Bytes(m, e, p) == Bytes(m0, e, p)
    {
      OthersReadOn(m1, u1, m, u, dirs, dp, dc, text, copied, e, p);
    }
  }

  lemma SameBytes(m0: Mem, m1: Mem, dirs: set<nat>, u: set<nat>, e: nat, p: nat)
    requires Mapped(m1, dirs, u) && e in dirs && p < USER_PAGES && Walk(m1, e, p) == Walk(m0, e, p)
    requires forall f :: 0 <= f < FRAMES && !InK(f) ==> m1[f] == m0[f]
    ensures Bytes(m1, e, p) == Bytes(m0, e, p)
  {
    hide Walk;
  }
}
