/** `sys_malloc` and `sys_free_4k` of kernel/syscallc.c, with `vmalloc` of kernel/pagetbl.c. */
module UserHeap {
  import opened Common
  import opened Words
  import opened PageTables
  import opened Paging

  const PAGE_RW: nat := PG_P + PG_USU + PG_RWW
  const PAGE_GONE: nat := PG_USU + PG_RWW

  /** Kernel frames for the tables that pages lo to hi - 1 of directory d lack. */
  ghost predicate TablesSuffice(m: Mem, k: set<nat>, d: nat, lo: nat, hi: nat) {
    |k| >= |Lacking(m, d, SlotsOf(lo, hi))|
  }

  function SlotsOf(lo: nat, hi: nat): set<nat> {
    set p | lo <= p < hi :: p / ENTRIES
  }

  /** The frames given to pages lo to hi - 1. */
  ghost function Given(m0: Mem, m: Mem, d: nat, lo: nat, hi: nat): set<nat> {
    set q | lo <= q < hi && Walk(m0, d, q).None? && Walk(m, d, q).Some? :: Walk(m, d, q).value.frame
  }

  /** Pages lo to hi - 1 that were mapped are as they were; the others each have a frame out of
      the pool, no two the same, unless the pool has run dry. Nothing else has changed. */
  ghost predicate Grown(m0: Mem, u0: set<nat>, m: Mem, u: set<nat>, dirs: set<nat>, d: nat, lo: nat, hi: nat) {
    && u == u0 - Given(m0, m, d, lo, hi)
    && (forall e, q :: e in dirs && 0 <= q < PAGES && !(e == d && lo <= q < hi) ==> Walk(m, e, q) == Walk(m0, e, q))
    && (forall q :: lo <= q < hi && Walk(m0, d, q).Some? ==> Walk(m, d, q) == Walk(m0, d, q))
    && (forall q :: lo <= q < hi && Walk(m0, d, q).None? ==>
          if Walk(m, d, q).Some?
          then Walk(m, d, q).value.attr == PAGE_RW && Walk(m, d, q).value.frame in u0 - u
          else u == {})
    && (forall q, r :: lo <= q < r < hi && Walk(m0, d, q).None? && Walk(m0, d, r).None? ==>
          (Walk(m, d, q).Some? && Walk(m, d, r).Some? ==> Walk(m, d, q).value.frame != Walk(m, d, r).value.frame))
    && forall f :: 0 <= f < FRAMES && !InK(f) ==> m[f] == m0[f]
  }

  lemma GrownStart(m: Mem, u: set<nat>, dirs: set<nat>, d: nat, lo: nat)
    ensures Grown(m, u, m, u, dirs, d, lo, lo)
  {
  }

  /** What `lin_mapping_phy` may do to a user page when asked to find a frame itself. */
  ghost predicate Touched(m: Mem, u: set<nat>, m': Mem, u': set<nat>, dirs: set<nat>, d: nat, p: nat) {
    if Walk(m, d, p).Some? then m' == m && u' == u
    else if u == {} then u' == u && SameWalks(m, m', dirs)
    else
      && Walk(m', d, p).Some? && Walk(m', d, p).value.attr == PAGE_RW && Remaps(m, m', dirs, d, p, Walk(m', d, p))
      && Walk(m', d, p).value.frame in u && u' == u - {Walk(m', d, p).value.frame}
  }

  lemma GrownMore(m0: Mem, u0: set<nat>, m: Mem, u: set<nat>, m': Mem, u': set<nat>, dirs: set<nat>, d: nat, lo: nat,
                  p: nat)
    requires Grown(m0, u0, m, u, dirs, d, lo, p) && Touched(m, u, m', u', dirs, d, p) && d in dirs && lo <= p < PAGES
    ensures Grown(m0, u0, m', u', dirs, d, lo, p + 1)
  {
    hide Walk;
    assert Walk(m, d, p) == Walk(m0, d, p);
    forall e, q | e in dirs && 0 <= q < PAGES && !(e == d && q == p)
      ensures Walk(m', e, q) == Walk(m, e, q)
    {
    }
    assert forall q :: lo <= q < p ==> Walk(m', d, q) == Walk(m, d, q);
    var g := if Walk(m0, d, p).None? && Walk(m', d, p).Some? then {Walk(m', d, p).value.frame} else {};
    assert Given(m0, m', d, lo, p + 1) == Given(m0, m, d, lo, p) + g;
  }

  /** A second touch of the last page changes nothing, unless the pool was dry. */
  lemma GrownAgain(m0: Mem, u0: set<nat>, m: Mem, u: set<nat>, m': Mem, u': set<nat>, dirs: set<nat>, d: nat, lo: nat,
                   p: nat)
    requires Grown(m0, u0, m, u, dirs, d, lo, p + 1) && Touched(m, u, m', u', dirs, d, p) && d in dirs
    requires lo <= p < PAGES
    ensures Grown(m0, u0, m', u', dirs, d, lo, p + 1)
  {
    hide Walk;
    if Walk(m, d, p).None? {
      assert u == {};
      forall e, q | e in dirs && 0 <= q < PAGES
        ensures Walk(m', e, q) == Walk(m, e, q)
      {
      }
      assert Given(m0, m', d, lo, p + 1) == Given(m0, m, d, lo, p + 1);
    }
  }

  lemma TableCosts(m: Mem, k: set<nat>, m': Mem, k': set<nat>, dirs: set<nat>, d: nat, p: nat, lo: nat, hi: nat)
    requires TableMade(m, k, m', k', dirs, d, p / ENTRIES, 7) && TablesSuffice(m, k, d, lo, hi) && d in dirs
    requires lo <= p < hi <= PAGES
    ensures TablesSuffice(m', k', d, lo, hi)
  {
    var a, b := Lacking(m, d, SlotsOf(lo, hi)), Lacking(m', d, SlotsOf(lo, hi));
    if Present(Slot(m, d, p / ENTRIES)) {
      assert a == b;
    } else {
      assert p / ENTRIES in a;
      assert b == a - {p / ENTRIES};
    }
  }

  lemma LackingMeansFrames(m: Mem, k: set<nat>, d: nat, lo: nat, hi: nat, p: nat)
    requires TablesSuffice(m, k, d, lo, hi) && lo <= p < hi
    ensures !Present(Slot(m, d, p / ENTRIES)) ==> k != {}
  {
    if !Present(Slot(m, d, p / ENTRIES)) {
      assert p / ENTRIES in Lacking(m, d, SlotsOf(lo, hi));
    }
  }

  /** The last word `sys_malloc` asks for. */
  function LastWord(base: nat, size: nat): nat
    requires size > 0
  {
    base + (size - 1) / 4 * 4
  }

  /** Every byte of the block lies on a page that was asked for, exactly when the last byte is
      on the page of the last word: not so for some blocks that start off a word boundary. */
  lemma BlockCovered(base: nat, size: nat)
    requires size > 0
    ensures (forall a :: base <= a < base + size ==> base / PAGE <= a / PAGE <= LastWord(base, size) / PAGE)
            <==> (base + size - 1) / PAGE == LastWord(base, size) / PAGE
    ensures base % 4 == 0 ==> (base + size - 1) / PAGE == LastWord(base, size) / PAGE
  {
    var end := base + size - 1;
    assert base <= end < base + size;
    if end / PAGE == LastWord(base, size) / PAGE {
      forall a | base <= a < base + size ensures base / PAGE <= a / PAGE <= LastWord(base, size) / PAGE {
      }
    }
    if base % 4 == 0 {
      WordOnPage(LastWord(base, size), end);
    }
  }

  /** An aligned word lies on one page. */
  lemma WordOnPage(w: nat, a: nat)
    requires w % 4 == 0 && w <= a < w + 4
    ensures a / PAGE == w / PAGE
  {
    var p, j := w / PAGE, w / 4;
    var r := w - PAGE * p;
    assert 0 <= r < PAGE && r == 4 * (j - 0x400 * p);
    OnPage(a, p, r + (a - w));
  }

  lemma OnPage(a: nat, p: nat, r: nat)
    requires a == PAGE * p + r && r < PAGE
    ensures a / PAGE == p
  {
  }

  /** A block of which one byte is left out: two bytes at the end of a page. */
  lemma BlockNotCovered()
    ensures !(forall a :: 0x4800_0FFF <= a < 0x4800_1001 ==>
                0x4800_0FFF / PAGE <= a / PAGE <= LastWord(0x4800_0FFF, 2) / PAGE)
  {
    BlockCovered(0x4800_0FFF, 2);
  }

  method Touch(m: Machine, addr: u32, pid: int, ghost lo: nat, ghost hi: nat)
    requires m.Valid() && pid in m.cr3 && m.cr3[pid] != 0 && addr < KERNEL_LIN_BASE && lo <= PageNr(addr) < hi <= PAGES
    requires TablesSuffice(m.mem, m.kfree, m.DirOf(pid), lo, hi)
    modifies m`mem, m`kfree, m`ufree
    ensures m.Valid() && TablesSuffice(m.mem, m.kfree, m.DirOf(pid), lo, hi)
    ensures Touched(old(m.mem), old(m.ufree), m.mem, m.ufree, m.Dirs(), m.DirOf(pid), PageNr(addr))
    ensures SlotsKept(old(m.mem), m.mem, m.Dirs())
  {
    hide Good, Slot, Walk, Remaps, SameWalks, TableMade, TablesSuffice, SlotsKept;
    assert m.DirOf(pid) in m.Dirs();
    IndicesArePage(addr);
    LackingMeansFrames(m.mem, m.kfree, m.DirOf(pid), lo, hi, PageNr(addr));
    var r := m.LinMappingPhy(addr, MAX_UNSIGNED_INT, pid, PAGE_RW, PAGE_RW);
    TableCosts(old(m.mem), old(m.kfree), m.mem, m.kfree, m.Dirs(), m.DirOf(pid), PageNr(addr), lo, hi);
    MadeKept(old(m.mem), old(m.kfree), m.mem, m.kfree, m.Dirs(), m.DirOf(pid), PageNr(addr) / ENTRIES);
  }

  /** One turn of `sys_malloc`'s loop: the word lies on the next page or on the one before. */
  method TouchNext(m: Machine, addr: u32, pid: int, ghost lo: nat, ghost hi: nat, ghost m0: Mem, ghost u0: set<nat>,
                   ghost next: nat)
    requires m.Valid() && pid in m.cr3 && m.cr3[pid] != 0 && addr < KERNEL_LIN_BASE && lo <= PageNr(addr) < hi <= PAGES
    requires TablesSuffice(m.mem, m.kfree, m.DirOf(pid), lo, hi)
    requires PageNr(addr) == next || PageNr(addr) == next - 1
    requires Grown(m0, u0, m.mem, m.ufree, m.Dirs(), m.DirOf(pid), lo, next) && SlotsKept(m0, m.mem, m.Dirs())
    modifies m`mem, m`kfree, m`ufree
    ensures m.Valid() && TablesSuffice(m.mem, m.kfree, m.DirOf(pid), lo, hi)
    ensures Grown(m0, u0, m.mem, m.ufree, m.Dirs(), m.DirOf(pid), lo, PageNr(addr) + 1)
    ensures SlotsKept(m0, m.mem, m.Dirs())
  {
    hide Good, Walk, Grown, Touched, TablesSuffice, SlotsKept;
    assert m.DirOf(pid) in m.Dirs();
    Touch(m, addr, pid, lo, hi);
    SlotsKeptTwice(m0, old(m.mem), m.mem, m.Dirs());
    if PageNr(addr) == next {
      GrownMore(m0, u0, old(m.mem), old(m.ufree), m.mem, m.ufree, m.Dirs(), m.DirOf(pid), lo, next);
    } else {
      GrownAgain(m0, u0, old(m.mem), old(m.ufree), m.mem, m.ufree, m.Dirs(), m.DirOf(pid), lo, PageNr(addr));
    }
  }

  // ---------------------------------------------------------------- the signed loop of sys_malloc

  /** A word as C's int reads it. */
  function Signed(x: int): int {
    var r := x % TWO32;
    if r < 0x8000_0000 then r else r - TWO32
  }

  function Unsigned(a: int): u32 {
    a % TWO32
  }

  /** The loop's test before turn k. */
  predicate GoesOn(base: u32, size: nat, k: nat) {
    Signed(base + 4 * k) < Signed(base + size)
  }

  /** The loop asks for the page of the block's word k. */
  ghost predicate Asked(base: u32, size: nat, k: nat) {
    forall i :: 0 <= i <= k ==> GoesOn(base, size, i)
  }

  /** The block reaches from the lower half of the address space into the upper one. */
  predicate Crosses(base: u32, size: nat) {
    base < 0x8000_0000 <= base + size
  }

  /** The address behind the last word. */
  function Behind(base: u32, size: nat): nat {
    base + (size + 3) / 4 * 4
  }

  /** The whole block is below the half, but the address behind its last word is not. */
  predicate Overshoots(base: u32, size: nat) {
    base + size < 0x8000_0000 <= Behind(base, size)
  }

  /** The loop ends, unless the block ends in the lower half's last word and off its boundary:
      then it runs round the whole address space for ever. */
  lemma LoopEnds(base: u32, size: nat)
    requires base + size <= KERNEL_LIN_BASE
    ensures (exists k: nat :: !GoesOn(base, size, k)) <==> !Overshoots(base, size)
  {
    if Overshoots(base, size) {
      forall k: nat
        ensures GoesOn(base, size, k)
      {
        Rounds(base, size, k);
      }
    } else if Crosses(base, size) {
      assert !GoesOn(base, size, 0);
    } else {
      var k := (size + 3) / 4;
      assert base + 4 * k == Behind(base, size);
      assert !GoesOn(base, size, k);
    }
  }

  /** No word at the block's distance lies between the block's end and the half. */
  lemma Rounds(base: u32, size: nat, k: nat)
    requires Overshoots(base, size)
    ensures GoesOn(base, size, k)
  {
    var q := SignedTurns(base + 4 * k);
    var y := Signed(base + 4 * k);
    var n := (size + 3) / 4 - k + 0x4000_0000 * q;
    assert Behind(base, size) - y == 4 * n;
    assert y < 0x8000_0000;
  }

  /** How often the address space was passed. */
  lemma SignedTurns(x: int) returns (q: int)
    ensures Signed(x) == x - TWO32 * q
  {
    q := x / TWO32 + if x % TWO32 < 0x8000_0000 then 0 else 1;
  }

  /** The pages of a block's words are asked for, all of them, exactly when the block stays in
      one half of the address space; else not even the first. */
  lemma AskedIff(base: u32, size: nat, k: nat)
    requires base + size <= KERNEL_LIN_BASE && 4 * k < size
    ensures Asked(base, size, k) <==> !Crosses(base, size)
  {
    if Crosses(base, size) {
      assert !GoesOn(base, size, 0);
    }
  }

  /** Two pages of the heap that are handed out without being asked for. */
  lemma CrossingBlock(k: nat)
    requires k < 0x800
    ensures !Asked(0x7FFF_F000, 0x2000, k) && 0x4800_0000 <= 0x7FFF_F000 + 4 * k < 0x8800_0000
  {
    AskedIff(0x7FFF_F000, 0x2000, k);
  }

  /** `sys_malloc`; heapLimit is the caller's `heap_lin_limit`. Of a block that crosses the half
      no page is mapped, though the limit moves past it. */
  method SysMalloc(m: Machine, heapLimit: u32, size: nat, pid: int) returns (addr: u32, newLimit: u32)
    requires m.Valid() && pid in m.cr3 && m.cr3[pid] != 0
    requires heapLimit + size <= KERNEL_LIN_BASE && !Overshoots(heapLimit, size)
    requires size > 0 && !Crosses(heapLimit, size) ==>
      TablesSuffice(m.mem, m.kfree, m.DirOf(pid), PageNr(heapLimit), LastWord(heapLimit, size) / PAGE + 1)
    modifies m`mem, m`kfree, m`ufree
    ensures m.Valid() && addr == heapLimit && newLimit == heapLimit + size
    ensures size == 0 || Crosses(heapLimit, size) ==>
      m.mem == old(m.mem) && m.ufree == old(m.ufree) && m.kfree == old(m.kfree)
    ensures size > 0 && !Crosses(heapLimit, size) ==>
      Grown(old(m.mem), old(m.ufree), m.mem, m.ufree, m.Dirs(), m.DirOf(pid), PageNr(heapLimit),
            LastWord(heapLimit, size) / PAGE + 1)
    ensures size > 0 && !(heapLimit < 0x8000_0000 <= heapLimit + size) ==>
      WordsMapped(old(m.mem), old(m.ufree), m.mem, m.ufree, m.DirOf(pid), heapLimit / 0x1000,
                  (heapLimit + (size - 1) / 4 * 4) / 0x1000)
    ensures UserOpen(old(m.mem), m.Dirs()) ==> UserOpen(m.mem, m.Dirs())
  {
    hide Good, Walk, Grown, Touched, TablesSuffice, Signed, Unsigned, Crosses, Overshoots, LastWord, PageNr, SlotsKept,
         UserOpen, WordsMapped;
    addr := heapLimit;
    newLimit := heapLimit + size;
    var a, end := Signed(heapLimit), Signed(heapLimit + size);
    ghost var k: nat := 0;
    ghost var lo := PageNr(heapLimit);
    ghost var hi: nat := if size > 0 then LastWord(heapLimit, size) / PAGE + 1 else lo;
    ghost var next := lo;
    GrownStart(m.mem, m.ufree, m.Dirs(), m.DirOf(pid), lo);
    assert SlotsKept(m.mem, m.mem, m.Dirs()) by { KeptSame(m.mem, m.Dirs()); }
    SignedOrder(heapLimit, size, 0);
    while a < end
      invariant 4 * k < size + 4 && a == Signed(heapLimit + 4 * k)
      invariant a < end <==> 4 * k < size && !Crosses(heapLimit, size)
      invariant m.Valid()
      invariant size > 0 && !Crosses(heapLimit, size) ==> TablesSuffice(m.mem, m.kfree, m.DirOf(pid), lo, hi)
      invariant next == if k == 0 then lo else PageNr(heapLimit + 4 * k - 4) + 1
      invariant Grown(old(m.mem), old(m.ufree), m.mem, m.ufree, m.Dirs(), m.DirOf(pid), lo, next)
      invariant SlotsKept(old(m.mem), m.mem, m.Dirs())
      invariant size == 0 || Crosses(heapLimit, size) ==>
        k == 0 && m.mem == old(m.mem) && m.ufree == old(m.ufree) && m.kfree == old(m.kfree)
      decreases size + 4 - 4 * k
    {
      WordsBelow(heapLimit, size, k);
      UnsignedBack(heapLimit + 4 * k);
      TouchNext(m, Unsigned(a), pid, lo, hi, old(m.mem), old(m.ufree), next);
      next := PageNr(heapLimit + 4 * k) + 1;
      SignedNext(heapLimit + 4 * k);
      k := k + 1;
      a := Signed(a + 4);
      SignedOrder(heapLimit, size, k);
    }
    if UserOpen(old(m.mem), m.Dirs()) {
      StaysOpen(old(m.mem), m.mem, m.Dirs());
    }
    if size > 0 && !Crosses(heapLimit, size) {
      WordsEnd(heapLimit, size, k);
      GrownMapped(old(m.mem), old(m.ufree), m.mem, m.ufree, m.Dirs(), m.DirOf(pid), heapLimit, size);
    }
    CrossesMeans(heapLimit, size);
  }

  /** Pages lo to hi are all mapped unless the pool has run dry; those that were not have a frame
      out of it which the user may read and write, by a table he may use if all his are open. */
  ghost predicate WordsMapped(m0: Mem, u0: set<nat>, m: Mem, u: set<nat>, d: nat, lo: int, hi: int) {
    forall p :: 0 <= p && lo <= p <= hi ==>
      && (Walk(m, d, p).Some? || u == {})
      && (Walk(m0, d, p).None? && Walk(m, d, p).Some? ==> Walk(m, d, p).value.attr == 7 && Walk(m, d, p).value.frame in u0)
  }

  lemma GrownMapped(m0: Mem, u0: set<nat>, m: Mem, u: set<nat>, dirs: set<nat>, d: nat, base: u32, size: nat)
    requires size > 0 && Grown(m0, u0, m, u, dirs, d, PageNr(base), LastWord(base, size) / PAGE + 1)
    ensures WordsMapped(m0, u0, m, u, d, base / 0x1000, (base + (size - 1) / 4 * 4) / 0x1000)
  {
    hide Walk;
  }

  lemma CrossesMeans(base: u32, size: nat)
    ensures Crosses(base, size) <==> base < 0x8000_0000 <= base + size
  {
  }

  lemma KeptSame(m: Mem, dirs: set<nat>)
    ensures SlotsKept(m, m, dirs)
  {
  }

  /** Every byte of a word-aligned block can be used once the pages are there: page and table
      have the bits of a user's own. */
  lemma BlockUsable(m0: Mem, u0: set<nat>, m: Mem, u: set<nat>, dirs: set<nat>, d: nat, base: nat, size: nat, a: nat)
    requires size > 0 && base % 4 == 0 && base <= a < base + size <= 0xC000_0000 && u != {}
    requires WordsMapped(m0, u0, m, u, d, base / 0x1000, (base + (size - 1) / 4 * 4) / 0x1000)
    requires UserOpen(m, dirs) && d in dirs
    ensures Walk(m, d, a / 0x1000).Some? && Slot(m, d, a / 0x40_0000) % 8 == 7
    ensures Walk(m0, d, a / 0x1000).None? ==> Walk(m, d, a / 0x1000).value.attr == 7
  {
    BlockCovered(base, size);
    hide Slot, LastWord;
    assert base / PAGE <= a / PAGE <= LastWord(base, size) / PAGE;
    LastWordIs(base, size);
    assert a / 0x1000 / 1024 == a / 0x40_0000;
  }

  lemma LastWordIs(base: nat, size: nat)
    requires size > 0
    ensures LastWord(base, size) == base + (size - 1) / 4 * 4
  {
  }

  /** While the loop is inside the block, or just behind, the signed test is the unsigned one. */
  lemma SignedOrder(base: u32, size: nat, k: nat)
    requires base + size <= KERNEL_LIN_BASE && !Overshoots(base, size)
    requires 4 * k < size + 4 && (Crosses(base, size) ==> k == 0)
    ensures Signed(base + 4 * k) < Signed(base + size) <==> 4 * k < size && !Crosses(base, size)
  {
    if base + size < 0x8000_0000 {
      assert base + 4 * k <= Behind(base, size);
    }
  }

  lemma UnsignedBack(w: u32)
    ensures Unsigned(Signed(w)) == w
  {
  }

  lemma SignedNext(w: int)
    ensures Signed(Signed(w) + 4) == Signed(w + 4)
  {
    var q := SignedTurns(w);
    Turned(w + 4, q);
  }

  /** Whole turns of the address space do not show. */
  lemma Turned(x: int, q: int)
    ensures Signed(x - TWO32 * q) == Signed(x)
  {
    var r := x % TWO32;
    assert x == TWO32 * (x / TWO32) + r;
    Remainder(x - TWO32 * q, x / TWO32 - q, r);
  }

  lemma Remainder(y: int, n: int, r: int)
    requires y == TWO32 * n + r && 0 <= r < TWO32
    ensures y % TWO32 == r
  {
  }

  lemma WordsEnd(base: u32, size: nat, k: nat)
    requires size > 0 && size <= 4 * k < size + 4 && base + size <= KERNEL_LIN_BASE
    ensures PageNr(base + 4 * k - 4) == LastWord(base, size) / PAGE
  {
  }

  lemma WordsBelow(base: u32, size: nat, k: nat)
    requires 4 * k < size && base + size <= KERNEL_LIN_BASE
    ensures PageNr(base) <= PageNr(base + 4 * k) < LastWord(base, size) / PAGE + 1 <= PAGES
    ensures k > 0 ==> PageNr(base + 4 * k - 4) <= PageNr(base + 4 * k) <= PageNr(base + 4 * k - 4) + 1
  {
    assert base + 4 * k <= LastWord(base, size);
  }

  /** `sys_free_4k`: the page's mapping goes and its frame returns to the pool, sound only if
      no other page of anybody shows that frame. */
  method SysFree4K(m: Machine, addr: u32, pid: int)
    requires m.Valid() && pid in m.cr3 && m.cr3[pid] != 0 && addr < KERNEL_LIN_BASE
    requires Walk(m.mem, m.DirOf(pid), PageNr(addr)).Some?
    requires ShownOnce(m.mem, m.Dirs(), m.DirOf(pid), PageNr(addr))
    modifies m`mem, m`kfree, m`ufree
    ensures m.Valid() && m.kfree == old(m.kfree)
    ensures Remaps(old(m.mem), m.mem, m.Dirs(), m.DirOf(pid), PageNr(addr), None)
    ensures m.ufree == old(m.ufree) + {Walk(old(m.mem), m.DirOf(pid), PageNr(addr)).value.frame}
    ensures UserOpen(old(m.mem), m.Dirs()) ==> UserOpen(m.mem, m.Dirs())
  {
    hide Good, Slot, Walk, Remaps, SameWalks, TableMade, InU, ShownOnce, UserOpen, SlotsKept;
    var phy := m.GetPagePhyAddr(pid, addr);
    FrameFound(m, pid, addr);
    var r := m.LinMappingPhy(addr, phy, pid, PAGE_RW, PAGE_GONE);
    DecodeEncode(FrameOf(phy), PAGE_GONE);
    MadeBefore(old(m.mem), old(m.kfree), m.mem, m.kfree, m.Dirs(), m.DirOf(pid), addr / 0x40_0000);
    MadeKept(old(m.mem), old(m.kfree), m.mem, m.kfree, m.Dirs(), m.DirOf(pid), addr / 0x40_0000);
    if UserOpen(old(m.mem), m.Dirs()) {
      StaysOpen(old(m.mem), m.mem, m.Dirs());
    }
    GivenBack(old(m.mem), m.mem, m.Dirs(), m.kfree, m.ufree, m.DirOf(pid), PageNr(addr));
    m.ufree := m.ufree + {FrameOf(phy)};
  }

  /** No other user page of any process shows the frame of this one. */
  ghost predicate ShownOnce(m: Mem, dirs: set<nat>, d: nat, p: nat)
  {
    forall e, q :: e in dirs && 0 <= q < USER_PAGES && Walk(m, e, q).Some? && Walk(m, d, p).Some? ==>
      (Walk(m, e, q).value.frame == Walk(m, d, p).value.frame ==> e == d && q == p)
  }

  lemma MadeBefore(m: Mem, k: set<nat>, m': Mem, k': set<nat>, dirs: set<nat>, d: nat, i: nat)
    requires TableMade(m, k, m', k', dirs, d, i, 7) && Present(Slot(m, d, i))
    ensures k' == k
  {
  }

  lemma FrameFound(m: Machine, pid: int, addr: u32)
    requires m.Valid() && pid in m.cr3 && m.cr3[pid] != 0 && addr < KERNEL_LIN_BASE
    requires Walk(m.mem, m.DirOf(pid), PageNr(addr)).Some?
    ensures Present(Slot(m.mem, m.DirOf(pid), addr / 0x40_0000)) && m.DirOf(pid) in m.Dirs()
    ensures var a := m.GetPagePhyAddr(pid, addr);
            && FrameOf(a) == Walk(m.mem, m.DirOf(pid), PageNr(addr)).value.frame && a % 0x400 == 0
            && a != MAX_UNSIGNED_INT
  {
    hide Good, Walk, Slot, InU, FrameOf, PageNr;
    assert m.DirOf(pid) in m.Dirs();
    SomeNeedsTable(m.mem, m.DirOf(pid), addr);
    m.WalkIsEntry(pid, addr);
    MappedFrame(m.mem, m.DirOf(pid), PageNr(addr));
    FrameAddress(Walk(m.mem, m.DirOf(pid), PageNr(addr)).value.frame);
  }

  lemma MappedFrame(m: Mem, d: nat, p: nat)
    requires Walk(m, d, p).Some?
    ensures Walk(m, d, p).value.frame < PAGES
  {
  }

  /** Giving the frame back is sound exactly if no other user page shows it; else a frame in
      use is in the pool. */
  lemma GivenBack(m: Mem, m': Mem, dirs: set<nat>, k: set<nat>, u: set<nat>, d: nat, p: nat)
    requires Good(m, dirs, k, u) && Good(m', dirs, k, u) && Remaps(m, m', dirs, d, p, None) && d in dirs
    requires p < USER_PAGES && Walk(m, d, p).Some?
    ensures Good(m', dirs, k, u + {Walk(m, d, p).value.frame}) <==> ShownOnce(m, dirs, d, p)
  {
    hide Walk, Slot;
    var f := Walk(m, d, p).value.frame;
    if !ShownOnce(m, dirs, d, p) {
      var e, q :| e in dirs && 0 <= q < USER_PAGES && Walk(m, e, q).Some? && Walk(m, e, q).value.frame == f && !(e == d && q == p);
      assert Walk(m', e, q) == Walk(m, e, q);
      assert !Mapped(m', dirs, u + {f});
    }
  }

  /** Free undoes malloc: a page that was absent, got a frame and lost it, leaves every
      translation and the pool as they were. */
  lemma FreeUndoesMalloc(m0: Mem, u0: set<nat>, m1: Mem, u1: set<nat>, m2: Mem, u2: set<nat>, dirs: set<nat>, d: nat,
                         p: nat)
    requires Grown(m0, u0, m1, u1, dirs, d, p, p + 1) && Walk(m0, d, p).None? && Walk(m1, d, p).Some?
    requires Remaps(m1, m2, dirs, d, p, None) && u2 == u1 + {Walk(m1, d, p).value.frame} && d in dirs && p < PAGES
    ensures SameWalks(m0, m2, dirs) && u2 == u0
  {
    hide Walk;
    forall e, q | e in dirs && 0 <= q < PAGES
      ensures Walk(m2, e, q) == Walk(m0, e, q)
    {
    }
    assert Given(m0, m1, d, p, p + 1) == {Walk(m1, d, p).value.frame};
  }
}
