/** Two-level page tables in physical memory, as values. */
module PageTables {
  import opened Common
  import opened Words

  /** A page frame as its 1024 words. */
  type Frame = s: seq<u32> | |s| == 1024 witness seq(1024, _ => 0)

  const FRAMES: nat := 0x2000
  const ENTRIES: nat := 1024
  const PAGE: nat := 0x1000
  /** Pages below 3 GiB are the user's. */
  const USER_PAGES: nat := 0xC0000
  const PAGES: nat := 0x100000

  /** A present page-table entry: frame number and attribute bits. */
  datatype Mapping = Mapping(frame: nat, attr: nat)

  predicate Present(w: u32) { w % 2 == 1 }

  function FrameOf(w: u32): nat { w / PAGE }

  function Decode(w: u32): Option<Mapping> {
    if Present(w) then Some(Mapping(FrameOf(w), w % PAGE)) else None
  }

  function Encode(frame: nat, attr: nat): (w: u32)
    requires frame < PAGES && attr < PAGE
  {
    frame * PAGE + attr
  }

  lemma DecodeEncode(frame: nat, attr: nat)
    requires frame < PAGES && attr < PAGE
    ensures Decode(Encode(frame, attr)) == if attr % 2 == 1 then Some(Mapping(frame, attr)) else None
    ensures FrameOf(Encode(frame, attr)) == frame && Present(Encode(frame, attr)) == (attr % 2 == 1)
  {
  }

  lemma FrameAddress(f: nat)
    requires f < PAGES
    ensures f * PAGE < MAX_UNSIGNED_INT && FrameOf(f * PAGE) == f && f * PAGE % 0x400 == 0
  {
    Multiple(4 * f);
  }

  lemma Multiple(k: nat)
    ensures 0x400 * k % 0x400 == 0
  {
  }

  /** Where `do_kmalloc_4k` and `do_malloc_4k` get their frames: 4 to 6 MiB, 16 to 32 MiB. */
  predicate InK(f: nat) { 0x400 <= f < 0x600 }

  predicate InU(f: nat) { 0x1000 <= f < 0x2000 }

  function Zeros(): Frame { seq<u32>(1024, _ => 0) }

  type Mem = m: seq<Frame> | |m| == FRAMES witness seq<Frame>(FRAMES, _ => Zeros())

  function Put(m: Mem, f: nat, i: nat, w: u32): Mem
    requires f < FRAMES && i < ENTRIES
  {
    m[f := m[f][i := w]]
  }

  /** The table a directory slot points at. */
  function Slot(m: Mem, d: nat, i: nat): u32 {
    if d < FRAMES && i < ENTRIES then m[d][i] else 0
  }

  /** What the hardware finds for a page, directory first, table second. */
  function Walk(m: Mem, d: nat, p: nat): Option<Mapping> {
    var s := Slot(m, d, p / ENTRIES);
    if Present(s) && FrameOf(s) < FRAMES then Decode(m[FrameOf(s)][p % ENTRIES]) else None
  }

  /** In numbers: two words with bit 0 set, their upper 20 bits the table's frame and the
      page's, the lower 12 bits of the second the page's attributes. */
  lemma WalkIs(m: Mem, d: nat, p: nat, n: Mapping)
    requires d < FRAMES && p < PAGES
    ensures var s := m[d][p / 1024];
            Walk(m, d, p) == Some(n)
            <==> s % 2 == 1 && s / 0x1000 < 0x2000
                 && var w := m[s / 0x1000][p % 1024]; w % 2 == 1 && n == Mapping(w / 0x1000, w % 0x1000)
  {
  }

  /** Directories and the tables in their slots are kernel frames that are not free; no
      table is also a directory, and each belongs to one slot of one directory. */
  ghost predicate Tables(m: Mem, dirs: set<nat>, kfree: set<nat>) {
    && (forall d :: d in dirs ==> InK(d) && d !in kfree)
    && (forall d, i :: d in dirs && 0 <= i < ENTRIES && Present(Slot(m, d, i)) ==>
          InK(FrameOf(Slot(m, d, i))) && FrameOf(Slot(m, d, i)) !in kfree && FrameOf(Slot(m, d, i)) !in dirs)
  }

  ghost predicate Owned(m: Mem, dirs: set<nat>)
  {
    forall d, i, e, j :: d in dirs && e in dirs && 0 <= i < ENTRIES && 0 <= j < ENTRIES ==>
      (Present(Slot(m, d, i)) && Present(Slot(m, e, j)) && FrameOf(Slot(m, d, i)) == FrameOf(Slot(m, e, j)) ==>
         d == e && i == j)
  }

  /** User pages map user frames that are not free. */
  ghost predicate Mapped(m: Mem, dirs: set<nat>, ufree: set<nat>)
  {
    forall d, p :: d in dirs && 0 <= p < USER_PAGES && Walk(m, d, p).Some? ==>
      InU(Walk(m, d, p).value.frame) && Walk(m, d, p).value.frame !in ufree
  }

  ghost predicate Good(m: Mem, dirs: set<nat>, kfree: set<nat>, ufree: set<nat>) {
    && (forall f :: f in kfree ==> InK(f)) && (forall f :: f in ufree ==> InU(f))
    && Tables(m, dirs, kfree) && Owned(m, dirs) && Mapped(m, dirs, ufree)
  }

  /** Every translation is as before, but that of page p in directory d, which is now t. */
  ghost predicate Remaps(m: Mem, m': Mem, dirs: set<nat>, d: nat, p: nat, t: Option<Mapping>)
  {
    && (forall e, q :: e in dirs && 0 <= q < PAGES ==>
          Walk(m', e, q) == if e == d && q == p then t else Walk(m, e, q))
    && forall f :: 0 <= f < FRAMES && !InK(f) ==> m'[f] == m[f]
  }

  // ---------------------------------------------------------------- one entry of a table

  lemma PutEntry(m: Mem, dirs: set<nat>, kfree: set<nat>, ufree: set<nat>, d: nat, p: nat, w: u32)
    requires Good(m, dirs, kfree, ufree) && d in dirs && p < PAGES && Present(Slot(m, d, p / ENTRIES))
    requires p < USER_PAGES && Present(w) ==> InU(FrameOf(w)) && FrameOf(w) !in ufree
    ensures var m' := Put(m, FrameOf(Slot(m, d, p / ENTRIES)), p % ENTRIES, w);
            && Good(m', dirs, kfree, ufree) && Remaps(m, m', dirs, d, p, Decode(w))
            && forall e, i :: e in dirs && 0 <= i < ENTRIES ==> Slot(m', e, i) == Slot(m, e, i)
  {
    var t := FrameOf(Slot(m, d, p / ENTRIES));
    var m' := Put(m, t, p % ENTRIES, w);
    forall e, i | e in dirs && 0 <= i < ENTRIES
      ensures Slot(m', e, i) == Slot(m, e, i)
    {
      assert e != t;
    }
    forall e, q | e in dirs && 0 <= q < PAGES
      ensures Walk(m', e, q) == if e == d && q == p then Decode(w) else Walk(m, e, q)
    {
      assert q == q / ENTRIES * ENTRIES + q % ENTRIES && p == p / ENTRIES * ENTRIES + p % ENTRIES;
      assert Slot(m', e, q / ENTRIES) == Slot(m, e, q / ENTRIES);
    }
  }

  // ---------------------------------------------------------------- a new table

  /** A zeroed free frame t becomes the table of an absent slot: no translation changes. */
  lemma NewTable(m: Mem, dirs: set<nat>, kfree: set<nat>, ufree: set<nat>, d: nat, i: nat, t: nat, attr: nat)
    requires Good(m, dirs, kfree, ufree) && d in dirs && i < ENTRIES && !Present(Slot(m, d, i))
    requires t in kfree && attr < PAGE && attr % 2 == 1
    ensures var m' := Put(m[t := Zeros()], d, i, Encode(t, attr));
            && (forall e, j :: e in dirs && 0 <= j < ENTRIES ==>
                  Slot(m', e, j) == if e == d && j == i then Encode(t, attr) else Slot(m, e, j))
            && (forall e, q :: e in dirs && 0 <= q < PAGES ==> Walk(m', e, q) == Walk(m, e, q))
            && Good(m', dirs, kfree - {t}, ufree)
            && forall f :: 0 <= f < FRAMES && !InK(f) ==> m'[f] == m[f]
  {
    var m' := Put(m[t := Zeros()], d, i, Encode(t, attr));
    DecodeEncode(t, attr);
    forall e, j | e in dirs && 0 <= j < ENTRIES
      ensures Slot(m', e, j) == if e == d && j == i then Encode(t, attr) else Slot(m, e, j)
    {
      assert e != t;
    }
    NewTableWalks(m, m', dirs, kfree, d, i, t);
  }

  lemma NewTableWalks(m: Mem, m': Mem, dirs: set<nat>, kfree: set<nat>, d: nat, i: nat, t: nat)
    requires Tables(m, dirs, kfree) && d in dirs && i < ENTRIES && !Present(Slot(m, d, i)) && t in kfree && InK(t)
    requires forall e, j :: e in dirs && 0 <= j < ENTRIES && (e != d || j != i) ==> Slot(m', e, j) == Slot(m, e, j)
    requires FrameOf(Slot(m', d, i)) == t && m'[t] == Zeros()
    requires forall f :: 0 <= f < FRAMES && f != t && f != d ==> m'[f] == m[f]
    ensures forall e, q :: e in dirs && 0 <= q < PAGES ==> Walk(m', e, q) == Walk(m, e, q)
  {
    forall e, q | e in dirs && 0 <= q < PAGES
      ensures Walk(m', e, q) == Walk(m, e, q)
    {
      var s := Slot(m, e, q / ENTRIES);
      if e == d && q / ENTRIES == i {
        assert Walk(m, e, q) == None;
      } else if Present(s) {
        assert FrameOf(s) != t && FrameOf(s) != d;
      }
    }
  }

  // ---------------------------------------------------------------- frames leave the pools

  lemma FewerFree(m: Mem, dirs: set<nat>, kfree: set<nat>, ufree: set<nat>, k: nat, u: nat)
    requires Good(m, dirs, kfree, ufree)
    ensures Good(m, dirs, kfree - {k}, ufree) && Good(m, dirs, kfree, ufree - {u})
  {
  }

  /** Copying a user frame over another changes no translation. */
  lemma CopyFrame(m: Mem, dirs: set<nat>, kfree: set<nat>, ufree: set<nat>, to: nat, from: nat)
    requires Good(m, dirs, kfree, ufree) && InU(to) && from < FRAMES
    ensures var m' := m[to := m[from]];
            && Good(m', dirs, kfree, ufree)
            && (forall e, q :: e in dirs && 0 <= q < PAGES ==> Walk(m', e, q) == Walk(m, e, q))
            && (forall e, i :: e in dirs && 0 <= i < ENTRIES ==> Slot(m', e, i) == Slot(m, e, i))
  {
    var m': Mem := m[to := m[from]];
    forall e, i | e in dirs && 0 <= i < ENTRIES
      ensures Slot(m', e, i) == Slot(m, e, i)
    {
      assert e != to;
    }
    forall e, q | e in dirs && 0 <= q < PAGES
      ensures Walk(m', e, q) == Walk(m, e, q)
    {
      assert Slot(m', e, q / ENTRIES) == Slot(m, e, q / ENTRIES);
    }
  }

  // ---------------------------------------------------------------- a new directory

  /** A zeroed free frame becomes a directory: it translates nothing, the others what they did. */
  lemma NewDirectory(m: Mem, dirs: set<nat>, kfree: set<nat>, ufree: set<nat>, d: nat)
    requires Good(m, dirs, kfree, ufree) && d in kfree
    ensures InK(d) && d !in dirs
    ensures var m' := m[d := Zeros()];
            && Good(m', dirs + {d}, kfree - {d}, ufree)
            && (forall e, q :: e in dirs && 0 <= q < PAGES ==> Walk(m', e, q) == Walk(m, e, q))
            && (forall q :: 0 <= q < PAGES ==> Walk(m', d, q) == None)
            && (forall i :: 0 <= i < ENTRIES ==> !Present(Slot(m', d, i)))
            && (forall e, i :: e in dirs && 0 <= i < ENTRIES ==> Slot(m', e, i) == Slot(m, e, i))
  {
    var m' := m[d := Zeros()];
    forall i | 0 <= i < ENTRIES
      ensures Slot(m', d, i) == 0
    {
    }
    forall e, i | e in dirs && 0 <= i < ENTRIES
      ensures Slot(m', e, i) == Slot(m, e, i)
    {
      assert e != d;
    }
    forall e, q | e in dirs && 0 <= q < PAGES
      ensures Walk(m', e, q) == Walk(m, e, q)
    {
      assert Slot(m', e, q / ENTRIES) == Slot(m, e, q / ENTRIES);
    }
  }

  lemma FewerDirectories(m: Mem, dirs: set<nat>, dirs': set<nat>, kfree: set<nat>, ufree: set<nat>)
    requires Good(m, dirs, kfree, ufree) && dirs' <= dirs
    ensures Good(m, dirs', kfree, ufree)
  {
    hide Walk, Slot;
  }
}
