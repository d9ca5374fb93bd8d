/** The calls of kernel/ramfs.c that make, link and remove names. */
module RamNames {
  import opened Common
  import opened RamTree
  import opened Clusters
  import opened ClusterOps

  const ENOENT: int := 2

  class NameSpace {
    var dirs: Dirs
    /** Link counts in their kernel cells; cells are numbered as they are made. */
    var cells: map<nat, nat>
    var nextCell: nat
    /** The cluster table with its pages, and the chain of every file and directory, by its
        first cluster. */
    var st: Store
    ghost var ch: Chains

    ghost predicate Ok()
      reads this
    {
      TreeOk(dirs) && Shared(dirs, cells, ch.Keys) && CountsCover(dirs, cells, nextCell) && Rooted(dirs, st, ch)
    }

    /** `init_ram_fs` on a table of zeros: a root directory that holds itself and nothing else. */
    constructor (pages: set<int>)
      requires pages != {}
      ensures Ok() && dirs.Keys == {0} && ch == map[0 := [0]] && forall c :: Names(dirs, c) == {}
    {
      hide TreeOk, Shared, CountsCover, Rooted, Names, NewStore;
      var self := Record(".", Dir, 0, 0, 0);
      dirs := map[0 := [self] + seq(NR_REC - 1, _ => Record("", RamTree.Free, 0, 0, 0))];
      cells := map[0 := 0];
      nextCell := 1;
      var ok, page := PickPage(pages);
      st := NewStore(pages, page);
      ch := map[0 := [0]];
      new;
      RootTree(dirs);
      RootStore(dirs, pages, page);
      assert ch.Keys == {0};
    }

    lemma OkParts()
      requires Ok()
      ensures TreeOk(dirs) && Shared(dirs, cells, ch.Keys) && CountsCover(dirs, cells, nextCell) && Rooted(dirs, st, ch)
    {
    }

    /** The scan in `rf_write_record` for a free record. */
    method ScanFree(d: nat, name: string) returns (i: nat)
      requires d in dirs && TreeOk(dirs) && FreeSlot(dirs[d]) < NR_REC && name != ""
      requires forall k :: 0 <= k < NR_REC ==> !Matches(dirs[d][k], name, false)
      ensures i == FreeSlot(dirs[d]) && i < |dirs[d]| && FitsIn(dirs, d, i, name)
    {
      hide Matches;
      i := 0;
      while i < NR_REC && dirs[d][i].kind != Free
        invariant i <= FreeSlot(dirs[d])
      {
        i := i + 1;
      }
    }

    /** `rf_write_record` in a directory with a free record: a new name, for what `like` names
        if it is given, else for a new file or directory at cluster entClu. */
    method WriteRecord(d: nat, name: string, entClu: nat, kind: Kind, like: Option<Record>) returns (slot: nat)
      requires d in dirs && TreeOk(dirs) && FreeSlot(dirs[d]) < NR_REC && kind != Free && name != ""
      requires forall k :: 0 <= k < NR_REC ==> !Matches(dirs[d][k], name, false)
      requires entClu !in dirs && (like.Some? ==> like.value.kind == File)
      modifies this`dirs, this`cells, this`nextCell
      ensures TreeOk(dirs) && d in dirs && slot == FreeSlot(old(dirs)[d]) && slot < |dirs[d]|
      ensures Added(old(dirs), dirs, d, slot, dirs[d][slot]) && NoNewFiles(old(dirs), dirs)
      ensures Wrote(old(dirs), old(cells), old(nextCell), dirs, cells, nextCell, name, dirs[d][slot], entClu, kind, like)
      ensures kind == Dir && like.None? ==> entClu in dirs && EmptyBut(dirs[entClu], entClu, d)
    {
      hide EmptyBut, FitsIn, FreeSlot, Matches, TreeOk, Added, NoNewFiles, Wrote;
      slot := ScanFree(d, name);
      if like.Some? {
        NewName(d, slot, name, entClu, kind, like.value);
      } else if kind == File {
        NewFile(d, slot, name, entClu);
      } else {
        NewDir(d, slot, name, entClu);
      }
    }

    /** The three ways `rf_write_record` fills the record. */
    method NewName(d: nat, slot: nat, name: string, entClu: nat, kind: Kind, r: Record)
      requires d in dirs && slot < |dirs[d]| && FitsIn(dirs, d, slot, name) && r.kind == File
      modifies this`dirs
      ensures TreeOk(dirs) && d in dirs && slot < |dirs[d]|
      ensures Added(old(dirs), dirs, d, slot, dirs[d][slot]) && NoNewFiles(old(dirs), dirs)
      ensures Wrote(old(dirs), cells, nextCell, dirs, cells, nextCell, name, dirs[d][slot], entClu, kind, Some(r))
    {
      hide FitsIn, TreeOk, Added, NoNewFiles;
      PutFile(dirs, d, slot, Record(name, r.kind, r.start, r.cell, dirs[d][slot].opens));
      dirs := dirs[d := dirs[d][slot := Record(name, r.kind, r.start, r.cell, dirs[d][slot].opens)]];
    }

    method NewFile(d: nat, slot: nat, name: string, entClu: nat)
      requires d in dirs && slot < |dirs[d]| && FitsIn(dirs, d, slot, name)
      modifies this`dirs, this`cells, this`nextCell
      ensures TreeOk(dirs) && d in dirs && slot < |dirs[d]|
      ensures Added(old(dirs), dirs, d, slot, dirs[d][slot]) && NoNewFiles(old(dirs), dirs)
      ensures Wrote(old(dirs), old(cells), old(nextCell), dirs, cells, nextCell, name, dirs[d][slot], entClu, File, None)
    {
      hide FitsIn, TreeOk, Added, NoNewFiles;
      var r := Record(name, File, entClu, nextCell, 0);
      PutFile(dirs, d, slot, r);
      cells := cells[nextCell := 0];
      dirs := dirs[d := dirs[d][slot := r]];
      nextCell := nextCell + 1;
    }

    method NewDir(d: nat, slot: nat, name: string, entClu: nat)
      requires d in dirs && slot < |dirs[d]| && FitsIn(dirs, d, slot, name) && entClu !in dirs
      modifies this`dirs, this`cells, this`nextCell
      ensures TreeOk(dirs) && d in dirs && slot < |dirs[d]|
      ensures Added(old(dirs), dirs, d, slot, dirs[d][slot]) && NoNewFiles(old(dirs), dirs)
      ensures Wrote(old(dirs), old(cells), old(nextCell), dirs, cells, nextCell, name, dirs[d][slot], entClu, Dir, None)
      ensures entClu in dirs && EmptyBut(dirs[entClu], entClu, d)
    {
      hide FitsIn, TreeOk, Added, NoNewFiles, NewDirectory, EmptyBut;
      NewIsEmpty(dirs, d, entClu, nextCell, slot, name);
      var r := Record(name, Dir, entClu, nextCell + 1, 0);
      PutDirectory(dirs, d, slot, r, nextCell);
      cells := cells[nextCell := 0][nextCell + 1 := 0];
      dirs := dirs[entClu := NewDirectory(entClu, nextCell, dirs[d][0])][d := dirs[d][slot := r]];
      nextCell := nextCell + 2;
    }

    // -------------------------------------------------------------- find_path

    /** `find_path` from the root. It finds what component-wise lookup finds, if of the kind
        asked for; where only the last name is missing and `create` is set, it makes that name. */
    method FindPath(path: string, create: bool, kind: Kind, like: Option<Record>) returns (p: Option<(nat, nat)>)
      requires TreeOk(dirs) && Rooted(dirs, st, ch) && kind != Free
      requires (like.Some? ==> like.value.kind == File) && ShortNames(path)
      requires create ==> RoomFor(dirs, path)
      modifies this`dirs, this`cells, this`nextCell, this`st, this`ch
      ensures TreeOk(dirs) && Rooted(dirs, st, ch) && SameChains(old(st), old(ch), st, ch)
      ensures p.None? ==> ch == old(ch)
      ensures !Makes(old(dirs), path, create) || p.None? ==>
        dirs == old(dirs) && cells == old(cells) && nextCell == old(nextCell)
      ensures !Makes(old(dirs), path, create) ==>
        st == old(st) && ch == old(ch) && p == Wanted(old(dirs), Lookup(old(dirs), path), kind)
      ensures Makes(old(dirs), path, create) && p.Some? ==>
        Made(old(dirs), old(cells), old(nextCell), old(ch).Keys, dirs, cells, nextCell, ch.Keys, path, p.value, kind, like)
      ensures create && Lookup(old(dirs), path).Absent? && LastName(path) != "" ==> (p.None? <==> Exhausted(old(st)))
      ensures Makes(old(dirs), path, create) && p.Some? && like.None? ==>
        ch == NewStart(old(ch), StartAt(dirs, p.value.0, p.value.1))
    {
      SameChainsStart(st, ch);
      hide TreeOk, Made, RoomFor, Components, Locate, FirstMatch, Lookup, LastName, Rooted, SameChains, Exhausted;
      var place, name := Descend(path);
      match place
      case NoAncestor =>
        p := None;
      case At(d, i) =>
        p := if dirs[d][i].kind == kind then Some((d, i)) else None;
      case Absent(d) =>
        if !create || name == "" {
          return None;
        }
        p := Create(path, d, name, kind, like);
    }

    /** The loop of `find_path`, up to the last name: where it leads, and that name. */
    method Descend(path: string) returns (place: Place, name: string)
      requires TreeOk(dirs) && ShortNames(path)
      ensures place == Lookup(dirs, path)
      ensures !place.NoAncestor? ==> name == LastName(path)
      ensures PlaceThere(dirs, place, name)
    {
      hide TreeOk, Components, Lookup, LastName, Ahead, PlaceThere, ShortNames;
      AheadFromRoot(dirs, path);
      var dirClu, pathpos := 0, 0;
      while pathpos < |path|
        invariant 0 <= pathpos <= |path| && Ahead(dirs, path, pathpos, dirClu)
      {
        var next;
        pathpos, name, place, next := NextComponent(path, pathpos, dirClu);
        if pathpos == |path| || next.None? {
          return;
        }
        dirClu := next.value;
        pathpos := pathpos + 1;
      }
      NothingAhead(dirs, path, dirClu);
      place, name := Absent(dirClu), "";
    }

    /** The body of `find_path`'s loop: take the next name off the path and look for it. The
        last name decides the place; on the way the search goes on in a directory, or ends. */
    method NextComponent(path: string, from: nat, d: nat)
      returns (to: nat, name: string, place: Place, next: Option<nat>)
      requires from < |path| && TreeOk(dirs) && Ahead(dirs, path, from, d)
      ensures from <= to <= |path|
      ensures to == |path| || next.None? ==> place == Lookup(dirs, path) && PlaceThere(dirs, place, name)
      ensures (to == |path| || next.None?) && !place.NoAncestor? ==> name == LastName(path)
      ensures to < |path| && next.Some? ==> Ahead(dirs, path, to + 1, next.value)
    {
      hide TreeOk, Components, Locate, Lookup, LastName;
      to := from;
      while to < |path| && path[to] != '/'
        invariant from <= to <= |path| && forall k :: from <= k < to ==> path[k] != '/'
      {
        to := to + 1;
      }
      name := path[from..to];
      NextName(dirs, path, from, to, d);
      var i := Scan(d, name, to < |path|);
      if to == |path| {
        place, next := if i < NR_REC then At(d, i) else Absent(d), None;
      } else {
        place, next := NoAncestor, if i < NR_REC then Some(dirs[d][i].start) else None;
      }
    }

    /** The scan of one directory in `find_path`; on the way only directories count. */
    method Scan(d: nat, name: string, dirsOnly: bool) returns (i: nat)
      requires d in dirs && |dirs[d]| == NR_REC
      ensures i == FirstMatch(dirs[d], name, dirsOnly)
    {
      i := 0;
      while i < NR_REC && !Matches(dirs[d][i], name, dirsOnly)
        invariant i <= NR_REC && forall k :: 0 <= k < i ==> !Matches(dirs[d][k], name, dirsOnly)
      {
        i := i + 1;
      }
      FirstMatchIs(dirs[d], name, dirsOnly, i);
    }

    /** The last lines of `find_path`: a cluster, then the record. For a link the cluster is
        taken too, and never used. */
    method Create(path: string, d: nat, name: string, kind: Kind, like: Option<Record>) returns (p: Option<(nat, nat)>)
      requires TreeOk(dirs) && Rooted(dirs, st, ch) && kind != Free
      requires (like.Some? ==> like.value.kind == File) && RoomFor(dirs, path)
      requires Lookup(dirs, path) == Absent(d) && name == LastName(path) != ""
      requires d in dirs && FirstMatch(dirs[d], name, false) == NR_REC
      modifies this`dirs, this`cells, this`nextCell, this`st, this`ch
      ensures TreeOk(dirs) && Rooted(dirs, st, ch) && SameChains(old(st), old(ch), st, ch)
      ensures p.None? <==> Exhausted(old(st))
      ensures p.Some? && like.None? ==> ch == NewStart(old(ch), StartAt(dirs, p.value.0, p.value.1))
      ensures p.None? ==> dirs == old(dirs) && cells == old(cells) && nextCell == old(nextCell) && ch == old(ch)
      ensures p.Some? ==>
        Made(old(dirs), old(cells), old(nextCell), old(ch).Keys, dirs, cells, nextCell, ch.Keys, path, p.value, kind, like)
    {
      hide TreeOk, Added, NoNewFiles, Wrote, Rooted, Good, SameChains, Loose, View, Flat, Exhausted, EmptyBut;
      RootedGood(dirs, st, ch);
      ghost var st0 := st;
      ghost var a;
      var inew;
      st, inew, a := FindFirstFreeAlloc(st, ch);
      StillRooted(dirs, st0, st, ch);
      if inew < 0 {
        return None;
      }
      FreshStart(dirs, st0, ch, inew);
      var slot := WriteRecord(d, name, inew, kind, like);
      p := Some((d, slot));
      ghost var made := dirs[d][slot];
      WroteStart(old(dirs), old(cells), old(nextCell), dirs, cells, nextCell, name, made, inew, kind, like);
      if like.None? {
        NewChain(st0, st, ch, inew, a);
        WroteDirs(old(dirs), dirs, cells, nextCell, old(cells), old(nextCell), name, made, inew, kind, like);
        ChainRooted(old(dirs), dirs, st, ch, inew);
        ch := ch[inew := [inew]];
      } else {
        WroteDirs(old(dirs), dirs, cells, nextCell, old(cells), old(nextCell), name, made, inew, kind, like);
        SameKeysRooted(old(dirs), dirs, st, ch);
      }
    }

    // -------------------------------------------------------------- the calls

    /** The call of `find_path` in `rf_open`, which `rf_create` calls with O_CREAT: find or make
        a file. */
    method FindFile(path: string, create: bool) returns (p: Option<(nat, nat)>)
      requires Ok() && ShortNames(path) && (create ==> RoomFor(dirs, path))
      modifies this
      ensures Ok() && Kept(old(cells), cells) && SameChains(old(st), old(ch), st, ch)
      ensures p.Some? ==> Lookup(dirs, path) == At(p.value.0, p.value.1) && IsFile(dirs, p.value)
      ensures p.None? ==> dirs == old(dirs)
      ensures create && Lookup(old(dirs), path).Absent? && LastName(path) != "" ==> (p.None? <==> Exhausted(old(st)))
      ensures !Makes(old(dirs), path, create) ==>
        && p == Wanted(old(dirs), Lookup(old(dirs), path), File)
        && dirs == old(dirs) && cells == old(cells) && st == old(st) && ch == old(ch)
      ensures p.Some? && Makes(old(dirs), path, create) ==>
        && NewFileAt(old(cells), old(ch), dirs, cells, ch, path, p.value, 0) && OnlyNew(old(dirs), dirs, path, p.value)
    {
      hide TreeOk, Shared, CountsCover, Made, Lookup, Makes, Components, RoomFor, Kept, Rooted, SameChains, OnlyNew, LastName,
           Exhausted, Wanted, NewFileAt;
      MakesIs(dirs, path, create);
      ghost var d0, c0, n0, ch0 := dirs, cells, nextCell, ch;
      OkParts();
      p := FindPath(path, create, File, None);
      if p.Some? && Makes(d0, path, create) {
        MadeFile(d0, c0, n0, ch0.Keys, dirs, cells, nextCell, ch.Keys, path, p.value);
        MadeOnly(d0, c0, n0, ch0.Keys, dirs, cells, nextCell, ch.Keys, path, p.value, None);
        MadeFileIs(d0, c0, n0, ch0, dirs, cells, nextCell, ch, path, p.value);
      } else {
        if p.Some? {
          WantedIs(d0, path, File, p);
        }
        KeptAll(cells);
      }
    }

    /** The name part of `rf_open`: find or make a file, count one more descriptor. */
    method Open(path: string, create: bool) returns (p: Option<(nat, nat)>)
      requires Ok() && ShortNames(path) && (create ==> RoomFor(dirs, path))
      modifies this
      ensures Ok() && Kept(old(cells), cells) && SameChains(old(st), old(ch), st, ch)
      ensures p.Some? ==>
        && Lookup(dirs, path) == At(p.value.0, p.value.1) && IsFile(dirs, p.value)
        && OpensAt(dirs, p.value) == if Makes(old(dirs), path, create) then 1 else OpensAt(old(dirs), p.value) + 1
      ensures p.None? ==> dirs == old(dirs)
      ensures create && Lookup(old(dirs), path).Absent? && LastName(path) != "" ==> (p.None? <==> Exhausted(old(st)))
      ensures p.Some? && Makes(old(dirs), path, create) ==>
        NewFileAt(old(cells), old(ch), dirs, cells, ch, path, p.value, 1)
      ensures !Makes(old(dirs), path, create) ==>
        && p == Wanted(old(dirs), Lookup(old(dirs), path), File)
        && cells == old(cells) && st == old(st) && ch == old(ch)
        && dirs == if p.Some? then SetOpens(old(dirs), p.value, OpensAt(old(dirs), p.value) + 1) else old(dirs)
      ensures Lookup(old(dirs), path).At? ==>
        var l := Lookup(old(dirs), path);
        p == if KindAt(old(dirs), l.dir, l.slot) == File then Some((l.dir, l.slot)) else None
      ensures if p.Some? && Makes(old(dirs), path, create) then OnlyNew(old(dirs), dirs, path, p.value)
              else forall q :: Lookup(dirs, q) == Lookup(old(dirs), q)
    {
      hide Ok, Lookup, Makes, RoomFor, Kept, SameChains, OnlyNew, LastName, Exhausted, Wanted, KindAt, ShortNames, NewStart;
      MakesIs(dirs, path, create);
      WantedAt(dirs, path, File);
      ghost var d0 := dirs;
      p := FindFile(path, create);
      if p.Some? {
        ghost var d1 := dirs;
        CountOpens(p.value, dirs[p.value.0][p.value.1].opens + 1);
        if Makes(d0, path, create) {
          OnlyNewOn(d0, d1, dirs, path, p.value);
        }
      }
    }

    /** `rf_close` of a descriptor that stands on this record. */
    method Close(p: (nat, nat)) returns (r: int)
      requires Ok() && IsFile(dirs, p)
      modifies this`dirs
      ensures Ok() && IsFile(dirs, p) && forall q :: Lookup(dirs, q) == Lookup(old(dirs), q)
      ensures var n := OpensAt(old(dirs), p);
              && r == (if n == 0 then -1 else 0)
              && dirs == if n == 0 then old(dirs) else SetOpens(old(dirs), p, n - 1)
    {
      hide Ok, Lookup;
      var (d, s) := p;
      if dirs[d][s].opens <= 0 {
        return -1;
      }
      CountOpens(p, dirs[d][s].opens - 1);
      r := 0;
    }

    method CountOpens(p: (nat, nat), n: nat)
      requires Ok() && IsFile(dirs, p)
      modifies this`dirs
      ensures Ok() && IsFile(dirs, p) && dirs == SetOpens(old(dirs), p, n)
      ensures forall q :: Lookup(dirs, q) == Lookup(old(dirs), q)
    {
      hide TreeOk, Shared, CountsCover, Rooted, Lookup;
      OkParts();
      OpensOnly(dirs, cells, nextCell, ch.Keys, p.0, p.1, n);
      SetOpensRooted(dirs, st, ch, p.0, p.1, n);
      dirs := dirs[p.0 := dirs[p.0][p.1 := dirs[p.0][p.1].(opens := n)]];
    }

    /** What `rf_write` does to the table: one more cluster behind a file's chain. */
    method Grow(p: (nat, nat)) returns (inew: int)
      requires Ok() && IsFile(dirs, p) && dirs[p.0][p.1].start in ch
      modifies this`st, this`ch
      ensures Ok() && var f := dirs[p.0][p.1].start;
              && ch.Keys == old(ch).Keys && f in ch && old(ch)[f] <= ch[f]
              && (inew >= 0 ==> ch[f] == old(ch)[f] + [inew as nat])
              && (inew < 0 <==> Exhausted(old(st))) && (inew < 0 ==> ch == old(ch))
              && forall k :: k in ch && k != f ==> ch[k] == old(ch)[k] && Flat(st, ch[k]) == old(Flat(st, ch[k]))
    {
      hide TreeOk, Shared, CountsCover, Good, View, Flat, Exhausted;
      var f := dirs[p.0][p.1].start;
      var clu := f;
      ghost var k: nat := 0;
      OkParts();
      RootedGood(dirs, st, ch);
      FileNotDir(dirs, cells, ch.Keys, p);
      GoodInside(st, ch, f);
      GoodNext(st, ch, f, 0);
      ghost var c := ch[f];
      hide Rooted;
      while st.fat[clu].next != LAST
        invariant f in ch && c == ch[f] && Good(st, ch) && st == old(st) && ch == old(ch)
        invariant k < |c| && clu == c[k] && clu < |st.fat|
        decreases |c| - k
      {
        GoodNext(st, ch, f, k);
        NotLast(st, ch, f, if k + 1 < |c| then k + 1 else k);
        GoodNext(st, ch, f, if k + 1 < |c| then k + 1 else k);
        clu := st.fat[clu].next;
        k := k + 1;
      }
      GoodNext(st, ch, f, k);
      NotLast(st, ch, f, if k + 1 < |c| then k + 1 else k);
      ghost var st0, ch0 := st, ch;
      st, ch, inew := ClusterOps.GrowChain(st, ch, f, clu);
      GrownRooted(dirs, st0, ch0, st, ch, f);
    }

    /** `rf_create_dir` */
    method CreateDir(path: string) returns (r: int)
      requires Ok() && ShortNames(path) && RoomFor(dirs, path)
      modifies this
      ensures Ok() && Kept(old(cells), cells) && (r == 0 || r == -1) && SameChains(old(st), old(ch), st, ch)
      ensures r == 0 ==> Lookup(dirs, path).At? && dirs[Lookup(dirs, path).dir][Lookup(dirs, path).slot].kind == Dir
      ensures r == -1 ==> dirs == old(dirs)
      ensures Lookup(old(dirs), path).Absent? && LastName(path) != "" ==> (r == -1 <==> Exhausted(old(st)))
      ensures Lookup(old(dirs), path).At? ==>
        var l := Lookup(old(dirs), path); (r == 0 <==> KindAt(old(dirs), l.dir, l.slot) == Dir)
      ensures r == 0 && Lookup(old(dirs), path).Absent? ==>
        var n := dirs[Lookup(dirs, path).dir][Lookup(dirs, path).slot];
        && n.name == LastName(path) && ch == NewStart(old(ch), n.start)
        && n.start !in old(dirs) && n.start in dirs && EmptyBut(dirs[n.start], n.start, Lookup(old(dirs), path).dir)
      ensures !Lookup(old(dirs), path).Absent? ==> dirs == old(dirs) && cells == old(cells) && st == old(st) && ch == old(ch)
      ensures forall q :: Lookup(old(dirs), q).At? ==> Lookup(dirs, q) == Lookup(old(dirs), q)
    {
      hide TreeOk, Shared, CountsCover, Made, Lookup, Makes, Components, RoomFor, Kept, Rooted, SameChains, LastName,
           Exhausted, EmptyBut, Wanted, KindAt;
      MakesIs(dirs, path, true);
      WantedAt(dirs, path, Dir);
      ghost var d0, n0, u0 := dirs, nextCell, ch.Keys;
      OkParts();
      var p := FindPath(path, true, Dir, None);
      r := if p.Some? then 0 else -1;
      if p.Some? && Makes(d0, path, true) {
        MadeDir(d0, old(cells), n0, u0, dirs, cells, nextCell, ch.Keys, path, p.value);
        MadeName(d0, old(cells), n0, u0, dirs, cells, nextCell, ch.Keys, path, p.value, Dir, None);
      } else {
        if p.Some? {
          WantedIs(d0, path, Dir, p);
        }
        KeptAll(cells);
      }
    }

    /** `rf_link` to a file. A new name that is taken by a file already is counted all the same. */
    method Link(oldpath: string, newpath: string) returns (r: int)
      requires Ok() && ShortNames(oldpath)
      requires ShortNames(newpath) && RoomFor(dirs, newpath)
      requires Wanted(dirs, Lookup(dirs, oldpath), Dir).None?
      modifies this
      ensures Ok() && Kept(old(cells), cells) && SameChains(old(st), old(ch), st, ch) && ch == old(ch)
      ensures r == 0 ==>
        && Wanted(old(dirs), Lookup(old(dirs), oldpath), File).Some?
        && var (d, s) := Wanted(old(dirs), Lookup(old(dirs), oldpath), File).value;
           && cells == old(cells)[old(dirs)[d][s].cell := old(cells)[old(dirs)[d][s].cell] + 1]
           && Lookup(dirs, newpath).At?
           && var n := dirs[Lookup(dirs, newpath).dir][Lookup(dirs, newpath).slot];
              && n.kind == File
              && (Makes(old(dirs), newpath, true) ==>
                    n.name == LastName(newpath) && n.start == old(dirs)[d][s].start && n.cell == old(dirs)[d][s].cell)
      ensures !Lookup(old(dirs), newpath).Absent? ==> dirs == old(dirs) && st == old(st)
      ensures r != 0 ==> dirs == old(dirs) && cells == old(cells)
      ensures Wanted(old(dirs), Lookup(old(dirs), oldpath), File).None? ==> r == -2
      ensures Wanted(old(dirs), Lookup(old(dirs), oldpath), File).Some?
              && Lookup(old(dirs), newpath).Absent? && LastName(newpath) != "" ==>
        (r != 0 <==> Exhausted(old(st)))
      ensures Wanted(old(dirs), Lookup(old(dirs), oldpath), File).Some? && Lookup(old(dirs), newpath).At? ==>
        var l := Lookup(old(dirs), newpath); (r == 0 <==> KindAt(old(dirs), l.dir, l.slot) == File)
      ensures if r == 0 && Makes(old(dirs), newpath, true)
              then OnlyNew(old(dirs), dirs, newpath, (Lookup(dirs, newpath).dir, Lookup(dirs, newpath).slot))
              else forall q :: Lookup(dirs, q) == Lookup(old(dirs), q)
    {
      hide TreeOk, Shared, CountsCover, Made, Lookup, Makes, Components, RoomFor, Kept, Rooted, SameChains, OnlyNew, LastName,
           Exhausted, Wanted, KindAt;
      MakesIs(dirs, newpath, true);
      WantedAt(dirs, newpath, File);
      WantedAt(dirs, oldpath, File);
      ghost var d0, n0, u0 := dirs, nextCell, ch.Keys;
      OkParts();
      NeverMakes(dirs, oldpath);
      SameChainsStart(st, ch);
      var p := FindPath(oldpath, false, File, None);
      KeptAll(cells);
      if p.None? {
        return -ENOENT;
      }
      WantedIs(d0, oldpath, File, p);
      var (d, s) := p.value;
      var rec := dirs[d][s];
      var n := FindPath(newpath, true, rec.kind, Some(rec));
      if n.None? {
        return -1;
      }
      CellThere(d0, old(cells), u0, p.value);
      if Makes(d0, newpath, true) {
        MadeLink(d0, old(cells), n0, u0, dirs, cells, nextCell, ch.Keys, newpath, n.value, p.value);
        MadeName(d0, old(cells), n0, u0, dirs, cells, nextCell, ch.Keys, newpath, n.value, File, Some(rec));
        MadeOnly(d0, old(cells), n0, u0, dirs, cells, nextCell, ch.Keys, newpath, n.value, Some(rec));
        SameMap(old(ch), ch, old(st), st);
      } else {
        WantedIs(d0, newpath, File, n);
        CountedAgain(d0, cells, nextCell, ch.Keys, rec.cell);
      }
      cells := cells[rec.cell := cells[rec.cell] + 1];
      r := 0;
    }

    /** `rf_delete`: at count 0, and not open through this name, the file's chain is released.
        No cluster of it is on the chain of anything else, and nothing else changes. */
    method Delete(path: string) returns (r: int)
      requires Ok() && ShortNames(path)
      modifies this
      ensures Ok() && DeleteDone(old(dirs), old(cells), old(st), old(ch), dirs, cells, st, ch, path, r)
      ensures r == 0 ==> NameGone(old(dirs), dirs, path)
    {
      hide TreeOk, Shared, CountsCover, Lookup, Components, IsFile, Makes, Made, RoomFor, Rooted, DeleteDone,
           SameChains, NameGone;
      ghost var d0, c0, st0, ch0 := dirs, cells, st, ch;
      OkParts();
      NeverMakes(dirs, path);
      var p := FindPath(path, false, File, None);
      if p.None? {
        DeleteRefused(d0, c0, st0, ch0, path);
        return -ENOENT;
      }
      WantedIs(dirs, path, File, p);
      var (d, s) := p.value;
      IsFileAt(dirs, p.value);
      CellThere(dirs, cells, ch.Keys, p.value);
      DeleteRefused(d0, c0, st0, ch0, path);
      if cells[dirs[d][s].cell] >= 1 {
        return -1;
      }
      if dirs[d][s].opens >= 1 {
        return -1;
      }
      Destroy(path, p.value);
      r := 0;
    }

    /** The last lines of `rf_delete`. */
    method Destroy(path: string, p: (nat, nat))
      requires Ok() && IsFile(dirs, p) && Wanted(dirs, Lookup(dirs, path), File) == Some(p)
      requires dirs[p.0][p.1].cell in cells && cells[dirs[p.0][p.1].cell] == 0 && dirs[p.0][p.1].opens == 0
      modifies this
      ensures Ok() && DeleteDone(old(dirs), old(cells), old(st), old(ch), dirs, cells, st, ch, path, 0)
      ensures NameGone(old(dirs), dirs, path)
    {
      hide TreeOk, Shared, CountsCover, Lookup, Rooted, Good, DeleteDone, ReleasedOnly, FreedAll, Names, Wanted, Gone;
      ghost var d0, c0, st0, ch0 := dirs, cells, st, ch;
      var (d, s) := p;
      var start := dirs[d][s].start;
      OkParts();
      Released(dirs, cells, nextCell, st, ch, p);
      st := FreeClu(st, start, ch, start);
      ch := ch - {start};
      cells := cells - {dirs[d][s].cell};
      dirs := dirs[d := dirs[d][s := dirs[d][s].(kind := RamTree.Free)]];
      DeleteDoneIs(d0, c0, st0, ch0, path, p);
      WithoutGone(d0, p);
    }

    /** `rf_unlink` of a file. At count 0 it deletes; else the name goes, but the count stays:
        the decrement moves the record's pointer, not the number behind it. */
    method Unlink(path: string) returns (r: int)
      requires Ok() && ShortNames(path)
      requires Wanted(dirs, Lookup(dirs, path), Dir).None?
      modifies this
      ensures Ok()
      ensures var w := Wanted(old(dirs), Lookup(old(dirs), path), File);
              if w.Some? && CountAt(old(dirs), old(cells), w.value) >= 1
              then r == 0 && cells == old(cells) && st == old(st) && ch == old(ch) && dirs == Without(old(dirs), w.value)
              else DeleteDone(old(dirs), old(cells), old(st), old(ch), dirs, cells, st, ch, path, r)
      ensures r == 0 ==> NameGone(old(dirs), dirs, path)
    {
      hide TreeOk, Shared, CountsCover, Lookup, Components, IsFile, Makes, Made, RoomFor, Rooted, DeleteDone, SameChains, Gone;
      OkParts();
      NeverMakes(dirs, path);
      var p := FindPath(path, false, File, None);
      if p.None? {
        DeleteRefused(dirs, cells, st, ch, path);
        return -ENOENT;
      }
      WantedIs(dirs, path, File, p);
      var (d, s) := p.value;
      IsFileAt(dirs, p.value);
      CellThere(dirs, cells, ch.Keys, p.value);
      if cells[dirs[d][s].cell] == 0 {
        r := Delete(path);
        return;
      }
      NameFreed(dirs, cells, nextCell, st, ch, p.value);
      WithoutGone(dirs, p.value);
      dirs := dirs[d := dirs[d][s := dirs[d][s].(kind := RamTree.Free)]];
      r := 0;
    }
  }

  // ---------------------------------------------------------------- chains behind names

  /** Chains are known by their first cluster, and a directory is one cluster. */
  ghost predicate Rooted(dirs: Dirs, st: Store, ch: Chains) {
    && Good(st, ch) && (forall k :: k in ch ==> k >= 0 && ch[k] != [] && ch[k][0] == k)
    && forall d :: d in dirs ==> d in ch && ch[d] == [d]
  }

  /** A table of zeros whose first entry has been taken. */
  function NewStore(pages: set<int>, page: int): Store {
    Taken(Store(seq(NR_CLU, _ => Entry(0, 0)), map[], pages), 0, page)
  }

  lemma RootStore(dirs: Dirs, pages: set<int>, page: int)
    requires dirs.Keys == {0} && page in pages
    ensures Rooted(dirs, NewStore(pages, page), map[0 := [0]])
  {
  }

  lemma RootTree(dirs: Dirs)
    requires dirs.Keys == {0} && |dirs[0]| == NR_REC && dirs[0][0] == Record(".", Dir, 0, 0, 0)
    requires forall s :: 1 <= s < NR_REC ==> dirs[0][s].kind == RamTree.Free
    ensures TreeOk(dirs) && Shared(dirs, map[0 := 0], {0}) && CountsCover(dirs, map[0 := 0], 1)
    ensures forall c :: Names(dirs, c) == {}
  {
    forall c
      ensures Names(dirs, c) == {}
    {
      forall p
        ensures p !in Names(dirs, c)
      {
      }
    }
    hide Names;
  }

  /** Every chain there was is there, with the bytes it held. */
  ghost predicate SameChains(st: Store, ch: Chains, st': Store, ch': Chains) {
    forall k :: k in ch ==> k in ch' && ch'[k] == ch[k] && Flat(st', ch[k]) == Flat(st, ch[k])
  }

  function OpensAt(dirs: Dirs, p: (nat, nat)): nat {
    if p.0 in dirs && p.1 < |dirs[p.0]| then dirs[p.0][p.1].opens else 0
  }

  function CountAt(dirs: Dirs, cells: map<nat, nat>, p: (nat, nat)): nat {
    if p.0 in dirs && p.1 < |dirs[p.0]| && dirs[p.0][p.1].cell in cells then cells[dirs[p.0][p.1].cell] else 0
  }

  function SetOpens(dirs: Dirs, p: (nat, nat), n: nat): Dirs {
    if p.0 in dirs && p.1 < |dirs[p.0]| then dirs[p.0 := dirs[p.0][p.1 := dirs[p.0][p.1].(opens := n)]] else dirs
  }

  /** After a deletion: either nothing has changed; or the file had one name, its entries in the
      table are zero and its pages free, and every other chain, entry and byte is as it was. */
  ghost predicate DeleteDone(dirs: Dirs, cells: map<nat, nat>, st: Store, ch: Chains, dirs': Dirs, cells': map<nat, nat>,
                             st': Store, ch': Chains, path: string, r: int)
  {
    var w := Wanted(dirs, Lookup(dirs, path), File);
    if w.Some? && CountAt(dirs, cells, w.value) == 0 && OpensAt(dirs, w.value) == 0 then
      && r == 0 && w.value.0 in dirs && w.value.1 < |dirs[w.value.0]|
      && dirs' == Without(dirs, w.value)
      && var rec := dirs[w.value.0][w.value.1];
         && cells' == cells - {rec.cell} && rec.start in ch && ch' == ch - {rec.start}
         && SameChains(st', ch', st, ch)
         && Names(dirs, rec.cell) == {w.value}
         && |st'.fat| == |st.fat|
         && (forall cl :: 0 <= cl < |st.fat| ==> st'.fat[cl].next == if cl in ch[rec.start] then 0 else st.fat[cl].next)
         && forall k, i :: k in ch' && 0 <= i < |ch'[k]| ==> ch'[k][i] !in ch[rec.start]
    else
      && r == (if w.Some? then -1 else -2) && dirs' == dirs && cells' == cells && st' == st && ch' == ch
  }

  /** The new name is found, and every other path leads where it did, found or not. */
  ghost predicate OnlyNew(dirs: Dirs, dirs': Dirs, path: string, p: (nat, nat)) {
    && p.0 in dirs && p.1 < |dirs[p.0]| && dirs[p.0][p.1].kind == RamTree.Free
    && forall q :: Lookup(dirs', q) == if Lookup(dirs, q) == Absent(p.0) && LastName(q) == LastName(path) then At(p.0, p.1)
                                    else Lookup(dirs, q)
  }

  /** The name at p is gone, and every other path leads where it did. */
  ghost predicate Gone(dirs: Dirs, dirs': Dirs, p: (nat, nat)) {
    forall q :: Lookup(dirs', q) == if Lookup(dirs, q) == At(p.0, p.1) then Absent(p.0) else Lookup(dirs, q)
  }

  ghost predicate NameGone(dirs: Dirs, dirs': Dirs, path: string) {
    var w := Wanted(dirs, Lookup(dirs, path), File);
    w.Some? && Gone(dirs, dirs', w.value)
  }

  lemma WithoutGone(dirs: Dirs, p: (nat, nat))
    requires TreeOk(dirs) && IsFile(dirs, p)
    ensures Gone(dirs, Without(dirs, p), p)
  {
    forall q
      ensures Lookup(Without(dirs, p), q) == if Lookup(dirs, q) == At(p.0, p.1) then Absent(p.0) else Lookup(dirs, q)
    {
      GoneOnly(dirs, p, 0, Components(q));
    }
  }

  /** Removing a name that was made gives every path back what it led to. */
  lemma MadeThenGone(dirs: Dirs, dirs1: Dirs, dirs2: Dirs, path: string, p: (nat, nat))
    requires OnlyNew(dirs, dirs1, path, p) && Gone(dirs1, dirs2, p)
    ensures forall q :: Lookup(dirs2, q) == Lookup(dirs, q)
  {
    forall q
      ensures Lookup(dirs2, q) == Lookup(dirs, q)
    {
      assert Lookup(dirs, q) != At(p.0, p.1);
    }
  }

  /** Every name on the path fits the buffer it is copied to. */
  predicate ShortNames(path: string) {
    forall c :: c in Components(path) ==> |c| < NAME_MAX
  }

  /** A name is to be made: asked for, and only the last name is missing. */
  predicate Makes(dirs: Dirs, path: string, create: bool) {
    create && Lookup(dirs, path).Absent? && LastName(path) != ""
  }

  /** The directory that lacks the last name has a free record. */
  predicate RoomFor(dirs: Dirs, path: string) {
    Makes(dirs, path, true) ==> FreeSlot(dirs[Lookup(dirs, path).dir]) < NR_REC
  }

  function Wanted(dirs: Dirs, p: Place, kind: Kind): Option<(nat, nat)> {
    match p
    case At(d, s) => if d in dirs && s < |dirs[d]| && dirs[d][s].kind == kind then Some((d, s)) else None
    case _ => None
  }

  /** The new name: in the first free record of its directory, which is all that is added; a
      new file or directory starts a chain of its own. */
  ghost predicate Made(dirs: Dirs, cells: map<nat, nat>, next: nat, used: set<int>, dirs': Dirs, cells': map<nat, nat>,
                       next': nat, used': set<int>, path: string, p: (nat, nat), kind: Kind, like: Option<Record>)
  {
    && Lookup(dirs, path) == Absent(p.0) && p.0 in dirs && p.0 in dirs' && p.1 == FreeSlot(dirs[p.0]) < |dirs'[p.0]|
    && Added(dirs, dirs', p.0, p.1, dirs'[p.0][p.1]) && NoNewFiles(dirs, dirs')
    && (kind == Dir && like.None? ==>
          var c := dirs'[p.0][p.1].start; c !in dirs && c in dirs' && EmptyBut(dirs'[c], c, p.0))
    && exists inew: nat :: inew !in used && used' == used + (if like.None? then {inew} else {})
                      && Wrote(dirs, cells, next, dirs', cells', next', LastName(path), dirs'[p.0][p.1], inew, kind, like)
  }

  lemma NewIsEmpty(dirs: Dirs, d: nat, clu: nat, cell: nat, slot: nat, name: string)
    requires FitsIn(dirs, d, slot, name) && d in dirs
    ensures |dirs[d]| > 0 && EmptyBut(NewDirectory(clu, cell, dirs[d][0]), clu, d)
  {
  }

  /** A directory that holds itself and its parent, and free records. */
  ghost predicate EmptyBut(d: seq<Record>, self: nat, parent: nat) {
    && |d| == 27 && d[0].name == "." && d[0].kind == Dir && d[0].start == self
    && d[1].name == ".." && d[1].kind == Dir && d[1].start == parent
    && forall k :: 2 <= k < 27 ==> d[k].kind == RamTree.Free && d[k].opens == 0
  }

  /** The place is in the tree; a name that is absent is so in its directory. */
  ghost predicate PlaceThere(dirs: Dirs, place: Place, name: string) {
    && (place.At? ==> place.dir in dirs && place.slot < |dirs[place.dir]|)
    && (place.Absent? ==> place.dir in dirs && (name != "" ==> FirstMatch(dirs[place.dir], name, false) == NR_REC))
  }

  /** From position pos on, the path is still to be followed, from directory d. */
  ghost predicate Ahead(dirs: Dirs, path: string, pos: nat, d: nat) {
    && pos <= |path| && d in dirs
    && Lookup(dirs, path) == Locate(dirs, d, Components(path[pos..])) && LastName(path) == LastName(path[pos..])
  }

  lemma AheadFromRoot(dirs: Dirs, path: string)
    requires TreeOk(dirs)
    ensures Ahead(dirs, path, 0, 0)
  {
    assert path[0..] == path;
  }

  lemma NothingAhead(dirs: Dirs, path: string, d: nat)
    requires TreeOk(dirs) && Ahead(dirs, path, |path|, d)
    ensures Lookup(dirs, path) == Absent(d) && LastName(path) == "" && PlaceThere(dirs, Absent(d), "")
  {
    assert Components(path[|path|..]) == [""];
    EmptyNameAbsent(dirs, d, Components(path[|path|..]));
  }

  lemma DirsBelow(dirs: Dirs, d: nat)
    requires TreeOk(dirs) && d in dirs
    ensures |dirs[d]| == NR_REC && forall i :: 0 <= i < NR_REC && dirs[d][i].kind == Dir ==> dirs[d][i].start in dirs
  {
  }

  /** The loop's next name is the path's next component. */
  lemma NextName(dirs: Dirs, path: string, from: nat, to: nat, d: nat)
    requires from <= to <= |path| && (to < |path| ==> path[to] == '/') && forall k :: from <= k < to ==> path[k] != '/'
    requires TreeOk(dirs) && d in dirs
    ensures var name, rest := path[from..to], Components(path[from..]);
            var i := FirstMatch(dirs[d], name, to < |path|);
            && |dirs[d]| == NR_REC
            && (if to < |path|
                then rest == [name] + Components(path[to + 1..]) && LastName(path[from..]) == LastName(path[to + 1..])
                else rest == [name] && LastName(path[from..]) == name)
            && Locate(dirs, d, rest)
               == (if i == NR_REC then if to < |path| then NoAncestor else Absent(d)
                   else if to < |path| then Locate(dirs, dirs[d][i].start, Components(path[to + 1..])) else At(d, i))
            && (i < NR_REC && to < |path| ==> dirs[d][i].start in dirs)
  {
    hide TreeOk;
    var s := path[from..];
    DirsBelow(dirs, d);
    IndexIs(s, '/', to - from);
    assert s[..to - from] == path[from..to];
    if to < |path| {
      assert s[to - from + 1..] == path[to + 1..];
      var i := FirstMatch(dirs[d], path[from..to], true);
      assert i < NR_REC ==> Matches(dirs[d][i], path[from..to], true);
    } else {
      assert s == path[from..to];
    }
  }

  /** What the new record is, and which cells were made for it. */
  ghost predicate Wrote(dirs: Dirs, cells: map<nat, nat>, next: nat, dirs': Dirs, cells': map<nat, nat>, next': nat,
                        name: string, r: Record, entClu: nat, kind: Kind, like: Option<Record>)
  {
    r.name == name &&
    match like
    case Some(l) =>
      r.kind == l.kind && r.start == l.start && r.cell == l.cell && cells' == cells && next' == next && dirs'.Keys == dirs.Keys
    case None =>
      && r.kind == kind && r.start == entClu && r.opens == 0
      && if kind == File then r.cell == next && cells' == cells[next := 0] && next' == next + 1 && dirs'.Keys == dirs.Keys
         else cells' == cells[next := 0][next + 1 := 0] && next' == next + 2 && dirs'.Keys == dirs.Keys + {entClu}
  }

  // ---------------------------------------------------------------- what the calls keep

  ghost predicate IsFile(dirs: Dirs, p: (nat, nat)) {
    p.0 in dirs && p.1 < |dirs[p.0]| && dirs[p.0][p.1].kind == File
  }

  /** No cell has gone and none has gone down: nothing ever lowers a link count. */
  ghost predicate Kept(cells: map<nat, nat>, cells': map<nat, nat>) {
    forall c :: c in cells ==> c in cells' && cells[c] <= cells'[c]
  }

  lemma KeptAll(cells: map<nat, nat>)
    ensures Kept(cells, cells)
  {
  }

  function KindAt(dirs: Dirs, d: nat, s: nat): Kind {
    if d in dirs && s < |dirs[d]| then dirs[d][s].kind else Free
  }

  lemma WantedAt(dirs: Dirs, path: string, kind: Kind)
    ensures var l := Lookup(dirs, path);
            && (l.At? ==> Wanted(dirs, l, kind) == if KindAt(dirs, l.dir, l.slot) == kind then Some((l.dir, l.slot)) else None)
            && (!l.At? ==> Wanted(dirs, l, kind) == None)
  {
  }

  lemma MakesIs(dirs: Dirs, path: string, create: bool)
    ensures Makes(dirs, path, create) <==> create && Lookup(dirs, path).Absent? && LastName(path) != ""
  {
  }

  lemma NeverMakes(dirs: Dirs, path: string)
    ensures !Makes(dirs, path, false)
  {
  }

  lemma WantedIs(dirs: Dirs, path: string, kind: Kind, p: Option<(nat, nat)>)
    requires p == Wanted(dirs, Lookup(dirs, path), kind) && p.Some?
    ensures Lookup(dirs, path) == At(p.value.0, p.value.1) && p.value.0 in dirs && p.value.1 < |dirs[p.value.0]|
    ensures dirs[p.value.0][p.value.1].kind == kind
  {
  }

  lemma CellThere(dirs: Dirs, cells: map<nat, nat>, used: set<int>, p: (nat, nat))
    requires Shared(dirs, cells, used) && IsFile(dirs, p)
    ensures dirs[p.0][p.1].cell in cells
  {
  }

  /** A count that goes up covers no fewer names. */
  lemma CountedAgain(dirs: Dirs, cells: map<nat, nat>, next: nat, used: set<int>, c: nat)
    requires Shared(dirs, cells, used) && CountsCover(dirs, cells, next) && c in cells
    ensures var cells' := cells[c := cells[c] + 1];
            Shared(dirs, cells', used) && CountsCover(dirs, cells', next) && Kept(cells, cells')
  {
  }

  /** The new name leads to the new record, and every path found before where it did. */
  lemma MadeFound(dirs: Dirs, cells: map<nat, nat>, next: nat, used: set<int>, dirs': Dirs, cells': map<nat, nat>,
                  next': nat, used': set<int>, path: string, p: (nat, nat), kind: Kind, like: Option<Record>)
    requires TreeOk(dirs) && Made(dirs, cells, next, used, dirs', cells', next', used', path, p, kind, like)
    ensures Lookup(dirs', path) == At(p.0, p.1)
    ensures forall q :: Lookup(dirs, q).At? ==> Lookup(dirs', q) == Lookup(dirs, q)
  {
    var r := dirs'[p.0][p.1];
    AddedFound(dirs, dirs', p.0, p.1, r, 0, Components(path));
    forall q | Lookup(dirs, q).At?
      ensures Lookup(dirs', q) == Lookup(dirs, q)
    {
      AddedKeeps(dirs, dirs', p.0, p.1, r, 0, Components(q));
    }
  }

  lemma MadeRecord(dirs: Dirs, cells: map<nat, nat>, next: nat, used: set<int>, dirs': Dirs, cells': map<nat, nat>,
                   next': nat, used': set<int>, path: string, p: (nat, nat), kind: Kind, like: Option<Record>)
    returns (inew: nat)
    requires Made(dirs, cells, next, used, dirs', cells', next', used', path, p, kind, like)
    ensures p.0 in dirs' && p.1 < |dirs'[p.0]| && Added(dirs, dirs', p.0, p.1, dirs'[p.0][p.1]) && NoNewFiles(dirs, dirs')
    ensures inew !in used && used' == used + (if like.None? then {inew} else {})
    ensures Wrote(dirs, cells, next, dirs', cells', next', LastName(path), dirs'[p.0][p.1], inew, kind, like)
  {
    hide Added, NoNewFiles, Wrote;
    inew :| inew !in used && used' == used + (if like.None? then {inew} else {})
            && Wrote(dirs, cells, next, dirs', cells', next', LastName(path), dirs'[p.0][p.1], inew, kind, like);
  }

  lemma CellsBelow(dirs: Dirs, cells: map<nat, nat>, next: nat)
    requires CountsCover(dirs, cells, next)
    ensures forall c :: c in cells ==> c < next
  {
  }

  lemma MadeFile(dirs: Dirs, cells: map<nat, nat>, next: nat, used: set<int>, dirs': Dirs, cells': map<nat, nat>,
                 next': nat, used': set<int>, path: string, p: (nat, nat))
    requires TreeOk(dirs) && Shared(dirs, cells, used) && CountsCover(dirs, cells, next)
    requires Made(dirs, cells, next, used, dirs', cells', next', used', path, p, File, None)
    ensures Shared(dirs', cells', used') && CountsCover(dirs', cells', next') && Kept(cells, cells')
    ensures IsFile(dirs', p) && Lookup(dirs', path) == At(p.0, p.1) && dirs'[p.0][p.1].opens == 0
    ensures forall q :: Lookup(dirs, q).At? ==> Lookup(dirs', q) == Lookup(dirs, q)
  {
    hide TreeOk, Made, Added, NoNewFiles, CountsCover, Lookup, Names;
    MadeFound(dirs, cells, next, used, dirs', cells', next', used', path, p, File, None);
    var inew := MadeRecord(dirs, cells, next, used, dirs', cells', next', used', path, p, File, None);
    CellsBelow(dirs, cells, next);
    NoNames(dirs, cells, used, next);
    SharedAdded(dirs, cells, used, dirs', cells', used', p.0, p.1, dirs'[p.0][p.1]);
    CountsAdded(dirs, cells, next, dirs', cells', next', p.0, p.1, dirs'[p.0][p.1]);
  }

  lemma MadeDirIs(dirs: Dirs, cells: map<nat, nat>, next: nat, used: set<int>, dirs': Dirs, cells': map<nat, nat>,
                  next': nat, used': set<int>, path: string, p: (nat, nat))
    requires Made(dirs, cells, next, used, dirs', cells', next', used', path, p, Dir, None)
    ensures Lookup(dirs, path) == Absent(p.0) && p.0 in dirs' && p.1 < |dirs'[p.0]|
    ensures var c := dirs'[p.0][p.1].start; c !in dirs && c in dirs' && EmptyBut(dirs'[c], c, p.0)
  {
    hide Added, NoNewFiles, Wrote, Lookup, EmptyBut;
  }

  lemma MadeDir(dirs: Dirs, cells: map<nat, nat>, next: nat, used: set<int>, dirs': Dirs, cells': map<nat, nat>,
                next': nat, used': set<int>, path: string, p: (nat, nat))
    requires TreeOk(dirs) && Shared(dirs, cells, used) && CountsCover(dirs, cells, next)
    requires Made(dirs, cells, next, used, dirs', cells', next', used', path, p, Dir, None)
    ensures Shared(dirs', cells', used') && CountsCover(dirs', cells', next') && Kept(cells, cells')
    ensures p.0 in dirs' && p.1 < |dirs'[p.0]| && dirs'[p.0][p.1].kind == Dir && Lookup(dirs', path) == At(p.0, p.1)
    ensures forall q :: Lookup(dirs, q).At? ==> Lookup(dirs', q) == Lookup(dirs, q)
    ensures Lookup(dirs, path) == Absent(p.0)
    ensures var c := dirs'[p.0][p.1].start; c !in dirs && c in dirs' && EmptyBut(dirs'[c], c, p.0)
  {
    hide TreeOk, Made, Added, NoNewFiles, CountsCover, Lookup, Names, EmptyBut;
    MadeDirIs(dirs, cells, next, used, dirs', cells', next', used', path, p);
    MadeFound(dirs, cells, next, used, dirs', cells', next', used', path, p, Dir, None);
    var inew := MadeRecord(dirs, cells, next, used, dirs', cells', next', used', path, p, Dir, None);
    CellsBelow(dirs, cells, next);
    NoNames(dirs, cells, used, next);
    NoNames(dirs, cells, used, next + 1);
    SharedAdded(dirs, cells, used, dirs', cells', used', p.0, p.1, dirs'[p.0][p.1]);
    CountsAdded(dirs, cells, next, dirs', cells', next', p.0, p.1, dirs'[p.0][p.1]);
  }

  /** A new name for the file at o, with the count raised after. */
  lemma MadeLink(dirs: Dirs, cells: map<nat, nat>, next: nat, used: set<int>, dirs': Dirs, cells1: map<nat, nat>,
                 next': nat, used': set<int>, path: string, p: (nat, nat), o: (nat, nat))
    requires TreeOk(dirs) && Shared(dirs, cells, used) && CountsCover(dirs, cells, next) && IsFile(dirs, o)
    requires Made(dirs, cells, next, used, dirs', cells1, next', used', path, p, File, Some(dirs[o.0][o.1]))
    ensures cells1 == cells && dirs[o.0][o.1].cell in cells && used' == used
    ensures var c := dirs[o.0][o.1].cell;
            var cells' := cells[c := cells[c] + 1];
            Shared(dirs', cells', used') && CountsCover(dirs', cells', next') && Kept(cells, cells')
    ensures IsFile(dirs', p) && Lookup(dirs', path) == At(p.0, p.1)
    ensures dirs'[p.0][p.1].cell == dirs[o.0][o.1].cell && dirs'[p.0][p.1].start == dirs[o.0][o.1].start
    ensures forall q :: Lookup(dirs, q).At? ==> Lookup(dirs', q) == Lookup(dirs, q)
  {
    hide TreeOk, Made, Added, NoNewFiles, CountsCover, Lookup, Names;
    MadeFound(dirs, cells, next, used, dirs', cells1, next', used', path, p, File, Some(dirs[o.0][o.1]));
    var inew := MadeRecord(dirs, cells, next, used, dirs', cells1, next', used', path, p, File, Some(dirs[o.0][o.1]));
    CellsBelow(dirs, cells, next);
    var c := dirs[o.0][o.1].cell;
    var cells' := cells[c := cells[c] + 1];
    SharedAdded(dirs, cells, used, dirs', cells', used', p.0, p.1, dirs'[p.0][p.1]);
    CountsAdded(dirs, cells, next, dirs', cells', next', p.0, p.1, dirs'[p.0][p.1]);
  }

  lemma IsFileAt(dirs: Dirs, p: (nat, nat))
    requires p.0 in dirs && p.1 < |dirs[p.0]| && dirs[p.0][p.1].kind == File
    ensures IsFile(dirs, p)
  {
  }

  /** What is a file afterwards was one before, the very same. */
  lemma WithoutOrigin(dirs: Dirs, p: (nat, nat), q: (nat, nat))
    requires p.0 in dirs && p.1 < |dirs[p.0]| && IsFile(Without(dirs, p), q)
    ensures q != p && IsFile(dirs, q) && Without(dirs, p)[q.0][q.1] == dirs[q.0][q.1]
  {
  }

  lemma WithoutTree(dirs: Dirs, p: (nat, nat))
    requires TreeOk(dirs) && IsFile(dirs, p)
    ensures TreeOk(Without(dirs, p))
  {
  }

  lemma WithoutShared(dirs: Dirs, cells: map<nat, nat>, used: set<int>, p: (nat, nat), cells': map<nat, nat>, used': set<int>)
    requires Shared(dirs, cells, used) && IsFile(dirs, p)
    requires forall d :: d in dirs ==> d in used'
    requires forall q: (nat, nat) :: IsFile(dirs, q) && q != p ==> dirs[q.0][q.1].cell in cells' && dirs[q.0][q.1].start in used'
    ensures Shared(Without(dirs, p), cells', used')
  {
    var dirs': Dirs := Without(dirs, p);
    forall d, s | d in dirs' && 0 <= s < |dirs'[d]| && dirs'[d][s].kind == File
      ensures dirs'[d][s].cell in cells' && dirs'[d][s].start in used' && dirs'[d][s].start !in dirs'
    {
      IsFileAt(dirs', (d, s));
      WithoutOrigin(dirs, p, (d, s));
    }
    forall d, s, e, t | d in dirs' && 0 <= s < |dirs'[d]| && e in dirs' && 0 <= t < |dirs'[e]|
      ensures dirs'[d][s].kind == File && dirs'[e][t].kind == File ==>
                (dirs'[d][s].cell == dirs'[e][t].cell <==> dirs'[d][s].start == dirs'[e][t].start)
    {
      if dirs'[d][s].kind == File && dirs'[e][t].kind == File {
        WithoutOrigin(dirs, p, (d, s));
        WithoutOrigin(dirs, p, (e, t));
      }
    }
  }

  lemma WithoutCounts(dirs: Dirs, cells: map<nat, nat>, next: nat, p: (nat, nat), cells': map<nat, nat>)
    requires CountsCover(dirs, cells, next) && p.0 in dirs && p.1 < |dirs[p.0]|
    requires forall c :: c in cells' ==> c in cells && cells'[c] == cells[c]
    ensures CountsCover(Without(dirs, p), cells', next)
  {
    hide Names;
    forall c | c in cells'
      ensures |Names(Without(dirs, p), c)| <= cells'[c] + 1
    {
      NamesRemoved(dirs, p.0, p.1, c);
      SubsetSmaller(Names(Without(dirs, p), c), Names(dirs, c));
    }
  }

  lemma StartsKeyed(dirs: Dirs, cells: map<nat, nat>, st: Store, ch: Chains)
    requires TreeOk(dirs) && Shared(dirs, cells, ch.Keys) && Rooted(dirs, st, ch)
    ensures 0 in dirs && (forall d :: d in dirs ==> d in ch)
    ensures forall q: (nat, nat) :: IsFile(dirs, q) ==>
      dirs[q.0][q.1].cell in cells && dirs[q.0][q.1].start in ch && dirs[q.0][q.1].start !in dirs
  {
    hide Good;
  }

  /** A name that goes leaves the others sound. */
  lemma NameFreed(dirs: Dirs, cells: map<nat, nat>, next: nat, st: Store, ch: Chains, p: (nat, nat))
    requires TreeOk(dirs) && Shared(dirs, cells, ch.Keys) && CountsCover(dirs, cells, next) && Rooted(dirs, st, ch)
    requires IsFile(dirs, p)
    ensures var dirs' := Without(dirs, p);
            TreeOk(dirs') && Shared(dirs', cells, ch.Keys) && CountsCover(dirs', cells, next) && Rooted(dirs', st, ch)
  {
    hide TreeOk, Shared, CountsCover, Rooted;
    StartsKeyed(dirs, cells, st, ch);
    WithoutTree(dirs, p);
    WithoutShared(dirs, cells, ch.Keys, p, cells, ch.Keys);
    WithoutCounts(dirs, cells, next, p, cells);
    SameKeysRooted(dirs, Without(dirs, p), st, ch);
  }

  /** Clusters are released only with the last name, and they are nobody else's. */
  lemma Released(dirs: Dirs, cells: map<nat, nat>, next: nat, st: Store, ch: Chains, p: (nat, nat))
    requires TreeOk(dirs) && Shared(dirs, cells, ch.Keys) && CountsCover(dirs, cells, next) && Rooted(dirs, st, ch)
    requires IsFile(dirs, p) && dirs[p.0][p.1].cell in cells && cells[dirs[p.0][p.1].cell] == 0
    ensures var r := dirs[p.0][p.1];
            && r.start in ch && ch[r.start] != [] && ch[r.start][0] == r.start && Good(st, ch) && ChainInside(st, ch[r.start])
            && var dirs' := Without(dirs, p);
            && TreeOk(dirs') && Shared(dirs', cells - {r.cell}, ch.Keys - {r.start}) && (ch - {r.start}).Keys == ch.Keys - {r.start}
            && CountsCover(dirs', cells - {r.cell}, next)
            && Rooted(dirs', FreedAll(st, ch[r.start]), ch - {r.start})
            && Names(dirs, r.cell) == {p}
            && ReleasedOnly(st, ch, r.start)
  {
    hide TreeOk, Shared, CountsCover, Rooted, Good, ReleasedOnly, Names, FreedAll;
    var r := dirs[p.0][p.1];
    StartsKeyed(dirs, cells, st, ch);
    WithoutTree(dirs, p);
    OneName(dirs, cells, next, p);
    OthersKeyed(dirs, cells, next, ch, p);
    WithoutShared(dirs, cells, ch.Keys, p, cells - {r.cell}, ch.Keys - {r.start});
    WithoutCounts(dirs, cells, next, p, cells - {r.cell});
    ReleaseKeeps(dirs, st, ch, r.start);
    SameKeysRooted(dirs, Without(dirs, p), FreedAll(st, ch[r.start]), ch - {r.start});
  }

  lemma OthersKeyed(dirs: Dirs, cells: map<nat, nat>, next: nat, ch: Chains, p: (nat, nat))
    requires Shared(dirs, cells, ch.Keys) && CountsCover(dirs, cells, next)
    requires IsFile(dirs, p) && dirs[p.0][p.1].cell in cells && cells[dirs[p.0][p.1].cell] == 0
    ensures forall d :: d in dirs ==> d in ch.Keys - {dirs[p.0][p.1].start}
    ensures forall q: (nat, nat) :: IsFile(dirs, q) && q != p ==>
      dirs[q.0][q.1].cell in cells - {dirs[p.0][p.1].cell} && dirs[q.0][q.1].start in ch.Keys - {dirs[p.0][p.1].start}
  {
    hide CountsCover;
    FileNotDir(dirs, cells, ch.Keys, p);
    forall q: (nat, nat) | IsFile(dirs, q) && q != p
      ensures dirs[q.0][q.1].cell in cells - {dirs[p.0][p.1].cell}
      ensures dirs[q.0][q.1].start in ch.Keys - {dirs[p.0][p.1].start}
    {
      OnlyName(dirs, cells, next, ch.Keys, p.0, p.1, q.0, q.1);
    }
  }

  lemma OneName(dirs: Dirs, cells: map<nat, nat>, next: nat, p: (nat, nat))
    requires CountsCover(dirs, cells, next) && IsFile(dirs, p)
    requires dirs[p.0][p.1].cell in cells && cells[dirs[p.0][p.1].cell] == 0
    ensures Names(dirs, dirs[p.0][p.1].cell) == {p}
  {
    var c := dirs[p.0][p.1].cell;
    assert IsName(dirs, p.0, p.1, c);
    assert p in Names(dirs, c);
    forall q | q in Names(dirs, c)
      ensures q == p
    {
      SubsetSmaller({p, q}, Names(dirs, c));
    }
  }

  /** Releasing the chain zeroes its entries and touches no cluster of another chain. */
  ghost predicate ReleasedOnly(st: Store, ch: Chains, f: int)
    requires f in ch && ChainInside(st, ch[f])
  {
    var st' := FreedAll(st, ch[f]);
    && SameChains(st', ch - {f}, st, ch)
    && (forall cl :: 0 <= cl < |st.fat| ==> st'.fat[cl].next == if cl in ch[f] then 0 else st.fat[cl].next)
    && forall k, i :: k in ch - {f} && 0 <= i < |ch[k]| ==> ch[k][i] !in ch[f]
  }

  lemma ReleaseKeeps(dirs: Dirs, st: Store, ch: Chains, f: int)
    requires Rooted(dirs, st, ch) && f in ch && f !in dirs && 0 in dirs
    ensures Good(st, ch) && ch[f] != [] && ch[f][0] == f && ChainInside(st, ch[f]) && ReleasedOnly(st, ch, f)
    ensures Rooted(dirs, FreedAll(st, ch[f]), ch - {f})
  {
    hide Good, View, Flat, FreedAll, SameChains;
    RootedGood(dirs, st, ch);
    GoodInside(st, ch, f);
    var st' := FreedAll(st, ch[f]);
    forall k, i | k in ch - {f} && 0 <= i < |ch[k]|
      ensures ch[k][i] !in ch[f]
    {
      ChainsApart(st, ch, k, i, f);
    }
    assert ch[0][0] == 0;
    FreedGood(st, ch, f);
    DropSame(st, st', ch, f);
    NextZeroed(st, ch[f]);
  }

  lemma NextZeroed(st: Store, c: seq<nat>)
    requires ChainInside(st, c)
    ensures forall cl :: 0 <= cl < |st.fat| ==> FreedAll(st, c).fat[cl].next == if cl in c then 0 else st.fat[cl].next
  {
    forall cl | 0 <= cl < |st.fat|
      ensures FreedAll(st, c).fat[cl].next == if cl in c then 0 else st.fat[cl].next
    {
      FreedAllExact(st, c, cl, 0);
    }
  }

  lemma ChainsApart(st: Store, ch: Chains, k: int, i: nat, f: int)
    requires Good(st, ch) && k in ch && f in ch && k != f && i < |ch[k]|
    ensures ch[k][i] !in ch[f]
  {
    forall j | 0 <= j < |ch[f]|
      ensures ch[f][j] != ch[k][i]
    {
      assert Addr(st, ch[k][i]) == Addr(st, ch[f][j]) ==> k == f && i == j;
    }
  }

  lemma DropSame(st: Store, st': Store, ch: Chains, f: int)
    requires f in ch && View(st', ch - {f}) == View(st, ch) - {f}
    ensures SameChains(st', ch - {f}, st, ch)
  {
    forall k | k in ch - {f}
      ensures Flat(st', ch[k]) == Flat(st, ch[k])
    {
      assert View(st', ch - {f})[k] == View(st, ch)[k];
    }
  }

  // ---------------------------------------------------------------- small steps

  lemma FileNotDir(dirs: Dirs, cells: map<nat, nat>, used: set<int>, p: (nat, nat))
    requires Shared(dirs, cells, used) && IsFile(dirs, p)
    ensures dirs[p.0][p.1].start in used && dirs[p.0][p.1].start !in dirs
  {
  }

  lemma RootedGood(dirs: Dirs, st: Store, ch: Chains)
    requires Rooted(dirs, st, ch)
    ensures Good(st, ch) && forall d :: d in dirs ==> d in ch
  {
  }

  lemma SameChainsStart(st: Store, ch: Chains)
    ensures SameChains(st, ch, st, ch)
  {
  }

  lemma SameMap(ch: Chains, ch': Chains, st: Store, st': Store)
    requires ch'.Keys == ch.Keys && SameChains(st, ch, st', ch')
    ensures ch' == ch
  {
    hide Flat;
    forall k | k in ch
      ensures ch'[k] == ch[k]
    {
    }
  }

  lemma SameKeysRooted(dirs: Dirs, dirs': Dirs, st: Store, ch: Chains)
    requires Rooted(dirs, st, ch) && dirs'.Keys == dirs.Keys
    ensures Rooted(dirs', st, ch)
  {
    hide Good;
  }

  lemma SetOpensRooted(dirs: Dirs, st: Store, ch: Chains, d: nat, s: nat, n: nat)
    requires Rooted(dirs, st, ch) && d in dirs && s < |dirs[d]|
    ensures Rooted(SetOpens(dirs, (d, s), n), st, ch)
  {
    SameKeysRooted(dirs, SetOpens(dirs, (d, s), n), st, ch);
  }

  lemma StillRooted(dirs: Dirs, st: Store, st': Store, ch: Chains)
    requires Rooted(dirs, st, ch) && Good(st', ch) && View(st', ch) == View(st, ch)
    ensures Rooted(dirs, st', ch) && SameChains(st, ch, st', ch)
  {
    hide Good, Flat;
    forall k | k in ch
      ensures Flat(st', ch[k]) == Flat(st, ch[k])
    {
      assert View(st', ch)[k] == View(st, ch)[k];
    }
  }

  /** An unused entry starts no chain. */
  lemma FreshStart(dirs: Dirs, st: Store, ch: Chains, i: nat)
    requires Rooted(dirs, st, ch) && i < |st.fat| && st.fat[i].next == 0
    ensures i !in ch && i !in dirs
  {
    if i in ch {
      UnusedOff(st, ch, i, i, 0);
    }
  }

  lemma NewChain(st0: Store, st: Store, ch: Chains, i: nat, a: int)
    requires Good(st, ch) && Loose(st, ch, i, a) && i !in ch && SameChains(st0, ch, st, ch)
    ensures Good(st, ch[i := [i]]) && SameChains(st0, ch, st, ch[i := [i]])
  {
    StartGood(st, ch, i, a, i);
    hide Good, Loose, View, Flat;
  }

  /** One chain more: the cluster at c by itself. */
  ghost function NewStart(ch: Chains, c: nat): Chains {
    ch[c := [c]]
  }

  function StartAt(dirs: Dirs, d: nat, s: nat): nat {
    if d in dirs && s < |dirs[d]| then dirs[d][s].start else 0
  }

  /** The record of a file just made: the last name, a new count of 0, a chain of one cluster. */
  ghost predicate NewFileAt(cells: map<nat, nat>, ch: Chains, dirs': Dirs, cells': map<nat, nat>, ch': Chains,
                            path: string, p: (nat, nat), opens: nat)
  {
    && p.0 in dirs' && p.1 < |dirs'[p.0]|
    && var r := dirs'[p.0][p.1];
       && r.name == LastName(path) && r.opens == opens && r.cell !in cells && cells' == cells[r.cell := 0]
       && r.start !in ch && ch' == NewStart(ch, r.start)
  }

  lemma MadeFileIs(dirs: Dirs, cells: map<nat, nat>, next: nat, ch: Chains, dirs': Dirs, cells': map<nat, nat>,
                   next': nat, ch': Chains, path: string, p: (nat, nat))
    requires Made(dirs, cells, next, ch.Keys, dirs', cells', next', ch'.Keys, path, p, File, None)
    requires CountsCover(dirs, cells, next) && ch' == NewStart(ch, StartAt(dirs', p.0, p.1))
    ensures NewFileAt(cells, ch, dirs', cells', ch', path, p, 0)
  {
    hide Added, NoNewFiles, LastName, Lookup, Names, NewStart;
  }

  lemma MadeName(dirs: Dirs, cells: map<nat, nat>, next: nat, used: set<int>, dirs': Dirs, cells': map<nat, nat>,
                 next': nat, used': set<int>, path: string, p: (nat, nat), kind: Kind, like: Option<Record>)
    requires Made(dirs, cells, next, used, dirs', cells', next', used', path, p, kind, like)
    ensures p.0 in dirs' && p.1 < |dirs'[p.0]| && dirs'[p.0][p.1].name == LastName(path)
  {
    hide Added, NoNewFiles, LastName, Lookup;
  }

  lemma WroteStart(dirs: Dirs, cells: map<nat, nat>, next: nat, dirs': Dirs, cells': map<nat, nat>, next': nat,
                   name: string, r: Record, entClu: nat, kind: Kind, like: Option<Record>)
    requires Wrote(dirs, cells, next, dirs', cells', next', name, r, entClu, kind, like)
    ensures like.None? ==> r.start == entClu
  {
  }

  lemma WroteDirs(dirs: Dirs, dirs': Dirs, cells': map<nat, nat>, next': nat, cells: map<nat, nat>, next: nat,
                  name: string, r: Record, inew: nat, kind: Kind, like: Option<Record>)
    requires Wrote(dirs, cells, next, dirs', cells', next', name, r, inew, kind, like)
    ensures if like.None? then dirs'.Keys <= dirs.Keys + {inew} else dirs'.Keys == dirs.Keys
  {
  }

  lemma ChainRooted(dirs: Dirs, dirs': Dirs, st: Store, ch: Chains, i: nat)
    requires Rooted(dirs, st, ch) && Good(st, ch[i := [i]]) && dirs'.Keys <= dirs.Keys + {i} && i !in ch
    ensures Rooted(dirs', st, ch[i := [i]])
  {
    hide Good;
  }

  lemma GrownRooted(dirs: Dirs, st: Store, ch: Chains, st': Store, ch': Chains, f: int)
    requires Rooted(dirs, st, ch) && f in ch && f !in dirs && Good(st', ch')
    requires f in ch' && ch' == ch[f := ch'[f]] && ch[f] <= ch'[f] && View(st', ch') == View(st, ch)[f := Flat(st', ch'[f])]
    ensures Rooted(dirs, st', ch') && ch'.Keys == ch.Keys
    ensures forall k :: k in ch' && k != f ==> ch'[k] == ch[k] && Flat(st', ch'[k]) == Flat(st, ch[k])
  {
    hide Good, Flat;
    forall k | k in ch' && k != f
      ensures ch'[k] == ch[k] && Flat(st', ch'[k]) == Flat(st, ch[k])
    {
      assert View(st', ch')[k] == View(st, ch)[k];
    }
  }

  lemma MadeOnly(dirs: Dirs, cells: map<nat, nat>, next: nat, used: set<int>, dirs': Dirs, cells': map<nat, nat>,
                 next': nat, used': set<int>, path: string, p: (nat, nat), like: Option<Record>)
    requires TreeOk(dirs) && Made(dirs, cells, next, used, dirs', cells', next', used', path, p, File, like)
    requires like.Some? ==> like.value.kind == File
    ensures OnlyNew(dirs, dirs', path, p)
  {
    var r := dirs'[p.0][p.1];
    forall q
      ensures Lookup(dirs', q) == if Lookup(dirs, q) == Absent(p.0) && LastName(q) == LastName(path) then At(p.0, p.1)
                                  else Lookup(dirs, q)
    {
      if Lookup(dirs, q) == Absent(p.0) && LastName(q) == LastName(path) {
        AddedFound(dirs, dirs', p.0, p.1, r, 0, Components(q));
      } else {
        AddedOnly(dirs, dirs', p.0, p.1, r, 0, Components(q));
      }
    }
  }

  lemma OnlyNewOn(dirs: Dirs, dirs1: Dirs, dirs': Dirs, path: string, p: (nat, nat))
    requires OnlyNew(dirs, dirs1, path, p) && forall q :: Lookup(dirs', q) == Lookup(dirs1, q)
    ensures OnlyNew(dirs, dirs', path, p)
  {
    hide Lookup, LastName;
  }

  lemma DeleteRefused(dirs: Dirs, cells: map<nat, nat>, st: Store, ch: Chains, path: string)
    ensures var w := Wanted(dirs, Lookup(dirs, path), File);
            !(w.Some? && CountAt(dirs, cells, w.value) == 0 && OpensAt(dirs, w.value) == 0) ==>
              DeleteDone(dirs, cells, st, ch, dirs, cells, st, ch, path, if w.Some? then -1 else -2)
  {
    hide Lookup, Wanted, Without, SameChains;
  }

  /** Which deletions go through: of a file with count 0 that nobody has open by this name. Its
      record is then free, and so is every entry of its chain. */
  lemma DeleteMeans(dirs: Dirs, cells: map<nat, nat>, st: Store, ch: Chains, dirs': Dirs, cells': map<nat, nat>, st': Store,
                    ch': Chains, path: string, r: int, d: nat, s: nat)
    requires DeleteDone(dirs, cells, st, ch, dirs', cells', st', ch', path, r)
    requires Lookup(dirs, path) == At(d, s) && d in dirs && s < |dirs[d]| && dirs[d][s].cell in cells
    ensures r == 0 <==> dirs[d][s].kind == File && cells[dirs[d][s].cell] == 0 && dirs[d][s].opens == 0
    ensures r == 0 ==>
      && d in dirs' && s < |dirs'[d]| && dirs'[d][s].kind == RamTree.Free && dirs[d][s].start in ch
      && forall cl :: cl in ch[dirs[d][s].start] && cl < |st.fat| ==> cl < |st'.fat| && st'.fat[cl].next == 0
    ensures r != 0 ==> dirs' == dirs && cells' == cells && st' == st
  {
    hide Lookup, SameChains, Names;
  }

  lemma DeleteDoneIs(dirs: Dirs, cells: map<nat, nat>, st: Store, ch: Chains, path: string, p: (nat, nat))
    requires Wanted(dirs, Lookup(dirs, path), File) == Some(p) && p.0 in dirs && p.1 < |dirs[p.0]|
    requires CountAt(dirs, cells, p) == 0 && OpensAt(dirs, p) == 0 && Names(dirs, dirs[p.0][p.1].cell) == {p}
    requires dirs[p.0][p.1].start in ch && ChainInside(st, ch[dirs[p.0][p.1].start])
    requires ReleasedOnly(st, ch, dirs[p.0][p.1].start)
    ensures var r := dirs[p.0][p.1];
            DeleteDone(dirs, cells, st, ch, Without(dirs, p), cells - {r.cell}, FreedAll(st, ch[r.start]), ch - {r.start}, path, 0)
  {
    hide Lookup, Wanted, Without, SameChains, Names, FreedAll;
  }
}
