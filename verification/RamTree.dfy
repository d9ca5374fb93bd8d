/** Names of kernel/ramfs.c: `find_path` over one-cluster directories, hard links to files. */
module RamTree {
  import opened Common

  /** Records of a directory cluster. */
  const NR_REC: nat := 27
  const NAME_MAX: nat := 128

  datatype Kind = Free | File | Dir

  /** A directory entry: the first cluster of what it names, the cell of its link count and
      its open count. */
  datatype Record = Record(name: string, kind: Kind, start: nat, cell: nat, opens: nat)

  /** Directories by their cluster; the root is cluster 0. */
  type Dirs = map<nat, seq<Record>>

  // ---------------------------------------------------------------- paths

  function IndexOf(s: string, c: char): (i: nat)
    ensures i <= |s| && (i < |s| ==> s[i] == c) && forall k :: 0 <= k < i ==> s[k] != c
  {
    if s == "" || s[0] == c then 0 else 1 + IndexOf(s[1..], c)
  }

  function Components(path: string): (cs: seq<string>)
    ensures |cs| > 0
    decreases |path|
  {
    var i := IndexOf(path, '/');
    if i == |path| then [path] else [path[..i]] + Components(path[i + 1..])
  }

  lemma {:induction false} IndexIs(s: string, c: char, i: nat)
    requires i <= |s| && (i < |s| ==> s[i] == c) && forall k :: 0 <= k < i ==> s[k] != c
    ensures IndexOf(s, c) == i
  {
    if i > 0 {
      IndexIs(s[1..], c, i - 1);
    }
  }

  // ---------------------------------------------------------------- lookup, component by component

  predicate Matches(r: Record, name: string, dirsOnly: bool) {
    r.kind != Free && r.name == name && (dirsOnly ==> r.kind == Dir)
  }

  /** The first record that matches, or the number of records. */
  function FirstMatch(d: seq<Record>, name: string, dirsOnly: bool): (i: nat)
    ensures i <= |d| && (i < |d| ==> Matches(d[i], name, dirsOnly))
    ensures forall k :: 0 <= k < i ==> !Matches(d[k], name, dirsOnly)
  {
    if d == [] || Matches(d[0], name, dirsOnly) then 0 else 1 + FirstMatch(d[1..], name, dirsOnly)
  }

  lemma {:induction false} FirstMatchIs(d: seq<Record>, name: string, dirsOnly: bool, i: nat)
    requires i <= |d| && (i < |d| ==> Matches(d[i], name, dirsOnly))
    requires forall k :: 0 <= k < i ==> !Matches(d[k], name, dirsOnly)
    ensures FirstMatch(d, name, dirsOnly) == i
  {
    if i > 0 {
      assert !Matches(d[0], name, dirsOnly);
      FirstMatchIs(d[1..], name, dirsOnly, i - 1);
    }
  }

  /** Where a path leads: nowhere for want of an ancestor, to a directory that lacks the last
      name, or to a record. */
  datatype Place = NoAncestor | Absent(dir: nat) | At(dir: nat, slot: nat)

  /** Directories are of one cluster, their subdirectories exist, and no name is empty or there
      twice. */
  ghost predicate TreeOk(dirs: Dirs) {
    && 0 in dirs && (forall d :: d in dirs ==> |dirs[d]| == NR_REC && dirs[d][0].kind == Dir && dirs[d][0].start == d)
    && (forall d, s :: d in dirs && 0 <= s < NR_REC && dirs[d][s].kind == Dir ==> dirs[d][s].start in dirs)
    && (forall d, s :: d in dirs && 0 <= s < NR_REC && dirs[d][s].kind != Free ==> dirs[d][s].name != "")
    && forall d :: d in dirs ==> Unique(dirs[d])
  }

  ghost predicate Unique(d: seq<Record>) {
    forall s, t :: 0 <= s < t < |d| && d[s].kind != Free && d[t].kind != Free ==> d[s].name != d[t].name
  }

  function Locate(dirs: Dirs, d: nat, cs: seq<string>): (p: Place)
    requires |cs| > 0
    ensures p.At? ==> p.dir in dirs && p.slot < |dirs[p.dir]| && dirs[p.dir][p.slot].kind != Free
    ensures p.Absent? ==> p.dir in dirs
    decreases |cs|
  {
    if d !in dirs then NoAncestor
    else if |cs| == 1 then
      var i := FirstMatch(dirs[d], cs[0], false);
      if i < |dirs[d]| then At(d, i) else Absent(d)
    else
      var i := FirstMatch(dirs[d], cs[0], true);
      if i < |dirs[d]| then Locate(dirs, dirs[d][i].start, cs[1..]) else NoAncestor
  }

  /** The directory that has or lacks the last name. */
  function Lookup(dirs: Dirs, path: string): Place {
    Locate(dirs, 0, Components(path))
  }

  function LastName(path: string): string {
    Components(path)[|Components(path)| - 1]
  }

  // ---------------------------------------------------------------- what lookup means

  predicate NoSlash(s: string) {
    forall k :: 0 <= k < |s| ==> s[k] != '/'
  }

  /** A plain name is looked for in the directory itself: it leads to the live record of that
      name, of whatever kind, and to nowhere else. */
  lemma LookupName(dirs: Dirs, d: nat, name: string, s: nat)
    requires TreeOk(dirs) && d in dirs && NoSlash(name)
    ensures LastName(name) == name
    ensures Locate(dirs, d, Components(name)) == At(d, s) <==> s < 27 && dirs[d][s].kind != Free && dirs[d][s].name == name
    ensures Locate(dirs, d, Components(name)) == Absent(d)
            <==> forall t :: 0 <= t < 27 ==> !(dirs[d][t].kind != Free && dirs[d][t].name == name)
  {
    IndexIs(name, '/', |name|);
    var i := FirstMatch(dirs[d], name, false);
    if s < 27 && Matches(dirs[d][s], name, false) {
      OnlyMatch(dirs[d], name, false, s);
    }
    assert forall t :: 0 <= t < i ==> !Matches(dirs[d][t], name, false);
  }

  /** Behind a slash the search goes on in the live directory of the name before it; without
      one there is no ancestor, whatever a file of that name may be. */
  lemma LookupBelow(dirs: Dirs, d: nat, name: string, rest: string, s: nat)
    requires TreeOk(dirs) && d in dirs && NoSlash(name)
    ensures LastName(name + "/" + rest) == LastName(rest)
    ensures s < 27 && dirs[d][s].kind == Dir && dirs[d][s].name == name ==>
      Locate(dirs, d, Components(name + "/" + rest)) == Locate(dirs, dirs[d][s].start, Components(rest))
    ensures (forall t :: 0 <= t < 27 ==> !(dirs[d][t].kind == Dir && dirs[d][t].name == name)) ==>
      Locate(dirs, d, Components(name + "/" + rest)) == NoAncestor
  {
    var path := name + "/" + rest;
    IndexIs(path, '/', |name|);
    assert path[..|name|] == name && path[|name| + 1..] == rest;
    assert Components(path) == [name] + Components(rest);
    if s < 27 && Matches(dirs[d][s], name, true) {
      OnlyMatch(dirs[d], name, true, s);
    }
    var i := FirstMatch(dirs[d], name, true);
    assert i < |dirs[d]| ==> Matches(dirs[d][i], name, true);
  }

  lemma OnlyMatch(d: seq<Record>, name: string, dirsOnly: bool, s: nat)
    requires Unique(d) && s < |d| && Matches(d[s], name, dirsOnly)
    ensures FirstMatch(d, name, dirsOnly) == s
  {
    FirstMatchIs(d, name, dirsOnly, s);
  }

  /** A trailing slash, or no path at all, leads to an absent name. */
  lemma {:induction false} EmptyNameAbsent(dirs: Dirs, d: nat, cs: seq<string>)
    requires TreeOk(dirs) && d in dirs && cs == [""]
    ensures Locate(dirs, d, cs) == Absent(d)
  {
    forall k | 0 <= k < NR_REC
      ensures !Matches(dirs[d][k], "", false)
    {
    }
    FirstMatchIs(dirs[d], "", false, NR_REC);
  }

  // ---------------------------------------------------------------- adding one record

  function FreeSlot(d: seq<Record>): (i: nat)
    ensures i <= |d| && (i < |d| ==> d[i].kind == Free)
    ensures forall k :: 0 <= k < i ==> d[k].kind != Free
  {
    if d == [] || d[0].kind == Free then 0 else 1 + FreeSlot(d[1..])
  }

  /** Record r in a slot that was free, under a name the directory did not have. */
  ghost predicate Added(dirs: Dirs, dirs': Dirs, d: nat, slot: nat, r: Record) {
    && d in dirs && d in dirs' && slot < NR_REC && |dirs[d]| == NR_REC && dirs[d][slot].kind == Free && r.kind != Free
    && (forall k :: 0 <= k < NR_REC ==> !Matches(dirs[d][k], r.name, false))
    && dirs'[d] == dirs[d][slot := r]
    && (forall e :: e in dirs ==> e in dirs') && forall e :: e in dirs && e != d ==> dirs'[e] == dirs[e]
  }

  lemma AddedMatch(dirs: Dirs, dirs': Dirs, d: nat, slot: nat, r: Record, e: nat, name: string, dirsOnly: bool)
    requires TreeOk(dirs) && Added(dirs, dirs', d, slot, r) && e in dirs
    ensures |dirs'[e]| == NR_REC
    ensures FirstMatch(dirs'[e], name, dirsOnly)
            == if e == d && Matches(r, name, dirsOnly) then slot else FirstMatch(dirs[e], name, dirsOnly)
  {
    if e == d {
      if Matches(r, name, dirsOnly) {
        FirstMatchIs(dirs'[e], name, dirsOnly, slot);
      } else {
        FirstMatchIs(dirs'[e], name, dirsOnly, FirstMatch(dirs[e], name, dirsOnly));
      }
    }
  }

  /** The new record's name in its directory leads to it. */
  lemma {:induction false} AddedFound(dirs: Dirs, dirs': Dirs, d: nat, slot: nat, r: Record, from: nat, cs: seq<string>)
    requires TreeOk(dirs) && Added(dirs, dirs', d, slot, r) && from in dirs && |cs| > 0
    requires Locate(dirs, from, cs) == Absent(d) && cs[|cs| - 1] == r.name
    ensures Locate(dirs', from, cs) == At(d, slot)
    decreases |cs|
  {
    AddedMatch(dirs, dirs', d, slot, r, from, cs[0], |cs| > 1);
    if |cs| > 1 {
      AddedStep(dirs, dirs', d, slot, r, from, cs);
      AddedFound(dirs, dirs', d, slot, r, dirs[from][FirstMatch(dirs[from], cs[0], true)].start, cs[1..]);
    }
  }

  /** Every path found before leads where it did. */
  lemma {:induction false} AddedKeeps(dirs: Dirs, dirs': Dirs, d: nat, slot: nat, r: Record, from: nat, cs: seq<string>)
    requires TreeOk(dirs) && Added(dirs, dirs', d, slot, r) && from in dirs && |cs| > 0
    requires Locate(dirs, from, cs).At?
    ensures Locate(dirs', from, cs) == Locate(dirs, from, cs)
    decreases |cs|
  {
    AddedMatch(dirs, dirs', d, slot, r, from, cs[0], |cs| > 1);
    if |cs| > 1 {
      AddedStep(dirs, dirs', d, slot, r, from, cs);
      AddedKeeps(dirs, dirs', d, slot, r, dirs[from][FirstMatch(dirs[from], cs[0], true)].start, cs[1..]);
    } else {
      var i := FirstMatch(dirs[from], cs[0], false);
      assert Matches(dirs[from][i], cs[0], false);
    }
  }

  /** And when the new record is a file, every other path is as lost as it was: only the new
      name in that directory is found anew. */
  lemma {:induction false} AddedOnly(dirs: Dirs, dirs': Dirs, d: nat, slot: nat, r: Record, from: nat, cs: seq<string>)
    requires TreeOk(dirs) && Added(dirs, dirs', d, slot, r) && from in dirs && |cs| > 0 && r.kind == File
    requires !(Locate(dirs, from, cs) == Absent(d) && cs[|cs| - 1] == r.name)
    ensures Locate(dirs', from, cs) == Locate(dirs, from, cs)
    decreases |cs|
  {
    AddedMatch(dirs, dirs', d, slot, r, from, cs[0], |cs| > 1);
    if |cs| > 1 {
      var i := FirstMatch(dirs[from], cs[0], true);
      if i < NR_REC {
        AddedStep(dirs, dirs', d, slot, r, from, cs);
        AddedOnly(dirs, dirs', d, slot, r, dirs[from][i].start, cs[1..]);
      }
    }
  }

  /** A directory on the way is entered through the same record as before. */
  lemma AddedStep(dirs: Dirs, dirs': Dirs, d: nat, slot: nat, r: Record, from: nat, cs: seq<string>)
    requires TreeOk(dirs) && Added(dirs, dirs', d, slot, r) && from in dirs && |cs| > 1
    requires FirstMatch(dirs[from], cs[0], true) < NR_REC
    ensures var i := FirstMatch(dirs[from], cs[0], true);
            && FirstMatch(dirs'[from], cs[0], true) == i && dirs'[from][i].start == dirs[from][i].start
            && dirs[from][i].start in dirs
  {
    var i := FirstMatch(dirs[from], cs[0], true);
    assert Matches(dirs[from][i], cs[0], false);
    AddedMatch(dirs, dirs', d, slot, r, from, cs[0], true);
  }

  // ---------------------------------------------------------------- hard links

  /** The records that are live names of files with this link count cell. */
  ghost function Names(dirs: Dirs, cell: nat): set<(nat, nat)> {
    set d, s | d in dirs && 0 <= s < |dirs[d]| && IsName(dirs, d, s, cell) :: (d, s)
  }

  ghost predicate IsName(dirs: Dirs, d: nat, s: nat, cell: nat)
    requires d in dirs && s < |dirs[d]|
  {
    dirs[d][s].kind == File && dirs[d][s].cell == cell
  }

  /** Two names share their file's first cluster exactly when they share its cell; it starts a
      chain, and is no directory's. `used` are the clusters that start chains. */
  ghost predicate Shared(dirs: Dirs, cells: map<nat, nat>, used: set<int>) {
    && (forall d :: d in dirs ==> d in used)
    && (forall d, s :: d in dirs && 0 <= s < |dirs[d]| && dirs[d][s].kind == File ==>
          dirs[d][s].cell in cells && dirs[d][s].start in used && dirs[d][s].start !in dirs)
    && forall d, s, e, t :: d in dirs && 0 <= s < |dirs[d]| && e in dirs && 0 <= t < |dirs[e]| ==>
         (dirs[d][s].kind == File && dirs[e][t].kind == File ==>
            (dirs[d][s].cell == dirs[e][t].cell <==> dirs[d][s].start == dirs[e][t].start))
  }

  /** A cell counts at least the names beyond the first. */
  ghost predicate CountsCover(dirs: Dirs, cells: map<nat, nat>, nextCell: nat) {
    forall c :: c in cells ==> c < nextCell && |Names(dirs, c)| <= cells[c] + 1
  }

  /** Directories made on the way hold no files. */
  ghost predicate NoNewFiles(dirs: Dirs, dirs': Dirs) {
    forall d, s :: d in dirs' && d !in dirs && 0 <= s < |dirs'[d]| ==> dirs'[d][s].kind != File
  }

  lemma NamesAdded(dirs: Dirs, dirs': Dirs, d: nat, slot: nat, r: Record, c: nat)
    requires Added(dirs, dirs', d, slot, r) && NoNewFiles(dirs, dirs')
    ensures Names(dirs', c) == Names(dirs, c) + if r.kind == File && r.cell == c then {(d, slot)} else {}
  {
    forall e, t
      ensures (e, t) in Names(dirs', c)
              <==> (e, t) in Names(dirs, c) || (r.kind == File && r.cell == c && e == d && t == slot)
    {
    }
  }

  /** Freeing one record takes one name away. */
  lemma NamesRemoved(dirs: Dirs, d: nat, slot: nat, c: nat)
    requires d in dirs && slot < |dirs[d]|
    ensures var dirs' := dirs[d := dirs[d][slot := dirs[d][slot].(kind := Free)]];
            Names(dirs', c) == Names(dirs, c) - {(d, slot)}
  {
    var dirs': Dirs := dirs[d := dirs[d][slot := dirs[d][slot].(kind := Free)]];
    forall e, t
      ensures (e, t) in Names(dirs', c) <==> (e, t) in Names(dirs, c) && (e != d || t != slot)
    {
    }
  }

  lemma FileOrigin(dirs: Dirs, dirs': Dirs, d: nat, slot: nat, r: Record, e: nat, t: nat)
    requires Added(dirs, dirs', d, slot, r) && NoNewFiles(dirs, dirs')
    requires e in dirs' && t < |dirs'[e]| && dirs'[e][t].kind == File
    ensures (e == d && t == slot && dirs'[e][t] == r) || (e in dirs && t < |dirs[e]| && dirs'[e][t] == dirs[e][t])
  {
  }

  /** Adding a name whose cell and clusters fit together keeps them so. */
  lemma SharedAdded(dirs: Dirs, cells: map<nat, nat>, used: set<int>, dirs': Dirs, cells': map<nat, nat>,
                    used': set<int>, d: nat, slot: nat, r: Record)
    requires Shared(dirs, cells, used) && Added(dirs, dirs', d, slot, r) && NoNewFiles(dirs, dirs')
    requires used <= used' && dirs'.Keys <= used' && cells.Keys <= cells'.Keys
    requires forall e :: e in dirs' && e !in dirs ==> e !in used
    requires r.kind == File ==>
      && r.cell in cells' && r.start in used' && r.start !in dirs'
      && forall e, t :: e in dirs && 0 <= t < |dirs[e]| && dirs[e][t].kind == File ==>
           (dirs[e][t].cell == r.cell <==> dirs[e][t].start == r.start)
    ensures Shared(dirs', cells', used')
  {
    hide Added, NoNewFiles;
    forall e, t | e in dirs' && 0 <= t < |dirs'[e]| && dirs'[e][t].kind == File
      ensures dirs'[e][t].cell in cells' && dirs'[e][t].start in used' && dirs'[e][t].start !in dirs'
    {
      FileOrigin(dirs, dirs', d, slot, r, e, t);
    }
    forall e, t, f, u | e in dirs' && 0 <= t < |dirs'[e]| && f in dirs' && 0 <= u < |dirs'[f]|
      ensures dirs'[e][t].kind == File && dirs'[f][u].kind == File ==>
                (dirs'[e][t].cell == dirs'[f][u].cell <==> dirs'[e][t].start == dirs'[f][u].start)
    {
      if dirs'[e][t].kind == File && dirs'[f][u].kind == File {
        FileOrigin(dirs, dirs', d, slot, r, e, t);
        FileOrigin(dirs, dirs', d, slot, r, f, u);
      }
    }
  }

  /** One more name needs one more in its cell; a new cell starts with none. */
  lemma CountsAdded(dirs: Dirs, cells: map<nat, nat>, next: nat, dirs': Dirs, cells': map<nat, nat>, next': nat,
                    d: nat, slot: nat, r: Record)
    requires CountsCover(dirs, cells, next) && Added(dirs, dirs', d, slot, r) && NoNewFiles(dirs, dirs') && next <= next'
    requires forall c :: c in cells' ==> c < next' && (c in cells || Names(dirs, c) == {})
    requires forall c :: c in cells' && c in cells ==> cells'[c] >= cells[c] + if r.kind == File && r.cell == c then 1 else 0
    ensures CountsCover(dirs', cells', next')
  {
    hide Names, Added, NoNewFiles;
    forall c | c in cells'
      ensures |Names(dirs', c)| <= cells'[c] + 1
    {
      NamesAdded(dirs, dirs', d, slot, r, c);
    }
  }

  /** A cell nobody has is nobody's name's. */
  lemma NoNames(dirs: Dirs, cells: map<nat, nat>, used: set<int>, c: nat)
    requires Shared(dirs, cells, used) && c !in cells
    ensures Names(dirs, c) == {}
  {
    forall p ensures p !in Names(dirs, c) {
    }
  }

  /** Only an open count differs. */
  lemma OpensOnly(dirs: Dirs, cells: map<nat, nat>, next: nat, used: set<int>, d: nat, s: nat, n: nat)
    requires TreeOk(dirs) && Shared(dirs, cells, used) && CountsCover(dirs, cells, next) && d in dirs && s < |dirs[d]|
    ensures var dirs' := dirs[d := dirs[d][s := dirs[d][s].(opens := n)]];
            && TreeOk(dirs') && Shared(dirs', cells, used) && CountsCover(dirs', cells, next)
            && forall q :: Lookup(dirs', q) == Lookup(dirs, q)
  {
    var dirs': Dirs := dirs[d := dirs[d][s := dirs[d][s].(opens := n)]];
    assert AlikeBut(dirs, dirs');
    AlikeKeeps(dirs, dirs', cells, next, used);
    forall q
      ensures Lookup(dirs', q) == Lookup(dirs, q)
    {
      AlikeLocate(dirs, dirs', 0, Components(q));
    }
  }

  /** The same but for open counts. */
  ghost predicate AlikeBut(dirs: Dirs, dirs': Dirs) {
    && dirs'.Keys == dirs.Keys
    && (forall d :: d in dirs ==> |dirs'[d]| == |dirs[d]|)
    && forall d, s :: d in dirs && 0 <= s < |dirs[d]| ==> dirs'[d][s] == dirs[d][s].(opens := dirs'[d][s].opens)
  }

  lemma {:induction false} AlikeMatch(a: seq<Record>, b: seq<Record>, name: string, dirsOnly: bool)
    requires |a| == |b| && forall s :: 0 <= s < |a| ==> b[s] == a[s].(opens := b[s].opens)
    ensures FirstMatch(b, name, dirsOnly) == FirstMatch(a, name, dirsOnly)
  {
    var i := FirstMatch(a, name, dirsOnly);
    forall k | 0 <= k < |a|
      ensures Matches(b[k], name, dirsOnly) == Matches(a[k], name, dirsOnly)
    {
    }
    FirstMatchIs(b, name, dirsOnly, i);
  }

  lemma {:induction false} AlikeLocate(dirs: Dirs, dirs': Dirs, d: nat, cs: seq<string>)
    requires AlikeBut(dirs, dirs') && |cs| > 0
    ensures Locate(dirs', d, cs) == Locate(dirs, d, cs)
    decreases |cs|
  {
    if d in dirs {
      AlikeMatch(dirs[d], dirs'[d], cs[0], |cs| > 1);
      if |cs| > 1 {
        var i := FirstMatch(dirs[d], cs[0], true);
        if i < |dirs[d]| {
          AlikeLocate(dirs, dirs', dirs[d][i].start, cs[1..]);
        }
      }
    }
  }

  lemma AlikeKeeps(dirs: Dirs, dirs': Dirs, cells: map<nat, nat>, next: nat, used: set<int>)
    requires TreeOk(dirs) && Shared(dirs, cells, used) && CountsCover(dirs, cells, next) && AlikeBut(dirs, dirs')
    ensures TreeOk(dirs') && Shared(dirs', cells, used) && CountsCover(dirs', cells, next)
  {
    hide Names;
    forall c
      ensures Names(dirs', c) == Names(dirs, c)
    {
      AlikeNames(dirs, dirs', c);
    }
  }

  lemma AlikeNames(dirs: Dirs, dirs': Dirs, c: nat)
    requires AlikeBut(dirs, dirs')
    ensures Names(dirs', c) == Names(dirs, c)
  {
    forall e, t
      ensures (e, t) in Names(dirs', c) <==> (e, t) in Names(dirs, c)
    {
    }
  }

  /** At count 0 a file has one name at most. */
  lemma OnlyName(dirs: Dirs, cells: map<nat, nat>, nextCell: nat, used: set<int>, d: nat, s: nat, e: nat, t: nat)
    requires Shared(dirs, cells, used) && CountsCover(dirs, cells, nextCell)
    requires d in dirs && s < |dirs[d]| && dirs[d][s].kind == File && cells[dirs[d][s].cell] == 0
    requires e in dirs && t < |dirs[e]| && dirs[e][t].kind == File && (e != d || t != s)
    ensures dirs[e][t].start != dirs[d][s].start
  {
    var c := dirs[d][s].cell;
    if dirs[e][t].cell == c {
      assert IsName(dirs, d, s, c) && IsName(dirs, e, t, c);
      SubsetSmaller({(d, s), (e, t)}, Names(dirs, c));
    }
  }

  // ---------------------------------------------------------------- writing a record

  /** The two records every directory starts with, and free ones behind them. */
  function NewDirectory(clu: nat, cell: nat, parent: Record): (d: seq<Record>)
    ensures |d| == NR_REC && d[0] == Record(".", Dir, clu, cell, 0) && d[1] == Record("..", Dir, parent.start, parent.cell, 0)
    ensures forall s :: 2 <= s < NR_REC ==> d[s] == Record("", Free, 0, 0, 0)
  {
    [Record(".", Dir, clu, cell, 0), Record("..", Dir, parent.start, parent.cell, 0)]
    + seq(NR_REC - 2, _ => Record("", Free, 0, 0, 0))
  }

  ghost predicate FitsIn(dirs: Dirs, d: nat, slot: nat, name: string) {
    && TreeOk(dirs) && d in dirs && slot < NR_REC && dirs[d][slot].kind == Free && name != ""
    && forall k :: 0 <= k < NR_REC ==> !Matches(dirs[d][k], name, false)
  }

  lemma UniquePut(d: seq<Record>, slot: nat, r: Record)
    requires Unique(d) && slot < |d| && forall k :: 0 <= k < |d| ==> !Matches(d[k], r.name, false)
    ensures Unique(d[slot := r])
  {
  }

  lemma UniqueNew(clu: nat, cell: nat, parent: Record)
    ensures Unique(NewDirectory(clu, cell, parent))
  {
    assert |"."| != |".."|;
  }

  lemma PutFile(dirs: Dirs, d: nat, slot: nat, r: Record)
    requires FitsIn(dirs, d, slot, r.name) && r.kind == File
    ensures var dirs' := dirs[d := dirs[d][slot := r]];
            TreeOk(dirs') && Added(dirs, dirs', d, slot, r) && NoNewFiles(dirs, dirs') && dirs'.Keys == dirs.Keys
  {
    UniquePut(dirs[d], slot, r);
    hide Matches, Unique;
  }

  lemma PutDirectory(dirs: Dirs, d: nat, slot: nat, r: Record, cell: nat)
    requires FitsIn(dirs, d, slot, r.name) && r.kind == Dir && r.start !in dirs
    ensures var dirs' := dirs[r.start := NewDirectory(r.start, cell, dirs[d][0])][d := dirs[d][slot := r]];
            && TreeOk(dirs') && Added(dirs, dirs', d, slot, r) && NoNewFiles(dirs, dirs')
            && dirs'.Keys == dirs.Keys + {r.start}
  {
    UniquePut(dirs[d], slot, r);
    UniqueNew(r.start, cell, dirs[d][0]);
    hide Matches, Unique;
    var new_ := NewDirectory(r.start, cell, dirs[d][0]);
    var dirs': Dirs := dirs[r.start := new_][d := dirs[d][slot := r]];
    assert dirs[d][0].start == d;
    hide NewDirectory;
    forall e, s | e in dirs' && 0 <= s < NR_REC && dirs'[e][s].kind == Dir
      ensures dirs'[e][s].start in dirs'
    {
      if e == r.start {
        assert s == 0 || s == 1;
      }
    }
  }

  // ---------------------------------------------------------------- removing one record

  /** The directory entries with one of them freed. */
  function Without(dirs: Dirs, p: (nat, nat)): Dirs
    requires p.0 in dirs && p.1 < |dirs[p.0]|
  {
    dirs[p.0 := dirs[p.0][p.1 := dirs[p.0][p.1].(kind := Free)]]
  }

  lemma GoneMatch(d: seq<Record>, s: nat, name: string, dirsOnly: bool)
    requires s < |d| && d[s].kind == File && Unique(d)
    ensures FirstMatch(d[s := d[s].(kind := Free)], name, dirsOnly)
            == if FirstMatch(d, name, dirsOnly) == s then |d| else FirstMatch(d, name, dirsOnly)
  {
    var d' := d[s := d[s].(kind := Free)];
    var i := FirstMatch(d, name, dirsOnly);
    if i == s {
      assert Matches(d[s], name, dirsOnly);
      FirstMatchIs(d', name, dirsOnly, |d|);
    } else {
      FirstMatchIs(d', name, dirsOnly, i);
    }
  }

  /** Once a file's record is freed, the paths that led to it lead to an absent name, and all
      others where they did. */
  lemma {:induction false} GoneOnly(dirs: Dirs, p: (nat, nat), from: nat, cs: seq<string>)
    requires TreeOk(dirs) && p.0 in dirs && p.1 < |dirs[p.0]| && dirs[p.0][p.1].kind == File
    requires from in dirs && |cs| > 0
    ensures Locate(Without(dirs, p), from, cs)
            == if Locate(dirs, from, cs) == At(p.0, p.1) then Absent(p.0) else Locate(dirs, from, cs)
    decreases |cs|
  {
    var i := FirstMatch(dirs[from], cs[0], |cs| > 1);
    if from == p.0 {
      GoneMatch(dirs[from], p.1, cs[0], |cs| > 1);
    }
    if |cs| > 1 && i < |dirs[from]| {
      assert Matches(dirs[from][i], cs[0], true);
      GoneOnly(dirs, p, dirs[from][i].start, cs[1..]);
    }
  }
}
