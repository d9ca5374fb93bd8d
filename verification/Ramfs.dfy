/** Files of kernel/ramfs.c: chains of clusters read and written through descriptors. */
module Ramfs {
  import opened Common
  import opened FlatFile
  import opened Clusters
  import opened ClusterOps
  import opened Words

  const EACCES: int := 13
  const ENFILE: int := 23
  const NR_FILE_DESC: int := 128
  /** The piece `do_vwrite` passes on at a time. */
  const PIECE: nat := 512
  const SEEK_SET: int := 1
  const SEEK_CUR: int := 2
  const SEEK_END: int := 3

  /** The chain of the root directory's only cluster has an identity of its own. */
  const ROOT: int := -1

  /** What the directory entries of one file share: start cluster, size and link count
      cells, and the open count. Files are known by a number of at least 0. */
  datatype File = File(start: nat, size: nat, links: nat, opens: nat)

  datatype Desc = Desc(file: int, pos: nat, mode: nat)

  predicate MayReadWrite(mode: nat) { mode / 2 % 2 == 1 }

  /** Clusters a file of this size takes. */
  function ClustersFor(size: nat): nat {
    if size == 0 then 1 else (size + CLUSTER - 1) / CLUSTER
  }

  // ---------------------------------------------------------------- a chain's bytes as a written file

  /** v starts with c after the bytes b have been written at p. */
  ghost predicate Holds(v: seq<byte>, c: seq<byte>, p: nat, b: seq<byte>) {
    p <= |c| && |Splice(c, p, b)| <= |v| && v[..|Splice(c, p, b)|] == Splice(c, p, b)
  }

  lemma HoldsNothing(v: seq<byte>, c: seq<byte>, p: nat)
    requires p <= |c| <= |v| && v[..|c|] == c
    ensures Holds(v, c, p, [])
  {
    assert Splice(c, p, []) == c;
  }

  lemma HoldsLonger(v: seq<byte>, z: seq<byte>, c: seq<byte>, p: nat, b: seq<byte>)
    requires Holds(v, c, p, b)
    ensures Holds(v + z, c, p, b)
  {
  }

  lemma HoldsPatch(v: seq<byte>, c: seq<byte>, p: nat, b: seq<byte>, piece: seq<byte>)
    requires Holds(v, c, p, b) && p + |b| + |piece| <= |v|
    ensures Holds(Patch(v, p + |b|, piece), c, p, b + piece)
  {
    SpliceTwice(c, p, b, piece);
    SpliceLength(c, p, b);
    SpliceLength(c, p, b + piece);
    var v' := Patch(v, p + |b|, piece);
    var s, s' := Splice(c, p, b), Splice(c, p, b + piece);
    forall i | 0 <= i < |s'|
      ensures v'[i] == s'[i]
    {
      hide Splice;
      SpliceAt(c, p, b + piece, i);
      if i < |s| {
        SpliceAt(c, p, b, i);
        assert v[i] == s[i];
      }
    }
  }

  // ---------------------------------------------------------------- the file system as values

  /** Chains are in order, every file's chain can hold the file, and every descriptor stands
      inside its file. */
  ghost predicate SoundFs(st: Store, files: map<int, File>, fds: map<int, Desc>, ch: Chains) {
    && Good(st, ch) && ROOT in ch && ch[ROOT] == [0]
    && (forall f :: f in files ==>
          f >= 0 && f in ch && ch[f][0] == files[f].start && files[f].size <= CLUSTER * |ch[f]|)
    && (forall d :: d in fds ==> fds[d].file in files && fds[d].pos <= files[fds[d].file].size)
    && Counted(files, fds)
  }

  function Holders(fds: map<int, Desc>, f: int): set<int> {
    set d | d in fds && fds[d].file == f
  }

  /** Open counts are right. */
  ghost predicate Counted(files: map<int, File>, fds: map<int, Desc>) {
    forall f :: f in files ==> files[f].opens == |Holders(fds, f)|
  }

  ghost predicate TightFs(files: map<int, File>, ch: Chains) {
    forall f :: f in files ==> f in ch && |ch[f]| == ClustersFor(files[f].size)
  }

  ghost function ContentOf(st: Store, files: map<int, File>, ch: Chains, f: int): (c: seq<byte>)
    requires f in files && f in ch && files[f].size <= CLUSTER * |ch[f]|
    ensures |c| == files[f].size
  {
    Flat(st, ch[f])[..files[f].size]
  }

  /** Byte i of a file stands in the page of the cluster that many thousands along its chain. */
  lemma ContentAt(st: Store, files: map<int, File>, ch: Chains, f: int, i: nat)
    requires Good(st, ch) && f in files && f in ch && files[f].size <= CLUSTER * |ch[f]| && i < files[f].size
    ensures ch[f][i / 4096] < |st.fat| && st.fat[ch[f][i / 4096]].addr in st.mem
    ensures ContentOf(st, files, ch, f)[i] == st.mem[st.fat[ch[f][i / 4096]].addr][i % 4096]
  {
    assert Addr(st, ch[f][i / 4096]) in st.mem;
  }

  /** Nothing but chain f differs. */
  ghost predicate OnlyChain(st: Store, ch: Chains, f: int, c0: Chains, v0: map<int, seq<byte>>) {
    f in ch && f in c0 && ch == c0[f := ch[f]] && f in v0 && View(st, ch) == v0[f := Flat(st, ch[f])]
  }

  /** `cluster` is the k-th of chain f, which has n clusters, or k + 1 if that is more. */
  ghost predicate Stands(ch: Chains, f: int, k: nat, cluster: int, n: nat) {
    f in ch && k < |ch[f]| && cluster == ch[f][k] && |ch[f]| == Max(n, k + 1)
  }

  lemma SameChain(st: Store, ch: Chains, f: int)
    requires f in ch
    ensures OnlyChain(st, ch, f, ch, View(st, ch))
  {
    ViewAt(st, ch, f);
  }

  lemma OnlyChainTwice(st1: Store, ch1: Chains, st2: Store, ch2: Chains, f: int, c0: Chains, v0: map<int, seq<byte>>)
    requires OnlyChain(st1, ch1, f, c0, v0) && OnlyChain(st2, ch2, f, ch1, View(st1, ch1))
    ensures OnlyChain(st2, ch2, f, c0, v0)
  {
    hide View, Flat;
  }

  /** What `RfWrite` has done to file f, of content c, once the bytes b stand at p: chain f
      holds them and has only grown; every other chain and its bytes are as before. */
  ghost predicate Written(st: Store, ch: Chains, f: int, c: seq<byte>, p: nat, b: seq<byte>, c0: Chains,
                          v0: map<int, seq<byte>>) {
    Good(st, ch) && OnlyChain(st, ch, f, c0, v0) && Holds(Flat(st, ch[f]), c, p, b) && c0[f] <= ch[f]
  }

  lemma WrittenHas(st: Store, ch: Chains, f: int, c: seq<byte>, p: nat, b: seq<byte>, c0: Chains,
                   v0: map<int, seq<byte>>)
    requires Written(st, ch, f, c, p, b, c0, v0)
    ensures Good(st, ch) && f in ch && f in c0 && Holds(Flat(st, ch[f]), c, p, b)
    ensures c0[f] <= ch[f] && ch == c0[f := ch[f]] && OnlyChain(st, ch, f, c0, v0) && p <= |c|
  {
  }

  /** A step that touches chain f only, and keeps what it holds, keeps the write going. */
  lemma WrittenOn(st1: Store, ch1: Chains, st2: Store, ch2: Chains, f: int, c: seq<byte>, p: nat, b: seq<byte>,
                  b': seq<byte>, c0: Chains, v0: map<int, seq<byte>>)
    requires Written(st1, ch1, f, c, p, b, c0, v0)
    requires Good(st2, ch2) && OnlyChain(st2, ch2, f, ch1, View(st1, ch1)) && ch1[f] <= ch2[f]
    requires Holds(Flat(st2, ch2[f]), c, p, b')
    ensures Written(st2, ch2, f, c, p, b', c0, v0)
  {
    hide Good, Holds, View, Flat;
    OnlyChainTwice(st1, ch1, st2, ch2, f, c0, v0);
  }

  class RamFs {
    var st: Store
    var files: map<int, File>
    var fds: map<int, Desc>
    ghost var ch: Chains

    ghost predicate Sound()
      reads this
    {
      SoundFs(st, files, fds, ch)
    }

    /** No file has more clusters than its size calls for. */
    ghost predicate Tight()
      reads this
    {
      TightFs(files, ch)
    }

    ghost function Content(f: int): seq<byte>
      requires Sound() && f in files
      reads this
    {
      ContentOf(st, files, ch, f)
    }

    /** `init_ram_fs` on a table of zeros: the root directory has cluster 0, there are no files. */
    constructor (pages: set<int>)
      requires pages != {}
      ensures Sound() && Tight() && files == map[] && fds == map[]
    {
      var ok, page := PickPage(pages);
      var empty := Store(seq(NR_CLU, _ => Entry(0, 0)), map[], pages);
      st := Taken(empty, 0, page);
      files, fds := map[], map[];
      ch := map[ROOT := [0]];
    }

    // -------------------------------------------------------------- descriptors

    /** The descriptor part of `rf_open` once `find_path` has the file: the first free one. */
    method RfAttach(f: int, mode: nat) returns (fd: int)
      requires Sound() && f in files
      modifies this`files, this`fds
      ensures Sound() && (old(Tight()) ==> Tight())
      ensures if fd < 0 then fd == -23 && fds == old(fds) && files == old(files)
              else fd !in old(fds) && fds == old(fds)[fd := Desc(f, 0, mode)]
                   && files == old(files)[f := old(files)[f].(opens := old(files)[f].opens + 1)]
      ensures fd < 0 <==> forall k :: 0 <= k < 128 ==> k in old(fds)
      ensures fd >= 0 ==> fd < 128 && forall k :: 0 <= k < fd ==> k in old(fds)
      ensures forall g :: g in files ==> Content(g) == old(Content(g))
    {
      hide Good, View, Flat, Counted, Holders;
      fd := 0;
      while fd < NR_FILE_DESC
        invariant 0 <= fd <= NR_FILE_DESC && forall k :: 0 <= k < fd ==> k in fds
      {
        if fd !in fds {
          OpenedCounted(files, fds, fd, f, mode);
          files := files[f := files[f].(opens := files[f].opens + 1)];
          fds := fds[fd := Desc(f, 0, mode)];
          return;
        }
        fd := fd + 1;
      }
      fd := -ENFILE;
    }

    /** `rf_close` */
    method RfClose(fd: int) returns (r: int)
      requires Sound()
      modifies this`files, this`fds
      ensures Sound() && (old(Tight()) ==> Tight())
      ensures if fd in old(fds)
              then r == 0 && fds == old(fds) - {fd} && var f := old(fds)[fd].file;
                   f in old(files) && old(files)[f].opens > 0
                   && files == old(files)[f := old(files)[f].(opens := old(files)[f].opens - 1)]
              else r == -1 && fds == old(fds) && files == old(files)
      ensures forall g :: g in files ==> Content(g) == old(Content(g))
    {
      hide Good, View, Flat, Counted, Holders;
      if fd !in fds {
        return -1;
      }
      var f := fds[fd].file;
      HeldIsOpen(files, fds, fd);
      if files[f].opens <= 0 {
        return -1;
      }
      ClosedCounted(files, fds, fd);
      files := files[f := files[f].(opens := files[f].opens - 1)];
      fds := fds - {fd};
      r := 0;
    }

    // -------------------------------------------------------------- clusters

    /** No page is left, or no unused table entry. */
    predicate NoRoom()
      reads this`st
    {
      Exhausted(st)
    }

    /** Hang a fresh cluster behind the last one of chain f. */
    method GrowChain(ghost f: int, cluster: nat) returns (inew: int)
      requires Good(st, ch) && f in ch && cluster == ch[f][|ch[f]| - 1]
      modifies this`st, this`ch
      ensures Good(st, ch) && OnlyChain(st, ch, f, old(ch), View(old(st), old(ch)))
      ensures inew < 0 ==> NoRoom() && ch == old(ch) && Flat(st, ch[f]) == old(Flat(st, ch[f]))
      ensures inew >= 0 ==>
        ch[f] == old(ch)[f] + [inew as nat] && Flat(st, ch[f]) == old(Flat(st, ch[f])) + Zeros()
    {
      hide Good, Flat, View, Exhausted;
      ViewAt(st, ch, f);
      st, ch, inew := ClusterOps.GrowChain(st, ch, f, cluster);
    }

    /** The idiom of `rf_write`: go to the next cluster, hanging a new one behind the last. */
    method NextCluster(ghost f: int, ghost k: nat, cluster: nat) returns (next: int)
      requires Good(st, ch) && f in ch && k < |ch[f]| && cluster == ch[f][k]
      modifies this`st, this`ch
      ensures Good(st, ch) && OnlyChain(st, ch, f, old(ch), View(old(st), old(ch)))
      ensures next < 0 ==>
        && k + 1 == |ch[f]| && NoRoom() && ch == old(ch) && Flat(st, ch[f]) == old(Flat(st, ch[f]))
      ensures next >= 0 ==> k + 1 < |ch[f]| && next == ch[f][k + 1]
      ensures next >= 0 && k + 1 < |old(ch)[f]| ==>
        ch == old(ch) && Flat(st, ch[f]) == old(Flat(st, ch[f]))
      ensures next >= 0 && k + 1 == |old(ch)[f]| ==>
        ch[f] == old(ch)[f] + [next as nat] && Flat(st, ch[f]) == old(Flat(st, ch[f])) + Zeros()
    {
      NextOnChain(st.fat, ch[f], k);
      if st.fat[cluster].next == LAST {
        var inew := GrowChain(f, cluster);
        if inew < 0 {
          return -1;
        }
        NextOnChain(st.fat, ch[f], k);
      } else {
        SameChain(st, ch, f);
      }
      next := st.fat[cluster].next;
    }

    /** `memcpy` into the file's k-th cluster. */
    method CopyIn(ghost f: int, ghost k: nat, cluster: nat, off: nat, piece: seq<byte>)
      requires Good(st, ch) && f in ch && k < |ch[f]| && cluster == ch[f][k] && off + |piece| <= CLUSTER
      modifies this`st
      ensures Good(st, ch) && OnlyChain(st, ch, f, ch, View(old(st), ch))
      ensures Flat(st, ch[f]) == Patch(old(Flat(st, ch[f])), CLUSTER * k + off, piece)
    {
      PokeGood(st, ch, f, k, off, piece);
      ViewAt(st, ch, f);
      st := Poked(st, cluster, off, piece);
      ViewAt(st, ch, f);
      hide Good, Flat, View, Patch;
    }

    // -------------------------------------------------------------- writing

    /** The first loop of `rf_write`: walk to the cluster of `pos`. */
    method SeekCluster(ghost f: int, start: nat, pos: nat, ghost c: seq<byte>) returns (cluster: int)
      requires Good(st, ch) && f in ch && ch[f][0] == start && pos <= |c| <= CLUSTER * |ch[f]|
      requires Flat(st, ch[f])[..|c|] == c
      modifies this`st, this`ch
      ensures Written(st, ch, f, c, pos, [], old(ch), View(old(st), old(ch)))
      ensures cluster < 0 ==> NoRoom() && ch == old(ch)
      ensures cluster >= 0 ==> Stands(ch, f, pos / CLUSTER, cluster, |old(ch)[f]|)
    {
      ghost var c0, v0 := ch, View(st, ch);
      HoldsNothing(Flat(st, ch[f]), c, pos);
      SameChain(st, ch, f);
      var fatOffset := pos / CLUSTER;
      ghost var k: nat := 0;
      cluster := start;
      assert Written(st, ch, f, c, pos, [], c0, v0) && |ch[f]| >= 1;
      hide Good, Flat, View, Holds, OnlyChain, Written;
      while fatOffset != 0
        invariant 0 <= fatOffset && k + fatOffset == pos / CLUSTER
        invariant f in ch && Written(st, ch, f, c, pos, [], c0, v0)
        invariant k < |ch[f]| && cluster == ch[f][k]
        invariant |ch[f]| == Max(|c0[f]|, k + 1)
        invariant k < |c0[f]| ==> ch == c0
      {
        fatOffset := fatOffset - 1;
        cluster := NextWritten(f, k, cluster, pos, [], c, c0, v0);
        if cluster < 0 {
          return -1;
        }
        k := k + 1;
      }
    }

    /** Going to the next cluster keeps what has been written. */
    method NextWritten(ghost f: int, ghost k: nat, cluster: nat, ghost pos: nat, ghost b: seq<byte>,
                       ghost c: seq<byte>, ghost c0: Chains, ghost v0: map<int, seq<byte>>)
        returns (next: int)
      requires f in ch && Written(st, ch, f, c, pos, b, c0, v0) && k < |ch[f]| && cluster == ch[f][k]
      modifies this`st, this`ch
      ensures f in ch && Written(st, ch, f, c, pos, b, c0, v0)
      ensures next < 0 ==> NoRoom() && k + 1 == |ch[f]| && ch == old(ch)
      ensures next >= 0 ==> k + 1 < |ch[f]| && next == ch[f][k + 1] && |ch[f]| == Max(|old(ch)[f]|, k + 2)
      ensures k + 1 < |old(ch)[f]| ==> ch == old(ch)
    {
      hide Good, Flat, View, Holds, OnlyChain, Written;
      ghost var st1, ch1 := st, ch;
      WrittenHas(st, ch, f, c, pos, b, c0, v0);
      HoldsLonger(Flat(st, ch[f]), Zeros(), c, pos, b);
      next := NextCluster(f, k, cluster);
      WrittenOn(st1, ch1, st, ch, f, c, pos, b, b, c0, v0);
    }

    /** One `memcpy` of `rf_write`. */
    method CopyPiece(ghost f: int, ghost k: nat, cluster: nat, off: nat, ghost pos: nat, buf: seq<byte>, w: nat, n: nat,
                     ghost c: seq<byte>, ghost c0: Chains, ghost v0: map<int, seq<byte>>)
      requires w + n <= |buf| && f in ch && Written(st, ch, f, c, pos, buf[..w], c0, v0)
      requires k < |ch[f]| && cluster == ch[f][k] && off + n <= CLUSTER
      requires n > 0 ==> CLUSTER * k + off == pos + w
      modifies this`st
      ensures Written(st, ch, f, c, pos, buf[..w + n], c0, v0)
    {
      hide Good, Flat, View, Holds, Patch, OnlyChain, Written;
      ghost var st1 := st;
      WrittenHas(st, ch, f, c, pos, buf[..w], c0, v0);
      HoldsPiece(Flat(st, ch[f]), c, pos, buf, w, n, CLUSTER * k + off);
      CopyIn(f, k, cluster, off, buf[w..w + n]);
      WrittenOn(st1, ch, st, ch, f, c, pos, buf[..w], buf[..w + n], c0, v0);
    }

    /** Its body: copy up to the end of the cluster and go to the next one. */
    method FillUp(ghost f: int, ghost k: nat, cluster: nat, off: nat, ghost pos: nat, buf: seq<byte>, w: nat,
                  ghost n: nat, ghost c: seq<byte>, ghost c0: Chains, ghost v0: map<int, seq<byte>>)
        returns (next: int)
      requires off < CLUSTER < off + (|buf| - w)
      requires Stands(ch, f, k, cluster, n) && Written(st, ch, f, c, pos, buf[..w], c0, v0)
      requires CLUSTER * k + off == pos + w
      modifies this`st, this`ch
      ensures f in ch && Written(st, ch, f, c, pos, buf[..w + (CLUSTER - off)], c0, v0)
      ensures next < 0 ==> NoRoom() && k + 1 == |ch[f]|
      ensures next >= 0 ==> Stands(ch, f, k + 1, next, n)
    {
      hide Good, Flat, View, Holds, OnlyChain, Written, NoRoom;
      CopyPiece(f, k, cluster, off, pos, buf, w, CLUSTER - off, c, c0, v0);
      next := NextWritten(f, k, cluster, pos, buf[..w + (CLUSTER - off)], c, c0, v0);
    }

    /** The second loop of `rf_write`: fill clusters to their end while more than the rest
        of one is left. */
    method CopyWhole(ghost f: int, cluster0: nat, pos: nat, buf: seq<byte>, ghost n: nat, ghost c: seq<byte>,
                     ghost c0: Chains, ghost v0: map<int, seq<byte>>)
        returns (cluster: int, written: nat, off: nat, ghost k: nat)
      requires Stands(ch, f, pos / CLUSTER, cluster0, n) && Written(st, ch, f, c, pos, [], c0, v0)
      modifies this`st, this`ch
      ensures f in ch && written <= |buf| && Written(st, ch, f, c, pos, buf[..written], c0, v0)
      ensures cluster < 0 ==> NoRoom() && 0 < written < |buf| && pos + written == CLUSTER * |ch[f]|
      ensures cluster >= 0 ==> off < CLUSTER && CLUSTER * k + off == pos + written && Stands(ch, f, k, cluster, n)
      ensures cluster >= 0 ==> off + (|buf| - written) <= CLUSTER && (|buf| > 0 ==> written < |buf|)
    {
      hide Good, Flat, View, Holds, OnlyChain, Written, NoRoom, Stands;
      cluster, written := cluster0, 0;
      k, off := pos / CLUSTER, pos % CLUSTER;
      assert buf[..0] == [];
      StandsAt(ch, f, k, cluster, n);
      while CLUSTER < off + (|buf| - written)
        invariant 0 <= written <= |buf| && 0 <= off < CLUSTER && CLUSTER * k + off == pos + written
        invariant written == 0 || written < |buf|
        invariant f in ch && Written(st, ch, f, c, pos, buf[..written], c0, v0)
        invariant cluster >= 0 && Stands(ch, f, k, cluster, n)
        decreases |buf| - written
      {
        cluster := FillUp(f, k, cluster, off, pos, buf, written, n, c, c0, v0);
        written, k, off := written + (CLUSTER - off), k + 1, 0;
        if cluster < 0 {
          return;
        }
      }
    }

    /** `rf_write` */
    method RfWrite(fd: int, buf: seq<byte>) returns (r: int)
      requires Sound() && fd in fds
      modifies this
      ensures Sound()
      ensures r == -13 <==> old(fds)[fd].mode / 2 % 2 == 0
      ensures old(fds)[fd].mode / 2 % 2 == 0 ==>
        st == old(st) && files == old(files) && fds == old(fds) && ch == old(ch)
      ensures old(fds)[fd].mode / 2 % 2 == 1 ==>
        && 0 <= r <= |buf| && (r < |buf| ==> NoRoom())
        && WroteFile(old(st), old(files), old(fds), old(ch), fd, buf[..r], st, files, fds, ch)
      ensures old(Tight()) && |buf| > 0 ==> Tight()
    {
      hide Good, SoundFs, ContentOf, Written, Flat, View, Splice, NoRoom, Holds, TightFs, ClustersFor;
      var mode := fds[fd].mode;
      if !MayReadWrite(mode) {
        return -EACCES;
      }
      ghost var st0, ch0 := st, ch;
      OpenWrite(st, files, fds, ch, fd);
      var f, pos := fds[fd].file, fds[fd].pos;
      ghost var c := ContentOf(st, files, ch, f);
      var cluster := SeekCluster(f, files[f].start, pos, c);
      if cluster < 0 {
        WriteEnds(st0, ch0, files, fds, fd, st, ch, []);
        Unmoved(files, fds, fd);
        assert buf[..0] == [];
        return 0;
      }
      ghost var k;
      var written, off;
      cluster, written, off, k := CopyWhole(f, cluster, pos, buf, |ch0[f]|, c, ch0, View(st0, ch0));
      if cluster < 0 {
        WriteEnds(st0, ch0, files, fds, fd, st, ch, buf[..written]);
        WriteTight(files, ch0, ch, f, pos + written, |ch[f]| - 1, CLUSTER);
        MoveCursor(fd, f, pos + written);
        return written;
      }
      CopyPiece(f, k, cluster, off, pos, buf, written, |buf| - written, c, ch0, View(st0, ch0));
      assert buf[..written + (|buf| - written)] == buf && buf[..|buf|] == buf;
      WriteEnds(st0, ch0, files, fds, fd, st, ch, buf);
      if |buf| > 0 {
        WriteTight(files, ch0, ch, f, pos + |buf|, k, off + (|buf| - written));
      }
      MoveCursor(fd, f, pos + |buf|);
      r := |buf|;
    }

    /** The end of `rf_write`: cursor first, then the size if the cursor has passed it. */
    method MoveCursor(fd: int, f: int, pos: nat)
      requires fd in fds && f in files && f == fds[fd].file
      modifies this`fds, this`files
      ensures fds == old(fds)[fd := old(fds)[fd].(pos := pos)] && files == Advanced(old(files), f, pos)
    {
      fds := fds[fd := fds[fd].(pos := pos)];
      if pos > files[f].size {
        files := files[f := files[f].(size := pos)];
      } else {
        assert files[f := files[f]] == files;
      }
    }

    /** `do_vwrite` of kernel/vfs.c: hand the buffer over in pieces of at most 512 bytes, and
        stop at the first piece that is not taken whole. What it then returns is that
        piece's count, not the whole's: `stored` is what has really been written. */
    method DoVWrite(fd: int, buf: seq<byte>) returns (r: int, ghost stored: nat)
      requires Sound() && fd in fds
      modifies this
      ensures Sound() && stored <= |buf|
      ensures r == -13 <==> old(fds)[fd].mode / 2 % 2 == 0 && |buf| > 0
      ensures old(fds)[fd].mode / 2 % 2 == 0 ==>
        && stored == 0 && (|buf| == 0 ==> r == 0)
        && st == old(st) && files == old(files) && fds == old(fds) && ch == old(ch)
      ensures old(fds)[fd].mode / 2 % 2 == 1 ==>
        && WroteFile(old(st), old(files), old(fds), old(ch), fd, buf[..stored], st, files, fds, ch)
        && (stored < |buf| ==> NoRoom())
        && r == (if stored == |buf| then |buf| else stored % 512)
      ensures old(Tight()) ==> Tight()
    {
      hide Good, SoundFs, ContentOf, Splice, NoRoom, TightFs;
      ghost var st0, files0, fds0, ch0 := st, files, fds, ch;
      var done := 0;
      stored := 0;
      assert buf[..0] == [];
      WroteNothing(st, files, fds, ch, fd);
      while done < |buf|
        invariant 0 <= done <= |buf| && (done % PIECE == 0 || done == |buf|)
        invariant stored == if MayReadWrite(fds0[fd].mode) then done else 0
        invariant Sound() && fd in fds && fds[fd].mode == fds0[fd].mode
        invariant MayReadWrite(fds0[fd].mode) ==>
          WroteFile(st0, files0, fds0, ch0, fd, buf[..done], st, files, fds, ch)
        invariant !MayReadWrite(fds0[fd].mode) ==>
          done == 0 && st == st0 && files == files0 && fds == fds0 && ch == ch0
        invariant TightFs(files0, ch0) ==> TightFs(files, ch)
      {
        var iobytes: nat := Min(PIECE, |buf| - done);
        var s := buf[done..done + iobytes];
        ghost var st1, files1, fds1, ch1 := st, files, fds, ch;
        var bytes := RfWrite(fd, s);
        if MayReadWrite(fds0[fd].mode) {
          ghost var n: nat := bytes;
          PrefixOn(buf, done, iobytes, n);
          WroteTwice(st0, files0, fds0, ch0, fd, buf[..done], st1, files1, fds1, ch1, s[..n], st, files, fds, ch);
          stored := done + bytes;
        }
        if bytes != iobytes {
          return bytes, stored;
        }
        done := done + bytes;
      }
      assert buf[..|buf|] == buf;
      r := |buf|;
    }

    // -------------------------------------------------------------- reading

    /** The first loop of `rf_read`. */
    method WalkTo(ghost f: int, start: nat, n: nat) returns (cluster: nat)
      requires Good(st, ch) && f in ch && ch[f][0] == start && n < |ch[f]|
      ensures cluster == ch[f][n]
    {
      hide Good, Flat, View;
      cluster := start;
      var cnt := 0;
      while cnt != n
        invariant 0 <= cnt <= n && cluster == ch[f][cnt]
      {
        GoodNext(st, ch, f, cnt);
        cluster := st.fat[cluster].next;
        cnt := cnt + 1;
      }
    }

    /** The second loop of `rf_read`, from the cluster of position `from` on. */
    method ReadPieces(ghost f: int, cluster0: nat, from: nat, length: nat, rest: nat) returns (data: seq<byte>)
      requires Good(st, ch) && f in ch && from / CLUSTER < |ch[f]| && cluster0 == ch[f][from / CLUSTER]
      ensures data == Pieces(Flat(st, ch[f]), from, length, rest)
    {
      hide Good, Flat, View, Pieces, PageOf;
      data := [];
      var cluster: int := cluster0;
      var off := from % CLUSTER;
      ghost var c, k := ch[f], from / CLUSTER;
      ghost var whole := Pieces(Flat(st, c), from, length, rest);
      assert from == CLUSTER * k + off;
      while |data| < length && cluster != LAST
        invariant |data| <= length && 0 <= off < CLUSTER && k <= |c|
        invariant cluster == if k < |c| then c[k] else LAST
        invariant Remains(Flat(st, c), whole, data, CLUSTER * k + off, length, rest)
        decreases |c| - k
      {
        NotLast(st, ch, f, k);
        var n: nat := Min(Min(CLUSTER - off, length - |data|), rest);
        RemainsStep(st, c, whole, data, k, off, length, rest);
        data := data + PageOf(st, cluster)[off..off + n];
        GoodNext(st, ch, f, k);
        cluster := st.fat[cluster].next;
        k, off := k + 1, 0;
      }
      NotLast(st, ch, f, k);
      FlatLength(st, c);
      PiecesEnd(Flat(st, c), CLUSTER * k + off, length - |data|, rest);
      assert data + [] == data;
    }

    /** `rf_read`. Every piece is clamped with the position the call started from, which the
        loop never moves. `sane` is the assertion at the end; when it fails the kernel stops. */
    method RfRead(fd: int, length: nat) returns (r: int, data: seq<byte>, sane: bool)
      requires Sound() && fd in fds
      modifies this`fds
      ensures r == -13 <==> old(fds)[fd].mode / 2 % 2 == 0
      ensures old(fds)[fd].mode / 2 % 2 == 0 ==> fds == old(fds)
      ensures old(fds)[fd].mode / 2 % 2 == 1 ==>
        var f, pos := old(fds)[fd].file, old(fds)[fd].pos;
        var rest := files[f].size - pos;
        && r == |data| && data == (if rest == 0 then [] else Pieces(Flat(st, ch[f]), pos, length, rest))
        && (sane <==> rest == 0 || r == length || r == rest)
        && fds == (if sane then old(fds)[fd := old(fds)[fd].(pos := pos + r)] else old(fds))
        && (Exact(files[f].size, pos, length) && Tight() ==>
              Sound() && r == Min(length, rest) && data == Content(f)[pos..pos + r])
    {
      hide Good, SoundFs, Flat, View, Pieces, TightFs;
      r, data, sane := 0, [], true;
      if !MayReadWrite(fds[fd].mode) {
        return -EACCES, [], true;
      }
      OpenWrite(st, files, fds, ch, fd);
      var f, curPos := fds[fd].file, fds[fd].pos;
      ghost var c := ContentOf(st, files, ch, f);
      if curPos >= files[f].size {
        Reread(st, files, fds, ch, fd, 0);
        assert c[curPos..curPos] == [];
        return 0, [], true;
      }
      var cluster := WalkTo(f, files[f].start, curPos / CLUSTER);
      data := ReadPieces(f, cluster, curPos, length, files[f].size - curPos);
      r := |data|;
      sane := r == length || r == files[f].size - curPos;
      if TightFs(files, ch) && Exact(files[f].size, curPos, length) {
        TightBounds(files, ch, f);
        ReadExactIff(Flat(st, ch[f]), files[f].size, curPos, length);
        SliceOfTake(Flat(st, ch[f]), files[f].size, curPos, curPos + r);
        assert sane && r == Min(length, files[f].size - curPos) && data == c[curPos..curPos + r];
        Reread(st, files, fds, ch, fd, r);
      }
      if sane {
        fds := fds[fd := fds[fd].(pos := curPos + r)];
      }
    }

    /** `rf_lseek` */
    method RfLseek(fd: int, offset: int, whence: int) returns (r: int)
      requires Sound() && fd in fds
      modifies this`fds
      ensures Sound()
      ensures var size := files[old(fds)[fd].file].size;
              var target := if whence == 1 then offset else if whence == 2 then old(fds)[fd].pos + offset else size + offset;
              var valid := (whence == 1 || whence == 2 || whence == 3) && 0 <= target <= size;
              && r == (if valid then target else -1)
              && fds == (if valid then old(fds)[fd := old(fds)[fd].(pos := target)] else old(fds))
    {
      hide Good, Counted;
      var pos: int := fds[fd].pos;
      var fSize := files[fds[fd].file].size;
      if whence == SEEK_SET {
        pos := offset;
      } else if whence == SEEK_CUR {
        pos := pos + offset;
      } else if whence == SEEK_END {
        pos := fSize + offset;
      } else {
        return -1;
      }
      if pos > fSize || pos < 0 {
        return -1;
      }
      CountedOn(files, fds, files, fd, pos);
      fds := fds[fd := fds[fd].(pos := pos)];
      r := pos;
    }

    // -------------------------------------------------------------- creating, opening, deleting

    /** What creating a file does once its name is known to be new: `find_path` with
        O_CREAT takes a cluster, `rf_write_record` fills in an empty file. */
    method NewFile(f: int) returns (ok: bool)
      requires Sound() && f >= 0 && f !in files && f !in ch && forall d :: d in fds ==> fds[d].file != f
      modifies this
      ensures Sound() && (old(Tight()) ==> Tight()) && fds == old(fds)
      ensures !ok ==> NoRoom() && files == old(files) && ch == old(ch)
      ensures ok ==>
        && files.Keys == old(files).Keys + {f} && files[f].size == 0 && files[f].links == 0 && files[f].opens == 0
        && Content(f) == []
      ensures forall g :: g in old(files) ==>
        g in files && files[g] == old(files)[g] && ch[g] == old(ch)[g] && Content(g) == old(Content(g))
    {
      hide Good, View, Flat, Counted, TightFs, SoundFs, Loose, ContentOf, Exhausted;
      ghost var st0, ch0 := st, ch;
      SoundParts(st, files, fds, ch);
      var inew;
      ghost var a;
      st, inew, a := FindFirstFreeAlloc(st, ch);
      MovedSound(st0, st, files, fds, ch);
      if inew < 0 {
        return false;
      }
      NewSound(st0, st, files, fds, ch, f, inew, a);
      ch := ch[f := [inew as nat]];
      files := files[f := File(inew, 0, 0, 0)];
      ok := true;
    }

    /** `rf_delete`, once the entry has been found. */
    method RfDelete(f: int) returns (r: int)
      requires Sound() && f in files
      modifies this
      ensures Sound() && (old(Tight()) ==> Tight()) && fds == old(fds)
      ensures r == if old(files)[f].links >= 1 || old(files)[f].opens >= 1 then -1 else 0
      ensures r != 0 ==> st == old(st) && files == old(files) && ch == old(ch)
      ensures r == 0 ==> files == old(files) - {f} && ch == old(ch) - {f}
      ensures r == 0 ==> forall cl :: 0 <= cl < NR_CLU ==>
        st.fat[cl].next == if cl in old(ch)[f] then 0 else old(st).fat[cl].next
      ensures forall g :: g in files ==> Content(g) == old(Content(g))
    {
      if files[f].links >= 1 {
        return -1;
      }
      if files[f].opens >= 1 {
        return -1;
      }
      ghost var st0, ch0, files0 := st, ch, files;
      SoundParts(st, files, fds, ch);
      DeleteSound(st, files, fds, ch, f);
      hide Good, View, Flat, Counted, TightFs, SoundFs, ContentOf, FreedAll;
      var start := files[f].start;
      files := files - {f};
      st := FreeClu(st, start, ch, f);
      ch := ch - {f};
      forall cl | 0 <= cl < NR_CLU
        ensures st.fat[cl].next == if cl in ch0[f] then 0 else st0.fat[cl].next
      {
        FreedAllExact(st0, ch0[f], cl, 0);
      }
      r := 0;
    }
  }

  // ---------------------------------------------------------------- after the loops of a write

  lemma PrefixOn(buf: seq<byte>, done: nat, len: nat, n: nat)
    requires n <= len && done + len <= |buf|
    ensures buf[..done] + buf[done..done + len][..n] == buf[..done + n]
  {
    assert buf[done..done + len][..n] == buf[done..done + n];
  }

  /** The descriptor and the file's record after n bytes have been written. */
  function Advanced(files: map<int, File>, f: int, pos: nat): map<int, File>
    requires f in files
  {
    files[f := files[f].(size := Max(files[f].size, pos))]
  }

  /** The meaning of a write of b: the file's bytes are spliced, its size and the cursor
      move on, and every other file keeps its chain and its bytes. */
  ghost predicate WroteFile(st0: Store, files0: map<int, File>, fds0: map<int, Desc>, ch0: Chains, fd: int, b: seq<byte>,
                            st: Store, files: map<int, File>, fds: map<int, Desc>, ch: Chains)
    requires SoundFs(st0, files0, fds0, ch0) && SoundFs(st, files, fds, ch) && fd in fds0
  {
    var f := fds0[fd].file;
    var pos := fds0[fd].pos + |b|;
    && files == Advanced(files0, f, pos) && fds == fds0[fd := fds0[fd].(pos := pos)]
    && ContentOf(st, files, ch, f) == Splice(ContentOf(st0, files0, ch0, f), fds0[fd].pos, b)
    && ch.Keys == ch0.Keys
    && forall g :: g in files0 && g != f ==>
         ch[g] == ch0[g] && ContentOf(st, files, ch, g) == ContentOf(st0, files0, ch0, g)
  }

  /** Writing b1 and then b2 is writing b1 + b2. */
  lemma WroteTwice(st0: Store, files0: map<int, File>, fds0: map<int, Desc>, ch0: Chains, fd: int, b1: seq<byte>,
                   st1: Store, files1: map<int, File>, fds1: map<int, Desc>, ch1: Chains, b2: seq<byte>,
                   st2: Store, files2: map<int, File>, fds2: map<int, Desc>, ch2: Chains)
    requires SoundFs(st0, files0, fds0, ch0) && SoundFs(st1, files1, fds1, ch1) && SoundFs(st2, files2, fds2, ch2)
    requires fd in fds0 && WroteFile(st0, files0, fds0, ch0, fd, b1, st1, files1, fds1, ch1)
    requires fd in fds1 && WroteFile(st1, files1, fds1, ch1, fd, b2, st2, files2, fds2, ch2)
    ensures WroteFile(st0, files0, fds0, ch0, fd, b1 + b2, st2, files2, fds2, ch2)
  {
    hide Good, Splice, ContentOf;
    SpliceTwice(ContentOf(st0, files0, ch0, fds0[fd].file), fds0[fd].pos, b1, b2);
  }

  lemma WroteNothing(st: Store, files: map<int, File>, fds: map<int, Desc>, ch: Chains, fd: int)
    requires SoundFs(st, files, fds, ch) && fd in fds
    ensures WroteFile(st, files, fds, ch, fd, [], st, files, fds, ch)
  {
    hide Good, ContentOf;
    var c := ContentOf(st, files, ch, fds[fd].file);
    assert Splice(c, fds[fd].pos, []) == c;
    Unmoved(files, fds, fd);
  }

  lemma OpenWrite(st: Store, files: map<int, File>, fds: map<int, Desc>, ch: Chains, fd: int)
    requires SoundFs(st, files, fds, ch) && fd in fds
    ensures var f := fds[fd].file;
            && Good(st, ch) && f in files && f in ch && ch[f] != [] && ch[f][0] == files[f].start
            && files[f].size <= CLUSTER * |ch[f]| && fds[fd].pos <= files[f].size
            && var c := ContentOf(st, files, ch, f);
               |c| <= CLUSTER * |ch[f]| && Flat(st, ch[f])[..|c|] == c
    ensures forall g :: g in files ==> g in ch && files[g].size <= CLUSTER * |ch[g]|
  {
  }

  lemma WriteSound(st0: Store, ch0: Chains, files: map<int, File>, fds: map<int, Desc>, fd: int,
                   st: Store, ch: Chains, pos: nat)
    requires SoundFs(st0, files, fds, ch0) && fd in fds && Good(st, ch)
    requires var f := fds[fd].file;
             && f in ch && f in ch0 && ch0[f] <= ch[f] && ch == ch0[f := ch[f]] && pos <= CLUSTER * |ch[f]|
    ensures SoundFs(st, Advanced(files, fds[fd].file, pos), fds[fd := fds[fd].(pos := pos)], ch)
  {
    hide Good, Counted;
    var f := fds[fd].file;
    CountedOn(files, fds, Advanced(files, f, pos), fd, pos);
    assert ch[f][0] == ch0[f][0] by { assert ch0[f] != [] by { ChainNonempty(st0, ch0, f); } }
    assert f != ROOT;
  }

  /** Moving a cursor and growing a file leave the open counts alone. */
  lemma HeldIsOpen(files: map<int, File>, fds: map<int, Desc>, fd: int)
    requires Counted(files, fds) && fd in fds && fds[fd].file in files
    ensures files[fds[fd].file].opens > 0
  {
    assert fd in Holders(fds, fds[fd].file);
  }

  lemma OpenedCounted(files: map<int, File>, fds: map<int, Desc>, fd: int, f: int, mode: nat)
    requires Counted(files, fds) && fd !in fds && f in files
    ensures Counted(files[f := files[f].(opens := files[f].opens + 1)], fds[fd := Desc(f, 0, mode)])
  {
    var files' := files[f := files[f].(opens := files[f].opens + 1)];
    forall g | g in files'
      ensures files'[g].opens == |Holders(fds[fd := Desc(f, 0, mode)], g)|
    {
      HoldersOpened(fds, fd, Desc(f, 0, mode), g);
      assert g in files;
    }
    hide Holders;
  }

  lemma HoldersOpened(fds: map<int, Desc>, fd: int, d: Desc, g: int)
    requires fd !in fds
    ensures |Holders(fds[fd := d], g)| == |Holders(fds, g)| + if g == d.file then 1 else 0
  {
    assert fd !in Holders(fds, g);
    assert Holders(fds[fd := d], g) == Holders(fds, g) + if g == d.file then {fd} else {};
  }

  lemma ClosedCounted(files: map<int, File>, fds: map<int, Desc>, fd: int)
    requires Counted(files, fds) && fd in fds && fds[fd].file in files && files[fds[fd].file].opens > 0
    ensures var f := fds[fd].file;
            Counted(files[f := files[f].(opens := files[f].opens - 1)], fds - {fd})
  {
    var f := fds[fd].file;
    forall g | g in files
      ensures Holders(fds - {fd}, g) == Holders(fds, g) - if g == f then {fd} else {}
    {
    }
    assert fd in Holders(fds, f);
  }

  lemma CountedOn(files: map<int, File>, fds: map<int, Desc>, files': map<int, File>, fd: int, pos: nat)
    requires Counted(files, fds) && fd in fds && files'.Keys == files.Keys
    requires forall f :: f in files ==> files'[f].opens == files[f].opens
    ensures Counted(files', fds[fd := fds[fd].(pos := pos)])
  {
    forall f | f in files
      ensures Holders(fds[fd := fds[fd].(pos := pos)], f) == Holders(fds, f)
    {
    }
  }

  lemma WriteEnds(st0: Store, ch0: Chains, files: map<int, File>, fds: map<int, Desc>, fd: int,
                  st: Store, ch: Chains, b: seq<byte>)
    requires SoundFs(st0, files, fds, ch0) && fd in fds
    requires var f := fds[fd].file;
             Written(st, ch, f, ContentOf(st0, files, ch0, f), fds[fd].pos, b, ch0, View(st0, ch0))
    ensures var f := fds[fd].file;
            var pos := fds[fd].pos + |b|;
            var files' := Advanced(files, f, pos);
            var fds' := fds[fd := fds[fd].(pos := pos)];
            && SoundFs(st, files', fds', ch)
            && WroteFile(st0, files, fds, ch0, fd, b, st, files', fds', ch)
            && f in ch && ch == ch0[f := ch[f]] && |ch0[f]| <= |ch[f]|
  {
    hide Good, View, Splice, Flat, Holds, Written, SoundFs, OnlyChain;
    OpenWrite(st0, files, fds, ch0, fd);
    var f := fds[fd].file;
    var c := ContentOf(st0, files, ch0, f);
    var pos := fds[fd].pos + |b|;
    WrittenHas(st, ch, f, c, fds[fd].pos, b, ch0, View(st0, ch0));
    HoldsLength(Flat(st, ch[f]), c, fds[fd].pos, b);
    WriteSound(st0, ch0, files, fds, fd, st, ch, pos);
    OpenWrite(st, Advanced(files, f, pos), fds[fd := fds[fd].(pos := pos)], ch, fd);
    OthersSame(st0, ch0, st, ch, f);
  }

  lemma HoldsLength(v: seq<byte>, c: seq<byte>, p: nat, b: seq<byte>)
    requires Holds(v, c, p, b)
    ensures p + |b| <= |v| && Max(|c|, p + |b|) <= |v| && v[..Max(|c|, p + |b|)] == Splice(c, p, b)
  {
    SpliceLength(c, p, b);
  }

  lemma OthersSame(st0: Store, ch0: Chains, st: Store, ch: Chains, f: int)
    requires OnlyChain(st, ch, f, ch0, View(st0, ch0))
    ensures forall g :: g in ch0 && g != f ==> g in ch && ch[g] == ch0[g] && Flat(st, ch[g]) == Flat(st0, ch0[g])
  {
    forall g | g in ch0 && g != f
      ensures g in ch && ch[g] == ch0[g] && Flat(st, ch[g]) == Flat(st0, ch0[g])
    {
      ViewAt(st, ch, g);
      ViewAt(st0, ch0, g);
    }
  }

  lemma Unmoved(files: map<int, File>, fds: map<int, Desc>, fd: int)
    requires fd in fds && fds[fd].file in files && fds[fd].pos <= files[fds[fd].file].size
    ensures Advanced(files, fds[fd].file, fds[fd].pos + 0) == files
    ensures fds[fd := fds[fd].(pos := fds[fd].pos + 0)] == fds
  {
  }

  /** Clusters as the loops count them. */
  lemma ClustersOf(k: nat, part: nat)
    requires 0 < part <= CLUSTER
    ensures ClustersFor(CLUSTER * k + part) == k + 1
  {
  }

  lemma ClustersGrow(a: nat, b: nat)
    ensures ClustersFor(Max(a, b)) == Max(ClustersFor(a), ClustersFor(b))
  {
  }

  /** A chain that ends where the write ends is as long as the new size calls for. */
  lemma WriteTight(files: map<int, File>, ch0: Chains, ch: Chains, f: int, pos: nat, k: nat, part: nat)
    requires f in files && f in ch && f in ch0 && ch == ch0[f := ch[f]] && |ch0[f]| <= |ch[f]|
    requires 0 < part <= CLUSTER && pos == CLUSTER * k + part && |ch[f]| == Max(|ch0[f]|, k + 1)
    ensures TightFs(files, ch0) ==> TightFs(Advanced(files, f, pos), ch)
  {
    ClustersOf(k, part);
    ClustersGrow(files[f].size, pos);
  }

  // ---------------------------------------------------------------- what rf_read reads

  /** The pieces `rf_read` copies out of a chain's bytes v, from position `at` on: one from
      each cluster, never more than `rest` bytes, and each from its cluster's start. */
  function Pieces(v: seq<byte>, at: nat, length: nat, rest: nat): (d: seq<byte>)
    ensures |d| <= length
    decreases |v| - at
  {
    if at >= |v| || length == 0 then []
    else
      var n := Min(Min(CLUSTER - at % CLUSTER, length), Min(rest, |v| - at));
      v[at..at + n] + Pieces(v, (at / CLUSTER + 1) * CLUSTER, length - n, rest)
  }

  /** The request ends inside the file, or the file ends in the cluster of the cursor, or at
      the end of a cluster. */
  predicate Exact(size: nat, pos: nat, length: nat) {
    length <= size - pos || size - pos <= CLUSTER - pos % CLUSTER || size % CLUSTER == 0
  }

  /** One piece: position `off` of the k-th cluster. */
  lemma PiecesStep(v: seq<byte>, k: nat, off: nat, length: nat, rest: nat)
    requires |v| % CLUSTER == 0 && off < CLUSTER && CLUSTER * k < |v| && length > 0
    ensures var at := CLUSTER * k + off;
            var n := Min(Min(CLUSTER - off, length), rest);
            && at + (CLUSTER - off) <= |v|
            && Pieces(v, at, length, rest) == v[at..at + n] + Pieces(v, CLUSTER * (k + 1), length - n, rest)
  {
    PlaceOf(k, off);
    WholeClusters(|v|, k);
  }

  lemma PlaceOf(k: nat, off: nat)
    requires off < CLUSTER
    ensures (CLUSTER * k + off) / CLUSTER == k && (CLUSTER * k + off) % CLUSTER == off
  {
  }

  lemma WholeClusters(n: nat, k: nat)
    requires n % CLUSTER == 0 && CLUSTER * k < n
    ensures CLUSTER * (k + 1) <= n
  {
  }

  /** What has been read and what the loop will still read make the whole. */
  ghost predicate Remains(v: seq<byte>, whole: seq<byte>, data: seq<byte>, at: nat, length: nat, rest: nat) {
    |data| <= length && data + Pieces(v, at, length - |data|, rest) == whole
  }

  lemma RemainsStep(st: Store, c: seq<nat>, whole: seq<byte>, data: seq<byte>, k: nat, off: nat, length: nat, rest: nat)
    requires k < |c| && off < CLUSTER && |data| < length
    requires Remains(Flat(st, c), whole, data, CLUSTER * k + off, length, rest)
    ensures var n := Min(Min(CLUSTER - off, length - |data|), rest);
            Remains(Flat(st, c), whole, data + PageOf(st, c[k])[off..off + n], CLUSTER * (k + 1), length, rest)
  {
    hide Pieces, Flat, PageOf;
    var n: nat := Min(Min(CLUSTER - off, length - |data|), rest);
    FlatLength(st, c);
    FlatPiece(st, c, k, off, n);
    PiecesStep(Flat(st, c), k, off, length - |data|, rest);
    var piece := PageOf(st, c[k])[off..off + n];
    var more := Pieces(Flat(st, c), CLUSTER * (k + 1), length - |data| - n, rest);
    assert data + (piece + more) == (data + piece) + more;
  }

  lemma PiecesEnd(v: seq<byte>, at: nat, length: nat, rest: nat)
    requires at >= |v| || length == 0
    ensures Pieces(v, at, length, rest) == []
  {
  }

  lemma {:induction false} PiecesExact(v: seq<byte>, k: nat, off: nat, length: nat, rest: nat, left: nat)
    requires |v| % CLUSTER == 0 && off < CLUSTER
    requires var at := CLUSTER * k + off;
             && at + left <= |v| && (if left > 0 then |v| < at + left + CLUSTER else at == |v|)
             && (((length <= left || at + left == |v|) && left <= rest) || (left <= CLUSTER - off && rest == left))
    ensures Pieces(v, CLUSTER * k + off, length, rest) == v[CLUSTER * k + off..CLUSTER * k + off + Min(length, left)]
    decreases left
  {
    hide Pieces;
    var at := CLUSTER * k + off;
    if left == 0 || length == 0 {
      PiecesEnd(v, at, length, rest);
    } else {
      PiecesStep(v, k, off, length, rest);
      var n := Min(Min(CLUSTER - off, length), rest);
      if n == length {
        PiecesEnd(v, CLUSTER * (k + 1), 0, rest);
      } else if (length <= left || at + left == |v|) && left <= rest {
        PiecesExact(v, k + 1, 0, length - n, rest, left - n);
      } else {
        PiecesEnd(v, CLUSTER * (k + 1), length - n, rest);
      }
    }
  }

  /** From a cluster's start, with less of the file left than is asked for and than the clamp
      allows, and the file ending inside a cluster: the pieces run past the end. */
  lemma {:induction false} PiecesOver(v: seq<byte>, k: nat, length: nat, rest: nat, left: nat)
    requires |v| % CLUSTER == 0 && 0 < left && CLUSTER * k + left < |v| < CLUSTER * k + left + CLUSTER
    requires left < length && left < rest
    ensures |Pieces(v, CLUSTER * k, length, rest)| > left
    decreases left
  {
    hide Pieces;
    PiecesStep(v, k, 0, length, rest);
    var n := Min(Min(CLUSTER, length), rest);
    if n <= left {
      assert n == CLUSTER && n < left;
      PiecesOver(v, k + 1, length - n, rest, left - n);
    }
  }

  lemma SliceOfTake(v: seq<byte>, n: nat, a: nat, b: nat)
    requires n <= |v|
    ensures a <= b <= n ==> v[..n][a..b] == v[a..b]
  {
  }

  /** `rf_read` reads what is left of the request inside the file exactly when the request
      is `Exact`; otherwise it goes past the end of the file. */
  lemma ReadExactIff(v: seq<byte>, size: nat, pos: nat, length: nat)
    requires |v| % CLUSTER == 0 && pos < size <= |v| < size + CLUSTER
    ensures var rest := size - pos;
            var d := Pieces(v, pos, length, rest);
            if Exact(size, pos, length) then d == v[pos..pos + Min(length, rest)] else |d| > rest
  {
    hide Pieces;
    var rest := size - pos;
    var k, off := pos / CLUSTER, pos % CLUSTER;
    assert pos == CLUSTER * k + off;
    if Exact(size, pos, length) {
      assert size % CLUSTER == 0 ==> size == |v|;
      PiecesExact(v, k, off, length, rest, rest);
    } else {
      PiecesStep(v, k, off, length, rest);
      var a := CLUSTER - off;
      PiecesOver(v, k + 1, length - a, rest, rest - a);
    }
  }

  // ---------------------------------------------------------------- small steps

  lemma FlatPiece(st: Store, c: seq<nat>, k: nat, off: nat, n: nat)
    requires k < |c| && off + n <= CLUSTER
    ensures CLUSTER * k + off + n <= |Flat(st, c)|
    ensures PageOf(st, c[k])[off..off + n] == Flat(st, c)[CLUSTER * k + off..CLUSTER * k + off + n]
  {
    var x, y := PageOf(st, c[k])[off..off + n], Flat(st, c)[CLUSTER * k + off..CLUSTER * k + off + n];
    forall i | 0 <= i < n
      ensures x[i] == y[i]
    {
      var a := CLUSTER * k + (off + i);
      assert a / CLUSTER == k && a % CLUSTER == off + i;
      assert y[i] == Flat(st, c)[a];
    }
  }

  lemma FlatLength(st: Store, c: seq<nat>)
    ensures |Flat(st, c)| == CLUSTER * |c|
  {
  }

  lemma TightBounds(files: map<int, File>, ch: Chains, f: int)
    requires f in files && TightFs(files, ch) && files[f].size > 0
    ensures f in ch && files[f].size <= CLUSTER * |ch[f]| < files[f].size + CLUSTER
  {
  }

  /** Moving a cursor inside its file. */
  lemma Reread(st: Store, files: map<int, File>, fds: map<int, Desc>, ch: Chains, fd: int, n: nat)
    requires SoundFs(st, files, fds, ch) && fd in fds && fds[fd].pos + n <= files[fds[fd].file].size
    ensures SoundFs(st, files, fds[fd := fds[fd].(pos := fds[fd].pos + n)], ch)
    ensures n == 0 ==> fds[fd := fds[fd].(pos := fds[fd].pos + n)] == fds
  {
    hide Good, Counted;
    CountedOn(files, fds, files, fd, fds[fd].pos + n);
  }

  lemma ViewsSame(st0: Store, ch0: Chains, st: Store, ch: Chains)
    requires View(st, ch) == View(st0, ch0)
    ensures forall g :: g in ch && g in ch0 ==> Flat(st, ch[g]) == Flat(st0, ch0[g])
  {
    forall g | g in ch && g in ch0
      ensures Flat(st, ch[g]) == Flat(st0, ch0[g])
    {
      ViewAt(st, ch, g);
      ViewAt(st0, ch0, g);
    }
  }

  lemma SoundParts(st: Store, files: map<int, File>, fds: map<int, Desc>, ch: Chains)
    requires SoundFs(st, files, fds, ch)
    ensures Good(st, ch) && |st.fat| == NR_CLU && Counted(files, fds)
    ensures forall f :: f in files ==> f in ch && ch[f] != [] && ch[f][0] == files[f].start && ChainInside(st, ch[f])
  {
    forall f | f in files
      ensures ch[f] != [] && ChainInside(st, ch[f])
    {
      GoodInside(st, ch, f);
    }
  }

  /** A step that keeps chains in order and their bytes as they are. */
  lemma MovedSound(st0: Store, st: Store, files: map<int, File>, fds: map<int, Desc>, ch: Chains)
    requires SoundFs(st0, files, fds, ch) && Good(st, ch) && View(st, ch) == View(st0, ch)
    ensures SoundFs(st, files, fds, ch)
    ensures forall g :: g in files ==> ContentOf(st, files, ch, g) == ContentOf(st0, files, ch, g)
  {
    ViewsSame(st0, ch, st, ch);
    hide Good, View, Flat, Counted;
  }

  lemma NewSound(st0: Store, st: Store, files: map<int, File>, fds: map<int, Desc>, ch: Chains, f: int, i: nat, a: int)
    requires SoundFs(st, files, fds, ch) && Loose(st, ch, i, a)
    requires f >= 0 && f !in files && f !in ch && forall d :: d in fds ==> fds[d].file != f
    ensures var ch' := ch[f := [i]];
            var files' := files[f := File(i, 0, 0, 0)];
            && SoundFs(st, files', fds, ch') && (TightFs(files, ch) ==> TightFs(files', ch'))
            && ContentOf(st, files', ch', f) == []
            && forall g :: g in files ==> ch'[g] == ch[g] && ContentOf(st, files', ch', g) == ContentOf(st, files, ch, g)
  {
    hide Good, View, Flat, Loose;
    StartGood(st, ch, i, a, f);
    NoHolders(fds, f);
  }

  lemma DeleteSound(st: Store, files: map<int, File>, fds: map<int, Desc>, ch: Chains, f: int)
    requires SoundFs(st, files, fds, ch) && f in files && files[f].opens == 0
    requires f in ch && ChainInside(st, ch[f])
    ensures var st' := FreedAll(st, ch[f]);
            && SoundFs(st', files - {f}, fds, ch - {f}) && (TightFs(files, ch) ==> TightFs(files - {f}, ch - {f}))
            && forall g :: g in files - {f} ==>
                 ContentOf(st', files - {f}, ch - {f}, g) == ContentOf(st, files, ch, g)
  {
    hide Good, View, Flat, FreedAll, Holders, Counted;
    RootApart(st, ch, f);
    FreedGood(st, ch, f);
    Unheld(files, fds, f);
    DroppedViews(st, FreedAll(st, ch[f]), ch, f);
    CountedFewer(files, fds, f);
  }

  lemma CountedFewer(files: map<int, File>, fds: map<int, Desc>, f: int)
    requires Counted(files, fds)
    ensures Counted(files - {f}, fds)
  {
  }

  lemma DroppedViews(st: Store, st': Store, ch: Chains, f: int)
    requires f in ch && View(st', ch - {f}) == View(st, ch) - {f}
    ensures forall g :: g in ch && g != f ==> Flat(st', ch[g]) == Flat(st, ch[g])
  {
    forall g | g in ch && g != f
      ensures Flat(st', ch[g]) == Flat(st, ch[g])
    {
      ViewAt(st, ch, g);
      ViewAt(st', ch - {f}, g);
    }
  }

  lemma NoHolders(fds: map<int, Desc>, f: int)
    requires forall d :: d in fds ==> fds[d].file != f
    ensures Holders(fds, f) == {}
  {
    forall d
      ensures d !in Holders(fds, f)
    {
    }
  }

  /** A file nobody holds open has no descriptor. */
  lemma Unheld(files: map<int, File>, fds: map<int, Desc>, f: int)
    requires Counted(files, fds) && f in files && files[f].opens == 0
    ensures forall d :: d in fds ==> fds[d].file != f
  {
    assert Holders(fds, f) == {};
    forall d | d in fds
      ensures fds[d].file != f
    {
      assert d in Holders(fds, f) <==> fds[d].file == f;
    }
  }

  /** The root directory's cluster is on no file's chain. */
  lemma RootApart(st: Store, ch: Chains, f: int)
    requires Good(st, ch) && ROOT in ch && ch[ROOT] == [0] && f in ch && f != ROOT
    ensures 0 !in ch[f]
  {
    forall k | 0 <= k < |ch[f]|
      ensures ch[f][k] != 0
    {
      assert Addr(st, ch[ROOT][0]) == Addr(st, ch[f][k]) ==> f == ROOT;
    }
  }

  lemma StandsAt(ch: Chains, f: int, k: nat, cluster: int, n: nat)
    requires Stands(ch, f, k, cluster, n)
    ensures f in ch
  {
  }

  lemma HoldsPiece(v: seq<byte>, c: seq<byte>, p: nat, buf: seq<byte>, w: nat, n: nat, at: nat)
    requires w + n <= |buf| && Holds(v, c, p, buf[..w]) && at + n <= |v| && (n > 0 ==> at == p + w)
    ensures Holds(Patch(v, at, buf[w..w + n]), c, p, buf[..w + n])
  {
    assert buf[..w] + buf[w..w + n] == buf[..w + n];
    if n > 0 {
      HoldsPatch(v, c, p, buf[..w], buf[w..w + n]);
    } else {
      assert Patch(v, at, []) == v;
    }
  }
}
