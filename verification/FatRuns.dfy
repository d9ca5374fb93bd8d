/** What whole runs of writes and deletions do to a FAT volume. */
module FatRuns {
  import opened Words
  import opened FlatFile
  import opened FatDisk
  import opened FatVolume
  import opened FatFile

  /** A file between two calls: the disk, its first cluster, its end and its chain. */
  datatype State = State(disk: Disk, start: nat, off: nat, chain: seq<nat>)

  /** One successful `WriteFile`, as its contract has it. */
  ghost predicate Wrote(s: State, s': State, g: Geometry, buf: seq<byte>) {
    && s.chain <= s'.chain && s'.off == s.off + |buf|
    && Holds(s.disk, g, s.start, s.off, s.chain) && Holds(s'.disk, g, s'.start, s'.off, s'.chain)
    && Appended(s.disk, s'.disk, g, s.chain, s'.chain[|s.chain|..], s.off, buf)
  }

  ghost predicate Run(states: seq<State>, g: Geometry, bufs: seq<seq<byte>>) {
    && |states| == |bufs| + 1
    && forall i :: 0 <= i < |bufs| ==> Wrote(states[i], states[i + 1], g, bufs[i])
  }

  function Joined(bufs: seq<seq<byte>>): seq<byte> {
    if bufs == [] then [] else Joined(bufs[..|bufs| - 1]) + bufs[|bufs| - 1]
  }

  /** Any run of writes to a new file: along the chain stands the concatenation, on exactly as
      many clusters as it needs. */
  lemma {:induction false} RunConcatenates(states: seq<State>, g: Geometry, bufs: seq<seq<byte>>)
    requires Run(states, g, bufs) && Holds(states[0].disk, g, 0, 0, []) && states[0].(disk := []) == State([], 0, 0, [])
    ensures var s := states[|bufs|];
            && s.off == |Joined(bufs)| && |s.chain| == ClustersFor(|Joined(bufs)|)
            && s.off <= 4096 * |s.chain| && (s.off > 0 ==> 4096 * (|s.chain| - 1) < s.off) && (s.off == 0 ==> s.chain == [])
            && ChainOnDisk(s.disk, g, s.chain) && s.off <= CLUSTER * |s.chain|
            && Content(s.disk, g, s.chain, s.off) == Joined(bufs)
  {
    hide Holds, Appended, Content, ChainOnDisk;
    var n := |bufs|;
    if n == 0 {
      HoldsChain(states[0].disk, g, 0, 0, []);
      assert Content(states[0].disk, g, [], 0) == [];
    } else {
      var s, s' := states[n - 1], states[n];
      RunConcatenates(states[..n], g, bufs[..n - 1]);
      assert Wrote(s, s', g, bufs[n - 1]);
      HoldsChain(s'.disk, g, s'.start, s'.off, s'.chain);
      WroteMore(s, s', g, bufs[n - 1]);
    }
  }

  lemma WroteMore(s: State, s': State, g: Geometry, buf: seq<byte>)
    requires Wrote(s, s', g, buf)
    ensures ChainOnDisk(s.disk, g, s.chain) && s.off <= CLUSTER * |s.chain|
    ensures ChainOnDisk(s'.disk, g, s'.chain) && s'.off <= CLUSTER * |s'.chain|
    ensures Content(s'.disk, g, s'.chain, s'.off) == Content(s.disk, g, s.chain, s.off) + buf
  {
    hide Holds, Content, ChainOnDisk, Untouched;
    assert s.chain + s'.chain[|s.chain|..] == s'.chain;
  }

  // ---------------------------------------------------------------- other files

  /** A file whose clusters are its own keeps its chain and its bytes, whatever is appended
      to another file. */
  lemma AppendKeepsOthers(d: Disk, d': Disk, g: Geometry, cs: seq<nat>, new_: seq<nat>, off: nat, buf: seq<byte>,
                          other: seq<nat>, n: nat)
    requires Appended(d, d', g, cs, new_, off, buf) && |other| > 0
    requires IsChain(Table(d, g), other[0], other) && n <= CLUSTER * |other|
    requires ChainOnDisk(d, g, other) && forall i :: 0 <= i < |other| ==> other[i] !in cs
    ensures ChainOnDisk(d', g, other) && IsChain(Table(d', g), other[0], other)
    ensures Content(d', g, other, n) == Content(d, g, other, n)
  {
    hide Table, Content, ByteAt, InClusters;
    forall i | 0 <= i < |other|
      ensures other[i] !in cs + new_
    {
      BusyNotNew(Table(d, g), other, new_, i);
    }
    OtherChainKept(Table(d, g), Table(d', g), cs + new_, other);
    UntouchedReads(d, d', g, cs + new_, other, n);
  }

  lemma BusyNotNew(t: seq<u32>, other: seq<nat>, new_: seq<nat>, i: nat)
    requires i < |other| && IsChain(t, other[0], other)
    requires forall j :: 0 <= j < |new_| ==> new_[j] < |t| && t[new_[j]] == 0
    ensures other[i] !in new_
  {
    assert t[other[i]] == Link(other, i) != 0;
  }

  lemma UntouchedReads(d: Disk, d': Disk, g: Geometry, cs: seq<nat>, other: seq<nat>, n: nat)
    requires Untouched(d, d', g, cs) && ChainOnDisk(d, g, other) && ChainOnDisk(d', g, other) && n <= CLUSTER * |other|
    requires forall i :: 0 <= i < |other| ==> other[i] !in cs
    ensures Content(d', g, other, n) == Content(d, g, other, n)
  {
    forall i | 0 <= i < n
      ensures ByteAt(d', g, other, i) == ByteAt(d, g, other, i)
    {
      SectorOnDisk(d, g, other, i / SECTOR);
      ClustersApart(g, cs, other[i / SECTOR / SECTORS_PER_CLUSTER], i / SECTOR % SECTORS_PER_CLUSTER);
      hide InClusters, Distinct, Table;
    }
    hide ByteAt, Untouched, ChainOnDisk;
  }

  // ---------------------------------------------------------------- deletion

  /** Over a run on a new file, the table has changed at the file's own clusters only, and
      those were free. */
  lemma {:induction false} RunTouchesFree(states: seq<State>, g: Geometry, bufs: seq<seq<byte>>)
    requires Run(states, g, bufs) && states[0].chain == [] && Fits(g, |states[0].disk|)
    ensures var s, s' := states[0], states[|bufs|];
            && Fits(g, |s'.disk|)
            && (forall i :: 0 <= i < |s'.chain| ==> 2 <= s'.chain[i] < Slots(g) && Table(s.disk, g)[s'.chain[i]] == 0)
            && forall c :: 0 <= c < Slots(g) && c !in s'.chain ==> Table(s'.disk, g)[c] == Table(s.disk, g)[c]
  {
    hide Holds, Appended, Table, Fits;
    var n := |bufs|;
    if n > 0 {
      RunTouchesFree(states[..n], g, bufs[..n - 1]);
      assert Wrote(states[n - 1], states[n], g, bufs[n - 1]);
      StepTouchesFree(states[0], states[n - 1], states[n], g, bufs[n - 1]);
    }
  }

  lemma StepTouchesFree(s: State, m: State, s': State, g: Geometry, buf: seq<byte>)
    requires Fits(g, |s.disk|) && Fits(g, |m.disk|) && Wrote(m, s', g, buf)
    requires forall i :: 0 <= i < |m.chain| ==> 2 <= m.chain[i] < Slots(g) && Table(s.disk, g)[m.chain[i]] == 0
    requires forall c :: 0 <= c < Slots(g) && c !in m.chain ==> Table(m.disk, g)[c] == Table(s.disk, g)[c]
    ensures Fits(g, |s'.disk|)
    ensures forall i :: 0 <= i < |s'.chain| ==> 2 <= s'.chain[i] < Slots(g) && Table(s.disk, g)[s'.chain[i]] == 0
    ensures forall c :: 0 <= c < Slots(g) && c !in s'.chain ==> Table(s'.disk, g)[c] == Table(s.disk, g)[c]
  {
    hide Appended, Holds, Table, Fits;
    var new_ := s'.chain[|m.chain|..];
    assert m.chain + new_ == s'.chain;
    AppendedTable(m.disk, s'.disk, g, m.chain, new_, m.off, buf);
    forall i | 0 <= i < |s'.chain|
      ensures 2 <= s'.chain[i] < Slots(g) && Table(s.disk, g)[s'.chain[i]] == 0
    {
      if i < |m.chain| {
        assert s'.chain[i] == m.chain[i];
      } else {
        assert s'.chain[i] == new_[i - |m.chain|];
        NewIsFree(Table(s.disk, g), Table(m.disk, g), m.chain, new_[i - |m.chain|]);
      }
    }
  }

  lemma NewIsFree(t: seq<u32>, t': seq<u32>, cs: seq<nat>, c: nat)
    requires |t'| == |t| && c < |t| && t'[c] == 0 && forall e :: 0 <= e < |t| && e !in cs ==> t'[e] == t[e]
    requires forall i :: 0 <= i < |cs| ==> cs[i] < |t| && t[cs[i]] == 0
    ensures t[c] == 0
  {
  }

  lemma AppendedTable(d: Disk, d': Disk, g: Geometry, cs: seq<nat>, new_: seq<nat>, off: nat, buf: seq<byte>)
    requires Appended(d, d', g, cs, new_, off, buf)
    ensures Fits(g, |d|) && Fits(g, |d'|)
    ensures forall i :: 0 <= i < |new_| ==> 2 <= new_[i] < Slots(g) && Table(d, g)[new_[i]] == 0
    ensures forall c :: 0 <= c < Slots(g) && c !in cs + new_ ==> Table(d', g)[c] == Table(d, g)[c]
  {
    hide Content, Table;
  }

  /** Deleting undoes writing: after any run of writes to a new file, `ClearFATs` of its chain
      gives back the table the run started from. */
  lemma DeleteUndoesRun(states: seq<State>, g: Geometry, bufs: seq<seq<byte>>, t: seq<u32>)
    requires Run(states, g, bufs) && states[0].chain == [] && Fits(g, |states[0].disk|) && Fits(g, |states[|bufs|].disk|)
    requires Cleared(Table(states[|bufs|].disk, g), t, states[|bufs|].chain)
    ensures t == Table(states[0].disk, g)
  {
    RunTouchesFree(states, g, bufs);
    hide Table, Fits, Run;
    var t0, cs := Table(states[0].disk, g), states[|bufs|].chain;
    forall c | 0 <= c < |t0|
      ensures t[c] == t0[c]
    {
      if c in cs {
        var i :| 0 <= i < |cs| && cs[i] == c;
        assert t[cs[i]] == 0 == t0[cs[i]];
      }
    }
  }

  /** Clearing one chain keeps every chain that shares no cluster with it. */
  lemma ClearKeepsOthers(t: seq<u32>, t': seq<u32>, cs: seq<nat>, other: seq<nat>)
    requires Cleared(t, t', cs) && |other| > 0 && IsChain(t, other[0], other)
    requires forall i :: 0 <= i < |other| ==> other[i] !in cs
    ensures IsChain(t', other[0], other)
  {
    OtherChainKept(t, t', cs, other);
  }

  /** Chains of one table that meet go on alike: two files share all their clusters from some
      point on, or none. */
  lemma {:induction false} ChainsMeet(t: seq<u32>, a: seq<nat>, b: seq<nat>, i: nat, j: nat)
    requires |t| <= FAT_END && |a| > 0 && |b| > 0 && IsChain(t, a[0], a) && IsChain(t, b[0], b)
    requires i < |a| && j < |b| && a[i] == b[j]
    ensures a[i..] == b[j..]
    decreases |a| - i
  {
    hide IsChain, Link;
    ChainSteps(t, a[0], a, i);
    ChainSteps(t, b[0], b, j);
    if i + 1 < |a| {
      ChainsMeet(t, a, b, i + 1, j + 1);
      assert a[i..] == [a[i]] + a[i + 1..];
      assert b[j..] == [b[j]] + b[j + 1..];
    } else {
      assert a[i..] == [a[i]];
      assert b[j..] == [b[j]];
    }
  }
}
