/** The cluster table of ramfs and the pages its entries point at, as values. */
module Clusters {
  import opened FlatFile

  const CLUSTER: nat := 0x1000
  const NR_CLU: nat := 0x2000
  /** `next_cluster` of the last cluster of a chain. */
  const LAST: int := 0xFFFF_FFFF

  type Page = s: seq<byte> | |s| == CLUSTER witness seq(CLUSTER, _ => 0)

  function Zeros(): Page { seq<byte>(CLUSTER, _ => 0) }

  datatype Entry = Entry(next: int, addr: int)

  /** The table, the contents of kernel pages by address, and the pages `do_malloc_4k` can give. */
  datatype Store = Store(fat: seq<Entry>, mem: map<int, Page>, free: set<int>)

  /** The clusters c[0], c[1], ... follow each other in the table and end it properly. */
  ghost predicate IsChain(fat: seq<Entry>, c: seq<nat>) {
    && c != [] && (forall i :: 0 <= i < |c| ==> c[i] < |fat| < LAST)
    && (forall i :: 1 <= i < |c| ==> 0 < c[i] && fat[c[i - 1]].next == c[i])
    && fat[c[|c| - 1]].next == LAST
  }

  type Chains = map<int, seq<nat>>

  ghost predicate Chained(st: Store, ch: Chains) {
    forall f :: f in ch ==> IsChain(st.fat, ch[f])
  }

  function Addr(st: Store, cl: nat): int
    requires cl < |st.fat|
  {
    st.fat[cl].addr
  }

  ghost predicate Paged(st: Store, ch: Chains)
    requires Chained(st, ch)
  {
    forall f, i :: f in ch && 0 <= i < |ch[f]| ==>
      Addr(st, ch[f][i]) in st.mem && Addr(st, ch[f][i]) !in st.free
  }

  /** No two places on chains share a page; so no two share a cluster, and no chain meets
      itself or another one. */
  ghost predicate Apart(st: Store, ch: Chains)
    requires Chained(st, ch)
  {
    forall f, i, g, j :: f in ch && g in ch && 0 <= i < |ch[f]| && 0 <= j < |ch[g]| ==>
      (Addr(st, ch[f][i]) == Addr(st, ch[g][j]) ==> f == g && i == j)
  }

  ghost predicate Good(st: Store, ch: Chains) {
    && |st.fat| == NR_CLU && st.fat[0].next != 0
    && Chained(st, ch) && Paged(st, ch) && Apart(st, ch)
  }

  function PageOf(st: Store, cl: nat): Page {
    if cl < |st.fat| && st.fat[cl].addr in st.mem then st.mem[st.fat[cl].addr] else Zeros()
  }

  /** The bytes of a chain, page after page. */
  ghost function Flat(st: Store, c: seq<nat>): (b: seq<byte>)
    ensures |b| == CLUSTER * |c|
  {
    seq<byte>(CLUSTER * |c|, x requires 0 <= x < CLUSTER * |c| => PageOf(st, c[x / CLUSTER])[x % CLUSTER])
  }

  /** What every chain holds. */
  ghost function View(st: Store, ch: Chains): map<int, seq<byte>> {
    map f | f in ch :: Flat(st, ch[f])
  }

  lemma ViewAt(st: Store, ch: Chains, f: int)
    requires f in ch
    ensures f in View(st, ch) && View(st, ch)[f] == Flat(st, ch[f])
    ensures View(st, ch) == View(st, ch)[f := Flat(st, ch[f])] && ch == ch[f := ch[f]]
  {
  }

  lemma FlatSame(a: Store, b: Store, c: seq<nat>)
    requires forall i :: 0 <= i < |c| ==> PageOf(a, c[i]) == PageOf(b, c[i])
    ensures Flat(a, c) == Flat(b, c)
  {
    var x, y := Flat(a, c), Flat(b, c);
    forall k | 0 <= k < |x|
      ensures x[k] == y[k]
    {
      assert PageOf(a, c[k / CLUSTER]) == PageOf(b, c[k / CLUSTER]);
    }
  }

  lemma FlatSnoc(st: Store, c: seq<nat>, i: nat)
    ensures Flat(st, c + [i]) == Flat(st, c) + PageOf(st, i)
  {
    var x, y := Flat(st, c + [i]), Flat(st, c) + PageOf(st, i);
    forall k | 0 <= k < |x|
      ensures x[k] == y[k]
    {
      if k >= CLUSTER * |c| {
        assert k / CLUSTER == |c| && k % CLUSTER == k - CLUSTER * |c|;
      }
    }
  }

  /** A chain is longer than nothing, and its entries are marked as used. */
  lemma OnChainUsed(fat: seq<Entry>, c: seq<nat>, i: nat)
    requires IsChain(fat, c) && i < |c|
    ensures fat[c[i]].next != 0
  {
    if i + 1 < |c| {
      assert fat[c[i + 1 - 1]].next == c[i + 1];
    }
  }

  lemma NextOnChain(fat: seq<Entry>, c: seq<nat>, k: nat)
    requires IsChain(fat, c) && k < |c|
    ensures if k + 1 < |c| then fat[c[k]].next == c[k + 1] && 0 < c[k + 1] < LAST else fat[c[k]].next == LAST
  {
    assert k + 1 < |c| ==> fat[c[k + 1 - 1]].next == c[k + 1];
  }

  // ---------------------------------------------------------------- taking a cluster

  /** `rf_alloc_clu` on entry i with page a. */
  function Taken(st: Store, i: nat, a: int): Store
    requires i < |st.fat|
  {
    Store(st.fat[i := Entry(LAST, a)], st.mem[a := Zeros()], st.free - {a})
  }

  /** `rf_alloc_clu` when there is no page: the entry is marked used all the same. */
  function Leaked(st: Store, i: nat): Store
    requires i < |st.fat|
  {
    st.(fat := st.fat[i := Entry(LAST, st.fat[i].addr)])
  }

  function Linked(st: Store, l: nat, i: nat): Store
    requires l < |st.fat|
  {
    st.(fat := st.fat[l := Entry(i, st.fat[l].addr)])
  }

  /** An unused entry is on no chain, so changing it changes no chain. */
  lemma UnusedOff(st: Store, ch: Chains, i: nat, f: int, k: nat)
    requires Good(st, ch) && i < |st.fat| && st.fat[i].next == 0 && f in ch && k < |ch[f]|
    ensures ch[f][k] != i
  {
    OnChainUsed(st.fat, ch[f], k);
  }

  lemma UpdateOff(fat: seq<Entry>, c: seq<nat>, i: nat, e: Entry)
    requires IsChain(fat, c) && i < |fat| && forall k :: 0 <= k < |c| ==> c[k] != i
    ensures IsChain(fat[i := e], c)
  {
  }

  lemma LeakedGood(st: Store, ch: Chains, i: nat)
    requires Good(st, ch) && i < |st.fat| && st.fat[i].next == 0
    ensures Good(Leaked(st, i), ch) && View(Leaked(st, i), ch) == View(st, ch)
  {
    var st' := Leaked(st, i);
    forall f | f in ch
      ensures IsChain(st'.fat, ch[f]) && Flat(st', ch[f]) == Flat(st, ch[f])
    {
      forall k | 0 <= k < |ch[f]| ensures ch[f][k] != i { UnusedOff(st, ch, i, f, k); }
      UpdateOff(st.fat, ch[f], i, Entry(LAST, st.fat[i].addr));
      FlatSame(st', st, ch[f]);
    }
  }

  /** A cluster just taken disturbs no chain, and is on none. */
  lemma TakenGood(st: Store, ch: Chains, i: nat, a: int)
    requires Good(st, ch) && i < |st.fat| && st.fat[i].next == 0 && a in st.free
    ensures var st' := Taken(st, i, a);
            && Good(st', ch) && View(st', ch) == View(st, ch)
            && Loose(st', ch, i, a)
  {
    var st' := Taken(st, i, a);
    forall f | f in ch
      ensures IsChain(st'.fat, ch[f])
      ensures forall k :: 0 <= k < |ch[f]| ==> ch[f][k] != i
    {
      forall k | 0 <= k < |ch[f]| ensures ch[f][k] != i { UnusedOff(st, ch, i, f, k); }
      UpdateOff(st.fat, ch[f], i, Entry(LAST, a));
    }
    forall f, k | f in ch && 0 <= k < |ch[f]|
      ensures st'.fat[ch[f][k]] == st.fat[ch[f][k]] && Addr(st, ch[f][k]) != a
    {
      assert Addr(st, ch[f][k]) !in st.free;
    }
    forall f | f in ch
      ensures Flat(st', ch[f]) == Flat(st, ch[f])
    {
      FlatSame(st', st, ch[f]);
    }
  }

  /** Entry i is used, ends a chain, holds page a of zeros, and is on no chain yet. */
  ghost predicate Loose(st: Store, ch: Chains, i: nat, a: int)
    requires Chained(st, ch)
  {
    && 0 < i < |st.fat| && st.fat[i] == Entry(LAST, a) && a in st.mem && a !in st.free && st.mem[a] == Zeros()
    && forall f, k :: f in ch && 0 <= k < |ch[f]| ==> Addr(st, ch[f][k]) != a
  }

  /** A loose cluster may start a new chain ... */
  lemma StartGood(st: Store, ch: Chains, i: nat, a: int, f: int)
    requires Good(st, ch) && Loose(st, ch, i, a) && f !in ch
    ensures Good(st, ch[f := [i]]) && View(st, ch[f := [i]]) == View(st, ch)[f := Zeros()]
  {
    var ch' := ch[f := [i]];
    assert IsChain(st.fat, ch'[f]);
    assert forall k :: 0 <= k < |ch'[f]| ==> Addr(st, ch'[f][k]) == a;
    assert Flat(st, [i]) == Zeros();
  }

  lemma LinkChain(fat: seq<Entry>, c: seq<nat>, i: nat, e: Entry)
    requires IsChain(fat, c) && 0 < i < |fat| && fat[i].next == LAST
    requires i !in c && forall k :: 0 <= k < |c| - 1 ==> c[k] != c[|c| - 1]
    requires e.next == i
    ensures IsChain(fat[c[|c| - 1] := e], c + [i])
  {
    var fat' := fat[c[|c| - 1] := e];
    var c' := c + [i];
    forall k | 1 <= k < |c'|
      ensures 0 < c'[k] && fat'[c'[k - 1]].next == c'[k]
    {
      if k < |c| {
        assert fat[c[k - 1]].next == c[k];
      }
    }
  }

  /** ... or be hung behind the last cluster of a chain. */
  lemma LinkGood(st: Store, ch: Chains, i: nat, a: int, f: int)
    requires Good(st, ch) && Loose(st, ch, i, a) && f in ch
    ensures var st' := Linked(st, ch[f][|ch[f]| - 1], i);
            var ch' := ch[f := ch[f] + [i]];
            Good(st', ch') && View(st', ch') == View(st, ch)[f := View(st, ch)[f] + Zeros()]
  {
    var c := ch[f];
    var l := c[|c| - 1];
    var st' := Linked(st, l, i);
    var ch' := ch[f := c + [i]];
    forall g, k | g in ch && 0 <= k < |ch[g]|
      ensures ch[g][k] != i && (ch[g][k] == l ==> g == f && k == |c| - 1)
    {
      assert Addr(st, ch[g][k]) != a;
      assert Addr(st, ch[g][k]) == Addr(st, c[|c| - 1]) ==> g == f && k == |c| - 1;
    }
    LinkChain(st.fat, c, i, Entry(i, st.fat[l].addr));
    forall g | g in ch && g != f
      ensures IsChain(st'.fat, ch[g])
    {
      UpdateOff(st.fat, ch[g], l, Entry(i, st.fat[l].addr));
    }
    forall cl | 0 <= cl < |st.fat|
      ensures Addr(st', cl) == Addr(st, cl) && PageOf(st', cl) == PageOf(st, cl)
    {
    }
    LinkPlaces(st, ch, i, a, f, st');
    forall g | g in ch
      ensures Flat(st', ch[g]) == Flat(st, ch[g])
    {
      FlatSame(st', st, ch[g]);
    }
    FlatSnoc(st', c, i);
  }

  /** Where the places on the longer chains have their pages. */
  lemma LinkAddr(st: Store, ch: Chains, i: nat, a: int, f: int, st': Store, g: int, k: nat)
    requires Good(st, ch) && Loose(st, ch, i, a) && f in ch && |st'.fat| == |st.fat|
    requires forall cl :: 0 <= cl < |st.fat| ==> Addr(st', cl) == Addr(st, cl)
    requires g in ch && k < |ch[f := ch[f] + [i]][g]|
    ensures var cl := ch[f := ch[f] + [i]][g][k];
            && cl < |st.fat|
            && (if g == f && k == |ch[f]| then Addr(st', cl) == a
                else k < |ch[g]| && Addr(st', cl) == Addr(st, ch[g][k]))
  {
    hide Apart, Paged;
  }

  /** Longer by one loose cluster, the places on chains still have pages of their own. */
  lemma LinkPlaces(st: Store, ch: Chains, i: nat, a: int, f: int, st': Store)
    requires Good(st, ch) && Loose(st, ch, i, a) && f in ch
    requires |st'.fat| == |st.fat| && st'.mem == st.mem && st'.free == st.free
    requires forall cl :: 0 <= cl < |st.fat| ==> Addr(st', cl) == Addr(st, cl)
    requires Chained(st', ch[f := ch[f] + [i]])
    ensures Paged(st', ch[f := ch[f] + [i]]) && Apart(st', ch[f := ch[f] + [i]])
  {
    hide IsChain;
    var ch' := ch[f := ch[f] + [i]];
    forall g, k | g in ch' && 0 <= k < |ch'[g]|
      ensures ch'[g][k] < |st'.fat|
      ensures if g == f && k == |ch[f]| then Addr(st', ch'[g][k]) == a
              else k < |ch[g]| && ch[g][k] < |st.fat| && Addr(st', ch'[g][k]) == Addr(st, ch[g][k])
    {
      LinkAddr(st, ch, i, a, f, st', g, k);
      PlaceInside(st, ch, g, k);
    }
  }

  lemma PlaceInside(st: Store, ch: Chains, g: int, k: nat)
    requires Chained(st, ch) && g in ch
    ensures k < |ch[g]| ==> ch[g][k] < |st.fat|
  {
  }

  // ---------------------------------------------------------------- copying bytes into a page

  function Patch(b: seq<byte>, at: nat, piece: seq<byte>): (r: seq<byte>)
    requires at + |piece| <= |b|
    ensures |r| == |b|
  {
    b[..at] + piece + b[at + |piece|..]
  }

  /** `memcpy` of a piece to offset off of cluster cl's page. */
  function Poked(st: Store, cl: nat, off: nat, piece: seq<byte>): Store
    requires cl < |st.fat| && off + |piece| <= CLUSTER
  {
    st.(mem := st.mem[st.fat[cl].addr := Patch(PageOf(st, cl), off, piece)])
  }

  lemma PokeGood(st: Store, ch: Chains, f: int, k: nat, off: nat, piece: seq<byte>)
    requires Good(st, ch) && f in ch && k < |ch[f]| && off + |piece| <= CLUSTER
    ensures var st' := Poked(st, ch[f][k], off, piece);
            Good(st', ch) && View(st', ch) == View(st, ch)[f := Patch(View(st, ch)[f], CLUSTER * k + off, piece)]
  {
    var cl := ch[f][k];
    var st' := Poked(st, cl, off, piece);
    forall g, j | g in ch && 0 <= j < |ch[g]|
      ensures PageOf(st', ch[g][j])
           == if g == f && j == k then Patch(PageOf(st, cl), off, piece) else PageOf(st, ch[g][j])
    {
      assert Addr(st, ch[g][j]) == Addr(st, cl) ==> g == f && j == k;
    }
    forall g | g in ch && g != f
      ensures Flat(st', ch[g]) == Flat(st, ch[g])
    {
      FlatSame(st', st, ch[g]);
    }
    FlatPatch(st, st', ch[f], k, off, piece);
  }

  lemma FlatPatch(st: Store, st': Store, c: seq<nat>, k: nat, off: nat, piece: seq<byte>)
    requires k < |c| && off + |piece| <= CLUSTER
    requires forall j :: 0 <= j < |c| ==>
      PageOf(st', c[j]) == if j == k then Patch(PageOf(st, c[k]), off, piece) else PageOf(st, c[j])
    ensures Flat(st', c) == Patch(Flat(st, c), CLUSTER * k + off, piece)
  {
    var x, y := Flat(st', c), Patch(Flat(st, c), CLUSTER * k + off, piece);
    forall b | 0 <= b < |x|
      ensures x[b] == y[b]
    {
      assert PageOf(st', c[b / CLUSTER])
          == if b / CLUSTER == k then Patch(PageOf(st, c[k]), off, piece) else PageOf(st, c[b / CLUSTER]);
    }
  }

  // ---------------------------------------------------------------- giving a chain back

  /** One turn of the loop of `rf_free_clu`. */
  function Freed(st: Store, cl: nat): Store
    requires cl < |st.fat|
  {
    Store(st.fat[cl := Entry(0, st.fat[cl].addr)], st.mem, st.free + {st.fat[cl].addr})
  }

  function FreedAll(st: Store, c: seq<nat>): (r: Store)
    requires forall i :: 0 <= i < |c| ==> c[i] < |st.fat|
    ensures |r.fat| == |st.fat|
    decreases |c|
  {
    if c == [] then st else FreedAll(Freed(st, c[0]), c[1..])
  }

  /** Exactly the clusters of c become unused and exactly their pages go back. */
  lemma {:induction false} FreedAllExact(st: Store, c: seq<nat>, cl: nat, a: int)
    requires forall i :: 0 <= i < |c| ==> c[i] < |st.fat|
    requires cl < |st.fat|
    ensures var r := FreedAll(st, c);
            && r.fat[cl] == (if cl in c then Entry(0, st.fat[cl].addr) else st.fat[cl])
            && r.mem == st.mem
            && (a in r.free <==> a in st.free || exists i :: 0 <= i < |c| && Addr(st, c[i]) == a)
    decreases |c|
  {
    if c != [] {
      var s := Freed(st, c[0]);
      FreedAllExact(s, c[1..], cl, a);
      assert forall i :: 0 <= i < |c[1..]| ==> c[1..][i] == c[i + 1] && Addr(s, c[i + 1]) == Addr(st, c[i + 1]);
      if i :| 0 <= i < |c| && Addr(st, c[i]) == a {
        if i > 0 {
          assert Addr(s, c[1..][i - 1]) == a;
        }
      }
    }
  }

  /** Freeing a whole chain leaves every other chain as it is. */
  lemma FreedGood(st: Store, ch: Chains, f: int)
    requires Good(st, ch) && f in ch && 0 !in ch[f]
    ensures var st' := FreedAll(st, ch[f]);
            Good(st', ch - {f}) && View(st', ch - {f}) == View(st, ch) - {f}
  {
    var c := ch[f];
    var st' := FreedAll(st, c);
    var ch' := ch - {f};
    FreedAllExact(st, c, 0, 0);
    forall g, k | g in ch' && 0 <= k < |ch'[g]|
      ensures st'.fat[ch'[g][k]] == st.fat[ch'[g][k]]
      ensures Addr(st, ch'[g][k]) !in st'.free
    {
      FreedAllExact(st, c, ch'[g][k], Addr(st, ch'[g][k]));
      forall i | 0 <= i < |c|
        ensures c[i] != ch'[g][k] && Addr(st, c[i]) != Addr(st, ch'[g][k])
      {
        assert Addr(st, ch[f][i]) == Addr(st, ch[g][k]) ==> g == f && k == i;
      }
    }
    forall g | g in ch'
      ensures IsChain(st'.fat, ch'[g]) && Flat(st', ch'[g]) == Flat(st, ch'[g])
    {
      FlatSame(st', st, ch'[g]);
    }
  }
}
