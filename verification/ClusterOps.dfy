/** The cluster functions of kernel/ramfs.c, on a table with its pages. */
module ClusterOps {
  import opened Common
  import opened Clusters

  const ENOMEM: int := 12

  /** No page is left, or no unused table entry. */
  predicate Exhausted(st: Store) {
    st.free == {} || forall k :: 0 <= k < |st.fat| ==> st.fat[k].next != 0
  }

  /** `do_malloc_4k`: some page of the allocator's zone, or none. */
  method PickPage(free: set<int>) returns (ok: bool, page: int)
    ensures ok <==> free != {}
    ensures ok ==> page in free
  {
    if free == {} {
      return false, 0;
    }
    EmptyOrNot(free);
    page :| page in free;
    ok := true;
  }

  /** `rf_alloc_clu` */
  method AllocClu(st: Store, i: nat, ghost ch: Chains) returns (st': Store, ok: bool, ghost a: int)
    requires Good(st, ch) && i < NR_CLU && st.fat[i].next == 0
    ensures Good(st', ch) && View(st', ch) == View(st, ch)
    ensures ok ==> Loose(st', ch, i, a)
    ensures ok <==> st.free != {}
    ensures !ok ==> st'.free == {}
    ensures st'.fat[i].next == 0xFFFF_FFFF && forall k :: 0 <= k < NR_CLU && k != i ==> st'.fat[k] == st.fat[k]
    ensures ok ==> st'.fat[i].addr in st.free && st'.free == st.free - {st'.fat[i].addr}
    ensures ok ==> st'.fat[i].addr in st'.mem && forall k :: 0 <= k < 4096 ==> st'.mem[st'.fat[i].addr][k] == 0
  {
    var page;
    ok, page := PickPage(st.free);
    a := page;
    if ok {
      TakenGood(st, ch, i, page);
      st' := Taken(st, i, page);
    } else {
      LeakedGood(st, ch, i);
      st' := Leaked(st, i);
    }
  }

  /** `rf_find_first_free_alloc`: the lowest unused entry; it fails when there is none, or no page. */
  method FindFirstFreeAlloc(st: Store, ghost ch: Chains) returns (st': Store, i: int, ghost a: int)
    requires Good(st, ch)
    ensures Good(st', ch) && View(st', ch) == View(st, ch)
    ensures i >= 0 ==> i < NR_CLU && st.fat[i].next == 0 && Loose(st', ch, i, a)
    ensures i >= 0 ==> st.free != {} && forall k :: 0 <= k < i ==> st.fat[k].next != 0
    ensures i < 0 ==> i == -12 && Exhausted(st') && (st.free == {} || forall k :: 0 <= k < 0x2000 ==> st.fat[k].next != 0)
    ensures i < 0 <==> Exhausted(st)
  {
    st', i, a := st, 0, 0;
    while i < NR_CLU
      invariant 0 <= i <= NR_CLU && st' == st
      invariant forall k :: 0 <= k < i ==> st.fat[k].next != 0
    {
      if st.fat[i].next == 0 {
        var ok;
        st', ok, a := AllocClu(st, i, ch);
        if !ok {
          break;
        }
        return;
      }
      i := i + 1;
    }
    i := -ENOMEM;
  }

  /** Hang a fresh cluster behind the last one of chain f. */
  method GrowChain(st: Store, ghost ch: Chains, ghost f: int, cluster: nat)
    returns (st': Store, ghost ch': Chains, inew: int)
    requires Good(st, ch) && f in ch && cluster == ch[f][|ch[f]| - 1]
    ensures Good(st', ch') && f in ch' && ch' == ch[f := ch'[f]] && View(st', ch') == View(st, ch)[f := Flat(st', ch'[f])]
    ensures inew < 0 <==> Exhausted(st)
    ensures inew < 0 ==> Exhausted(st') && ch' == ch && Flat(st', ch[f]) == Flat(st, ch[f])
    ensures inew >= 0 ==> ch'[f] == ch[f] + [inew as nat] && Flat(st', ch'[f]) == Flat(st, ch[f]) + Zeros()
  {
    ChainNonempty(st, ch, f);
    hide Flat, View, Paged, Apart, IsChain, Exhausted;
    ghost var a;
    ch' := ch;
    ViewAt(st, ch, f);
    st', inew, a := FindFirstFreeAlloc(st, ch);
    ViewAt(st', ch, f);
    PlaceInside(st', ch, f, |ch[f]| - 1);
    if inew >= 0 {
      LinkGood(st', ch, inew, a, f);
      st' := Linked(st', cluster, inew);
      ch' := ch[f := ch[f] + [inew as nat]];
      ViewAt(st', ch', f);
    }
  }

  /** `rf_free_clu` */
  method FreeClu(st: Store, start: nat, ghost ch: Chains, ghost f: int) returns (st': Store)
    requires Good(st, ch) && f in ch && ch[f][0] == start
    ensures ChainInside(st, ch[f]) && st' == FreedAll(st, ch[f])
  {
    ghost var c := ch[f];
    ghost var k: nat := 0;
    GoodInside(st, ch, f);
    hide Good, FreedAll;
    st' := st;
    var clu: int := start;
    var nxt: int := 0;
    assert c[0..] == c;
    while nxt != LAST
      invariant k <= |c| && |st'.fat| == |st.fat| && (nxt == LAST <==> k == |c|)
      invariant k < |c| ==> clu == c[k]
      invariant forall j :: k <= j < |c| ==> st'.fat[c[j]] == st.fat[c[j]]
      invariant FreedAll(st', c[k..]) == FreedAll(st, c)
      decreases |c| - k
    {
      FreedStep(st', c, k);
      GoodNext(st, ch, f, k);
      NotLast(st, ch, f, if k + 1 < |c| then k + 1 else k);
      nxt := st'.fat[clu].next;
      st' := Freed(st', clu);
      clu := nxt;
      k := k + 1;
    }
    FreedNone(st', c[k..]);
  }

  ghost predicate ChainInside(st: Store, c: seq<nat>) {
    forall i :: 0 <= i < |c| ==> c[i] < |st.fat|
  }

  lemma ChainNonempty(st: Store, ch: Chains, f: int)
    requires Good(st, ch) && f in ch
    ensures ch[f] != []
  {
  }

  lemma GoodInside(st: Store, ch: Chains, f: int)
    requires Good(st, ch) && f in ch
    ensures ch[f] != [] && ChainInside(st, ch[f])
    ensures forall i, j :: 0 <= i < j < |ch[f]| ==> ch[f][i] != ch[f][j]
  {
    forall i, j | 0 <= i < j < |ch[f]|
      ensures ch[f][i] != ch[f][j]
    {
      assert Addr(st, ch[f][i]) == Addr(st, ch[f][j]) ==> i == j;
    }
  }

  lemma GoodNext(st: Store, ch: Chains, f: int, k: nat)
    requires Good(st, ch) && f in ch && k < |ch[f]|
    ensures ch[f][k] < |st.fat|
    ensures st.fat[ch[f][k]].next == if k + 1 < |ch[f]| then ch[f][k + 1] else LAST
  {
    NextOnChain(st.fat, ch[f], k);
  }

  lemma NotLast(st: Store, ch: Chains, f: int, k: nat)
    requires Good(st, ch) && f in ch && k <= |ch[f]|
    ensures k < |ch[f]| ==> ch[f][k] < |st.fat| < LAST
  {
  }

  lemma FreedStep(st: Store, c: seq<nat>, k: nat)
    requires k < |c| && ChainInside(st, c)
    ensures FreedAll(st, c[k..]) == FreedAll(Freed(st, c[k]), c[k + 1..])
  {
    assert c[k..][1..] == c[k + 1..];
  }

  lemma FreedNone(st: Store, c: seq<nat>)
    requires c == []
    ensures FreedAll(st, c) == st
  {
  }
}
