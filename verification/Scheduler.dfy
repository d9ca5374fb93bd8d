/** The tick-credit scheduler of kernel/proc.c with the clock handler of kernel/clock.c. */
module Scheduler {
  const NR_PCBS: nat := 12
  const NR_K_PCBS: nat := 4

  datatype Stat = IDLE | READY | SLEEPING | KILLED

  /** What a sleeping process waits for: the tick counter, or something else. */
  datatype Channel = Ticks | Other(id: int)

  datatype Proc = Proc(stat: Stat, ticks: int, priority: int, channel: Channel)

  // ---------------------------------------------------------------- what a scheduling decision is

  predicate InCredit(p: Proc) {
    p.stat == READY && p.ticks > 0
  }

  ghost predicate SomeCredit(ps: seq<Proc>) {
    exists k :: 0 <= k < |ps| && InCredit(ps[k])
  }

  /** A ready process exists that has credit or will have after a refill.
      Without one the loop of `schedule` never ends. */
  ghost predicate Runnable(ps: seq<Proc>) {
    exists k :: 0 <= k < |ps| && ps[k].stat == READY && (ps[k].ticks > 0 || ps[k].priority > 0)
  }

  function Refilled(ps: seq<Proc>): seq<Proc> {
    seq(|ps|, i requires 0 <= i < |ps| => ps[i].(ticks := ps[i].priority))
  }

  /** k holds the greatest credit of all ready processes, and is the first that does. */
  ghost predicate Chosen(ps: seq<Proc>, k: nat) {
    && k < |ps| && InCredit(ps[k])
    && forall j :: 0 <= j < |ps| && ps[j].stat == READY ==>
         ps[j].ticks <= ps[k].ticks && (j < k ==> ps[j].ticks < ps[k].ticks)
  }

  /** One call of `schedule`: keep the running process while it has credit; otherwise take
      the best one, after one refill if nobody has credit. */
  ghost predicate Decides(ps: seq<Proc>, cur: nat, ps': seq<Proc>, next: nat)
    requires cur < |ps|
  {
    if InCredit(ps[cur]) then ps' == ps && next == cur
    else if SomeCredit(ps) then ps' == ps && Chosen(ps, next)
    else ps' == Refilled(ps) && Chosen(ps', next)
  }

  lemma DecidesOnce(ps: seq<Proc>, cur: nat, a: seq<Proc>, j: nat, b: seq<Proc>, k: nat)
    requires cur < |ps| && Decides(ps, cur, a, j) && Decides(ps, cur, b, k)
    ensures a == b && j == k
  {
    assert a[j].ticks <= a[k].ticks && b[k].ticks <= b[j].ticks;
  }

  class Kernel {
    const procTable: array<Proc>
    var current: nat
    var next: nat
    var ticks: int

    ghost predicate Valid()
      reads this
    {
      procTable.Length == NR_PCBS && current < NR_PCBS
    }

    constructor (table: seq<Proc>, running: nat)
      requires |table| == NR_PCBS && running < NR_PCBS
      ensures Valid() && fresh(procTable) && procTable[..] == table
      ensures current == running && next == running && ticks == 0
    {
      procTable := new Proc[NR_PCBS](i requires 0 <= i < |table| => table[i]);
      current, next, ticks := running, running, 0;
    }

    /** One pass over the table for the greatest credit; 0 when nobody has any. */
    method Scan() returns (greatest: int)
      requires Valid()
      modifies this`next
      ensures if SomeCredit(procTable[..]) then greatest > 0 && Chosen(procTable[..], next)
              else greatest == 0 && next == old(next)
    {
      greatest := 0;
      var p := 0;
      while p < NR_PCBS
        invariant 0 <= p <= NR_PCBS
        invariant greatest == 0 ==> next == old(next) && forall j :: 0 <= j < p ==> !InCredit(procTable[j])
        invariant greatest >= 0
        invariant greatest > 0 ==>
          && next < p && InCredit(procTable[next]) && procTable[next].ticks == greatest
          && forall j :: 0 <= j < p && procTable[j].stat == READY ==>
               procTable[j].ticks <= greatest && (j < next ==> procTable[j].ticks < greatest)
      {
        if procTable[p].stat == READY && procTable[p].ticks > greatest {
          greatest := procTable[p].ticks;
          next := p;
        }
        p := p + 1;
      }
    }

    method Refill()
      requires Valid()
      modifies procTable
      ensures procTable[..] == Refilled(old(procTable[..]))
    {
      var p := 0;
      while p < NR_PCBS
        invariant 0 <= p <= NR_PCBS
        invariant forall j :: 0 <= j < p ==> procTable[j] == old(procTable[j]).(ticks := old(procTable[j]).priority)
        invariant forall j :: p <= j < NR_PCBS ==> procTable[j] == old(procTable[j])
      {
        procTable[p] := procTable[p].(ticks := procTable[p].priority);
        p := p + 1;
      }
    }

    /** `schedule`. The loop runs at most twice: one refill is always enough. */
    method Schedule()
      requires Valid() && Runnable(procTable[..])
      modifies this`next, procTable
      ensures next < NR_PCBS && Decides(old(procTable[..]), current, procTable[..], next)
    {
      if procTable[current].stat == READY && procTable[current].ticks > 0 {
        next := current;
        return;
      }
      ghost var was := procTable[..];
      var greatest := 0;
      while greatest == 0
        invariant greatest == 0 ==> procTable[..] == was || (!SomeCredit(was) && procTable[..] == Refilled(was))
        invariant greatest > 0 ==>
          Chosen(procTable[..], next) && procTable[..] == if SomeCredit(was) then was else Refilled(was)
        invariant greatest >= 0
        decreases if greatest > 0 then 0 else if SomeCredit(procTable[..]) then 1 else 2
      {
        ghost var before := procTable[..];
        greatest := Scan();
        if greatest == 0 {
          Refill();
          RefillHelps(was);
        }
      }
    }

    /** `sched`: decide, then switch. */
    method Sched()
      requires Valid() && Runnable(procTable[..])
      modifies this`next, this`current, procTable
      ensures Valid() && Decides(old(procTable[..]), old(current), procTable[..], current)
      ensures procTable[current].stat == READY && procTable[current].ticks > 0
      ensures old(procTable[current].stat) == READY && old(procTable[current].ticks) > 0 ==> current == old(current)
      ensures (exists k :: 0 <= k < NR_PCBS && old(procTable[k]).stat == READY && old(procTable[k]).ticks > 0) ==>
        procTable[..] == old(procTable[..])
      ensures (forall k :: 0 <= k < NR_PCBS ==> !(old(procTable[k]).stat == READY && old(procTable[k]).ticks > 0)) ==>
        forall k :: 0 <= k < NR_PCBS ==> procTable[k] == old(procTable[k]).(ticks := old(procTable[k]).priority)
      ensures !(old(procTable[current].stat) == READY && old(procTable[current].ticks) > 0) ==>
        forall k :: 0 <= k < NR_PCBS && procTable[k].stat == READY ==>
          procTable[k].ticks <= procTable[current].ticks && (k < current ==> procTable[k].ticks < procTable[current].ticks)
    {
      ghost var was := procTable[..];
      Schedule();
      DecisionMeans(was, current, procTable[..], next);
      current := next;
    }

    /** `sys_yield` as it runs when nothing interrupts it: a store, then a decision. */
    method Yield()
      requires Valid() && Runnable(Stored(State(procTable[..], current), Drops))
      modifies this`next, this`current, procTable
      ensures Valid()
      ensures var s := State(old(procTable[..]), old(current));
              IsRun([s, State(Stored(s, Drops), s.cur), State(procTable[..], current)], [Drops, Decision])
      ensures (exists k :: 0 <= k < NR_PCBS && k != old(current)
                          && old(procTable[k]).stat == READY && old(procTable[k]).ticks > 0) ==>
        && current != old(current) && procTable[old(current)] == old(procTable[current]).(ticks := 0)
        && forall k :: 0 <= k < NR_PCBS && k != old(current) ==> procTable[k] == old(procTable[k])
    {
      procTable[current] := procTable[current].(ticks := 0);
      assert procTable[..] == old(Stored(State(procTable[..], current), Drops));
      ghost var was := procTable[..];
      Sched();
      assert forall k :: 0 <= k < NR_PCBS ==>
        was[k] == if k == old(current) then old(procTable[k]).(ticks := 0) else old(procTable[k]);
    }

    /** One round of `sys_sleep`, and of the disk driver's wait, when nothing interrupts it. */
    method SleepOn(ch: Channel)
      requires Valid() && Runnable(Asleep(State(procTable[..], current), ch).procs)
      modifies this`next, this`current, procTable
      ensures Valid()
      ensures var s := State(old(procTable[..]), old(current));
              IsRun([s, State(Stored(s, SetsChannel(ch)), s.cur), Asleep(s, ch), State(procTable[..], current)],
                    [SetsChannel(ch), Dozes, Decision])
      ensures current != old(current) && procTable[old(current)].stat == SLEEPING && procTable[old(current)].channel == ch
      ensures forall k :: 0 <= k < NR_PCBS && k != old(current) ==>
        procTable[k].stat == old(procTable[k].stat) && procTable[k].channel == old(procTable[k].channel)
    {
      procTable[current] := procTable[current].(channel := ch);
      procTable[current] := procTable[current].(stat := SLEEPING);
      assert procTable[..] == old(Asleep(State(procTable[..], current), ch).procs);
      ghost var was := procTable[..];
      Sched();
      DecisionKeeps(was, old(current), procTable[..], current);
    }

    /** The disk service readies the process whose request is done, whatever its status. */
    method ReadyUp(q: nat)
      requires Valid() && q < NR_PCBS
      modifies procTable
      ensures procTable[q] == old(procTable[q]).(stat := READY)
      ensures forall k :: 0 <= k < NR_PCBS && k != q ==> procTable[k] == old(procTable[k])
      ensures Steps(State(old(procTable[..]), current), Wakes(q), State(procTable[..], current))
    {
      procTable[q] := procTable[q].(stat := READY);
      assert procTable[..] == old(procTable[..])[q := old(procTable[q]).(stat := READY)];
    }

    /** The exception handler's verdict on the running process. */
    method Kill()
      requires Valid()
      modifies procTable
      ensures procTable[current] == old(procTable[current]).(stat := KILLED)
      ensures forall k :: 0 <= k < NR_PCBS && k != current ==> procTable[k] == old(procTable[k])
      ensures Steps(State(old(procTable[..]), current), Dies, State(procTable[..], current))
    {
      procTable[current] := procTable[current].(stat := KILLED);
      assert procTable[..] == old(procTable[..])[current := old(procTable[current]).(stat := KILLED)];
    }

    method Wakeup(ch: Channel)
      requires Valid()
      modifies procTable
      ensures procTable[..] == Woken(old(procTable[..]), ch)
      ensures forall k :: 0 <= k < NR_PCBS && old(procTable[k]).stat == SLEEPING && old(procTable[k]).channel == ch ==>
        procTable[k] == old(procTable[k]).(stat := READY)
      ensures forall k :: 0 <= k < NR_PCBS && !(old(procTable[k]).stat == SLEEPING && old(procTable[k]).channel == ch) ==>
        procTable[k] == old(procTable[k])
    {
      var p := 0;
      while p < NR_PCBS
        invariant 0 <= p <= NR_PCBS
        invariant forall j :: 0 <= j < p ==> procTable[j] == WokenOne(old(procTable[j]), ch)
        invariant forall j :: p <= j < NR_PCBS ==> procTable[j] == old(procTable[j])
      {
        if procTable[p].stat == SLEEPING && procTable[p].channel == ch {
          procTable[p] := procTable[p].(stat := READY);
        }
        p := p + 1;
      }
    }

    /** `clock_handler`, and the decision after it unless it interrupts another handler. During
        kernel initialisation only the counter moves. */
    method ClockTick(kernelInitial: bool, nested: bool)
      requires Valid()
      requires !kernelInitial && !nested ==> Runnable(Ticked(procTable[..], current))
      modifies this`ticks, this`next, this`current, procTable
      ensures Valid() && ticks == old(ticks) + 1
      ensures kernelInitial ==> procTable[..] == old(procTable[..]) && current == old(current)
      ensures !kernelInitial ==>
        Steps(State(old(procTable[..]), old(current)), if nested then NestedTick else Tick, State(procTable[..], current))
      ensures !kernelInitial ==> forall k :: 0 <= k < NR_PCBS ==>
        && !(procTable[k].stat == SLEEPING && procTable[k].channel == Ticks)
        && procTable[k].stat == (if old(procTable[k]).stat == SLEEPING && old(procTable[k]).channel == Ticks then READY
                                 else old(procTable[k]).stat)
      ensures !kernelInitial && nested ==>
        && current == old(current) && procTable[current].ticks == old(procTable[current]).ticks - 1
        && forall k :: 0 <= k < NR_PCBS && k != current ==> procTable[k].ticks == old(procTable[k]).ticks
    {
      ticks := ticks + 1;
      if kernelInitial {
        return;
      }
      ghost var was := procTable[..];
      procTable[current] := procTable[current].(ticks := procTable[current].ticks - 1);
      assert procTable[..] == was[current := was[current].(ticks := was[current].ticks - 1)];
      Wakeup(Ticks);
      if !nested {
        ghost var woken := procTable[..];
        Sched();
        DecisionKeeps(woken, old(current), procTable[..], current);
      }
    }

    /** `alloc_PCB`: the first idle entry past the kernel's own. */
    method AllocPcb() returns (i: nat)
      requires Valid()
      ensures procTable.Length == 12 && 4 <= i <= 12
      ensures forall j :: 4 <= j < i ==> procTable[j].stat != IDLE
      ensures i < 12 ==> procTable[i].stat == IDLE
    {
      i := NR_K_PCBS;
      while i < NR_PCBS
        invariant NR_K_PCBS <= i <= NR_PCBS
        invariant forall j :: NR_K_PCBS <= j < i ==> procTable[j].stat != IDLE
      {
        if procTable[i].stat == IDLE {
          break;
        }
        i := i + 1;
      }
    }
  }

  lemma DecisionMeans(ps: seq<Proc>, cur: nat, ps': seq<Proc>, next: nat)
    requires cur < |ps| && Decides(ps, cur, ps', next)
    ensures |ps'| == |ps| && next < |ps| && ps'[next].stat == READY && ps'[next].ticks > 0
    ensures ps[cur].stat == READY && ps[cur].ticks > 0 ==> next == cur
    ensures (exists k :: 0 <= k < |ps| && ps[k].stat == READY && ps[k].ticks > 0) ==> ps' == ps
    ensures (forall k :: 0 <= k < |ps| ==> !(ps[k].stat == READY && ps[k].ticks > 0)) ==>
      forall k :: 0 <= k < |ps| ==> ps'[k] == ps[k].(ticks := ps[k].priority)
    ensures !(ps[cur].stat == READY && ps[cur].ticks > 0) ==>
      forall k :: 0 <= k < |ps| && ps'[k].stat == READY ==>
        ps'[k].ticks <= ps'[next].ticks && (k < next ==> ps'[k].ticks < ps'[next].ticks)
  {
    assert SomeCredit(ps) <==> exists k :: 0 <= k < |ps| && InCredit(ps[k]);
  }

  /** A decision changes ticks at most. */
  lemma DecisionKeeps(ps: seq<Proc>, cur: nat, ps': seq<Proc>, next: nat)
    requires cur < |ps| && Decides(ps, cur, ps', next)
    ensures |ps'| == |ps| && next < |ps| && forall k :: 0 <= k < |ps| ==> ps'[k] == ps[k].(ticks := ps'[k].ticks)
  {
  }

  lemma RefillHelps(ps: seq<Proc>)
    requires Runnable(ps) && !SomeCredit(ps)
    ensures SomeCredit(Refilled(ps))
  {
    var k :| 0 <= k < |ps| && ps[k].stat == READY && (ps[k].ticks > 0 || ps[k].priority > 0);
    assert !InCredit(ps[k]);
    assert InCredit(Refilled(ps)[k]);
  }

  /** Without such a process no number of refills ever gives anybody credit. */
  lemma RefillHopeless(ps: seq<Proc>)
    requires !Runnable(ps)
    ensures !SomeCredit(ps) && !Runnable(Refilled(ps))
  {
    forall k | 0 <= k < |ps|
      ensures !(Refilled(ps)[k].stat == READY && Refilled(ps)[k].priority > 0)
    {
      assert Refilled(ps)[k].stat == ps[k].stat && Refilled(ps)[k].priority == ps[k].priority;
    }
  }

  // ---------------------------------------------------------------- runs

  function WokenOne(p: Proc, ch: Channel): Proc {
    if p.stat == SLEEPING && p.channel == ch then p.(stat := READY) else p
  }

  function Woken(ps: seq<Proc>, ch: Channel): seq<Proc> {
    seq(|ps|, i requires 0 <= i < |ps| => WokenOne(ps[i], ch))
  }

  function Ticked(ps: seq<Proc>, cur: nat): seq<Proc>
    requires cur < |ps|
  {
    Woken(ps[cur := ps[cur].(ticks := ps[cur].ticks - 1)], Ticks)
  }

  datatype State = State(procs: seq<Proc>, cur: nat)

  /** Everything that moves the scheduler, except creating a process. System calls and
      exceptions run with interrupts on, so their stores and decisions are events of their own. */
  datatype Event =
    | Tick                      // the clock interrupt, with the decision it ends in
    | NestedTick                // the clock interrupt inside another handler: no decision
    | Decision                  // `sched`, from a call or at the end of any call or interrupt
    | Drops                     // sys_yield gives up the credit
    | SetsChannel(ch: Channel)  // sys_sleep, the disk driver
    | Dozes                     // and then the status
    | Wakes(q: nat)             // the disk service readies a process
    | Dies                      // the running process is killed

  /** The process table an event stores. */
  function Stored(s: State, e: Event): seq<Proc>
    requires s.cur < |s.procs|
  {
    var c := s.procs[s.cur];
    match e
    case Tick | NestedTick => Ticked(s.procs, s.cur)
    case Decision => s.procs
    case Drops => s.procs[s.cur := c.(ticks := 0)]
    case SetsChannel(ch) => s.procs[s.cur := c.(channel := ch)]
    case Dozes => s.procs[s.cur := c.(stat := SLEEPING)]
    case Wakes(q) => if q < |s.procs| then s.procs[q := s.procs[q].(stat := READY)] else s.procs
    case Dies => s.procs[s.cur := c.(stat := KILLED)]
  }

  function Asleep(s: State, ch: Channel): State
    requires s.cur < |s.procs|
  {
    State(s.procs[s.cur := s.procs[s.cur].(channel := ch, stat := SLEEPING)], s.cur)
  }

  ghost predicate Steps(s: State, e: Event, s': State) {
    && s.cur < |s.procs|
    && if e.Tick? || e.Decision? then Decides(Stored(s, e), s.cur, s'.procs, s'.cur)
       else s' == State(Stored(s, e), s.cur)
  }

  ghost predicate IsRun(ss: seq<State>, es: seq<Event>) {
    && |ss| == |es| + 1
    && forall i :: 0 <= i < |es| ==> Steps(ss[i], es[i], ss[i + 1])
  }

  /** p is ready, can be refilled, and does not get the processor. */
  ghost predicate Waits(s: State, p: nat) {
    p < |s.procs| && s.procs[p].stat == READY && s.procs[p].priority > 0 && s.cur != p
  }

  /** A process that sleeps on ticks is ready after the next clock step, and no process sleeps on
      them any more, with a decision or without. */
  lemma TickWakes(ss: seq<State>, es: seq<Event>, k: nat, p: nat)
    requires IsRun(ss, es) && k < |es| && (es[k] == Tick || es[k] == NestedTick) && p < |ss[k].procs|
    ensures |ss[k + 1].procs| == |ss[k].procs|
    ensures !(ss[k + 1].procs[p].stat == SLEEPING && ss[k + 1].procs[p].channel == Ticks)
    ensures ss[k].procs[p].stat == SLEEPING && ss[k].procs[p].channel == Ticks ==> ss[k + 1].procs[p].stat == READY
    ensures !(ss[k].procs[p].stat == SLEEPING && ss[k].procs[p].channel == Ticks) ==>
      ss[k + 1].procs[p].stat == ss[k].procs[p].stat
  {
    assert Steps(ss[k], es[k], ss[k + 1]);
    if es[k] == Tick {
      DecisionKeeps(Stored(ss[k], es[k]), ss[k].cur, ss[k + 1].procs, ss[k + 1].cur);
    }
  }

  function Pos(x: int): nat { if x > 0 then x else 0 }

  function Credit(ps: seq<Proc>): nat {
    if ps == [] then 0 else Pos(ps[0].ticks) + Credit(ps[1..])
  }

  function Share(ps: seq<Proc>): nat {
    if ps == [] then 0 else Pos(ps[0].priority) + Share(ps[1..])
  }

  function ClockSteps(es: seq<Event>): nat {
    if es == [] then 0 else (if es[0].Tick? then 1 else 0) + ClockSteps(es[1..])
  }

  lemma {:induction false} CreditUpdate(ps: seq<Proc>, i: nat, p: Proc)
    requires i < |ps|
    ensures Credit(ps[i := p]) == Credit(ps) - Pos(ps[i].ticks) + Pos(p.ticks)
    ensures Credit(ps) >= Pos(ps[i].ticks)
  {
    if i == 0 {
      assert ps[0 := p][1..] == ps[1..];
    } else {
      assert ps[i := p][1..] == ps[1..][i - 1 := p];
      CreditUpdate(ps[1..], i - 1, p);
    }
  }

  lemma {:induction false} SameTicks(a: seq<Proc>, b: seq<Proc>)
    requires |a| == |b| && forall i :: 0 <= i < |a| ==> a[i].ticks == b[i].ticks
    ensures Credit(a) == Credit(b)
  {
    if a != [] {
      SameTicks(a[1..], b[1..]);
    }
  }

  lemma {:induction false} SamePriorities(a: seq<Proc>, b: seq<Proc>)
    requires |a| == |b| && forall i :: 0 <= i < |a| ==> a[i].priority == b[i].priority
    ensures Share(a) == Share(b)
  {
    if a != [] {
      SamePriorities(a[1..], b[1..]);
    }
  }

  lemma {:induction false} RefillCredit(a: seq<Proc>, b: seq<Proc>)
    requires |a| == |b| && forall i :: 0 <= i < |a| ==> b[i].ticks == a[i].priority
    ensures Credit(b) == Share(a)
  {
    if a != [] {
      RefillCredit(a[1..], b[1..]);
    }
  }

  lemma {:induction false} ShareCovers(ps: seq<Proc>, i: nat)
    requires i < |ps|
    ensures Share(ps) >= Pos(ps[i].priority)
  {
    if i > 0 {
      ShareCovers(ps[1..], i - 1);
    }
  }

  /** The clock steps p may have to wait for: the others' credit; one more round of the others
      unless p has credit of its own; and one step if the running process has no credit left. */
  ghost function Patience(s: State, p: nat): int
    requires p < |s.procs| && s.cur < |s.procs|
  {
    Credit(s.procs) - Pos(s.procs[p].ticks)
    + (if s.procs[p].ticks > 0 then 0 else Share(s.procs) - s.procs[p].priority)
    + if s.procs[s.cur].ticks > 0 then 0 else 1
  }

  /** What an event stores keeps p ready, its credit and every priority. It creates no credit,
      and a clock step uses some up unless the running process has none. */
  lemma StoreSpends(s: State, e: Event, p: nat)
    requires s.cur < |s.procs| && Waits(s, p)
    ensures var ps := Stored(s, e);
            && |ps| == |s.procs| && ps[p].stat == READY && ps[p].ticks == s.procs[p].ticks
            && ps[p].priority == s.procs[p].priority && Share(ps) == Share(s.procs)
            && Credit(ps) + Pos(s.procs[s.cur].ticks) == Credit(s.procs) + Pos(ps[s.cur].ticks)
            && (e.Tick? ==> ps[s.cur].ticks == s.procs[s.cur].ticks - 1)
            && ps[s.cur].ticks <= Pos(s.procs[s.cur].ticks)
  {
    hide Credit, Share;
    var ps := Stored(s, e);
    SamePriorities(ps, s.procs);
    match e
    case Tick | NestedTick =>
      var t := s.procs[s.cur].(ticks := s.procs[s.cur].ticks - 1);
      CreditUpdate(s.procs, s.cur, t);
      SameTicks(ps, s.procs[s.cur := t]);
    case Drops => CreditUpdate(s.procs, s.cur, s.procs[s.cur].(ticks := 0));
    case SetsChannel(_) => SameTicks(ps, s.procs);
    case Dozes => SameTicks(ps, s.procs);
    case Wakes(_) => SameTicks(ps, s.procs);
    case Dies => SameTicks(ps, s.procs);
    case Decision =>
  }

  /** A decision refills only when p has run out, and then p gets its share. Whoever is chosen
      has credit. */
  lemma DecisionSpends(s: State, s': State, p: nat)
    requires s.cur < |s.procs| && p < |s.procs| && Decides(s.procs, s.cur, s'.procs, s'.cur)
    requires s.procs[p].stat == READY && s.procs[p].priority > 0
    ensures |s'.procs| == |s.procs| && s'.cur < |s'.procs| && InCredit(s'.procs[s'.cur])
    ensures Patience(s', p) <= Patience(s, p) - if s.procs[s.cur].ticks > 0 then 0 else 1
  {
    if !InCredit(s.procs[s.cur]) && !SomeCredit(s.procs) {
      RefillCredit(s.procs, s'.procs);
      SamePriorities(s'.procs, s.procs);
      assert !InCredit(s.procs[p]);
    }
  }

  /** Whatever happens, the patience left does not grow, and a clock step with its decision
      takes one away. */
  lemma StepSpends(s: State, e: Event, s': State, p: nat)
    requires Waits(s, p) && Steps(s, e, s')
    ensures |s'.procs| == |s.procs| && s'.cur < |s'.procs|
    ensures Patience(s', p) + (if e.Tick? then 1 else 0) <= Patience(s, p)
  {
    StoreSpends(s, e, p);
    CreditUpdate(s.procs, s.cur, s.procs[s.cur]);
    if e.Tick? || e.Decision? {
      DecisionSpends(State(Stored(s, e), s.cur), s', p);
    }
  }

  /** Somebody else's credit or nobody's: there is always something to wait for. */
  lemma PatienceLeft(s: State, p: nat)
    requires Waits(s, p) && s.cur < |s.procs|
    ensures Patience(s, p) >= 1
  {
    ShareCovers(s.procs, p);
    CreditUpdate(s.procs, p, s.procs[p].(ticks := 0));
    CreditUpdate(s.procs[p := s.procs[p].(ticks := 0)], s.cur, s.procs[s.cur]);
  }

  lemma {:induction false} PatienceRunsOut(ss: seq<State>, es: seq<Event>, p: nat)
    requires IsRun(ss, es) && ss[0].cur < |ss[0].procs| && p < |ss[0].procs|
    requires forall i :: 0 <= i < |ss| ==> Waits(ss[i], p) && ss[i].cur < |ss[i].procs|
    ensures ClockSteps(es) < Patience(ss[0], p)
  {
    if es == [] {
      PatienceLeft(ss[0], p);
    } else {
      StepSpends(ss[0], es[0], ss[1], p);
      assert IsRun(ss[1..], es[1..]) by {
        forall i | 0 <= i < |es[1..]|
          ensures Steps(ss[1..][i], es[1..][i], ss[1..][i + 1])
        {
          assert Steps(ss[i + 1], es[i + 1], ss[i + 2]);
        }
      }
      PatienceRunsOut(ss[1..], es[1..], p);
    }
  }

  /** Bounded waiting: a ready process with a positive priority is chosen before the clock has
      stepped through the others' ticks and one round of the others' priorities, and one step
      more if the process that runs has just given up its credit. The others may do anything,
      anywhere between a store and its decision; only steps taken inside another handler are
      not counted, since nothing is decided after them. */
  lemma BoundedWaiting(ss: seq<State>, es: seq<Event>, p: nat)
    requires IsRun(ss, es) && ss[0].cur < |ss[0].procs| && p < |ss[0].procs|
    requires forall i :: 0 <= i < |ss| ==> Waits(ss[i], p)
    ensures var ps := ss[0].procs;
            ClockSteps(es) < Credit(ps) - Pos(ps[p].ticks) + Share(ps) - ps[p].priority
                             + if ps[ss[0].cur].ticks > 0 then 0 else 1
  {
    RunInside(ss, es);
    PatienceRunsOut(ss, es, p);
    ShareCovers(ss[0].procs, p);
  }

  lemma {:induction false} RunInside(ss: seq<State>, es: seq<Event>)
    requires IsRun(ss, es) && ss[0].cur < |ss[0].procs|
    ensures forall i :: 0 <= i < |ss| ==> ss[i].cur < |ss[i].procs|
  {
    forall i | 0 <= i < |ss|
      ensures ss[i].cur < |ss[i].procs|
    {
      if i < |es| {
        assert Steps(ss[i], es[i], ss[i + 1]);
      } else if i > 0 {
        assert Steps(ss[i - 1], es[i - 1], ss[i]);
      }
    }
  }

  /** A process that yields and is interrupted before its decision costs the step more: the
      bound is reached. */
  lemma PreemptedYield() returns (ss: seq<State>, es: seq<Event>)
    ensures IsRun(ss, es) && ss[0].cur == 0 && |ss[0].procs| == 2 && forall i :: 0 <= i < |ss| ==> Waits(ss[i], 1)
    ensures ss[0].procs[0].ticks == 0 && ss[0].procs[1].ticks == 0
    ensures ClockSteps(es) == Credit(ss[0].procs) + Share(ss[0].procs) - ss[0].procs[1].priority
  {
    var a := [Proc(READY, 0, 1, Ticks), Proc(READY, 0, 1, Ticks)];
    var b := [Proc(READY, 1, 1, Ticks), Proc(READY, 1, 1, Ticks)];
    var s, s' := State(a, 0), State(b, 0);
    ss, es := [s, s'], [Tick];
    assert Stored(s, Tick) == [Proc(READY, -1, 1, Ticks), Proc(READY, 0, 1, Ticks)];
    assert Refilled(Stored(s, Tick)) == b;
    assert Steps(s, Tick, s');
    OfTwo(a[0], a[1]);
    assert es[1..] == [];
    assert ClockSteps(es) == 1;
  }

  lemma OfTwo(p: Proc, q: Proc)
    ensures Credit([p, q]) == Pos(p.ticks) + Pos(q.ticks) && Share([p, q]) == Pos(p.priority) + Pos(q.priority)
  {
    assert [p, q][1..] == [q] && [q][1..] == [];
    assert Credit([q]) == Pos(q.ticks) + Credit([]) && Share([q]) == Pos(q.priority) + Share([]);
  }
}
