/** What the memory pool does to its state in each interrupt-free region, and every run of those regions
    by any number of threads, including waits that time out. */
module PoolProtocol {
  import opened Sequences
  import F = FixedPoint

  type Tid = nat
  type Addr = nat

  const EOK := 0
  const ERROR := -1
  const ETIMEOUT := -2
  const HEADER := 4

  /** The pool as the regions see it. Blocks are named by the address of their header. */
  datatype Core = Core(
    freeList: seq<Addr>,
    freeCount: nat,
    used: set<Addr>,
    waiters: seq<Tid>,
    suspendCount: nat)

  datatype Outcome = Took(block: Addr) | GaveUp | Slept | AssertFailed

  datatype Wake = Nobody | Woke(t: Tid) | WokeListHead

  /** The region of rt_mp_alloc: take a block, give up, or go to sleep at the front of the list. */
  function Attempt(c: Core, t: Tid, time: int): (Core, Outcome) {
    if c.freeCount == 0 then
      if time == 0 then (c, GaveUp)
      else (c.(waiters := [t] + c.waiters, suspendCount := c.suspendCount + 1), Slept)
    else if c.freeList == [] then (c, AssertFailed)
    else
      var b := c.freeList[0];
      (c.(freeCount := c.freeCount - 1, freeList := c.freeList[1..], used := c.used + {b}), Took(b + HEADER))
  }

  /** The block with header b becomes the first free one. */
  function GiveBack(c: Core, b: Addr): Core {
    c.(freeCount := c.freeCount + 1, freeList := [b] + c.freeList, used := c.used - {b})
  }

  /** The wake-up is decided by the counter, so with a stale counter the list head itself is taken for a thread. */
  function WakeNext(c: Core): (Core, Wake) {
    if c.suspendCount == 0 then (c, Nobody)
    else if c.waiters == [] then (c, WokeListHead)
    else (c.(waiters := c.waiters[1..], suspendCount := c.suspendCount - 1), Woke(c.waiters[0]))
  }

  /** The region of rt_mp_free for the block with header b. */
  function Release(c: Core, b: Addr): (Core, Wake) {
    WakeNext(GiveBack(c, b))
  }

  function Without(w: seq<Tid>, t: Tid): seq<Tid> {
    if w == [] then [] else if w[0] == t then w[1..] else [w[0]] + Without(w[1..], t)
  }

  /** The thread timer takes a thread off the list, but leaves the pool's counter alone. */
  function Expired(c: Core, t: Tid): Core {
    c.(waiters := Without(c.waiters, t))
  }

  /** The region of rt_mp_detach for a list that is not empty. */
  function Evicted(c: Core): Core
    requires c.waiters != [] && c.suspendCount > 0
  {
    c.(waiters := c.waiters[1..], suspendCount := c.suspendCount - 1)
  }

  // ----- the threads around the pool

  /** Where a thread is: not inside rt_mp_alloc, on the suspend list with the wait it asked for,
      or made ready with an error code but not yet running again. */
  datatype Pc = Outside | Asleep(time: int) | Roused(time: int, error: int)

  /** The pool, its threads, and whether rt_mp_detach has seen a waiting thread and not yet dealt with it. */
  datatype Sys = Sys(core: Core, pcs: map<Tid, Pc>, detaching: bool)

  datatype Event =
    | Alloc(t: Tid, time: int)
    | Rerun(t: Tid, elapsed: nat)
    | Free(block: Addr)
    | Expire(t: Tid)
    | Look
    | Evict

  datatype Result = Disabled | Crash | Next(sys: Sys)

  function PcOf(s: Sys, t: Tid): Pc {
    if t in s.pcs then s.pcs[t] else Outside
  }

  /** A thread enters (or, after a wake-up, repeats) the region of rt_mp_alloc with the wait it has left. */
  function Enter(s: Sys, t: Tid, time: int): Result {
    var (c, o) := Attempt(s.core, t, time);
    match o
    case AssertFailed => Crash
    case Slept => Next(s.(core := c, pcs := s.pcs[t := Asleep(time)]))
    case _ => Next(s.(core := c, pcs := s.pcs[t := Outside]))
  }

  /** The wait left after elapsed ticks, in 32-bit arithmetic; forever stays forever. */
  function TimeLeft(time: int, elapsed: nat): int {
    if time <= 0 then time else if F.Wrap32(time - elapsed) < 0 then 0 else F.Wrap32(time - elapsed)
  }

  /** What is left of a wait of the given length. */
  function Remaining(time: nat, elapsed: nat): nat {
    if time < elapsed then 0 else time - elapsed
  }

  /** The subtraction is right exactly if the thread is not overdue, or overdue by at most 2^31 ticks modulo 2^32;
      otherwise it wraps, and the thread waits once more. */
  lemma TimeLeftExactly(time: F.Q31, elapsed: nat)
    requires time > 0
    ensures TimeLeft(time, elapsed) == Remaining(time, elapsed)
            <==> elapsed <= time || (elapsed - time) % F.TWO32 <= F.TWO31
  {
  }

  /** A wait that is interrupted and resumed lasts as long as one wait; a finite one never becomes endless. */
  lemma WaitsAddUp(time: F.Q31, a: nat, b: nat)
    ensures time >= 0 && a + b <= F.TWO31 ==> TimeLeft(TimeLeft(time, a), b) == Remaining(time, a + b)
    ensures time >= 0 ==> TimeLeft(time, a) >= 0
    ensures time < 0 ==> TimeLeft(time, a) == time
  {
  }

  function Rouse(s: Sys, t: Tid, error: int): map<Tid, Pc> {
    match PcOf(s, t)
    case Asleep(time) => s.pcs[t := Roused(time, error)]
    case _ => s.pcs
  }

  function Step(s: Sys, e: Event): Result {
    match e
    case Alloc(t, time) =>
      if PcOf(s, t).Outside? then Enter(s, t, time) else Disabled
    case Rerun(t, elapsed) =>
      (match PcOf(s, t)
       case Roused(time, error) =>
         if error != EOK then Next(s.(pcs := s.pcs[t := Outside])) else Enter(s, t, TimeLeft(time, elapsed))
       case _ => Disabled)
    case Free(block) =>
      if block >= HEADER && block - HEADER in s.core.used then
        var (c, w) := Release(s.core, block - HEADER);
        match w
        case Nobody => Next(s.(core := c))
        case Woke(t) => Next(s.(core := c, pcs := Rouse(s, t, EOK)))
        case WokeListHead => Crash
      else Disabled
    case Expire(t) =>
      (match PcOf(s, t)
       case Asleep(time) =>
         if time > 0 then
           Next(s.(core := Expired(s.core, t), pcs := Rouse(s, t, ETIMEOUT)))
         else Disabled
       case _ => Disabled)
    case Look =>
      // the emptiness test of rt_mp_detach, which lies outside the region that relies on it
      if s.detaching || s.core.waiters == [] then Disabled else Next(s.(detaching := true))
    case Evict =>
      // the region itself, which takes whatever the list begins with for a thread
      if !s.detaching then Disabled
      else if s.core.waiters == [] || s.core.suspendCount == 0 then Crash
      else
        Next(Sys(Evicted(s.core), Rouse(s, s.core.waiters[0], ERROR), false))
  }

  function Run(s: Sys, es: seq<Event>): Result
    decreases |es|
  {
    if es == [] then Next(s)
    else match Step(s, es[0])
         case Next(s') => Run(s', es[1..])
         case r => r
  }

  function Expiries(es: seq<Event>): nat {
    if es == [] then 0 else (if es[0].Expire? then 1 else 0) + Expiries(es[1..])
  }

  function Fresh(blocks: seq<Addr>): Sys {
    Sys(Core(blocks, |blocks|, {}, [], 0), map[], false)
  }

  // ----- the invariant

  /** Threads that a free has woken and that have not looked at the pool since. */
  function Pending(s: Sys): set<Tid> {
    set t | t in s.pcs && s.pcs[t].Roused? && s.pcs[t].error == EOK
  }

  ghost predicate Partition(c: Core, blocks: set<Addr>) {
    && Distinct(c.freeList)
    && c.freeCount == |c.freeList|
    && Elems(c.freeList) !! c.used
    && Elems(c.freeList) + c.used == blocks
  }

  ghost predicate Queue(s: Sys) {
    && Distinct(s.core.waiters)
    && (forall t: Tid :: t in s.core.waiters <==> PcOf(s, t).Asleep?)
  }

  ghost predicate Inv(s: Sys, blocks: set<Addr>, expired: nat) {
    && Partition(s.core, blocks)
    && Queue(s)
    && s.core.suspendCount == |s.core.waiters| + expired
    && (s.core.waiters != [] ==> s.core.freeCount <= |Pending(s)|)
  }

  // ----- what a region keeps

  lemma AttemptKeepsPartition(c: Core, t: Tid, time: int, blocks: set<Addr>)
    requires Partition(c, blocks)
    ensures Partition(Attempt(c, t, time).0, blocks)
    ensures !Attempt(c, t, time).1.AssertFailed?
  {
    if c.freeCount > 0 {
      var b := c.freeList[0];
      assert c.freeList == [b] + c.freeList[1..];
      assert Elems(c.freeList) == {b} + Elems(c.freeList[1..]);
    }
  }

  lemma ReleaseKeepsPartition(c: Core, b: Addr, blocks: set<Addr>)
    requires Partition(c, blocks) && b in c.used
    ensures Partition(Release(c, b).0, blocks)
  {
    assert Elems([b] + c.freeList) == {b} + Elems(c.freeList);
  }

  lemma WithoutRemoves(w: seq<Tid>, t: Tid)
    requires Distinct(w)
    ensures forall x :: x in Without(w, t) <==> x in w && x != t
    ensures Distinct(Without(w, t))
    ensures |Without(w, t)| == if t in w then |w| - 1 else |w|
  {
    if w != [] {
      WithoutRemoves(w[1..], t);
      assert w == [w[0]] + w[1..];
      var u := Without(w[1..], t);
      assert w[0] !in u by { assert w[0] !in w[1..]; }
      assert Distinct([w[0]] + u);
    }
  }

  lemma PendingWithout(s: Sys, t: Tid, p: Pc)
    ensures Pending(s.(pcs := s.pcs[t := p])) ==
            if p.Roused? && p.error == EOK then Pending(s) + {t} else Pending(s) - {t}
  {
  }

  lemma EnterKeepsQueue(s: Sys, t: Tid, time: int)
    requires Queue(s) && !PcOf(s, t).Asleep? && Enter(s, t, time).Next?
    ensures Queue(Enter(s, t, time).sys)
    ensures Pending(Enter(s, t, time).sys) == Pending(s) - {t}
  {
    var w := s.core.waiters;
    assert forall u :: u in [t] + w <==> u == t || u in w;
  }

  lemma EnterKeepsInv(s: Sys, t: Tid, time: int, blocks: set<Addr>, expired: nat)
    requires Inv(s, blocks, expired)
    requires !PcOf(s, t).Asleep?
    ensures Enter(s, t, time).Next? && Inv(Enter(s, t, time).sys, blocks, expired)
  {
    AttemptKeepsPartition(s.core, t, time, blocks);
    EnterKeepsQueue(s, t, time);
    assert |Pending(s) - {t}| >= |Pending(s)| - 1;
  }

  lemma RouseKeepsQueue(s: Sys, t: Tid, error: int, w: seq<Tid>)
    requires Queue(s) && t in s.core.waiters
    requires Distinct(w) && forall x :: x in w <==> x in s.core.waiters && x != t
    ensures Queue(s.(core := s.core.(waiters := w), pcs := Rouse(s, t, error)))
    ensures Pending(s.(pcs := Rouse(s, t, error))) ==
            if error == EOK then Pending(s) + {t} else Pending(s)
    ensures t !in Pending(s)
  {
    assert PcOf(s, t).Asleep?;
  }

  lemma FirstWaiter(s: Sys)
    requires Queue(s) && s.core.waiters != []
    ensures var w := s.core.waiters;
            Distinct(w[1..]) && forall x :: x in w[1..] <==> x in w && x != w[0]
  {
    var w := s.core.waiters;
    assert w == [w[0]] + w[1..];
  }

  lemma RerunKeepsInv(s: Sys, t: Tid, elapsed: nat, blocks: set<Addr>, expired: nat)
    requires Inv(s, blocks, expired) && PcOf(s, t).Roused?
    ensures Step(s, Rerun(t, elapsed)).Next? && Inv(Step(s, Rerun(t, elapsed)).sys, blocks, expired)
  {
    var p := PcOf(s, t);
    if p.error == EOK {
      EnterKeepsInv(s, t, TimeLeft(p.time, elapsed), blocks, expired);
    } else {
      PendingWithout(s, t, Outside);
      assert Pending(s) - {t} == Pending(s);
    }
  }

  lemma FreeKeepsInv(s: Sys, b: Addr, blocks: set<Addr>, expired: nat)
    requires Inv(s, blocks, expired) && b in s.core.used
    ensures var r := Step(s, Free(b + HEADER));
            if s.core.waiters == [] && expired > 0 then r.Crash? else r.Next? && Inv(r.sys, blocks, expired)
  {
    ReleaseKeepsPartition(s.core, b, blocks);
    if s.core.waiters != [] {
      FirstWaiter(s);
      RouseKeepsQueue(s, s.core.waiters[0], EOK, s.core.waiters[1..]);
    }
  }

  lemma ExpireKeepsInv(s: Sys, t: Tid, blocks: set<Addr>, expired: nat)
    requires Inv(s, blocks, expired) && PcOf(s, t).Asleep?
    ensures var r := Step(s, Expire(t));
            r.Disabled? || (r.Next? && Inv(r.sys, blocks, expired + 1))
  {
    WithoutRemoves(s.core.waiters, t);
    RouseKeepsQueue(s, t, ETIMEOUT, Without(s.core.waiters, t));
  }

  lemma EvictKeepsInv(s: Sys, blocks: set<Addr>, expired: nat)
    requires Inv(s, blocks, expired) && s.core.waiters != [] && s.detaching
    ensures Step(s, Evict).Next? && Inv(Step(s, Evict).sys, blocks, expired)
  {
    FirstWaiter(s);
    RouseKeepsQueue(s, s.core.waiters[0], ERROR, s.core.waiters[1..]);
  }

  /** The two steps that the code cannot survive: a free while the counter says that somebody waits and nobody
      is on the list, and the region of detach when the list has run empty since it looked. */
  predicate Fatal(s: Sys, e: Event, expired: nat) {
    && s.core.waiters == []
    && match e
       case Free(block) => block >= HEADER && block - HEADER in s.core.used && expired > 0
       case Evict => s.detaching
       case _ => false
  }

  lemma StepKeepsInv(s: Sys, e: Event, blocks: set<Addr>, expired: nat)
    requires Inv(s, blocks, expired)
    ensures Step(s, e).Next? ==> Inv(Step(s, e).sys, blocks, expired + if e.Expire? then 1 else 0)
    ensures Step(s, e).Crash? <==> Fatal(s, e, expired)
  {
    match e
    case Alloc(t, time) => if PcOf(s, t).Outside? { EnterKeepsInv(s, t, time, blocks, expired); }
    case Rerun(t, elapsed) => if PcOf(s, t).Roused? { RerunKeepsInv(s, t, elapsed, blocks, expired); }
    case Free(block) =>
      if block >= HEADER && block - HEADER in s.core.used { FreeKeepsInv(s, block - HEADER, blocks, expired); }
    case Expire(t) => if PcOf(s, t).Asleep? { ExpireKeepsInv(s, t, blocks, expired); }
    case Look =>
    case Evict => if s.core.waiters != [] && s.detaching { EvictKeepsInv(s, blocks, expired); }
  }

  lemma {:induction false} RunKeepsInv(s: Sys, es: seq<Event>, blocks: set<Addr>, expired: nat)
    requires Inv(s, blocks, expired)
    ensures Run(s, es).Next? ==> Inv(Run(s, es).sys, blocks, expired + Expiries(es))
    decreases |es|
  {
    if es != [] {
      StepKeepsInv(s, es[0], blocks, expired);
      match Step(s, es[0])
      case Next(s') => RunKeepsInv(s', es[1..], blocks, expired + if es[0].Expire? then 1 else 0);
      case _ =>
    }
  }

  lemma FreshInv(blocks: seq<Addr>)
    requires Distinct(blocks)
    ensures Inv(Fresh(blocks), Elems(blocks), 0)
  {
    assert Pending(Fresh(blocks)) == {};
  }

  // ----- the main results, over every run from a freshly initialised pool

  /** No wake-up is lost: while a thread waits there are at most as many free blocks as woken threads
      that have still to look; so once they all have looked, a waiter means that nothing is free. */
  lemma NoLostWakeUp(blocks: seq<Addr>, es: seq<Event>)
    requires Distinct(blocks)
    requires Run(Fresh(blocks), es).Next?
    ensures var s := Run(Fresh(blocks), es).sys;
            s.core.waiters != [] ==>
              s.core.freeCount <= |Pending(s)| && (Pending(s) == {} ==> s.core.freeList == [])
  {
    FreshInv(blocks);
    RunKeepsInv(Fresh(blocks), es, Elems(blocks), 0);
  }

  /** The counter is ahead of the list by the number of waits that have timed out, so it is right
      exactly on the runs in which none has. */
  lemma WaiterCount(blocks: seq<Addr>, es: seq<Event>)
    requires Distinct(blocks)
    requires Run(Fresh(blocks), es).Next?
    ensures var c := Run(Fresh(blocks), es).sys.core;
            && c.suspendCount == |c.waiters| + Expiries(es)
            && (c.suspendCount == |c.waiters| <==> Expiries(es) == 0)
  {
    FreshInv(blocks);
    RunKeepsInv(Fresh(blocks), es, Elems(blocks), 0);
  }

  /** Free and allocated blocks are always exactly the pool's blocks, each in one place; the free counter
      is right, so the assertion on the list head holds, and no block is handed out twice. */
  lemma PoolPartition(blocks: seq<Addr>, es: seq<Event>, t: Tid, time: int)
    requires Distinct(blocks)
    requires Run(Fresh(blocks), es).Next?
    ensures var c := Run(Fresh(blocks), es).sys.core;
            && Partition(c, Elems(blocks))
            && !Attempt(c, t, time).1.AssertFailed?
            && (Attempt(c, t, time).1.Took? ==>
                  Attempt(c, t, time).1.block - HEADER in Elems(blocks) - c.used)
  {
    FreshInv(blocks);
    RunKeepsInv(Fresh(blocks), es, Elems(blocks), 0);
    AttemptKeepsPartition(Run(Fresh(blocks), es).sys.core, t, time, Elems(blocks));
  }

  /** A step fails exactly when a block is freed after some wait has timed out and nobody is listed, or when the
      last listed thread has left between the two parts of a turn of detach. */
  lemma CrashExactly(blocks: seq<Addr>, es: seq<Event>, e: Event)
    requires Distinct(blocks)
    requires Run(Fresh(blocks), es).Next?
    ensures var s := Run(Fresh(blocks), es).sys;
            Step(s, e).Crash? <==> Fatal(s, e, Expiries(es))
  {
    FreshInv(blocks);
    RunKeepsInv(Fresh(blocks), es, Elems(blocks), 0);
    StepKeepsInv(Run(Fresh(blocks), es).sys, e, Elems(blocks), Expiries(es));
  }

  /** No block is freed between the two parts of a turn of detach. */
  predicate Undisturbed(es: seq<Event>, detaching: bool) {
    es == [] ||
    match es[0]
    case Look => Undisturbed(es[1..], true)
    case Evict => Undisturbed(es[1..], false)
    case Free(_) => !detaching && Undisturbed(es[1..], detaching)
    case _ => Undisturbed(es[1..], detaching)
  }

  lemma {:induction false} UndisturbedRun(s: Sys, es: seq<Event>, blocks: set<Addr>)
    requires Inv(s, blocks, 0) && Expiries(es) == 0 && Undisturbed(es, s.detaching)
    requires s.detaching ==> s.core.waiters != []
    ensures !Run(s, es).Crash?
    decreases |es|
  {
    if es != [] {
      StepKeepsInv(s, es[0], blocks, 0);
      match Step(s, es[0])
      case Next(s') => UndisturbedRun(s', es[1..], blocks);
      case _ =>
    }
  }

  /** A run without timeouts is safe, if no free comes between the two parts of a turn of detach. */
  lemma SafeWithoutTimeouts(blocks: seq<Addr>, es: seq<Event>)
    requires Distinct(blocks) && Expiries(es) == 0 && Undisturbed(es, false)
    ensures !Run(Fresh(blocks), es).Crash?
  {
    FreshInv(blocks);
    UndisturbedRun(Fresh(blocks), es, Elems(blocks));
  }

  lemma RunCons(s: Sys, e: Event, es: seq<Event>)
    requires Step(s, e).Next?
    ensures Run(s, [e] + es) == Run(Step(s, e).sys, es)
  {
    assert ([e] + es)[1..] == es;
  }

  /** One block, one timed wait that expires, one free: the list head is resumed as if it were a thread. */
  lemma TimeoutThenFreeCrashes()
    ensures Run(Fresh([100]), [Alloc(1, 0)] + ([Alloc(2, 5)] + ([Expire(2)] + [Free(104)]))).Crash?
  {
    var s1 := Step(Fresh([100]), Alloc(1, 0)).sys;
    assert s1.core == Core([], 0, {100}, [], 0);
    var s2 := Step(s1, Alloc(2, 5)).sys;
    assert s2.core == Core([], 0, {100}, [2], 1);
    var s3 := Step(s2, Expire(2)).sys;
    assert s3.core == Core([], 0, {100}, [], 1);
    RunCons(s2, Expire(2), [Free(104)]);
    RunCons(s1, Alloc(2, 5), [Expire(2)] + [Free(104)]);
    RunCons(Fresh([100]), Alloc(1, 0), [Alloc(2, 5)] + ([Expire(2)] + [Free(104)]));
  }

  lemma LookThenFree(s: Sys)
    requires s.core == Core([], 0, {100}, [2], 1) && !s.detaching
    ensures Run(s, [Look] + ([Free(104)] + [Evict])).Crash?
  {
    var s3 := Step(s, Look).sys;
    assert s3.core == s.core && s3.detaching;
    var s4 := Step(s3, Free(104)).sys;
    assert s4.core.waiters == [] && s4.detaching;
    RunCons(s3, Free(104), [Evict]);
    RunCons(s, Look, [Free(104)] + [Evict]);
  }

  /** A free that resumes the only waiter after detach has seen it: detach resumes the list head. */
  lemma FreeBehindDetachCrashes()
    ensures Run(Fresh([100]), [Alloc(1, 0)] + ([Alloc(2, -1)] + ([Look] + ([Free(104)] + [Evict])))).Crash?
  {
    var s1 := Step(Fresh([100]), Alloc(1, 0)).sys;
    assert s1.core == Core([], 0, {100}, [], 0);
    var s2 := Step(s1, Alloc(2, -1)).sys;
    assert s2.core == Core([], 0, {100}, [2], 1) && !s2.detaching;
    LookThenFree(s2);
    RunCons(s1, Alloc(2, -1), [Look] + ([Free(104)] + [Evict]));
    RunCons(Fresh([100]), Alloc(1, 0), [Alloc(2, -1)] + ([Look] + ([Free(104)] + [Evict])));
  }

  /** Whenever a free wakes the first waiter of an empty pool, any other thread may take the block first; the woken
      thread then goes back to the front of the list with what is left of its wait, or gives up if nothing is. */
  lemma WokenThreadCanLose(s: Sys, blocks: set<Addr>, expired: nat, b: Addr, t: Tid, u: Tid, time: int, elapsed: nat)
    requires Inv(s, blocks, expired) && s.core.freeCount == 0 && b in s.core.used
    requires s.core.waiters != [] && t == s.core.waiters[0] && PcOf(s, u).Outside?
    ensures PcOf(s, t).Asleep?
    ensures var r := Run(s, [Free(b + HEADER)] + ([Alloc(u, time)] + [Rerun(t, elapsed)]));
            var left := TimeLeft(PcOf(s, t).time, elapsed);
            && r.Next? && r.sys.core.freeCount == 0 && b in r.sys.core.used
            && PcOf(r.sys, t) == (if left == 0 then Outside else Asleep(left))
            && r.sys.core.waiters == (if left == 0 then [] else [t]) + s.core.waiters[1..]
  {
    var wait := PcOf(s, t).time;
    var s1 := Step(s, Free(b + HEADER)).sys;
    RunCons(s, Free(b + HEADER), [Alloc(u, time)] + [Rerun(t, elapsed)]);
    assert s1.core.freeList == [b] + s.core.freeList && PcOf(s1, t) == Roused(wait, EOK);
    assert PcOf(s1, u).Outside?;
    var s2 := Step(s1, Alloc(u, time)).sys;
    RunCons(s1, Alloc(u, time), [Rerun(t, elapsed)]);
    assert s2.core.freeCount == 0 && b in s2.core.used && PcOf(s2, t) == Roused(wait, EOK);
    RunCons(s2, Rerun(t, elapsed), []);
    assert [Rerun(t, elapsed)] + [] == [Rerun(t, elapsed)];
  }

  /** The block freed last is the one allocated next. */
  lemma LastFreedFirstAllocated(c: Core, b: Addr, t: Tid, time: int)
    requires b in c.used && !Release(c, b).1.WokeListHead?
    ensures Attempt(Release(c, b).0, t, time).1 == Took(b + 4)
    ensures Attempt(Release(c, b).0, t, time).0.used == c.used
    ensures Attempt(Release(c, b).0, t, time).0.freeList == c.freeList
  {
    var c1 := Release(c, b).0;
    assert c1.freeList[1..] == c.freeList;
  }
}
