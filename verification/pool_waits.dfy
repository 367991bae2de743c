/** How a wait for a block goes on and how it ends, over every run of the pool. */
module PoolWaits {
  import opened PoolProtocol
  import opened Sequences

  /** The steps that thread t takes itself or that its own timer takes. */
  predicate Names(e: Event, t: Tid) {
    match e
    case Alloc(u, _) => u == t
    case Rerun(u, _) => u == t
    case Expire(u) => u == t
    case _ => false
  }

  /** The other steps leave a thread where it is, but for the first thread on the list: a free wakes it without an
      error, a turn of detach with RT_ERROR. */
  lemma Bystander(s: Sys, e: Event, t: Tid)
    requires Queue(s) && Step(s, e).Next? && !Names(e, t)
    ensures var p, q := PcOf(s, t), PcOf(Step(s, e).sys, t);
            var first := p.Asleep? && s.core.waiters != [] && s.core.waiters[0] == t;
            q == if first && e.Free? && s.core.suspendCount > 0 then Roused(p.time, 0)
                 else if first && e.Evict? then Roused(p.time, -1)
                 else p
  {
  }

  /** Thread t does not run again during the steps es. */
  predicate NotRun(es: seq<Event>, t: Tid) {
    forall e <- es :: !(e.Rerun? && e.t == t)
  }

  /** Whatever the others do, a thread that has been made ready stays ready, with the same error code. */
  lemma {:induction false} StaysRoused(s: Sys, es: seq<Event>, t: Tid, blocks: set<Addr>, expired: nat)
    requires Inv(s, blocks, expired) && PcOf(s, t).Roused? && NotRun(es, t) && Run(s, es).Next?
    ensures PcOf(Run(s, es).sys, t) == PcOf(s, t)
    ensures t !in Run(s, es).sys.core.waiters
    decreases |es|
  {
    if es != [] {
      StepKeepsInv(s, es[0], blocks, expired);
      var s' := Step(s, es[0]).sys;
      if !Names(es[0], t) {
        Bystander(s, es[0], t);
      }
      StaysRoused(s', es[1..], t, blocks, expired + if es[0].Expire? then 1 else 0);
    }
  }

  /** The step e takes thread t, which is asleep, off the list with an error: detach, or its timer. */
  predicate Ends(s: Sys, e: Event, t: Tid) {
    && PcOf(s, t).Asleep?
    && (e == Expire(t) || (e == Evict && s.core.waiters != [] && s.core.waiters[0] == t))
  }

  lemma EndsRouses(s: Sys, e: Event, t: Tid)
    requires Queue(s) && Ends(s, e, t) && Step(s, e).Next?
    ensures PcOf(Step(s, e).sys, t) == Roused(PcOf(s, t).time, if e.Evict? then -1 else -2)
  {
  }

  /** On every run: once detach or its timer has ended a thread's wait, and whatever other steps come in between, the
      thread's next step is to leave. It takes no block and does not go back to the list: the pool does not change. */
  lemma ErrorEndsWait(blocks: seq<Addr>, es: seq<Event>, e: Event, later: seq<Event>, t: Tid, elapsed: nat)
    requires Distinct(blocks) && Run(Fresh(blocks), es).Next?
    requires var s := Run(Fresh(blocks), es).sys;
             Ends(s, e, t) && Step(s, e).Next? && Run(Step(s, e).sys, later).Next?
    requires NotRun(later, t)
    ensures var s := Run(Fresh(blocks), es).sys;
            var s2 := Run(Step(s, e).sys, later).sys;
            && PcOf(s2, t) == Roused(PcOf(s, t).time, if e.Evict? then -1 else -2)
            && Step(s2, Rerun(t, elapsed)) == Next(s2.(pcs := s2.pcs[t := Outside]))
            && t !in s2.core.waiters
  {
    var s := Run(Fresh(blocks), es).sys;
    FreshInv(blocks);
    RunKeepsInv(Fresh(blocks), es, Elems(blocks), 0);
    StepKeepsInv(s, e, Elems(blocks), Expiries(es));
    EndsRouses(s, e, t);
    StaysRoused(Step(s, e).sys, later, t, Elems(blocks), Expiries(es) + if e.Expire? then 1 else 0);
  }

  /** A thread that a free has woken takes a block if there is one when it runs. */
  lemma WokenTakes(s: Sys, t: Tid, elapsed: nat, blocks: set<Addr>)
    requires Partition(s.core, blocks) && s.core.freeCount > 0
    requires PcOf(s, t).Roused? && PcOf(s, t).error == 0
    ensures var r := Step(s, Rerun(t, elapsed));
            && r.Next? && PcOf(r.sys, t) == Outside && r.sys.core.waiters == s.core.waiters
            && s.core.freeList != [] && r.sys.core.used == s.core.used + {s.core.freeList[0]}
  {
  }

  /** Whether a thread with the given wait gets a block, gives up or goes to sleep, for every wait. */
  lemma AttemptMeans(c: Core, t: Tid, time: int, blocks: set<Addr>)
    requires Partition(c, blocks)
    ensures var (d, o) := Attempt(c, t, time);
            && (o.Took? <==> c.freeList != [])
            && (o.Took? ==> o.block - 4 in c.freeList && d.used == c.used + {o.block - 4} && d.waiters == c.waiters)
            && (o.Slept? <==> c.freeList == [] && time != 0)
            && (o.Slept? ==> d.freeList == [] && d.used == c.used && d.waiters == [t] + c.waiters)
            && (o.GaveUp? <==> c.freeList == [] && time == 0)
            && (o.GaveUp? ==> d == c)
  {
  }

  /** An endless wait ends in a block or in an error: in every step of whatever thread, it goes on, or detach ends it,
      or the thread takes a block. No timer ends it. */
  lemma EndlessWait(s: Sys, e: Event, t: Tid, time: int, blocks: set<Addr>, expired: nat)
    requires Inv(s, blocks, expired) && Step(s, e).Next? && time < 0
    requires PcOf(s, t) == Asleep(time) || PcOf(s, t) == Roused(time, 0)
    ensures var q := PcOf(Step(s, e).sys, t);
            || q == Asleep(time) || q == Roused(time, 0)
            || (e.Evict? && q == Roused(time, -1))
            || (e.Rerun? && e.t == t && q == Outside
                && s.core.freeList != [] && Step(s, e).sys.core.used == s.core.used + {s.core.freeList[0]})
    ensures !(e.Expire? && e.t == t)
  {
    if !Names(e, t) {
      Bystander(s, e, t);
    }
  }

  /** The thread that went to sleep last is the first one that a free wakes. */
  lemma LastAsleepFirstWoken(c: Core, t: Tid, time: int, b: Addr)
    requires Attempt(c, t, time).1.Slept? && b in c.used
    ensures var d := Attempt(c, t, time).0;
            && Release(d, b).1 == Woke(t)
            && Release(d, b).0.waiters == c.waiters && Release(d, b).0.suspendCount == c.suspendCount
  {
    assert ([t] + c.waiters)[1..] == c.waiters;
  }
}
