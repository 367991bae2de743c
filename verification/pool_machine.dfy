/** Whole runs of the pool in memory: every region that the threads execute, and every byte that a holder writes into
    its block, keeps memory and list in step with the protocol. */
module PoolMachine {
  import opened FixedPoint
  import L = RtList
  import opened MemPools
  import opened PoolProtocol
  import opened PoolWaits
  import opened Ram
  import opened Sequences

  /** A step of a run: a region of the pool, or the holder of a block writing byte k of it. */
  datatype Action = Region(e: Event) | Write(block: Addr, k: nat, x: Byte)

  function Act(s: Sys, a: Action, blockSize: nat): Result {
    match a
    case Region(e) => Step(s, e)
    case Write(block, k, x) =>
      if block >= HEADER && block - HEADER in s.core.used && k < blockSize then Next(s) else Disabled
  }

  function ActAll(s: Sys, acts: seq<Action>, blockSize: nat): Result
    decreases |acts|
  {
    if acts == [] then Next(s)
    else match Act(s, acts[0], blockSize)
         case Next(s') => ActAll(s', acts[1..], blockSize)
         case r => r
  }

  /** The regions of a run. */
  function Regions(acts: seq<Action>): seq<Event> {
    if acts == [] then []
    else (if acts[0].Region? then [acts[0].e] else []) + Regions(acts[1..])
  }

  /** The protocol does not see the holders' writes. */
  lemma {:induction false} WritesAreInvisible(s: Sys, acts: seq<Action>, blockSize: nat)
    requires !ActAll(s, acts, blockSize).Disabled?
    ensures Run(s, Regions(acts)) == ActAll(s, acts, blockSize)
    decreases |acts|
  {
    if acts != [] {
      var rest := Regions(acts[1..]);
      if acts[0].Region? {
        assert Regions(acts)[1..] == rest;
      } else {
        assert Regions(acts) == rest;
      }
      match Act(s, acts[0], blockSize)
      case Next(s') => WritesAreInvisible(s', acts[1..], blockSize);
      case _ =>
    }
  }

  /** The pool in memory is in the protocol's state, and every resumed thread finds its error code. */
  ghost predicate Sim(mp: MemPool, s: Sys)
    reads mp, mp.ram, mp.suspendThread, mp.tlist.Values
  {
    && mp.Valid() && mp.Abs() == s.core
    && (forall t <- s.pcs :: t in mp.tlist)
    && (forall t <- s.pcs :: s.pcs[t].Roused? ==> t in mp.error && mp.error[t] == s.pcs[t].error)
  }

  /** Byte k of the block with header b. */
  ghost function ByteOf(m: seq<Byte>, b: Addr, k: nat): Byte {
    if b + HEADER + k < |m| then m[b + HEADER + k] else 0
  }

  /** The bytes of the given blocks are the same in both memories. */
  ghost predicate SameBytes(m: seq<Byte>, n: seq<Byte>, blocks: set<Addr>, blockSize: nat) {
    forall b, k: nat :: b in blocks && k < blockSize ==> ByteOf(m, b, k) == ByteOf(n, b, k)
  }

  /** A store to a header changes no block's bytes. */
  lemma HeaderStore(m: seq<Byte>, a: Addr, w: Word, blocks: set<Addr>, blockSize: nat)
    requires Spaced(blocks, HEADER + blockSize, |m|) && a in blocks
    ensures a + 4 <= |m| && SameBytes(m, Store(m, a, w), blocks, blockSize)
  {
    forall b, k: nat | b in blocks && k < blockSize
      ensures ByteOf(m, b, k) == ByteOf(Store(m, a, w), b, k)
    {
      assert b != a ==> a + (HEADER + blockSize) <= b || b + (HEADER + blockSize) <= a;
    }
  }

  // ----- one method for each kind of step

  lemma HeadExists(c: Core, t: Tid, time: int, blocks: set<Addr>)
    requires Partition(c, blocks)
    ensures !Attempt(c, t, time).1.AssertFailed?
  {
  }

  /** The region of rt_mp_alloc leaves the blocks' bytes alone. */
  method AttemptOn(mp: MemPool, t: Tid, time: int) returns (o: Outcome)
    requires mp.Valid() && t in mp.tlist && t !in mp.waiters
    modifies mp, mp.ram, mp.suspendThread, mp.tlist.Values
    ensures mp.Valid()
    ensures mp.Abs() == Attempt(old(mp.Abs()), t, time).0 && o == Attempt(old(mp.Abs()), t, time).1
    ensures mp.error == if o.Slept? then old(mp.error)[t := EOK] else old(mp.error)
    ensures SameBytes(old(mp.ram[..]), mp.ram[..], mp.blocks, mp.blockSize)
  {
    ghost var m := mp.ram[..];
    mp.NextOfHead();
    o := mp.AttemptRegion(t, time);
    if o.Took? {
      HeaderStore(m, o.block - HEADER, mp.self, mp.blocks, mp.blockSize);
    }
  }

  /** Entering, or repeating, the region of rt_mp_alloc. */
  method EnterOn(mp: MemPool, s: Sys, t: Tid, time: int)
    requires Sim(mp, s) && Queue(s) && t in mp.tlist && !PcOf(s, t).Asleep?
    modifies mp, mp.ram, mp.suspendThread, mp.tlist.Values
    ensures Enter(s, t, time).Next? && Sim(mp, Enter(s, t, time).sys)
    ensures SameBytes(old(mp.ram[..]), mp.ram[..], mp.blocks, mp.blockSize)
  {
    HeadExists(mp.Stock(), t, time, mp.blocks);
    var o := AttemptOn(mp, t, time);
  }

  /** Neither the pool's state, with its list of waiting threads, nor its memory has changed. */
  ghost predicate Unchanged(c: Core, d: Core, m: seq<Byte>, n: seq<Byte>) {
    c == d && m == n
  }

  /** A woken thread runs again: it leaves with its error code, or tries once more with the wait that is left. */
  method RerunOn(mp: MemPool, s: Sys, t: Tid, time: int, elapsed: nat)
    requires Sim(mp, s) && Queue(s) && PcOf(s, t).Roused? && PcOf(s, t).time == time
    modifies mp, mp.ram, mp.suspendThread, mp.tlist.Values
    ensures Step(s, Rerun(t, elapsed)).Next? && Sim(mp, Step(s, Rerun(t, elapsed)).sys)
    ensures SameBytes(old(mp.ram[..]), mp.ram[..], mp.blocks, mp.blockSize)
    ensures s.pcs[t].error != EOK ==> Unchanged(old(mp.Abs()), mp.Abs(), old(mp.ram[..]), mp.ram[..])
  {
    if mp.error[t] == EOK {
      EnterOn(mp, s, t, TimeLeft(time, elapsed));
    }
  }

  /** rt_mp_free: the header leads to the pool, whose region follows. */
  method FreeOn(mp: MemPool, s: Sys, block: Addr)
    requires Sim(mp, s) && Queue(s) && Step(s, Free(block)).Next?
    modifies mp, mp.ram, mp.suspendThread, mp.tlist.Values
    ensures Sim(mp, Step(s, Free(block)).sys)
    ensures SameBytes(old(mp.ram[..]), mp.ram[..], mp.blocks, mp.blockSize)
  {
    ghost var m := mp.ram[..];
    HeaderStore(m, block - HEADER, mp.blockList, mp.blocks, mp.blockSize);
    var pool := mp.PoolOf(block);
    assert pool == mp.self;
    var w := mp.ReleaseRegion(block);
  }

  /** The thread timer. */
  method ExpireOn(mp: MemPool, s: Sys, t: Tid)
    requires Sim(mp, s) && Queue(s) && Step(s, Expire(t)).Next?
    modifies mp, mp.suspendThread, mp.tlist.Values
    ensures Sim(mp, Step(s, Expire(t)).sys) && mp.ram[..] == old(mp.ram[..])
  {
    mp.ExpireRegion(t);
  }

  /** The emptiness test of rt_mp_detach. */
  method LookOn(mp: MemPool, s: Sys) returns (empty: bool)
    requires Sim(mp, s) && !s.detaching
    ensures empty <==> Step(s, Look).Disabled?
    ensures !empty ==> Sim(mp, Step(s, Look).sys)
  {
    empty := L.IsEmpty(mp.suspendThread, mp.RingOf(mp.waiters));
  }

  /** The region of rt_mp_detach. */
  method EvictOn(mp: MemPool, s: Sys)
    requires Sim(mp, s) && Queue(s) && Step(s, Evict).Next?
    modifies mp, mp.suspendThread, mp.tlist.Values
    ensures Sim(mp, Step(s, Evict).sys) && mp.ram[..] == old(mp.ram[..])
  {
    var t := mp.EvictRegion();
  }

  /** Any region that can be executed without failing. */
  method Perform(mp: MemPool, s: Sys, e: Event)
    requires Sim(mp, s) && Queue(s) && Step(s, e).Next? && (e.Alloc? ==> e.t in mp.tlist)
    modifies mp, mp.ram, mp.suspendThread, mp.tlist.Values
    ensures Sim(mp, Step(s, e).sys)
    ensures SameBytes(old(mp.ram[..]), mp.ram[..], mp.blocks, mp.blockSize)
    ensures e.Rerun? && s.pcs[e.t].error != EOK ==> Unchanged(old(mp.Abs()), mp.Abs(), old(mp.ram[..]), mp.ram[..])
  {
    match e
    case Alloc(t, time) => EnterOn(mp, s, t, time);
    case Rerun(t, elapsed) => RerunOn(mp, s, t, s.pcs[t].time, elapsed);
    case Free(block) => FreeOn(mp, s, block);
    case Expire(t) => ExpireOn(mp, s, t);
    case Look => var empty := LookOn(mp, s);
    case Evict => EvictOn(mp, s);
  }

  // ----- runs

  /** Nobody frees the block with header b or writes its byte k. */
  ghost predicate LeftAlone(a: Action, b: Addr, k: nat) {
    a != Region(Free(b + HEADER)) && (a.Write? ==> !(a.block == b + HEADER && a.k == k))
  }

  lemma StaysUsed(s: Sys, a: Action, blockSize: nat, b: Addr, k: nat)
    requires b in s.core.used && LeftAlone(a, b, k) && Act(s, a, blockSize).Next?
    ensures b in Act(s, a, blockSize).sys.core.used
  {
  }

  lemma OtherBytes(m: seq<Byte>, a: Addr, j: nat, x: Byte, blocks: set<Addr>, blockSize: nat)
    requires Spaced(blocks, HEADER + blockSize, |m|) && a in blocks && j < blockSize
    ensures a + HEADER + j < |m|
    ensures forall b, k: nat :: b in blocks && k < blockSize && !(a == b && j == k)
                           ==> ByteOf(m[a + HEADER + j := x], b, k) == ByteOf(m, b, k)
  {
    forall b, k: nat | b in blocks && k < blockSize && !(a == b && j == k)
      ensures ByteOf(m[a + HEADER + j := x], b, k) == ByteOf(m, b, k)
    {
      assert b != a ==> a + (HEADER + blockSize) <= b || b + (HEADER + blockSize) <= a;
    }
  }

  /** One action. A byte of an allocated block changes only when it is written, and a thread that leaves with an error
      changes nothing. */
  method PerformAction(mp: MemPool, s: Sys, a: Action)
    requires Sim(mp, s) && Queue(s) && Act(s, a, mp.blockSize).Next?
    requires a.Region? && a.e.Alloc? ==> a.e.t in mp.tlist
    modifies mp, mp.ram, mp.suspendThread, mp.tlist.Values
    ensures Sim(mp, Act(s, a, mp.blockSize).sys)
    ensures forall b, k: nat :: b in mp.blocks && k < mp.blockSize && LeftAlone(a, b, k)
                           ==> ByteOf(mp.ram[..], b, k) == ByteOf(old(mp.ram[..]), b, k)
    ensures a.Write? ==> ByteOf(mp.ram[..], a.block - HEADER, a.k) == a.x
    ensures a.Region? && a.e.Rerun? && s.pcs[a.e.t].error != EOK
            ==> Unchanged(old(mp.Abs()), mp.Abs(), old(mp.ram[..]), mp.ram[..])
  {
    match a
    case Region(e) => Perform(mp, s, e);
    case Write(block, k, x) =>
      ghost var m := mp.ram[..];
      assert block - HEADER in mp.blocks;
      mp.WritePayload(block, k, x);
      OtherBytes(m, block - HEADER, k, x, mp.blocks, mp.blockSize);
  }

  /** Every thread that allocates is known to the pool's machine. */
  predicate Known(acts: seq<Action>, threads: set<Tid>) {
    forall a <- acts :: a.Region? && a.e.Alloc? ==> a.e.t in threads
  }

  function ExpiredIn(a: Action): nat {
    if a.Region? && a.e.Expire? then 1 else 0
  }

  lemma ActKeepsInv(s: Sys, a: Action, blockSize: nat, blocks: set<Addr>, expired: nat)
    requires Inv(s, blocks, expired)
    ensures Act(s, a, blockSize).Next? ==> Inv(Act(s, a, blockSize).sys, blocks, expired + ExpiredIn(a))
  {
    if a.Region? {
      StepKeepsInv(s, a.e, blocks, expired);
    }
  }

  lemma ActFirst(s: Sys, acts: seq<Action>, i: nat, blockSize: nat)
    requires i < |acts|
    ensures ActAll(s, acts[i..], blockSize)
            == match Act(s, acts[i], blockSize)
               case Next(s') => ActAll(s', acts[i + 1..], blockSize)
               case r => r
  {
    assert acts[i..][1..] == acts[i + 1..];
  }

  /** Nobody frees the block with header b or writes its byte k during the run. */
  ghost predicate LeftAloneIn(acts: seq<Action>, b: Addr, k: nat) {
    forall a <- acts :: LeftAlone(a, b, k)
  }

  /** The bytes of used blocks that the run leaves alone are still there, and so are the blocks. */
  ghost predicate Kept(used: set<Addr>, now: set<Addr>, m: seq<Byte>, n: seq<Byte>, acts: seq<Action>, blockSize: nat) {
    forall b, k: nat :: b in used && k < blockSize && LeftAloneIn(acts, b, k)
                        ==> b in now && ByteOf(n, b, k) == ByteOf(m, b, k)
  }

  lemma StillKept(s: Sys, a: Action, used: set<Addr>, m: seq<Byte>, n: seq<Byte>, n': seq<Byte>,
                  acts: seq<Action>, blockSize: nat, blocks: set<Addr>)
    requires a in acts && Act(s, a, blockSize).Next? && used <= blocks
    requires Kept(used, s.core.used, m, n, acts, blockSize)
    requires forall b, k: nat :: b in blocks && k < blockSize && LeftAlone(a, b, k)
                                 ==> ByteOf(n', b, k) == ByteOf(n, b, k)
    ensures Kept(used, Act(s, a, blockSize).sys.core.used, m, n', acts, blockSize)
  {
    forall b, k: nat | b in used && k < blockSize && LeftAloneIn(acts, b, k)
      ensures b in Act(s, a, blockSize).sys.core.used && ByteOf(n', b, k) == ByteOf(m, b, k)
    {
      assert LeftAlone(a, b, k);
      StaysUsed(s, a, blockSize, b, k);
    }
  }

  /** The threads that have been made ready with an error, and do not run again, find their code, and are not listed. */
  ghost predicate StillTold(s: Sys, now: Sys, error: map<Tid, int>, acts: seq<Action>) {
    forall t <- s.pcs :: s.pcs[t].Roused? && s.pcs[t].error != EOK && NotRun(Regions(acts), t)
                         ==> PcOf(now, t) == s.pcs[t] && t in error && error[t] == s.pcs[t].error
                             && t !in now.core.waiters
  }

  lemma StillRoused(s: Sys, acts: seq<Action>, blockSize: nat, blocks: set<Addr>, expired: nat, t: Tid)
    requires Inv(s, blocks, expired) && ActAll(s, acts, blockSize).Next?
    requires PcOf(s, t).Roused? && NotRun(Regions(acts), t)
    ensures PcOf(ActAll(s, acts, blockSize).sys, t) == PcOf(s, t)
    ensures t !in ActAll(s, acts, blockSize).sys.core.waiters
  {
    WritesAreInvisible(s, acts, blockSize);
    StaysRoused(s, Regions(acts), t, blocks, expired);
  }

  lemma AllTold(mp: MemPool, s: Sys, now: Sys, acts: seq<Action>, expired: nat)
    requires Inv(s, mp.blocks, expired) && ActAll(s, acts, mp.blockSize) == Next(now) && Sim(mp, now)
    ensures StillTold(s, now, mp.error, acts)
  {
    forall t | t in s.pcs && s.pcs[t].Roused? && s.pcs[t].error != EOK && NotRun(Regions(acts), t)
      ensures PcOf(now, t) == s.pcs[t] && t in mp.error && mp.error[t] == s.pcs[t].error && t !in now.core.waiters
    {
      StillRoused(s, acts, mp.blockSize, mp.blocks, expired, t);
    }
  }

  /** Any run that does not fail: it ends where the protocol says, in memory too, and a byte that its holder has left
      alone, in a block that it has not freed, is still there. A thread that has been made ready with an error finds its
      code, whatever the others have done, and is not on the list; with PerformAction, its next step then changes
      neither the pool nor its memory. */
  method PerformAll(mp: MemPool, s0: Sys, acts: seq<Action>, ghost expired: nat) returns (r: Result)
    requires Sim(mp, s0) && Inv(s0, mp.blocks, expired) && Known(acts, mp.tlist.Keys)
    requires !ActAll(s0, acts, mp.blockSize).Crash?
    modifies mp, mp.ram, mp.suspendThread, mp.tlist.Values
    ensures r == ActAll(s0, acts, mp.blockSize)
    ensures r.Next? ==> Sim(mp, r.sys)
    ensures r.Next? ==> Kept(s0.core.used, r.sys.core.used, old(mp.ram[..]), mp.ram[..], acts, mp.blockSize)
    ensures r.Next? ==> StillTold(s0, r.sys, mp.error, acts)
  {
    var s, i: nat := s0, 0;
    ghost var gone: nat := expired;
    while i < |acts|
      invariant i <= |acts| && ActAll(s, acts[i..], mp.blockSize) == ActAll(s0, acts, mp.blockSize)
      invariant Sim(mp, s) && Inv(s, mp.blocks, gone)
      invariant Kept(s0.core.used, s.core.used, old(mp.ram[..]), mp.ram[..], acts, mp.blockSize)
    {
      var next := Act(s, acts[i], mp.blockSize);
      ActFirst(s, acts, i, mp.blockSize);
      if next.Disabled? {
        return Disabled;
      }
      ActKeepsInv(s, acts[i], mp.blockSize, mp.blocks, gone);
      ghost var n := mp.ram[..];
      PerformAction(mp, s, acts[i]);
      StillKept(s, acts[i], s0.core.used, old(mp.ram[..]), n, mp.ram[..], acts, mp.blockSize, mp.blocks);
      gone := gone + ExpiredIn(acts[i]);
      s, i := next.sys, i + 1;
    }
    r := Next(s);
    AllTold(mp, s0, s, acts, expired);
  }

  /** What memory holds in a state of the protocol: the free blocks are linked in the order of the list and end in NULL,
      the header of every other block names the pool, and the suspend list is the ring of the waiting threads. */
  lemma SimMeans(mp: MemPool, s: Sys)
    requires Sim(mp, s)
    ensures Linked(mp.ram[..], mp.blockList, s.core.freeList) && Partition(s.core, mp.blocks)
    ensures forall b <- s.core.used :: b + 4 <= mp.ram.Length && Load(mp.ram[..], b) == mp.self
    ensures (forall t <- s.core.waiters :: t in mp.tlist) && L.Ring(mp.RingOf(s.core.waiters))
  {
  }

  /** The headers that rt_mp_init lays out. */
  function BlocksOf(start: nat, size: Word, askedSize: Word): seq<Addr> {
    var stride := RoundUp4(askedSize) + HEADER;
    Headers(start, stride, RoundDown4(size) / stride)
  }

  /** rt_mp_init and any run after it that does not fail, with any number of threads. */
  method InitAndPerform(self: Word, ram: array<Byte>, tlist: map<Tid, L.ListNode>, start: nat, size: Word,
                        askedSize: Word, acts: seq<Action>)
    returns (mp: MemPool, r: Result)
    requires 0 < start && start + size <= ram.Length <= TWO32 && Injective(tlist)
    requires RoundUp4(askedSize) + HEADER < TWO32 && RoundDown4(size) >= RoundUp4(askedSize) + HEADER
    requires Known(acts, tlist.Keys)
    requires !ActAll(Fresh(BlocksOf(start, size, askedSize)), acts, RoundUp4(askedSize)).Crash?
    modifies ram, tlist.Values
    ensures mp.self == self && mp.ram == ram && mp.blocks == Elems(BlocksOf(start, size, askedSize))
    ensures r == ActAll(Fresh(BlocksOf(start, size, askedSize)), acts, RoundUp4(askedSize))
    ensures r.Next? ==> Sim(mp, r.sys) && Run(Fresh(BlocksOf(start, size, askedSize)), Regions(acts)) == r
  {
    mp := Init(self, ram, tlist, start, size, askedSize);
    var f := BlocksOf(start, size, askedSize);
    assert mp.freeList == f && Distinct(f);
    FreshInv(f);
    r := PerformAll(mp, Fresh(f), acts, 0);
    if r.Next? {
      WritesAreInvisible(Fresh(f), acts, RoundUp4(askedSize));
    }
  }

  /** Without expired waits, and with no free between the two parts of a turn of detach, no run fails. */
  lemma SafeRuns(blocks: seq<Addr>, acts: seq<Action>, blockSize: nat)
    requires Distinct(blocks) && Expiries(Regions(acts)) == 0 && Undisturbed(Regions(acts), false)
    ensures !ActAll(Fresh(blocks), acts, blockSize).Crash?
  {
    SafeWithoutTimeouts(blocks, Regions(acts));
    if ActAll(Fresh(blocks), acts, blockSize).Crash? {
      WritesAreInvisible(Fresh(blocks), acts, blockSize);
    }
  }
}
