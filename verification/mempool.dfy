/** The memory pool itself: block headers in memory, a free list threaded through them, and a ring of
    suspended threads. Each method body is one interrupt-free region and does what PoolProtocol says. */
module MemPools {
  import opened FixedPoint
  import opened Ram
  import L = RtList
  import opened Sequences
  import opened P = PoolProtocol

  const NULL := 0

  /** The address of the header of block i. */
  function HeaderAt(start: nat, stride: nat, i: nat): Addr {
    start + i * stride
  }

  /** The headers of n blocks that follow one another from start on. */
  function Headers(start: nat, stride: nat, n: nat): (q: seq<Addr>)
    ensures |q| == n
    ensures forall i :: 0 <= i < n ==> q[i] == HeaderAt(start, stride, i)
  {
    seq(n, i requires 0 <= i => HeaderAt(start, stride, i))
  }

  /** Blocks a stride apart do not overlap. */
  lemma HeadersApart(start: nat, stride: nat, i: nat, j: nat)
    requires i < j
    ensures HeaderAt(start, stride, i) + stride <= HeaderAt(start, stride, j)
  {
    assert j * stride == i * stride + (j - i) * stride;
    assert (j - i) * stride >= stride by {
      assert (j - i) * stride == stride + (j - i - 1) * stride;
    }
  }

  /** The blocks are disjoint and lie in memory. */
  ghost predicate Spaced(blocks: set<Addr>, stride: nat, room: nat) {
    && (forall a :: a in blocks ==> 0 < a && a + stride <= room)
    && (forall a, b :: a in blocks && b in blocks && a != b ==> a + stride <= b || b + stride <= a)
  }

  /** What the header of the i-th free block holds. */
  function Link(f: seq<Addr>, i: nat): Addr
    requires i < |f|
  {
    if i + 1 < |f| then f[i + 1] else NULL
  }

  /** Starting from head, the headers link the blocks of f in order and end in NULL. */
  ghost predicate Linked(m: seq<Byte>, head: Word, f: seq<Addr>) {
    && head == (if f == [] then NULL else f[0])
    && (forall i :: 0 <= i < |f| ==> f[i] + 4 <= |m|)
    && (forall i {:trigger Link(f, i)} {:trigger Load(m, f[i])} :: 0 <= i < |f| ==> Load(m, f[i]) == Link(f, i))
  }

  /** A store to a block that is not on the list leaves the list alone. */
  lemma LinkedElsewhere(m: seq<Byte>, head: Word, f: seq<Addr>, a: Addr, w: Word)
    requires Linked(m, head, f) && a + 4 <= |m|
    requires forall x <- f :: x + 4 <= a || a + 4 <= x
    ensures Linked(Store(m, a, w), head, f)
  {
    forall i | 0 <= i < |f|
      ensures Load(Store(m, a, w), f[i]) == Load(m, f[i])
    {
      assert f[i] in f;
      LoadElsewhere(m, a, w, f[i]);
    }
  }

  lemma LinkedCons(m: seq<Byte>, head: Word, f: seq<Addr>, a: Word)
    requires Linked(m, head, f) && a != NULL && a + 4 <= |m| && Load(m, a) == head
    ensures Linked(m, a, [a] + f)
  {
    var g := [a] + f;
    forall i | 0 <= i < |g|
      ensures g[i] + 4 <= |m| && Load(m, g[i]) == Link(g, i)
    {
      if i > 0 {
        assert g[i] == f[i - 1] && Link(g, i) == Link(f, i - 1);
      }
    }
  }

  /** Storing the old head into a block off the list puts that block in front. */
  lemma LinkedPush(m: seq<Byte>, head: Word, f: seq<Addr>, a: Word)
    requires Linked(m, head, f) && a + 4 <= |m| && a != NULL
    requires forall x <- f :: x + 4 <= a || a + 4 <= x
    ensures Linked(Store(m, a, head), a, [a] + f)
  {
    LinkedElsewhere(m, head, f, a, head);
    LoadStored(m, a, head);
    LinkedCons(Store(m, a, head), head, f, a);
  }

  /** The head's own header names the rest of the list. */
  lemma LinkedPop(m: seq<Byte>, head: Word, f: seq<Addr>)
    requires Linked(m, head, f) && f != []
    ensures head + 4 <= |m| && Linked(m, Load(m, head), f[1..])
  {
    var g := f[1..];
    assert Load(m, f[0]) == Link(f, 0);
    forall i | 0 <= i < |g|
      ensures g[i] + 4 <= |m| && Load(m, g[i]) == Link(g, i)
    {
      assert g[i] == f[i + 1] && Link(g, i) == Link(f, i + 1);
    }
  }

  /** Addresses in ascending order with room for a word between any two. */
  ghost predicate Ascending(q: seq<Addr>) {
    forall i, j :: 0 <= i < j < |q| ==> q[i] + 4 <= q[j]
  }

  /** The first k headers of f, save the very last one, hold the address of the next block. */
  ghost predicate LinkedUpTo(m: seq<Byte>, f: seq<Addr>, k: nat)
    requires k <= |f|
  {
    && (forall i :: 0 <= i < k ==> f[i] + 4 <= |m|)
    && (forall i {:trigger Load(m, f[i])} :: 0 <= i < k && i < |f| - 1 ==> Load(m, f[i]) == Link(f, i))
  }

  lemma LinkOne(m: seq<Byte>, f: seq<Addr>, k: nat, w: Word)
    requires k < |f| && Ascending(f) && f[k] + 4 <= |m|
    requires LinkedUpTo(m, f, k) && (k < |f| - 1 ==> w == Link(f, k))
    ensures LinkedUpTo(Store(m, f[k], w), f, k + 1)
  {
    LoadStored(m, f[k], w);
    forall i | 0 <= i < k
      ensures Load(Store(m, f[k], w), f[i]) == Load(m, f[i])
    {
      LoadElsewhere(m, f[k], w, f[i]);
    }
  }

  /** If only the last link has changed, and to NULL, the list is complete. */
  lemma LastLink(m: seq<Byte>, r: seq<Byte>, f: seq<Addr>)
    requires f != [] && LinkedUpTo(m, f, |f|) && |m| == |r| <= TWO32
    requires Load(r, f[|f| - 1]) == NULL
    requires forall i {:trigger Load(r, f[i])} :: 0 <= i < |f| - 1 ==> Load(r, f[i]) == Load(m, f[i])
    ensures Linked(r, f[0], f)
  {
  }

  /** Overwriting the last link with NULL ends the list. */
  lemma LinkLast(m: seq<Byte>, f: seq<Addr>, w: Word)
    requires f != [] && Ascending(f) && |m| <= TWO32 && w == NULL
    requires LinkedUpTo(m, f, |f|)
    ensures Linked(Store(m, f[|f| - 1], w), f[0], f)
  {
    var last := f[|f| - 1];
    LoadStored(m, last, w);
    forall i {:trigger Load(m, f[i])} | 0 <= i < |f| - 1
      ensures Load(Store(m, last, w), f[i]) == Load(m, f[i])
    {
      LoadElsewhere(m, last, w, f[i]);
    }
    LastLink(m, Store(m, last, w), f);
  }

  lemma HeadersAscend(start: nat, stride: nat, n: nat)
    requires 4 <= stride
    ensures Ascending(Headers(start, stride, n))
  {
    forall i, j | 0 <= i < j < n
      ensures HeaderAt(start, stride, i) + 4 <= HeaderAt(start, stride, j)
    {
      HeadersApart(start, stride, i, j);
    }
  }

  lemma HeadersInside(start: nat, stride: nat, n: nat)
    ensures forall i :: 0 <= i < n ==> Headers(start, stride, n)[i] + stride <= start + n * stride
    ensures n > 0 ==> Headers(start, stride, n)[0] == start
  {
    forall i | 0 <= i < n ensures Headers(start, stride, n)[i] + stride <= start + n * stride {
      HeadersApart(start, stride, i, n);
    }
  }

  /** Links n blocks a stride apart into a list that ends in NULL. */
  method LinkBlocks(ram: array<Byte>, start: nat, stride: nat, n: nat)
    requires 0 < start && 4 <= stride && 0 < n
    requires HeaderAt(start, stride, n) <= ram.Length <= TWO32
    modifies ram
    ensures Linked(ram[..], start, Headers(start, stride, n))
  {
    ghost var f := Headers(start, stride, n);
    HeadersAscend(start, stride, n);
    HeadersInside(start, stride, n);
    var offset := 0;
    while offset < n
      invariant offset <= n
      invariant LinkedUpTo(ram[..], f, offset)
    {
      var next := HeaderAt(start, stride, offset + 1);
      LinkOne(ram[..], f, offset, next % TWO32);
      StoreWord(ram, HeaderAt(start, stride, offset), next % TWO32);
      offset := offset + 1;
    }
    LinkLast(ram[..], f, NULL);
    StoreWord(ram, HeaderAt(start, stride, offset - 1), NULL);
  }

  lemma HeadersSpaced(start: nat, stride: nat, n: nat, room: nat)
    requires 0 < start && 0 < stride && start + n * stride <= room
    ensures Spaced(Elems(Headers(start, stride, n)), stride, room)
    ensures Distinct(Headers(start, stride, n))
  {
    var q := Headers(start, stride, n);
    forall i, j | 0 <= i < j < n
      ensures q[i] + stride <= q[j]
    {
      HeadersApart(start, stride, i, j);
    }
    forall i | 0 <= i < n
      ensures q[i] + stride <= room
    {
      HeadersApart(start, stride, i, n);
    }
  }

  /** The blocks of a pool in memory: disjoint, the free ones linked from head, the others naming the pool. */
  ghost predicate InMemory(c: Core, m: seq<Byte>, head: Word, self: Word, blocks: set<Addr>, stride: nat) {
    && |m| <= TWO32 && 4 <= stride
    && Spaced(blocks, stride, |m|)
    && Partition(c, blocks)
    && Linked(m, head, c.freeList)
    && (forall b :: b in c.used ==> b + 4 <= |m| && Load(m, b) == self)
  }

  /** Unlinking the first free block and writing the pool's address into its header. */
  lemma TakeInMemory(c: Core, m: seq<Byte>, head: Word, self: Word, blocks: set<Addr>, stride: nat, t: Tid, time: int)
    requires InMemory(c, m, head, self, blocks, stride) && c.freeCount > 0
    ensures head != NULL && head == c.freeList[0] && head + 4 <= |m|
    ensures InMemory(Attempt(c, t, time).0, Store(m, head, self), Load(m, head), self, blocks, stride)
  {
    AttemptKeepsPartition(c, t, time, blocks);
    var f := c.freeList[1..];
    assert head in c.freeList && head in Elems(c.freeList);
    LinkedPop(m, head, c.freeList);
    forall x | x in f
      ensures x + 4 <= head || head + 4 <= x
    {
      assert x in c.freeList && x in Elems(c.freeList) && x != head;
    }
    LinkedElsewhere(m, Load(m, head), f, head, self);
    LoadStored(m, head, self);
    forall b | b in c.used
      ensures Load(Store(m, head, self), b) == self
    {
      LoadElsewhere(m, head, self, b);
    }
  }

  /** Linking an allocated block in front of the free list. */
  lemma PushInMemory(c: Core, m: seq<Byte>, head: Word, self: Word, blocks: set<Addr>, stride: nat, a: Word)
    requires InMemory(c, m, head, self, blocks, stride) && a in c.used
    ensures a + 4 <= |m|
    ensures InMemory(Release(c, a).0, Store(m, a, head), a, self, blocks, stride)
  {
    ReleaseKeepsPartition(c, a, blocks);
    forall x | x in c.freeList
      ensures x + 4 <= a || a + 4 <= x
    {
      assert x in Elems(c.freeList) && x != a;
    }
    LinkedPush(m, head, c.freeList, a);
    forall b | b in c.used - {a}
      ensures Load(Store(m, a, head), b) == self
    {
      LoadElsewhere(m, a, head, b);
    }
  }

  /** A byte of an allocated block that is not in its header belongs to nobody else. */
  lemma PayloadInMemory(c: Core, m: seq<Byte>, head: Word, self: Word, blocks: set<Addr>, stride: nat,
                        a: Addr, k: nat, x: Byte)
    requires InMemory(c, m, head, self, blocks, stride) && a in c.used && HEADER + k < stride
    ensures a + HEADER + k < |m|
    ensures InMemory(c, m[a + HEADER + k := x], head, self, blocks, stride)
  {
    assert a in blocks;
    var n := m[a + HEADER + k := x];
    forall b | b in blocks
      ensures Load(n, b) == Load(m, b)
    {
      assert a != b ==> a + stride <= b || b + stride <= a;
    }
    forall i | 0 <= i < |c.freeList|
      ensures Load(n, c.freeList[i]) == Link(c.freeList, i)
    {
      assert c.freeList[i] in Elems(c.freeList);
    }
  }

  /** Every thread has a list node of its own. */
  ghost predicate Injective(tlist: map<Tid, L.ListNode>) {
    forall t, u :: t in tlist && u in tlist && t != u ==> tlist[t] != tlist[u]
  }

  lemma CountFits(size: nat, stride: nat)
    requires 0 < stride <= size
    ensures 0 < size / stride && size / stride * stride <= size
  {
  }

  lemma FreshInMemory(start: nat, stride: nat, n: nat, m: seq<Byte>, self: Word)
    requires 0 < start && 4 <= stride && 0 < n && HeaderAt(start, stride, n) <= |m| <= TWO32
    requires Linked(m, start, Headers(start, stride, n))
    ensures var f := Headers(start, stride, n);
            InMemory(Fresh(f).core, m, start, self, Elems(f), stride)
  {
    HeadersSpaced(start, stride, n, |m|);
  }

  /** The error codes after every thread of w has been given the same one. */
  function Marked(error: map<Tid, int>, w: seq<Tid>, code: int): map<Tid, int>
    decreases |w|
  {
    if w == [] then error else Marked(error[w[0] := code], w[1..], code)
  }

  /** A thread that has the code keeps it. */
  lemma {:induction false} MarkedKeeps(error: map<Tid, int>, w: seq<Tid>, code: int, t: Tid)
    requires t in error && error[t] == code
    ensures t in Marked(error, w, code) && Marked(error, w, code)[t] == code
    decreases |w|
  {
    if w != [] {
      MarkedKeeps(error[w[0] := code], w[1..], code, t);
    }
  }

  lemma {:induction false} MarkedMeans(error: map<Tid, int>, w: seq<Tid>, code: int, t: Tid)
    ensures var m := Marked(error, w, code);
            if t in w then t in m && m[t] == code
            else (t in m <==> t in error) && (t in m ==> m[t] == error[t])
    decreases |w|
  {
    if w != [] {
      MarkedMeans(error[w[0] := code], w[1..], code, t);
      assert w == [w[0]] + w[1..];
      MarkedKeeps(error[w[0] := code], w[1..], code, w[0]);
    }
  }

  class MemPool {
    const self: Word
    const ram: array<Byte>
    const tlist: map<Tid, L.ListNode>
    const suspendThread: L.ListNode
    const startAddress: nat
    const size: nat
    const blockSize: nat
    const blockTotal: nat

    var blockList: Word
    var blockFree: nat
    var suspendCount: nat
    var error: map<Tid, int>

    ghost const blocks: set<Addr>

    ghost var freeList: seq<Addr>
    ghost var used: set<Addr>
    ghost var waiters: seq<Tid>

    ghost function Abs(): Core
      reads this
    {
      Core(freeList, blockFree, used, waiters, suspendCount)
    }

    /** The ring of the suspend list: the head, then the list node of each waiting thread. */
    ghost function RingOf(w: seq<Tid>): (r: seq<L.ListNode>)
      requires forall t <- w :: t in tlist
      ensures |r| == |w| + 1 && r[0] == suspendThread
      ensures forall i :: 0 < i <= |w| ==> r[i] == tlist[w[i - 1]]
    {
      [suspendThread] + seq(|w|, i requires 0 <= i < |w| => tlist[w[i]])
    }

    /** Every thread control block embeds its own node, and none of them is the list head. */
    ghost predicate Threads()
    {
      suspendThread !in tlist.Values && Injective(tlist)
    }

    /** The part of the state that lies in the pool's memory. */
    ghost function Stock(): Core
      reads `freeList, `blockFree, `used
    {
      Core(freeList, blockFree, used, [], 0)
    }

    ghost predicate Blocks()
      reads `freeList, `blockFree, `used, `blockList, ram
    {
      InMemory(Stock(), ram[..], blockList, self, blocks, HEADER + blockSize)
    }

    ghost predicate Waiters()
      reads `waiters, suspendThread, tlist.Values
    {
      && Threads()
      && (forall t <- waiters :: t in tlist)
      && L.Ring(RingOf(waiters))
    }

    ghost predicate Valid()
      reads this, ram, suspendThread, tlist.Values
    {
      Blocks() && Waiters()
    }

    /** The state that rt_mp_init and rt_mp_create both set up, for n blocks of the given size. */
    constructor (self: Word, ram: array<Byte>, tlist: map<Tid, L.ListNode>,
                 start: nat, size: nat, blockSize: nat, n: nat)
      requires 0 < start && 0 < n && HeaderAt(start, blockSize + HEADER, n) <= ram.Length <= TWO32
      requires Injective(tlist)
      modifies ram
      ensures Valid() && fresh(suspendThread)
      ensures this.self == self && this.ram == ram && this.tlist == tlist
      ensures startAddress == start && this.size == size && this.blockSize == blockSize && blockTotal == n
      ensures error == map[]
      ensures Abs() == Fresh(Headers(start, blockSize + HEADER, n)).core && blocks == Elems(freeList)
    {
      var stride := blockSize + HEADER;
      this.self, this.ram, this.tlist := self, ram, tlist;
      startAddress, this.size, this.blockSize := start, size, blockSize;
      blockTotal, blockFree := n, n;
      suspendThread := new L.ListNode();
      suspendCount := 0;
      blockList := start;
      error := map[];
      blocks, freeList, used, waiters := Elems(Headers(start, stride, n)), Headers(start, stride, n), {}, [];
      new;
      LinkBlocks(ram, start, stride, n);
      FreshInMemory(start, stride, n, ram[..], self);
      assert RingOf([]) == [suspendThread];
    }

    lemma RingOfPush(t: Tid, w: seq<Tid>)
      requires t in tlist && (forall u <- w :: u in tlist)
      ensures RingOf([t] + w) == Inserted(RingOf(w), 1, tlist[t])
    {
      var q, r, v := RingOf(w), RingOf([t] + w), [t] + w;
      forall k | 0 <= k < |r|
        ensures r[k] == Inserted(q, 1, tlist[t])[k]
      {
        assert k >= 2 ==> v[k - 1] == w[k - 2] && q[k - 1] == tlist[w[k - 2]];
      }
    }

    lemma NotInRing(t: Tid, w: seq<Tid>)
      requires Threads() && t in tlist && t !in w && (forall u <- w :: u in tlist)
      ensures tlist[t] !in RingOf(w)
    {
      forall k | 0 < k <= |w|
        ensures RingOf(w)[k] != tlist[t]
      {
        assert w[k - 1] in w;
      }
    }

    lemma RingOfPop(w: seq<Tid>)
      requires w != [] && (forall u <- w :: u in tlist)
      ensures RingOf(w[1..]) == Deleted(RingOf(w), 1)
    {
    }

    /** Links the node of thread t behind the list head. */
    method LinkNode(t: Tid, ghost w: seq<Tid>)
      requires Threads() && t in tlist && t !in w
      requires (forall u <- w :: u in tlist) && L.Ring(RingOf(w))
      modifies suspendThread, suspendThread.next, tlist[t]
      ensures L.Ring(RingOf([t] + w))
    {
      RingOfPush(t, w);
      NotInRing(t, w);
      L.InsertAfter(suspendThread, tlist[t], RingOf(w), 0);
    }

    /** Puts thread t at the front of the suspend list. */
    method Suspend(t: Tid)
      requires Waiters() && t in tlist && t !in waiters
      modifies `error, `suspendCount, `waiters, suspendThread, suspendThread.next, tlist[t]
      ensures Waiters() && waiters == [t] + old(waiters) && suspendCount == old(suspendCount) + 1
      ensures error == old(error)[t := EOK]
    {
      error := error[t := EOK];
      LinkNode(t, waiters);
      suspendCount := suspendCount + 1;
      waiters := [t] + waiters;
    }

    /** Unlinks the first free block and makes its header name the pool. */
    method TakeBlock() returns (blockPtr: Word)
      requires Blocks() && blockFree > 0
      modifies `blockFree, `blockList, `freeList, `used, ram
      ensures Blocks()
      ensures old(freeList) != [] && blockPtr == old(freeList[0])
      ensures Stock() == Attempt(old(Stock()), 0, 0).0
      ensures blockPtr + 4 <= ram.Length && ram[..] == Store(old(ram[..]), blockPtr, self)
    {
      ghost var c := Stock();
      TakeInMemory(c, ram[..], blockList, self, blocks, HEADER + blockSize, 0, 0);
      blockFree := blockFree - 1;
      blockPtr := blockList;
      assert blockPtr != NULL;
      blockList := LoadWord(ram, blockPtr);
      StoreWord(ram, blockPtr, self);
      freeList, used := c.freeList[1..], c.used + {c.freeList[0]};
    }

    /** The list head is followed by itself or by the node of a thread. */
    lemma NextOfHead()
      requires Waiters()
      ensures suspendThread.next == suspendThread || suspendThread.next in tlist.Values
    {
      assert suspendThread.next == L.After(RingOf(waiters), 0);
    }

    /** The region of rt_mp_alloc for thread t with the given wait. */
    method AttemptRegion(t: Tid, time: int) returns (o: Outcome)
      requires Valid() && t in tlist && t !in waiters
      modifies `blockFree, `blockList, `freeList, `used, ram
      modifies `error, `suspendCount, `waiters, suspendThread, suspendThread.next, tlist[t]
      ensures Valid()
      ensures Abs() == Attempt(old(Abs()), t, time).0 && o == Attempt(old(Abs()), t, time).1
      ensures error == if o.Slept? then old(error)[t := EOK] else old(error)
      ensures o.Took? ==> o.block >= HEADER && o.block <= ram.Length
                          && ram[..] == Store(old(ram[..]), o.block - HEADER, self)
      ensures !o.Took? ==> ram[..] == old(ram[..])
    {
      if blockFree == 0 {
        if time == 0 {
          return GaveUp;
        }
        Suspend(t);
        return Slept;
      }
      var blockPtr := TakeBlock();
      o := Took(blockPtr + HEADER);
    }

    /** Finds the thread that owns the first node of the list and unlinks that node. */
    method UnlinkFirst(ghost w: seq<Tid>) returns (t: Tid)
      requires Threads() && w != [] && (forall u <- w :: u in tlist) && L.Ring(RingOf(w))
      modifies suspendThread, tlist.Values
      ensures t == w[0] && L.Ring(RingOf(w[1..])) && L.Ring([tlist[t]])
    {
      ghost var r := RingOf(w);
      var node := suspendThread.next;
      assert node == L.After(r, 0) == tlist[w[0]];
      t :| t in tlist && tlist[t] == node;
      L.RingPrev(r, 1);
      assert node.next == L.After(r, 1);
      L.Remove(node, r, 1);
      RingOfPop(w);
    }

    /** Resumes the first thread of the suspend list with the given error code. */
    method WakeFirst(code: int) returns (t: Tid)
      requires Waiters() && waiters != [] && suspendCount > 0
      modifies `error, `suspendCount, `waiters, suspendThread, tlist.Values
      ensures Waiters() && old(waiters) == [t] + waiters && suspendCount == old(suspendCount) - 1
      ensures error == old(error)[t := code]
      ensures L.Ring([tlist[t]])
    {
      t := UnlinkFirst(waiters);
      error := error[t := code];
      suspendCount := suspendCount - 1;
      waiters := waiters[1..];
    }

    /** Links the block back in front of the free list. */
    method GiveBlock(blockPtr: Word)
      requires Blocks() && blockPtr in used
      modifies `blockFree, `blockList, `freeList, `used, ram
      ensures Blocks()
      ensures Abs() == GiveBack(old(Abs()), blockPtr)
      ensures blockPtr + 4 <= ram.Length && ram[..] == Store(old(ram[..]), blockPtr, old(blockList))
    {
      ghost var c := Stock();
      PushInMemory(c, ram[..], blockList, self, blocks, HEADER + blockSize, blockPtr);
      blockFree := blockFree + 1;
      StoreWord(ram, blockPtr, blockList);
      blockList := blockPtr;
      freeList, used := [blockPtr] + c.freeList, c.used - {blockPtr};
    }

    /** Resumes the first waiter if the counter says that there is one. */
    method WakeWaiter() returns (w: Wake)
      requires Waiters() && (suspendCount > 0 ==> waiters != [])
      modifies `error, `suspendCount, `waiters, suspendThread, tlist.Values
      ensures Waiters()
      ensures Abs() == WakeNext(old(Abs())).0 && w == WakeNext(old(Abs())).1
      ensures error == if w.Woke? then old(error)[w.t := EOK] else old(error)
    {
      if suspendCount > 0 {
        var t := WakeFirst(EOK);
        return Woke(t);
      }
      w := Nobody;
    }

    /** The region of rt_mp_free. The header of the block has led to this pool. */
    method ReleaseRegion(block: Addr) returns (w: Wake)
      requires Valid() && block >= HEADER && block - HEADER in used
      requires suspendCount > 0 ==> waiters != []
      modifies `blockFree, `blockList, `freeList, `used, ram
      modifies `error, `suspendCount, `waiters, suspendThread, tlist.Values
      ensures Valid()
      ensures Abs() == Release(old(Abs()), block - HEADER).0 && w == Release(old(Abs()), block - HEADER).1
      ensures error == if w.Woke? then old(error)[w.t := EOK] else old(error)
      ensures block <= ram.Length && ram[..] == Store(old(ram[..]), block - HEADER, old(blockList))
    {
      GiveBlock(block - HEADER);
      w := WakeWaiter();
    }

    /** The header of an allocated block leads from the block back to its pool. */
    method PoolOf(block: Addr) returns (mp: Word)
      requires Blocks() && block >= HEADER && block - HEADER in used
      ensures mp == self
    {
      mp := LoadWord(ram, block - HEADER);
    }

    /** The region of rt_mp_detach, for a list that is not empty. */
    method EvictRegion() returns (t: Tid)
      requires Waiters() && waiters != [] && suspendCount > 0
      modifies `error, `suspendCount, `waiters, suspendThread, tlist.Values
      ensures Waiters() && t == old(waiters)[0]
      ensures Abs() == Evicted(old(Abs()))
      ensures error == old(error)[t := ERROR]
    {
      t := WakeFirst(ERROR);
    }

    /** Where thread t is on the list. */
    lemma PlaceOf(t: Tid, w: seq<Tid>) returns (i: nat)
      requires t in w
      ensures i < |w| && w[i] == t && Without(w, t) == Deleted(w, i)
      decreases |w|
    {
      if w[0] == t {
        i := 0;
      } else {
        assert w == [w[0]] + w[1..];
        i := PlaceOf(t, w[1..]);
        i := i + 1;
      }
    }

    lemma RingWithout(w: seq<Tid>, i: nat)
      requires i < |w| && (forall u <- w :: u in tlist)
      ensures forall u <- Deleted(w, i) :: u in tlist
      ensures RingOf(Deleted(w, i)) == Deleted(RingOf(w), i + 1)
    {
      assert forall u <- Deleted(w, i) :: u in w;
    }

    method UnlinkThread(t: Tid, ghost w: seq<Tid>)
      requires Threads() && t in w && (forall u <- w :: u in tlist) && L.Ring(RingOf(w))
      modifies suspendThread, tlist.Values
      ensures (forall u <- Without(w, t) :: u in tlist) && L.Ring(RingOf(Without(w, t)))
      ensures L.Ring([tlist[t]])
    {
      ghost var i := PlaceOf(t, w);
      ghost var r := RingOf(w);
      RingWithout(w, i);
      L.RingPrev(r, i + 1);
      assert r[i + 1].next == L.After(r, i + 1);
      L.Remove(tlist[t], r, i + 1);
    }

    /** The thread timer, rt_thread_timeout, for a thread on the list: it unlinks the thread wherever it stands. */
    method ExpireRegion(t: Tid)
      requires Waiters() && t in waiters
      modifies `error, `waiters, suspendThread, tlist.Values
      ensures Waiters() && Abs() == Expired(old(Abs()), t)
      ensures error == old(error)[t := P.ETIMEOUT]
      ensures L.Ring([tlist[t]])
    {
      error := error[t := P.ETIMEOUT];
      UnlinkThread(t, waiters);
      waiters := Without(waiters, t);
    }

    /** rt_mp_detach: every waiting thread is resumed with an error, first to last. */
    method Detach()
      requires Waiters() && suspendCount >= |waiters|
      modifies `error, `suspendCount, `waiters, suspendThread, tlist.Values
      ensures Waiters() && waiters == [] && suspendCount == old(suspendCount - |waiters|)
      ensures error == Marked(old(error), old(waiters), ERROR)
    {
      var empty := L.IsEmpty(suspendThread, RingOf(waiters));
      while !empty
        invariant Waiters() && (empty <==> waiters == [])
        invariant suspendCount >= |waiters| && suspendCount - |waiters| == old(suspendCount - |waiters|)
        invariant Marked(error, waiters, ERROR) == Marked(old(error), old(waiters), ERROR)
        decreases |waiters|
      {
        ghost var w := waiters;
        var t := EvictRegion();
        assert w[0] == t && w[1..] == waiters;
        empty := L.IsEmpty(suspendThread, RingOf(waiters));
      }
    }

    /** The holder of a block writes any byte of it; the pool does not notice. */
    method WritePayload(block: Addr, k: nat, x: Byte)
      requires Blocks() && block >= HEADER && block - HEADER in used && k < blockSize
      modifies ram
      ensures Blocks()
      ensures ram[..] == old(ram[..])[block + k := x]
    {
      PayloadInMemory(Stock(), ram[..], blockList, self, blocks, HEADER + blockSize, block - HEADER, k, x);
      ram[block + k] := x;
    }
  }

  /** rt_mp_init: as many blocks as fit the given memory; there must be room for one. */
  method Init(self: Word, ram: array<Byte>, tlist: map<Tid, L.ListNode>, start: nat, size: Word, askedSize: Word)
    returns (mp: MemPool)
    requires 0 < start && start + size <= ram.Length <= TWO32 && Injective(tlist)
    requires RoundUp4(askedSize) + HEADER < TWO32 && RoundDown4(size) >= RoundUp4(askedSize) + HEADER
    modifies ram
    ensures mp.Valid() && fresh(mp) && fresh(mp.suspendThread)
    ensures mp.self == self && mp.ram == ram && mp.tlist == tlist && mp.error == map[]
    ensures mp.startAddress == start && mp.size == RoundDown4(size) && mp.blockSize == RoundUp4(askedSize)
    ensures var stride := RoundUp4(askedSize) + 4;
            && mp.blockTotal == RoundDown4(size) / stride > 0
            && mp.Abs() == Fresh(Headers(start, stride, mp.blockTotal)).core && mp.blocks == Elems(mp.freeList)
  {
    var blockSize := RoundUp4(askedSize);
    var n := RoundDown4(size) / (blockSize + HEADER);
    CountFits(RoundDown4(size), blockSize + HEADER);
    mp := new MemPool(self, ram, tlist, start, RoundDown4(size), blockSize, n);
  }

  /** The number of bytes that rt_mp_create asks from the heap, in 32-bit arithmetic. */
  function Requested(blockCount: Word, askedSize: Word): Word {
    ((RoundUp4(askedSize) + HEADER) % TWO32 * blockCount) % TWO32
  }

  lemma NoProductWrap(stride: nat, n: nat)
    requires 0 < n && stride * n < TWO32
    ensures stride < TWO32 && (stride % TWO32 * n) % TWO32 == stride * n == n * stride
  {
  }

  /** rt_mp_create, with the heap's answer: zero means that it had no room. */
  method Create(self: Word, ram: array<Byte>, tlist: map<Tid, L.ListNode>,
                heap: Word, blockCount: Word, askedSize: Word)
    returns (mp: MemPool?)
    requires Injective(tlist) && blockCount > 0 && ram.Length <= TWO32
    requires (RoundUp4(askedSize) + HEADER) * blockCount < TWO32
    requires heap + Requested(blockCount, askedSize) <= ram.Length
    modifies ram
    ensures mp == null <==> heap == 0
    ensures mp != null ==> mp.Valid() && fresh(mp) && fresh(mp.suspendThread)
    ensures mp != null ==> mp.self == self && mp.ram == ram && mp.tlist == tlist && mp.error == map[]
    ensures mp != null ==> mp.startAddress == heap && mp.size == Requested(blockCount, askedSize)
    ensures mp != null ==> mp.blockSize == RoundUp4(askedSize) && mp.blockTotal == blockCount
    ensures mp != null ==> mp.Abs() == Fresh(Headers(heap, RoundUp4(askedSize) + 4, blockCount)).core
                           && mp.blocks == Elems(mp.freeList)
  {
    if heap == 0 {
      return null;
    }
    NoProductWrap(RoundUp4(askedSize) + HEADER, blockCount);
    mp := new MemPool(self, ram, tlist, heap, Requested(blockCount, askedSize), RoundUp4(askedSize), blockCount);
  }

  /** The heap is asked for room for all the blocks exactly when the product does not wrap. */
  lemma RequestedExactly(blockCount: Word, askedSize: Word)
    requires blockCount > 0
    ensures Requested(blockCount, askedSize) >= (RoundUp4(askedSize) + HEADER) * blockCount
            <==> (RoundUp4(askedSize) + HEADER) * blockCount < TWO32
  {
    if (RoundUp4(askedSize) + HEADER) * blockCount < TWO32 {
      NoProductWrap(RoundUp4(askedSize) + HEADER, blockCount);
    }
  }

  /** A block is as large as was asked exactly when rounding the size up does not wrap. */
  lemma BlockLargeEnough(askedSize: Word)
    ensures RoundUp4(askedSize) >= askedSize <==> askedSize <= TWO32 - 4
  {
  }
}
