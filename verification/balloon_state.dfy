/** The balloon driver's data: parked page extents, the per-node and global
    `balloon_stats` records (linux-kernel/drivers/xen/balloon.c), the state of
    `balloon_process`, and the bookkeeping invariant that ties counters to pools. */
module BalloonState {
  import opened Common

  /** A `struct page` as far as the balloon cares: its frame number and whether
      it lies in high memory (`PageHighMem`). */
  datatype Page = Page(frame: nat, highMem: bool)

  /** A page parked on a node list; `order` is what the driver stores in
      `page->private` when appending. */
  datatype Parked = Parked(page: Page, order: nat)

  /** `struct balloon_stats`. Page counters are unbounded integers; the
      backoff fields are unsigned longs and stay below 2^64. */
  datatype Stats = Stats(
    currentPages: int,
    targetPages: int,
    targetUnpopulated: int,
    balloonLow: int,
    balloonHigh: int,
    totalPages: int,
    scheduleDelay: nat,
    maxScheduleDelay: nat,
    retryCount: nat,
    maxRetryCount: nat)

  /** The value of `max_retry_count` that disables the retry cap. */
  const RetryUnlimited: nat := 0

  /** The driver's global state: the global `balloon_stats`, the array
      `balloon_stats_numa` and the array of lists `ballooned_pages_numa`.
      The number of nodes is `num_nodes`. */
  datatype Balloon = Balloon(global: Stats, nodes: seq<Stats>, pools: seq<seq<Parked>>)

  /** `enum bp_state`. */
  datatype BpState = Done | Wait | EAgain | ECanceled

  predicate WellFormed(b: Balloon) {
    |b.nodes| == |b.pools| && |b.nodes| >= 1
  }

  function NumNodes(b: Balloon): nat { |b.nodes| }

  /** Number of low-memory (resp. high-memory) pages in a list. */
  function CountLow(pool: seq<Parked>): (n: nat)
    ensures n <= |pool|
  {
    if |pool| == 0 then 0
    else CountLow(pool[..|pool| - 1]) + (if pool[|pool| - 1].page.highMem then 0 else 1)
  }

  function CountHigh(pool: seq<Parked>): (n: nat)
    ensures n <= |pool|
  {
    if |pool| == 0 then 0
    else CountHigh(pool[..|pool| - 1]) + (if pool[|pool| - 1].page.highMem then 1 else 0)
  }

  lemma {:induction false} CountLowHighSplit(pool: seq<Parked>)
    ensures CountLow(pool) + CountHigh(pool) == |pool|
  {
    if |pool| > 0 {
      CountLowHighSplit(pool[..|pool| - 1]);
    }
  }

  lemma {:induction false} CountConcat(a: seq<Parked>, c: seq<Parked>)
    ensures CountLow(a + c) == CountLow(a) + CountLow(c)
    ensures CountHigh(a + c) == CountHigh(a) + CountHigh(c)
    decreases |c|
  {
    if |c| == 0 {
      assert a + c == a;
    } else {
      var c' := c[..|c| - 1];
      assert (a + c)[..|a + c| - 1] == a + c';
      CountConcat(a, c');
    }
  }

  lemma CountSingle(p: Parked)
    ensures CountLow([p]) == (if p.page.highMem then 0 else 1)
    ensures CountHigh([p]) == (if p.page.highMem then 1 else 0)
  {
    assert [p][..0] == [];
  }

  /** Every low-memory page precedes every high-memory page: the order that
      front insertion of lowmem and tail insertion of highmem maintains. */
  predicate LowBeforeHigh(pool: seq<Parked>) {
    forall i, j :: 0 <= i < j < |pool| && pool[i].page.highMem ==> pool[j].page.highMem
  }

  /** Sum of a per-node counter over all nodes. */
  function SumLow(nodes: seq<Stats>): int
  {
    if |nodes| == 0 then 0 else SumLow(nodes[..|nodes| - 1]) + nodes[|nodes| - 1].balloonLow
  }

  function SumHigh(nodes: seq<Stats>): int
  {
    if |nodes| == 0 then 0 else SumHigh(nodes[..|nodes| - 1]) + nodes[|nodes| - 1].balloonHigh
  }

  /** Replacing one node's record changes each sum by that node's difference. */
  lemma {:induction false} SumUpdate(nodes: seq<Stats>, n: nat, s: Stats)
    requires n < |nodes|
    ensures SumLow(nodes[n := s]) == SumLow(nodes) - nodes[n].balloonLow + s.balloonLow
    ensures SumHigh(nodes[n := s]) == SumHigh(nodes) - nodes[n].balloonHigh + s.balloonHigh
    decreases |nodes|
  {
    var last := |nodes| - 1;
    if n == last {
      assert nodes[n := s][..last] == nodes[..last];
    } else {
      assert nodes[n := s][..last] == nodes[..last][n := s];
      SumUpdate(nodes[..last], n, s);
    }
  }

  /** The sums of the low/high counters ignore every other field. */
  lemma {:induction false} SumLowHighSame(xs: seq<Stats>, ys: seq<Stats>)
    requires |xs| == |ys|
    requires forall n :: 0 <= n < |xs| ==> xs[n].balloonLow == ys[n].balloonLow && xs[n].balloonHigh == ys[n].balloonHigh
    ensures SumLow(xs) == SumLow(ys) && SumHigh(xs) == SumHigh(ys)
    decreases |xs|
  {
    if |xs| > 0 {
      SumLowHighSame(xs[..|xs| - 1], ys[..|ys| - 1]);
    }
  }

  predicate NodeConsistent(s: Stats, pool: seq<Parked>) {
    && s.balloonLow == CountLow(pool)
    && s.balloonHigh == CountHigh(pool)
    && LowBeforeHigh(pool)
  }

  /** The bookkeeping invariant: each node's low/high counters count the pages
      on its list, low pages come first, and the global counters are the sums
      of the node counters. */
  predicate Consistent(b: Balloon) {
    && WellFormed(b)
    && (forall n :: 0 <= n < |b.nodes| ==> NodeConsistent(b.nodes[n], b.pools[n]))
    && b.global.balloonLow == SumLow(b.nodes)
    && b.global.balloonHigh == SumHigh(b.nodes)
  }

  /** `current_credit(node)`: pages still to reclaim (positive) or to give back
      (negative) on that node. The C subtracts two unsigned longs and reads the
      result as a long; the model keeps the mathematical difference. */
  function Credit(b: Balloon, node: nat): int
    requires node < |b.nodes|
  {
    b.nodes[node].targetPages - b.nodes[node].currentPages
  }

  /** `balloon_is_inflated(node)`. */
  predicate IsInflated(b: Balloon, node: nat)
    requires node < |b.nodes|
  {
    b.nodes[node].balloonLow != 0 || b.nodes[node].balloonHigh != 0
  }

  /** On a consistent balloon, a node counts as inflated exactly when its list
      holds at least one page. */
  lemma InflatedIffNonEmpty(b: Balloon, node: nat)
    requires Consistent(b) && node < |b.nodes|
    ensures IsInflated(b, node) <==> |b.pools[node]| > 0
  {
    CountLowHighSplit(b.pools[node]);
  }
}
