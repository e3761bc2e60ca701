/** Start-up sizing and target changes of the balloon
    (linux-kernel/drivers/xen/balloon.c): `balloon_init` with
    `balloon_init_numa`, and `balloon_set_new_target`. */
module Targets {
  import opened Common
  import opened BalloonState
  import opened Backoff

  /** Base pages per huge page: `1U << (HPAGE_SHIFT + PAGE_SIZE_ADJUST - PAGE_SHIFT)`. */
  const PagesPerHuge: nat := 512

  /** Fresh backoff fields: delay 1 of at most 32, retry 1 of at most 3. */
  function FreshStats(current: int, total: int): (s: Stats)
    ensures s.currentPages == current && s.targetPages == current && s.totalPages == total
    ensures s.balloonLow == 0 && s.balloonHigh == 0 && s.targetUnpopulated == 0
    ensures BackoffInv(s) && s.maxRetryCount == 3 && s.maxScheduleDelay == 32
  {
    Stats(current, current, 0, 0, 0, total, 1, 32, 1, 3)
  }

  /** The per-node share of `physPages` base pages in huge pages, rounded up:
      the divisor is `num_nodes * 512` computed as an `unsigned int`. */
  function NodeShare(physPages: nat, numNodes: nat): (c: nat)
    requires 1 <= numNodes && numNodes * PagesPerHuge < U32
    ensures numNodes * PagesPerHuge * c >= physPages
    ensures c == 0 || numNodes * PagesPerHuge * (c - 1) < physPages
  {
    var d := numNodes * PagesPerHuge;
    var q := physPages / d;
    assert physPages == d * q + physPages % d;
    if physPages % d != 0 then q + 1 else q
  }

  /** `balloon_init` for an HVM guest followed by `balloon_init_numa`: the
      global record counts every physical base page as current; each node
      gets an equal share of the memory in huge pages, rounded up, as both
      its current size and target, an empty list, and the global current
      count as its `total_pages`. The C leaves a node's
      `target_unpopulated` unset; the model starts it at 0. */
  function BalloonInit(physPages: nat, numNodes: nat): (b: Balloon)
    requires 1 <= numNodes && numNodes * PagesPerHuge < U32
    ensures Consistent(b) && NumNodes(b) == numNodes
    ensures BackoffInv(b.global)
    ensures b.global.currentPages == physPages && b.global.targetPages == physPages
    ensures forall n :: 0 <= n < numNodes ==>
      && Credit(b, n) == 0
      && |b.pools[n]| == 0
      && b.nodes[n].totalPages == physPages
      && numNodes * PagesPerHuge * b.nodes[n].currentPages >= physPages
      && numNodes * PagesPerHuge * (b.nodes[n].currentPages - 1) < physPages
  {
    var share := NodeShare(physPages, numNodes);
    var b := Balloon(FreshStats(physPages, physPages),
                     seq(numNodes, _ => FreshStats(share, physPages)),
                     seq(numNodes, _ => []));
    ZeroSums(b.nodes);
    b
  }

  lemma {:induction false} ZeroSums(nodes: seq<Stats>)
    requires forall n :: 0 <= n < |nodes| ==> nodes[n].balloonLow == 0 && nodes[n].balloonHigh == 0
    ensures SumLow(nodes) == 0 && SumHigh(nodes) == 0
    decreases |nodes|
  {
    if |nodes| > 0 {
      ZeroSums(nodes[..|nodes| - 1]);
    }
  }

  /** The balloon after a target change, and whether the worker was queued. */
  datatype Targeted = Targeted(balloon: Balloon, kicked: bool)

  /** `balloon_set_new_target(target, node)` with the node test done as a
      signed comparison. A node beyond the last changes nothing and queues
      nothing. A negative node sets the global target and gives every node
      an equal share, the remainder of the division dropped. Any other node
      gets the target itself. Only target fields change. */
  function SetNewTarget(b: Balloon, target: nat, node: int): (r: Targeted)
    requires WellFormed(b)
    ensures node >= NumNodes(b) <==> !r.kicked
    ensures node >= NumNodes(b) ==> r.balloon == b
    ensures r.balloon.pools == b.pools && |r.balloon.nodes| == |b.nodes|
    ensures node < 0 ==>
      && r.balloon.global == b.global.(targetPages := target)
      && forall n :: 0 <= n < NumNodes(b) ==>
           r.balloon.nodes[n] == b.nodes[n].(targetPages := target / NumNodes(b))
    ensures 0 <= node < NumNodes(b) ==>
      && r.balloon.global == b.global
      && r.balloon.nodes[node] == b.nodes[node].(targetPages := target)
      && forall n :: 0 <= n < NumNodes(b) && n != node ==> r.balloon.nodes[n] == b.nodes[n]
  {
    var n := NumNodes(b);
    if node >= n then Targeted(b, false)
    else if node < 0 then
      Targeted(Balloon(b.global.(targetPages := target),
                       seq(n, i requires 0 <= i < n => b.nodes[i].(targetPages := target / n)),
                       b.pools), true)
    else
      Targeted(b.(nodes := b.nodes[node := b.nodes[node].(targetPages := target)]), true)
  }

  /** The sum of the node targets. */
  function SumTargets(nodes: seq<Stats>): int
  {
    if |nodes| == 0 then 0 else SumTargets(nodes[..|nodes| - 1]) + nodes[|nodes| - 1].targetPages
  }

  lemma {:induction false} SumTargetsEqual(nodes: seq<Stats>, v: int)
    requires forall n :: 0 <= n < |nodes| ==> nodes[n].targetPages == v
    ensures SumTargets(nodes) == |nodes| * v
    decreases |nodes|
  {
    if |nodes| > 0 {
      SumTargetsEqual(nodes[..|nodes| - 1], v);
    }
  }

  /** Spreading a target over the nodes loses less than one page per node:
      the node targets add up to at most the target and to more than the
      target minus the number of nodes. */
  lemma SpreadTargetLosesRemainder(b: Balloon, target: nat)
    requires WellFormed(b)
    ensures var r := SetNewTarget(b, target, -1).balloon;
      target - NumNodes(b) < SumTargets(r.nodes) <= target
  {
    var n := NumNodes(b);
    var r := SetNewTarget(b, target, -1).balloon;
    SumTargetsEqual(r.nodes, target / n);
    assert target == n * (target / n) + target % n;
  }

  /** A target change leaves the bookkeeping invariant alone. */
  lemma SetNewTargetConsistent(b: Balloon, target: nat, node: int)
    requires Consistent(b)
    ensures Consistent(SetNewTarget(b, target, node).balloon)
  {
    var r := SetNewTarget(b, target, node).balloon;
    assert forall n :: 0 <= n < |r.nodes| ==>
      r.nodes[n].balloonLow == b.nodes[n].balloonLow && r.nodes[n].balloonHigh == b.nodes[n].balloonHigh;
    SumLowHighSame(b.nodes, r.nodes);
    assert forall n :: 0 <= n < |r.nodes| ==> NodeConsistent(r.nodes[n], r.pools[n]) by {
      forall n | 0 <= n < |r.nodes|
        ensures NodeConsistent(r.nodes[n], r.pools[n])
      {
        assert NodeConsistent(b.nodes[n], b.pools[n]);
      }
    }
  }

  /** `balloon_set_new_target` as the C writes it: `node >= num_nodes`
      compares an `int` with an `unsigned int`, so a negative node is
      converted to a value of at least 2^31 and the call returns at once. */
  function SetNewTargetAsWritten(b: Balloon, target: nat, node: int): (r: Targeted)
    requires WellFormed(b) && NumNodes(b) < U32
    requires -(U32 as int) / 2 <= node < U32 / 2
    ensures node >= 0 ==> r == SetNewTarget(b, target, node)
    ensures node < 0 && NumNodes(b) <= U32 / 2 ==> r == Targeted(b, false)
  {
    if Wrap32(node) >= NumNodes(b) then Targeted(b, false)
    else SetNewTarget(b, target, node)
  }

  /** The all-nodes form is dead as written: with node -1 the target is not
      stored and the worker is not queued, while the signed test stores it. */
  lemma AllNodesTargetIgnored(b: Balloon, target: nat)
    requires WellFormed(b) && NumNodes(b) <= U32 / 2
    requires b.global.targetPages != target
    ensures SetNewTargetAsWritten(b, target, -1).balloon.global.targetPages != target
    ensures SetNewTarget(b, target, -1).balloon.global.targetPages == target
  {
  }
}
