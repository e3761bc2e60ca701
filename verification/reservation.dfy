/** The bookkeeping of one ballooning batch in the Linux driver
    (linux-kernel/drivers/xen/balloon.c): `increase_reservation` gives parked
    extents back to the guest, `decrease_reservation` takes fresh pages from
    the allocator and parks them, and `reserve_additional_memory` handles a
    credit that no parked extent can cover. The memory-op hypercall, the page
    allocator and memory hotplug are parameters: their results are inputs. */
module Reservation {
  import opened Common
  import opened BalloonState
  import opened Pool
  import opened MemFlags

  /** `EXTENT_ORDER` for 2 MiB huge pages over 4 KiB base pages. */
  const ExtentOrder: nat := 9
  /** `ARRAY_SIZE(frame_list)`: one 4 KiB page of 8-byte frame numbers. */
  const FrameListSize: nat := 512
  /** `PAGES_PER_SECTION` for 128 MiB sections of 4 KiB pages. */
  const PagesPerSection: nat := 32768

  /** The outcome of a batch: the new state and the `bp_state` returned, or
      `Bug` where the C stops the kernel with `BUG_ON`. */
  datatype Step = Step(balloon: Balloon, state: BpState) | Bug

  /** The `mem_flags` of the populate request for `node`:
      `XENMEMF_vnode | XENMEMF_exact_node(node)`. */
  function IncreaseFlags(node: nat): (f: Flags)
    requires node < 0xff
    ensures XenGetNode(f) == node as Flags
    ensures f & XenVnode != 0 && f & XenExactNodeRequest != 0
    ensures XenAddressBits(f) == 0
  {
    XenNodeRoundTrip(node as Flags, XenVnode | XenExactNodeRequest);
    XenVnode | XenExactNode(node as Flags)
  }

  /** The frame-list loop of `increase_reservation`: walk the node's list from
      the front with `balloon_next_page`, taking at most `nrPages` (capped at
      the frame list size) frames and stopping at the end of the list. */
  method BuildFrameList(b: Balloon, node: nat, nrPages: nat) returns (frames: seq<nat>)
    requires WellFormed(b) && node < NumNodes(b)
    ensures |frames| == Min(Min(nrPages, FrameListSize), |b.pools[node]|)
    ensures forall j :: 0 <= j < |frames| ==> frames[j] == b.pools[node][j].page.frame
  {
    var pool := b.pools[node];
    var want := if nrPages > FrameListSize then FrameListSize else nrPages;
    var cursor: Option<Parked> := if |pool| == 0 then None else Some(pool[0]);
    frames := [];
    var i := 0;
    while i < want
      invariant i <= want && i <= |pool|
      invariant |frames| == i
      invariant forall j :: 0 <= j < i ==> frames[j] == pool[j].page.frame
      invariant cursor == if i < |pool| then Some(pool[i]) else None
    {
      if cursor.None? {
        break;
      }
      frames := frames + [cursor.value.page.frame];
      cursor := NextPage(b, node, i);
      i := i + 1;
    }
  }

  /** The current-page counters, global and of one node, moved by `delta`. */
  function MoveCurrent(b: Balloon, node: nat, delta: int): (r: Balloon)
    requires WellFormed(b) && node < NumNodes(b)
    ensures WellFormed(r) && r.pools == b.pools && |r.nodes| == |b.nodes|
    ensures r.global == b.global.(currentPages := b.global.currentPages + delta)
    ensures r.nodes[node] == b.nodes[node].(currentPages := b.nodes[node].currentPages + delta)
    ensures forall n :: 0 <= n < |b.nodes| && n != node ==> r.nodes[n] == b.nodes[n]
  {
    var s := b.nodes[node];
    b.(global := b.global.(currentPages := b.global.currentPages + delta),
       nodes := b.nodes[node := s.(currentPages := s.currentPages + delta)])
  }

  /** `increase_reservation(nr_pages, node)` after the hypercall reported `rc`
      extents populated. A result of at most 0 changes nothing and asks to
      retry. Otherwise the first `rc` parked extents leave the front of the
      node's list (more than the list holds is a `BUG_ON`), and the node's and
      the global current-page counts grow by `rc`. */
  function IncreaseReservation(b: Balloon, node: nat, rc: int): (r: Step)
    requires WellFormed(b) && node < NumNodes(b)
    ensures rc <= 0 ==> r == Step(b, EAgain)
    ensures rc > 0 ==> (r.Bug? <==> rc > |b.pools[node]|)
    ensures r.Step? && rc > 0 ==>
      var pool := b.pools[node];
      var taken := pool[..rc];
      && r.state == Done
      && WellFormed(r.balloon) && NumNodes(r.balloon) == NumNodes(b)
      && r.balloon.pools[node] == pool[rc..]
      && r.balloon.nodes[node] == b.nodes[node].(
           currentPages := b.nodes[node].currentPages + rc,
           balloonLow := b.nodes[node].balloonLow - CountLow(taken),
           balloonHigh := b.nodes[node].balloonHigh - CountHigh(taken))
      && r.balloon.global == b.global.(
           currentPages := b.global.currentPages + rc,
           balloonLow := b.global.balloonLow - CountLow(taken),
           balloonHigh := b.global.balloonHigh - CountHigh(taken))
      && (forall n :: 0 <= n < NumNodes(b) && n != node ==>
            r.balloon.nodes[n] == b.nodes[n] && r.balloon.pools[n] == b.pools[n])
  {
    if rc <= 0 then Step(b, EAgain)
    else
      match RetrieveN(b, node, rc)
      case None => Bug
      case Some(b') => Step(MoveCurrent(b', node, rc), Done)
  }

  /** An increase keeps the bookkeeping invariant and brings the node's
      credit down by exactly the number of extents populated. */
  lemma IncreaseReservationConsistent(b: Balloon, node: nat, rc: int)
    requires Consistent(b) && node < NumNodes(b)
    requires IncreaseReservation(b, node, rc).Step?
    ensures Consistent(IncreaseReservation(b, node, rc).balloon)
    ensures Credit(IncreaseReservation(b, node, rc).balloon, node) == Credit(b, node) - Max(rc, 0)
  {
    if rc > 0 {
      RetrieveNConsistent(b, node, rc);
      var b' := RetrieveN(b, node, rc).value;
      var r := MoveCurrent(b', node, rc);
      assert forall n :: 0 <= n < |r.nodes| ==>
        r.nodes[n].balloonLow == b'.nodes[n].balloonLow && r.nodes[n].balloonHigh == b'.nodes[n].balloonHigh;
      SumLowHighSame(b'.nodes, r.nodes);
    }
  }

  /** A host that populates at most the frames it was sent never trips the
      `BUG_ON`. */
  lemma HonestPopulateNeverBugs(b: Balloon, node: nat, nrPages: nat, rc: int)
    requires WellFormed(b) && node < NumNodes(b)
    requires rc <= Min(Min(nrPages, FrameListSize), |b.pools[node]|)
    ensures IncreaseReservation(b, node, rc).Step?
  {
  }

  /** What the page allocator handed out: a frame and the node it came from. */
  datatype Alloc = Alloc(frame: nat, nid: nat)

  /** An allocation the decrease loop keeps: any page for the unnamed node -1
      (allocated on node 0), otherwise a page from the requested node. */
  predicate Acceptable(a: Option<Alloc>, node: int) {
    a.Some? && (node == -1 || a.value.nid == node)
  }

  /** The length of the longest run of acceptable allocations at the start of
      `allocs`, at most `want`: the batch the decrease loop keeps. */
  function Accepted(allocs: seq<Option<Alloc>>, node: int, want: nat): (k: nat)
    ensures k <= want && k <= |allocs|
    ensures forall i :: 0 <= i < k ==> Acceptable(allocs[i], node)
    ensures k < want ==> k == |allocs| || !Acceptable(allocs[k], node)
    decreases want
  {
    if want == 0 || |allocs| == 0 || !Acceptable(allocs[0], node) then 0
    else 1 + Accepted(allocs[1..], node, want - 1)
  }

  /** The kept pages, in allocation order. The balloon GFP masks exclude high
      memory, so every page is a lowmem page. */
  function KeptPages(allocs: seq<Option<Alloc>>, k: nat): (pages: seq<Page>)
    requires k <= |allocs| && forall i :: 0 <= i < k ==> allocs[i].Some?
    ensures |pages| == k && AllLow(pages)
    ensures forall i :: 0 <= i < k ==> pages[i] == Page(allocs[i].value.frame, false)
  {
    seq(k, i requires 0 <= i < k => Page(allocs[i].value.frame, false))
  }

  /** The net effect of the second loop of `decrease_reservation`: the kept
      pages, in allocation order, in front of the node's list, with its low
      counters grown by their number. `ParkKeptIsLoop` shows this is what
      the loop computes. */
  function ParkKept(b: Balloon, t: nat, pages: seq<Page>): (r: Balloon)
    requires WellFormed(b) && t < NumNodes(b)
    ensures WellFormed(r) && NumNodes(r) == NumNodes(b)
  {
    var s := b.nodes[t];
    Balloon(b.global.(balloonLow := b.global.balloonLow + |pages|),
            b.nodes[t := s.(balloonLow := s.balloonLow + |pages|)],
            b.pools[t := ParkAll(pages, 0) + b.pools[t]])
  }

  /** The loop itself: the pages were pushed on a local list newest first,
      and each is then appended to the node with order 0. Appending the
      reversed list one page at a time gives exactly `ParkKept`. */
  lemma ParkKeptIsLoop(b: Balloon, t: nat, pages: seq<Page>)
    requires WellFormed(b) && t < NumNodes(b) && AllLow(pages)
    ensures AppendAll(b, t, Reverse(pages), 0) == ParkKept(b, t, pages)
  {
    LoopGlobal(b, t, pages);
    LoopNodes(b, t, pages);
    LoopPools(b, t, pages);
  }

  lemma LoopGlobal(b: Balloon, t: nat, pages: seq<Page>)
    requires WellFormed(b) && t < NumNodes(b) && AllLow(pages)
    ensures AppendAll(b, t, Reverse(pages), 0).global == ParkKept(b, t, pages).global
  {
    AllLowReverse(pages);
    AppendAllLow(b, t, Reverse(pages), 0);
  }

  lemma LoopNodes(b: Balloon, t: nat, pages: seq<Page>)
    requires WellFormed(b) && t < NumNodes(b) && AllLow(pages)
    ensures AppendAll(b, t, Reverse(pages), 0).nodes == ParkKept(b, t, pages).nodes
  {
    AllLowReverse(pages);
    AppendAllLow(b, t, Reverse(pages), 0);
    var a := AppendAll(b, t, Reverse(pages), 0);
    var p := ParkKept(b, t, pages);
    assert forall n :: 0 <= n < |a.nodes| ==> a.nodes[n] == p.nodes[n];
  }

  lemma LoopPools(b: Balloon, t: nat, pages: seq<Page>)
    requires WellFormed(b) && t < NumNodes(b) && AllLow(pages)
    ensures AppendAll(b, t, Reverse(pages), 0).pools == ParkKept(b, t, pages).pools
  {
    AllLowReverse(pages);
    AppendAllLow(b, t, Reverse(pages), 0);
    ReverseParkAll(pages, 0);
    var a := AppendAll(b, t, Reverse(pages), 0);
    var p := ParkKept(b, t, pages);
    assert forall n :: 0 <= n < |a.pools| ==> a.pools[n] == p.pools[n];
  }

  /** `decrease_reservation(nr_pages, gfp, node)` with the allocator's answers
      `allocs` (one per loop iteration; running past the end is a failure)
      and the hypercall's result `released`. The request is capped at the
      frame list size; the first failed or wrong-node allocation truncates it
      and makes the result `EAgain`. Every kept page is parked with order 0
      at the front of its node's list (node -1 parks on node 0), in
      allocation order; the hypercall must release exactly the kept pages,
      and the current-page counts drop by that number: globally, and on the
      node unless it is -1. */
  function DecreaseReservation(b: Balloon, nrPages: nat, node: int, allocs: seq<Option<Alloc>>, released: int): (r: Step)
    requires WellFormed(b) && -1 <= node < NumNodes(b)
    ensures var k := Accepted(allocs, node, Min(nrPages, FrameListSize));
      r.Bug? <==> released != k
    ensures r.Step? ==>
      && r.state == (if Accepted(allocs, node, Min(nrPages, FrameListSize)) < Min(nrPages, FrameListSize) then EAgain else Done)
      && WellFormed(r.balloon) && NumNodes(r.balloon) == NumNodes(b)
  {
    var want := Min(nrPages, FrameListSize);
    var k := Accepted(allocs, node, want);
    if released != k then Bug
    else
      var t: nat := if node == -1 then 0 else node;
      Step(DropCurrent(ParkKept(b, t, KeptPages(allocs, k)), node, k), if k < want then EAgain else Done)
  }

  /** The balloon a successful decrease leaves, unfolded once for the
      lemmas below. */
  lemma DecreaseBalloon(b: Balloon, nrPages: nat, node: int, allocs: seq<Option<Alloc>>, released: int)
    requires WellFormed(b) && -1 <= node < NumNodes(b)
    requires DecreaseReservation(b, nrPages, node, allocs, released).Step?
    ensures var k := Accepted(allocs, node, Min(nrPages, FrameListSize));
      var t: nat := if node == -1 then 0 else node;
      DecreaseReservation(b, nrPages, node, allocs, released).balloon == DropCurrent(ParkKept(b, t, KeptPages(allocs, k)), node, k)
  {
  }

  /** The final counter update of `decrease_reservation`: the global current
      count drops by k, and so does the node's unless the node is -1. */
  function DropCurrent(b: Balloon, node: int, k: nat): (r: Balloon)
    requires WellFormed(b) && -1 <= node < NumNodes(b)
    ensures WellFormed(r) && r.pools == b.pools && |r.nodes| == |b.nodes|
    ensures r.global == b.global.(currentPages := b.global.currentPages - k)
    ensures node == -1 ==> r.nodes == b.nodes
    ensures node >= 0 ==>
      && r.nodes[node] == b.nodes[node].(currentPages := b.nodes[node].currentPages - k)
      && forall n :: 0 <= n < |b.nodes| && n != node ==> r.nodes[n] == b.nodes[n]
  {
    if node == -1 then b.(global := b.global.(currentPages := b.global.currentPages - k))
    else MoveCurrent(b, node as nat, -(k as int))
  }

  /** What a successful decrease for a named node does to the pools and
      counters: the kept pages in front of the node's list, its low counter
      and the global one grown by their number, both current counts dropped
      by it, nothing else changed. */
  lemma DecreaseReservationEffect(b: Balloon, nrPages: nat, node: nat, allocs: seq<Option<Alloc>>, released: int)
    requires WellFormed(b) && node < NumNodes(b)
    requires DecreaseReservation(b, nrPages, node, allocs, released).Step?
    ensures
      var r := DecreaseReservation(b, nrPages, node, allocs, released).balloon;
      var k := Accepted(allocs, node, Min(nrPages, FrameListSize));
      && r.pools[node] == ParkAll(KeptPages(allocs, k), 0) + b.pools[node]
      && r.global == b.global.(currentPages := b.global.currentPages - k,
                               balloonLow := b.global.balloonLow + k)
      && r.nodes[node] == b.nodes[node].(
           balloonLow := b.nodes[node].balloonLow + k,
           currentPages := b.nodes[node].currentPages - k)
      && (forall n :: 0 <= n < NumNodes(b) && n != node ==> r.nodes[n] == b.nodes[n] && r.pools[n] == b.pools[n])
  {
    var k := Accepted(allocs, node, Min(nrPages, FrameListSize));
    var pages := KeptPages(allocs, k);
    ParkThenDropNamed(b, node, pages);
    DecreaseBalloon(b, nrPages, node, allocs, released);
  }

  /** The same for the unnamed node -1: the pages park on node 0 and its
      low counter grows, but only the global current count drops. */
  lemma DecreaseUnnamedEffect(b: Balloon, nrPages: nat, allocs: seq<Option<Alloc>>, released: int)
    requires WellFormed(b)
    requires DecreaseReservation(b, nrPages, -1, allocs, released).Step?
    ensures
      var r := DecreaseReservation(b, nrPages, -1, allocs, released).balloon;
      var k := Accepted(allocs, -1, Min(nrPages, FrameListSize));
      && r.pools[0] == ParkAll(KeptPages(allocs, k), 0) + b.pools[0]
      && r.global == b.global.(currentPages := b.global.currentPages - k,
                               balloonLow := b.global.balloonLow + k)
      && r.nodes[0] == b.nodes[0].(balloonLow := b.nodes[0].balloonLow + k)
      && (forall n :: 0 < n < NumNodes(b) ==> r.nodes[n] == b.nodes[n] && r.pools[n] == b.pools[n])
  {
    var k := Accepted(allocs, -1, Min(nrPages, FrameListSize));
    var pages := KeptPages(allocs, k);
    ParkThenDropUnnamed(b, pages);
    DecreaseBalloon(b, nrPages, -1, allocs, released);
  }

  lemma ParkThenDropUnnamed(b: Balloon, pages: seq<Page>)
    requires WellFormed(b) && AllLow(pages)
    ensures DropCurrent(ParkKept(b, 0, pages), -1, |pages|).pools[0] == ParkAll(pages, 0) + b.pools[0]
    ensures DropCurrent(ParkKept(b, 0, pages), -1, |pages|).nodes[0]
      == b.nodes[0].(balloonLow := b.nodes[0].balloonLow + |pages|)
    ensures DropCurrent(ParkKept(b, 0, pages), -1, |pages|).global
      == b.global.(currentPages := b.global.currentPages - |pages|, balloonLow := b.global.balloonLow + |pages|)
    ensures forall n :: 0 < n < NumNodes(b) ==>
      DropCurrent(ParkKept(b, 0, pages), -1, |pages|).nodes[n] == b.nodes[n] &&
      DropCurrent(ParkKept(b, 0, pages), -1, |pages|).pools[n] == b.pools[n]
  {
    DropParkedPool(b, 0, -1, pages);
    DropUnnamedNode(b, pages);
    DropParkedGlobal(b, 0, -1, pages);
    DropUnnamedOthers(b, pages);
  }

  lemma ParkThenDropNamed(b: Balloon, node: nat, pages: seq<Page>)
    requires WellFormed(b) && node < NumNodes(b) && AllLow(pages)
    ensures DropCurrent(ParkKept(b, node, pages), node, |pages|).pools[node] == ParkAll(pages, 0) + b.pools[node]
    ensures DropCurrent(ParkKept(b, node, pages), node, |pages|).nodes[node]
      == b.nodes[node].(balloonLow := b.nodes[node].balloonLow + |pages|,
                        currentPages := b.nodes[node].currentPages - |pages|)
    ensures DropCurrent(ParkKept(b, node, pages), node, |pages|).global
      == b.global.(currentPages := b.global.currentPages - |pages|, balloonLow := b.global.balloonLow + |pages|)
    ensures forall n :: 0 <= n < NumNodes(b) && n != node ==>
      DropCurrent(ParkKept(b, node, pages), node, |pages|).nodes[n] == b.nodes[n] &&
      DropCurrent(ParkKept(b, node, pages), node, |pages|).pools[n] == b.pools[n]
  {
    DropParkedPool(b, node, node, pages);
    DropNamedNode(b, node, pages);
    DropParkedGlobal(b, node, node, pages);
    DropNamedOthers(b, node, pages);
  }

  // One fact per lemma: proved together, these facts swamp the solver.

  lemma DropParkedPool(b: Balloon, t: nat, node: int, pages: seq<Page>)
    requires WellFormed(b) && t < NumNodes(b) && -1 <= node < NumNodes(b)
    ensures DropCurrent(ParkKept(b, t, pages), node, |pages|).pools[t] == ParkAll(pages, 0) + b.pools[t]
  {
  }

  lemma DropParkedGlobal(b: Balloon, t: nat, node: int, pages: seq<Page>)
    requires WellFormed(b) && t < NumNodes(b) && -1 <= node < NumNodes(b)
    ensures DropCurrent(ParkKept(b, t, pages), node, |pages|).global
      == b.global.(currentPages := b.global.currentPages - |pages|, balloonLow := b.global.balloonLow + |pages|)
  {
  }

  lemma DropUnnamedNode(b: Balloon, pages: seq<Page>)
    requires WellFormed(b)
    ensures DropCurrent(ParkKept(b, 0, pages), -1, |pages|).nodes[0]
      == b.nodes[0].(balloonLow := b.nodes[0].balloonLow + |pages|)
  {
  }

  lemma DropNamedNode(b: Balloon, node: nat, pages: seq<Page>)
    requires WellFormed(b) && node < NumNodes(b)
    ensures DropCurrent(ParkKept(b, node, pages), node, |pages|).nodes[node]
      == b.nodes[node].(balloonLow := b.nodes[node].balloonLow + |pages|,
                        currentPages := b.nodes[node].currentPages - |pages|)
  {
  }

  lemma DropUnnamedOthers(b: Balloon, pages: seq<Page>)
    requires WellFormed(b)
    ensures forall n :: 0 < n < NumNodes(b) ==>
      DropCurrent(ParkKept(b, 0, pages), -1, |pages|).nodes[n] == b.nodes[n] &&
      DropCurrent(ParkKept(b, 0, pages), -1, |pages|).pools[n] == b.pools[n]
  {
  }

  lemma DropNamedOthers(b: Balloon, node: nat, pages: seq<Page>)
    requires WellFormed(b) && node < NumNodes(b)
    ensures forall n :: 0 <= n < NumNodes(b) && n != node ==>
      DropCurrent(ParkKept(b, node, pages), node, |pages|).nodes[n] == b.nodes[n] &&
      DropCurrent(ParkKept(b, node, pages), node, |pages|).pools[n] == b.pools[n]
  {
  }

  /** A decrease keeps the bookkeeping invariant; on a named node its credit
      grows by exactly the number of pages released. */
  lemma DecreaseReservationConsistent(b: Balloon, nrPages: nat, node: int, allocs: seq<Option<Alloc>>, released: int)
    requires Consistent(b) && -1 <= node < NumNodes(b)
    requires DecreaseReservation(b, nrPages, node, allocs, released).Step?
    ensures Consistent(DecreaseReservation(b, nrPages, node, allocs, released).balloon)
    ensures node >= 0 ==>
      Credit(DecreaseReservation(b, nrPages, node, allocs, released).balloon, node) == Credit(b, node) + released
  {
    var want := Min(nrPages, FrameListSize);
    var k := Accepted(allocs, node, want);
    var t: nat := if node == -1 then 0 else node;
    var pages := KeptPages(allocs, k);
    ParkThenDropConsistent(b, node, pages);
    DecreaseBalloon(b, nrPages, node, allocs, released);
  }

  lemma ParkThenDropConsistent(b: Balloon, node: int, pages: seq<Page>)
    requires Consistent(b) && -1 <= node < NumNodes(b) && AllLow(pages)
    ensures var t: nat := if node == -1 then 0 else node;
      var r := DropCurrent(ParkKept(b, t, pages), node, |pages|);
      && Consistent(r)
      && (node >= 0 ==> Credit(r, node) == Credit(b, node) + |pages|)
  {
    var t: nat := if node == -1 then 0 else node;
    AppendAllConsistent(b, t, Reverse(pages), 0);
    ParkKeptIsLoop(b, t, pages);
    var parked := ParkKept(b, t, pages);
    var r := DropCurrent(parked, node, |pages|);
    assert forall n :: 0 <= n < |r.nodes| ==>
      r.nodes[n].balloonLow == parked.nodes[n].balloonLow && r.nodes[n].balloonHigh == parked.nodes[n].balloonHigh;
    SumLowHighSame(parked.nodes, r.nodes);
  }

  /** The `decrease_reservation` above as the C writes it: for node -1 it
      also subtracts from `balloon_stats_numa[-1]`, one record before the
      array. `None` stands for that out-of-bounds write. */
  function DecreaseReservationAsWritten(b: Balloon, nrPages: nat, node: int, allocs: seq<Option<Alloc>>, released: int): (r: Option<Step>)
    requires WellFormed(b) && -1 <= node < NumNodes(b)
    ensures r.None? <==> node == -1 && DecreaseReservation(b, nrPages, node, allocs, released).Step?
    ensures r.Some? ==> r.value == DecreaseReservation(b, nrPages, node, allocs, released)
  {
    var step := DecreaseReservation(b, nrPages, node, allocs, released);
    if node == -1 && step.Step? then None else Some(step)
  }

  /** Every successful decrease for node -1 reaches the out-of-bounds write:
      for instance a request for one page that the allocator and the host
      both grant. */
  lemma DecreaseForNoNodeWritesOutOfBounds(b: Balloon)
    requires WellFormed(b)
    ensures DecreaseReservationAsWritten(b, 1, -1, [Some(Alloc(7, 0))], 1).None?
  {
    assert Accepted([Some(Alloc(7, 0))], -1, 1) == 1 by {
      assert Accepted([Some(Alloc(7, 0))][1..], -1, 0) == 0;
    }
  }

  /** `reserve_additional_memory()` without memory hotplug: give up on the
      unreachable part of the target by lowering the global target to the
      current size, and cancel. The per-node records are untouched, so no
      node's credit changes. */
  function ReserveWithoutHotplug(b: Balloon): (r: Step)
    ensures r.Step? && r.state == ECanceled
    ensures r.balloon.global.targetPages == b.global.currentPages
    ensures r.balloon.global.targetPages - r.balloon.global.currentPages == 0
    ensures r.balloon.nodes == b.nodes && r.balloon.pools == b.pools
    ensures r.balloon.global == b.global.(targetPages := r.balloon.global.targetPages)
  {
    Step(b.(global := b.global.(targetPages := b.global.currentPages)), ECanceled)
  }

  /** `round_up(n, PAGES_PER_SECTION)` for a positive n: the least multiple
      of the section size that is at least n. */
  function SectionRoundUp(n: nat): (r: nat)
    requires n > 0
    ensures r % PagesPerSection == 0
    ensures n <= r < n + PagesPerSection
  {
    ((n + PagesPerSection - 1) / PagesPerSection) * PagesPerSection
  }

  /** The credit arithmetic of `reserve_additional_memory()` with memory
      hotplug. The credit is the global target plus the pages reserved for
      unpopulated allocations minus the pages the domain spans. A credit of
      at most 0 waits for memory already added to come online. Otherwise
      whole sections covering the credit are requested; if the hotplug
      (`added`) succeeds they are added to `total_pages` and the driver
      waits, otherwise it cancels. */
  function ReserveWithHotplug(b: Balloon, added: bool): (r: Step)
    ensures r.Step?
    ensures var credit := b.global.targetPages + b.global.targetUnpopulated - b.global.totalPages;
      && (credit <= 0 ==> r == Step(b, Wait))
      && (credit > 0 && !added ==> r == Step(b, ECanceled))
      && (credit > 0 && added ==>
            && r.state == Wait
            && r.balloon.nodes == b.nodes && r.balloon.pools == b.pools
            && r.balloon.global == b.global.(totalPages := r.balloon.global.totalPages)
            && (r.balloon.global.totalPages - b.global.totalPages) % PagesPerSection == 0
            && -(PagesPerSection as int)
                 < r.balloon.global.targetPages + r.balloon.global.targetUnpopulated - r.balloon.global.totalPages
                 <= 0)
  {
    var credit := b.global.targetPages + b.global.targetUnpopulated - b.global.totalPages;
    if credit <= 0 then Step(b, Wait)
    else
      var hotplug := SectionRoundUp(credit);
      if !added then Step(b, ECanceled)
      else Step(b.(global := b.global.(totalPages := b.global.totalPages + hotplug)), Wait)
  }
}
