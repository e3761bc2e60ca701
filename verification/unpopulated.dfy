/** Pages handed to other drivers for foreign mappings
    (linux-kernel/drivers/xen/balloon.c): `alloc_xenballooned_pages` takes
    parked lowmem pages from node 0, growing the balloon with
    `add_ballooned_pages` when the list runs dry, and
    `free_xenballooned_pages` parks them again. The global
    `target_unpopulated` counts the pages out on loan. */
module Unpopulated {
  import opened Common
  import opened BalloonState
  import opened Pool
  import opened Reservation

  /** What the outside world answers to one `add_ballooned_pages`: whether a
      memory hotplug succeeds, the allocator's pages and the release count
      of the decrease. */
  datatype AddResponse = AddResponse(added: bool, allocs: seq<Option<Alloc>>, released: int)

  /** The balloon after `add_ballooned_pages`: it returned, with whether
      the result was 0; or it waits for good; or a `BUG_ON` fired. */
  datatype Added = Added(balloon: Balloon, ok: bool) | AddWaiting(balloon: Balloon) | AddHalted

  /** `add_ballooned_pages(nr)`. With hotplug for unpopulated memory, a
      reservation that is not cancelled waits until the list
      `ballooned_pages` is non-empty. With NUMA ballooning nothing ever
      appends to that list (every append, including the one for memory
      onlined by the hotplug, goes to a per-node list), so the call waits
      for good. Otherwise the balloon takes `nr` pages from the allocator
      for no particular node, and anything short of a complete batch is
      -ENOMEM. */
  function AddBallooned(b: Balloon, nr: nat, hotplug: bool, resp: AddResponse): (r: Added)
    requires WellFormed(b)
    ensures hotplug && ReserveWithHotplug(b, resp.added).state != ECanceled ==>
      r == AddWaiting(ReserveWithHotplug(b, resp.added).balloon)
    ensures !hotplug || ReserveWithHotplug(b, resp.added).state == ECanceled ==>
      && (r.AddHalted? <==> DecreaseReservation(b, nr, -1, resp.allocs, resp.released).Bug?)
      && !r.AddWaiting?
      && (r.Added? ==>
            && r.balloon == DecreaseReservation(b, nr, -1, resp.allocs, resp.released).balloon
            && (r.ok <==> DecreaseReservation(b, nr, -1, resp.allocs, resp.released).state == Done))
    ensures !r.AddHalted? ==> WellFormed(r.balloon) && NumNodes(r.balloon) == NumNodes(b)
  {
    var st := if hotplug then ReserveWithHotplug(b, resp.added) else Step(b, ECanceled);
    if st.Step? && st.state != ECanceled then AddWaiting(st.balloon)
    else
      match DecreaseReservation(b, nr, -1, resp.allocs, resp.released)
      case Bug => AddHalted
      case Step(b', s) => Added(b', s == Done)
  }

  /** A successful add without hotplug leaves a lowmem page at the front of
      node 0, so the next retrieval succeeds. */
  lemma AddedPageRetrievable(b: Balloon, nr: nat, resp: AddResponse)
    requires WellFormed(b) && nr > 0
    requires AddBallooned(b, nr, false, resp).Added? && AddBallooned(b, nr, false, resp).ok
    ensures Retrieve(AddBallooned(b, nr, false, resp).balloon, true, 0).parked.Some?
  {
    DecreaseUnnamedEffect(b, nr, resp.allocs, resp.released);
    var k := Accepted(resp.allocs, -1, Min(nr, FrameListSize));
    assert k == Min(nr, FrameListSize);
    assert ParkAll(KeptPages(resp.allocs, k), 0)[0] == Parked(KeptPages(resp.allocs, k)[0], 0);
  }

  /** An add that returns or waits keeps the bookkeeping invariant and
      never moves `target_unpopulated`. */
  lemma AddBalloonedConsistent(b: Balloon, nr: nat, hotplug: bool, resp: AddResponse)
    requires Consistent(b)
    requires !AddBallooned(b, nr, hotplug, resp).AddHalted?
    ensures Consistent(AddBallooned(b, nr, hotplug, resp).balloon)
    ensures AddBallooned(b, nr, hotplug, resp).balloon.global.targetUnpopulated == b.global.targetUnpopulated
  {
    var st := if hotplug then ReserveWithHotplug(b, resp.added) else Step(b, ECanceled);
    if !(st.Step? && st.state != ECanceled) {
      DecreaseReservationConsistent(b, nr, -1, resp.allocs, resp.released);
      DecreaseUnnamedEffect(b, nr, resp.allocs, resp.released);
    }
  }

  /** How the retrieval loop ends: all pages obtained, an add that failed
      with -ENOMEM, or a wait that never ends (an add waiting on
      `ballooned_pages`, or a run that outlasts the script of responses). */
  datatype Outcome = Complete | NoMemory | Blocked

  datatype Allocation = Allocation(balloon: Balloon, pages: seq<Page>, outcome: Outcome) | AllocHalted

  /** The `while (pgno < nr_pages)` loop of `alloc_xenballooned_pages`, with
      the pages `got` so far: take the front page of node 0 if it is lowmem,
      otherwise ask `add_ballooned_pages` for the pages still missing. Each
      add consumes one response of the script. Every page obtained is a
      lowmem page, and the loop never touches `target_unpopulated`. */
  function AllocLoop(b: Balloon, nr: nat, got: seq<Page>, script: seq<AddResponse>, hotplug: bool): (r: Allocation)
    requires WellFormed(b) && |got| <= nr
    ensures r.Allocation? ==>
      && WellFormed(r.balloon) && NumNodes(r.balloon) == NumNodes(b)
      && |r.pages| <= nr && got <= r.pages
      && (forall i :: |got| <= i < |r.pages| ==> !r.pages[i].highMem)
      && (r.outcome == Complete <==> |r.pages| == nr)
      && r.balloon.global.targetUnpopulated == b.global.targetUnpopulated
    decreases nr - |got|, |script|
  {
    if |got| == nr then Allocation(b, got, Complete)
    else
      var rt := Retrieve(b, true, 0);
      if rt.parked.Some? then
        AllocLoop(rt.balloon, nr, got + [rt.parked.value.page], script, hotplug)
      else if |script| == 0 then Allocation(b, got, Blocked)
      else
        match AddBallooned(b, nr - |got|, hotplug, script[0])
        case AddHalted => AllocHalted
        case AddWaiting(b') => Allocation(b', got, Blocked)
        case Added(b', ok) =>
          if !ok then Allocation(b', got, NoMemory)
          else AllocLoop(b', nr, got, script[1..], hotplug)
  }

  /** With hotplug, an allocation that finds node 0 without a lowmem page
      while the balloon has no credit to reserve blocks for good: whatever
      the allocator would answer, it gets no page from the add. */
  lemma HotplugAllocBlocks(b: Balloon, nr: nat, got: seq<Page>, script: seq<AddResponse>)
    requires WellFormed(b) && |got| < nr && |script| > 0
    requires |b.pools[0]| == 0 || b.pools[0][0].page.highMem
    requires b.global.targetPages + b.global.targetUnpopulated <= b.global.totalPages
    ensures AllocLoop(b, nr, got, script, true) == Allocation(b, got, Blocked)
  {
    assert Retrieve(b, true, 0).parked.None?;
  }

  lemma {:induction false} AllocLoopConsistent(b: Balloon, nr: nat, got: seq<Page>, script: seq<AddResponse>, hotplug: bool)
    requires Consistent(b) && |got| <= nr
    requires AllocLoop(b, nr, got, script, hotplug).Allocation?
    ensures Consistent(AllocLoop(b, nr, got, script, hotplug).balloon)
    decreases nr - |got|, |script|
  {
    if |got| < nr {
      var rt := Retrieve(b, true, 0);
      RetrieveConsistent(b, true, 0);
      if rt.parked.Some? {
        AllocLoopConsistent(rt.balloon, nr, got + [rt.parked.value.page], script, hotplug);
      } else if |script| > 0 {
        AddBalloonedConsistent(b, nr - |got|, hotplug, script[0]);
        var a := AddBallooned(b, nr - |got|, hotplug, script[0]);
        if a.Added? && a.ok {
          AllocLoopConsistent(a.balloon, nr, got, script[1..], hotplug);
        }
      }
    }
  }

  /** The pages of a run of parked entries. */
  function PagesOf(pool: seq<Parked>): (r: seq<Page>)
    ensures |r| == |pool|
    ensures forall i :: 0 <= i < |pool| ==> r[i] == pool[i].page
  {
    seq(|pool|, i requires 0 <= i < |pool| => pool[i].page)
  }

  /** Node 0 with its first m entries taken off the front, as lowmem pages:
      the list loses them and both low counters drop by m. */
  function TakeFront(b: Balloon, m: nat): (r: Balloon)
    requires WellFormed(b) && m <= |b.pools[0]|
    ensures WellFormed(r) && NumNodes(r) == NumNodes(b)
  {
    Balloon(b.global.(balloonLow := b.global.balloonLow - m),
            b.nodes[0 := b.nodes[0].(balloonLow := b.nodes[0].balloonLow - m)],
            b.pools[0 := b.pools[0][m..]])
  }

  lemma TakeNothing(b: Balloon)
    requires WellFormed(b)
    ensures TakeFront(b, 0) == b
  {
    assert b.pools[0 := b.pools[0][0..]] == b.pools;
    assert b.nodes[0 := b.nodes[0].(balloonLow := b.nodes[0].balloonLow - 0)] == b.nodes;
  }

  /** Retrieving a lowmem front page of node 0 takes one entry off. */
  lemma RetrieveTakesOne(b: Balloon)
    requires WellFormed(b) && |b.pools[0]| > 0 && !b.pools[0][0].page.highMem
    ensures Retrieve(b, true, 0).balloon == TakeFront(b, 1)
  {
    var r := Retrieve(b, true, 0).balloon;
    var t := TakeFront(b, 1);
    assert r.global == t.global;
    assert r.nodes == t.nodes by {
      assert forall n :: 0 <= n < |r.nodes| ==> r.nodes[n] == t.nodes[n];
    }
    assert r.pools == t.pools by {
      assert forall n :: 0 <= n < |r.pools| ==> r.pools[n] == t.pools[n];
    }
  }

  /** Taking one entry and then m - 1 more is taking m. */
  lemma TakeOneThenRest(b: Balloon, m: nat)
    requires WellFormed(b) && 1 <= m <= |b.pools[0]|
    ensures TakeFront(TakeFront(b, 1), m - 1) == TakeFront(b, m)
  {
    var b1 := TakeFront(b, 1);
    assert b1.pools[0][m - 1..] == b.pools[0][m..];
  }

  /** When node 0 already holds the missing pages as lowmem entries at the
      front of its list, the loop takes exactly those, in list order, and
      only the low counters change. */
  lemma {:induction false} AllocFromPool(b: Balloon, nr: nat, got: seq<Page>, script: seq<AddResponse>, hotplug: bool)
    requires WellFormed(b) && |got| <= nr && nr - |got| <= |b.pools[0]|
    requires forall i :: 0 <= i < nr - |got| ==> !b.pools[0][i].page.highMem
    ensures AllocLoop(b, nr, got, script, hotplug)
      == Allocation(TakeFront(b, nr - |got|), got + PagesOf(b.pools[0][..nr - |got|]), Complete)
    decreases nr - |got|
  {
    var m := nr - |got|;
    if m == 0 {
      TakeNothing(b);
      assert got + PagesOf(b.pools[0][..0]) == got;
    } else {
      var b1 := TakeFront(b, 1);
      var got' := got + [b.pools[0][0].page];
      LoopTakesFront(b, nr, got, script, hotplug);
      AllocFromPool(b1, nr, got', script, hotplug);
      TakeOneThenRest(b, m);
      PagesOfFront(b.pools[0], got, m);
    }
  }

  /** One turn of the loop with a lowmem page at the front of node 0. */
  lemma LoopTakesFront(b: Balloon, nr: nat, got: seq<Page>, script: seq<AddResponse>, hotplug: bool)
    requires WellFormed(b) && |got| < nr && |b.pools[0]| > 0 && !b.pools[0][0].page.highMem
    ensures AllocLoop(b, nr, got, script, hotplug)
      == AllocLoop(TakeFront(b, 1), nr, got + [b.pools[0][0].page], script, hotplug)
  {
    RetrieveTakesOne(b);
  }

  lemma PagesOfFront(pool: seq<Parked>, got: seq<Page>, m: nat)
    requires 1 <= m <= |pool|
    ensures (got + [pool[0].page]) + PagesOf(pool[1..][..m - 1]) == got + PagesOf(pool[..m])
  {
    assert pool[1..][..m - 1] == pool[1..m];
  }

  /** `alloc_xenballooned_pages(nr_pages, pages)` with the error path as the
      C writes it: reserve `nr_pages` in `target_unpopulated`, run the loop,
      and on -ENOMEM give back the `pgno` pages obtained, which subtracts
      only `pgno`. A failed call hands out no pages. */
  function AllocAsWritten(b: Balloon, nr: int, script: seq<AddResponse>, hotplug: bool): (r: Allocation)
    requires WellFormed(b)
    ensures r.Allocation? && r.outcome == NoMemory ==>
      var l := AllocLoop(Reserve(b, nr), Max(nr, 0), [], script, hotplug);
      l.Allocation? && r.balloon.global.targetUnpopulated == b.global.targetUnpopulated + nr - |l.pages|
  {
    match AllocLoop(Reserve(b, nr), Max(nr, 0), [], script, hotplug)
    case AllocHalted => AllocHalted
    case Allocation(b', got, outcome) =>
      if outcome == NoMemory then Allocation(FreeBallooned(b', Somes(got)).balloon, [], NoMemory)
      else Allocation(b', got, outcome)
  }

  /** `target_unpopulated += nr_pages`. */
  function Reserve(b: Balloon, nr: int): (r: Balloon)
    ensures r.global.targetUnpopulated == b.global.targetUnpopulated + nr
    ensures r.nodes == b.nodes && r.pools == b.pools
    ensures r.global == b.global.(targetUnpopulated := r.global.targetUnpopulated)
  {
    b.(global := b.global.(targetUnpopulated := b.global.targetUnpopulated + nr))
  }

  /** `alloc_xenballooned_pages` with the error path as intended: the pages
      never obtained are taken out of `target_unpopulated` before the ones
      obtained are freed, so a failed call leaves it where it was. */
  function Alloc(b: Balloon, nr: int, script: seq<AddResponse>, hotplug: bool): (r: Allocation)
    requires WellFormed(b)
    ensures r.Allocation? ==> WellFormed(r.balloon) && NumNodes(r.balloon) == NumNodes(b)
    ensures r.Allocation? && r.outcome == Complete ==>
      && |r.pages| == Max(nr, 0) && AllLow(r.pages)
      && r.balloon.global.targetUnpopulated == b.global.targetUnpopulated + nr
    ensures r.Allocation? && r.outcome == NoMemory ==>
      r.pages == [] && r.balloon.global.targetUnpopulated == b.global.targetUnpopulated
    ensures r.Allocation? && r.outcome == Blocked ==>
      |r.pages| < nr && r.balloon.global.targetUnpopulated == b.global.targetUnpopulated + nr
  {
    match AllocLoop(Reserve(b, nr), Max(nr, 0), [], script, hotplug)
    case AllocHalted => AllocHalted
    case Allocation(b', got, outcome) =>
      if outcome == NoMemory then
        Allocation(FreeBallooned(Reserve(b', -(nr - |got|)), Somes(got)).balloon, [], NoMemory)
      else Allocation(b', got, outcome)
  }

  /** An allocation that fails keeps `target_unpopulated` only with the
      corrected undo; as written it stays raised by the pages never
      obtained. With node 0 empty and an allocator that refuses, one page
      asked for leaves it one too high. */
  lemma FailedAllocLeaks(b: Balloon)
    requires WellFormed(b) && |b.pools[0]| == 0
    ensures AllocAsWritten(b, 1, [AddResponse(false, [], 0)], false).balloon.global.targetUnpopulated
              == b.global.targetUnpopulated + 1
    ensures Alloc(b, 1, [AddResponse(false, [], 0)], false).balloon.global.targetUnpopulated
              == b.global.targetUnpopulated
  {
    var b0 := Reserve(b, 1);
    assert Retrieve(b0, true, 0).parked.None?;
    assert Accepted([], -1, 1) == 0;
    assert AllocLoop(b0, 1, [], [AddResponse(false, [], 0)], false).outcome == NoMemory;
    assert |AllocLoop(b0, 1, [], [AddResponse(false, [], 0)], false).pages| == 0;
  }

  /** Every page present in a `pages` array, in order (`NULL` entries are
      skipped). */
  function Present(pages: seq<Option<Page>>): (r: seq<Page>)
    ensures |r| <= |pages|
    ensures (forall i :: 0 <= i < |pages| ==> pages[i].Some?) ==>
      |r| == |pages| && forall i :: 0 <= i < |pages| ==> r[i] == pages[i].value
  {
    if |pages| == 0 then []
    else (if pages[0].Some? then [pages[0].value] else []) + Present(pages[1..])
  }

  function Somes(pages: seq<Page>): (r: seq<Option<Page>>)
    ensures |r| == |pages| && forall i :: 0 <= i < |pages| ==> r[i] == Some(pages[i])
  {
    seq(|pages|, i requires 0 <= i < |pages| => Some(pages[i]))
  }

  /** The balloon after `free_xenballooned_pages`, and whether the worker was
      queued. */
  datatype Freed = Freed(balloon: Balloon, kicked: bool)

  /** `free_xenballooned_pages(nr_pages, pages)`: park every page present on
      node 0 with order 0, release `nr_pages` from `target_unpopulated`, and
      queue the worker iff node 0's credit is then nonzero. Lowmem pages
      end up at the front of the list, the last one freed first. */
  function FreeBallooned(b: Balloon, pages: seq<Option<Page>>): (r: Freed)
    requires WellFormed(b)
    ensures WellFormed(r.balloon) && NumNodes(r.balloon) == NumNodes(b)
    ensures r.balloon.global.targetUnpopulated == b.global.targetUnpopulated - |pages|
    ensures r.kicked <==> Credit(r.balloon, 0) != 0
    ensures forall n :: 1 <= n < NumNodes(b) ==> r.balloon.nodes[n] == b.nodes[n] && r.balloon.pools[n] == b.pools[n]
    ensures AllLow(Present(pages)) ==>
      && r.balloon.pools[0] == Reverse(ParkAll(Present(pages), 0)) + b.pools[0]
      && r.balloon.nodes[0] == b.nodes[0].(balloonLow := b.nodes[0].balloonLow + |Present(pages)|)
      && r.balloon.global == b.global.(balloonLow := b.global.balloonLow + |Present(pages)|,
                                       targetUnpopulated := b.global.targetUnpopulated - |pages|)
  {
    var present := Present(pages);
    var a := AppendAll(b, 0, present, 0);
    AppendAllLowWhen(b, 0, present, 0);
    AppendAllUnpopulated(b, 0, present, 0);
    var b' := a.(global := a.global.(targetUnpopulated := a.global.targetUnpopulated - |pages|));
    Freed(b', Credit(b', 0) != 0)
  }

  lemma AppendAllLowWhen(b: Balloon, node: nat, pages: seq<Page>, order: nat)
    requires WellFormed(b) && node < NumNodes(b)
    ensures AllLow(pages) ==>
      var r := AppendAll(b, node, pages, order);
      && r.pools[node] == Reverse(ParkAll(pages, order)) + b.pools[node]
      && r.nodes[node] == b.nodes[node].(balloonLow := b.nodes[node].balloonLow + |pages|)
      && r.global == b.global.(balloonLow := b.global.balloonLow + |pages|)
  {
    if AllLow(pages) {
      AppendAllLow(b, node, pages, order);
    }
  }

  lemma {:induction false} AppendAllUnpopulated(b: Balloon, node: nat, pages: seq<Page>, order: nat)
    requires WellFormed(b) && node < NumNodes(b)
    ensures var r := AppendAll(b, node, pages, order);
      && r.global.targetUnpopulated == b.global.targetUnpopulated
      && r.global.targetPages == b.global.targetPages
      && r.global.currentPages == b.global.currentPages
      && (forall n :: 0 <= n < NumNodes(b) ==>
            r.nodes[n].targetPages == b.nodes[n].targetPages && r.nodes[n].currentPages == b.nodes[n].currentPages)
      && (forall n :: 0 <= n < NumNodes(b) && n != node ==> r.nodes[n] == b.nodes[n] && r.pools[n] == b.pools[n])
    decreases |pages|
  {
    if |pages| > 0 {
      AppendAllUnpopulated(Append(b, pages[0], node, order), node, pages[1..], order);
    }
  }

  /** Freeing keeps the bookkeeping invariant. */
  lemma FreeConsistent(b: Balloon, pages: seq<Option<Page>>)
    requires Consistent(b)
    ensures Consistent(FreeBallooned(b, pages).balloon)
  {
    var present := Present(pages);
    AppendAllConsistent(b, 0, present, 0);
  }

  /** The undo path of the corrected allocation keeps the invariant too. */
  lemma AllocConsistent(b: Balloon, nr: int, script: seq<AddResponse>, hotplug: bool)
    requires Consistent(b)
    requires Alloc(b, nr, script, hotplug).Allocation?
    ensures Consistent(Alloc(b, nr, script, hotplug).balloon)
  {
    var l := AllocLoop(Reserve(b, nr), Max(nr, 0), [], script, hotplug);
    AllocLoopConsistent(Reserve(b, nr), Max(nr, 0), [], script, hotplug);
    if l.outcome == NoMemory {
      FreeConsistent(Reserve(l.balloon, -(nr - |l.pages|)), Somes(l.pages));
    }
  }

  /** Round trip: when node 0 holds `nr` lowmem pages at the front of its
      list, allocating them and freeing them again restores every counter
      and `target_unpopulated` exactly; the pages come back to the front of
      node 0 in reverse order with order 0, and no other list changes. */
  lemma AllocThenFree(b: Balloon, nr: nat, script: seq<AddResponse>, hotplug: bool)
    requires WellFormed(b) && nr <= |b.pools[0]|
    requires forall i :: 0 <= i < nr ==> !b.pools[0][i].page.highMem
    ensures var a := Alloc(b, nr, script, hotplug);
      && a.Allocation? && a.outcome == Complete
      && a.pages == PagesOf(b.pools[0][..nr])
      && var f := FreeBallooned(a.balloon, Somes(a.pages)).balloon;
         && f.global == b.global
         && f.nodes == b.nodes
         && f.pools[0] == Reverse(ParkAll(a.pages, 0)) + b.pools[0][nr..]
         && (forall n :: 1 <= n < NumNodes(b) ==> f.pools[n] == b.pools[n])
  {
    AllocFromFullPool(b, nr, script, hotplug);
    FreeTakenBack(b, nr);
    FreeTakenPools(b, nr);
  }

  /** The allocation half: the first nr entries of node 0 come off. */
  lemma AllocFromFullPool(b: Balloon, nr: nat, script: seq<AddResponse>, hotplug: bool)
    requires WellFormed(b) && nr <= |b.pools[0]|
    requires forall i :: 0 <= i < nr ==> !b.pools[0][i].page.highMem
    ensures Alloc(b, nr, script, hotplug)
      == Allocation(TakeFront(Reserve(b, nr), nr), PagesOf(b.pools[0][..nr]), Complete)
  {
    AllocFromPool(Reserve(b, nr), nr, [], script, hotplug);
    assert [] + PagesOf(b.pools[0][..nr]) == PagesOf(b.pools[0][..nr]);
  }

  /** Freeing the taken pages restores the counters and the reservation. */
  lemma FreeTakenBack(b: Balloon, nr: nat)
    requires WellFormed(b) && nr <= |b.pools[0]|
    requires forall i :: 0 <= i < nr ==> !b.pools[0][i].page.highMem
    ensures var f := FreeBallooned(TakeFront(Reserve(b, nr), nr), Somes(PagesOf(b.pools[0][..nr]))).balloon;
      f.global == b.global && f.nodes == b.nodes
  {
    var pages := PagesOf(b.pools[0][..nr]);
    assert Present(Somes(pages)) == pages;
    assert AllLow(pages);
    var f := FreeBallooned(TakeFront(Reserve(b, nr), nr), Somes(pages)).balloon;
    assert f.nodes[0] == b.nodes[0];
    assert forall n :: 0 <= n < |f.nodes| ==> f.nodes[n] == b.nodes[n];
  }

  /** Freeing the taken pages puts them back at the front of node 0, in
      reverse order. */
  lemma FreeTakenPools(b: Balloon, nr: nat)
    requires WellFormed(b) && nr <= |b.pools[0]|
    requires forall i :: 0 <= i < nr ==> !b.pools[0][i].page.highMem
    ensures var pages := PagesOf(b.pools[0][..nr]);
      var f := FreeBallooned(TakeFront(Reserve(b, nr), nr), Somes(pages)).balloon;
      && f.pools[0] == Reverse(ParkAll(pages, 0)) + b.pools[0][nr..]
      && (forall n :: 1 <= n < NumNodes(b) ==> f.pools[n] == b.pools[n])
  {
    var pages := PagesOf(b.pools[0][..nr]);
    assert Present(Somes(pages)) == pages;
    assert AllLow(pages);
  }
}
