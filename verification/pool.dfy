/** The per-node lists of parked pages: `__balloon_append`, `balloon_retrieve`
    and `balloon_next_page` (linux-kernel/drivers/xen/balloon.c), plus the
    repeated forms the reservation code uses. */
module Pool {
  import opened Common
  import opened BalloonState

  /** `__balloon_append(page, node, order)`: a lowmem page goes to the front of
      the node's list and a highmem page to the back; the order is recorded in
      the entry and exactly the matching low/high counter grows by one, on the
      node and globally. */
  function Append(b: Balloon, page: Page, node: nat, order: nat): (r: Balloon)
    requires WellFormed(b) && node < NumNodes(b)
    ensures WellFormed(r) && NumNodes(r) == NumNodes(b)
    ensures r.pools[node] == if page.highMem then b.pools[node] + [Parked(page, order)]
                             else [Parked(page, order)] + b.pools[node]
    ensures r.nodes[node].balloonLow == b.nodes[node].balloonLow + (if page.highMem then 0 else 1)
    ensures r.nodes[node].balloonHigh == b.nodes[node].balloonHigh + (if page.highMem then 1 else 0)
    ensures r.global.balloonLow == b.global.balloonLow + (if page.highMem then 0 else 1)
    ensures r.global.balloonHigh == b.global.balloonHigh + (if page.highMem then 1 else 0)
    ensures r.nodes[node] == b.nodes[node].(balloonLow := r.nodes[node].balloonLow,
                                            balloonHigh := r.nodes[node].balloonHigh)
    ensures r.global == b.global.(balloonLow := r.global.balloonLow, balloonHigh := r.global.balloonHigh)
    ensures forall n :: 0 <= n < NumNodes(b) && n != node ==> r.nodes[n] == b.nodes[n] && r.pools[n] == b.pools[n]
  {
    var entry := Parked(page, order);
    var s := b.nodes[node];
    if page.highMem then
      Balloon(b.global.(balloonHigh := b.global.balloonHigh + 1),
              b.nodes[node := s.(balloonHigh := s.balloonHigh + 1)],
              b.pools[node := b.pools[node] + [entry]])
    else
      Balloon(b.global.(balloonLow := b.global.balloonLow + 1),
              b.nodes[node := s.(balloonLow := s.balloonLow + 1)],
              b.pools[node := [entry] + b.pools[node]])
  }

  datatype Retrieved = Retrieved(balloon: Balloon, parked: Option<Parked>)

  /** `balloon_retrieve(require_lowmem, node, &order)`. An empty list, or a
      highmem page at the front when lowmem is required, yields nothing and
      changes nothing; otherwise the front entry leaves the list, its stored
      order comes back with it and the matching counter drops by one. */
  function Retrieve(b: Balloon, requireLowmem: bool, node: nat): (r: Retrieved)
    requires WellFormed(b) && node < NumNodes(b)
    ensures WellFormed(r.balloon) && NumNodes(r.balloon) == NumNodes(b)
    ensures r.parked.None? <==> |b.pools[node]| == 0 || (requireLowmem && b.pools[node][0].page.highMem)
    ensures r.parked.None? ==> r.balloon == b
    ensures r.parked.Some? ==>
      && r.parked.value == b.pools[node][0]
      && r.balloon.pools[node] == b.pools[node][1..]
      && (requireLowmem ==> !r.parked.value.page.highMem)
    ensures r.parked.Some? && r.parked.value.page.highMem ==>
      && r.balloon.nodes[node] == b.nodes[node].(balloonHigh := b.nodes[node].balloonHigh - 1)
      && r.balloon.global == b.global.(balloonHigh := b.global.balloonHigh - 1)
    ensures r.parked.Some? && !r.parked.value.page.highMem ==>
      && r.balloon.nodes[node] == b.nodes[node].(balloonLow := b.nodes[node].balloonLow - 1)
      && r.balloon.global == b.global.(balloonLow := b.global.balloonLow - 1)
    ensures forall n :: 0 <= n < NumNodes(b) && n != node ==>
      r.balloon.nodes[n] == b.nodes[n] && r.balloon.pools[n] == b.pools[n]
  {
    var pool := b.pools[node];
    if |pool| == 0 then Retrieved(b, None)
    else
      var front := pool[0];
      if requireLowmem && front.page.highMem then Retrieved(b, None)
      else
        var s := b.nodes[node];
        var b' :=
          if front.page.highMem then
            Balloon(b.global.(balloonHigh := b.global.balloonHigh - 1),
                    b.nodes[node := s.(balloonHigh := s.balloonHigh - 1)],
                    b.pools[node := pool[1..]])
          else
            Balloon(b.global.(balloonLow := b.global.balloonLow - 1),
                    b.nodes[node := s.(balloonLow := s.balloonLow - 1)],
                    b.pools[node := pool[1..]]);
        Retrieved(b', Some(front))
  }

  /** `balloon_next_page(page, node, &order)` for the page at position `pos`
      of the node's list: the entry after it, or nothing at the end. */
  function NextPage(b: Balloon, node: nat, pos: nat): (r: Option<Parked>)
    requires WellFormed(b) && node < NumNodes(b) && pos < |b.pools[node]|
    ensures r.Some? <==> pos + 1 < |b.pools[node]|
    ensures r.Some? ==> r.value == b.pools[node][pos + 1]
  {
    if pos + 1 < |b.pools[node]| then Some(b.pools[node][pos + 1]) else None
  }

  /** Appending a lowmem page and retrieving it again is the identity: the
      page comes back with the order it was stored with. */
  lemma RetrieveAfterAppendLow(b: Balloon, page: Page, node: nat, order: nat, requireLowmem: bool)
    requires WellFormed(b) && node < NumNodes(b) && !page.highMem
    ensures Retrieve(Append(b, page, node, order), requireLowmem, node) == Retrieved(b, Some(Parked(page, order)))
  {
    var a := Append(b, page, node, order);
    var r := Retrieve(a, requireLowmem, node);
    assert a.pools[node][1..] == b.pools[node];
    assert r.balloon.pools == b.pools;
    assert r.balloon.nodes == b.nodes;
  }

  /** A highmem page goes behind every page already parked: retrieval returns
      it first only from an otherwise empty list, and never when lowmem is
      required. */
  lemma RetrieveAfterAppendHigh(b: Balloon, page: Page, node: nat, order: nat)
    requires WellFormed(b) && node < NumNodes(b) && page.highMem
    ensures |b.pools[node]| == 0 ==> Retrieve(Append(b, page, node, order), true, node).parked.None?
    ensures |b.pools[node]| > 0 ==>
      Retrieve(Append(b, page, node, order), false, node).parked == Some(b.pools[node][0])
    ensures |b.pools[node]| == 0 ==>
      Retrieve(Append(b, page, node, order), false, node) == Retrieved(b, Some(Parked(page, order)))
  {
    var a := Append(b, page, node, order);
    if |b.pools[node]| == 0 {
      assert a.pools[node][1..] == b.pools[node];
      assert Retrieve(a, false, node).balloon.pools == b.pools;
      assert Retrieve(a, false, node).balloon.nodes == b.nodes;
    }
  }

  /** Front insertion of a lowmem entry and tail insertion of a highmem entry
      keep a node's counters equal to its list's make-up and keep low pages
      ahead of high ones. */
  lemma AppendNodeConsistent(s: Stats, pool: seq<Parked>, e: Parked)
    requires NodeConsistent(s, pool)
    ensures e.page.highMem ==> NodeConsistent(s.(balloonHigh := s.balloonHigh + 1), pool + [e])
    ensures !e.page.highMem ==> NodeConsistent(s.(balloonLow := s.balloonLow + 1), [e] + pool)
  {
    CountSingle(e);
    if e.page.highMem {
      CountConcat(pool, [e]);
      var p := pool + [e];
      forall i, j | 0 <= i < j < |p| && p[i].page.highMem
        ensures p[j].page.highMem
      {
        if j < |p| - 1 {
          assert p[i] == pool[i] && p[j] == pool[j];
        }
      }
    } else {
      CountConcat([e], pool);
      var p := [e] + pool;
      forall i, j | 0 <= i < j < |p| && p[i].page.highMem
        ensures p[j].page.highMem
      {
        assert p[i] == pool[i - 1] && p[j] == pool[j - 1];
      }
    }
  }

  lemma AppendConsistent(b: Balloon, page: Page, node: nat, order: nat)
    requires Consistent(b) && node < NumNodes(b)
    ensures Consistent(Append(b, page, node, order))
  {
    var r := Append(b, page, node, order);
    AppendNodeConsistent(b.nodes[node], b.pools[node], Parked(page, order));
    SumUpdate(b.nodes, node, r.nodes[node]);
    assert r.nodes == b.nodes[node := r.nodes[node]];
    forall n | 0 <= n < |r.nodes|
      ensures NodeConsistent(r.nodes[n], r.pools[n])
    {
      if n != node {
        assert NodeConsistent(b.nodes[n], b.pools[n]);
      }
    }
  }

  lemma RetrieveConsistent(b: Balloon, requireLowmem: bool, node: nat)
    requires Consistent(b) && node < NumNodes(b)
    ensures Consistent(Retrieve(b, requireLowmem, node).balloon)
  {
    var r := Retrieve(b, requireLowmem, node);
    if r.parked.Some? {
      var pool := b.pools[node];
      assert pool == [pool[0]] + pool[1..];
      CountConcat([pool[0]], pool[1..]);
      CountSingle(pool[0]);
      SumUpdate(b.nodes, node, r.balloon.nodes[node]);
      assert r.balloon.nodes == b.nodes[node := r.balloon.nodes[node]];
    }
  }

  /** `k` successive `balloon_retrieve(false, node, ...)` calls: the first `k`
      entries leave the node's list and the counters drop by the low/high
      make-up of that prefix. Nothing when the list is shorter than `k` (the
      caller's `BUG_ON(page == NULL)`). */
  function {:induction false} RetrieveN(b: Balloon, node: nat, k: nat): (r: Option<Balloon>)
    requires WellFormed(b) && node < NumNodes(b)
    ensures r.Some? <==> k <= |b.pools[node]|
    ensures r.Some? ==>
      && WellFormed(r.value) && NumNodes(r.value) == NumNodes(b)
      && r.value.pools[node] == b.pools[node][k..]
      && r.value.nodes[node] == b.nodes[node].(
           balloonLow := b.nodes[node].balloonLow - CountLow(b.pools[node][..k]),
           balloonHigh := b.nodes[node].balloonHigh - CountHigh(b.pools[node][..k]))
      && r.value.global == b.global.(
           balloonLow := b.global.balloonLow - CountLow(b.pools[node][..k]),
           balloonHigh := b.global.balloonHigh - CountHigh(b.pools[node][..k]))
      && (forall n :: 0 <= n < NumNodes(b) && n != node ==>
            r.value.nodes[n] == b.nodes[n] && r.value.pools[n] == b.pools[n])
    decreases k
  {
    if k == 0 then
      assert b.pools[node][..0] == [];
      assert b.pools[node][0..] == b.pools[node];
      Some(b)
    else
      var x := Retrieve(b, false, node);
      if x.parked.None? then None
      else
        var rest := RetrieveN(x.balloon, node, k - 1);
        if rest.Some? then
          var pool := b.pools[node];
          assert pool[..k] == [pool[0]] + pool[1..][..k - 1];
          assert pool[1..][k - 1..] == pool[k..];
          CountConcat([pool[0]], pool[1..][..k - 1]);
          CountSingle(pool[0]);
          rest
        else rest
  }

  lemma {:induction false} RetrieveNConsistent(b: Balloon, node: nat, k: nat)
    requires Consistent(b) && node < NumNodes(b) && k <= |b.pools[node]|
    ensures Consistent(RetrieveN(b, node, k).value)
    decreases k
  {
    if k > 0 {
      RetrieveConsistent(b, false, node);
      RetrieveNConsistent(Retrieve(b, false, node).balloon, node, k - 1);
    }
  }

  function Reverse<T>(s: seq<T>): (r: seq<T>)
    ensures |r| == |s|
    ensures forall i :: 0 <= i < |s| ==> r[i] == s[|s| - 1 - i]
  {
    if |s| == 0 then [] else Reverse(s[1..]) + [s[0]]
  }

  /** Parked entries for a list of pages, all stored with the same order. */
  function ParkAll(pages: seq<Page>, order: nat): (r: seq<Parked>)
    ensures |r| == |pages|
    ensures forall i :: 0 <= i < |pages| ==> r[i] == Parked(pages[i], order)
  {
    if |pages| == 0 then [] else [Parked(pages[0], order)] + ParkAll(pages[1..], order)
  }

  predicate AllLow(pages: seq<Page>) {
    forall i :: 0 <= i < |pages| ==> !pages[i].highMem
  }

  /** `balloon_append` applied to each page in turn. */
  function AppendAll(b: Balloon, node: nat, pages: seq<Page>, order: nat): (r: Balloon)
    requires WellFormed(b) && node < NumNodes(b)
    ensures WellFormed(r) && NumNodes(r) == NumNodes(b)
    decreases |pages|
  {
    if |pages| == 0 then b else AppendAll(Append(b, pages[0], node, order), node, pages[1..], order)
  }

  /** Appending lowmem pages one after another stacks them at the front: the
      last page appended ends up first. Exactly the low counters grow, by the
      number of pages, on that node and globally; nothing else changes. */
  lemma {:induction false} AppendAllLow(b: Balloon, node: nat, pages: seq<Page>, order: nat)
    requires WellFormed(b) && node < NumNodes(b) && AllLow(pages)
    ensures var r := AppendAll(b, node, pages, order);
      && r.pools[node] == Reverse(ParkAll(pages, order)) + b.pools[node]
      && r.nodes[node] == b.nodes[node].(balloonLow := b.nodes[node].balloonLow + |pages|)
      && r.global == b.global.(balloonLow := b.global.balloonLow + |pages|)
      && (forall n :: 0 <= n < NumNodes(b) && n != node ==> r.nodes[n] == b.nodes[n] && r.pools[n] == b.pools[n])
    decreases |pages|
  {
    if |pages| > 0 {
      var a := Append(b, pages[0], node, order);
      AppendAllLow(a, node, pages[1..], order);
      var ps := ParkAll(pages, order);
      assert ParkAll(pages[1..], order) == ps[1..];
      assert Reverse(ps) == Reverse(ps[1..]) + [ps[0]];
    }
  }

  /** Appending the pages in reverse stacks them at the front in their
      original order. */
  lemma ReverseParkAll(pages: seq<Page>, order: nat)
    ensures Reverse(ParkAll(Reverse(pages), order)) == ParkAll(pages, order)
  {
    var x := Reverse(ParkAll(Reverse(pages), order));
    forall i | 0 <= i < |pages|
      ensures x[i] == ParkAll(pages, order)[i]
    {
    }
  }

  lemma AllLowReverse(pages: seq<Page>)
    requires AllLow(pages)
    ensures AllLow(Reverse(pages))
  {
  }

  lemma {:induction false} AppendAllConsistent(b: Balloon, node: nat, pages: seq<Page>, order: nat)
    requires Consistent(b) && node < NumNodes(b)
    ensures Consistent(AppendAll(b, node, pages, order))
    decreases |pages|
  {
    if |pages| > 0 {
      AppendConsistent(b, pages[0], node, order);
      AppendAllConsistent(Append(b, pages[0], node, order), node, pages[1..], order);
    }
  }
}
