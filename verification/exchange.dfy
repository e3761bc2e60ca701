/** The argument checks of `memory_exchange`
    (xen-hypervisor/xen/common/memory.c), which trades a guest's extents of
    one order for extents of another: the order limit, the sanity checks on
    the two lists, and the choice of chunk orders that pairs input with
    output. The guest-handle range checks are oracle answers; the page
    stealing and assignment loop after the checks is not modelled. */
module Exchange {
  import opened Common
  import opened MemFlags
  import opened MemopArgs

  /** One side of `xen_memory_exchange` (`xen_memory_reservation`). */
  datatype ExchangeList = ExchangeList(nrExtents: nat, extentOrder: nat, domid: nat, memFlags: Flags)

  datatype ExchangeRequest = ExchangeRequest(input: ExchangeList, output: ExchangeList, nrExchanged: nat)

  /** Each step of the exchange trades 2^inChunkOrder input extents for
      2^outChunkOrder output extents. */
  datatype Chunks = Chunks(inChunkOrder: nat, outChunkOrder: nat)

  /** The sanity checks as written: `(~0UL >> order) < nr` for overflow and
      `nr << order` (an `unsigned long`) for the totals. */
  predicate SaneAsWritten(e: ExchangeRequest) {
    && e.nrExchanged <= e.input.nrExtents
    && e.input.domid == e.output.domid
    && (U64 - 1) / Pow2(e.input.extentOrder) >= e.input.nrExtents
    && (U64 - 1) / Pow2(e.output.extentOrder) >= e.output.nrExtents
    && Wrap64(e.input.nrExtents * Pow2(e.input.extentOrder)) == Wrap64(e.output.nrExtents * Pow2(e.output.extentOrder))
  }

  /** What the checks mean: progress within the input list, one domain, and
      both lists covering the same number of pages, a number that fits 64
      bits. */
  predicate Sane(e: ExchangeRequest) {
    && e.nrExchanged <= e.input.nrExtents
    && e.input.domid == e.output.domid
    && e.input.nrExtents * Pow2(e.input.extentOrder) < U64
    && e.output.nrExtents * Pow2(e.output.extentOrder) < U64
    && e.input.nrExtents * Pow2(e.input.extentOrder) == e.output.nrExtents * Pow2(e.output.extentOrder)
  }

  /** The shift test `(~0UL >> order) < nr` is exactly "nr extents of this
      order overflow 64 bits of pages". */
  lemma ShiftTestMeansOverflow(nr: nat, p: nat)
    requires p > 0
    ensures (U64 - 1) / p >= nr <==> nr * p < U64
  {
    var q := (U64 - 1) / p;
    var r := (U64 - 1) % p;
    assert U64 - 1 == q * p + r;
    if nr <= q {
      assert (q - nr) * p >= 0;
    } else {
      MulAtLeast(nr - q, p);
      assert nr * p == q * p + (nr - q) * p;
    }
  }

  /** The written checks are the meant ones. */
  lemma SanityMeansFit(e: ExchangeRequest)
    ensures SaneAsWritten(e) <==> Sane(e)
  {
    ShiftTestMeansOverflow(e.input.nrExtents, Pow2(e.input.extentOrder));
    ShiftTestMeansOverflow(e.output.nrExtents, Pow2(e.output.extentOrder));
  }

  /** The checks of `memory_exchange` between the copy-in and the domain
      lookup: the value `rc` holds when it jumps to `fail_early`, or the
      chunk orders when every check passes. `maxOrder` is
      `max_order(current->domain)`; `inRangeOk` and `outRangeOk` answer the
      two `guest_handle_subrange_okay` checks; `privileged` is what
      `propagate_node` checks of the caller. */
  function ExchangeChecks(e: ExchangeRequest, maxOrder: nat, inRangeOk: bool, outRangeOk: bool, privileged: bool): (r: Result<Chunks>)
    ensures r == Err(EPERM) <==> Max(e.input.extentOrder, e.output.extentOrder) > maxOrder
    ensures Max(e.input.extentOrder, e.output.extentOrder) <= maxOrder && !Sane(e) ==> r == Err(EINVAL)
    ensures r.Ok? ==>
      && Sane(e) && inRangeOk && outRangeOk
      && Max(e.input.extentOrder, e.output.extentOrder) <= maxOrder
      && PropagateNode(e.output.memFlags, 0, privileged).Some?
    ensures Max(e.input.extentOrder, e.output.extentOrder) <= maxOrder && Sane(e) ==>
      && (!inRangeOk ==> r == Err(EFAULT))
      && (inRangeOk && !outRangeOk ==> r == Err(EFAULT))
      && (inRangeOk && outRangeOk && PropagateNode(e.output.memFlags, 0, privileged).None? ==> r == Err(EINVAL))
      && (inRangeOk && outRangeOk && PropagateNode(e.output.memFlags, 0, privileged).Some? ==>
            r == Ok(ChunkOrders(e.input.extentOrder, e.output.extentOrder)))
    ensures r.Err? ==> r.errno in {EPERM, EINVAL, EFAULT}
  {
    SanityMeansFit(e);
    if Max(e.input.extentOrder, e.output.extentOrder) > maxOrder then Err(EPERM)
    else if !SaneAsWritten(e) then Err(EINVAL)
    else if !inRangeOk then Err(EFAULT)
    else
      var chunks := ChunkOrders(e.input.extentOrder, e.output.extentOrder);
      if !outRangeOk then Err(EFAULT)
      else if PropagateNode(e.output.memFlags, 0, privileged).None? then Err(EINVAL)
      else Ok(chunks)
  }

  /** `memory_exchange` up to the domain lookup, with its copies: a request
      that cannot be copied in is -EFAULT before any check, and every check
      that fails leaves through `fail_early`, where a failed copy of
      `nr_exchanged` back to the guest turns the error into -EFAULT. The
      copy back on success comes after the exchange loop and is not part
      of this step. */
  function ExchangeEarly(copied: Option<ExchangeRequest>, maxOrder: nat, inRangeOk: bool, outRangeOk: bool,
                         privileged: bool, copyBackOk: bool): (r: Result<Chunks>)
    ensures copied.None? ==> r == Err(EFAULT)
    ensures copied.Some? ==>
      var checked := ExchangeChecks(copied.value, maxOrder, inRangeOk, outRangeOk, privileged);
      && (checked.Ok? ==> r == checked)
      && (checked.Err? && copyBackOk ==> r == checked)
      && (checked.Err? && !copyBackOk ==> r == Err(EFAULT))
  {
    match copied
    case None => Err(EFAULT)
    case Some(e) =>
      var checked := ExchangeChecks(e, maxOrder, inRangeOk, outRangeOk, privileged);
      if checked.Err? && !copyBackOk then Err(EFAULT) else checked
  }

  /** The guest sees the order limit or a sanity error only when both copies
      succeed; with a failed copy back, every refusal reads -EFAULT, and
      acceptance does not depend on the copy back at all. */
  lemma EarlyErrorsMasked(copied: Option<ExchangeRequest>, maxOrder: nat, inRangeOk: bool, outRangeOk: bool, privileged: bool)
    ensures var bad := ExchangeEarly(copied, maxOrder, inRangeOk, outRangeOk, privileged, false);
      bad.Err? ==> bad.errno == EFAULT
    ensures ExchangeEarly(copied, maxOrder, inRangeOk, outRangeOk, privileged, true).Ok?
      <==> ExchangeEarly(copied, maxOrder, inRangeOk, outRangeOk, privileged, false).Ok?
    ensures ExchangeEarly(copied, maxOrder, inRangeOk, outRangeOk, privileged, true) == Err(EPERM) <==>
      copied.Some? && Max(copied.value.input.extentOrder, copied.value.output.extentOrder) > maxOrder
  {
  }

  /** The chunk orders: the smaller order's side is grouped so that one
      chunk on each side spans the same pages. */
  function ChunkOrders(inOrder: nat, outOrder: nat): (c: Chunks)
    ensures inOrder + c.inChunkOrder == outOrder + c.outChunkOrder
    ensures c.inChunkOrder == 0 || c.outChunkOrder == 0
  {
    if inOrder <= outOrder then Chunks(outOrder - inOrder, 0)
    else Chunks(0, inOrder - outOrder)
  }

  /** An accepted exchange pairs whole chunks: the input list splits into
      chunks without remainder, the output list as well, and both have the
      same number of chunks, so the exchange loop trades them one for one. */
  lemma {:induction false} ChunkCountsAgree(e: ExchangeRequest, maxOrder: nat, inRangeOk: bool, outRangeOk: bool, privileged: bool)
    requires ExchangeChecks(e, maxOrder, inRangeOk, outRangeOk, privileged).Ok?
    ensures var c := ExchangeChecks(e, maxOrder, inRangeOk, outRangeOk, privileged).value;
      && e.input.nrExtents % Pow2(c.inChunkOrder) == 0
      && e.output.nrExtents % Pow2(c.outChunkOrder) == 0
      && e.input.nrExtents / Pow2(c.inChunkOrder) == e.output.nrExtents / Pow2(c.outChunkOrder)
  {
    var c := ExchangeChecks(e, maxOrder, inRangeOk, outRangeOk, privileged).value;
    assert c == ChunkOrders(e.input.extentOrder, e.output.extentOrder);
    var i := e.input.extentOrder;
    var o := e.output.extentOrder;
    if i <= o {
      Pow2Add(o - i, i);
      ScaledCount(e.input.nrExtents, e.output.nrExtents, Pow2(o - i), Pow2(i));
      DivModUnique(e.input.nrExtents, Pow2(o - i), e.output.nrExtents, 0);
    } else {
      Pow2Add(i - o, o);
      ScaledCount(e.output.nrExtents, e.input.nrExtents, Pow2(i - o), Pow2(o));
      DivModUnique(e.output.nrExtents, Pow2(i - o), e.input.nrExtents, 0);
    }
  }

  /** Cancelling the common page size: `a * p == b * (k * p)` gives
      `a == b * k`. */
  lemma ScaledCount(a: nat, b: nat, k: nat, p: nat)
    requires p > 0 && a * p == b * (k * p)
    ensures a == b * k
  {
    assert b * (k * p) == (b * k) * p;
    if a < b * k {
      MulAtLeast(b * k - a, p);
    } else if a > b * k {
      MulAtLeast(a - b * k, p);
    }
  }

  /** Trading 2 MiB extents for 4 KiB pages: one input extent of order 9
      against 512 output pages is accepted, with chunks of 1 input extent
      and 512 output pages; one output page too few is refused. */
  lemma HugeForSmall()
    ensures ExchangeChecks(ExchangeRequest(ExchangeList(1, 9, 0, 0), ExchangeList(512, 0, 0, 0), 0), 9, true, true, false)
      == Ok(Chunks(0, 9))
    ensures ExchangeChecks(ExchangeRequest(ExchangeList(1, 9, 0, 0), ExchangeList(511, 0, 0, 0), 0), 9, true, true, false)
      == Err(EINVAL)
  {
    assert Pow2(9) == 512;
  }
}
