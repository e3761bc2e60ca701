/** The range arithmetic of `xenmem_add_to_physmap` (for the
    `XENMAPSPACE_gmfn_range` space) and `xenmem_add_to_physmap_batch`
    (xen-hypervisor/xen/common/memory.c), and the way `do_memory_op` resumes
    them. Both walk a list of frames from the resume point `start_extent`,
    map one frame per step through `xenmem_add_to_physmap_one` (an oracle
    answer per frame) and hand back the position reached when preempted. */
module Physmap {
  import opened Common
  import opened Memop

  /** `sizeof(xatp.size)` is two bytes: the frame count and the resume point
      both stay below 2^16. */
  const SizeLimit: nat := 0x1_0000

  /** `struct xen_add_to_physmap` for a frame range: the first source frame,
      the first guest frame, and the number of frames. */
  datatype Xatp = Xatp(idx: nat, gpfn: nat, size: nat)

  /** What `xenmem_add_to_physmap` returns, the request as it leaves it, and
      how many frames this invocation mapped. */
  datatype RangeResult = RangeResult(rc: int, xatp: Xatp, done: nat)

  /** `xenmem_add_to_physmap(d, xatp, start)` for `XENMAPSPACE_gmfn_range`.
      `results[k]` is what mapping frame k of the range returns (0 or a
      negative errno); `preempt[k]` is `hypercall_preempt_check()` right
      after frame k. A resume point past the end is refused with `-EILSEQ`;
      otherwise the request is advanced to the resume point and frames are
      mapped until one fails, the range ends, or preemption hands back the
      position reached. */
  method AddToPhysmap(x: Xatp, start: nat, results: seq<int>, preempt: seq<bool>) returns (r: RangeResult)
    requires x.size < SizeLimit && x.idx < U64 && x.gpfn < U64
    requires |results| == x.size && |preempt| == x.size
    requires forall k :: 0 <= k < x.size ==> results[k] <= 0
    ensures x.size < start ==> r == RangeResult(-(EILSEQ as int), x, 0)
    ensures x.size >= start ==>
      && r.done <= x.size - start
      && r.xatp == Xatp(Wrap64(x.idx + start + r.done), Wrap64(x.gpfn + start + r.done), x.size - start)
      && (forall k :: start <= k < start + r.done ==> results[k] == 0)
      && (forall k :: start <= k && k + 1 < start + r.done ==> !preempt[k])
    ensures x.size >= start && r.rc < 0 ==>
      start + r.done < x.size && r.rc == results[start + r.done]
    ensures x.size >= start && r.rc > 0 ==>
      && r.rc == start + r.done
      && start < r.rc < x.size
      && preempt[r.rc - 1]
    ensures x.size >= start && r.rc == 0 ==> start + r.done == x.size
  {
    if x.size < start {
      return RangeResult(-(EILSEQ as int), x, 0);
    }
    var size := x.size - start;
    var done := 0;
    var rc := 0;
    while size > done
      invariant done <= size
      invariant forall k :: start <= k < start + done ==> results[k] == 0
      invariant forall k :: start <= k < start + done && k + 1 < x.size ==> !preempt[k]
      invariant rc == 0
      decreases size - done
    {
      rc := results[start + done];
      if rc < 0 {
        break;
      }
      done := done + 1;
      if size > done && preempt[start + done - 1] {
        rc := start + done;
        break;
      }
    }
    // Each mapped frame advances `xatp->idx` and `xatp->gpfn` by one.
    return RangeResult(rc, Xatp(Wrap64(x.idx + start + done), Wrap64(x.gpfn + start + done), size), done);
  }

  /** The `XENMEM_add_to_physmap` case of `do_memory_op` for a frame range,
      from `AddToPhysmap` on: a resume point that does not fit `xatp.size`
      is refused with `-EDOM`, and a positive result becomes a continuation
      carrying it. */
  method AddToPhysmapCall(cmd: nat, x: Xatp, results: seq<int>, preempt: seq<bool>) returns (o: Outcome)
    requires cmd < U64
    requires x.size < SizeLimit && x.idx < U64 && x.gpfn < U64
    requires |results| == x.size && |preempt| == x.size
    requires forall k :: 0 <= k < x.size ==> results[k] <= 0
    ensures DecodeCmd(cmd).startExtent >= SizeLimit ==> o == Returned(-(EDOM as int))
    ensures o.Continued? ==>
      && o.cmd < U64
      && DecodeCmd(o.cmd).op == DecodeCmd(cmd).op
      && DecodeCmd(cmd).startExtent < DecodeCmd(o.cmd).startExtent < x.size
    ensures o.Returned? && o.rc >= 0 ==> o.rc == 0
  {
    var c := DecodeCmd(cmd);
    if c.startExtent >= SizeLimit {
      return Returned(-(EDOM as int));
    }
    var r := AddToPhysmap(x, c.startExtent, results, preempt);
    if r.rc > 0 {
      CmdRoundTrip(c.op, r.rc);
      return Continued(EncodeCmd(c.op, r.rc));
    }
    return Returned(r.rc);
  }

  /** What one entry of a batch needs: whether its source and guest frame
      could be read, what mapping it returns, whether its result could be
      written back to `errs`, and the preemption check after it. */
  datatype BatchEntry = BatchEntry(copyInOk: bool, rc: int, copyOutOk: bool, preempt: bool)

  /** Entry k was processed to the end: read, mapped, and its result stored. */
  predicate Stored(e: BatchEntry) {
    e.copyInOk && e.copyOutOk
  }

  /** `xenmem_add_to_physmap_batch(d, xatpb, extent)`. `handlesOk` answers
      the three range checks on `idxs`, `gpfns` and `errs`. Returns the
      function's result and the values written to `errs`, from position
      `extent` on. A mapping error is not a failure of the batch: it is
      stored for the guest and the walk goes on. */
  method AddToPhysmapBatch(size: nat, extent: nat, handlesOk: bool, entries: seq<BatchEntry>) returns (rc: int, errs: seq<int>)
    requires size < SizeLimit && |entries| == size
    ensures size < extent ==> rc == -(EILSEQ as int) && errs == []
    ensures extent <= size && !handlesOk ==> rc == -(EFAULT as int) && errs == []
    ensures extent <= size ==> extent + |errs| <= size
    ensures forall k :: 0 <= k < |errs| ==> extent + k < size && errs[k] == entries[extent + k].rc && Stored(entries[extent + k])
    ensures rc == 0 ==> extent + |errs| == size
    ensures rc > 0 ==> rc == extent + |errs| && extent < rc < size && entries[rc - 1].preempt
    ensures rc == -(EFAULT as int) && extent <= size && handlesOk ==>
      extent + |errs| < size && !Stored(entries[extent + |errs|])
    ensures rc < 0 ==> rc == -(EILSEQ as int) || rc == -(EFAULT as int)
    ensures forall k :: extent <= k && k + 1 < extent + |errs| ==> !entries[k].preempt
  {
    if size < extent {
      return -(EILSEQ as int), [];
    }
    if !handlesOk {
      return -(EFAULT as int), [];
    }
    var i := extent;
    errs := [];
    while size > i
      invariant extent <= i <= size && i == extent + |errs|
      invariant forall k :: 0 <= k < |errs| ==> errs[k] == entries[extent + k].rc
      invariant forall k :: extent <= k < i ==> Stored(entries[k])
      invariant forall k :: extent <= k < i && k + 1 < size ==> !entries[k].preempt
      decreases size - i
    {
      var e := entries[i];
      if !e.copyInOk || !e.copyOutOk {
        return -(EFAULT as int), errs;
      }
      ghost var before := errs;
      errs := errs + [e.rc];
      assert forall k :: 0 <= k < |before| ==> errs[k] == before[k];
      assert Stored(entries[i]);
      i := i + 1;
      if size > i && e.preempt {
        return i, errs;
      }
    }
    return 0, errs;
  }

  /** A batch call ends in a continuation only after storing at least one
      result, so the chain of continuations ends within `size` calls. */
  method AddToPhysmapBatchCall(cmd: nat, size: nat, handlesOk: bool, entries: seq<BatchEntry>) returns (o: Outcome)
    requires cmd < U64
    requires size < SizeLimit && |entries| == size
    ensures DecodeCmd(cmd).startExtent >= SizeLimit ==> o == Returned(-(EDOM as int))
    ensures o.Continued? ==>
      && o.cmd < U64
      && DecodeCmd(o.cmd).op == DecodeCmd(cmd).op
      && DecodeCmd(cmd).startExtent < DecodeCmd(o.cmd).startExtent < size
  {
    var c := DecodeCmd(cmd);
    if c.startExtent >= SizeLimit {
      return Returned(-(EDOM as int));
    }
    var rc, _ := AddToPhysmapBatch(size, c.startExtent, handlesOk, entries);
    if rc > 0 {
      CmdRoundTrip(c.op, rc);
      return Continued(EncodeCmd(c.op, rc));
    }
    return Returned(rc);
  }
}
