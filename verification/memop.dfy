/** The reservation half of the hypervisor's `do_memory_op`
    (xen-hypervisor/xen/common/memory.c): the split of the `cmd` word into an
    operation and a resume point, the early exits that hand the resume point
    back, and the progress rule of the three extent loops
    `increase_reservation`, `populate_physmap` and `decrease_reservation`.
    Everything the loops ask the outside world (preemption, allocation, guest
    copies, p2m removals) is an oracle answer per extent. */
module Memop {
  import opened Common
  import opened MemFlags
  import opened MemopArgs

  /** `MEMOP_EXTENT_SHIFT` is 6: the low six bits of `cmd` hold the operation. */
  const ExtentUnit: nat := 64
  /** `UINT_MAX >> MEMOP_EXTENT_SHIFT`: the largest extent count whose resume
      point still fits a continuation. */
  const MaxEncodable: nat := 0x3ff_ffff

  const OpIncrease: nat := 0
  const OpDecrease: nat := 1
  const OpPopulate: nat := 6

  datatype Cmd = Cmd(op: nat, startExtent: nat)

  /** `op = cmd & MEMOP_CMD_MASK` and `start_extent = cmd >> MEMOP_EXTENT_SHIFT`,
      written as remainder and quotient by 64. */
  function DecodeCmd(cmd: nat): (c: Cmd)
    requires cmd < U64
    ensures c.op < ExtentUnit
    ensures cmd == c.startExtent * ExtentUnit + c.op
    ensures c.startExtent < U64 / ExtentUnit
  {
    Cmd(cmd % ExtentUnit, cmd / ExtentUnit)
  }

  /** `op | (n << MEMOP_EXTENT_SHIFT)` as an `unsigned long`: the operation
      occupies the six low bits the shift leaves clear, so the or is a sum. */
  function EncodeCmd(op: nat, n: nat): (cmd: nat)
    requires op < ExtentUnit
    ensures cmd < U64
    ensures cmd % ExtentUnit == op
  {
    var cmd := Wrap64(op + n * ExtentUnit);
    EncodeLowBits(op, n);
    cmd
  }

  lemma EncodeLowBits(op: nat, n: nat)
    requires op < ExtentUnit
    ensures Wrap64(op + n * ExtentUnit) % ExtentUnit == op
  {
    var x := op + n * ExtentUnit;
    var q := x / U64;
    var w := x % U64;
    assert x == q * U64 + w;
    assert w == op + (n - q * (U64 / ExtentUnit)) * ExtentUnit;
    DivModUnique(w, ExtentUnit, n - q * (U64 / ExtentUnit), op);
  }

  /** A continuation decodes to the operation and the resume point it was
      built from, as long as the resume point fits the 58 bits above the
      operation (the reservation path keeps it below `MaxEncodable`). */
  lemma CmdRoundTrip(op: nat, n: nat)
    requires op < ExtentUnit && n < U64 / ExtentUnit
    ensures DecodeCmd(EncodeCmd(op, n)) == Cmd(op, n)
  {
    assert op + n * ExtentUnit < U64;
    DivModUnique(op + n * ExtentUnit, ExtentUnit, n, op);
  }

  /** And every command word is the continuation of its own decoding. */
  lemma CmdDecodeEncode(cmd: nat)
    requires cmd < U64
    ensures EncodeCmd(DecodeCmd(cmd).op, DecodeCmd(cmd).startExtent) == cmd
  {
  }

  // The extent loops.

  /** What the loop learns at one extent: whether `hypercall_preempt_check`
      fires there, and whether the extent's work (allocation, guest copies)
      succeeds. */
  datatype Step = Step(preempt: bool, ok: bool)

  /** `memop_args.nr_done` and `memop_args.preempted` after a loop. */
  datatype Progress = Progress(nrDone: nat, preempted: bool)

  /** Extent i ends the loop: preemption is only checked after the first
      extent of this invocation, then the work may fail. `steps[k]` answers
      for extent `start + k`. */
  predicate StopsAt(steps: seq<Step>, start: nat, i: nat)
    requires start <= i < start + |steps|
  {
    (i != start && steps[i - start].preempt) || !steps[i - start].ok
  }

  /** The progress the loops promise: every extent before `nrDone` was
      processed, the one at `nrDone` (if any) stopped the loop, and the call
      was preempted iff that stop was a preemption. */
  predicate FirstStop(p: Progress, start: nat, steps: seq<Step>) {
    && start <= p.nrDone <= start + |steps|
    && (forall k :: start <= k < p.nrDone ==> !StopsAt(steps, start, k))
    && (p.nrDone < start + |steps| ==> StopsAt(steps, start, p.nrDone))
    && (p.preempted <==> p.nrDone < start + |steps| && p.nrDone != start && steps[p.nrDone - start].preempt)
  }

  /** `for ( i = a->nr_done; i < a->nr_extents; i++ )` with its preemption
      check and `goto out` on failure, from extent i on; `out:` records
      `nr_done = i`. */
  function RunExtents(start: nat, steps: seq<Step>, i: nat): (p: Progress)
    requires start <= i <= start + |steps|
    requires forall k :: start <= k < i ==> !StopsAt(steps, start, k)
    decreases start + |steps| - i
    ensures FirstStop(p, start, steps)
    ensures p.nrDone >= i
  {
    if i == start + |steps| then Progress(i, false)
    else if i != start && steps[i - start].preempt then Progress(i, true)
    else if !steps[i - start].ok then Progress(i, false)
    else RunExtents(start, steps, i + 1)
  }

  /** The first stop is unique: any two progress records meeting the promise
      for the same answers are the same. */
  lemma {:induction false} FirstStopUnique(p: Progress, q: Progress, start: nat, steps: seq<Step>)
    requires FirstStop(p, start, steps) && FirstStop(q, start, steps)
    ensures p == q
  {
    if p.nrDone < q.nrDone {
      assert false;
    } else if q.nrDone < p.nrDone {
      assert false;
    }
  }

  /** A preempted loop has always done at least one extent, so each
      continuation resumes strictly further on. */
  lemma PreemptedAfterProgress(p: Progress, start: nat, steps: seq<Step>)
    requires FirstStop(p, start, steps) && p.preempted
    ensures start < p.nrDone < start + |steps|
  {
  }

  /** `increase_reservation`. `handleOk` is whether the extent list is null
      or its remaining range is accessible; `maxOrder` is
      `max_order(current->domain)`. A refused call leaves `nr_done` at the
      resume point. */
  function IncreaseReservation(a: MemopArgs, start: nat, handleOk: bool, maxOrder: nat, steps: seq<Step>): (p: Progress)
    requires start + |steps| == a.nrExtents
    ensures !handleOk || a.extentOrder > maxOrder ==> p == Progress(start, false)
    ensures handleOk && a.extentOrder <= maxOrder ==> FirstStop(p, start, steps)
  {
    if !handleOk || a.extentOrder > maxOrder then Progress(start, false)
    else RunExtents(start, steps, start)
  }

  /** Whether the internal flags ask for populate-on-demand. */
  predicate PopulateOnDemand(a: MemopArgs) {
    a.memflags & MemfPopulateOnDemand != 0
  }

  /** The answers `populate_physmap` sees: populate-on-demand on the calling
      domain itself fails every extent. */
  function PopulateSteps(a: MemopArgs, selfTarget: bool, steps: seq<Step>): (s: seq<Step>)
    ensures |s| == |steps|
    ensures forall k :: 0 <= k < |s| ==> s[k].preempt == steps[k].preempt
    ensures forall k :: 0 <= k < |s| ==>
      (s[k].ok <==> steps[k].ok && !(PopulateOnDemand(a) && selfTarget))
  {
    if PopulateOnDemand(a) && selfTarget then seq(|steps|, k requires 0 <= k < |steps| => Step(steps[k].preempt, false))
    else steps
  }

  /** `populate_physmap`: the order limit is `MAX_ORDER` for
      populate-on-demand and `max_order(current->domain)` otherwise.
      `selfTarget` is whether the target is the calling domain. */
  function PopulatePhysmap(a: MemopArgs, start: nat, handleOk: bool, maxOrder: nat, selfTarget: bool, steps: seq<Step>): (p: Progress)
    requires start + |steps| == a.nrExtents
    ensures var limit := if PopulateOnDemand(a) then MaxOrderLimit else maxOrder;
      (!handleOk || a.extentOrder > limit ==> p == Progress(start, false))
      && (handleOk && a.extentOrder <= limit ==> FirstStop(p, start, PopulateSteps(a, selfTarget, steps)))
    ensures PopulateOnDemand(a) && selfTarget ==> p == Progress(start, false)
  {
    var limit := if PopulateOnDemand(a) then MaxOrderLimit else maxOrder;
    if !handleOk || a.extentOrder > limit then Progress(start, false)
    else
      var s := PopulateSteps(a, selfTarget, steps);
      assert PopulateOnDemand(a) && selfTarget && |s| > 0 ==> StopsAt(s, start, start);
      RunExtents(start, s, start)
  }

  // `decrease_reservation` and its populate-on-demand accounting.

  /** The result of `guest_remove_page` for one page: 0, `-ENOENT` (nothing
      mapped there), or any other error. */
  datatype Removal = Removed | Missing | Failed

  /** One extent of `decrease_reservation`: the preemption check, whether
      the guest frame number could be read, how many pages
      `p2m_pod_decrease_reservation` took care of (0 for a non-HVM domain),
      and one removal answer per page of the extent. */
  datatype DecreaseStep = DecreaseStep(preempt: bool, copyOk: bool, podDone: nat, removals: seq<Removal>)

  /** Every extent's answers cover its 2^order pages. */
  predicate Shaped(ds: seq<DecreaseStep>, order: nat) {
    forall k :: 0 <= k < |ds| ==> |ds[k].removals| == Pow2(order)
  }

  /** The page loop `for ( j = 0; j + pod_done < (1UL << order); j++ )` as
      written, from page j on: the `if` without braces governs only the
      diagnostic, so the `goto out` after it runs on every `-ENOENT` and the
      decrement after it is never reached. The extent succeeds iff every
      page the loop visits was removed. */
  function RemoveAsWritten(rs: seq<Removal>, j: nat, pod: nat): (r: bool)
    decreases |rs| - j
    ensures r <==> forall k :: j <= k < |rs| - pod ==> rs[k] == Removed
  {
    if j + pod >= |rs| then true
    else if rs[j] == Removed then RemoveAsWritten(rs, j + 1, pod)
    else false
  }

  /** The page loop as its comment describes it: `-ENOENT` is expected
      exactly `pod_done` times, each one consumed by the decrement (which
      also lets the loop run one page further); one more is an error. */
  function RemoveCorrected(rs: seq<Removal>, j: nat, pod: nat): (r: bool)
    decreases |rs| - j
    ensures (forall k :: j <= k < |rs| - pod ==> rs[k] == Removed) ==> r
  {
    if j + pod >= |rs| then true
    else match rs[j]
      case Removed => RemoveCorrected(rs, j + 1, pod)
      case Missing => pod > 0 && RemoveCorrected(rs, j + 1, pod - 1)
      case Failed => false
  }

  /** The number of `-ENOENT` answers from page j on. */
  function CountMissing(rs: seq<Removal>, j: nat): (n: nat)
    decreases |rs| - j
    ensures n <= |rs| - j || j > |rs|
  {
    if j >= |rs| then 0
    else (if rs[j] == Missing then 1 else 0) + CountMissing(rs, j + 1)
  }

  /** Where no removal fails outright, the corrected loop accepts an extent
      exactly when populate-on-demand accounts for every `-ENOENT`. */
  lemma {:induction false} CorrectedExpectsPodDone(rs: seq<Removal>, j: nat, pod: nat)
    requires j <= |rs|
    requires forall k :: j <= k < |rs| ==> rs[k] != Failed
    decreases |rs| - j
    ensures RemoveCorrected(rs, j, pod) <==> CountMissing(rs, j) <= pod
  {
    if j + pod >= |rs| {
    } else if rs[j] == Removed {
      CorrectedExpectsPodDone(rs, j + 1, pod);
    } else if pod > 0 {
      CorrectedExpectsPodDone(rs, j + 1, pod - 1);
    }
  }

  /** Without populate-on-demand (`pod_done` 0, every non-HVM domain) the
      two loops agree. */
  lemma {:induction false} NoPodLoopsAgree(rs: seq<Removal>, j: nat)
    decreases |rs| - j
    ensures RemoveAsWritten(rs, j, 0) == RemoveCorrected(rs, j, 0)
  {
    if j < |rs| && rs[j] == Removed {
      NoPodLoopsAgree(rs, j + 1);
    }
  }

  /** The answers a decrease loop sees, with the given page loop. */
  function DecreaseStepsAsWritten(ds: seq<DecreaseStep>): (s: seq<Step>)
    ensures |s| == |ds|
    ensures forall k :: 0 <= k < |s| ==> (s[k].preempt == ds[k].preempt
      && (s[k].ok <==> ds[k].copyOk && RemoveAsWritten(ds[k].removals, 0, ds[k].podDone)))
  {
    seq(|ds|, k requires 0 <= k < |ds| => Step(ds[k].preempt, ds[k].copyOk && RemoveAsWritten(ds[k].removals, 0, ds[k].podDone)))
  }

  function DecreaseStepsCorrected(ds: seq<DecreaseStep>): (s: seq<Step>)
    ensures |s| == |ds|
    ensures forall k :: 0 <= k < |s| ==> (s[k].preempt == ds[k].preempt
      && (s[k].ok <==> ds[k].copyOk && RemoveCorrected(ds[k].removals, 0, ds[k].podDone)))
  {
    seq(|ds|, k requires 0 <= k < |ds| => Step(ds[k].preempt, ds[k].copyOk && RemoveCorrected(ds[k].removals, 0, ds[k].podDone)))
  }

  /** `decrease_reservation` as written: refused (nothing done) unless the
      list range is accessible and the order is within
      `max_order(current->domain)`. */
  function DecreaseReservationAsWritten(a: MemopArgs, start: nat, handleOk: bool, maxOrder: nat, ds: seq<DecreaseStep>): (p: Progress)
    requires start + |ds| == a.nrExtents && Shaped(ds, a.extentOrder)
    ensures !handleOk || a.extentOrder > maxOrder ==> p == Progress(start, false)
    ensures handleOk && a.extentOrder <= maxOrder ==> FirstStop(p, start, DecreaseStepsAsWritten(ds))
  {
    if !handleOk || a.extentOrder > maxOrder then Progress(start, false)
    else RunExtents(start, DecreaseStepsAsWritten(ds), start)
  }

  /** `decrease_reservation` with the decrement reachable. */
  function DecreaseReservation(a: MemopArgs, start: nat, handleOk: bool, maxOrder: nat, ds: seq<DecreaseStep>): (p: Progress)
    requires start + |ds| == a.nrExtents && Shaped(ds, a.extentOrder)
    ensures !handleOk || a.extentOrder > maxOrder ==> p == Progress(start, false)
    ensures handleOk && a.extentOrder <= maxOrder ==> FirstStop(p, start, DecreaseStepsCorrected(ds))
  {
    if !handleOk || a.extentOrder > maxOrder then Progress(start, false)
    else RunExtents(start, DecreaseStepsCorrected(ds), start)
  }

  /** An extent of two pages, one of which populate-on-demand already
      released: the loop as written gives up on it (`nr_done` stays at the
      resume point, so the guest sees the extent as not released), the
      corrected loop releases it. */
  lemma PodExtentAbandoned()
    ensures var a := MemopArgs(1, 1, 0);
      var ds := [DecreaseStep(false, true, 1, [Missing, Removed])];
      && DecreaseReservationAsWritten(a, 0, true, 9, ds) == Progress(0, false)
      && DecreaseReservation(a, 0, true, 9, ds) == Progress(1, false)
  {
    var ds := [DecreaseStep(false, true, 1, [Missing, Removed])];
    assert Pow2(1) == 2;
    assert !RemoveAsWritten(ds[0].removals, 0, 1);
    assert RemoveCorrected([Missing, Removed], 1, 0);
    assert RemoveCorrected(ds[0].removals, 0, 1);
    var a := MemopArgs(1, 1, 0);
    FirstStopUnique(DecreaseReservationAsWritten(a, 0, true, 9, ds), Progress(0, false), 0, DecreaseStepsAsWritten(ds));
    FirstStopUnique(DecreaseReservation(a, 0, true, 9, ds), Progress(1, false), 0, DecreaseStepsCorrected(ds));
  }

  /** For a domain without populate-on-demand the finding changes nothing. */
  lemma NoPodDecreasesAgree(a: MemopArgs, start: nat, handleOk: bool, maxOrder: nat, ds: seq<DecreaseStep>)
    requires start + |ds| == a.nrExtents && Shaped(ds, a.extentOrder)
    requires forall k :: 0 <= k < |ds| ==> ds[k].podDone == 0
    ensures DecreaseReservationAsWritten(a, start, handleOk, maxOrder, ds) == DecreaseReservation(a, start, handleOk, maxOrder, ds)
  {
    forall k | 0 <= k < |ds|
      ensures RemoveAsWritten(ds[k].removals, 0, 0) == RemoveCorrected(ds[k].removals, 0, 0)
    {
      NoPodLoopsAgree(ds[k].removals, 0);
    }
    assert DecreaseStepsAsWritten(ds) == DecreaseStepsCorrected(ds);
  }

  // The reservation case of `do_memory_op`.

  /** What `do_memory_op` hands back: a value, or a continuation that
      re-issues the call with the given command word. */
  datatype Outcome = Returned(rc: int) | Continued(cmd: nat)

  /** The outside world's answers to one reservation call: the copied
      request (`None` when the copy faults), whether the target domain
      exists, what `construct_memop_from_reservation` needs, the XSM verdict,
      the extent-list range check, `max_order(current->domain)`, whether
      the target is the caller, and the per-extent answers of the loops. */
  datatype World = World(
    copied: Option<Reservation>,
    domainFound: bool,
    addrLimit: nat,
    vnuma: Vnuma,
    privileged: bool,
    xsmOk: bool,
    handleOk: bool,
    maxOrder: nat,
    selfTarget: bool,
    steps: seq<Step>,
    releases: seq<DecreaseStep>)

  /** The answers cover exactly the extents from the resume point on. */
  predicate Covers(w: World, start: nat) {
    w.copied.Some? && start <= w.copied.value.nrExtents ==>
      && start + |w.steps| == w.copied.value.nrExtents
      && start + |w.releases| == w.copied.value.nrExtents
      && Shaped(w.releases, w.copied.value.extentOrder)
  }

  /** Whether the call gets as far as an extent loop. */
  predicate Admitted(cmd: nat, w: World)
    requires cmd < U64
  {
    var start := DecodeCmd(cmd).startExtent;
    && w.copied.Some?
    && w.copied.value.nrExtents <= MaxEncodable
    && start < w.copied.value.nrExtents
    && w.domainFound
    && ConstructMemop(w.copied.value, w.addrLimit, w.vnuma, w.privileged).Ok?
    && w.xsmOk
  }

  /** The reservation case of `do_memory_op` for
      `XENMEM_increase_reservation`, `XENMEM_decrease_reservation` and
      `XENMEM_populate_physmap`. Every refusal returns the resume point
      unchanged; a populate request with `XENMEMF_populate_on_demand` gets
      `MEMF_populate_on_demand`; a preempted loop becomes a continuation
      carrying `nr_done`, anything else returns `nr_done`. With `asWritten`
      a decrease runs the loop as the C writes it, otherwise the corrected
      one; the contract holds for both. */
  function ReservationOp(cmd: nat, w: World, asWritten: bool): (r: Outcome)
    requires cmd < U64
    requires DecodeCmd(cmd).op in {OpIncrease, OpDecrease, OpPopulate}
    requires Covers(w, DecodeCmd(cmd).startExtent)
    ensures var c := DecodeCmd(cmd);
      !Admitted(cmd, w) ==> r == Returned(c.startExtent)
    ensures var c := DecodeCmd(cmd);
      r.Returned? ==> r.rc >= c.startExtent && (Admitted(cmd, w) ==> r.rc <= w.copied.value.nrExtents)
    ensures var c := DecodeCmd(cmd);
      r.Continued? ==>
        && Admitted(cmd, w)
        && r.cmd < U64
        && DecodeCmd(r.cmd).op == c.op
        && c.startExtent < DecodeCmd(r.cmd).startExtent < w.copied.value.nrExtents
  {
    var c := DecodeCmd(cmd);
    var start := c.startExtent;
    if !Admitted(cmd, w) then Returned(start)
    else
      var res := w.copied.value;
      var a0 := ConstructMemop(res, w.addrLimit, w.vnuma, w.privileged).value;
      var a := if c.op == OpPopulate && res.memFlags & XenPopulateOnDemand != 0
               then a0.(memflags := a0.memflags | MemfPopulateOnDemand) else a0;
      var p :=
        if c.op == OpIncrease then IncreaseReservation(a, start, w.handleOk, w.maxOrder, w.steps)
        else if c.op == OpDecrease then
          if asWritten then DecreaseReservationAsWritten(a, start, w.handleOk, w.maxOrder, w.releases)
          else DecreaseReservation(a, start, w.handleOk, w.maxOrder, w.releases)
        else PopulatePhysmap(a, start, w.handleOk, w.maxOrder, w.selfTarget, w.steps);
      if p.preempted then
        Resume(c.op, start, p.nrDone, res.nrExtents)
      else Returned(p.nrDone)
  }

  /** The continuation for a preempted loop, and the facts about it. */
  function Resume(op: nat, start: nat, nrDone: nat, nr: nat): (r: Outcome)
    requires op < ExtentUnit && start < nrDone < nr <= MaxEncodable
    ensures r.Continued? && r.cmd < U64
    ensures DecodeCmd(r.cmd) == Cmd(op, nrDone)
  {
    CmdRoundTrip(op, nrDone);
    Continued(EncodeCmd(op, nrDone))
  }

  /** A chain of continuations ends: each one resumes strictly further on,
      and never beyond the extent count, so at most `nr_extents` calls are
      made for one request. */
  lemma ContinuationsEnd(cmd: nat, w: World, asWritten: bool)
    requires cmd < U64
    requires DecodeCmd(cmd).op in {OpIncrease, OpDecrease, OpPopulate}
    requires Covers(w, DecodeCmd(cmd).startExtent)
    requires ReservationOp(cmd, w, asWritten).Continued?
    ensures var next := DecodeCmd(ReservationOp(cmd, w, asWritten).cmd);
      w.copied.value.nrExtents - next.startExtent < w.copied.value.nrExtents - DecodeCmd(cmd).startExtent
  {
  }

  /** The unreachable decrement matters only for populate-on-demand: when
      no extent had pages released by it, the call as written and the
      corrected call answer alike. */
  lemma ReservationOpsAgreeWithoutPod(cmd: nat, w: World)
    requires cmd < U64
    requires DecodeCmd(cmd).op in {OpIncrease, OpDecrease, OpPopulate}
    requires Covers(w, DecodeCmd(cmd).startExtent)
    requires forall k :: 0 <= k < |w.releases| ==> w.releases[k].podDone == 0
    ensures ReservationOp(cmd, w, true) == ReservationOp(cmd, w, false)
  {
    var c := DecodeCmd(cmd);
    if Admitted(cmd, w) && c.op == OpDecrease {
      var res := w.copied.value;
      var a := ConstructMemop(res, w.addrLimit, w.vnuma, w.privileged).value;
      NoPodDecreasesAgree(a, c.startExtent, w.handleOk, w.maxOrder, w.releases);
    }
  }

  /** A preempted-free decrease of one two-page extent, one page of which
      populate-on-demand released: the call as written reports nothing
      released, the corrected call the extent. */
  lemma PodDecreaseReported(w: World)
    requires w.copied == Some(Reservation(1, 1, 0, 0)) && w.domainFound && w.xsmOk
    requires w.handleOk && w.maxOrder >= 1
    requires |w.steps| == 1 && w.releases == [DecreaseStep(false, true, 1, [Missing, Removed])]
    ensures ReservationOp(EncodeCmd(OpDecrease, 0), w, true) == Returned(0)
    ensures ReservationOp(EncodeCmd(OpDecrease, 0), w, false) == Returned(1)
  {
  }
}
