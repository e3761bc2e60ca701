/** The front ends that set the balloon target
    (linux-kernel/drivers/xen/xen-balloon.c): the xenstore watches on
    `memory/target` and `numa/node`, and the sysfs attributes `target_kb`
    and `target`. Targets arrive in KiB or bytes and are converted to
    2 MiB huge pages by shifts. Xenstore reads, `memparse` and
    `simple_strtoull` are inputs: their parsed values, or `None` for a
    failed read. The front ends are modelled twice: with the signed node
    comparison that `balloon_set_new_target` is meant to make, and as
    compiled, where the all-node call with node -1 returns at once. */
module TargetWatch {
  import opened Common
  import opened BalloonState
  import opened Targets

  /** KiB per huge page: a shift by `HPAGE_SHIFT + PAGE_SIZE_ADJUST - 10` = 11. */
  const KibPerHuge: nat := 2048
  /** Bytes per huge page: a shift by `HPAGE_SHIFT + PAGE_SIZE_ADJUST` = 21. */
  const BytesPerHuge: nat := 0x20_0000

  /** The static state of `watch_target`: `watch_fired` and `target_diff`. */
  datatype WatchState = WatchState(fired: bool, diff: int)

  datatype Watched = Watched(targeted: Targeted, state: WatchState)

  /** The offset fixed on the first successful watch: 0 for a PV or initial
      domain; otherwise `static-max` (or the new target when it cannot be
      read) minus the global target, in unsigned 64-bit arithmetic, stored
      in a `long`. */
  function TargetDiff(b: Balloon, newTarget: nat, staticMaxKib: Option<nat>, pvOrInitial: bool): (d: int)
    ensures pvOrInitial ==> d == 0
    ensures -(I64Limit as int) <= d < I64Limit
    ensures !pvOrInitial ==>
      var sm := if staticMaxKib.Some? then staticMaxKib.value / KibPerHuge else newTarget;
      (d - (sm - b.global.targetPages)) % U64 == 0
  {
    if pvOrInitial then 0
    else
      var sm := if staticMaxKib.Some? then staticMaxKib.value / KibPerHuge else newTarget;
      DiffCongruent(sm, b.global.targetPages);
      ToLong(Wrap64(sm - Wrap64(b.global.targetPages)))
  }

  /** Wrapping both subtractions keeps the offset congruent to the true
      difference. */
  lemma DiffCongruent(sm: int, tp: int)
    ensures (ToLong(Wrap64(sm - Wrap64(tp))) - (sm - tp)) % U64 == 0
  {
    var w := Wrap64(tp);
    var v := sm - w;
    var d := ToLong(Wrap64(v));
    Wrap64Congruent(tp);
    Wrap64Congruent(v);
    assert (tp - w) % U64 == 0 by {
      DivModUnique(w - tp, U64, (w - tp) / U64, 0);
      DivModUnique(tp - w, U64, -((w - tp) / U64), 0);
    }
    CongruentChain(d, Wrap64(v), v, U64);
    assert v - (sm - tp) == tp - w;
    CongruentChain(d, v, sm - tp, U64);
  }

  /** `watch_target`: a failed read changes nothing. Otherwise the target in
      KiB becomes huge pages, the offset is fixed if this is the first
      time, and the all-node target is set to the new target minus the
      offset, as an unsigned 64-bit value. */
  function WatchTarget(b: Balloon, st: WatchState, readKib: Option<nat>, staticMaxKib: Option<nat>, pvOrInitial: bool): (r: Watched)
    requires WellFormed(b)
    requires readKib.Some? ==> readKib.value < U64
    ensures readKib.None? ==> r == Watched(Targeted(b, false), st)
    ensures readKib.Some? ==>
      && r.state.fired
      && (st.fired ==> r.state == st)
      && (!st.fired ==> r.state.diff == TargetDiff(b, readKib.value / KibPerHuge, staticMaxKib, pvOrInitial))
      && r.targeted.kicked
      && r.targeted.balloon.global.targetPages < U64
      && (r.targeted.balloon.global.targetPages - (readKib.value / KibPerHuge - r.state.diff)) % U64 == 0
      && r.targeted.balloon.pools == b.pools
  {
    match readKib
    case None => Watched(Targeted(b, false), st)
    case Some(kib) =>
      var newTarget := kib / KibPerHuge;
      var st' := FixOffset(b, st, newTarget, staticMaxKib, pvOrInitial);
      var t := Wrap64(newTarget - st'.diff);
      Wrap64Congruent(newTarget - st'.diff);
      Watched(SetNewTarget(b, t, -1), st')
  }

  /** The watch state after a successful read: the offset is fixed on the
      first one and kept afterwards. */
  function FixOffset(b: Balloon, st: WatchState, newTarget: nat, staticMaxKib: Option<nat>, pvOrInitial: bool): (r: WatchState)
    ensures r.fired
    ensures st.fired ==> r == st
  {
    if st.fired then st else WatchState(true, TargetDiff(b, newTarget, staticMaxKib, pvOrInitial))
  }

  /** The point of the offset: on the first watch of an HVM guest whose
      `static-max` equals the target written, the global target stays
      where it was, so later writes move the target relative to the
      maximum the guest booted with. */
  lemma FirstWatchKeepsTarget(b: Balloon, kib: nat)
    requires WellFormed(b) && kib < U64
    requires 0 <= b.global.targetPages < U64
    ensures var r := WatchTarget(b, WatchState(false, 0), Some(kib), Some(kib), false);
      r.targeted.balloon.global.targetPages == b.global.targetPages
  {
    var sm := kib / KibPerHuge;
    var tp := b.global.targetPages;
    var d := TargetDiff(b, sm, Some(kib), false);
    assert d == ToLong(Wrap64(sm - tp));
    if sm >= tp {
      assert d == sm - tp;
    } else {
      var w := sm - tp + U64;
      DivModUnique(sm - tp, U64, -1, w);
      DivModUnique(w, U64, 0, w);
      if w < I64Limit {
        assert d == w;
        DivModUnique(tp - U64, U64, -1, tp);
      } else {
        assert d == sm - tp;
      }
    }
  }

  /** For a PV or initial domain the offset is 0 and every write sets the
      target in huge pages exactly. */
  lemma PvWatchSetsTarget(b: Balloon, st: WatchState, kib: nat, staticMaxKib: Option<nat>)
    requires WellFormed(b) && kib < U64
    requires st.fired ==> st.diff == 0
    ensures var r := WatchTarget(b, st, Some(kib), staticMaxKib, true);
      r.targeted.balloon.global.targetPages == kib / KibPerHuge
  {
  }

  /** Once fixed, the offset stays: two later writes move the target by
      exactly their difference, as long as nothing wraps. */
  lemma LaterWatchesKeepOffset(b: Balloon, st: WatchState, kib1: nat, kib2: nat)
    requires WellFormed(b) && kib1 < U64 && kib2 < U64
    requires st.fired && 0 <= st.diff <= kib1 / KibPerHuge && st.diff <= kib2 / KibPerHuge
    ensures var t1 := WatchTarget(b, st, Some(kib1), None, false).targeted.balloon.global.targetPages;
      var t2 := WatchTarget(b, st, Some(kib2), None, false).targeted.balloon.global.targetPages;
      t2 - t1 == kib2 / KibPerHuge - kib1 / KibPerHuge
  {
  }

  /** The static state of `watch_node_target`: whether `num_nodes` was fixed,
      and its value. */
  datatype NodeWatchState = NodeWatchState(fired: bool, numNodes: nat)

  /** How many nodes the watch walks: the online nodes counted on the first
      call, then that count for good. */
  function WalkedNodes(st: NodeWatchState, online: nat): (n: nat)
    ensures st.fired ==> n == st.numNodes
    ensures !st.fired ==> n == online
  {
    if st.fired then st.numNodes else online
  }

  /** `watch_node_target`: for each walked node i whose key
      `numa/node/<i>/target` reads successfully, set node i's target to the
      value in huge pages. Walked nodes beyond the balloon's nodes change
      nothing; the global record and the lists never change. */
  method WatchNodeTarget(b: Balloon, st: NodeWatchState, online: nat, readsKib: seq<Option<nat>>)
    returns (r: Targeted, st': NodeWatchState)
    requires WellFormed(b) && |readsKib| == WalkedNodes(st, online)
    ensures st' == NodeWatchState(true, WalkedNodes(st, online))
    ensures WellFormed(r.balloon) && NumNodes(r.balloon) == NumNodes(b)
    ensures r.balloon.global == b.global && r.balloon.pools == b.pools
    ensures forall n :: 0 <= n < NumNodes(b) ==>
      r.balloon.nodes[n] == if n < |readsKib| && readsKib[n].Some?
                           then b.nodes[n].(targetPages := readsKib[n].value / KibPerHuge)
                           else b.nodes[n]
    ensures r.kicked <==> exists n :: 0 <= n < |readsKib| && n < NumNodes(b) && readsKib[n].Some?
  {
    st' := NodeWatchState(true, WalkedNodes(st, online));
    var cur := b;
    var kicked := false;
    var i := 0;
    while i < |readsKib|
      invariant i <= |readsKib|
      invariant WellFormed(cur) && NumNodes(cur) == NumNodes(b)
      invariant cur.global == b.global && cur.pools == b.pools
      invariant forall n :: 0 <= n < NumNodes(b) ==>
        cur.nodes[n] == if n < i && readsKib[n].Some?
                        then b.nodes[n].(targetPages := readsKib[n].value / KibPerHuge)
                        else b.nodes[n]
      invariant kicked <==> exists n :: 0 <= n < i && n < NumNodes(b) && readsKib[n].Some?
    {
      if readsKib[i].Some? {
        var t := SetNewTarget(cur, readsKib[i].value / KibPerHuge, i);
        cur := t.balloon;
        kicked := kicked || t.kicked;
      }
      i := i + 1;
    }
    r := Targeted(cur, kicked);
  }

  /** `PAGES2KB(p)` on an `unsigned long`. */
  function PagesToKib(p: int): (r: nat)
    ensures r < U64
    ensures 0 <= p && p * KibPerHuge < U64 ==> r == p * KibPerHuge
  {
    Wrap64(Wrap64(p) * KibPerHuge)
  }

  /** The result of a sysfs store: the balloon, and the return value
      (`count`, or a negated errno). */
  datatype Stored = Stored(balloon: Balloon, ret: int)

  /** `show_target_kb`: the global target in KiB, `PAGES2KB` of it. */
  function ShowTargetKib(b: Balloon): (r: nat)
    ensures r < U64 && r % KibPerHuge == 0
    ensures r == Wrap64(Wrap64(b.global.targetPages) * KibPerHuge)
    ensures 0 <= b.global.targetPages && b.global.targetPages * KibPerHuge < U64 ==>
      r == b.global.targetPages * KibPerHuge
  {
    var w := Wrap64(b.global.targetPages);
    ShowWrapMultiple(w, KibPerHuge, 0x20_0000_0000_0000);
    PagesToKib(b.global.targetPages)
  }

  /** `store_target_kb`: without `CAP_SYS_ADMIN`, -EPERM and nothing
      changes. Otherwise the parsed KiB count is turned into bytes
      (an `unsigned long long` product) and then into huge pages, which
      becomes the all-node target; the call returns `count`. */
  function StoreTargetKib(b: Balloon, capable: bool, kib: nat, count: nat): (r: Stored)
    requires WellFormed(b) && kib < U64
    ensures !capable ==> r == Stored(b, -(EPERM as int))
    ensures capable ==>
      && r.ret == count
      && r.balloon == SetNewTarget(b, (kib % 0x40_0000_0000_0000) / KibPerHuge, -1).balloon
  {
    if !capable then Stored(b, -(EPERM as int))
    else
      var bytes := Wrap64(kib * 1024);
      KibBytesWrap(kib);
      Stored(SetNewTarget(b, bytes / BytesPerHuge, -1).balloon, count)
  }

  /** `kib * 1024` as an unsigned 64-bit value keeps only the low 54 bits
      of kib; the byte count then holds a whole number of huge pages
      exactly when the KiB count does. */
  lemma KibBytesWrap(kib: nat)
    ensures Wrap64(kib * 1024) == (kib % 0x40_0000_0000_0000) * 1024
    ensures Wrap64(kib * 1024) / BytesPerHuge == (kib % 0x40_0000_0000_0000) / KibPerHuge
  {
    var m := 0x40_0000_0000_0000;
    var q := kib / m;
    var r := kib % m;
    assert kib == q * m + r;
    assert kib * 1024 == q * U64 + r * 1024;
    assert r * 1024 < U64;
    ModAddMultiple(r * 1024, q, U64);
    var h := r / KibPerHuge;
    assert r == h * KibPerHuge + r % KibPerHuge;
    assert r * 1024 == h * BytesPerHuge + (r % KibPerHuge) * 1024;
    DivOfSum(h, (r % KibPerHuge) * 1024, BytesPerHuge);
  }

  lemma ModAddMultiple(x: nat, q: nat, m: nat)
    requires 0 < m && x < m
    ensures (q * m + x) % m == x
  {
    DivModUnique(q * m + x, m, q, x);
  }

  lemma DivOfSum(h: nat, rest: nat, d: nat)
    requires 0 < d && rest < d
    ensures (h * d + rest) / d == h
  {
    DivModUnique(h * d + rest, d, h, rest);
  }

  /** A value below 2^64 times a power-of-two unit, taken modulo 2^64, is
      still a multiple of that unit. */
  lemma ShowWrapMultiple(w: nat, unit: nat, units: nat)
    requires unit > 0 && unit * units == U64
    ensures Wrap64(w * unit) % unit == 0
  {
    var q := w / units;
    var r := w % units;
    assert w == q * units + r;
    calc {
      w * unit;
      (q * units + r) * unit;
      q * (units * unit) + r * unit;
      q * U64 + r * unit;
    }
    assert r * unit < U64 by {
      MulAtLeast(units - r, unit);
      assert (units - r) * unit == U64 - r * unit;
    }
    ModAddMultiple(r * unit, q, U64);
    DivModUnique(r * unit, unit, r, 0);
  }

  /** Round trip through `target_kb`: storing a KiB count and showing it
      gives the count rounded down to a whole huge page (of its low 54
      bits, which is all the byte product keeps), exactly the count when it
      is a multiple of 2048 below 2^54. */
  lemma StoreThenShowKib(b: Balloon, kib: nat, count: nat)
    requires WellFormed(b) && kib < U64
    ensures var shown := ShowTargetKib(StoreTargetKib(b, true, kib, count).balloon);
      var low := kib % 0x40_0000_0000_0000;
      && shown == low - low % KibPerHuge
      && (kib < 0x40_0000_0000_0000 && kib % KibPerHuge == 0 ==> shown == kib)
  {
    var low := kib % 0x40_0000_0000_0000;
    var t := low / KibPerHuge;
    assert low == t * KibPerHuge + low % KibPerHuge;
  }

  /** `show_target`: the global target in bytes, an `unsigned long long`
      shift. */
  function ShowTarget(b: Balloon): (r: nat)
    ensures r < U64 && r % BytesPerHuge == 0
    ensures r == Wrap64(Wrap64(b.global.targetPages) * BytesPerHuge)
    ensures 0 <= b.global.targetPages && b.global.targetPages * BytesPerHuge < U64 ==>
      r == b.global.targetPages * BytesPerHuge
  {
    var w := Wrap64(b.global.targetPages);
    ShowWrapMultiple(w, BytesPerHuge, 0x800_0000_0000);
    Wrap64(w * BytesPerHuge)
  }

  /** `store_target`: like `store_target_kb`, with the value already in
      bytes (as `memparse` reads it). */
  function StoreTarget(b: Balloon, capable: bool, bytes: nat, count: nat): (r: Stored)
    requires WellFormed(b) && bytes < U64
    ensures !capable ==> r == Stored(b, -(EPERM as int))
    ensures capable ==>
      && r.ret == count
      && r.balloon.global.targetPages * BytesPerHuge <= bytes < (r.balloon.global.targetPages + 1) * BytesPerHuge
      && r.balloon == SetNewTarget(b, r.balloon.global.targetPages, -1).balloon
  {
    if !capable then Stored(b, -(EPERM as int))
    else Stored(SetNewTarget(b, bytes / BytesPerHuge, -1).balloon, count)
  }

  /** Round trip through `target`: storing a byte count and showing it
      gives the count rounded down to a whole huge page, exactly the count
      when it is a multiple of 2 MiB. */
  lemma StoreThenShow(b: Balloon, bytes: nat, count: nat)
    requires WellFormed(b) && bytes < U64
    ensures var shown := ShowTarget(StoreTarget(b, true, bytes, count).balloon);
      && shown == bytes - bytes % BytesPerHuge
      && (bytes % BytesPerHuge == 0 ==> shown == bytes)
  {
    var t := bytes / BytesPerHuge;
    assert bytes == t * BytesPerHuge + bytes % BytesPerHuge;
  }

  /** A store without the capability leaves the shown targets alone. */
  lemma UncapableStoreChangesNothing(b: Balloon, kib: nat, bytes: nat, count: nat)
    requires WellFormed(b) && kib < U64 && bytes < U64
    ensures ShowTargetKib(StoreTargetKib(b, false, kib, count).balloon) == ShowTargetKib(b)
    ensures ShowTarget(StoreTarget(b, false, bytes, count).balloon) == ShowTarget(b)
    ensures StoreTargetKib(b, false, kib, count).ret < 0 && StoreTarget(b, false, bytes, count).ret < 0
  {
  }

  // The front ends as compiled. `balloon_set_new_target` compares the node
  // with the `unsigned int` `num_nodes`, so the node -1 that every front end
  // passes becomes `UINT_MAX` and the call returns before storing anything.

  /** `watch_target` as compiled: the offset is fixed as intended, but the
      balloon stays as it was and the worker is not queued. */
  function WatchTargetAsWritten(b: Balloon, st: WatchState, readKib: Option<nat>, staticMaxKib: Option<nat>, pvOrInitial: bool): (r: Watched)
    requires WellFormed(b) && NumNodes(b) < U32
    requires readKib.Some? ==> readKib.value < U64
    ensures r.targeted == Targeted(b, false)
    ensures r.state == WatchTarget(b, st, readKib, staticMaxKib, pvOrInitial).state
  {
    match readKib
    case None => Watched(Targeted(b, false), st)
    case Some(kib) =>
      var newTarget := kib / KibPerHuge;
      var st' := FixOffset(b, st, newTarget, staticMaxKib, pvOrInitial);
      Watched(SetNewTargetAsWritten(b, Wrap64(newTarget - st'.diff), -1), st')
  }

  /** `store_target_kb` as compiled: -EPERM without the capability,
      otherwise `count` with the balloon unchanged. */
  function StoreTargetKibAsWritten(b: Balloon, capable: bool, kib: nat, count: nat): (r: Stored)
    requires WellFormed(b) && NumNodes(b) < U32 && kib < U64
    ensures !capable ==> r == StoreTargetKib(b, false, kib, count)
    ensures capable ==> r == Stored(b, count)
  {
    if !capable then Stored(b, -(EPERM as int))
    else
      var bytes := Wrap64(kib * 1024);
      Stored(SetNewTargetAsWritten(b, bytes / BytesPerHuge, -1).balloon, count)
  }

  /** `store_target` as compiled: -EPERM without the capability,
      otherwise `count` with the balloon unchanged. */
  function StoreTargetAsWritten(b: Balloon, capable: bool, bytes: nat, count: nat): (r: Stored)
    requires WellFormed(b) && NumNodes(b) < U32 && bytes < U64
    ensures !capable ==> r == StoreTarget(b, false, bytes, count)
    ensures capable ==> r == Stored(b, count)
  {
    if !capable then Stored(b, -(EPERM as int))
    else Stored(SetNewTargetAsWritten(b, bytes / BytesPerHuge, -1).balloon, count)
  }

  /** As compiled, both sysfs round trips show the old target whatever
      was stored, while the signed comparison shows the stored one: a
      store of whole huge pages that differs from the current target is
      lost. */
  lemma {:induction false} StoreIgnoredAsWritten(b: Balloon, kib: nat, bytes: nat, count: nat)
    requires WellFormed(b) && NumNodes(b) < U32 && kib < U64 && bytes < U64
    requires 0 <= b.global.targetPages < U64
    ensures ShowTargetKib(StoreTargetKibAsWritten(b, true, kib, count).balloon) == ShowTargetKib(b)
    ensures ShowTarget(StoreTargetAsWritten(b, true, bytes, count).balloon) == ShowTarget(b)
    ensures kib < 0x40_0000_0000_0000 && kib % KibPerHuge == 0 && kib != ShowTargetKib(b) ==>
      ShowTargetKib(StoreTargetKib(b, true, kib, count).balloon) != ShowTargetKib(StoreTargetKibAsWritten(b, true, kib, count).balloon)
    ensures bytes % BytesPerHuge == 0 && bytes != ShowTarget(b) ==>
      ShowTarget(StoreTarget(b, true, bytes, count).balloon) != ShowTarget(StoreTargetAsWritten(b, true, bytes, count).balloon)
  {
    StoreThenShowKib(b, kib, count);
    StoreThenShow(b, bytes, count);
  }

  /** As compiled, a PV guest's watch never moves the target, where the
      signed comparison sets it to the value written. */
  lemma PvWatchIgnoredAsWritten(b: Balloon, st: WatchState, kib: nat, staticMaxKib: Option<nat>)
    requires WellFormed(b) && NumNodes(b) < U32 && kib < U64
    requires st.fired ==> st.diff == 0
    requires b.global.targetPages != kib / KibPerHuge
    ensures WatchTargetAsWritten(b, st, Some(kib), staticMaxKib, true).targeted.balloon.global.targetPages
              != WatchTarget(b, st, Some(kib), staticMaxKib, true).targeted.balloon.global.targetPages
  {
    PvWatchSetsTarget(b, st, kib, staticMaxKib);
  }
}
