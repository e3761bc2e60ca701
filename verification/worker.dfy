/** One run of the worker `balloon_process`
    (linux-kernel/drivers/xen/balloon.c, lines 828-994): read the topology
    key, sweep every node, then either queue a delayed rerun or, when every
    node is settled, finish any topology change. The run is modelled with
    the corrected topology bookkeeping and as written; the disabled
    page-range migrations have no effect. */
module Worker {
  import opened Common
  import opened BalloonState
  import opened Process
  import opened Topology

  /** The outside world for one run: a script of responses per node, the
      two reads of `numa/topo_change` and whether clearing it succeeds. */
  datatype World = World(scripts: seq<seq<Response>>, hotplug: bool,
                         topoRead: Option<int>, finishRead: Option<int>, writeOk: bool)

  /** The result of a run: the balloon, each node's final state, the
      `again_nodes` marks, the delay in seconds of a queued rerun (none when
      the next wakeup is a normal one), `topo_version`, and whether the
      topology key was cleared. `RunHalted` is a `BUG_ON`; `RunPastEnd` is
      the read of `nodes_action[num_nodes]`, one past the array. */
  datatype Run = Run(balloon: Balloon, states: seq<BpState>, again: seq<bool>,
                     rerunDelay: Option<nat>, version: nat, cleared: bool)
               | RunHalted
               | RunPastEnd

  method BalloonProcess(b: Balloon, w: World, version: nat) returns (r: Run)
    requires WellFormed(b) && |w.scripts| == NumNodes(b)
    ensures r.Run? ==>
      && WellFormed(r.balloon) && NumNodes(r.balloon) == NumNodes(b)
      && |r.states| == NumNodes(b) && r.again == Again(r.states)
      && (r.rerunDelay.Some? <==> exists i :: 0 <= i < NumNodes(b) && r.states[i] == EAgain)
      && (r.rerunDelay.Some? ==> r.rerunDelay.value == r.balloon.global.scheduleDelay && !r.cleared)
      && version <= r.version <= version + 1
      && (r.version == version + 1 <==> w.topoRead == Some(TopoRemove) || r.cleared)
      && (r.cleared ==> w.finishRead.Some? && w.finishRead.value > 0 && w.writeOk)
    ensures r.Run? && Consistent(b) ==>
      && Consistent(r.balloon)
      && forall i :: 0 <= i < NumNodes(b) ==> (r.states[i] == Done <==> Credit(r.balloon, i) == 0)
  {
    var start := StartCorrected(w.topoRead, version);
    var sweep := Sweep(b, w.scripts, w.hotplug);
    if sweep.SweepHalted? {
      return RunHalted;
    }
    var again := Again(sweep.states);
    CorrectedCountsOnce(w.topoRead, w.finishRead, w.writeOk, version);
    if NeedsRescan(again) {
      return Run(sweep.balloon, sweep.states, again, Some(sweep.balloon.global.scheduleDelay), start.version, false);
    }
    var fin := FinishCorrected(w.finishRead, w.writeOk, start.topoChange, start.version);
    return Run(sweep.balloon, sweep.states, again, None, fin.version, fin.cleared);
  }

  /** `balloon_process` as written. The removal test at the start reads the
      variable the key was read into, which after a failed read still holds
      `stale`; and a settled sweep whose second read of the key is positive
      walks `nodes_action` one entry too far before it can clear the key. So
      a run that returns never clears the key, and its version is the one
      the start gave. */
  method BalloonProcessAsWritten(b: Balloon, w: World, version: nat, stale: int) returns (r: Run)
    requires WellFormed(b) && |w.scripts| == NumNodes(b)
    ensures r.Run? ==>
      && WellFormed(r.balloon) && NumNodes(r.balloon) == NumNodes(b)
      && |r.states| == NumNodes(b) && r.again == Again(r.states)
      && (r.rerunDelay.Some? <==> exists i :: 0 <= i < NumNodes(b) && r.states[i] == EAgain)
      && (r.rerunDelay.Some? ==> r.rerunDelay.value == r.balloon.global.scheduleDelay)
      && (r.rerunDelay.None? ==> !(w.finishRead.Some? && w.finishRead.value > 0))
      && !r.cleared
      && r.version == StartAsWritten(w.topoRead, stale, version).version
    ensures r.RunPastEnd? ==> w.finishRead.Some? && w.finishRead.value > 0
    ensures r.Run? && Consistent(b) ==>
      && Consistent(r.balloon)
      && forall i :: 0 <= i < NumNodes(b) ==> (r.states[i] == Done <==> Credit(r.balloon, i) == 0)
  {
    var start := StartAsWritten(w.topoRead, stale, version);
    var sweep := Sweep(b, w.scripts, w.hotplug);
    if sweep.SweepHalted? {
      return RunHalted;
    }
    var again := Again(sweep.states);
    if NeedsRescan(again) {
      return Run(sweep.balloon, sweep.states, again, Some(sweep.balloon.global.scheduleDelay), start.version, false);
    }
    var fin := FinishAsWritten(w.finishRead, w.writeOk, start.topoChange, start.version);
    if fin.None? {
      return RunPastEnd;
    }
    return Run(sweep.balloon, sweep.states, again, None, fin.value.version, fin.value.cleared);
  }
}
