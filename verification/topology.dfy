/** The topology-change bookkeeping around the sweep in `balloon_process`
    (linux-kernel/drivers/xen/balloon.c). The worker reads the xenstore key
    `numa/topo_change` (1 for an added node, 2 for a removed one), bumps the
    counter `topo_version` that applications poll, and after a settled sweep
    clears the key. The reads and the write are parameters: `None` is a
    failed read, `writeOk` a successful write. */
module Topology {
  import opened Common

  const TopoRemove: int := 2

  datatype Start = Start(topoChange: int, version: nat)

  /** The start of `balloon_process` as written. `topo_change` is the value
      read, or 0 when the read fails. The removal test, however, reads the
      variable `i` that the read was meant to fill: after a failed read it
      still holds `stale` (on the first run, the node count left there by the
      initialisation loop). */
  function StartAsWritten(read: Option<int>, stale: int, version: nat): (r: Start)
    ensures r.topoChange == (if read.Some? then read.value else 0)
    ensures r.version == version + (if (if read.Some? then read.value else stale) == TopoRemove then 1 else 0)
  {
    var i := if read.Some? then read.value else stale;
    var topoChange := if read.Some? then read.value else 0;
    Start(topoChange, if i == TopoRemove then version + 1 else version)
  }

  /** The start as intended: count a removal only when one was read. */
  function StartCorrected(read: Option<int>, version: nat): (r: Start)
    ensures r.topoChange == (if read.Some? then read.value else 0)
    ensures r.version == version + (if r.topoChange == TopoRemove then 1 else 0)
    ensures r.version > version <==> read == Some(TopoRemove)
  {
    var topoChange := if read.Some? then read.value else 0;
    Start(topoChange, if topoChange == TopoRemove then version + 1 else version)
  }

  /** On the first run of a two-node guest whose read fails, the C counts a
      removal that never happened; the corrected start does not. */
  lemma StaleRemovalCounted(version: nat)
    ensures StartAsWritten(None, 2, version).version == version + 1
    ensures StartCorrected(None, version).version == version
    ensures StartAsWritten(None, 2, version).topoChange == 0
  {
  }

  /** Both starts agree whenever the read succeeds. */
  lemma StartsAgreeOnRead(x: int, stale: int, version: nat)
    ensures StartAsWritten(Some(x), stale, version) == StartCorrected(Some(x), version)
  {
  }

  datatype Finish = Finish(version: nat, cleared: bool)

  /** The end of `balloon_process` after a sweep that needs no rerun, as
      written. When the key reads positive, it walks `nodes_action` for
      indices 0 to `num_nodes` inclusive (the migration calls in that loop
      are disabled), clears the key, and on a successful write bumps the
      version unless the change read at the start was -1. `None` is the
      read of `nodes_action[num_nodes]`, one past the array. */
  function FinishAsWritten(read: Option<int>, writeOk: bool, topoChange: int, version: nat): (r: Option<Finish>)
    ensures r.None? <==> read.Some? && read.value > 0
  {
    if read.Some? && read.value > 0 then None
    else Some(Finish(version, false))
  }

  /** What the walk and the bump would do with the loop bound `< num_nodes`
      but the version guard as written. */
  function FinishInBounds(read: Option<int>, writeOk: bool, topoChange: int, version: nat): (r: Finish)
    ensures r.cleared <==> read.Some? && read.value > 0 && writeOk
    ensures r.version == version + (if r.cleared && topoChange != -1 then 1 else 0)
  {
    if read.Some? && read.value > 0 && writeOk then
      Finish(if topoChange != -1 then version + 1 else version, true)
    else Finish(version, false)
  }

  /** The end as intended: walk the array within bounds, and since a
      removal was already counted at the start, bump only for other changes. */
  function FinishCorrected(read: Option<int>, writeOk: bool, topoChange: int, version: nat): (r: Finish)
    ensures r.cleared <==> read.Some? && read.value > 0 && writeOk
    ensures r.version == version + (if r.cleared && topoChange != TopoRemove then 1 else 0)
  {
    if read.Some? && read.value > 0 && writeOk then
      Finish(if topoChange != TopoRemove then version + 1 else version, true)
    else Finish(version, false)
  }

  /** Whenever the key reads positive, the C reads past the end of
      `nodes_action`. */
  lemma FinishReadsPastEnd(x: int, writeOk: bool, topoChange: int, version: nat)
    requires x > 0
    ensures FinishAsWritten(Some(x), writeOk, topoChange, version).None?
  {
  }

  /** A removal pass counted twice: with the key reading 2 at both reads
      and the write succeeding, the version guard as written bumps again at
      the end, so one removal advances `topo_version` by 2. The corrected
      pair advances it by exactly 1 for a removal and 1 for an addition. */
  lemma RemovalCountedTwice(version: nat)
    ensures var s := StartAsWritten(Some(TopoRemove), 0, version);
      FinishInBounds(Some(TopoRemove), true, s.topoChange, s.version).version == version + 2
    ensures var s := StartCorrected(Some(TopoRemove), version);
      FinishCorrected(Some(TopoRemove), true, s.topoChange, s.version).version == version + 1
    ensures var s := StartCorrected(Some(1), version);
      FinishCorrected(Some(1), true, s.topoChange, s.version).version == version + 1
  {
  }

  /** With the corrected start and end, one run of the worker advances
      `topo_version` at most once, and only when it saw a topology change:
      a removal read at the start, or a change cleared at the end. */
  lemma CorrectedCountsOnce(read: Option<int>, finishRead: Option<int>, writeOk: bool, version: nat)
    ensures var s := StartCorrected(read, version);
      var f := FinishCorrected(finishRead, writeOk, s.topoChange, s.version);
      && version <= f.version <= version + 1
      && (f.version == version + 1 <==> read == Some(TopoRemove) || f.cleared)
  {
  }
}
