/** The worker `balloon_process` (linux-kernel/drivers/xen/balloon.c): for
    each node in turn it repeats batches until the node's credit is settled
    or a batch does not succeed, then decides whether to run again later.
    The hypervisor's and the allocator's answers for each batch come from a
    script of responses; once a node's script is used up every further
    request fails, which is what bounds the repetition. */
module Process {
  import opened Common
  import opened BalloonState
  import opened Backoff
  import opened Reservation

  /** What the outside world answers to one batch: the populate count for an
      increase, the allocator's pages and the release count for a decrease,
      and whether a memory hotplug succeeded. */
  datatype Response = Response(populated: int, allocs: seq<Option<Alloc>>, released: int, hotplugAdded: bool)

  /** Every request refused. */
  const NoResponse := Response(0, [], 0, false)

  function Respond(script: seq<Response>, k: nat): Response {
    if k < |script| then script[k] else NoResponse
  }

  /** The body of the per-node loop before `update_schedule`: increase when
      the node is owed pages and has parked extents, reserve more memory
      when it is owed pages but has none, decrease when it holds too many,
      and nothing when the credit is 0. `hotplug` selects which
      `reserve_additional_memory` is compiled in. */
  function Act(b: Balloon, node: nat, resp: Response, hotplug: bool): (r: Step)
    requires WellFormed(b) && node < NumNodes(b)
    ensures r.Step? ==> WellFormed(r.balloon) && NumNodes(r.balloon) == NumNodes(b)
    ensures Credit(b, node) == 0 ==> r == Step(b, Done)
  {
    var credit := Credit(b, node);
    if credit > 0 then
      if IsInflated(b, node) then IncreaseReservation(b, node, resp.populated)
      else if hotplug then ReserveWithHotplug(b, resp.hotplugAdded)
      else ReserveWithoutHotplug(b)
    else if credit < 0 then DecreaseReservation(b, -credit, node, resp.allocs, resp.released)
    else Step(b, Done)
  }

  /** One pass of the per-node loop: the batch, then `update_schedule` on
      the global record. `credit` is the credit the pass started from, which
      the loop condition tests. `Halted` is a `BUG_ON`. */
  datatype Pass = Pass(balloon: Balloon, state: BpState, credit: int) | Halted

  function SubIteration(b: Balloon, node: nat, resp: Response, hotplug: bool): (r: Pass)
    requires WellFormed(b) && node < NumNodes(b)
    ensures r.Pass? ==> WellFormed(r.balloon) && NumNodes(r.balloon) == NumNodes(b)
    ensures r.Pass? ==> r.credit == Credit(b, node)
    ensures r.Halted? <==> Act(b, node, resp, hotplug).Bug?
    ensures r.Pass? ==>
      && r.balloon.nodes == Act(b, node, resp, hotplug).balloon.nodes
      && r.balloon.pools == Act(b, node, resp, hotplug).balloon.pools
    ensures Credit(b, node) == 0 ==> r == Pass(b.(global := Reset(b.global)), Done, 0)
    ensures var a := Act(b, node, resp, hotplug);
      a.Step? ==>
        && r.state == UpdateSchedule(a.state, a.balloon.global).state
        && r.balloon.global == UpdateSchedule(a.state, a.balloon.global).stats
  {
    match Act(b, node, resp, hotplug)
    case Bug => Halted
    case Step(b', st) =>
      var s := UpdateSchedule(st, b'.global);
      Pass(b'.(global := s.stats), s.state, Credit(b, node))
  }

  /** A pass touches only its own node (a decrease for a named node parks on
      that node) and keeps the bookkeeping invariant. */
  lemma PassFrame(b: Balloon, node: nat, resp: Response, hotplug: bool)
    requires Consistent(b) && node < NumNodes(b)
    requires SubIteration(b, node, resp, hotplug).Pass?
    ensures var r := SubIteration(b, node, resp, hotplug).balloon;
      && Consistent(r)
      && forall n :: 0 <= n < NumNodes(b) && n != node ==> r.nodes[n] == b.nodes[n] && r.pools[n] == b.pools[n]
  {
    var credit := Credit(b, node);
    var a := Act(b, node, resp, hotplug);
    if credit > 0 && IsInflated(b, node) {
      IncreaseReservationConsistent(b, node, resp.populated);
    } else if credit < 0 {
      DecreaseReservationConsistent(b, -credit, node, resp.allocs, resp.released);
      DecreaseReservationEffect(b, -credit, node, resp.allocs, resp.released);
    }
    var r := SubIteration(b, node, resp, hotplug).balloon;
    assert r.nodes == a.balloon.nodes && r.pools == a.balloon.pools;
  }

  /** A pass that does not end in `Done` leaves the node's credit
      outstanding: a refused increase changes nothing, a reservation never
      moves the node's target or current count, and a truncated decrease
      releases fewer pages than it owed. */
  lemma PassNotDoneLeavesCredit(b: Balloon, node: nat, resp: Response, hotplug: bool)
    requires WellFormed(b) && node < NumNodes(b)
    requires SubIteration(b, node, resp, hotplug).Pass?
    requires SubIteration(b, node, resp, hotplug).state != Done
    ensures Credit(SubIteration(b, node, resp, hotplug).balloon, node) != 0
  {
    var credit := Credit(b, node);
    var a := Act(b, node, resp, hotplug);
    if credit < 0 {
      DecreaseReservationEffect(b, -credit, node, resp.allocs, resp.released);
      var want := Min(-credit, FrameListSize);
      var k := Accepted(resp.allocs, node, want);
      assert a.state == EAgain;
      assert k < want;
    }
  }

  /** With every request refused a pass never asks for another one. */
  lemma NoResponseStops(b: Balloon, node: nat, hotplug: bool)
    requires WellFormed(b) && node < NumNodes(b)
    ensures var r := SubIteration(b, node, NoResponse, hotplug);
      r.Halted? || r.state != Done || r.credit == 0
  {
    var credit := Credit(b, node);
    if credit < 0 {
      assert Accepted([], node, Min(-credit, FrameListSize)) == 0;
    }
  }

  /** Progress with a cooperative host: when the host populates between 1
      and as many extents as asked for and parked, or the allocator and the
      host grant a whole decrease batch, the pass ends `Done` and the node's
      credit moves strictly towards 0 without overshooting. */
  lemma HonestPassProgress(b: Balloon, node: nat, resp: Response, hotplug: bool)
    requires Consistent(b) && node < NumNodes(b) && Credit(b, node) != 0
    requires Credit(b, node) > 0 ==>
      IsInflated(b, node) && 0 < resp.populated <= Min(Min(Credit(b, node), FrameListSize), |b.pools[node]|)
    requires Credit(b, node) < 0 ==>
      && Accepted(resp.allocs, node, Min(-Credit(b, node), FrameListSize)) == Min(-Credit(b, node), FrameListSize)
      && resp.released == Min(-Credit(b, node), FrameListSize)
    ensures var r := SubIteration(b, node, resp, hotplug);
      && r.Pass? && r.state == Done
      && 0 <= Abs(Credit(r.balloon, node)) < Abs(Credit(b, node))
      && (Credit(b, node) > 0 ==> Credit(r.balloon, node) >= 0)
      && (Credit(b, node) < 0 ==> Credit(r.balloon, node) <= 0)
  {
    var credit := Credit(b, node);
    if credit > 0 {
      IncreaseReservationConsistent(b, node, resp.populated);
    } else {
      DecreaseReservationConsistent(b, -credit, node, resp.allocs, resp.released);
    }
  }

  /** The outcome of sweeping one node. */
  datatype NodeResult = NodeResult(balloon: Balloon, state: BpState, action: int, passes: nat) | NodeHalted

  /** The do-while loop of `balloon_process` for node `node`: repeat while
      the credit at the start of the pass was nonzero and the pass ended
      `Done`. `action` is what `nodes_action[node]` ends as: 1 after an
      attempt to grow, -1 after one to shrink, 0 if the credit was 0. */
  method SweepNode(b: Balloon, node: nat, script: seq<Response>, hotplug: bool) returns (r: NodeResult)
    requires WellFormed(b) && node < NumNodes(b)
    ensures r.NodeResult? ==> WellFormed(r.balloon) && NumNodes(r.balloon) == NumNodes(b)
    ensures r.NodeResult? ==> 1 <= r.passes <= |script| + 1
    ensures r.NodeResult? ==> (r.state == Done <==> Credit(r.balloon, node) == 0)
    ensures r.NodeResult? ==> r.state != Wait || hotplug
    ensures r.NodeResult? && Consistent(b) ==>
      && Consistent(r.balloon)
      && forall n :: 0 <= n < NumNodes(b) && n != node ==>
           r.balloon.nodes[n] == b.nodes[n] && r.balloon.pools[n] == b.pools[n]
    ensures Credit(b, node) == 0 ==> r == NodeResult(b.(global := Reset(b.global)), Done, 0, 1)
    ensures r.NodeResult? && Credit(b, node) != 0 ==> r.action != 0
    ensures r.NodeResult? ==> r.action in {-1, 0, 1}
    ensures r.NodeResult? && r.state == Done ==>
      r.balloon.global.scheduleDelay == 1 && r.balloon.global.retryCount == 1
  {
    var cur := b;
    var action := 0;
    var k := 0;
    while true
      invariant k <= |script|
      invariant WellFormed(cur) && NumNodes(cur) == NumNodes(b)
      invariant Consistent(b) ==> Consistent(cur)
      invariant Consistent(b) ==> forall n :: 0 <= n < NumNodes(b) && n != node ==>
        cur.nodes[n] == b.nodes[n] && cur.pools[n] == b.pools[n]
      invariant k == 0 ==> cur == b && action == 0
      invariant k > 0 ==> action != 0 && Credit(b, node) != 0
      invariant action in {-1, 0, 1}
      decreases |script| - k
    {
      var resp := Respond(script, k);
      var p := SubIteration(cur, node, resp, hotplug);
      if k == |script| {
        NoResponseStops(cur, node, hotplug);
      }
      if p.Halted? {
        return NodeHalted;
      }
      if Consistent(b) {
        PassFrame(cur, node, resp, hotplug);
      }
      if p.credit > 0 {
        action := 1;
      } else if p.credit < 0 {
        action := -1;
      }
      assert p.state == Done ==> p.balloon.global.scheduleDelay == 1 && p.balloon.global.retryCount == 1;
      if p.state != Done {
        PassNotDoneLeavesCredit(cur, node, resp, hotplug);
        assert p.state != Wait || hotplug by {
          if p.state == Wait {
            assert Act(cur, node, resp, hotplug).state == Wait;
          }
        }
        return NodeResult(p.balloon, p.state, action, k + 1);
      }
      if p.credit == 0 {
        return NodeResult(p.balloon, p.state, action, k + 1);
      }
      cur := p.balloon;
      k := k + 1;
    }
  }

  /** The outcome of a sweep over all nodes: the final `bp_state` of each
      node, `nodes_action`, and the balloon. */
  datatype SweepResult = SweepResult(balloon: Balloon, states: seq<BpState>, actions: seq<int>) | SweepHalted

  /** `again_nodes[i]`: node i asked to be retried. */
  function Again(states: seq<BpState>): (again: seq<bool>)
    ensures |again| == |states|
    ensures forall i :: 0 <= i < |states| ==> (again[i] <==> states[i] == EAgain)
  {
    seq(|states|, i requires 0 <= i < |states| => states[i] == EAgain)
  }

  /** The scan of `again_nodes` after the sweep: a delayed rerun is queued
      iff some node is marked. */
  function NeedsRescan(again: seq<bool>): (r: bool)
    ensures r <==> exists i :: 0 <= i < |again| && again[i]
  {
    if |again| == 0 then false else again[0] || NeedsRescan(again[1..])
  }

  /** The per-node loop of `balloon_process`: each node in order, with its
      own script of responses. On a consistent balloon, a node ends `Done`
      exactly when its credit is settled, and later nodes leave earlier
      ones alone. */
  method Sweep(b: Balloon, scripts: seq<seq<Response>>, hotplug: bool) returns (r: SweepResult)
    requires WellFormed(b) && |scripts| == NumNodes(b)
    ensures r.SweepResult? ==>
      && WellFormed(r.balloon) && NumNodes(r.balloon) == NumNodes(b)
      && |r.states| == NumNodes(b) && |r.actions| == NumNodes(b)
      && (forall i :: 0 <= i < NumNodes(b) ==> r.actions[i] in {-1, 0, 1})
      && (forall i :: 0 <= i < NumNodes(b) ==> r.states[i] != Wait || hotplug)
    ensures r.SweepResult? && Consistent(b) ==>
      && Consistent(r.balloon)
      && forall i :: 0 <= i < NumNodes(b) ==> (r.states[i] == Done <==> Credit(r.balloon, i) == 0)
    ensures r.SweepResult? && Consistent(b) ==>
      forall i :: 0 <= i < NumNodes(b) ==> (r.actions[i] == 0 <==> Credit(b, i) == 0)
  {
    var cur := b;
    var states: seq<BpState> := [];
    var actions: seq<int> := [];
    var i := 0;
    while i < NumNodes(b)
      invariant i <= NumNodes(b) && |states| == i && |actions| == i
      invariant WellFormed(cur) && NumNodes(cur) == NumNodes(b)
      invariant forall j :: 0 <= j < i ==> actions[j] in {-1, 0, 1}
      invariant forall j :: 0 <= j < i ==> states[j] != Wait || hotplug
      invariant Consistent(b) ==> Consistent(cur)
      invariant Consistent(b) ==> forall j :: 0 <= j < i ==> (states[j] == Done <==> Credit(cur, j) == 0)
      invariant Consistent(b) ==> forall j :: i <= j < NumNodes(b) ==> cur.nodes[j] == b.nodes[j]
      invariant Consistent(b) ==> forall j :: 0 <= j < i ==> (actions[j] == 0 <==> Credit(b, j) == 0)
    {
      var nr := SweepNode(cur, i, scripts[i], hotplug);
      if nr.NodeHalted? {
        return SweepHalted;
      }
      if Consistent(b) {
        forall j | 0 <= j < i
          ensures nr.balloon.nodes[j] == cur.nodes[j]
        {
        }
      }
      cur := nr.balloon;
      states := states + [nr.state];
      actions := actions + [nr.action];
      i := i + 1;
    }
    return SweepResult(cur, states, actions);
  }
}
