/** Argument checks of the hypervisor's memory operations
    (xen-hypervisor/xen/common/memory.c): the per-domain extent-order limit
    `max_order`, NUMA node propagation `propagate_node`, and the decoding of
    a `xen_memory_reservation` into allocation arguments,
    `construct_memop_from_reservation`. */
module MemopArgs {
  import opened Common
  import opened MemFlags

  /** `MAX_ORDER` on x86: the largest order the page allocator serves. */
  const MaxOrderLimit: nat := 20

  /** The four boot-time order limits (each an `unsigned int`). */
  datatype OrderLimits = OrderLimits(domu: nat, ctldom: nat, hwdom: nat, ptdom: nat)

  /** The compiled-in defaults: `CONFIG_DOMU_MAX_ORDER` 9,
      `CONFIG_CTLDOM_MAX_ORDER` = `CONFIG_PAGEALLOC_MAX_ORDER` 18,
      `CONFIG_HWDOM_MAX_ORDER` 12 and `CONFIG_PTDOM_MAX_ORDER` =
      `CONFIG_HWDOM_MAX_ORDER`. */
  const DefaultLimits := OrderLimits(9, 18, 12, 12)

  predicate LimitsInRange(l: OrderLimits) {
    l.domu < U32 && l.ctldom < U32 && l.hwdom < U32 && l.ptdom < U32
  }

  /** What `max_order` learns about the calling domain. `passthrough` is
      whether the `HAS_PASSTHROUGH` branch is compiled in at all. */
  datatype Caller = Caller(passthrough: bool, cacheFlushPermitted: bool, isControl: bool, isHardware: bool)

  /** `max_order(d)`: start from the guest limit plus 3 (an `unsigned int`
      sum), raise it to each privileged class limit the domain belongs to,
      and cap it at `MAX_ORDER`. Equivalently: the cap applied to the largest
      of the applicable limits. */
  function MaxOrder(l: OrderLimits, d: Caller): (r: nat)
    requires LimitsInRange(l)
    ensures r <= MaxOrderLimit
    ensures r == Min(MaxOrderLimit,
                     Max(Wrap32(l.domu + 3),
                         Max(if d.passthrough && d.cacheFlushPermitted then l.ptdom else 0,
                             Max(if d.isControl then l.ctldom else 0,
                                 if d.isHardware then l.hwdom else 0))))
  {
    var order := Wrap32(l.domu + 3);
    var order := if d.passthrough && d.cacheFlushPermitted && order < l.ptdom then l.ptdom else order;
    var order := if d.isControl && order < l.ctldom then l.ctldom else order;
    var order := if d.isHardware && order < l.hwdom then l.hwdom else order;
    Min(order, MaxOrderLimit)
  }

  /** Each privileged class gets at least its own limit (or `MAX_ORDER`,
      whichever is smaller), and every domain at least the guest limit
      plus 3 under the same cap. */
  lemma MaxOrderLowerBounds(l: OrderLimits, d: Caller)
    requires LimitsInRange(l)
    ensures MaxOrder(l, d) >= Min(MaxOrderLimit, Wrap32(l.domu + 3))
    ensures d.isControl ==> MaxOrder(l, d) >= Min(MaxOrderLimit, l.ctldom)
    ensures d.isHardware ==> MaxOrder(l, d) >= Min(MaxOrderLimit, l.hwdom)
    ensures d.passthrough && d.cacheFlushPermitted ==> MaxOrder(l, d) >= Min(MaxOrderLimit, l.ptdom)
  {
  }

  /** With the compiled-in defaults an ordinary guest may use order 12 and a
      control domain order 18: both above the Linux driver's extent order 9. */
  lemma DefaultMaxOrders()
    ensures MaxOrder(DefaultLimits, Caller(true, false, false, false)) == 12
    ensures MaxOrder(DefaultLimits, Caller(true, false, true, false)) == 18
  {
  }

  /** `propagate_node(xmf, &memflags)`: `None` is the C's `false`. A request
      without a node succeeds unchanged. A privileged (hardware or control)
      caller gets its node recorded in the internal flags, and the exact
      flag iff it asked for an exact node, unless the node is beyond
      `MAX_NUMNODES`. Anyone else may name a node only as a preference. */
  function PropagateNode(xmf: Flags, memflags: Flags, privileged: bool): (r: Option<Flags>)
    ensures XenGetNode(xmf) == NoNode ==> r == Some(memflags)
    ensures XenGetNode(xmf) != NoNode && privileged ==>
      (r.None? <==> XenGetNode(xmf) >= MaxNumNodes)
    ensures XenGetNode(xmf) != NoNode && !privileged ==>
      (r.None? <==> xmf & XenExactNodeRequest != 0) && (r.Some? ==> r.value == memflags)
    ensures r.Some? && privileged && XenGetNode(xmf) != NoNode && memflags & 0xff_0010 == 0 ==>
      && MemfGetNode(r.value) == XenGetNode(xmf)
      && (r.value & MemfExactNode != 0 <==> xmf & XenExactNodeRequest != 0)
      && r.value & 0xff00_ffef == memflags
  {
    var node := XenGetNode(xmf);
    if node == NoNode then Some(memflags)
    else if privileged then
      if node >= MaxNumNodes then None
      else
        var m := memflags | MemfNode(node);
        Some(if xmf & XenExactNodeRequest != 0 then m | MemfExactNode else m)
    else if xmf & XenExactNodeRequest != 0 then None
    else Some(memflags)
  }

  /** The guest's `xen_memory_reservation` as far as decoding goes. */
  datatype Reservation = Reservation(nrExtents: nat, extentOrder: nat, memFlags: Flags, domid: nat)

  /** `struct memop_args` after decoding. */
  datatype MemopArgs = MemopArgs(nrExtents: nat, extentOrder: nat, memflags: Flags)

  /** The target domain's virtual NUMA layout, when it has one: entry v is the
      physical node of virtual node v (`nodeid_t`, one byte). */
  type Vnuma = Option<seq<bv8>>

  /** The internal flags for an address width below 256 (or none, 0), a
      physical node below `NUMA_NO_NODE` and an optional exact flag: each
      field reads back what was written. */
  lemma NodeBesideWidth(bits: Flags, pnode: Flags, exact: bool)
    requires bits < 0x100 && pnode < NoNode
    ensures var m := MemfBits(bits) | MemfNode(pnode) | (if exact then MemfExactNode else 0);
      && MemfGetNode(m) == pnode
      && MemfGetBits(m) == bits
      && (m & MemfExactNode != 0 <==> exact)
  {
  }

  lemma WidthAlone(bits: Flags)
    requires bits < 0x100
    ensures MemfGetNode(MemfBits(bits)) == NoNode
    ensures MemfGetBits(MemfBits(bits)) == bits
    ensures MemfBits(bits) & MemfExactNode == 0
    ensures MemfBits(bits) & 0xff_0010 == 0
  {
  }

  /** The address-width step: a width that restricts anything (non-zero and
      below the machine's limit) must exceed `PAGE_SHIFT`; the result is the
      width to record with `MEMF_bits`, 0 when it restricts nothing. */
  function AddressWidth(memFlags: Flags, addrLimit: nat): (res: Result<Flags>)
    ensures var bits := XenAddressBits(memFlags);
      res.Err? <==> bits != 0 && (bits as int) < addrLimit && bits <= 12
    ensures res.Err? ==> res.errno == EINVAL
    ensures res.Ok? ==> res.value < 0x100
    ensures res.Ok? ==> var bits := XenAddressBits(memFlags);
      res.value == if bits != 0 && (bits as int) < addrLimit then bits else 0
  {
    var bits := XenAddressBits(memFlags);
    if bits != 0 && (bits as int) < addrLimit then
      if bits <= 12 then Err(EINVAL) else Ok(bits)
    else Ok(0)
  }

  /** The virtual-node step for a domain with a layout, on top of the
      address width `bits`: the requested virtual node must exist; its
      physical node, unless it is `NUMA_NO_NODE`, is added together with the
      exact flag if one was requested. */
  function VnodeFlags(vnode: nat, exact: bool, bits: Flags, layout: seq<bv8>): (res: Result<Flags>)
    requires bits < 0x100
    ensures res.Err? <==> vnode >= |layout|
    ensures res.Err? ==> res.errno == EINVAL
  {
    if vnode >= |layout| then Err(EINVAL)
    else
      var p := layout[vnode];
      if p == 0xff then Ok(MemfBits(bits))
      else Ok(MemfBits(bits) | MemfNode(p as Flags) | (if exact then MemfExactNode else 0))
  }

  /** An existing virtual node mapped to `NUMA_NO_NODE` adds only the
      address width: no node, no exact flag. */
  lemma VnodeWithoutNode(vnode: nat, exact: bool, bits: Flags, layout: seq<bv8>)
    requires bits < 0x100 && vnode < |layout| && layout[vnode] == 0xff
    ensures var m := VnodeFlags(vnode, exact, bits, layout).value;
      && MemfGetBits(m) == bits
      && MemfGetNode(m) == NoNode && m & MemfExactNode == 0
  {
    assert VnodeFlags(vnode, exact, bits, layout) == Ok(MemfBits(bits));
    WidthAlone(bits);
  }

  /** Any other existing virtual node reads back as the width, its physical
      node, and the exact flag iff one was requested. */
  lemma VnodeWithNode(vnode: nat, exact: bool, bits: Flags, layout: seq<bv8>)
    requires bits < 0x100 && vnode < |layout| && layout[vnode] != 0xff
    ensures var m := VnodeFlags(vnode, exact, bits, layout).value;
      && MemfGetBits(m) == bits
      && MemfGetNode(m) == layout[vnode] as Flags && (m & MemfExactNode != 0 <==> exact)
  {
    var m := VnodeFlags(vnode, exact, bits, layout).value;
    var p := layout[vnode] as Flags;
    assert p < NoNode by {
      NodeIdFits(layout[vnode]);
    }
    assert m == MemfBits(bits) | MemfNode(p) | (if exact then MemfExactNode else 0) by {
      VnodeFlagsValue(vnode, exact, bits, layout);
    }
    NodeFieldsReadBack(bits, p, exact, m);
  }

  lemma NodeFieldsReadBack(bits: Flags, p: Flags, exact: bool, m: Flags)
    requires bits < 0x100 && p < NoNode
    requires m == MemfBits(bits) | MemfNode(p) | (if exact then MemfExactNode else 0)
    ensures MemfGetBits(m) == bits && MemfGetNode(m) == p && (m & MemfExactNode != 0 <==> exact)
  {
    NodeBesideWidth(bits, p, exact);
  }

  lemma NodeIdFits(p: bv8)
    requires p != 0xff
    ensures (p as Flags) < NoNode
  {
  }

  lemma VnodeFlagsValue(vnode: nat, exact: bool, bits: Flags, layout: seq<bv8>)
    requires bits < 0x100 && vnode < |layout| && layout[vnode] != 0xff
    ensures VnodeFlags(vnode, exact, bits, layout).value ==
      MemfBits(bits) | MemfNode(layout[vnode] as Flags) | (if exact then MemfExactNode else 0)
  {
  }

  /** `construct_memop_from_reservation(r, a)`. `addrLimit` is
      `get_order_from_pages(max_page) + PAGE_SHIFT`; `privileged` is what
      `propagate_node` checks of the caller. A vnode request of a domain
      without a layout keeps only the address width. */
  function ConstructMemop(r: Reservation, addrLimit: nat, vnuma: Vnuma, privileged: bool): (res: Result<MemopArgs>)
    ensures res.Err? ==> res.errno == EINVAL
    ensures res.Ok? ==> res.value.nrExtents == r.nrExtents && res.value.extentOrder == r.extentOrder
    ensures AddressWidth(r.memFlags, addrLimit).Err? ==> res.Err?
  {
    match AddressWidth(r.memFlags, addrLimit)
    case Err(e) => Err(e)
    case Ok(bits) =>
      if r.memFlags & XenVnode != 0 then
        match vnuma
        case None => Ok(MemopArgs(r.nrExtents, r.extentOrder, MemfBits(bits)))
        case Some(layout) =>
          match VnodeFlags(XenGetNode(r.memFlags) as nat, r.memFlags & XenExactNodeRequest != 0, bits, layout)
          case Err(e) => Err(e)
          case Ok(m) => Ok(MemopArgs(r.nrExtents, r.extentOrder, m))
      else
        match PropagateNode(r.memFlags, MemfBits(bits), privileged)
        case None => Err(EINVAL)
        case Some(m) => Ok(MemopArgs(r.nrExtents, r.extentOrder, m))
  }

  /** A decoded request keeps the address width the width step chose. */
  lemma ConstructMemopWidth(r: Reservation, addrLimit: nat, vnuma: Vnuma, privileged: bool)
    ensures var res := ConstructMemop(r, addrLimit, vnuma, privileged);
      res.Ok? ==>
        && AddressWidth(r.memFlags, addrLimit).Ok?
        && MemfGetBits(res.value.memflags) == AddressWidth(r.memFlags, addrLimit).value
  {
    match AddressWidth(r.memFlags, addrLimit)
    case Err(_) =>
    case Ok(bits) =>
      if r.memFlags & XenVnode != 0 {
        if vnuma.None? {
          WidthAlone(bits);
        } else if XenGetNode(r.memFlags) as nat < |vnuma.value| {
          WidthThroughVnode(XenGetNode(r.memFlags) as nat, r.memFlags & XenExactNodeRequest != 0, bits, vnuma.value);
        }
      } else {
        WidthThroughPropagate(r.memFlags, bits, privileged);
      }
  }

  lemma WidthThroughVnode(v: nat, exact: bool, bits: Flags, layout: seq<bv8>)
    requires bits < 0x100 && v < |layout|
    ensures MemfGetBits(VnodeFlags(v, exact, bits, layout).value) == bits
  {
    if layout[v] == 0xff {
      VnodeWithoutNode(v, exact, bits, layout);
    } else {
      VnodeWithNode(v, exact, bits, layout);
    }
  }

  lemma WidthThroughPropagate(xmf: Flags, bits: Flags, privileged: bool)
    requires bits < 0x100
    ensures var m := PropagateNode(xmf, MemfBits(bits), privileged);
      m.Some? ==> MemfGetBits(m.value) == bits
  {
    var m := PropagateNode(xmf, MemfBits(bits), privileged);
    WidthAlone(bits);
    if m.Some? && XenGetNode(xmf) != NoNode && privileged {
      HighByteKept(m.value, MemfBits(bits));
    }
  }

  /** Clearing bits below 24 keeps the address width. */
  lemma HighByteKept(x: Flags, m: Flags)
    requires x & 0xff00_ffef == m
    ensures MemfGetBits(x) == MemfGetBits(m)
  {
  }

  /** A vnode request fails iff the domain has a layout without that
      virtual node; a domain without a layout gets no node at all. */
  lemma ConstructMemopVnode(r: Reservation, addrLimit: nat, vnuma: Vnuma, privileged: bool)
    requires AddressWidth(r.memFlags, addrLimit).Ok? && r.memFlags & XenVnode != 0
    ensures var res := ConstructMemop(r, addrLimit, vnuma, privileged);
      && (vnuma.None? ==>
            res.Ok? && MemfGetNode(res.value.memflags) == NoNode && res.value.memflags & MemfExactNode == 0)
      && (vnuma.Some? ==> (res.Err? <==> XenGetNode(r.memFlags) as int >= |vnuma.value|))
  {
    var bits := AddressWidth(r.memFlags, addrLimit).value;
    WidthAlone(bits);
  }

  /** A physical node request fails iff `propagate_node` refuses it. */
  lemma ConstructMemopNode(r: Reservation, addrLimit: nat, vnuma: Vnuma, privileged: bool)
    requires AddressWidth(r.memFlags, addrLimit).Ok? && r.memFlags & XenVnode == 0
    ensures ConstructMemop(r, addrLimit, vnuma, privileged).Err? <==> PropagateNode(r.memFlags, 0, privileged).None?
  {
  }
}
