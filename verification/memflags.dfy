/** The two 32-bit flag words of a memory reservation: the guest-visible
    `XENMEMF_*` encoding carried in `xen_memory_reservation.mem_flags`, and the
    hypervisor's internal `MEMF_*` allocation flags. The bit layout is that of
    Xen's public `memory.h` and `xen/mm.h` (both are not part of this model;
    their values are restated here). */
module MemFlags {

  type Flags = bv32

  /** `NUMA_NO_NODE`: the node id meaning "no node". */
  const NoNode: Flags := 0xff
  /** `MAX_NUMNODES` on x86. */
  const MaxNumNodes: Flags := 64

  // Guest-visible encoding.

  /** `XENMEMF_get_address_bits(f)`: the low byte. */
  function XenAddressBits(f: Flags): Flags { f & 0xff }
  /** `XENMEMF_node(n)`: node n stored as n + 1 in bits 8..15, so 0 means none. */
  function XenNode(n: Flags): Flags { (n + 1) << 8 }
  /** `XENMEMF_get_node(f)`. */
  function XenGetNode(f: Flags): Flags { ((f >> 8) - 1) & 0xff }
  const XenPopulateOnDemand: Flags := 1 << 16
  const XenExactNodeRequest: Flags := 1 << 17
  /** `XENMEMF_vnode`: the node field names a virtual node of the guest. */
  const XenVnode: Flags := 1 << 18
  /** `XENMEMF_exact_node(n)`. */
  function XenExactNode(n: Flags): Flags { XenNode(n) | XenExactNodeRequest }

  // Hypervisor-internal encoding.

  const MemfPopulateOnDemand: Flags := 1 << 1
  const MemfExactNode: Flags := 1 << 4
  /** `MEMF_node(n)`: node n stored as n + 1 in bits 16..23. */
  function MemfNode(n: Flags): Flags { ((n + 1) & 0xff) << 16 }
  /** `MEMF_get_node(f)`. */
  function MemfGetNode(f: Flags): Flags { ((f >> 16) - 1) & 0xff }
  /** `MEMF_bits(n)`: an address-width limit in bits 24..31. */
  function MemfBits(n: Flags): Flags { n << 24 }
  function MemfGetBits(f: Flags): Flags { f >> 24 }

  /** Encoding a node into the guest flags and decoding it again gives the
      node back, for every node id below `NUMA_NO_NODE`; no node encoded
      reads as `NUMA_NO_NODE`. The exact-request and vnode bits do not
      disturb the node field. */
  lemma XenNodeRoundTrip(n: Flags, extra: Flags)
    requires n < NoNode
    requires extra & 0xff00 == 0
    ensures XenGetNode(XenNode(n) | extra) == n
    ensures XenGetNode(extra) == NoNode
  {
  }

  /** The same for the internal flags, next to an address-width field and
      the low single-bit flags. */
  lemma MemfNodeRoundTrip(n: Flags, extra: Flags)
    requires n < NoNode
    requires extra & 0xff_0000 == 0
    ensures MemfGetNode(MemfNode(n) | extra) == n
    ensures MemfGetNode(extra) == NoNode
  {
  }

  /** An address width below 256 written with `MEMF_bits` reads back intact
      and leaves the node field and the low flags clear. */
  lemma MemfBitsRoundTrip(bits: Flags)
    requires bits < 0x100
    ensures MemfGetBits(MemfBits(bits)) == bits
    ensures MemfBits(bits) & 0xff_ffff == 0
  {
  }
}
