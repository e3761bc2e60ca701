/** `largest_power_remain(op, &order)` (linux-kernel/drivers/xen/balloon.c):
    the largest power of two not above `op`, returned as its exponent and the
    remainder `op - 2^order`, all in `unsigned long` arithmetic. The driver
    declares it but never calls it. */
module Power {
  import opened Common

  /** The helper with its loop guard written so that it cannot wrap:
      `power <= op / 2` in place of `2 * power <= op`. For a positive `op`
      the result is the binary logarithm and the distance to it; for 0 the
      loop does not run and `0 - 1` wraps to the largest unsigned long, as in
      the C. */
  method LargestPowerRemain(op: nat) returns (rem: nat, order: nat)
    requires op < U64
    ensures op >= 1 ==> Pow2(order) <= op < Pow2(order + 1) && rem == op - Pow2(order)
    ensures op == 0 ==> order == 0 && rem == U64 - 1
    ensures rem < U64 && order < 64
  {
    var power: nat := 1;
    order := 0;
    Pow2Word();
    while power <= op / 2
      invariant power == Pow2(order)
      invariant op >= 1 ==> power <= op
      invariant op == 0 ==> order == 0
      invariant order < 64
      decreases op - power
    {
      if order == 63 {
        assert false;
      }
      power := power * 2;
      order := order + 1;
    }
    rem := Wrap64(op - power);
  }

  /** The loop variable `power` after k iterations as the C computes it:
      each step doubles it modulo 2^64. */
  function PowerAsWritten(k: nat): (p: nat)
    ensures p < U64
  {
    if k == 0 then 1 else Wrap64(2 * PowerAsWritten(k - 1))
  }

  /** The C guard `2*power <= op`, with the product wrapping. */
  predicate GuardAsWritten(op: nat, k: nat) {
    Wrap64(2 * PowerAsWritten(k)) <= op
  }

  /** The doubling reaches 2^63 after 63 steps and wraps to 0 on the next;
      from there it stays 0. */
  lemma {:induction false} PowerAsWrittenValue(k: nat)
    ensures PowerAsWritten(k) == if k < 64 then Pow2(k) else 0
  {
    if k > 0 {
      PowerAsWrittenValue(k - 1);
      if k < 64 {
        DoublingBelowTop(k);
      } else if k == 64 {
        DoublingWraps();
      } else {
        DoublingStaysZero(k);
      }
    }
  }

  lemma DoublingBelowTop(k: nat)
    requires 0 < k < 64 && PowerAsWritten(k - 1) == Pow2(k - 1)
    ensures PowerAsWritten(k) == Pow2(k)
  {
    Pow2Word();
    Pow2Monotone(k, 63);
    assert 2 * Pow2(k - 1) == Pow2(k) < U64;
  }

  lemma DoublingWraps()
    requires PowerAsWritten(63) == Pow2(63)
    ensures PowerAsWritten(64) == 0
  {
    Pow2Word();
    assert PowerAsWritten(64) == Wrap64(2 * Pow2(63));
  }

  lemma DoublingStaysZero(k: nat)
    requires k > 64 && PowerAsWritten(k - 1) == 0
    ensures PowerAsWritten(k) == 0
  {
  }

  /** For any op of at least 2^63 (the top bit set) the C guard holds on
      every iteration, so the loop never ends: 2*power first reaches 2^63,
      then wraps to 0, and 0 <= op forever. */
  lemma AsWrittenNeverTerminates(op: nat, k: nat)
    requires I64Limit <= op < U64
    ensures GuardAsWritten(op, k)
  {
    PowerAsWrittenValue(k);
    Pow2Word();
    if k < 63 {
      Pow2Monotone(k + 1, 63);
    }
  }

  /** Below 2^63 the C guard and the corrected one agree at every step, so
      the corrected method computes what the C computes there. */
  lemma GuardsAgreeBelowTopBit(op: nat, k: nat)
    requires op < I64Limit && k < 63
    ensures GuardAsWritten(op, k) <==> PowerAsWritten(k) <= op / 2
  {
    PowerAsWrittenValue(k);
    Pow2Word();
    Pow2Monotone(k + 1, 63);
  }
}
