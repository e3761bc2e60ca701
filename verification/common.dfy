/** Shared vocabulary: optional values, machine-word moduli and powers of two.
    The C sources work on `unsigned int`, `unsigned long` and `long`; Dafny
    integers are unbounded, so every place where a wrap-around matters
    reduces explicitly modulo one of the constants below. */
module Common {

  datatype Option<+T> = None | Some(value: T)

  /** A value or a positive errno code (the C returns its negation). */
  datatype Result<+T> = Ok(value: T) | Err(errno: nat)

  const EPERM: nat := 1
  const ENOENT: nat := 2
  const ENOMEM: nat := 12
  const EFAULT: nat := 14
  const EINVAL: nat := 22
  const EDOM: nat := 33
  const EILSEQ: nat := 84

  /** 2^32: the range of a C `unsigned int`. */
  const U32: nat := 0x1_0000_0000
  /** 2^64: the range of a C `unsigned long` on x86-64. */
  const U64: nat := 0x1_0000_0000_0000_0000
  /** 2^63: the first value a C `long` cannot hold. */
  const I64Limit: nat := 0x8000_0000_0000_0000

  function Min(a: int, b: int): int { if a <= b then a else b }
  function Max(a: int, b: int): int { if a >= b then a else b }

  function Abs(x: int): nat { if x < 0 then -x else x }

  function Pow2(n: nat): (r: nat)
    ensures r >= 1
  {
    if n == 0 then 1 else 2 * Pow2(n - 1)
  }

  lemma {:induction false} Pow2Add(a: nat, b: nat)
    ensures Pow2(a + b) == Pow2(a) * Pow2(b)
  {
    if a == 0 {
    } else {
      Pow2Add(a - 1, b);
      assert Pow2(a + b) == 2 * Pow2(a - 1 + b);
    }
  }

  lemma {:induction false} Pow2Monotone(a: nat, b: nat)
    requires a <= b
    ensures Pow2(a) <= Pow2(b)
  {
    if a < b {
      Pow2Monotone(a, b - 1);
    }
  }

  /** The word-size powers: 2^63 and 2^64. */
  lemma Pow2Word()
    ensures Pow2(32) == U32 && Pow2(63) == I64Limit && Pow2(64) == U64
  {
    assert Pow2(8) == 256;
    assert Pow2(7) == 128;
    Pow2Add(8, 8);
    Pow2Add(16, 16);
    Pow2Add(32, 32);
    Pow2Add(8, 7);
    Pow2Add(16, 15);
    Pow2Add(32, 31);
  }

  /** The value a C `long` holds after the integer x is converted to it
      (two's complement truncation to 64 bits). */
  function ToLong(x: int): (r: int)
    ensures -(I64Limit as int) <= r < I64Limit
    ensures (r - x) % U64 == 0
  {
    var m := x % U64;
    if m >= I64Limit then m - U64 else m
  }

  /** The value a C `unsigned long` holds after x is converted to it. */
  function Wrap64(x: int): (r: nat)
    ensures r < U64
    ensures 0 <= x < U64 ==> r == x
  {
    x % U64
  }

  /** Wrapping changes a value by a multiple of 2^64. */
  lemma Wrap64Congruent(x: int)
    ensures (Wrap64(x) - x) % U64 == 0
  {
    WrapCongruent(x, U64);
  }

  lemma WrapCongruent(x: int, m: int)
    requires m > 0
    ensures (x % m - x) % m == 0
  {
    DivModUnique(x % m - x, m, -(x / m), 0);
  }

  /** The value a C `unsigned int` holds after x is converted to it. */
  function Wrap32(x: int): (r: nat)
    ensures r < U32
    ensures 0 <= x < U32 ==> r == x
  {
    x % U32
  }

  /** Congruence modulo m is transitive. */
  lemma CongruentChain(a: int, b: int, c: int, m: int)
    requires m > 0 && (a - b) % m == 0 && (b - c) % m == 0
    ensures (a - c) % m == 0
  {
    var p := (a - b) / m;
    var q := (b - c) / m;
    assert a - b == p * m;
    assert b - c == q * m;
    assert a - c == (p + q) * m;
    DivModUnique(a - c, m, p + q, 0);
  }

  /** Quotient and remainder are determined by any decomposition
      `a == d * m + r` with `0 <= r < m`. */
  lemma DivModUnique(a: int, m: int, d: int, r: int)
    requires m > 0 && 0 <= r < m && a == d * m + r
    ensures a / m == d && a % m == r
  {
    var q := a / m;
    var s := a % m;
    assert (q - d) * m == r - s;
    if q > d {
      MulAtLeast(q - d, m);
    } else if q < d {
      MulAtLeast(d - q, m);
    }
  }

  lemma MulAtLeast(k: int, m: int)
    requires k >= 1 && m > 0
    ensures k * m >= m
  {
    assert (k - 1) * m >= 0;
  }
}
