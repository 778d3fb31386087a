/** Failure-compatible wrapper used wherever the C code returns NULL or false
    to signal "no result". */
module Wrappers {
  datatype Option<+T> = None | Some(value: T)
}

/** C integer conversions that the modelled code relies on. Dafny integers are
    unbounded, so every narrowing store and every unsigned wrap-around is
    written out through one of these functions. */
module Machine {
  const U8_LIMIT: nat := 0x100
  const U16_LIMIT: nat := 0x1_0000
  const U32_LIMIT: nat := 0x1_0000_0000

  /** Conversion to an 8-bit unsigned field (`u8`, `unsigned char`). */
  function U8(x: int): (r: nat)
    ensures r < U8_LIMIT
    ensures 0 <= x < U8_LIMIT ==> r == x
  {
    x % U8_LIMIT
  }

  /** Conversion to a 16-bit unsigned field (`u16`, `uint16_t`). */
  function U16(x: int): (r: nat)
    ensures r < U16_LIMIT
    ensures 0 <= x < U16_LIMIT ==> r == x
  {
    x % U16_LIMIT
  }

  /** Conversion to a 32-bit unsigned value (`unsigned`, `uint32_t`, a 32-bit `size_t`). */
  function U32(x: int): (r: nat)
    ensures r < U32_LIMIT
    ensures 0 <= x < U32_LIMIT ==> r == x
  {
    x % U32_LIMIT
  }

  /** Conversion to a 16-bit two's-complement value (`int16_t`). */
  function I16(x: int): (r: int)
    ensures -0x8000 <= r < 0x8000
    ensures -0x8000 <= x < 0x8000 ==> r == x
  {
    var u := x % U16_LIMIT;
    if u < 0x8000 then u else u - U16_LIMIT
  }

  function Min(a: int, b: int): int { if a < b then a else b }
  function Max(a: int, b: int): int { if a < b then b else a }

  /** `x &= ~3` on an unsigned value: round down to a multiple of 4. */
  function AlignDown4(x: nat): (r: nat)
    ensures r % 4 == 0 && r <= x < r + 4
  {
    x - x % 4
  }

  /** `x % n` for an `x` already in range. */
  lemma ModSmall(x: int, n: int)
    requires 0 <= x < n
    ensures x % n == x
  {
    var q := x / n;
    if q > 0 { MulGrows(n, q); } else if q < 0 { MulGrows(n, -q); }
  }

  /** `x % n` for an `x` that overshoots the range once. */
  lemma ModWrap(x: int, n: int)
    requires 0 < n <= x < 2 * n
    ensures x % n == x - n
  {
    var q := x / n;
    if q > 1 { MulGrows(n, q - 1); } else if q < 1 { MulGrows(n, 1 - q); }
    assert x == q * n + x % n;
  }

  lemma MulGrows(n: int, k: int)
    requires n > 0 && k >= 1
    ensures n * k >= n
  {
  }

  /** Adding one before or after reducing modulo `n` is the same. */
  lemma ModSucc(a: nat, n: nat)
    requires n > 0
    ensures (a % n + 1) % n == (a + 1) % n
  {
    var q := a / n;
    var r := a % n;
    assert a == q * n + r;
    if r + 1 < n {
      ModSmall(r + 1, n);
      ModOfMultiple(q, n, r + 1);
    } else {
      ModSmall(0, n);
      assert (q + 1) * n == q * n + n;
      assert a + 1 == (q + 1) * n;
      ModOfMultiple(q + 1, n, 0);
    }
  }

  /** `(q * n + r) % n == r` for `r` in range. */
  lemma ModOfMultiple(q: nat, n: nat, r: nat)
    requires 0 <= r < n
    ensures (q * n + r) % n == r
  {
    var x := q * n + r;
    var d := x / n - q;
    assert x == (x / n) * n + x % n;
    assert d * n == r - x % n;
    if d > 0 { MulGrows(n, d); } else if d < 0 { MulGrows(n, -d); }
  }
}
