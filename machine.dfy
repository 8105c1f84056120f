/**
 * Machine-level vocabulary shared by the models of the C sources: bytes,
 * `unsigned int` wrap-around, the conversion of an `unsigned int` into an
 * `int`, little-endian stores, optional values and results, and the few
 * facts about multiplication, division and remainder the proofs build on.
 *
 * The target is a 32-bit little-endian ARM (OMAP3): `int`, `unsigned int` and
 * `size_t` are 32 bits wide, and multi-byte stores put the lowest byte at the
 * lowest address.
 */
module Machine {

  /** One byte of memory (`uint8_t`, `char` on ARM, which is unsigned). */
  newtype byte = b: int | 0 <= b < 256

  const TWO_31: int := 0x8000_0000
  const TWO_32: int := 0x1_0000_0000

  datatype Option<T> = None | Some(value: T)

  datatype Result<T, E> = Ok(value: T) | Err(error: E)

  /** The value an `unsigned int` expression takes: the mathematical value modulo 2^32. */
  function U32(v: int): (r: int)
    ensures 0 <= r < TWO_32
    ensures (v - r) % TWO_32 == 0
    ensures 0 <= v < TWO_32 ==> r == v
  {
    v % TWO_32
  }

  /**
   * An `unsigned int` assigned to an `int`: values of 2^31 and above wrap to
   * negative numbers (two's complement, as GCC defines the conversion).
   */
  function ToInt32(u: int): (r: int)
    requires 0 <= u < TWO_32
    ensures -TWO_31 <= r < TWO_31
    ensures U32(r) == u
    ensures u < TWO_31 ==> r == u
  {
    if u < TWO_31 then u else u - TWO_32
  }

  /** The two bytes of a 16-bit store, lowest address first. */
  function Le16(v: bv16): (r: seq<byte>)
    ensures |r| == 2
  {
    [(v & 0xff) as int as byte, (v >> 8) as int as byte]
  }

  /** The four bytes of a 32-bit store, lowest address first. */
  function Le32(v: bv32): (r: seq<byte>)
    ensures |r| == 4
  {
    [(v & 0xff) as int as byte, ((v >> 8) & 0xff) as int as byte,
     ((v >> 16) & 0xff) as int as byte, (v >> 24) as int as byte]
  }

  lemma MulAtLeast(a: int, d: int)
    requires a >= 1 && d > 0
    ensures a * d >= d
  {
  }

  lemma MulSucc(k: int, m: int)
    ensures (k + 1) * m == k * m + m
  {
  }

  lemma MulMono(a: int, b: int, c: int)
    requires a <= b && c >= 0
    ensures a * c <= b * c
  {
  }

  lemma DivNonneg(n: int, d: int)
    requires n >= 0 && d > 0
    ensures n / d >= 0
  {
  }

  /** Dividing by a positive number does not make a natural number larger. */
  lemma DivAtMost(a: int, d: int)
    requires a >= 0 && d >= 1
    ensures 0 <= a / d <= a
  {
    DivNonneg(a, d);
    DivLe(a, d, a / d);
    MulMono(1, d, a / d);
  }

  /** Quotient and remainder are determined by `n == q * d + r` with `0 <= r < d`. */
  lemma DivModOf(n: int, d: int, q: int, r: int)
    requires d > 0 && 0 <= r < d && n == q * d + r
    ensures n / d == q && n % d == r
  {
    var q', r' := n / d, n % d;
    assert n == q' * d + r';
    if q > q' {
      MulAtLeast(q - q', d);
    } else if q < q' {
      MulAtLeast(q' - q, d);
    }
  }

  /** `k` whole multiples of `d` fit in `a` exactly when `k` is at most `a / d`. */
  lemma DivLe(a: int, d: int, k: int)
    requires a >= 0 && d > 0
    ensures k * d <= a <==> k <= a / d
  {
    var q := a / d;
    if k <= q {
      MulMono(k, q, d);
    } else {
      MulMono(q + 1, k, d);
    }
  }

  /** Multiplying by a positive number keeps a strict comparison. */
  lemma MulStrict(c: int, a: int, b: int)
    requires c > 0
    ensures c * a > c * b <==> a > b
  {
    if a > b {
      MulAtLeast(a - b, c);
    } else {
      MulMono(a, b, c);
    }
  }
}
