/** Integer facts and C operators shared by the component models. */
module Arithmetic {

  /** An octet, the unit of every buffer in the SDK. */
  type byte = b: int | 0 <= b < 256

  const U16 := 0x1_0000
  const U32 := 0x1_0000_0000

  /** Unsigned fields of 16 and 32 bits. */
  type u16 = x: int | 0 <= x < U16
  type u32 = x: int | 0 <= x < U32

  /** Values of signed variables. */
  predicate Int32(x: int) {
    -0x8000_0000 <= x < 0x8000_0000
  }

  predicate Int64(x: int) {
    -0x8000_0000_0000_0000 <= x < 0x8000_0000_0000_0000
  }

  /** Little-endian 16-bit value of two octets. */
  function Le16(lo: int, hi: int): int {
    lo + 256 * hi
  }

  /** C division: truncates toward zero, unlike Dafny's Euclidean `/`. */
  function TruncDiv(a: int, b: int): (q: int)
    requires b > 0
    ensures -b < a - b * q < b
    ensures a >= 0 ==> 0 <= a - b * q
    ensures a <= 0 ==> a - b * q <= 0
  {
    if a >= 0 then a / b else
      assert (-a) == b * ((-a) / b) + (-a) % b;
      -((-a) / b)
  }

  lemma MulMono(a: int, x: int, y: int)
    requires a >= 0 && x <= y
    ensures a * x <= a * y && x * a <= y * a
  {
  }

  lemma MulAssoc(x: int, y: int, z: int)
    ensures (x * y) * z == x * (y * z) && (x * y) * z == (z * x) * y
  {
  }

  /** A quotient lies between zero and the factor that bounds the dividend. */
  lemma TruncBounds(x: nat, n: nat, d: nat)
    requires 0 < d && x <= n * d
    ensures 0 <= TruncDiv(x, d) <= n && 0 <= n + TruncDiv(0 - x, d) <= n
  {
    hide TruncDiv;
    QuotientBounds(x, TruncDiv(x, d), n, d);
    QuotientBounds(x, 0 - TruncDiv(0 - x, d), n, d);
  }

  lemma QuotientBounds(x: nat, q: int, n: nat, d: nat)
    requires 0 < d && x <= n * d && 0 <= x - d * q < d
    ensures 0 <= q <= n
  {
    if q > n {
      MulMono(d, n + 1, q);
    }
    if q < 0 {
      MulMono(d, q, -1);
    }
  }

  /** Quotient and remainder without the division symbols. */
  lemma DivMod(x: nat, m: nat) returns (q: nat, r: nat)
    requires 0 < m
    ensures x == q * m + r && r < m && q == x / m && r == x % m
  {
    q, r := x / m, x % m;
  }

  /** Division with remainder is unique. */
  lemma DivModUnique(q: int, r: int, m: int)
    requires 0 <= r < m
    ensures (q * m + r) / m == q && (q * m + r) % m == r
  {
    var x := q * m + r;
    var d, e := x / m, x % m;
    assert x == d * m + e && 0 <= e < m;
    if d > q {
      MulMono(m, q + 1, d);
      assert false;
    } else if d < q {
      MulMono(m, d + 1, q);
      assert false;
    }
  }

  /** Two numbers less than `m` apart with the same residue are equal. */
  lemma ModDistinct(x: int, y: int, m: int)
    requires 0 < m && x <= y < x + m && x % m == y % m
    ensures x == y
  {
    assert x == (x / m) * m + x % m;
    assert y == (y / m) * m + y % m;
    if x / m < y / m {
      MulMono(m, x / m + 1, y / m);
      assert false;
    } else if x / m > y / m {
      MulMono(m, y / m + 1, x / m);
      assert false;
    }
  }

  /** Adding a multiple shifts the quotient and keeps the remainder. */
  lemma DivModShift(x: int, k: int, m: int)
    requires 0 < m
    ensures (k * m + x) / m == k + x / m && (k * m + x) % m == x % m
  {
    assert x == (x / m) * m + x % m;
    assert k * m + x == (k + x / m) * m + x % m;
    DivModUnique(k + x / m, x % m, m);
  }

  /** Least multiple of `e` that is at least `x`. */
  function RoundUp(x: nat, e: nat): (r: nat)
    requires e > 0
  {
    ((x + e - 1) / e) * e
  }

  lemma RoundUpBounds(x: nat, e: nat)
    requires e > 0
    ensures x <= RoundUp(x, e) < x + e
    ensures RoundUp(x, e) % e == 0
  {
    var y := x + e - 1;
    assert y == (y / e) * e + y % e;
    DivModUnique(y / e, 0, e);
  }

  /** A multiple of `e` within `e` above `x` is the rounded value. */
  lemma RoundUpIs(x: nat, e: nat, r: nat)
    requires e > 0 && r % e == 0 && x <= r < x + e
    ensures RoundUp(x, e) == r
  {
    RoundUpBounds(x, e);
    if r <= RoundUp(x, e) {
      ModDistinct(r, RoundUp(x, e), e);
    } else {
      ModDistinct(RoundUp(x, e), r, e);
    }
  }

  /** Rounding does not pass a multiple that is already at least `x`. */
  lemma RoundUpLeast(x: nat, e: nat, r: nat)
    requires e > 0 && r % e == 0 && x <= r
    ensures RoundUp(x, e) <= r
  {
    RoundUpBounds(x, e);
    var u := RoundUp(x, e);
    if r < u {
      ModDistinct(r, u, e);
    }
  }

  /** The residue of a multiple modulo another multiple is a multiple. */
  lemma ModOfMultiples(x: int, y: int, e: int)
    requires 0 < e && 0 < y && x % e == 0 && y % e == 0
    ensures (x % y) % e == 0
  {
    var q, k := x / y, y / e;
    assert x == q * y + x % y;
    assert y == k * e;
    assert q * (k * e) == (q * k) * e;
    assert x == (q * k) * e + x % y;
    DivModShift(x % y, q * k, e);
  }

  /** Distinct multiples are at least one step apart. */
  lemma MultiplesApart(x: int, y: int, e: int)
    requires 0 < e && x % e == 0 && y % e == 0 && x < y
    ensures x + e <= y
  {
    if y < x + e {
      ModDistinct(x, y, e);
    }
  }

  lemma MultipleOfMultiple(n: int, y: int, e: int)
    requires 0 < e && y % e == 0
    ensures (n * y) % e == 0
  {
    var k := y / e;
    assert y == k * e;
    assert n * (k * e) == (n * k) * e;
    DivModUnique(n * k, 0, e);
  }

  /** Start of item `i` when every item takes `f` units. Unlike `i * f` it unfolds step by step. */
  function Times(i: nat, f: nat): (p: nat) {
    if i == 0 then 0 else Times(i - 1, f) + f
  }

  lemma {:induction false} TimesIsProduct(i: nat, f: nat)
    ensures Times(i, f) == i * f
    decreases i
  {
    if i > 0 {
      TimesIsProduct(i - 1, f);
    }
  }

  lemma {:induction false} TimesMono(i: nat, n: nat, f: nat)
    requires i <= n
    ensures Times(i, f) <= Times(n, f)
    decreases n
  {
    if i < n {
      TimesMono(i, n - 1, f);
    }
  }
}
