/** Machine-integer ranges, powers of two and four, and the Result type shared
    by every module of the PMTiles read-path model. Rust's u8, u32 and u64 are
    modelled as ranges of `nat`; `usize` is taken to be 64 bits wide. */
module Ints {

  const TWO_32: nat := 0x1_0000_0000
  const TWO_64: nat := 0x1_0000_0000_0000_0000

  type Byte = b: nat | b < 256
  type U32 = x: nat | x < TWO_32
  type U64 = x: nat | x < TWO_64
  /** A bit as the Rust code produces it with `(... > 0) as u32` or `1 & ...`. */
  type Bit = b: nat | b < 2

  datatype Result<T, E> = Ok(value: T) | Err(error: E)

  function Pow2(k: nat): (r: nat)
    ensures r >= 1
  {
    if k == 0 then 1 else 2 * Pow2(k - 1)
  }

  function Pow4(k: nat): (r: nat)
    ensures r >= 1
  {
    if k == 0 then 1 else 4 * Pow4(k - 1)
  }

  lemma {:induction false} Pow2Add(a: nat, b: nat)
    ensures Pow2(a + b) == Pow2(a) * Pow2(b)
    decreases a
  {
    if a > 0 {
      Pow2Add(a - 1, b);
      assert Pow2(a + b) == 2 * Pow2(a - 1 + b);
    }
  }

  lemma {:induction false} Pow4IsSquare(k: nat)
    ensures Pow4(k) == Pow2(k) * Pow2(k)
    decreases k
  {
    if k > 0 {
      Pow4IsSquare(k - 1);
      var p := Pow2(k - 1);
      calc {
        Pow4(k);
        4 * (p * p);
        (2 * p) * (2 * p);
        Pow2(k) * Pow2(k);
      }
    }
  }

  lemma {:induction false} Pow2Monotone(a: nat, b: nat)
    requires a <= b
    ensures Pow2(a) <= Pow2(b)
    decreases b
  {
    if a < b {
      Pow2Monotone(a, b - 1);
    }
  }

  lemma {:induction false} Pow4Monotone(a: nat, b: nat)
    requires a <= b
    ensures Pow4(a) <= Pow4(b)
    decreases b
  {
    if a < b {
      Pow4Monotone(a, b - 1);
    }
  }

  lemma {:induction false} Pow2StrictlyMonotone(a: nat, b: nat)
    ensures a < b ==> Pow2(a) < Pow2(b)
    decreases b
  {
    if a < b - 1 {
      Pow2StrictlyMonotone(a, b - 1);
    }
  }

  lemma Pow2Small()
    ensures Pow2(6) == 64 && Pow2(7) == 128 && Pow2(8) == 256
  {
    assert Pow2(8) == 256;
  }

  lemma Pow2Of32()
    ensures Pow2(32) == TWO_32
  {
    Pow2Small();
    Pow2Add(8, 8);
    Pow2Add(16, 16);
  }

  lemma Pow2Of64()
    ensures Pow2(64) == TWO_64
  {
    Pow2Of32();
    Pow2Add(32, 32);
  }

  /** The widths of the u32 coordinates: 2^k for k <= 31 fits in a u32. */
  lemma Pow2Below32(k: nat)
    requires k <= 31
    ensures Pow2(k) < TWO_32
  {
    Pow2StrictlyMonotone(k, 32);
    Pow2Of32();
  }

  /** 4^k for k <= 31 fits in a u64. */
  lemma Pow4Below64(k: nat)
    requires k <= 31
    ensures Pow4(k) < TWO_64
  {
    Pow4Monotone(k, 31);
    Pow4Of31();
  }

  lemma Pow4Of31()
    ensures Pow4(31) == Pow2(62) < TWO_64
  {
    assert Pow4(31) == Pow2(62) by {
      Pow4IsSquare(31);
      Pow2Add(31, 31);
    }
    Pow2StrictlyMonotone(62, 64);
    Pow2Of64();
  }

  /** Halving 2^k, as `s >> 1` does: 2^(k-1), or 0 when k is 0. */
  lemma HalvePow2(k: nat)
    ensures Pow2(k) / 2 == if k == 0 then 0 else Pow2(k - 1)
  {
  }

  /** Multiplication by a natural number is monotone. */
  lemma MulMonotone(x: int, y: int, b: nat)
    ensures x <= y ==> x * b <= y * b
  {
  }

  /** A product of natural numbers is a natural number. */
  lemma MulNat(a: nat, b: nat, c: nat)
    ensures 0 <= a * b * c
  {
    MulMonotone(0, a, b);
    MulMonotone(0, a * b, c);
  }

  /** A base-4 digit q followed by a remainder below b stays below 4 * b. */
  lemma DigitBound(b: nat, q: nat, r: nat)
    requires q < 4 && r < b
    ensures b * q + r < 4 * b
  {
    MulMonotone(q, 3, b);
  }

  /** Splitting d < 4 * b into its leading base-4 digit and the remainder. */
  lemma DigitSplit(d: nat, b: nat)
    requires b > 0 && d < 4 * b
    ensures 0 <= d / b < 4 && d % b < b && d == b * (d / b) + d % b
  {
    MulMonotone(4, d / b, b);
    MulMonotone(d / b, -1, b);
  }

  /** Division and remainder are determined by any quotient/remainder pair. */
  lemma DivModUnique(a: nat, b: nat, q: int, r: nat)
    requires 0 <= r < b && a == q * b + r
    ensures a / b == q && a % b == r
  {
    var q', r' := a / b, a % b;
    assert a == q' * b + r';
    MulMonotone(q' + 1, q, b);
    MulMonotone(q + 1, q', b);
    assert (q' + 1) * b == q' * b + b;
    assert (q + 1) * b == q * b + b;
  }

  /** Regrouping a two-level mixed-radix number. */
  lemma MulSucc(b: int, q: int)
    ensures b * (q + 1) == b * q + b
  {
  }

  lemma MulRegroup(q: int, r: int, b: int, c: int)
    ensures q * (b * c) + r * b == (q * c + r) * b
  {
  }

  /** A digit below c, scaled by b and topped up by less than b, stays below b * c. */
  lemma DigitBelow(r: nat, r0: nat, b: nat, c: nat)
    requires r < c && r0 < b
    ensures r * b + r0 < b * c
  {
    MulMonotone(r, c - 1, b);
    assert (c - 1) * b == c * b - b;
  }

  /** The quotient of a number below b * c by b is below c. */
  lemma QuotientBelow(r: nat, b: nat, c: nat)
    requires b > 0 && r < b * c
    ensures r / b < c
  {
    MulMonotone(c, r / b, b);
  }

  /** Dividing twice is dividing by the product. */
  lemma DivDiv(a: nat, b: nat, c: nat)
    requires b > 0 && c > 0
    ensures (a / b) / c == a / (b * c)
  {
    var q1, r1 := a / b, a % b;
    var q2, r2 := q1 / c, q1 % c;
    assert a == q2 * (b * c) + (r2 * b + r1) by {
      MulRegroup(q2, r2, b, c);
    }
    DigitBelow(r2, r1, b, c);
    DivModUnique(a, b * c, q2, r2 * b + r1);
  }

  /** a / b and a % b, read off the quotient and remainder of a modulo b * c. */
  lemma DivFromMod(a: nat, b: nat, c: nat)
    requires b > 0 && c > 0
    ensures a / b == (a / (b * c)) * c + (a % (b * c)) / b
    ensures a % b == (a % (b * c)) % b
  {
    var q := a / (b * c);
    var r := a % (b * c);
    var r1, r0 := r / b, r % b;
    assert a == (q * c + r1) * b + r0 by {
      MulRegroup(q, r1, b, c);
    }
    DivModUnique(a, b, q * c + r1, r0);
  }

  /** Taking `a` modulo `b * c` and then dividing by `b` gives the c-ary digit of a / b. */
  lemma DivOfMod(a: nat, b: nat, c: nat)
    requires b > 0 && c > 0
    ensures (a % (b * c)) / b == (a / b) % c
    ensures (a % (b * c)) % b == a % b
  {
    DivFromMod(a, b, c);
    QuotientBelow(a % (b * c), b, c);
    DivModUnique(a / b, c, a / (b * c), (a % (b * c)) / b);
  }

  /** The remainder modulo b * c splits into the c-ary digit of a / b and
      the remainder modulo b. */
  lemma ModSplit(a: nat, b: nat, c: nat)
    requires b > 0 && c > 0
    ensures a % (b * c) == b * ((a / b) % c) + a % b
  {
    DivOfMod(a, b, c);
    var r := a % (b * c);
    assert r == b * (r / b) + r % b;
  }
}
