/** Low-order bits of a hash value.

    The directory is indexed by the low `depth` bits of a key's hash, and a
    bucket split redistributes entries on the next bit up. `Low(x, d)` is
    x mod 2^d and `Bit(x, d)` is bit d of x, both defined bit by bit so that
    the proofs below stay in linear arithmetic. */
module Bits {

  /** Width of the hash value in bits: `HashKey` returns a `size_t`. */
  const HASH_BITS: nat := 64

  /** 2^d. */
  function Pow2(d: nat): (p: nat)
    ensures p >= 1
  {
    if d == 0 then 1 else 2 * Pow2(d - 1)
  }

  /** The low `d` bits of `x`, that is, x mod 2^d (see LowIsMod). */
  function Low(x: nat, d: nat): (r: nat)
    ensures r < Pow2(d)
  {
    if d == 0 then 0 else x % 2 + 2 * Low(x / 2, d - 1)
  }

  /** Bit `d` of `x`, bit 0 being the least significant. */
  function Bit(x: nat, d: nat): (b: nat)
    ensures b < 2
  {
    if d == 0 then x % 2 else Bit(x / 2, d - 1)
  }

  /** `Low` is the remainder modulo 2^d. */
  lemma {:induction false} LowIsMod(x: nat, d: nat)
    ensures Low(x, d) == x % Pow2(d)
  {
    if d > 0 {
      var p := Pow2(d - 1);
      var y := x / 2;
      LowIsMod(y, d - 1);
      var q, r := DivModOf(y, p);
      Regroup(x, y, q, p, r);
      ModUnique(x, 2 * p, q, 2 * r + x % 2);
    }
  }

  /** Quotient and remainder of y by p. */
  lemma DivModOf(y: nat, p: nat) returns (q: nat, r: nat)
    requires p > 0
    ensures r == y % p && y == q * p + r
  {
    q, r := y / p, y % p;
  }

  /** x = 2y + x%2 and y = qp + r give x = q(2p) + (2r + x%2). */
  lemma Regroup(x: nat, y: nat, q: nat, p: nat, r: nat)
    requires y == x / 2 && y == q * p + r
    ensures x == q * (2 * p) + (2 * r + x % 2)
  {
    assert x == 2 * y + x % 2;
    assert 2 * (q * p) == q * (2 * p);
  }

  /** Euclidean division has a unique remainder. */
  lemma ModUnique(x: nat, m: nat, q: nat, r: nat)
    requires 0 <= r < m
    requires x == q * m + r
    ensures x % m == r
  {
    var q' := x / m;
    var r' := x % m;
    assert x == q' * m + r';
    if q' < q {
      MulGap(q', q, m);
    } else if q' > q {
      MulGap(q, q', m);
    }
  }

  /** Distinct multiples of m lie at least m apart. */
  lemma {:induction false} MulGap(a: nat, b: nat, m: nat)
    requires a < b
    ensures a * m + m <= b * m
  {
    if b > a + 1 {
      MulGap(a, b - 1, m);
    }
    assert (b - 1) * m + m == b * m;
  }

  /** Adding one bit: the low d+1 bits are the low d bits plus bit d. */
  lemma {:induction false} LowSucc(x: nat, d: nat)
    ensures Low(x, d + 1) == Low(x, d) + (if Bit(x, d) == 1 then Pow2(d) else 0)
  {
    if d > 0 {
      LowSucc(x / 2, d - 1);
    }
  }

  /** Taking the low d1 bits of the low d2 bits, d1 <= d2, is taking the low d1 bits. */
  lemma {:induction false} LowLow(x: nat, d1: nat, d2: nat)
    requires d1 <= d2
    ensures Low(Low(x, d2), d1) == Low(x, d1)
  {
    if d1 > 0 {
      var z := Low(x / 2, d2 - 1);
      var y := Low(x, d2);
      assert y == x % 2 + 2 * z;
      ShiftOut(x % 2, z);
      LowLow(x / 2, d1 - 1, d2 - 1);
    }
  }

  /** The bits below position g survive truncation to g bits. */
  lemma {:induction false} BitLow(x: nat, d: nat, g: nat)
    requires d < g
    ensures Bit(Low(x, g), d) == Bit(x, d)
  {
    var z := Low(x / 2, g - 1);
    var y := Low(x, g);
    assert y == x % 2 + 2 * z;
    ShiftOut(x % 2, z);
    if d > 0 {
      BitLow(x / 2, d - 1, g - 1);
    }
  }

  /** Bit b followed by the bits of z: its lowest bit is b, the rest is z. */
  lemma ShiftOut(b: nat, z: nat)
    requires b < 2
    ensures (b + 2 * z) % 2 == b && (b + 2 * z) / 2 == z
  {
  }

  /** A value below 2^d is its own low d bits. */
  lemma {:induction false} LowOfSmall(x: nat, d: nat)
    requires x < Pow2(d)
    ensures Low(x, d) == x
  {
    if d > 0 {
      LowOfSmall(x / 2, d - 1);
    }
  }

  /** 2^d grows with d. */
  lemma {:induction false} Pow2Mono(d1: nat, d2: nat)
    requires d1 <= d2
    ensures Pow2(d1) <= Pow2(d2)
  {
    if d1 < d2 {
      Pow2Mono(d1, d2 - 1);
    }
  }

  /** In a directory of 2^(g+1) slots, the low g bits of slot s name the
      slot of the half-sized directory that s was copied from. */
  lemma LowOfDoubled(s: nat, g: nat)
    requires s < 2 * Pow2(g)
    ensures Low(s, g) == if s < Pow2(g) then s else s - Pow2(g)
  {
    LowSucc(s, g);
    LowOfSmall(s, g + 1);
  }
}
