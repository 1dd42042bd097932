/**
  Unsigned machine words as natural numbers: shifts, bitwise and/or/xor, and
  the arithmetic facts the C code relies on when it packs and unpacks fields.
 */
module Bits {

  type byte = x: int | 0 <= x < 256

  function Pow2(k: nat): (p: nat)
    ensures p >= 1
  {
    if k == 0 then 1 else 2 * Pow2(k - 1)
  }

  function Shl(a: nat, k: nat): nat { a * Pow2(k) }

  function Shr(a: nat, k: nat): nat { Quotient(a, Pow2(k)) }

  function Quotient(a: nat, m: nat): (q: nat)
    requires m >= 1
  {
    a / m
  }

  function Remainder(a: nat, m: nat): (r: nat)
    requires m >= 1
    ensures r < m
  {
    a % m
  }

  function And(a: nat, b: nat): nat {
    if a == 0 || b == 0 then 0
    else 2 * And(a / 2, b / 2) + (if a % 2 == 1 && b % 2 == 1 then 1 else 0)
  }

  function Or(a: nat, b: nat): nat {
    if a == 0 then b
    else if b == 0 then a
    else 2 * Or(a / 2, b / 2) + (if a % 2 == 1 || b % 2 == 1 then 1 else 0)
  }

  function Xor(a: nat, b: nat): nat {
    if a == 0 then b
    else if b == 0 then a
    else 2 * Xor(a / 2, b / 2) + (if a % 2 != b % 2 then 1 else 0)
  }

  /** Bit number k of a, counting from the least significant one. */
  predicate Bit(a: nat, k: nat) {
    if k == 0 then a % 2 == 1 else Bit(a / 2, k - 1)
  }

  // ---- powers of two ------------------------------------------------------

  lemma {:induction false} Pow2Add(a: nat, b: nat)
    ensures Pow2(a + b) == Pow2(a) * Pow2(b)
  {
    if a == 0 {
    } else {
      Pow2Add(a - 1, b);
      assert Pow2(a + b) == 2 * Pow2(a - 1 + b);
    }
  }

  lemma {:induction false} Pow2Mono(a: nat, b: nat)
    requires a <= b
    ensures Pow2(a) <= Pow2(b)
    ensures a < b ==> Pow2(a) < Pow2(b)
  {
    if a < b {
      Pow2Mono(a, b - 1);
    }
  }

  lemma SmallMod(x: nat, m: nat)
    requires x < m
    ensures x % m == x
  {
  }

  lemma MulMono(a: nat, b: nat, p: nat)
    requires a <= b
    ensures a * p <= b * p
  {
  }

  /** A multiple of m strictly between -m and m is zero. */
  lemma MultipleNearZero(x: int, m: int)
    requires -m < x * m < m
    ensures x == 0
  {
    assert x >= 1 ==> x * m >= m;
    assert x <= -1 ==> x * m <= -m;
  }

  /** Division recovers the high part of q * m + r, the remainder the low one. */
  lemma DivModUnique(n: nat, q: nat, m: nat, r: nat)
    requires r < m && n == q * m + r
    ensures n / m == q && n % m == r
  {
    var d := n / m;
    assert (q - d) * m == q * m - d * m;
    MultipleNearZero(q - d, m);
  }

  /** A high part above a low part that is smaller than the unit p. */
  function Pack(high: nat, p: nat, low: nat): nat { high * p + low }

  lemma Unpack(high: nat, p: nat, low: nat)
    requires low < p
    ensures Pack(high, p, low) / p == high && Pack(high, p, low) % p == low
  {
    DivModUnique(Pack(high, p, low), high, p, low);
  }

  lemma PackBound(high: nat, p: nat, low: nat, c: nat)
    requires high < c && low < p
    ensures Pack(high, p, low) < c * p
  {
    MulMono(high + 1, c, p);
    assert (high + 1) * p == high * p + p;
  }

  lemma PackMono(h1: nat, l1: nat, h2: nat, l2: nat, p: nat)
    requires h1 < h2 && l1 < p
    ensures Pack(h1, p, l1) < Pack(h2, p, l2)
  {
    MulMono(h1 + 1, h2, p);
    assert (h1 + 1) * p == h1 * p + p;
  }

  lemma Repacked(v: nat, p: nat)
    requires p >= 1
    ensures Pack(v / p, p, v % p) == v
  {
  }

  lemma AddThenMod(v: nat, n: nat, m: nat)
    requires m >= 1
    ensures (v + n) % m == (v % m + n) % m
  {
    var w := v % m + n;
    assert (v / m + w / m) * m == (v / m) * m + (w / m) * m;
    DivModUnique(v + n, v / m + w / m, m, w % m);
  }

  /** Reducing a packed word modulo c units reduces its high part modulo c. */
  lemma PackMod(q: nat, r: nat, p: nat, c: nat)
    requires r < p && c >= 1
    ensures c * p >= 1
    ensures Pack(q, p, r) % (c * p) == Pack(q % c, p, r)
  {
    var d, m := q / c, q % c;
    PackBound(m, p, r, c);
    assert q * p == (d * c + m) * p;
    assert (d * c + m) * p == d * (c * p) + m * p;
    DivModUnique(Pack(q, p, r), d, c * p, Pack(m, p, r));
  }

  // ---- or / and as arithmetic ----------------------------------------------

  /** Or-ing a shifted high part with a low part that fits below it is addition. */
  lemma {:induction false} OrIsAdd(high: nat, low: nat, k: nat)
    requires low < Pow2(k)
    ensures Or(Shl(high, k), low) == high * Pow2(k) + low
  {
    var s := high * Pow2(k);
    if k == 0 || high == 0 {
    } else if low == 0 {
    } else {
      assert s == 2 * (high * Pow2(k - 1));
      OrIsAdd(high, low / 2, k - 1);
    }
  }

  /** The same for a word x that is a multiple of the unit p = 2^k. */
  lemma OrAligned(x: nat, high: nat, low: nat, k: nat, p: nat)
    requires p == Pow2(k) && x == high * p && low < p
    ensures Or(x, low) == x + low
  {
    OrIsAdd(high, low, k);
  }

  lemma {:induction false} OrCommutes(a: nat, b: nat)
    ensures Or(a, b) == Or(b, a)
  {
    if a != 0 && b != 0 {
      OrCommutes(a / 2, b / 2);
    }
  }

  /** Two bytes as a little-endian 16-bit word. */
  function Le16(b0: byte, b1: byte): (v: nat)
    ensures v < 65536
  {
    b0 as int + 256 * (b1 as int)
  }

  lemma Le16IsOr(b0: byte, b1: byte)
    ensures Or(b0, Shl(b1, 8)) == Le16(b0, b1)
  {
    assert Pow2(8) == 256;
    OrCommutes(b0, Shl(b1, 8));
    OrAligned(Shl(b1, 8), b1, b0, 8, 256);
  }

  /** Masking with 2^k - 1 is the remainder modulo 2^k. */
  lemma {:induction false} AndMask(a: nat, k: nat)
    ensures And(a, Pow2(k) - 1) == a % Pow2(k)
  {
    if k == 0 {
    } else if a == 0 {
    } else {
      AndMask(a / 2, k - 1);
      HalfRemainder(a, Pow2(k - 1));
    }
  }

  lemma HalfRemainder(a: nat, p: nat)
    requires p >= 1
    ensures a % (2 * p) == 2 * ((a / 2) % p) + a % 2
  {
    var q, r := (a / 2) / p, (a / 2) % p;
    assert a / 2 == q * p + r;
    assert q * (2 * p) == 2 * (q * p);
    DivModUnique(a, q, 2 * p, 2 * r + a % 2);
  }

  lemma {:induction false} OrBound(a: nat, b: nat, k: nat)
    requires a < Pow2(k) && b < Pow2(k)
    ensures Or(a, b) < Pow2(k)
  {
    if k == 0 || a == 0 || b == 0 {
    } else {
      OrBound(a / 2, b / 2, k - 1);
    }
  }

  lemma {:induction false} XorBound(a: nat, b: nat, k: nat)
    requires a < Pow2(k) && b < Pow2(k)
    ensures Xor(a, b) < Pow2(k)
  {
    if k == 0 || a == 0 || b == 0 {
    } else {
      XorBound(a / 2, b / 2, k - 1);
    }
  }

  /** Xor-ing twice with the same word gives the first operand back. */
  lemma {:induction false} XorCancel(a: nat, b: nat)
    ensures Xor(Xor(a, b), b) == a
  {
    if a == 0 || b == 0 {
      XorSelf(b);
    } else {
      XorCancel(a / 2, b / 2);
      var x := Xor(a, b);
      assert x / 2 == Xor(a / 2, b / 2) && x % 2 == (if a % 2 != b % 2 then 1 else 0);
    }
  }

  lemma {:induction false} XorSelf(b: nat)
    ensures Xor(b, b) == 0
  {
    if b != 0 {
      XorSelf(b / 2);
    }
  }

  // ---- single bits ----------------------------------------------------------

  lemma {:induction false} ZeroBit(k: nat)
    ensures !Bit(0, k)
  {
    if k > 0 {
      ZeroBit(k - 1);
    }
  }

  lemma {:induction false} OrBit(a: nat, b: nat, k: nat)
    ensures Bit(Or(a, b), k) <==> Bit(a, k) || Bit(b, k)
  {
    ZeroBit(k);
    if a == 0 || b == 0 {
    } else if k > 0 {
      OrBit(a / 2, b / 2, k - 1);
    }
  }

  lemma {:induction false} Pow2Bit(j: nat, k: nat)
    ensures Bit(Pow2(j), k) <==> j == k
  {
    if j == 0 {
      if k > 0 {
        ZeroBit(k - 1);
      }
    } else if k > 0 {
      Pow2Bit(j - 1, k - 1);
    }
  }

  /** The C test `a & (1 << k)` is non-zero exactly when bit k of a is set. */
  lemma {:induction false} AndPow2(a: nat, k: nat)
    ensures And(a, Pow2(k)) != 0 <==> Bit(a, k)
  {
    if a == 0 {
      ZeroBit(k);
    } else if k > 0 {
      AndPow2(a / 2, k - 1);
    }
  }

  /** Words below 2^k with the same k low-order bits are equal. */
  lemma {:induction false} SameBits(a: nat, b: nat, k: nat)
    requires a < Pow2(k) && b < Pow2(k)
    requires forall j: nat :: j < k ==> (Bit(a, j) <==> Bit(b, j))
    ensures a == b
  {
    if k > 0 {
      assert Bit(a, 0) <==> Bit(b, 0);
      forall j: nat | j < k - 1
        ensures Bit(a / 2, j) <==> Bit(b / 2, j)
      {
        assert Bit(a, j + 1) <==> Bit(b, j + 1);
      }
      SameBits(a / 2, b / 2, k - 1);
    }
  }
}
