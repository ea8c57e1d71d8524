/** Natural numbers as machine words, bit by bit. */
module Bits {
  function Pow2(n: nat): (p: nat)
    ensures p >= 1
  {
    if n == 0 then 1 else 2 * Pow2(n - 1)
  }

  /** Bit j of x. */
  predicate Bit(x: nat, j: nat) {
    if j == 0 then x % 2 == 1 else Bit(x / 2, j - 1)
  }

  function And(x: nat, y: nat): nat {
    if x == 0 || y == 0 then 0 else 2 * And(x / 2, y / 2) + if x % 2 == 1 && y % 2 == 1 then 1 else 0
  }

  function Or(x: nat, y: nat): nat {
    if x == 0 && y == 0 then 0 else 2 * Or(x / 2, y / 2) + if x % 2 == 1 || y % 2 == 1 then 1 else 0
  }

  lemma {:induction false} NoBits(j: nat)
    ensures !Bit(0, j)
  {
    if j > 0 {
      NoBits(j - 1);
    }
  }

  lemma {:induction false} Pow2Bit(k: nat, j: nat)
    ensures Bit(Pow2(k), j) <==> j == k
  {
    if k == 0 && j > 0 {
      NoBits(j - 1);
    } else if k > 0 && j > 0 {
      Pow2Bit(k - 1, j - 1);
    }
  }

  lemma {:induction false} OrBit(x: nat, y: nat, j: nat)
    ensures Bit(Or(x, y), j) <==> Bit(x, j) || Bit(y, j)
  {
    if x == 0 && y == 0 {
      NoBits(j);
    } else if j > 0 {
      OrBit(x / 2, y / 2, j - 1);
    }
  }

  /** `x & (1 << j)` is not zero iff bit j of x is set. */
  lemma {:induction false} AndPow2(x: nat, j: nat)
    ensures And(x, Pow2(j)) != 0 <==> Bit(x, j)
  {
    if x == 0 {
      NoBits(j);
    } else if j == 0 {
      assert And(x / 2, 0) == 0;
    } else {
      AndPow2(x / 2, j - 1);
    }
  }

  /** `x | (1 << j)` is x itself iff bit j of x is set. */
  lemma {:induction false} OrPow2(x: nat, j: nat)
    ensures Or(x, Pow2(j)) == x <==> Bit(x, j)
  {
    if j == 0 {
      OrZero(x / 2);
    } else {
      OrPow2(x / 2, j - 1);
    }
  }

  lemma {:induction false} OrZero(x: nat)
    ensures Or(x, 0) == x
  {
    if x > 0 {
      OrZero(x / 2);
    }
  }

  lemma {:induction false} OrBelow(x: nat, y: nat, n: nat)
    requires x < Pow2(n) && y < Pow2(n)
    ensures Or(x, y) < Pow2(n)
  {
    if n > 0 {
      OrBelow(x / 2, y / 2, n - 1);
    }
  }

  lemma {:induction false} Pow2Grows(m: nat, n: nat)
    requires m < n
    ensures 2 * Pow2(m) <= Pow2(n)
  {
    if m + 1 < n {
      Pow2Grows(m, n - 1);
    }
  }

  lemma {:induction false} AndOnes(x: nat, n: nat)
    requires x < Pow2(n)
    ensures And(x, Pow2(n) - 1) == x
  {
    if x > 0 {
      AndOnes(x / 2, n - 1);
      assert (Pow2(n) - 1) / 2 == Pow2(n - 1) - 1;
    }
  }

  lemma HalveMod(x: nat, q: nat)
    requires q > 0
    ensures x % (2 * q) == 2 * ((x / 2) % q) + x % 2
  {
    var h := x / 2;
    var r := 2 * (h % q) + x % 2;
    assert x == 2 * (q * (h / q) + h % q) + x % 2;
    assert x == (2 * q) * (h / q) + r;
    assert r < 2 * q;
    ModUnique(x, 2 * q, h / q, r);
  }

  lemma ModUnique(x: nat, m: nat, d: nat, r: nat)
    requires r < m && x == m * d + r
    ensures x % m == r && x / m == d
  {
    Multiple(m, d - x / m);
  }

  lemma Multiple(m: nat, d: int)
    ensures d != 0 ==> m * d >= m || m * d + m <= 0
  {
  }

  /** `x & ~(p - 1)` on n-bit words clears the low bits: for p a power of two it rounds down to a multiple of p. */
  lemma {:induction false} AndHighBits(x: nat, n: nat, k: nat)
    requires x < Pow2(n) && k <= n
    ensures Pow2(k) <= Pow2(n)
    ensures And(x, Pow2(n) - Pow2(k)) == x - x % Pow2(k)
  {
    if k == 0 {
      AndOnes(x, n);
    } else {
      AndHighBits(x / 2, n - 1, k - 1);
      assert (Pow2(n) - Pow2(k)) / 2 == Pow2(n - 1) - Pow2(k - 1);
      HalveMod(x, Pow2(k - 1));
    }
  }
}
