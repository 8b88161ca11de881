// Powers of two, and bitwise operations on numbers of any width.

module Bits {
  function Pow2(n: nat): (r: nat)
    ensures r >= 1
  {
    if n == 0 then 1 else 2 * Pow2(n - 1)
  }

  lemma {:induction false} Pow2Monotone(m: nat, n: nat)
    requires m <= n
    ensures Pow2(m) <= Pow2(n)
  {
    if m < n {
      Pow2Monotone(m, n - 1);
    }
  }

  lemma PowersOfTwo()
    ensures Pow2(3) == 8 && Pow2(4) == 16 && Pow2(6) == 64 && Pow2(8) == 256
  {
    assert Pow2(4) == 16;
    assert Pow2(6) == 64;
  }

  /** Bitwise exclusive or. */
  function Xor(a: nat, b: nat): nat
    decreases a + b
  {
    if a == 0 && b == 0 then 0 else 2 * Xor(a / 2, b / 2) + if a % 2 == b % 2 then 0 else 1
  }

  /** The low k bits of x. */
  function Low(x: nat, k: nat): nat {
    if k == 0 then 0 else x % 2 + 2 * Low(x / 2, k - 1)
  }

  lemma {:induction false} XorSame(t: nat, a: nat, b: nat, k: nat)
    requires Low(Xor(t, a), k) == Low(Xor(t, b), k)
    ensures Low(a, k) == Low(b, k)
    decreases k
  {
    if k > 0 {
      XorStep(t, a);
      XorStep(t, b);
      XorSame(t / 2, a / 2, b / 2, k - 1);
    }
  }

  lemma XorStep(a: nat, b: nat)
    ensures Xor(a, b) / 2 == Xor(a / 2, b / 2) && Xor(a, b) % 2 == if a % 2 == b % 2 then 0 else 1
  {
  }

  lemma {:induction false} LowShorter(x: nat, y: nat, j: nat, k: nat)
    requires j <= k && Low(x, k) == Low(y, k)
    ensures Low(x, j) == Low(y, j)
    decreases j
  {
    if j > 0 {
      LowShorter(x / 2, y / 2, j - 1, k - 1);
    }
  }

  /** Bits shifted up by k do not touch the low k bits. */
  lemma {:induction false} XorShifted(x: nat, c: nat, k: nat, scale: nat)
    requires scale == Pow2(k)
    ensures Low(Xor(x, c * scale), k) == Low(x, k)
    decreases k
  {
    if k > 0 {
      var half := Pow2(k - 1);
      assert c * scale == 2 * (c * half);
      XorStep(x, c * scale);
      XorShifted(x / 2, c, k - 1, half);
    }
  }

  lemma {:induction false} XorSwaps(a: nat, b: nat)
    ensures Xor(a, b) == Xor(b, a)
    decreases a + b
  {
    if a != 0 || b != 0 {
      XorSwaps(a / 2, b / 2);
    }
  }

  /** What is above the low k bits is a multiple of 2^k. */
  lemma {:induction false} LowRest(x: nat, k: nat) returns (q: nat)
    ensures x == Low(x, k) + Pow2(k) * q
    decreases k
  {
    if k == 0 {
      q := x;
    } else {
      q := LowRest(x / 2, k - 1);
      assert Pow2(k) * q == 2 * (Pow2(k - 1) * q);
    }
  }

  lemma {:induction false} LowSmall(x: nat, k: nat)
    requires x < Pow2(k)
    ensures Low(x, k) == x
    decreases k
  {
    if k > 0 {
      LowSmall(x / 2, k - 1);
    }
  }

  lemma {:induction false} LowBelow(x: nat, k: nat)
    ensures Low(x, k) < Pow2(k)
    decreases k
  {
    if k > 0 {
      LowBelow(x / 2, k - 1);
    }
  }
}
