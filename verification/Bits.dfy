/** Exclusive or on numbers, bit by bit. */
module Bits {

  function Xor(a: nat, b: nat): nat
    decreases a + b
  {
    if a == 0 && b == 0 then 0 else 2 * Xor(a / 2, b / 2) + (a + b) % 2
  }

  /** The number made of the lowest `k` bits: what a cast to a narrower unsigned type keeps. */
  function Low(a: nat, k: nat): nat {
    if k == 0 then 0 else 2 * Low(a / 2, k - 1) + a % 2
  }

  function Pow2(k: nat): (p: nat)
    ensures p > 0
  {
    if k == 0 then 1 else 2 * Pow2(k - 1)
  }

  lemma Halves(x: nat, q: nat, r: nat)
    requires x == 2 * q + r && r < 2
    ensures x / 2 == q && x % 2 == r
  {
  }

  lemma XorHalves(a: nat, b: nat)
    ensures Xor(a, b) / 2 == Xor(a / 2, b / 2) && Xor(a, b) % 2 == (a + b) % 2
  {
    Halves(Xor(a, b), Xor(a / 2, b / 2), (a + b) % 2);
  }

  lemma Parity(a: nat, b: nat)
    ensures ((a + b) % 2 + b) % 2 == a % 2
    ensures (a + b) % 2 == (a % 2 + b % 2) % 2
  {
  }

  lemma LowHalves(a: nat, k: nat)
    requires k > 0
    ensures Low(a, k) / 2 == Low(a / 2, k - 1) && Low(a, k) % 2 == a % 2
  {
    Halves(Low(a, k), Low(a / 2, k - 1), a % 2);
  }

  /** A number is made of its half and its last bit. */
  lemma SameHalves(x: nat, y: nat)
    requires x / 2 == y / 2 && x % 2 == y % 2
    ensures x == y
  {
  }

  lemma Zeros()
    ensures Xor(0, 0) == 0 && forall a :: Low(a, 0) == 0
  {
  }

  /** A second exclusive or with the same number undoes the first. */
  lemma {:induction false} XorTwice(a: nat, b: nat)
    ensures Xor(Xor(a, b), b) == a
    decreases a + b
  {
    hide Xor;
    Zeros();
    if a == 0 && b == 0 {
    } else {
      XorTwice(a / 2, b / 2);
      XorHalves(a, b);
      XorHalves(Xor(a, b), b);
      Parity(a, b);
      Parity(Xor(a, b), b);
      SameHalves(Xor(Xor(a, b), b), a);
    }
  }

  /** The low bits of an exclusive or depend only on low bits. */
  lemma {:induction false} XorLow(a: nat, b: nat, k: nat)
    ensures Low(Xor(a, b), k) == Xor(Low(a, k), Low(b, k))
  {
    hide Xor, Low;
    Zeros();
    if k == 0 {
    } else {
      XorLow(a / 2, b / 2, k - 1);
      XorHalves(a, b);
      LowHalves(Xor(a, b), k);
      LowHalves(a, k);
      LowHalves(b, k);
      XorHalves(Low(a, k), Low(b, k));
      Parity(a, b);
      Parity(Low(a, k), Low(b, k));
      SameHalves(Low(Xor(a, b), k), Xor(Low(a, k), Low(b, k)));
    }
  }

  lemma {:induction false} LowBound(a: nat, k: nat)
    ensures Low(a, k) < Pow2(k)
    ensures a < Pow2(k) ==> Low(a, k) == a
  {
    if k == 0 {
    } else {
      LowBound(a / 2, k - 1);
    }
  }

  /** The bits from number `k` on do not count. */
  lemma {:induction false} LowOfSum(a: nat, m: nat, k: nat)
    ensures Low(a + Pow2(k) * m, k) == Low(a, k)
  {
    if k == 0 {
    } else {
      var n := Pow2(k - 1) * m;
      assert Pow2(k) * m == 2 * n;
      Halves(a + 2 * n, a / 2 + n, a % 2);
      LowOfSum(a / 2, m, k - 1);
    }
  }

  /** Bit number `j`, from the lowest. */
  predicate Bit(a: nat, j: nat) {
    if j == 0 then a % 2 == 1 else Bit(a / 2, j - 1)
  }

  lemma FourBits(n: nat)
    ensures (Bit(n, 0) <==> n % 2 == 1) && (Bit(n, 1) <==> n / 2 % 2 == 1)
    ensures (Bit(n, 2) <==> n / 2 / 2 % 2 == 1) && (Bit(n, 3) <==> n / 2 / 2 / 2 % 2 == 1)
  {
    assert Bit(n / 2, 1) == Bit(n / 2 / 2, 0) && Bit(n / 2, 2) == Bit(n / 2 / 2, 1);
  }

  lemma UpperBits(n: nat, j: nat)
    requires j >= 4
    ensures Bit(n, j) == Bit(n / 16, j - 4)
  {
    assert n / 2 / 2 / 2 / 2 == n / 16;
    assert Bit(n / 2, j - 1) == Bit(n / 2 / 2, j - 2) == Bit(n / 2 / 2 / 2, j - 3);
  }

  /** A bit of an exclusive or is set if and only if the bits differ. */
  lemma {:induction false} BitOfXor(a: nat, b: nat, j: nat)
    ensures Bit(Xor(a, b), j) <==> Bit(a, j) != Bit(b, j)
    decreases j
  {
    hide Xor;
    XorHalves(a, b);
    if j == 0 {
    } else {
      BitOfXor(a / 2, b / 2, j - 1);
    }
  }

  lemma {:induction false} BitOfLow(a: nat, k: nat, j: nat)
    ensures Bit(Low(a, k), j) <==> j < k && Bit(a, j)
    decreases j
  {
    hide Low;
    if k == 0 {
      Zeros();
      NoBits(j);
    } else {
      LowHalves(a, k);
      if j == 0 {
      } else {
        BitOfLow(a / 2, k - 1, j - 1);
      }
    }
  }

  lemma {:induction false} NoBits(j: nat)
    ensures !Bit(0, j)
  {
    if j == 0 {
    } else {
      NoBits(j - 1);
    }
  }

  lemma Byte()
    ensures Pow2(8) == 256
  {
    assert Pow2(4) == 16;
  }
}
