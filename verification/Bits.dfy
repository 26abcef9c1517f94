/** The bit operators of C on unsigned words, written out on natural numbers. */
module Bits {
  function Pow2(n: nat): (p: nat)
    ensures p >= 1
  {
    if n == 0 then 1 else 2 * Pow2(n - 1)
  }

  lemma {:induction false} Pow2Add(a: nat, b: nat)
    ensures Pow2(a + b) == Pow2(a) * Pow2(b)
  {
    if b != 0 {
      Pow2Add(a, b - 1);
      assert Pow2(a + b) == 2 * Pow2(a + b - 1);
      assert Pow2(a) * (2 * Pow2(b - 1)) == 2 * (Pow2(a) * Pow2(b - 1));
    }
  }

  /** Bit |k| of |x|. */
  predicate Bit(x: nat, k: nat) {
    Digit(x, k) == 1
  }

  function Digit(x: nat, k: nat): nat {
    if k == 0 then x % 2 else Digit(x / 2, k - 1)
  }

  /** a | b. */
  function Or(a: nat, b: nat): nat {
    if a == 0 then b
    else if b == 0 then a
    else (if a % 2 == 1 || b % 2 == 1 then 1 else 0) + 2 * Or(a / 2, b / 2)
  }

  /** a & b. */
  function And(a: nat, b: nat): nat {
    if a == 0 || b == 0 then 0
    else (if a % 2 == 1 && b % 2 == 1 then 1 else 0) + 2 * And(a / 2, b / 2)
  }

  /** x << n. */
  function Shl(x: nat, n: nat): nat {
    if n == 0 then x else 2 * Shl(x, n - 1)
  }

  /** x >> n. */
  function Shr(x: nat, n: nat): nat {
    if n == 0 then x else Shr(x / 2, n - 1)
  }

  lemma {:induction false} ZeroBits(k: nat)
    ensures !Bit(0, k)
  {
    if k > 0 {
      ZeroBits(k - 1);
    }
  }

  lemma {:induction false} OrBits(a: nat, b: nat, k: nat)
    ensures Bit(Or(a, b), k) <==> Bit(a, k) || Bit(b, k)
  {
    if a == 0 || b == 0 {
      ZeroBits(k);
    } else if k > 0 {
      OrBits(a / 2, b / 2, k - 1);
    }
  }

  lemma {:induction false} AndBits(a: nat, b: nat, k: nat)
    ensures Bit(And(a, b), k) <==> Bit(a, k) && Bit(b, k)
  {
    if a == 0 || b == 0 {
      ZeroBits(k);
    } else if k > 0 {
      AndBits(a / 2, b / 2, k - 1);
    }
  }

  /** 1 << n is 2^n and has the one bit |n|. */
  lemma {:induction false} OneBit(n: nat, k: nat)
    ensures Shl(1, n) == Pow2(n)
    ensures Bit(Pow2(n), k) <==> k == n
  {
    if n > 0 {
      OneBit(n - 1, if k > 0 then k - 1 else 0);
      assert Pow2(n) / 2 == Pow2(n - 1);
    } else {
      assert Pow2(0) == 1;
      if k > 0 {
        ZeroBits(k - 1);
      }
    }
  }

  /** (1 << n) - 1. */
  function Ones(n: nat): nat {
    Pow2(n) - 1
  }

  lemma {:induction false} OnesBits(n: nat, k: nat)
    ensures Bit(Ones(n), k) <==> k < n
  {
    if n == 0 {
      ZeroBits(k);
    } else if k > 0 {
      assert Ones(n) / 2 == Ones(n - 1);
      OnesBits(n - 1, k - 1);
    }
  }

  lemma {:induction false} OnesFit(m: nat, n: nat)
    requires m <= n
    ensures Ones(m) < Pow2(n)
  {
    if m > 0 {
      OnesFit(m - 1, n - 1);
    }
  }

  lemma {:induction false} OneFits(k: nat, n: nat)
    requires k < n
    ensures Shl(1, k) < Pow2(n)
  {
    if k > 0 {
      OneFits(k - 1, n - 1);
    }
  }

  /** The complement within |n| bits. */
  lemma {:induction false} NotBits(x: nat, n: nat, k: nat)
    requires x < Pow2(n)
    ensures Bit(Ones(n) - x, k) <==> k < n && !Bit(x, k)
  {
    if n == 0 {
      ZeroBits(k);
    } else if k > 0 {
      assert (Ones(n) - x) / 2 == Ones(n - 1) - x / 2;
      NotBits(x / 2, n - 1, k - 1);
    }
  }

  lemma {:induction false} ShlBits(x: nat, n: nat, k: nat)
    ensures Bit(Shl(x, n), k) <==> k >= n && Bit(x, k - n)
  {
    if n > 0 && k > 0 {
      assert Shl(x, n) / 2 == Shl(x, n - 1);
      ShlBits(x, n - 1, k - 1);
    }
  }

  lemma {:induction false} ShrOnes(m: nat, n: nat)
    requires n <= m
    ensures Shr(Ones(m), n) == Ones(m - n)
  {
    if n > 0 {
      assert Ones(m) / 2 == Ones(m - 1);
      ShrOnes(m - 1, n - 1);
    }
  }

  /** Truncation to |n| bits, x & ((1 << n) - 1). */
  function Low(x: nat, n: nat): (y: nat)
    ensures y < Pow2(n)
  {
    if n == 0 then 0 else x % 2 + 2 * Low(x / 2, n - 1)
  }

  lemma {:induction false} LowBits(x: nat, n: nat, k: nat)
    ensures Bit(Low(x, n), k) <==> k < n && Bit(x, k)
  {
    if n == 0 {
      ZeroBits(k);
    } else if k > 0 {
      assert Low(x, n) / 2 == Low(x / 2, n - 1);
      LowBits(x / 2, n - 1, k - 1);
    }
  }

  /** Numbers of |n| bits that agree on every bit are equal. */
  lemma {:induction false} SameBits(a: nat, b: nat, n: nat)
    requires a < Pow2(n) && b < Pow2(n)
    requires forall k | 0 <= k < n :: Bit(a, k) == Bit(b, k)
    ensures a == b
  {
    if n > 0 {
      assert Bit(a, 0) == Bit(b, 0);
      forall k | 0 <= k < n - 1 ensures Bit(a / 2, k) == Bit(b / 2, k) {
        assert Bit(a, k + 1) == Bit(b, k + 1);
      }
      SameBits(a / 2, b / 2, n - 1);
    }
  }

  lemma {:induction false} OrFits(a: nat, b: nat, n: nat)
    requires a < Pow2(n) && b < Pow2(n)
    ensures Or(a, b) < Pow2(n)
  {
    if a != 0 && b != 0 {
      OrFits(a / 2, b / 2, n - 1);
    }
  }

  /** A word and a bit have something in common exactly when the word has the bit. */
  lemma {:induction false} TestBit(x: nat, n: nat)
    ensures And(x, Pow2(n)) != 0 <==> Bit(x, n)
  {
    if x == 0 {
      ZeroBits(n);
    } else if n > 0 {
      assert Pow2(n) / 2 == Pow2(n - 1);
      TestBit(x / 2, n - 1);
    } else {
      assert Pow2(0) == 1;
      assert And(x / 2, 0) == 0;
    }
  }
}
