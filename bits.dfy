/**
 * Unsigned machine words as natural numbers, with the C bit operators the
 * translator and its generators use (`>>`, `<<`, `&`, `|`, `^`, `~`) written
 * out bit by bit. Each operator comes with a lemma saying what it does to
 * bit k (`Bit(x, k)`); the rest of the model reasons about masks through
 * those lemmas, and through `BitsEqual` to get back to numbers.
 */
module Bits {

  /** 2^n */
  function Pow2(n: nat): (r: nat)
    ensures r >= 1
  {
    if n == 0 then 1 else 2 * Pow2(n - 1)
  }

  /** Bit k of x, counted from the least significant bit. */
  predicate Bit(x: nat, k: nat)
  {
    if k == 0 then x % 2 == 1 else Bit(x / 2, k - 1)
  }

  /** A condition as the number 0 or 1 (the C idiom `cond ? 1 : 0`). */
  function B2N(b: bool): nat
  {
    if b then 1 else 0
  }

  /** `x >> s` */
  function Shr(x: nat, s: nat): nat
  {
    if s == 0 then x else Shr(x / 2, s - 1)
  }

  /** `x << s`, before any truncation to the width of the C type. */
  function Shl(x: nat, s: nat): nat
  {
    if s == 0 then x else 2 * Shl(x, s - 1)
  }

  /** `x & ((1 << w) - 1)`: the w low bits of x. */
  function Low(x: nat, w: nat): nat
  {
    if w == 0 then 0 else 2 * Low(x / 2, w - 1) + x % 2
  }

  /** `x | y` */
  function Or(x: nat, y: nat): nat
    decreases x + y
  {
    if x == 0 && y == 0 then 0
    else 2 * Or(x / 2, y / 2) + B2N(x % 2 == 1 || y % 2 == 1)
  }

  /** `x & y` */
  function And(x: nat, y: nat): nat
    decreases x + y
  {
    if x == 0 || y == 0 then 0
    else 2 * And(x / 2, y / 2) + B2N(x % 2 == 1 && y % 2 == 1)
  }

  /** `x ^ y` */
  function Xor(x: nat, y: nat): nat
    decreases x + y
  {
    if x == 0 && y == 0 then 0
    else 2 * Xor(x / 2, y / 2) + B2N((x % 2 == 1) != (y % 2 == 1))
  }

  /** `~x` kept to a w-bit type (`(uint8_t)~x` for w = 8). */
  function Not(x: nat, w: nat): nat
  {
    if w == 0 then 0 else 2 * Not(x / 2, w - 1) + (1 - x % 2)
  }

  // ---------------------------------------------------------------------
  // What each operator does to bit k
  // ---------------------------------------------------------------------

  /** No bit of 0 is set. */
  lemma ZeroBits()
    ensures forall k: nat {:trigger Bit(0, k)} :: !Bit(0, k)
  {
    forall k: nat ensures !Bit(0, k) {
      ZeroBit(k);
    }
  }

  lemma {:induction false} ZeroBit(k: nat)
    ensures !Bit(0, k)
  {
    if k > 0 {
      ZeroBit(k - 1);
    }
  }

  /** The bits of r = 2 * h + b: b at position 0, the bits of h above it. */
  lemma StepBits(r: nat, h: nat, b: nat)
    requires b < 2 && r == 2 * h + b
    ensures forall k: nat {:trigger Bit(r, k)} ::
      Bit(r, k) == if k == 0 then b == 1 else Bit(h, k - 1)
  {
  }

  lemma {:induction false} ShrBits(x: nat, s: nat)
    ensures forall k: nat {:trigger Bit(Shr(x, s), k)} :: Bit(Shr(x, s), k) == Bit(x, s + k)
  {
    if s > 0 {
      ShrBits(x / 2, s - 1);
      forall k: nat ensures Bit(Shr(x, s), k) == Bit(x, s + k) {
        assert Bit(x, s + k) == Bit(x / 2, s - 1 + k);
      }
    }
  }

  lemma {:induction false} ShlBits(x: nat, s: nat)
    ensures forall k: nat {:trigger Bit(Shl(x, s), k)} :: Bit(Shl(x, s), k) == (k >= s && Bit(x, k - s))
  {
    if s > 0 {
      ShlBits(x, s - 1);
      StepBits(Shl(x, s), Shl(x, s - 1), 0);
    }
  }

  lemma {:induction false} LowBits(x: nat, w: nat)
    ensures forall k: nat {:trigger Bit(Low(x, w), k)} :: Bit(Low(x, w), k) == (k < w && Bit(x, k))
  {
    if w == 0 {
      ZeroBits();
    } else {
      LowBits(x / 2, w - 1);
      StepBits(Low(x, w), Low(x / 2, w - 1), x % 2);
      StepBits(x, x / 2, x % 2);
    }
  }

  lemma {:induction false} OrBits(x: nat, y: nat)
    ensures forall k: nat {:trigger Bit(Or(x, y), k)} :: Bit(Or(x, y), k) == (Bit(x, k) || Bit(y, k))
    decreases x + y
  {
    if x == 0 && y == 0 {
      ZeroBits();
    } else {
      OrBits(x / 2, y / 2);
      StepBits(Or(x, y), Or(x / 2, y / 2), B2N(x % 2 == 1 || y % 2 == 1));
      StepBits(x, x / 2, x % 2);
      StepBits(y, y / 2, y % 2);
    }
  }

  /** `x | (1 << k)` sets bit k of x and leaves the others. */
  lemma SetBit(x: nat, k: nat)
    ensures forall j: nat {:trigger Bit(Or(x, Shl(1, k)), j)} :: Bit(Or(x, Shl(1, k)), j) == (Bit(x, j) || j == k)
  {
    OnesBits(1, 1);
    ShlBits(1, k);
    OrBits(x, Shl(1, k));
  }

  lemma {:induction false} AndBits(x: nat, y: nat)
    ensures forall k: nat {:trigger Bit(And(x, y), k)} :: Bit(And(x, y), k) == (Bit(x, k) && Bit(y, k))
    decreases x + y
  {
    ZeroBits();
    if x != 0 && y != 0 {
      AndBits(x / 2, y / 2);
      StepBits(And(x, y), And(x / 2, y / 2), B2N(x % 2 == 1 && y % 2 == 1));
      StepBits(x, x / 2, x % 2);
      StepBits(y, y / 2, y % 2);
    }
  }

  lemma {:induction false} XorBits(x: nat, y: nat)
    ensures forall k: nat {:trigger Bit(Xor(x, y), k)} :: Bit(Xor(x, y), k) == (Bit(x, k) != Bit(y, k))
    decreases x + y
  {
    if x == 0 && y == 0 {
      ZeroBits();
    } else {
      XorBits(x / 2, y / 2);
      StepBits(Xor(x, y), Xor(x / 2, y / 2), B2N((x % 2 == 1) != (y % 2 == 1)));
      StepBits(x, x / 2, x % 2);
      StepBits(y, y / 2, y % 2);
    }
  }

  lemma {:induction false} NotBits(x: nat, w: nat)
    ensures forall k: nat {:trigger Bit(Not(x, w), k)} :: Bit(Not(x, w), k) == (k < w && !Bit(x, k))
  {
    if w == 0 {
      ZeroBits();
    } else {
      NotBits(x / 2, w - 1);
      StepBits(Not(x, w), Not(x / 2, w - 1), 1 - x % 2);
      StepBits(x, x / 2, x % 2);
    }
  }

  // ---------------------------------------------------------------------
  // From bits back to numbers
  // ---------------------------------------------------------------------

  /** Two numbers with the same bits are equal. */
  lemma {:induction false} BitsEqual(x: nat, y: nat)
    requires forall k: nat {:trigger Bit(x, k)} {:trigger Bit(y, k)} :: Bit(x, k) == Bit(y, k)
    ensures x == y
    decreases x + y
  {
    assert Bit(x, 0) == Bit(y, 0);
    if x != 0 || y != 0 {
      forall k: nat ensures Bit(x / 2, k) == Bit(y / 2, k) {
        assert Bit(x, k + 1) == Bit(y, k + 1);
      }
      BitsEqual(x / 2, y / 2);
    }
  }

  /** A number below 2^w has no bit at w or above. */
  lemma {:induction false} BelowPow2(x: nat, w: nat)
    requires x < Pow2(w)
    ensures forall k: nat {:trigger Bit(x, k)} :: k >= w ==> !Bit(x, k)
  {
    if w == 0 {
      ZeroBits();
    } else {
      BelowPow2(x / 2, w - 1);
      StepBits(x, x / 2, x % 2);
    }
  }

  /** A number with no bit at w or above is below 2^w. */
  lemma {:induction false} HighClear(x: nat, w: nat)
    requires forall k: nat {:trigger Bit(x, k)} :: k >= w ==> !Bit(x, k)
    ensures x < Pow2(w)
  {
    if w == 0 {
      ZeroBits();
      BitsEqual(x, 0);
    } else {
      forall k: nat | k >= w - 1 ensures !Bit(x / 2, k) {
        assert !Bit(x, k + 1);
      }
      HighClear(x / 2, w - 1);
    }
  }

  /** The only bit of 2^n is bit n. */
  lemma {:induction false} Pow2Bit(n: nat)
    ensures forall k: nat {:trigger Bit(Pow2(n), k)} :: Bit(Pow2(n), k) == (k == n)
  {
    if n == 0 {
      ZeroBits();
      StepBits(1, 0, 1);
    } else {
      Pow2Bit(n - 1);
      StepBits(Pow2(n), Pow2(n - 1), 0);
    }
  }

  /** Keeping the w low bits leaves a number below 2^w. */
  lemma LowBound(x: nat, w: nat)
    ensures Low(x, w) < Pow2(w)
  {
    LowBits(x, w);
    HighClear(Low(x, w), w);
  }

  /** Keeping the w low bits of a number below 2^w changes nothing. */
  lemma LowOfSmall(x: nat, w: nat)
    requires x < Pow2(w)
    ensures Low(x, w) == x
  {
    LowBits(x, w);
    BelowPow2(x, w);
    BitsEqual(Low(x, w), x);
  }

  // ---------------------------------------------------------------------
  // Bits and arithmetic
  // ---------------------------------------------------------------------

  /** 2^(a + b) = 2^a * 2^b */
  lemma {:induction false} Pow2Add(a: nat, b: nat)
    ensures Pow2(a + b) == Pow2(a) * Pow2(b)
  {
    if a > 0 {
      Pow2Add(a - 1, b);
      assert Pow2(a + b) == 2 * (Pow2(a - 1) * Pow2(b));
    }
  }

  /** `x << s` before truncation is x * 2^s. */
  lemma {:induction false} ShlMul(x: nat, s: nat)
    ensures Shl(x, s) == x * Pow2(s)
  {
    if s > 0 {
      ShlMul(x, s - 1);
      assert Shl(x, s) == 2 * (x * Pow2(s - 1));
    }
  }

  /** The bits of x = h * 2^b + l, for l below 2^b: those of l under b, those of h from b up. */
  lemma {:induction false} StackBits(x: nat, h: nat, b: nat, l: nat)
    requires l < Pow2(b) && x == h * Pow2(b) + l
    ensures forall k: nat {:trigger Bit(x, k)} :: Bit(x, k) == if k < b then Bit(l, k) else Bit(h, k - b)
  {
    if b > 0 {
      var y := h * Pow2(b - 1) + l / 2;
      assert x == 2 * y + l % 2;
      StackBits(y, h, b - 1, l / 2);
      StepBits(x, y, l % 2);
      StepBits(l, l / 2, l % 2);
    }
  }

  /** x = 2^n - 1 has exactly the bits 0..n-1. */
  lemma {:induction false} OnesBits(x: nat, n: nat)
    requires x + 1 == Pow2(n)
    ensures forall k: nat {:trigger Bit(x, k)} :: Bit(x, k) == (k < n)
  {
    if n == 0 {
      ZeroBits();
    } else {
      OnesBits(x / 2, n - 1);
      StepBits(x, x / 2, 1);
    }
  }
}
