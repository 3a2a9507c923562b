/** The renderer header of the viewer: the `roundup2` alignment macro and
    the two scanout records the transport hands to the renderer.

    `roundup2(x, y)` is `(x + (y - 1)) & ~(y - 1)` evaluated on `size_t`
    words (`RoundUp2`). Its mathematical counterpart is the smallest multiple
    of `y` that is not below `x` (`RoundUpNat`). The two agree when `y` is a
    power of two and `x + (y - 1)` does not wrap around
    (`RoundUp2MatchesRoundUpNat`); the remaining lemmas are the consequences
    a caller relies on, and two counterexamples show that neither
    precondition can be dropped. */
module Renderer {
  import opened Words

  // ---------------------------------------------------------------------
  // Scanout records (passive: the header attaches no invariant to them)

  /** The values of a C `int`. */
  type int32 = x: int | -0x8000_0000 <= x < 0x8000_0000

  /** A `void *` into pixel memory owned by the host, kept as an opaque
      token: the model never reads through it. */
  datatype HostMemory = HostMemory(address: u64)

  /** `struct Scanout`: the primary display surface. */
  datatype Scanout = Scanout(
    width: int32,
    height: int32,
    stride: int32,
    pixelFormat: int32,
    basePtr: HostMemory,
    size: u64,
    redrawOnTimer: bool,
    enabled: bool)

  /** `struct CursorScanout`: the cursor overlay and its hot spot. */
  datatype CursorScanout = CursorScanout(
    width: int32,
    height: int32,
    hotX: int32,
    hotY: int32,
    pixelFormat: int32,
    basePtr: HostMemory,
    size: u64,
    enabled: bool)

  // ---------------------------------------------------------------------
  // Powers of two

  predicate IsPowerOfTwo(y: nat)
    decreases y
  {
    y == 1 || (y >= 2 && y % 2 == 0 && IsPowerOfTwo(y / 2))
  }

  /** The exponent of a power of two. */
  function Log2(y: nat): (k: nat)
    requires IsPowerOfTwo(y)
    ensures Pow2(k) == y
    decreases y
  {
    if y == 1 then 0 else 1 + Log2(y / 2)
  }

  lemma {:induction false} PowersOfTwo(k: nat)
    ensures IsPowerOfTwo(Pow2(k))
  {
    if k > 0 {
      PowersOfTwo(k - 1);
      assert Pow2(k) / 2 == Pow2(k - 1);
    }
  }

  /** A power of two that fits in a word has fewer than 64 trailing zeros. */
  lemma Log2OfWord(y: u64)
    requires IsPowerOfTwo(y)
    ensures Log2(y) < WORD_BITS
  {
    Pow2WordBits();
    if Log2(y) >= WORD_BITS {
      Pow2Monotone(WORD_BITS, Log2(y));
    }
  }

  lemma {:induction false} AndBitsSelf(a: nat, n: nat)
    ensures AndBits(a, a, n) == a % Pow2(n)
    decreases n
  {
    if n > 0 {
      AndBitsSelf(a / 2, n - 1);
      DivModTwice(a, Pow2(n - 1));
    }
  }

  /** One step of `y & (y - 1)` for an even `y`: the low digit is clear. */
  lemma AndPredecessorEven(h: nat, n: nat)
    requires h >= 1 && n >= 1
    ensures AndBits(2 * h, 2 * h - 1, n) == 2 * AndBits(h, h - 1, n - 1)
  {
    assert (2 * h - 1) / 2 == h - 1;
  }

  /** For an odd `y > 1`, `y & (y - 1)` keeps every digit but the lowest. */
  lemma AndPredecessorOdd(h: nat, n: nat)
    requires h >= 1 && n >= 1 && h < Pow2(n - 1)
    ensures AndBits(2 * h + 1, 2 * h, n) == 2 * h
  {
    assert AndBits(2 * h + 1, 2 * h, n) == 2 * AndBits(h, h, n - 1) by {
      assert (2 * h + 1) / 2 == h && (2 * h) / 2 == h;
    }
    AndBitsSelf(h, n - 1);
    DivModUnique(h, Pow2(n - 1), 0, h);
  }

  lemma {:induction false} PowerOfTwoDigits(y: nat, n: nat)
    requires 1 <= y < Pow2(n)
    ensures IsPowerOfTwo(y) <==> AndBits(y, y - 1, n) == 0
  {
    if y == 1 {
      AndLowOnes(1, 0, n);
    } else {
      var h := y / 2;
      assert Pow2(n) == 2 * Pow2(n - 1);
      if y % 2 == 0 {
        AndPredecessorEven(h, n);
        PowerOfTwoDigits(h, n - 1);
      } else {
        AndPredecessorOdd(h, n);
      }
    }
  }

  /** The C test for a power of two, `y != 0 && (y & (y - 1)) == 0`, decides
      `IsPowerOfTwo` on words. */
  lemma PowerOfTwoIdiom(y: u64)
    ensures IsPowerOfTwo(y) <==> (y != 0 && And(y, Sub(y, 1)) == 0)
  {
    if y != 0 {
      Pow2WordBits();
      PowerOfTwoDigits(y, WORD_BITS);
    }
  }

  // ---------------------------------------------------------------------
  // The mathematical counterpart

  /** Two distinct multiples of `y` are at least `y` apart. */
  lemma MultiplesApart(a: nat, b: nat, y: nat)
    requires y > 0 && a % y == 0 && b % y == 0 && a < b
    ensures a + y <= b
  {
    assert (b / y - a / y) * y == b - a;
    MulAtLeast(b / y - a / y, y);
  }

  /** Subtracting the remainder leaves a multiple. */
  lemma RoundDownIsMultiple(s: nat, y: nat)
    requires y > 0
    ensures (s - s % y) % y == 0
  {
    assert s - s % y == (s / y) * y;
    MultipleMod(s / y, y);
  }

  /** The smallest multiple of `y` that is not below `x`. */
  function RoundUpNat(x: nat, y: nat): (r: nat)
    requires y > 0
    ensures r % y == 0
    ensures x <= r < x + y
  {
    if x % y == 0 then x
    else
      MultipleMod(x / y + 1, y);
      x + (y - x % y)
  }

  /** No multiple of `y` at or above `x` lies below `RoundUpNat(x, y)`. */
  lemma RoundUpNatLeast(x: nat, y: nat, m: nat)
    requires y > 0 && m % y == 0 && x <= m
    ensures RoundUpNat(x, y) <= m
  {
    var r := RoundUpNat(x, y);
    if m < r {
      MultiplesApart(m, r, y);
    }
  }

  /** The bounds of `RoundUpNat`'s contract single it out. */
  lemma RoundUpNatUnique(x: nat, y: nat, m: nat)
    requires y > 0 && m % y == 0 && x <= m < x + y
    ensures m == RoundUpNat(x, y)
  {
    RoundUpNatLeast(x, y, m);
    var r := RoundUpNat(x, y);
    if r < m {
      MultiplesApart(r, m, y);
    }
  }

  lemma RoundUpNatMonotone(x1: nat, x2: nat, y: nat)
    requires y > 0 && x1 <= x2
    ensures RoundUpNat(x1, y) <= RoundUpNat(x2, y)
  {
    RoundUpNatLeast(x1, y, RoundUpNat(x2, y));
  }

  // ---------------------------------------------------------------------
  // roundup2 on size_t words

  /** `roundup2(x, y)`, i.e. `(x + (y - 1)) & ~(y - 1)` with C's unsigned
      wrap-around. A zero `y` makes the mask `~(0 - 1)` empty; `y == 1`
      makes it all ones. */
  function RoundUp2(x: u64, y: u64): (r: u64)
    ensures y == 0 ==> r == 0
    ensures y == 1 ==> r == x
  {
    var mask := Sub(y, 1);
    var sum := Add(x, mask);
    AndLowMask(sum, 0);
    AndLowMask(x, WORD_BITS);
    Pow2WordBits();
    And(sum, Not(mask))
  }

  /** `x + (y - 1)` does not wrap around. */
  predicate NoOverflow(x: u64, y: u64) {
    x + Sub(y, 1) < WORD_MODULUS
  }

  /** The C way to detect the wrap-around: the sum came out below `x`. */
  lemma NoOverflowIdiom(x: u64, y: u64)
    ensures NoOverflow(x, y) <==> x <= Add(x, Sub(y, 1))
  {
  }

  /** For a power of two, the mask rounds the sum `x + (y - 1)` down to a
      multiple of `y`, whether or not that sum wrapped around. */
  lemma RoundUp2RoundsSumDown(x: u64, y: u64)
    requires IsPowerOfTwo(y)
    ensures var sum := Add(x, Sub(y, 1)); RoundUp2(x, y) == sum - sum % y
  {
    var k := Log2(y);
    Log2OfWord(y);
    AndNotLowMask(Add(x, Sub(y, 1)), k);
  }

  /** The result is a multiple of `y`: its `log2(y)` low digits are zero. */
  lemma RoundUp2Aligned(x: u64, y: u64)
    requires IsPowerOfTwo(y)
    ensures RoundUp2(x, y) % y == 0
    ensures And(RoundUp2(x, y), Sub(y, 1)) == 0
  {
    var r := RoundUp2(x, y);
    RoundUp2RoundsSumDown(x, y);
    RoundDownIsMultiple(Add(x, Sub(y, 1)), y);
    Log2OfWord(y);
    AndLowMask(r, Log2(y));
  }

  /** The macro computes the smallest multiple of `y` not below `x`. */
  lemma RoundUp2MatchesRoundUpNat(x: u64, y: u64)
    requires IsPowerOfTwo(y) && NoOverflow(x, y)
    ensures RoundUp2(x, y) == RoundUpNat(x, y)
  {
    var r := RoundUp2(x, y);
    RoundUp2RoundsSumDown(x, y);
    RoundUp2Aligned(x, y);
    assert x <= r < x + y;
    RoundUpNatUnique(x, y, r);
  }

  lemma RoundUp2Bounds(x: u64, y: u64)
    requires IsPowerOfTwo(y) && NoOverflow(x, y)
    ensures x <= RoundUp2(x, y) < x + y
  {
    RoundUp2MatchesRoundUpNat(x, y);
  }

  /** Every word that is a multiple of `y` and not below `x` is at least
      `roundup2(x, y)`. */
  lemma RoundUp2Least(x: u64, y: u64, m: u64)
    requires IsPowerOfTwo(y) && NoOverflow(x, y)
    requires m % y == 0 && x <= m
    ensures RoundUp2(x, y) <= m
  {
    RoundUp2MatchesRoundUpNat(x, y);
    RoundUpNatLeast(x, y, m);
  }

  /** 2^64 is a multiple of every power of two that fits in a word. */
  lemma WordIsMultiple(y: u64)
    requires IsPowerOfTwo(y)
    ensures WORD_MODULUS % y == 0
  {
    Log2OfWord(y);
    Pow2Divides(Log2(y), WORD_BITS);
    Pow2WordBits();
  }

  /** A multiple of a power of two is left as it is; no overflow condition is
      needed, because such a multiple is at most 2^64 - y. */
  lemma RoundUp2KeepsMultiples(x: u64, y: u64)
    requires IsPowerOfTwo(y) && x % y == 0
    ensures RoundUp2(x, y) == x
  {
    WordIsMultiple(y);
    MultiplesApart(x, WORD_MODULUS, y);
    RoundUp2MatchesRoundUpNat(x, y);
    RoundUpNatUnique(x, y, x);
  }

  lemma RoundUp2Idempotent(x: u64, y: u64)
    requires IsPowerOfTwo(y)
    ensures RoundUp2(RoundUp2(x, y), y) == RoundUp2(x, y)
  {
    RoundUp2Aligned(x, y);
    RoundUp2KeepsMultiples(RoundUp2(x, y), y);
  }

  lemma RoundUp2Monotone(x1: u64, x2: u64, y: u64)
    requires IsPowerOfTwo(y) && x1 <= x2 && NoOverflow(x2, y)
    ensures RoundUp2(x1, y) <= RoundUp2(x2, y)
  {
    RoundUp2MatchesRoundUpNat(x1, y);
    RoundUp2MatchesRoundUpNat(x2, y);
    RoundUpNatMonotone(x1, x2, y);
  }

  lemma AndBitsOfZero(b: nat, n: nat)
    ensures AndBits(0, b, n) == 0
  {
  }

  /** `7 & 2 == 2` in any width of at least three digits. */
  lemma AndSevenTwo(n: nat)
    requires n >= 3
    ensures AndBits(7, 2, n) == 2
  {
    AndBitsOfZero(0, n - 3);
    assert AndBits(1, 0, n - 2) == 0;
    assert AndBits(3, 1, n - 1) == 1;
  }

  /** Without a power of two the result need not be a multiple of `y`:
      `roundup2(5, 3)` is `7 & ~2`, which is 5. */
  lemma RoundUp2NeedsPowerOfTwo()
    ensures RoundUp2(5, 3) == 5 && 5 % 3 != 0
  {
    Pow2WordBits();
    assert RoundUp2(5, 3) == And(7, Not(2));
    AndComplementSum(7, 2, WORD_BITS);
    AndSevenTwo(WORD_BITS);
  }

  /** Without the overflow condition the sum wraps around and the result
      falls below `x`: `roundup2(2^64 - 1, 2)` is 0. */
  lemma RoundUp2WrapsAround()
    ensures !NoOverflow(WORD_MODULUS - 1, 2)
    ensures RoundUp2(WORD_MODULUS - 1, 2) == 0
  {
    assert IsPowerOfTwo(2);
    RoundUp2RoundsSumDown(WORD_MODULUS - 1, 2);
  }
}
