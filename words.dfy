/** Unsigned 64-bit machine words (C `size_t`) and the C operators the
    `roundup2` macro applies to them: `+` and `-` wrap around modulo 2^64,
    `~` flips all 64 bits, `&` is the bit-wise conjunction.

    A word is the integer it denotes, in [0, 2^64). Bit `i` of a number is
    digit `i` of its binary expansion (`Bit`); `And` and `Not` are defined by
    arithmetic on those digits and their contracts state that they act bit by
    bit, which together with `BitsDetermineValue` pins them down completely. */
module Words {

  const WORD_BITS: nat := 64
  const WORD_MODULUS: nat := 0x1_0000_0000_0000_0000

  /** The values of a `size_t` on a 64-bit target. */
  type u64 = x: int | 0 <= x < 0x1_0000_0000_0000_0000

  function Pow2(n: nat): (r: nat)
    ensures r > 0
  {
    if n == 0 then 1 else 2 * Pow2(n - 1)
  }

  lemma {:induction false} Pow2Add(a: nat, b: nat)
    ensures Pow2(a + b) == Pow2(a) * Pow2(b)
    decreases a
  {
    if a > 0 {
      Pow2Add(a - 1, b);
    }
  }

  lemma Pow2Monotone(a: nat, b: nat)
    requires a <= b
    ensures Pow2(a) <= Pow2(b)
  {
    Pow2Add(b - a, a);
    assert b - a + a == b;
    MulAtLeast(Pow2(b - a), Pow2(a));
  }

  /** 2^k divides 2^n when k <= n. */
  lemma Pow2Divides(k: nat, n: nat)
    requires k <= n
    ensures Pow2(n) % Pow2(k) == 0
  {
    var s, q, d := Pow2(n), Pow2(n - k), Pow2(k);
    assert s == q * d + 0 by {
      Pow2Add(n - k, k);
      assert n - k + k == n;
    }
    DivModUnique(s, d, q, 0);
  }

  /** 2^64 is the number of distinct words. */
  lemma Pow2WordBits()
    ensures Pow2(WORD_BITS) == WORD_MODULUS
  {
    assert Pow2(2) == 4;
    Pow2Add(2, 2);
    assert Pow2(4) == 16;
    Pow2Add(4, 4);
    assert Pow2(8) == 256;
    Pow2Add(8, 8);
    assert Pow2(16) == 0x1_0000;
    Pow2Add(16, 16);
    assert Pow2(32) == 0x1_0000_0000;
    Pow2Add(32, 32);
  }

  // ---------------------------------------------------------------------
  // Division facts used by the bit-level proofs

  lemma MulAtLeast(a: int, d: int)
    requires a >= 1 && d > 0
    ensures a * d >= d
  {
  }

  /** Quotient and remainder are unique. */
  lemma DivModUnique(s: int, d: int, q: int, r: int)
    requires d > 0 && s == q * d + r && 0 <= r < d
    ensures s / d == q && s % d == r
  {
    var q0 := s / d;
    assert (q0 - q) * d == r - s % d;
    if q0 > q {
      MulAtLeast(q0 - q, d);
    } else if q0 < q {
      MulAtLeast(q - q0, d);
    }
  }

  /** Dividing by 2p is halving, then dividing by p. */
  lemma DivModTwice(s: nat, p: nat)
    requires p > 0
    ensures s % (2 * p) == s % 2 + 2 * ((s / 2) % p)
    ensures s / (2 * p) == (s / 2) / p
  {
    var q, t := (s / 2) / p, (s / 2) % p;
    assert s == q * (2 * p) + (2 * t + s % 2);
    DivModUnique(s, 2 * p, q, 2 * t + s % 2);
  }

  /** A multiple of d leaves no remainder. */
  lemma MultipleMod(q: int, d: int)
    requires d > 0
    ensures (q * d) % d == 0
  {
    DivModUnique(q * d, d, q, 0);
  }

  // ---------------------------------------------------------------------
  // Bits

  /** Binary digit `i` of `a`: the lowest digit of `a` halved `i` times. */
  predicate Bit(a: nat, i: nat) {
    if i == 0 then a % 2 == 1 else Bit(a / 2, i - 1)
  }

  /** `Bit` is the usual positional digit. */
  lemma {:induction false} BitIsDigit(a: nat, i: nat)
    ensures Bit(a, i) == ((a / Pow2(i)) % 2 == 1)
  {
    if i > 0 {
      BitIsDigit(a / 2, i - 1);
      DivModTwice(a, Pow2(i - 1));
    }
  }

  /** Two numbers below 2^n with the same n low digits are equal: the digit
      characterisations of `And` and `Not` determine their results. */
  lemma {:induction false} BitsDetermineValue(a: nat, b: nat, n: nat)
    requires a < Pow2(n) && b < Pow2(n)
    requires forall i :: 0 <= i < n ==> Bit(a, i) == Bit(b, i)
    ensures a == b
    decreases n
  {
    if n > 0 {
      assert Bit(a, 0) == Bit(b, 0);
      forall i | 0 <= i < n - 1
        ensures Bit(a / 2, i) == Bit(b / 2, i)
      {
        assert Bit(a, i + 1) == Bit(b, i + 1);
      }
      BitsDetermineValue(a / 2, b / 2, n - 1);
    }
  }

  // ---------------------------------------------------------------------
  // Bit-wise and

  /** The low `n` digits of `a & b`, built digit by digit from the lowest. */
  function AndBits(a: nat, b: nat, n: nat): (r: nat)
    ensures r < Pow2(n)
  {
    if n == 0 then 0
    else (if a % 2 == 1 && b % 2 == 1 then 1 else 0) + 2 * AndBits(a / 2, b / 2, n - 1)
  }

  lemma {:induction false} AndBitsDigit(a: nat, b: nat, n: nat, i: nat)
    requires i < n
    ensures Bit(AndBits(a, b, n), i) == (Bit(a, i) && Bit(b, i))
    decreases n
  {
    var r := AndBits(a, b, n);
    if i == 0 {
      assert r % 2 == (if a % 2 == 1 && b % 2 == 1 then 1 else 0);
    } else {
      AndBitsDigit(a / 2, b / 2, n - 1, i - 1);
      assert r / 2 == AndBits(a / 2, b / 2, n - 1);
    }
  }

  lemma AndBitsIsBitwise(a: nat, b: nat, n: nat)
    ensures forall i :: 0 <= i < n ==> Bit(AndBits(a, b, n), i) == (Bit(a, i) && Bit(b, i))
  {
    forall i | 0 <= i < n
      ensures Bit(AndBits(a, b, n), i) == (Bit(a, i) && Bit(b, i))
    {
      AndBitsDigit(a, b, n, i);
    }
  }

  /** One digit of `AndLowOnes`: from the halves to the whole. */
  lemma AndLowOnesStep(a: nat, k: nat, n: nat)
    requires 1 <= k <= n
    requires AndBits(a / 2, Pow2(k - 1) - 1, n - 1) == (a / 2) % Pow2(k - 1)
    ensures AndBits(a, Pow2(k) - 1, n) == a % Pow2(k)
  {
    var p := Pow2(k - 1);
    assert Pow2(k) == 2 * p;
    assert (2 * p - 1) % 2 == 1 && (2 * p - 1) / 2 == p - 1;
    DivModTwice(a, p);
  }

  /** Masking with the low ones `2^k - 1` keeps the remainder modulo 2^k. */
  lemma {:induction false} AndLowOnes(a: nat, k: nat, n: nat)
    requires k <= n
    ensures AndBits(a, Pow2(k) - 1, n) == a % Pow2(k)
    decreases n
  {
    if n > 0 && k == 0 {
      AndLowOnes(a / 2, 0, n - 1);
      assert AndBits(a, 0, n) == 2 * AndBits(a / 2, 0, n - 1);
    } else if n > 0 {
      AndLowOnes(a / 2, k - 1, n - 1);
      AndLowOnesStep(a, k, n);
    }
  }

  /** Each digit of `a` survives exactly one of the masks `b` and its
      n-digit complement, so the two masked values add up to `a` mod 2^n. */
  lemma {:induction false} AndComplementSum(a: nat, b: nat, n: nat)
    requires b < Pow2(n)
    ensures AndBits(a, b, n) + AndBits(a, Pow2(n) - 1 - b, n) == a % Pow2(n)
    decreases n
  {
    if n == 0 {
      assert a % 1 == 0;
    } else {
      var p := Pow2(n - 1);
      assert Pow2(n) == 2 * p;
      var c := 2 * p - 1 - b;
      assert c % 2 == 1 - b % 2 && c / 2 == p - 1 - b / 2;
      var h := a / 2;
      assert AndBits(h, b / 2, n - 1) + AndBits(h, p - 1 - b / 2, n - 1) == h % p by {
        AndComplementSum(h, b / 2, n - 1);
      }
      DivModTwice(a, p);
    }
  }

  // ---------------------------------------------------------------------
  // Complement

  lemma {:induction false} ComplementDigit(a: nat, n: nat, i: nat)
    requires a < Pow2(n) && i < n
    ensures Bit(Pow2(n) - 1 - a, i) == !Bit(a, i)
    decreases n
  {
    var c := Pow2(n) - 1 - a;
    assert Pow2(n) == 2 * Pow2(n - 1);
    if i == 0 {
      assert c % 2 == 1 - a % 2;
    } else {
      assert c / 2 == Pow2(n - 1) - 1 - a / 2;
      ComplementDigit(a / 2, n - 1, i - 1);
    }
  }

  lemma ComplementIsBitwise(a: nat, n: nat)
    requires a < Pow2(n)
    ensures forall i :: 0 <= i < n ==> Bit(Pow2(n) - 1 - a, i) == !Bit(a, i)
  {
    forall i | 0 <= i < n
      ensures Bit(Pow2(n) - 1 - a, i) == !Bit(a, i)
    {
      ComplementDigit(a, n, i);
    }
  }

  // ---------------------------------------------------------------------
  // The C operators on `size_t`

  /** C `a + b` on unsigned operands: wraps around past 2^64 - 1. */
  function Add(a: u64, b: u64): (r: u64)
    ensures a + b < WORD_MODULUS ==> r == a + b
    ensures a + b >= WORD_MODULUS ==> r == a + b - WORD_MODULUS
  {
    (a + b) % WORD_MODULUS
  }

  /** C `a - b` on unsigned operands: wraps around below 0. */
  function Sub(a: u64, b: u64): (r: u64)
    ensures b <= a ==> r == a - b
    ensures a < b ==> r == a - b + WORD_MODULUS
  {
    (a - b) % WORD_MODULUS
  }

  /** C `~a`; `NotIsBitwise` states that it flips every one of the 64 digits. */
  function Not(a: u64): u64 {
    WORD_MODULUS - 1 - a
  }

  /** C `a & b`; `AndIsBitwise` states that a digit of the result is set
      exactly when it is set in both operands. */
  function And(a: u64, b: u64): u64 {
    Pow2WordBits();
    AndBits(a, b, WORD_BITS)
  }

  lemma NotIsBitwise(a: u64)
    ensures forall i :: 0 <= i < WORD_BITS ==> Bit(Not(a), i) == !Bit(a, i)
  {
    Pow2WordBits();
    ComplementIsBitwise(a, WORD_BITS);
  }

  lemma AndIsBitwise(a: u64, b: u64)
    ensures forall i :: 0 <= i < WORD_BITS ==> Bit(And(a, b), i) == (Bit(a, i) && Bit(b, i))
  {
    AndBitsIsBitwise(a, b, WORD_BITS);
  }

  /** `~~a == a`. */
  lemma NotInvolutive(a: u64)
    ensures Not(Not(a)) == a
  {
  }

  /** `a & b == b & a`, from the digit-wise contract alone. */
  lemma AndCommutes(a: u64, b: u64)
    ensures And(a, b) == And(b, a)
  {
    Pow2WordBits();
    AndIsBitwise(a, b);
    AndIsBitwise(b, a);
    BitsDetermineValue(And(a, b), And(b, a), WORD_BITS);
  }

  /** `a & (2^k - 1)` is `a` modulo 2^k: the C test for a multiple of 2^k. */
  lemma AndLowMask(a: u64, k: nat)
    requires k <= WORD_BITS
    ensures Pow2(k) - 1 < WORD_MODULUS
    ensures And(a, Pow2(k) - 1) == a % Pow2(k)
  {
    Pow2WordBits();
    Pow2Monotone(k, WORD_BITS);
    AndLowOnes(a, k, WORD_BITS);
  }

  /** Within n digits, masking with the complement of `2^k - 1` rounds a
      down to a multiple of 2^k. */
  lemma AndNotLowOnes(a: nat, k: nat, n: nat)
    requires k <= n && a < Pow2(n)
    ensures Pow2(k) <= Pow2(n)
    ensures AndBits(a, Pow2(n) - 1 - (Pow2(k) - 1), n) == a - a % Pow2(k)
  {
    Pow2Monotone(k, n);
    AndLowOnes(a, k, n);
    AndComplementSum(a, Pow2(k) - 1, n);
    DivModUnique(a, Pow2(n), 0, a);
  }

  /** `a & ~(2^k - 1)` rounds `a` down to a multiple of 2^k. */
  lemma AndNotLowMask(a: u64, k: nat)
    requires k <= WORD_BITS
    ensures Pow2(k) - 1 < WORD_MODULUS
    ensures And(a, Not(Pow2(k) - 1)) == a - a % Pow2(k)
  {
    Pow2WordBits();
    AndNotLowOnes(a, k, WORD_BITS);
    var low := Pow2(k) - 1;
    var high := Pow2(WORD_BITS) - 1 - low;
    assert Not(low) == high;
    assert And(a, high) == AndBits(a, high, WORD_BITS);
  }
}
