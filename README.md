# ScorpiViewer renderer header: `roundup2` and the scanout records

The renderer header of ScorpiViewer declares an alignment macro, `roundup2(x, y)`. It expands to
`(x + (y - 1)) & ~(y - 1)`: x is rounded up to the next multiple of y, which must be a power of
two. The header also declares the two records the viewer receives from the transport: `Scanout`,
the primary display surface, and `CursorScanout`, the cursor overlay.

The model has two modules.

- `Words` (words.dfy) models a `size_t` word on a 64-bit target as an integer in [0, 2^64).
  - C's unsigned `+` and `-` wrap around modulo 2^64 (`Add`, `Sub`).
  - `~` is `Not` and `&` is `And`. Both are defined by arithmetic on binary digits.
  - Lemmas prove that `Not` flips each of the 64 digits and that `And` sets a digit exactly when
    both operands have it (`NotIsBitwise`, `AndIsBitwise`). Two words with the same digits are
    equal (`BitsDetermineValue`), so these lemmas fix the operators completely.
  - The masking laws the macro relies on follow from these: `a & (2^k - 1)` is `a mod 2^k`, and
    `a & ~(2^k - 1)` rounds a down to a multiple of 2^k.
- `Renderer` (renderer.dfy) holds the two records and the macro.
  - `Scanout` and `CursorScanout` are plain datatypes with the header's fields. `int` fields are
    32-bit integers, `size_t` fields are words, and `void *base_ptr` is an opaque `HostMemory`
    token. The header attaches no invariant to either record, so the model states none.
  - `RoundUp2` is the macro evaluated on words, wrap-around included.
  - `RoundUpNat` is its mathematical meaning: the smallest multiple of y that is not below x.
  - `RoundUp2MatchesRoundUpNat` proves that the two agree when y is a power of two and
    `x + (y - 1)` does not wrap around. The remaining lemmas are what a caller relies on:
    - alignment;
    - bounds;
    - leastness;
    - multiples are kept;
    - idempotence;
    - monotonicity.
  - Two counterexample lemmas show that neither precondition can be dropped.
  - `PowerOfTwoIdiom` ties the power-of-two predicate to the usual C test
    `y != 0 && (y & (y - 1)) == 0`.

## Model

| member | source | states |
|---|---|---|
| Renderer.RoundUp2 | ScorpiViewer/Renderer.h:10 | the macro on `size_t` operands; with y = 0 the mask `~(0 - 1)` is empty and the result is 0; `roundup2(x, 1) == x` for every x |
| Renderer.RoundUpNat | ScorpiViewer/Renderer.h:10 | the value the macro is meant to compute: a multiple of y with `x <= r < x + y` |
| Renderer.RoundUpNatLeast | ScorpiViewer/Renderer.h:10 | no multiple of y that is at least x lies below `RoundUpNat(x, y)` |
| Renderer.RoundUpNatUnique | ScorpiViewer/Renderer.h:10 | any multiple of y in `[x, x + y)` equals `RoundUpNat(x, y)` |
| Renderer.RoundUpNatMonotone | ScorpiViewer/Renderer.h:10 | rounding up preserves the order of the x operands |
| Renderer.RoundUp2RoundsSumDown | ScorpiViewer/Renderer.h:10 | for a power-of-two y, the mask `~(y - 1)` rounds the wrapped sum `x + (y - 1)` down to a multiple of y |
| Renderer.RoundUp2Aligned | ScorpiViewer/Renderer.h:10 | for a power-of-two y the result is a multiple of y, both as `r % y == 0` and as `r & (y - 1) == 0` (the low log2(y) bits are clear) |
| Renderer.RoundUp2MatchesRoundUpNat | ScorpiViewer/Renderer.h:10 | for a power-of-two y without wrap-around, the macro equals the smallest multiple of y not below x |
| Renderer.RoundUp2Bounds | ScorpiViewer/Renderer.h:10 | without wrap-around, `x <= roundup2(x, y) < x + y` |
| Renderer.RoundUp2Least | ScorpiViewer/Renderer.h:10 | without wrap-around, every word that is a multiple of y and not below x is at least the result |
| Renderer.RoundUp2KeepsMultiples | ScorpiViewer/Renderer.h:10 | an x that is already a multiple of a power-of-two y is returned unchanged, with no overflow condition |
| Renderer.RoundUp2Idempotent | ScorpiViewer/Renderer.h:10 | rounding twice gives the same word as rounding once, for every power-of-two y |
| Renderer.RoundUp2Monotone | ScorpiViewer/Renderer.h:10 | for `x1 <= x2` and no wrap-around at x2, `roundup2(x1, y) <= roundup2(x2, y)` |
| Renderer.RoundUp2NeedsPowerOfTwo | ScorpiViewer/Renderer.h:10 | `roundup2(5, 3)` is 5, which is not a multiple of 3: the power-of-two requirement is essential |
| Renderer.RoundUp2WrapsAround | ScorpiViewer/Renderer.h:10 | `roundup2(2^64 - 1, 2)` wraps around to 0, below x: the no-overflow requirement is essential |
| Renderer.NoOverflowIdiom | ScorpiViewer/Renderer.h:10 | `x + (y - 1)` fits in a word exactly when the wrapped sum is not below x |
| Renderer.PowerOfTwoIdiom | ScorpiViewer/Renderer.h:10 | a word y is a power of two exactly when `y != 0 && (y & (y - 1)) == 0` |
| Renderer.Log2 | ScorpiViewer/Renderer.h:10 | the exponent k with `2^k == y` of a power of two y |
| Renderer.PowersOfTwo | ScorpiViewer/Renderer.h:10 | every `2^k` satisfies the power-of-two predicate |
| Renderer.WordIsMultiple | ScorpiViewer/Renderer.h:10 | 2^64 is a multiple of every power of two that fits in a word |
| Words.Add | ScorpiViewer/Renderer.h:10 | unsigned `+` on `size_t`: the exact sum below 2^64, the sum minus 2^64 otherwise |
| Words.Sub | ScorpiViewer/Renderer.h:10 | unsigned `-` on `size_t`: the exact difference when it is not negative, the difference plus 2^64 otherwise |
| Words.NotIsBitwise | ScorpiViewer/Renderer.h:10 | `~a` flips each of the 64 digits of a |
| Words.NotInvolutive | ScorpiViewer/Renderer.h:10 | `~~a == a` |
| Words.AndIsBitwise | ScorpiViewer/Renderer.h:10 | a digit of `a & b` is set exactly when it is set in both a and b |
| Words.AndCommutes | ScorpiViewer/Renderer.h:10 | `a & b == b & a`, derived from the digit-wise contract |
| Words.BitsDetermineValue | ScorpiViewer/Renderer.h:10 | two numbers below 2^n with the same n low digits are equal |
| Words.AndComplementSum | ScorpiViewer/Renderer.h:10 | `(a & b) + (a & ~b)` over n digits is `a mod 2^n` |
| Words.AndLowMask | ScorpiViewer/Renderer.h:10 | `a & (2^k - 1) == a mod 2^k` |
| Words.AndNotLowMask | ScorpiViewer/Renderer.h:10 | `a & ~(2^k - 1) == a - a mod 2^k`: a rounded down to a multiple of 2^k |

## Left out

- The `Renderer` interface (ScorpiViewer/Renderer.h:36-42), i.e. initialisation with a view,
  `updateScanout`, `stop` and `updateTexture`: these are Metal drawing calls with no logic in the
  header.
- `base_ptr` in both records: kept as an opaque `HostMemory` token, because the pixel memory it
  points to belongs to the host and nothing in the header reads through it.
- Rules for valid scanouts (stride against width, size against height times stride, cursor hot
  spot inside the cursor): the header states none, so the datatypes carry no invariant.
- ScorpiViewer/SocketClient.h and ScorpiViewer/ViewController.h (the transport and the window
  controller) are not part of this model.
- Concurrency between the transport thread and the drawing thread is not modelled.
- Renderer.RoundUp2: the macro is untyped. The model fixes both operands as 64-bit `size_t`
  words. A use on signed `int` operands, or on a 32-bit target, is not modelled.
- `size_t` is modelled as an integer range with explicit wrap-around and digit-wise `&` and `~`,
  not as a machine bit-vector type. The digit-wise lemmas (`NotIsBitwise`, `AndIsBitwise`) state the
  bit-level behaviour instead.
