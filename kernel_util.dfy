/*
 * The integer helpers of the kernel header: floor and ceiling of the
 * binary logarithm, the alignment exponent of a block, rounding up to a
 * power of two, and min/max.  Machine words (uintptr_t, size_t, lpaddr_t)
 * are 64 bits wide.
 */
module KernelUtil {

  const WordBits := 64
  const WordLimit := 0x1_0000_0000_0000_0000

  /** A 64-bit unsigned machine word, as an integer */
  type UWord = x: int | 0 <= x < WordLimit

  function Pow2(k: nat): (p: nat)
    ensures p >= 1
  {
    if k == 0 then 1 else 2 * Pow2(k - 1)
  }

  lemma {:induction false} Pow2Monotone(j: nat, k: nat)
    requires j <= k
    ensures Pow2(j) <= Pow2(k)
    decreases k
  {
    if j < k {
      Pow2Monotone(j, k - 1);
    }
  }

  lemma {:induction false} Pow2Split(j: nat, k: nat)
    requires j <= k
    ensures Pow2(k) == Pow2(j) * Pow2(k - j)
    decreases k
  {
    if j < k {
      Pow2Split(j, k - 1);
      assert Pow2(k) == 2 * Pow2(k - 1);
      assert Pow2(k - j) == 2 * Pow2(k - 1 - j);
    }
  }

  /** 2^64 is the first power of two a machine word cannot hold */
  lemma Pow2WordLimit()
    ensures Pow2(WordBits) == WordLimit
  {
    assert Pow2(8) == 0x100;
    Pow2Split(8, 16);
    Pow2Split(16, 32);
    Pow2Split(32, 64);
  }

  /** Euclidean division is unique: a quotient and remainder in range are the ones % and / give */
  lemma ModUnique(x: int, d: nat, q: int, r: int)
    requires d >= 1 && x == d * q + r && 0 <= r < d
    ensures x % d == r && x / d == q
  {
    var t := q - x / d;
    assert x % d - r == d * t by {
      assert x == d * (x / d) + x % d;
    }
  }

  /** Clearing the remainder leaves a multiple */
  lemma RoundDownMultiple(x: nat, d: nat)
    requires d >= 1
    ensures (x - x % d) % d == 0
  {
    assert x - x % d == d * (x / d) + 0;
    ModUnique(x - x % d, d, x / d, 0);
  }

  /** A number divisible by a multiple of d is divisible by d */
  lemma DividesMultiple(x: nat, d: nat, m: nat)
    requires d >= 1 && m >= 1 && x % (d * m) == 0
    ensures x % d == 0
  {
    var q := x / (d * m);
    assert x == (d * m) * q;
    assert x == d * (q * m) + 0;
    ModUnique(x, d, q * m, 0);
  }

  /** The remainder modulo 2p from the remainder of x / 2 modulo p and the low bit */
  lemma ModDouble(x: nat, p: nat)
    requires p >= 1
    ensures x % (2 * p) == 2 * ((x / 2) % p) + x % 2
  {
    var h := x / 2;
    assert h == p * (h / p) + h % p;
    assert x == (2 * p) * (h / p) + (2 * (h % p) + x % 2);
    ModUnique(x, 2 * p, h / p, 2 * (h % p) + x % 2);
  }

  /** Floor of the binary logarithm, with log2(0) taken to be 0 as the loop does */
  function Log2Floor(n: nat): nat
  {
    if n <= 1 then 0 else 1 + Log2Floor(n / 2)
  }

  /** For n >= 1, Log2Floor(n) is the exponent of the highest power of two not above n */
  lemma {:induction false} Log2FloorBounds(n: nat)
    requires n >= 1
    ensures Pow2(Log2Floor(n)) <= n < Pow2(Log2Floor(n) + 1)
  {
    if n > 1 {
      Log2FloorBounds(n / 2);
    }
  }

  /** The exponent is determined by the bounds: only one l fits 2^l <= n < 2^(l+1) */
  lemma {:induction false} Log2FloorUnique(n: nat, l: nat)
    requires Pow2(l) <= n < Pow2(l + 1)
    ensures Log2Floor(n) == l
    decreases l
  {
    if l > 0 {
      assert Pow2(l) == 2 * Pow2(l - 1);
      Log2FloorUnique(n / 2, l - 1);
    } else {
      assert n == 1;
    }
  }

  /** log2flr: the shifting loop of kernel.h */
  method Log2Flr(num: UWord) returns (l: nat)
    ensures l == Log2Floor(num) && l < WordBits
    ensures num >= 1 ==> Pow2(l) <= num < Pow2(l + 1)
    ensures num <= 1 ==> l == 0
  {
    l := 0;
    var n := num;
    while n > 1
      invariant l + Log2Floor(n) == Log2Floor(num)
    {
      n := n / 2;
      l := l + 1;
    }
    if num >= 1 {
      Log2FloorBounds(num);
      Pow2WordLimit();
      if l >= WordBits {
        Pow2Monotone(WordBits, l);
      }
    }
  }

  /**
   * log2cl: the floor when num is a power of two, one more otherwise; 0 is
   * not 2^0, so log2cl(0) is 1.
   */
  function Log2Ceil(num: UWord): (l: nat)
    ensures num >= 1 ==> num <= Pow2(l) && (l >= 1 ==> Pow2(l - 1) < num)
    ensures num == 0 ==> l == 1
    ensures l == Log2Floor(num) || l == Log2Floor(num) + 1
  {
    var f := Log2Floor(num);
    if num == Pow2(f) then
      (if num >= 1 && f >= 1 then assert Pow2(f) == 2 * Pow2(f - 1);
       f else f)
    else
      (if num >= 1 then Log2FloorBounds(num); f + 1 else f + 1)
  }

  /** log2cl agrees with log2flr exactly on the powers of two */
  lemma Log2CeilPowers(num: UWord)
    ensures Log2Ceil(num) == Log2Floor(num) <==> exists k: nat :: k < WordBits && num == Pow2(k)
  {
    if num == 0 {
      return;
    }
    var f := Log2Floor(num);
    Log2FloorBounds(num);
    if num == Pow2(f) {
      Pow2WordLimit();
      if f >= WordBits {
        Pow2Monotone(WordBits, f);
      }
    }
    if k: nat :| k < WordBits && num == Pow2(k) {
      Log2FloorUnique(num, k);
    }
  }

  /**
   * bitaddralign: the largest exponent r such that a block of 2^r bytes at
   * base is aligned to its size and fits in n bytes.  The alignment search
   * starts at 2^63; base 0 is aligned to every size.
   */
  method BitAddrAlign(n: UWord, base: UWord) returns (r: nat)
    ensures n == 0 ==> r == 0
    ensures n > 0 ==> Pow2(r) <= n && base % Pow2(r) == 0
    ensures n > 0 ==> forall x :: x > r && Pow2(x) <= n ==> base % Pow2(x) != 0
  {
    var exponent := WordBits - 1;
    if n == 0 {
      return 0;
    }
    while exponent > 0 && base % Pow2(exponent) != 0
      invariant 0 <= exponent < WordBits
      invariant forall x :: exponent < x < WordBits ==> base % Pow2(x) != 0
    {
      exponent := exponent - 1;
    }
    Pow2WordLimit();
    forall x | x >= WordBits
      ensures Pow2(x) > n
    {
      Pow2Monotone(WordBits, x);
    }
    var lf := Log2Flr(n);
    if Pow2(exponent) > n {
      r := lf;
      if lf >= exponent {
        Pow2Monotone(exponent, lf);
      }
      Pow2Split(lf, exponent);
      DividesMultiple(base, Pow2(lf), Pow2(exponent - lf));
      forall x | x > r
        ensures Pow2(x) > n
      {
        Pow2Monotone(r + 1, x);
      }
    } else {
      r := exponent;
    }
  }

  /** The example of the kernel.h comment: a 20-byte block at address 4 splits off 2^2 bytes */
  lemma BitAddrAlignExample(r: nat)
    requires Pow2(r) <= 20 && 4 % Pow2(r) == 0
    requires forall x :: x > r && Pow2(x) <= 20 ==> 4 % Pow2(x) != 0
    ensures r == 2
  {
    assert Pow2(2) == 4;
    assert Pow2(5) == 32;
    if r >= 5 {
      Pow2Monotone(5, r);
    }
    assert r < 5;
    assert Pow2(3) == 8 && Pow2(4) == 16;
  }

  /** Bitwise AND of two naturals, from the least significant bit up */
  function BitAnd(a: nat, b: nat): (r: nat)
    ensures r <= a && r <= b
  {
    if a == 0 || b == 0 then 0
    else 2 * BitAnd(a / 2, b / 2) + (if a % 2 == 1 && b % 2 == 1 then 1 else 0)
  }

  /** ~x on a 64-bit word */
  function BitNot(x: UWord): UWord
  {
    WordLimit - 1 - x
  }

  /** x AND (2^w - 1) keeps every bit of an x below 2^w */
  lemma {:induction false} BitAndAllOnes(x: nat, w: nat)
    requires x < Pow2(w)
    ensures BitAnd(x, Pow2(w) - 1) == x
  {
    if w > 0 && x > 0 {
      assert Pow2(w) - 1 == 2 * (Pow2(w - 1) - 1) + 1;
      BitAndAllOnes(x / 2, w - 1);
    }
  }

  /** The k low bits of x, bit by bit */
  function LowBits(x: nat, k: nat): nat
  {
    if k == 0 then 0 else 2 * LowBits(x / 2, k - 1) + x % 2
  }

  /** The k low bits of x are x mod 2^k */
  lemma {:induction false} LowBitsMod(x: nat, k: nat)
    ensures LowBits(x, k) == x % Pow2(k)
  {
    if k > 0 {
      LowBitsMod(x / 2, k - 1);
      ModDouble(x, Pow2(k - 1));
    }
  }

  /** The mask of bits k..w-1, one bit position at a time */
  function HighMask(w: nat, k: nat): nat
    requires k <= w
  {
    if k == 0 then Pow2(w) - 1 else 2 * HighMask(w - 1, k - 1)
  }

  /** The mask of bits k..w-1 is 2^w - 2^k */
  lemma {:induction false} HighMaskValue(w: nat, k: nat)
    requires k <= w
    ensures HighMask(w, k) == Pow2(w) - Pow2(k)
  {
    if k > 0 {
      HighMaskValue(w - 1, k - 1);
    }
  }

  /** x AND the mask of bits k..w-1 clears the k low bits of an x below 2^w */
  lemma {:induction false} BitAndHighMask(x: nat, w: nat, k: nat)
    requires k <= w && x < Pow2(w)
    ensures BitAnd(x, HighMask(w, k)) == x - LowBits(x, k)
  {
    if k == 0 {
      BitAndAllOnes(x, w);
    } else {
      HalfBelow(x, w);
      BitAndHighMask(x / 2, w - 1, k - 1);
      BitAndEven(x, HighMask(w - 1, k - 1));
    }
  }

  /** Halving a number below 2^w brings it below 2^(w-1) */
  lemma HalfBelow(x: nat, w: nat)
    requires w >= 1 && x < Pow2(w)
    ensures x / 2 < Pow2(w - 1)
  {
    assert Pow2(w) == 2 * Pow2(w - 1);
  }

  /** AND with an even mask clears bit 0 and works on the halves */
  lemma BitAndEven(a: nat, q: nat)
    ensures BitAnd(a, 2 * q) == 2 * BitAnd(a / 2, q)
  {
    assert (2 * q) / 2 == q && (2 * q) % 2 == 0;
  }

  /**
   * ROUND_UP on 64-bit unsigned words: (n + size - 1) & ~(size - 1), the
   * sum and the difference wrapping modulo 2^64.
   */
  function RoundUp(n: UWord, size: UWord): (r: UWord)
    ensures r <= (n + size - 1) % WordLimit
  {
    BitAnd((n + size - 1) % WordLimit, BitNot((size - 1) % WordLimit))
  }

  /**
   * For size = 2^k and no overflow in n + size - 1, ROUND_UP is the least
   * multiple of size that is at least n.
   */
  lemma RoundUpPowerOfTwo(n: UWord, size: UWord, k: nat)
    requires size == Pow2(k) && n + size - 1 < WordLimit
    ensures var r := RoundUp(n, size);
      r % size == 0 && n <= r < n + size
  {
    var x := n + size - 1;
    assert k < WordBits by {
      Pow2WordLimit();
      if k >= WordBits {
        Pow2Monotone(WordBits, k);
      }
    }
    var r := RoundUp(n, size);
    assert r == x - x % size by {
      RoundUpNoWrap(n, size);
      Pow2WordLimit();
      BitAndHighMask(x, WordBits, k);
      HighMaskValue(WordBits, k);
      LowBitsMod(x, k);
    }
    RoundDownMultiple(x, size);
  }

  /** Without overflow, neither the sum nor the difference of ROUND_UP wraps */
  lemma RoundUpNoWrap(n: UWord, size: UWord)
    requires 1 <= size && n + size - 1 < WordLimit
    ensures RoundUp(n, size) == BitAnd(n + size - 1, WordLimit - size)
  {
    assert (n + size - 1) % WordLimit == n + size - 1;
    assert (size - 1) % WordLimit == size - 1;
  }

  /** min: the smaller argument */
  function Min(a: int, b: int): (m: int)
    ensures m <= a && m <= b && (m == a || m == b)
  {
    if a < b then a else b
  }

  /** max: the larger argument */
  function Max(a: int, b: int): (m: int)
    ensures m >= a && m >= b && (m == a || m == b)
  {
    if a > b then a else b
  }
}
