/** Unsigned machine words.

    A Rust `u64` (or a C# `UInt64`) is a natural number below `WORD`; the bitwise
    operators are defined digit by digit, and every fact about them is stated through
    `Bit`, the i-th binary digit counted from the least significant end. */
module Words {

  /** Two to the power 64. */
  const WORD: nat := 0x1_0000_0000_0000_0000

  function Pow2(n: nat): (p: nat)
    ensures p > 0
  {
    if n == 0 then 1 else 2 * Pow2(n - 1)
  }

  /** The i-th binary digit of `x`. */
  predicate Bit(x: nat, i: nat) {
    if i == 0 then x % 2 == 1 else Bit(x / 2, i - 1)
  }

  predicate IsU64(x: int) {
    0 <= x < WORD
  }

  type U64 = x: nat | x < WORD

  type Byte = b: nat | b < 256

  type I64 = x: int | -(WORD / 2) <= x < WORD / 2

  /** `a & b` */
  function And(a: nat, b: nat): nat {
    if a == 0 || b == 0 then 0
    else 2 * And(a / 2, b / 2) + (if a % 2 == 1 && b % 2 == 1 then 1 else 0)
  }

  /** `a | b` */
  function Or(a: nat, b: nat): nat
    decreases a + b
  {
    if a == 0 && b == 0 then 0
    else 2 * Or(a / 2, b / 2) + (if a % 2 == 1 || b % 2 == 1 then 1 else 0)
  }

  /** `a ^ b` */
  function Xor(a: nat, b: nat): nat
    decreases a + b
  {
    if a == 0 && b == 0 then 0
    else 2 * Xor(a / 2, b / 2) + (if a % 2 != b % 2 then 1 else 0)
  }

  /** `!a` on 64 bits */
  function Not64(a: nat): nat
    requires IsU64(a)
  {
    WORD - 1 - a
  }

  /** `a << k`, bits moved past position 63 are lost */
  function Shl64(a: nat, k: nat): nat {
    (a * Pow2(k)) % WORD
  }

  /** The 64-bit pattern as a signed number. */
  function ToI64(x: nat): (r: int)
    ensures IsU64(x) ==> -(WORD / 2) <= r < WORD / 2
  {
    if x >= WORD / 2 then x - WORD else x
  }

  /** `wrapping_add` and `wrapping_sub` keep the low 64 bits. */
  function WrapI64(x: int): I64 {
    ToI64(x % WORD)
  }

  /** `a >> k` */
  function Shr(a: nat, k: nat): nat {
    Quotient(a, Pow2(k))
  }

  function Quotient(a: nat, d: nat): nat
    requires d > 0
  {
    a / d
  }

  /** The number the `w` low bits of `x` make. */
  function Low(x: nat, w: nat): (r: nat)
    ensures r < Pow2(w)
  {
    x % Pow2(w)
  }

  lemma WrapI64Small(x: I64)
    ensures WrapI64(x) == x
  {
    if x >= 0 { ModSmall(x, WORD); } else { QuotientUnique(x, WORD, -1, x + WORD); }
  }

  lemma LowSmall(x: nat, w: nat)
    requires x < Pow2(w)
    ensures Low(x, w) == x
  {
    ModSmall(x, Pow2(w));
  }

  /** The word whose `w` low bits are set. */
  function LowMask(w: nat): nat {
    Pow2(w) - 1
  }

  // ---- Powers of two ----

  lemma {:induction false} Pow2Add(a: nat, b: nat)
    ensures Pow2(a + b) == Pow2(a) * Pow2(b)
  {
    if a > 0 {
      Pow2Add(a - 1, b);
      MulAssoc(2, Pow2(a - 1), Pow2(b));
    }
  }

  lemma MulAssoc(a: int, b: int, c: int)
    ensures (a * b) * c == a * (b * c)
  {}

  lemma {:induction false} Pow2Monotone(a: nat, b: nat)
    requires a <= b
    ensures Pow2(a) <= Pow2(b)
    ensures a < b ==> 2 * Pow2(a) <= Pow2(b)
    decreases b - a
  {
    if a < b { Pow2Monotone(a + 1, b); }
  }

  // ---- Division by a power of two ----

  lemma DivMulPow2(x: nat, k: nat)
    ensures x == Pow2(k) * (x / Pow2(k)) + x % Pow2(k)
    ensures 0 <= x % Pow2(k) < Pow2(k)
  {}

  /** A quotient is determined by the remainder bound. */
  lemma QuotientUnique(x: int, d: int, q: int, r: int)
    requires d > 0 && x == d * q + r && 0 <= r < d
    ensures x / d == q && x % d == r
  {
    var q', r' := x / d, x % d;
    assert d * (q' - q) == r - r' && d * (q - q') == r' - r;
    if q' > q {
      MulAtLeast(d, q' - q);
    } else if q' < q {
      MulAtLeast(d, q - q');
    }
  }

  lemma ModSmall(x: nat, d: nat)
    requires x < d
    ensures x % d == x && x / d == 0
  {}

  lemma MulAtLeast(d: int, n: int)
    requires d > 0 && n >= 1
    ensures d * n >= d
  {}

  lemma DivTwice(x: nat, p: nat)
    requires p > 0
    ensures x / (2 * p) == (x / 2) / p
  {
    var h := x / 2;
    MulAssoc(2, p, h / p);
    QuotientUnique(x, 2 * p, h / p, 2 * (h % p) + x % 2);
  }

  lemma {:induction false} DivPow2Add(x: nat, a: nat, b: nat)
    ensures x / Pow2(a + b) == (x / Pow2(a)) / Pow2(b)
    decreases a
  {
    if a > 0 {
      DivTwice(x, Pow2(a - 1 + b));
      DivTwice(x, Pow2(a - 1));
      DivPow2Add(x / 2, a - 1, b);
    }
  }

  // ---- Bits of the operators ----

  lemma {:induction false} BitZero(i: nat)
    ensures !Bit(0, i)
  {
    if i > 0 { BitZero(i - 1); }
  }

  lemma {:induction false} BitAnd(a: nat, b: nat, i: nat)
    ensures Bit(And(a, b), i) == (Bit(a, i) && Bit(b, i))
    decreases i
  {
    if a == 0 || b == 0 {
      BitZero(i);
    } else {
      assert And(a, b) / 2 == And(a / 2, b / 2);
      if i > 0 { BitAnd(a / 2, b / 2, i - 1); }
    }
  }

  lemma {:induction false} BitOr(a: nat, b: nat, i: nat)
    ensures Bit(Or(a, b), i) == (Bit(a, i) || Bit(b, i))
    decreases i
  {
    if a == 0 && b == 0 {
      BitZero(i);
    } else {
      assert Or(a, b) / 2 == Or(a / 2, b / 2);
      if i > 0 { BitOr(a / 2, b / 2, i - 1); }
    }
  }

  lemma {:induction false} BitNot(n: nat, a: nat, i: nat)
    requires a < Pow2(n)
    ensures Bit(Pow2(n) - 1 - a, i) == (i < n && !Bit(a, i))
    decreases i
  {
    if n == 0 {
      BitZero(i);
    } else {
      assert (Pow2(n) - 1 - a) / 2 == Pow2(n - 1) - 1 - a / 2;
      if i > 0 { BitNot(n - 1, a / 2, i - 1); }
    }
  }

  lemma {:induction false} BitMask(w: nat, i: nat)
    ensures Bit(LowMask(w), i) == (i < w)
  {
    BitNot(w, 0, i);
    BitZero(i);
  }

  lemma {:induction false} BitShl(x: nat, k: nat, i: nat)
    ensures Bit(x * Pow2(k), i) == (i >= k && Bit(x, i - k))
    decreases k
  {
    if k > 0 {
      var y := x * Pow2(k - 1);
      assert x * Pow2(k) == 2 * y by { MulAssoc(x, 2, Pow2(k - 1)); }
      if i > 0 { BitShl(x, k - 1, i - 1); }
    }
  }

  lemma BitPow2(p: nat, i: nat)
    ensures Bit(Pow2(p), i) == (i == p)
  {
    BitShl(1, p, i);
    if i > p { BitZero(i - p - 1); }
  }

  lemma {:induction false} BitShr(x: nat, k: nat, i: nat)
    ensures Bit(Shr(x, k), i) == Bit(x, i + k)
    decreases k
  {
    if k > 0 {
      DivTwice(x, Pow2(k - 1));
      BitShr(x / 2, k - 1, i);
    }
  }

  lemma {:induction false} BitMod(x: nat, k: nat, i: nat)
    ensures Bit(x % Pow2(k), i) == (i < k && Bit(x, i))
    decreases k
  {
    if k == 0 {
      assert x % 1 == 0;
      BitZero(i);
    } else {
      ModHalf(x, k);
      if i > 0 { BitMod(x / 2, k - 1, i - 1); }
    }
  }

  lemma ModHalf(x: nat, k: nat)
    requires k > 0
    ensures (x % Pow2(k)) / 2 == (x / 2) % Pow2(k - 1)
    ensures (x % Pow2(k)) % 2 == x % 2
  {
    var p := Pow2(k - 1);
    var q, r := x / 2, x % 2;
    assert q == p * (q / p) + q % p;
    assert x == Pow2(k) * (q / p) + (2 * (q % p) + r) by { MulAssoc(2, p, q / p); }
    QuotientUnique(x, Pow2(k), q / p, 2 * (q % p) + r);
  }

  /** A word is determined by its bits. */
  lemma {:induction false} BitExt(a: nat, b: nat)
    requires forall i: nat :: Bit(a, i) == Bit(b, i)
    ensures a == b
    decreases a + b
  {
    if a != 0 || b != 0 {
      assert Bit(a, 0) == Bit(b, 0);
      forall i: nat ensures Bit(a / 2, i) == Bit(b / 2, i) {
        assert Bit(a, i + 1) == Bit(b, i + 1);
      }
      BitExt(a / 2, b / 2);
    }
  }

  /** A word below `Pow2(n)` has no bit at or above position n. */
  lemma HighBitsClear(x: nat, n: nat)
    requires x < Pow2(n)
    ensures forall i: nat | i >= n :: !Bit(x, i)
  {
    ModSmall(x, Pow2(n));
    forall i: nat | i >= n ensures !Bit(x, i) { BitMod(x, n, i); }
  }

  /** A word without bits at or above position n is below `Pow2(n)`. */
  lemma HighBitsClearBelow(x: nat, n: nat)
    requires forall i: nat | i >= n :: !Bit(x, i)
    ensures x < Pow2(n)
  {
    forall i: nat ensures Bit(x % Pow2(n), i) == Bit(x, i) { BitMod(x, n, i); }
    BitExt(x % Pow2(n), x);
  }

  // ---- 64-bit words ----

  lemma WordIsPow2()
    ensures Pow2(64) == WORD
  {
    assert Pow2(8) == 256;
    Pow2Add(8, 8);
    Pow2Add(16, 16);
    Pow2Add(32, 32);
  }

  lemma Pow2Within(w: nat)
    requires w <= 64
    ensures Pow2(w) <= WORD
    ensures w < 64 ==> 2 * Pow2(w) <= WORD
    ensures w == 64 ==> Pow2(w) == WORD
  {
    WordIsPow2();
    Pow2Monotone(w, 64);
  }

  lemma SplitWord(w: nat)
    requires w <= 64
    ensures Pow2(w) * Pow2(64 - w) == WORD
  {
    WordIsPow2();
    Pow2Add(w, 64 - w);
  }

  lemma BitNot64(a: nat, i: nat)
    requires IsU64(a)
    ensures Bit(Not64(a), i) == (i < 64 && !Bit(a, i))
  {
    WordIsPow2();
    BitNot(64, a, i);
  }

  lemma BitShl64(x: nat, k: nat, i: nat)
    ensures Bit(Shl64(x, k), i) == (k <= i < 64 && Bit(x, i - k))
  {
    WordIsPow2();
    BitMod(x * Pow2(k), 64, i);
    BitShl(x, k, i);
  }

  /** A word has no bit past position 63. */
  lemma WordBits(x: nat)
    requires IsU64(x)
    ensures forall i: nat | i >= 64 :: !Bit(x, i)
  {
    WordIsPow2();
    HighBitsClear(x, 64);
  }

  lemma BitsWithinWord(x: nat)
    requires forall i: nat | i >= 64 :: !Bit(x, i)
    ensures IsU64(x)
  {
    WordIsPow2();
    HighBitsClearBelow(x, 64);
  }

  // ---- Consequences used by the models ----

  lemma AndIsU64(a: nat, b: nat)
    requires IsU64(a) || IsU64(b)
    ensures IsU64(And(a, b))
  {
    if IsU64(a) { WordBits(a); } else { WordBits(b); }
    forall i: nat | i >= 64 ensures !Bit(And(a, b), i) { BitAnd(a, b, i); }
    BitsWithinWord(And(a, b));
  }

  lemma OrIsU64(a: nat, b: nat)
    requires IsU64(a) && IsU64(b)
    ensures IsU64(Or(a, b))
  {
    WordBits(a);
    WordBits(b);
    forall i: nat | i >= 64 ensures !Bit(Or(a, b), i) { BitOr(a, b, i); }
    BitsWithinWord(Or(a, b));
  }

  lemma {:induction false} BitXor(a: nat, b: nat, i: nat)
    ensures Bit(Xor(a, b), i) == (Bit(a, i) != Bit(b, i))
    decreases i
  {
    if a == 0 && b == 0 {
      BitZero(i);
    } else {
      assert Xor(a, b) / 2 == Xor(a / 2, b / 2);
      if i > 0 { BitXor(a / 2, b / 2, i - 1); }
    }
  }

  lemma XorIsU64(a: nat, b: nat)
    requires IsU64(a) && IsU64(b)
    ensures IsU64(Xor(a, b))
  {
    WordBits(a);
    WordBits(b);
    forall i: nat | i >= 64 ensures !Bit(Xor(a, b), i) { BitXor(a, b, i); }
    BitsWithinWord(Xor(a, b));
  }

  /** Masking the low bits is reduction modulo a power of two. */
  lemma AndLowMask(x: nat, w: nat)
    ensures And(x, LowMask(w)) == Low(x, w)
  {
    forall i: nat ensures Bit(And(x, LowMask(w)), i) == Bit(Low(x, w), i) {
      BitAnd(x, LowMask(w), i);
      BitMask(w, i);
      BitMod(x, w, i);
    }
    BitExt(And(x, LowMask(w)), Low(x, w));
  }

  /** `(high << w) | low` is a sum when `low` fits in w bits. */
  lemma OrIsSum(high: nat, w: nat, low: nat)
    requires low < Pow2(w)
    ensures Or(high * Pow2(w), low) == high * Pow2(w) + low
  {
    var s := high * Pow2(w) + low;
    QuotientUnique(s, Pow2(w), high, low);
    HighBitsClear(low, w);
    forall i: nat ensures Bit(Or(high * Pow2(w), low), i) == Bit(s, i) {
      BitOr(high * Pow2(w), low, i);
      BitShl(high, w, i);
      BitMod(s, w, i);
      if i >= w { BitShr(s, w, i - w); }
    }
    BitExt(Or(high * Pow2(w), low), s);
  }
}
