/** The software host of `src/soc/isa/machine/host.rs`: width-parametric addition,
    subtraction and multiplication on 64-bit words. */
module HostArith {
  import opened Words

  datatype ArithResult = ArithResult(value: nat, carry: bool, overflow: bool)
  datatype MulResult = MulResult(low: nat, high: nat)

  function BoolBit(b: bool): nat {
    if b then 1 else 0
  }

  /** The mask and the sign-bit count of a width; widths past 64 behave like 64. */
  function MaskAndSign(width: nat): (nat, nat) {
    if width == 0 then (0, 0)
    else if width <= 63 then (LowMask(width), width)
    else (WORD - 1, 64)
  }

  /** What a raised flag is worth: the weight of the digit it stands for. */
  function Weight(flag: bool, weight: nat): nat {
    if flag then weight else 0
  }

  /** `a.overflowing_add(b)` on u64 operands */
  function OverflowingAdd(a: nat, b: nat): (nat, bool) {
    if a + b >= WORD then (a + b - WORD, true) else (a + b, false)
  }

  /** `x & (1 << position) != 0` */
  predicate TestBit(x: nat, position: nat) {
    And(x, Shl64(1, position)) != 0
  }

  function AddCore(lhs: nat, rhs: nat, width: nat, carryIn: bool): ArithResult {
    var (mask, signBit) := MaskAndSign(width);
    var l := And(lhs, mask);
    var r := And(rhs, mask);
    var (sum0, carry0) := OverflowingAdd(l, r);
    var (sum, carry1) := OverflowingAdd(sum0, BoolBit(carryIn));
    assert IsU64(mask) by { if width <= 64 { Pow2Within(width); } }
    var carryFromWidth := And(sum, Not64(mask)) != 0;
    var value := And(sum, mask);
    ArithResult(value, carry0 || carry1 || carryFromWidth, OverflowAdd(l, r, value, signBit))
  }

  function OverflowAdd(lhs: nat, rhs: nat, value: nat, signBit: nat): bool {
    if signBit == 0 then false
    else
      var lhsSign := TestBit(lhs, signBit - 1);
      var rhsSign := TestBit(rhs, signBit - 1);
      var resSign := TestBit(value, signBit - 1);
      lhsSign == rhsSign && lhsSign != resSign
  }

  function OverflowSub(lhs: nat, rhs: nat, value: nat, signBit: nat): bool {
    if signBit == 0 then false
    else
      var lhsSign := TestBit(lhs, signBit - 1);
      var rhsSign := TestBit(rhs, signBit - 1);
      var resSign := TestBit(value, signBit - 1);
      lhsSign != rhsSign && lhsSign != resSign
  }

  function Add(lhs: nat, rhs: nat, carryIn: bool, width: nat): ArithResult {
    AddCore(lhs, rhs, width, carryIn)
  }

  function Sub(lhs: nat, rhs: nat, borrowIn: bool, width: nat): ArithResult
    requires IsU64(lhs) && IsU64(rhs)
  {
    var (mask, signBit) := MaskAndSign(width);
    var base := AddCore(lhs, And(Not64(rhs), mask), width, !borrowIn);
    ArithResult(base.value, !base.carry, OverflowSub(lhs, rhs, base.value, signBit))
  }

  /** The product is formed on 128 bits, so it is exact; both halves are cut to u64. */
  function Mul(lhs: nat, rhs: nat, width: nat): MulResult {
    SplitAt(lhs * rhs, width)
  }

  function SplitAt(product: nat, width: nat): MulResult {
    var (mask, _) := MaskAndSign(width);
    MulResult(And(product, mask), Shr(product, width) % WORD)
  }

  // ---- Meaning ----

  /** Two's complement reading of the low `w` bits of `x`. */
  function Signed(x: nat, w: nat): int {
    var m := Low(x, w);
    if w > 0 && m >= Pow2(w - 1) then m - Pow2(w) else m
  }

  predicate InSignedRange(v: int, w: nat)
    requires w > 0
  {
    0 - Pow2(w - 1) <= v < Pow2(w - 1)
  }

  lemma MaskOf(width: nat)
    requires width <= 64
    ensures MaskAndSign(width) == (LowMask(width), width)
    ensures Pow2(width) <= WORD
  {
    Pow2Within(width);
  }

  /** Testing the top bit of a w-bit value compares it with half the range. */
  lemma TestTopBit(x: nat, w: nat)
    requires 0 < w <= 64
    ensures TestBit(x, w - 1) <==> Low(x, w) >= Pow2(w - 1)
  {
    TopBit(x, w);
    TestBitIsBit(x, w - 1);
  }

  lemma TopBit(x: nat, w: nat)
    requires w > 0
    ensures Bit(x, w - 1) <==> Low(x, w) >= Pow2(w - 1)
  {
    var p, m := Pow2(w - 1), Low(x, w);
    BitMod(x, w, w - 1);
    BitShr(m, w - 1, 0);
    if m >= p { QuotientUnique(m, p, 1, m - p); } else { QuotientUnique(m, p, 0, m); }
  }

  lemma TestBitIsBit(x: nat, position: nat)
    requires position < 64
    ensures TestBit(x, position) <==> Bit(x, position)
  {
    var p := Shl64(1, position);
    forall i: nat ensures Bit(And(x, p), i) == (i == position && Bit(x, position)) {
      BitAnd(x, p, i);
      BitShl64(1, position, i);
      if i > position { BitOne(i - position); }
    }
    if Bit(x, position) {
      assert Bit(And(x, p), position);
      BitZero(position);
    } else {
      forall i: nat ensures Bit(And(x, p), i) == Bit(0, i) { BitZero(i); }
      BitExt(And(x, p), 0);
    }
  }

  lemma BitOne(i: nat)
    requires i > 0
    ensures !Bit(1, i)
  {
    BitZero(i - 1);
  }

  /** The bits above the mask are set exactly when the word is at least `Pow2(w)`. */
  lemma AboveMask(x: nat, w: nat)
    requires IsU64(x) && w <= 64
    ensures IsU64(LowMask(w))
    ensures And(x, Not64(LowMask(w))) != 0 <==> x >= Pow2(w)
  {
    Pow2Within(w);
    var n := Not64(LowMask(w));
    WordBits(x);
    forall i: nat ensures Bit(And(x, n), i) == (i >= w && Bit(x, i)) {
      BitAnd(x, n, i);
      BitNot64(LowMask(w), i);
      BitMask(w, i);
    }
    if And(x, n) == 0 {
      forall i: nat | i >= w ensures !Bit(x, i) { BitZero(i); assert Bit(And(x, n), i) == Bit(x, i); }
      HighBitsClearBelow(x, w);
    } else if x < Pow2(w) {
      HighBitsClear(x, w);
      forall i: nat ensures Bit(And(x, n), i) == Bit(0, i) { BitZero(i); }
      BitExt(And(x, n), 0);
    }
  }

  lemma MaskedComplement(x: nat, w: nat)
    requires IsU64(x) && w <= 64
    ensures And(Not64(x), LowMask(w)) == Complement(x, w)
  {
    var n := Complement(x, w);
    forall i: nat ensures Bit(And(Not64(x), LowMask(w)), i) == Bit(n, i) {
      BitAnd(Not64(x), LowMask(w), i);
      BitNot64(x, i);
      BitMask(w, i);
      BitNot(w, Low(x, w), i);
      BitMod(x, w, i);
    }
    BitExt(And(Not64(x), LowMask(w)), n);
  }

  /** Two word additions and the mask test, seen on plain integers. */
  lemma CarryChain(l: nat, r: nat, c: nat, p: nat)
    requires 0 < p <= WORD && l < p && r < p && c <= 1 && (p == WORD || 2 * p <= WORD)
    ensures var (sum0, carry0) := OverflowingAdd(l, r);
      var (sum, carry1) := OverflowingAdd(sum0, c);
      var carry := carry0 || carry1 || sum >= p;
      sum % p + Weight(carry, p) == l + r + c && IsU64(sum)
  {
    var total := l + r + c;
    var sum := OverflowingAdd(OverflowingAdd(l, r).0, c).0;
    assert sum < 2 * p;
    if sum >= p { QuotientUnique(sum, p, 1, sum - p); } else { QuotientUnique(sum, p, 0, sum); }
  }

  /** For every width 0..64, addition is exact: the flag is the carry out of the width. */
  lemma AddExact(lhs: nat, rhs: nat, carryIn: bool, width: nat)
    requires width <= 64
    ensures var r := Add(lhs, rhs, carryIn, width);
      && r.value < Pow2(width)
      && r.value + Weight(r.carry, Pow2(width))
         == Low(lhs, width) + Low(rhs, width) + BoolBit(carryIn)
  {
    MaskOf(width);
    AndLowMask(lhs, width);
    AndLowMask(rhs, width);
    Pow2Within(width);
    var l, r, c := Low(lhs, width), Low(rhs, width), BoolBit(carryIn);
    CarryChain(l, r, c, Pow2(width));
    var sum := OverflowingAdd(OverflowingAdd(l, r).0, c).0;
    AndLowMask(sum, width);
    AboveMask(sum, width);
  }

  /** The overflow flag of an addition is raised exactly when the signed sum of the
      operands and the carry does not fit in the width. */
  lemma AddOverflowExact(lhs: nat, rhs: nat, carryIn: bool, width: nat)
    requires width <= 64
    ensures width == 0 ==> !Add(lhs, rhs, carryIn, width).overflow
    ensures width > 0 ==>
      (Add(lhs, rhs, carryIn, width).overflow <==>
       !InSignedRange(Signed(lhs, width) + Signed(rhs, width) + BoolBit(carryIn), width))
  {
    MaskOf(width);
    AndLowMask(lhs, width);
    AndLowMask(rhs, width);
    AddExact(lhs, rhs, carryIn, width);
    if width > 0 {
      var sum := Add(lhs, rhs, carryIn, width);
      TestTopBit(Low(lhs, width), width);
      TestTopBit(Low(rhs, width), width);
      TestTopBit(sum.value, width);
      ModMod(lhs, width);
      ModMod(rhs, width);
      LowSmall(sum.value, width);
    }
  }

  lemma ModMod(x: nat, w: nat)
    ensures Low(Low(x, w), w) == Low(x, w)
  {
    LowSmall(Low(x, w), w);
  }

  /** Subtraction adds the complement and inverts the carry. */
  lemma SubIsAdd(lhs: nat, rhs: nat, borrowIn: bool, width: nat)
    requires IsU64(lhs) && IsU64(rhs) && width <= 64
    ensures var base := Add(lhs, Complement(rhs, width), !borrowIn, width);
      Sub(lhs, rhs, borrowIn, width).value == base.value && Sub(lhs, rhs, borrowIn, width).carry == !base.carry
  {
    MaskOf(width);
    MaskedComplement(rhs, width);
  }

  /** The w-bit one's complement. */
  function Complement(x: nat, w: nat): (r: nat)
    ensures r < Pow2(w) && r == Pow2(w) - 1 - Low(x, w)
  {
    Pow2(w) - 1 - Low(x, w)
  }

  /** For every width 0..64, subtraction is exact: the flag is the borrow. */
  lemma SubExact(lhs: nat, rhs: nat, borrowIn: bool, width: nat)
    requires IsU64(lhs) && IsU64(rhs) && width <= 64
    ensures Sub(lhs, rhs, borrowIn, width).value < Pow2(width)
    ensures Sub(lhs, rhs, borrowIn, width).value
      == Low(lhs, width) - Low(rhs, width) - BoolBit(borrowIn)
         + Weight(Sub(lhs, rhs, borrowIn, width).carry, Pow2(width))
  {
    SubIsAdd(lhs, rhs, borrowIn, width);
    var complement := Complement(rhs, width);
    LowSmall(complement, width);
    AddExact(lhs, complement, !borrowIn, width);
    var base := Add(lhs, complement, !borrowIn, width);
    BorrowFromCarry(Pow2(width), Low(lhs, width), Low(rhs, width), borrowIn, base.value, base.carry);
  }

  lemma BorrowFromCarry(p: nat, l: nat, r: nat, borrow: bool, value: nat, carry: bool)
    requires value + Weight(carry, p) == l + (p - 1 - r) + BoolBit(!borrow)
    ensures value == l - r - BoolBit(borrow) + Weight(!carry, p)
  {}

  /** The overflow flag of a subtraction is raised exactly when the signed difference
      does not fit in the width. */
  lemma SubOverflowExact(lhs: nat, rhs: nat, borrowIn: bool, width: nat)
    requires IsU64(lhs) && IsU64(rhs) && width <= 64
    ensures width == 0 ==> !Sub(lhs, rhs, borrowIn, width).overflow
    ensures width > 0 ==>
      (Sub(lhs, rhs, borrowIn, width).overflow <==>
       !InSignedRange(Signed(lhs, width) - Signed(rhs, width) - BoolBit(borrowIn), width))
  {
    MaskOf(width);
    SubExact(lhs, rhs, borrowIn, width);
    if width > 0 {
      var v := Sub(lhs, rhs, borrowIn, width).value;
      TestTopBit(lhs, width);
      TestTopBit(rhs, width);
      TestTopBit(v, width);
      LowSmall(v, width);
    }
  }

  /** The two halves recompose the product exactly when the high half fits a u64. */
  lemma MulExactIff(lhs: nat, rhs: nat, product: nat, width: nat)
    requires width <= 64 && product == lhs * rhs
    ensures Mul(lhs, rhs, width).low < Pow2(width)
    ensures Mul(lhs, rhs, width).low + Mul(lhs, rhs, width).high * Pow2(width) == product
      <==> product < WORD * Pow2(width)
  {
    assert Mul(lhs, rhs, width) == SplitAt(product, width);
    SplitAtExact(product, width);
  }

  lemma SplitAtExact(product: nat, width: nat)
    requires width <= 64
    ensures var r := SplitAt(product, width);
      && r.low < Pow2(width)
      && (r.low + r.high * Pow2(width) == product <==> product < WORD * Pow2(width))
  {
    MaskOf(width);
    AndLowMask(product, width);
    SplitProduct(product, Pow2(width));
  }

  lemma SplitProduct(product: nat, p: nat)
    requires p > 0
    ensures product % p + (product / p % WORD) * p == product <==> product < WORD * p
  {
    var h, low := product / p, product % p;
    assert product == p * h + low;
    if h >= WORD {
      MulAtLeast(p, h - h % WORD);
      ScaledDifference(p, h, h % WORD);
      ScaledAtLeast(p, h, WORD);
    } else {
      ModSmall(h, WORD);
      ScaledAtLeast(p, WORD, h + 1);
      assert p * (h + 1) == p * h + p;
    }
  }

  lemma ScaledDifference(p: int, a: int, b: int)
    ensures p * (a - b) == p * a - b * p
  {}

  lemma ScaledAtLeast(p: nat, a: nat, b: nat)
    requires a >= b
    ensures p * a >= p * b && b * p == p * b
  {
    assert p * (a - b) >= 0;
  }

  /** Operands within the width always multiply exactly. */
  lemma MulExactInWidth(lhs: nat, rhs: nat, product: nat, width: nat)
    requires width <= 64 && lhs < Pow2(width) && rhs < Pow2(width) && product == lhs * rhs
    ensures Mul(lhs, rhs, width).low + Mul(lhs, rhs, width).high * Pow2(width) == product
  {
    Pow2Within(width);
    ProductBound(lhs, rhs, Pow2(width));
    MulExactIff(lhs, rhs, product, width);
  }

  lemma ProductBound(a: nat, b: nat, p: nat)
    requires a < p <= WORD && b < p
    ensures a * b < WORD * p
  {
    assert (WORD - a) * b >= 0 && (WORD - a) * b == WORD * b - a * b;
  }

  // ---- Limb by limb ----

  predicate Limbs(xs: seq<nat>, w: nat) {
    forall i | 0 <= i < |xs| :: xs[i] < Pow2(w)
  }

  predicate AreWords(xs: seq<nat>) {
    forall i | 0 <= i < |xs| :: IsU64(xs[i])
  }

  /** The number a little-endian limb list denotes. */
  function LimbValue(xs: seq<nat>, w: nat): nat {
    if xs == [] then 0 else xs[0] + Pow2(w) * LimbValue(xs[1..], w)
  }

  /** Adding limb by limb, each carry fed to the next limb. */
  function AddLimbs(xs: seq<nat>, ys: seq<nat>, carry: bool, w: nat): (seq<nat>, bool)
    requires |xs| == |ys|
  {
    if xs == [] then ([], carry)
    else
      var r := Add(xs[0], ys[0], carry, w);
      var (rest, out) := AddLimbs(xs[1..], ys[1..], r.carry, w);
      ([r.value] + rest, out)
  }

  function SubLimbs(xs: seq<nat>, ys: seq<nat>, borrow: bool, w: nat): (seq<nat>, bool)
    requires |xs| == |ys| && AreWords(xs) && AreWords(ys)
  {
    if xs == [] then ([], borrow)
    else
      var r := Sub(xs[0], ys[0], borrow, w);
      var (rest, out) := SubLimbs(xs[1..], ys[1..], r.carry, w);
      ([r.value] + rest, out)
  }

  /** The weight of the limb after the n-th: `(2^w)^n`. */
  function Radix(w: nat, n: nat): nat {
    if n == 0 then 1 else Pow2(w) * Radix(w, n - 1)
  }

  /** Chaining `add` computes the exact n-limb sum. */
  lemma {:induction false} AddLimbsExact(xs: seq<nat>, ys: seq<nat>, carry: bool, w: nat)
    requires |xs| == |ys| && w <= 64 && Limbs(xs, w) && Limbs(ys, w)
    ensures var (zs, out) := AddLimbs(xs, ys, carry, w);
      && |zs| == |xs| && Limbs(zs, w)
      && LimbValue(zs, w) + Weight(out, Radix(w, |xs|))
         == LimbValue(xs, w) + LimbValue(ys, w) + BoolBit(carry)
    decreases |xs|
  {
    if xs != [] {
      var r := Add(xs[0], ys[0], carry, w);
      AddExact(xs[0], ys[0], carry, w);
      LowSmall(xs[0], w);
      LowSmall(ys[0], w);
      AddLimbsExact(xs[1..], ys[1..], r.carry, w);
      var (rest, out) := AddLimbs(xs[1..], ys[1..], r.carry, w);
      assert ([r.value] + rest)[1..] == rest;
      ShiftedSum(Pow2(w), r.value, r.carry, xs[0] + ys[0] + BoolBit(carry), LimbValue(rest, w),
                 out, Radix(w, |xs| - 1), LimbValue(xs[1..], w), LimbValue(ys[1..], w));
    }
  }

  /** Chaining `sub` computes the exact n-limb difference. */
  lemma {:induction false} SubLimbsExact(xs: seq<nat>, ys: seq<nat>, borrow: bool, w: nat)
    requires |xs| == |ys| && w <= 64 && Limbs(xs, w) && Limbs(ys, w)
    requires AreWords(xs) && AreWords(ys)
    ensures var (zs, out) := SubLimbs(xs, ys, borrow, w);
      && |zs| == |xs| && Limbs(zs, w)
      && LimbValue(zs, w)
         == LimbValue(xs, w) - LimbValue(ys, w) - BoolBit(borrow) + Weight(out, Radix(w, |xs|))
    decreases |xs|
  {
    if xs != [] {
      var r := Sub(xs[0], ys[0], borrow, w);
      SubExact(xs[0], ys[0], borrow, w);
      LowSmall(xs[0], w);
      LowSmall(ys[0], w);
      SubLimbsExact(xs[1..], ys[1..], r.carry, w);
      var (rest, out) := SubLimbs(xs[1..], ys[1..], r.carry, w);
      assert ([r.value] + rest)[1..] == rest;
      ShiftedDifference(Pow2(w), r.value, r.carry, xs[0] - ys[0] - BoolBit(borrow), LimbValue(rest, w),
                        out, Radix(w, |xs| - 1), LimbValue(xs[1..], w), LimbValue(ys[1..], w));
    }
  }

  lemma ShiftedSum(p: nat, value: int, carry: bool, head: int, tail: int, out: bool, q: nat, xt: int, yt: int)
    requires value + Weight(carry, p) == head
    requires tail + Weight(out, q) == xt + yt + BoolBit(carry)
    ensures value + p * tail + Weight(out, p * q) == head + p * xt + p * yt
  {
    assert p * (tail + Weight(out, q)) == p * tail + p * Weight(out, q);
    assert p * (xt + yt + BoolBit(carry)) == p * xt + p * yt + p * BoolBit(carry);
  }

  lemma ShiftedDifference(p: nat, value: int, borrow: bool, head: int, tail: int, out: bool, q: nat, xt: int, yt: int)
    requires value == head + Weight(borrow, p)
    requires tail == xt - yt - BoolBit(borrow) + Weight(out, q)
    ensures value + p * tail == head + p * xt - p * yt + Weight(out, p * q)
  {
    assert p * (xt - yt - BoolBit(borrow) + Weight(out, q))
        == p * xt - p * yt - p * BoolBit(borrow) + p * Weight(out, q);
  }
}
