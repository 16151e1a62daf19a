/** Connection masks: a tile's four edges as the low four bits of its
    catalog index (1 = top, 2 = right, 4 = bottom, 8 = left). */
module Connections {

  /** 2 to the power `k`. */
  function Pow2(k: nat): (r: nat)
    ensures r >= 1
  {
    if k == 0 then 1 else 2 * Pow2(k - 1)
  }

  /** Bit `k` of `x` is set. */
  predicate TestBit(x: nat, k: nat) {
    (x / Pow2(k)) % 2 == 1
  }

  /** `Pow2(k)` is the one-bit mask of bit `k`: the edge bits 1, 2, 4 and 8
      are `Pow2(0)` to `Pow2(3)`, each with exactly its own bit set. */
  lemma {:induction false} OneBit(k: nat, j: nat)
    ensures TestBit(Pow2(k), j) <==> j == k
  {
    if j == 0 {
      assert Pow2(0) == 1;
      if k > 0 {
        assert Pow2(k) == 2 * Pow2(k - 1);
      }
    } else {
      ShiftBit(Pow2(k), j);
      if k == 0 {
        ZeroDiv(j - 1);
      } else {
        assert Pow2(k) / 2 == Pow2(k - 1);
        OneBit(k - 1, j - 1);
      }
    }
  }

  /** Bitwise AND of two non-negative integers (`&` of the three sources;
      all three only ever apply it to values in 0..15). */
  function And(a: nat, b: nat): nat
    decreases a
  {
    if a == 0 || b == 0 then 0
    else 2 * And(a / 2, b / 2) + (if a % 2 == 1 && b % 2 == 1 then 1 else 0)
  }

  /** `bit_on(mask, bit)`: `bit & mask == bit`. */
  predicate BitOn(mask: nat, bit: nat) {
    And(bit, mask) == bit
  }

  /** `has_top_connection` and its three siblings, written as tests of one
      bit of the mask; `EdgeBits` proves each the same as the source's
      `bit_on(ci, 1)`, `bit_on(ci, 2)`, `bit_on(ci, 4)`, `bit_on(ci, 8)`. */
  predicate HasTop(ci: nat) { ci % 2 == 1 }
  predicate HasRight(ci: nat) { (ci / 2) % 2 == 1 }
  predicate HasBottom(ci: nat) { (ci / 4) % 2 == 1 }
  predicate HasLeft(ci: nat) { (ci / 8) % 2 == 1 }

  /** Only a filled tile has an edge. */
  lemma EdgeMeansFilled(m: nat)
    ensures HasTop(m) || HasRight(m) || HasBottom(m) || HasLeft(m) ==> m != 0
  {
  }

  /** The mask with the given four edges. */
  function MaskOf(top: bool, right: bool, bottom: bool, left: bool): (m: nat)
    ensures m < 16
    ensures HasTop(m) == top && HasRight(m) == right
    ensures HasBottom(m) == bottom && HasLeft(m) == left
  {
    var m := (if top then 1 else 0) + (if right then 2 else 0)
           + (if bottom then 4 else 0) + (if left then 8 else 0);
    MaskDigits(m, top, right, bottom, left);
    m
  }

  lemma AndBits(a: nat, b: nat, k: nat)
    ensures TestBit(And(a, b), k) <==> TestBit(a, k) && TestBit(b, k)
    decreases a
  {
    if a == 0 || b == 0 {
      ZeroDiv(k);
    } else if k == 0 {
      assert Pow2(0) == 1;
    } else {
      var c := And(a / 2, b / 2);
      assert And(a, b) == 2 * c + (if a % 2 == 1 && b % 2 == 1 then 1 else 0);
      assert And(a, b) / 2 == c;
      AndBits(a / 2, b / 2, k - 1);
      ShiftBit(And(a, b), k);
      ShiftBit(a, k);
      ShiftBit(b, k);
    }
  }

  lemma ZeroDiv(k: nat)
    ensures (0 / Pow2(k)) % 2 == 0
  {
  }

  /** Bit `k` of `x` is bit `k - 1` of `x / 2`. */
  lemma ShiftBit(x: nat, k: nat)
    requires k > 0
    ensures TestBit(x, k) <==> TestBit(x / 2, k - 1)
  {
    DivDiv(x, 2, Pow2(k - 1));
  }

  lemma DivDiv(x: nat, a: nat, b: nat)
    requires a > 0 && b > 0
    ensures x / (a * b) == (x / a) / b
  {
    var q, r := x / a, x % a;
    var q2, r2 := q / b, q % b;
    Regroup(a, b, q, q2, r2);
    RemainderBound(a, b, r, r2);
    DivUnique(x, a * b, q2, a * r2 + r);
  }

  lemma Regroup(a: nat, b: nat, q: nat, q2: nat, r2: nat)
    requires q == b * q2 + r2
    ensures a * q == (a * b) * q2 + a * r2
  {
    assert a * (b * q2 + r2) == a * (b * q2) + a * r2;
  }

  lemma RemainderBound(a: nat, b: nat, r: nat, r2: nat)
    requires r < a && r2 < b
    ensures a * r2 + r < a * b
  {
    MulLe(a, r2, b - 1);
    assert a * (b - 1) == a * b - a;
  }

  lemma MulLe(a: nat, x: nat, y: nat)
    requires x <= y
    ensures a * x <= a * y
  {
  }

  lemma DivUnique(x: nat, d: nat, q: nat, r: nat)
    requires d > 0 && x == d * q + r && r < d
    ensures x / d == q
  {
    var q', r' := x / d, x % d;
    assert x == d * q' + r';
    if q' > q {
      assert d * (q + 1) == d * q + d;
      MulLe(d, q + 1, q');
    } else if q' < q {
      assert d * (q' + 1) == d * q' + d;
      MulLe(d, q' + 1, q);
    }
  }

  /** `bit_on(mask, bit)` holds exactly when every bit set in `bit` is set in `mask`. */
  lemma {:induction false} BitOnEveryBit(mask: nat, bit: nat)
    ensures BitOn(mask, bit) <==> forall k: nat :: TestBit(bit, k) ==> TestBit(mask, k)
  {
    if BitOn(mask, bit) {
      forall k: nat | TestBit(bit, k) ensures TestBit(mask, k) {
        AndBits(bit, mask, k);
      }
    }
    if forall k: nat :: TestBit(bit, k) ==> TestBit(mask, k) {
      forall k: nat ensures TestBit(And(bit, mask), k) == TestBit(bit, k) {
        AndBits(bit, mask, k);
      }
      BitsDetermine(And(bit, mask), bit);
    }
  }

  /** Two numbers with the same bits are equal. */
  lemma {:induction false} BitsDetermine(x: nat, y: nat)
    requires forall k: nat :: TestBit(x, k) == TestBit(y, k)
    ensures x == y
    decreases x + y
  {
    assert TestBit(x, 0) == TestBit(y, 0);
    if x == 0 && y == 0 {
    } else {
      forall k: nat ensures TestBit(x / 2, k) == TestBit(y / 2, k) {
        ShiftBit(x, k + 1);
        ShiftBit(y, k + 1);
      }
      if x / 2 == x && y / 2 == y {
      } else {
        BitsDetermine(x / 2, y / 2);
      }
    }
  }

  /** The four edge predicates are `bit_on` with the four edge bits. */
  lemma EdgeBits(m: nat)
    ensures HasTop(m) <==> BitOn(m, 1)
    ensures HasRight(m) <==> BitOn(m, 2)
    ensures HasBottom(m) <==> BitOn(m, 4)
    ensures HasLeft(m) <==> BitOn(m, 8)
  {
    AndOne(m);
    AndOne(m / 2);
    AndOne(m / 4);
    AndOne(m / 8);
    AndDouble(1, m);
    AndDouble(2, m);
    AndDouble(4, m);
    AndDouble(1, m / 2);
    AndDouble(2, m / 2);
    AndDouble(1, m / 4);
    assert m / 2 / 2 == m / 4 && m / 4 / 2 == m / 8;
  }

  lemma MaskDigits(m: nat, top: bool, right: bool, bottom: bool, left: bool)
    requires m == (if top then 1 else 0) + (if right then 2 else 0)
                + (if bottom then 4 else 0) + (if left then 8 else 0)
    ensures m < 16 && (m % 2 == 1) == top && ((m / 2) % 2 == 1) == right
    ensures ((m / 4) % 2 == 1) == bottom && ((m / 8) % 2 == 1) == left
  {
  }

  lemma AndOne(m: nat)
    ensures And(1, m) == m % 2
  {
  }

  lemma AndDouble(k: nat, m: nat)
    requires k > 0
    ensures And(2 * k, m) == 2 * And(k, m / 2)
  {
  }

  /** The empty mask has no edge; every other mask below 16 has one. */
  lemma EmptyIffNoEdge(m: nat)
    requires m < 16
    ensures m == 0 <==> !HasTop(m) && !HasRight(m) && !HasBottom(m) && !HasLeft(m)
  {
    Digits(m);
  }

  /** A mask below 16 is determined by its four edges. */
  lemma EdgesDetermineMask(m: nat, m': nat)
    requires m < 16 && m' < 16
    requires HasTop(m) == HasTop(m') && HasRight(m) == HasRight(m')
    requires HasBottom(m) == HasBottom(m') && HasLeft(m) == HasLeft(m')
    ensures m == m'
  {
    Digits(m);
    Digits(m');
  }

  /** A mask below 16 is the sum of its four bits. */
  lemma Digits(m: nat)
    requires m < 16
    ensures m == m % 2 + 2 * ((m / 2) % 2) + 4 * ((m / 4) % 2) + 8 * ((m / 8) % 2)
  {
  }
}
