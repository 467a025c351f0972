/**
 Bits of machine words, and the one-hot masks of A6/handout/radix.c.

 A 32-bit word is the natural number its bits spell, so a negative C int is the word it is stored as.
*/
module BitPositions {

  const WORD: nat := 0x1_0000_0000

  /** The largest bit position in use; stored numbers are the ints below twice that. */
  const MAX_BITS: nat := 0x4000_0000

  const INT_LIMIT: nat := 0x8000_0000

  function Pow2(k: nat): (r: nat)
    ensures r >= 1
  {
    if k == 0 then 1 else 2 * Pow2(k - 1)
  }

  function ShiftRight(x: nat, k: nat): nat {
    if k == 0 then x else ShiftRight(x / 2, k - 1)
  }

  predicate Bit(x: nat, k: nat) {
    ShiftRight(x, k) % 2 == 1
  }

  // ----- the C operators

  function And(x: nat, y: nat): (r: nat)
    ensures r <= x && r <= y
  {
    if x == 0 || y == 0 then 0
    else 2 * And(x / 2, y / 2) + (if x % 2 == 1 && y % 2 == 1 then 1 else 0)
  }

  function Or(x: nat, y: nat): nat {
    if x == 0 then y else if y == 0 then x
    else 2 * Or(x / 2, y / 2) + (if x % 2 == 1 || y % 2 == 1 then 1 else 0)
  }

  function Xor(x: nat, y: nat): nat {
    if x == 0 then y else if y == 0 then x
    else 2 * Xor(x / 2, y / 2) + (if x % 2 != y % 2 then 1 else 0)
  }

  function Complement(x: nat): nat
    requires x < WORD
  {
    WORD - 1 - x
  }

  // ----- the masks of radix.c

  function LowerBits(pos: nat): nat
    requires 0 < pos < WORD
  {
    pos - 1
  }

  function HigherBits(pos: nat): nat {
    (0 - pos - pos) % WORD
  }

  function NotLowerBits(pos: nat): nat
    requires 0 < pos < WORD
  {
    Complement(LowerBits(pos))
  }

  function NotHigherBits(pos: nat): nat {
    Complement(HigherBits(pos))
  }

  function BitRange(high: nat, low: nat): nat {
    And(HigherBits(low), NotHigherBits(high))
  }

  // ----- facts about shifts and single bits

  lemma {:induction false} ShiftStep(x: nat, k: nat)
    ensures ShiftRight(x, k + 1) == ShiftRight(x, k) / 2
  {
    if k > 0 {
      ShiftStep(x / 2, k - 1);
    }
  }

  lemma {:induction false} ShiftMonotone(x: nat, y: nat, k: nat)
    requires x <= y
    ensures ShiftRight(x, k) <= ShiftRight(y, k)
  {
    if k > 0 {
      ShiftMonotone(x / 2, y / 2, k - 1);
    }
  }

  lemma {:induction false} ShiftOutAll(x: nat, k: nat)
    requires x < Pow2(k)
    ensures ShiftRight(x, k) == 0
  {
    if k > 0 {
      ShiftOutAll(x / 2, k - 1);
    }
  }

  lemma {:induction false} ZeroHasNoBit(k: nat)
    ensures !Bit(0, k)
  {
    if k > 0 {
      ZeroHasNoBit(k - 1);
    }
  }

  lemma {:induction false} AndBit(x: nat, y: nat, k: nat)
    ensures Bit(And(x, y), k) <==> Bit(x, k) && Bit(y, k)
  {
    ZeroHasNoBit(k);
    if x != 0 && y != 0 && k > 0 {
      AndBit(x / 2, y / 2, k - 1);
    }
  }

  lemma {:induction false} OrBit(x: nat, y: nat, k: nat)
    ensures Bit(Or(x, y), k) <==> Bit(x, k) || Bit(y, k)
  {
    ZeroHasNoBit(k);
    if x != 0 && y != 0 && k > 0 {
      OrBit(x / 2, y / 2, k - 1);
    }
  }

  lemma {:induction false} XorBit(x: nat, y: nat, k: nat)
    ensures Bit(Xor(x, y), k) <==> Bit(x, k) != Bit(y, k)
  {
    ZeroHasNoBit(k);
    if x != 0 && y != 0 && k > 0 {
      XorBit(x / 2, y / 2, k - 1);
    }
  }

  lemma {:induction false} Pow2Bit(k: nat, j: nat)
    ensures Bit(Pow2(k), j) <==> j == k
  {
    if k > 0 && j > 0 {
      Pow2Bit(k - 1, j - 1);
    } else if k == 0 && j > 0 {
      ZeroHasNoBit(j - 1);
    }
  }

  lemma Pow2Half(k: nat)
    requires k > 0
    ensures Pow2(k) / 2 == Pow2(k - 1)
  {
  }

  lemma {:induction false} Pow2Less(j: nat, k: nat)
    requires j < k
    ensures 2 * Pow2(j) <= Pow2(k)
  {
    if j + 1 < k {
      Pow2Less(j, k - 1);
    }
  }

  /** One-hot positions are ordered like their exponents. */
  lemma Pow2Ordered(j: nat, k: nat)
    ensures Pow2(j) < Pow2(k) <==> j < k
  {
    if j < k {
      Pow2Less(j, k);
    } else if k < j {
      Pow2Less(k, j);
    }
  }

  lemma {:induction false} ComplementBit(x: nat, n: nat, j: nat)
    requires x < Pow2(n)
    ensures Bit(Pow2(n) - 1 - x, j) <==> j < n && !Bit(x, j)
  {
    if n == 0 {
      ZeroHasNoBit(j);
    } else if j > 0 {
      ComplementBit(x / 2, n - 1, j - 1);
      assert (Pow2(n) - 1 - x) / 2 == Pow2(n - 1) - 1 - x / 2;
    }
  }

  lemma Pow2Constants()
    ensures Pow2(30) == MAX_BITS && Pow2(31) == INT_LIMIT && Pow2(32) == WORD
  {
    assert Pow2(8) == 256;
    assert Pow2(16) == 0x1_0000;
    assert Pow2(24) == 0x100_0000;
  }

  lemma LowerBitsSelect(k: nat, j: nat)
    requires k < 31
    ensures 0 < Pow2(k) <= MAX_BITS < WORD
    ensures Bit(LowerBits(Pow2(k)), j) <==> j < k
    ensures Bit(NotLowerBits(Pow2(k)), j) <==> k <= j < 32
  {
    hide Pow2, Bit;
    Pow2Constants();
    Pow2Ordered(30, k);
    ZeroHasNoBit(j);
    ComplementBit(0, k, j);
    ComplementBit(LowerBits(Pow2(k)), 32, j);
  }

  lemma HigherBitsValue(pos: nat)
    requires 0 < pos <= MAX_BITS
    ensures HigherBits(pos) == WORD - 2 * pos
  {
  }

  lemma HigherBitsSelect(k: nat, j: nat)
    requires k < 31
    ensures Bit(HigherBits(Pow2(k)), j) <==> k < j < 32
    ensures Bit(NotHigherBits(Pow2(k)), j) <==> j <= k
  {
    var twice := Pow2(k + 1);
    assert twice == 2 * Pow2(k);
    hide Pow2, Bit;
    Pow2Constants();
    Pow2Ordered(30, k);
    HigherBitsValue(Pow2(k));
    hide HigherBits;
    ZeroHasNoBit(j);
    ComplementBit(0, k + 1, j);
    ComplementBit(twice - 1, 32, j);
    ComplementBit(WORD - twice, 32, j);
  }

  /** Each mask selects exactly the positions its name says. */
  lemma MasksSelect(k: nat, j: nat)
    requires k < 31
    ensures 0 < Pow2(k) < WORD
    ensures Bit(LowerBits(Pow2(k)), j) <==> j < k
    ensures Bit(HigherBits(Pow2(k)), j) <==> k < j < 32
    ensures Bit(NotLowerBits(Pow2(k)), j) <==> k <= j < 32
    ensures Bit(NotHigherBits(Pow2(k)), j) <==> j <= k
  {
    LowerBitsSelect(k, j);
    HigherBitsSelect(k, j);
  }

  /** bit_range(h, l) selects exactly the positions in (l, h]. */
  lemma BitRangeSelects(high: nat, low: nat, j: nat)
    requires high < 31 && low < 31
    ensures Bit(BitRange(Pow2(high), Pow2(low)), j) <==> low < j <= high
  {
    MasksSelect(high, j);
    MasksSelect(low, j);
    AndBit(HigherBits(Pow2(low)), NotHigherBits(Pow2(high)), j);
  }

  /** Testing a word against a one-hot position reads that bit. */
  lemma {:induction false} OneHotTest(x: nat, k: nat)
    ensures And(Pow2(k), x) != 0 <==> Bit(x, k)
    ensures And(x, Pow2(k)) != 0 <==> Bit(x, k)
  {
    if x == 0 {
      ZeroHasNoBit(k);
    } else if k > 0 {
      OneHotTest(x / 2, k - 1);
      assert Pow2(k) % 2 == 0 && Pow2(k) / 2 == Pow2(k - 1);
    }
  }

  lemma {:induction false} NonZeroHasBit(x: nat) returns (k: nat)
    requires x != 0
    ensures Bit(x, k)
  {
    if x % 2 == 1 {
      k := 0;
    } else {
      var j := NonZeroHasBit(x / 2);
      k := j + 1;
    }
  }

  // ----- agreement of two numbers above a bit position

  /** x and y have the same bits at every position above k. */
  ghost predicate AgreeAbove(x: nat, y: nat, k: nat) {
    ShiftRight(x, k + 1) == ShiftRight(y, k + 1)
  }

  lemma {:induction false} AgreeAboveHigher(x: nat, y: nat, low: nat, high: nat)
    requires AgreeAbove(x, y, low) && low <= high
    ensures AgreeAbove(x, y, high)
    ensures low < high ==> Bit(x, high) == Bit(y, high)
  {
    if low < high {
      AgreeAboveHigher(x, y, low, high - 1);
      ShiftStep(x, high);
      ShiftStep(y, high);
    }
  }

  lemma {:induction false} AgreeAboveLower(x: nat, y: nat, low: nat, high: nat)
    requires AgreeAbove(x, y, high) && low <= high
    requires forall j :: low < j <= high ==> Bit(x, j) == Bit(y, j)
    ensures AgreeAbove(x, y, low)
  {
    if low < high {
      ShiftStep(x, high);
      ShiftStep(y, high);
      assert Bit(x, high) == Bit(y, high);
      AgreeAboveLower(x, y, low, high - 1);
    }
  }

  /** The highest position at which two numbers differ decides their order. */
  lemma SplitOrders(x: nat, y: nat, k: nat)
    requires AgreeAbove(x, y, k) && !Bit(x, k) && Bit(y, k)
    ensures x < y
  {
    ShiftStep(x, k);
    ShiftStep(y, k);
    if y <= x {
      ShiftMonotone(y, x, k);
    }
  }

  lemma NumbersAgreeAtTop(x: nat, y: nat)
    requires x < INT_LIMIT && y < INT_LIMIT
    ensures AgreeAbove(x, y, 30)
  {
    Pow2Constants();
    ShiftOutAll(x, 31);
    ShiftOutAll(y, 31);
  }

  /** The lowest bit set or cleared, as a leaf writes its two numbers. */
  lemma LeafNumbers(number: nat)
    requires number < INT_LIMIT
    ensures And(number, Complement(1)) == number - number % 2
    ensures Or(number, 1) == number - number % 2 + 1
    ensures And(number, 1) == number % 2
  {
    Pow2Constants();
    AndAllOnes(number / 2, 0x7fff_ffff, 31);
    assert Or(number / 2, 0) == number / 2;
  }

  lemma {:induction false} AndAllOnes(x: nat, ones: nat, n: nat)
    requires ones == Pow2(n) - 1 && x <= ones
    ensures And(x, ones) == x
  {
    if n > 0 {
      AndAllOnes(x / 2, ones / 2, n - 1);
    }
  }
}
