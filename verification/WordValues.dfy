/** Words of 32 bits: their bytes, their bits, and the numbers they mean. */
module WordValues {
  const SPACE := 0x1_0000_0000

  // ----- words and bytes

  function Word(b0: bv8, b1: bv8, b2: bv8, b3: bv8): bv32 {
    (b0 as bv32) | (b1 as bv32 << 8) | (b2 as bv32 << 16) | (b3 as bv32 << 24)
  }

  function Unsigned(b: bv8): bv32 {
    b as bv32
  }

  function Half(b0: bv8, b1: bv8): bv32 {
    (b0 as bv32) | (b1 as bv32 << 8)
  }

  function Byte(x: bv32, i: int): bv8 {
    if i == 0 then (x & 0xff) as bv8
    else if i == 1 then ((x >> 8) & 0xff) as bv8
    else if i == 2 then ((x >> 16) & 0xff) as bv8
    else ((x >> 24) & 0xff) as bv8
  }

  lemma WordBytes(x: bv32)
    ensures Word(Byte(x, 0), Byte(x, 1), Byte(x, 2), Byte(x, 3)) == x
  {
  }

  // ----- numbers

  function Unsigned8(b: bv8): (v: int)
    ensures 0 <= v < 0x100
  {
    b as int
  }

  /** The number a word spells. */
  function Unsigned32(x: bv32): (v: int)
    ensures 0 <= v < SPACE && v % SPACE == v
  {
    x as int
  }

  /** What v means in two's complement when numbers from half on are negative. */
  function Twos(v: int, half: int): int {
    if v < half then v else v - 2 * half
  }

  /** The signed number a word stands for. */
  function Int(x: bv32): (i: int)
    ensures -0x8000_0000 <= i < 0x8000_0000 && i % SPACE == Unsigned32(x)
  {
    Twos(Unsigned32(x), 0x8000_0000)
  }

  predicate Less(x: bv32, y: bv32) {
    x < y
  }

  /** The order of ints, by the comparison of words with their signs flipped. */
  predicate SignedLess(x: bv32, y: bv32) {
    Less(FlipSign(x), FlipSign(y))
  }

  function FlipSign(x: bv32): bv32 {
    x ^ 0x8000_0000
  }

  function Add(x: bv32, y: bv32): bv32 {
    x + y
  }

  function Sub(x: bv32, y: bv32): bv32 {
    x - y
  }

  function Xor(x: bv32, y: bv32): bv32 {
    x ^ y
  }

  function Or(x: bv32, y: bv32): bv32 {
    x | y
  }

  function And(x: bv32, y: bv32): bv32 {
    x & y
  }

  function Not(x: bv32): bv32 {
    !x
  }

  function Left(x: bv32, n: bv5): bv32 {
    x << n
  }

  function Right(x: bv32, n: bv5): bv32 {
    x >> n
  }

  /** Bit j of a word. */
  predicate BitOf(x: bv32, j: bv5) {
    (x >> j) & 1 == 1
  }

  lemma XorBit(x: bv32, y: bv32, j: bv5)
    ensures BitOf(Xor(x, y), j) <==> BitOf(x, j) != BitOf(y, j)
  {
    DifferentBit(x, y, j);
    hide BitOf;
  }

  lemma DifferentBit(x: bv32, y: bv32, j: bv5)
    ensures BitOf(x ^ y, j) <==> BitOf(x, j) != BitOf(y, j)
  {
  }

  lemma OrBit(x: bv32, y: bv32, j: bv5)
    ensures BitOf(Or(x, y), j) <==> BitOf(x, j) || BitOf(y, j)
  {
  }

  lemma AndBit(x: bv32, y: bv32, j: bv5)
    ensures BitOf(And(x, y), j) <==> BitOf(x, j) && BitOf(y, j)
  {
  }

  // ----- a word is the number its bytes spell

  lemma BytesValue(b0: bv8, b1: bv8, b2: bv8, b3: bv8)
    ensures ((b0 as bv32) | (b1 as bv32 << 8) | (b2 as bv32 << 16) | (b3 as bv32 << 24)) as int
            == b0 as int + 0x100 * b1 as int + 0x1_0000 * b2 as int + 0x100_0000 * b3 as int
  {
  }

  lemma WordIs(b0: bv8, b1: bv8, b2: bv8, b3: bv8)
    ensures Word(b0, b1, b2, b3) == (b0 as bv32) | (b1 as bv32 << 8) | (b2 as bv32 << 16) | (b3 as bv32 << 24)
  {
  }

  /** Words lie in memory with the least significant byte first. */
  lemma WordValue(b0: bv8, b1: bv8, b2: bv8, b3: bv8)
    ensures Unsigned32(Word(b0, b1, b2, b3))
            == Unsigned8(b0) + 0x100 * Unsigned8(b1) + 0x1_0000 * Unsigned8(b2) + 0x100_0000 * Unsigned8(b3)
  {
    hide Word;
    WordIs(b0, b1, b2, b3);
    BytesValue(b0, b1, b2, b3);
  }

  // ----- order

  lemma BytesDiffer(x: bv8, y: bv8)
    ensures Unsigned8(x) < Unsigned8(y) <==> x < y
    ensures Unsigned8(x) == Unsigned8(y) <==> x == y
  {
  }

  lemma FirstByteDecides(b0: bv8, b1: bv8, b2: bv8, b3: bv8, c0: bv8, c1: bv8, c2: bv8, c3: bv8)
    requires b3 < c3
    ensures Less(Word(b0, b1, b2, b3), Word(c0, c1, c2, c3))
  {
  }

  lemma SecondByteDecides(b0: bv8, b1: bv8, b2: bv8, b3: bv8, c0: bv8, c1: bv8, c2: bv8)
    requires b2 < c2
    ensures Less(Word(b0, b1, b2, b3), Word(c0, c1, c2, b3))
  {
  }

  lemma ThirdByteDecides(b0: bv8, b1: bv8, b2: bv8, b3: bv8, c0: bv8, c1: bv8)
    requires b1 < c1
    ensures Less(Word(b0, b1, b2, b3), Word(c0, c1, b2, b3))
  {
  }

  lemma LastByteDecides(b0: bv8, b1: bv8, b2: bv8, b3: bv8, c0: bv8)
    requires b0 < c0
    ensures Less(Word(b0, b1, b2, b3), Word(c0, b1, b2, b3))
  {
  }

  lemma Asymmetric(x: bv32, y: bv32)
    ensures !(Less(x, y) && Less(y, x)) && !Less(x, x)
  {
  }

  lemma BytesDecide(b0: bv8, b1: bv8, b2: bv8, b3: bv8, c0: bv8, c1: bv8, c2: bv8, c3: bv8)
    ensures var x, y := Word(b0, b1, b2, b3), Word(c0, c1, c2, c3);
            && (Unsigned32(x) < Unsigned32(y) ==> Less(x, y))
            && (Unsigned32(x) == Unsigned32(y) ==> x == y)
  {
    hide Word, Unsigned8, Unsigned32, Less;
    WordValue(b0, b1, b2, b3);
    WordValue(c0, c1, c2, c3);
    BytesDiffer(b0, c0);
    BytesDiffer(b1, c1);
    BytesDiffer(b2, c2);
    BytesDiffer(b3, c3);
    if Unsigned8(b3) < Unsigned8(c3) {
      FirstByteDecides(b0, b1, b2, b3, c0, c1, c2, c3);
    } else if Unsigned8(b3) == Unsigned8(c3) {
      if Unsigned8(b2) < Unsigned8(c2) {
        SecondByteDecides(b0, b1, b2, b3, c0, c1, c2);
      } else if Unsigned8(b2) == Unsigned8(c2) {
        if Unsigned8(b1) < Unsigned8(c1) {
          ThirdByteDecides(b0, b1, b2, b3, c0, c1);
        } else if Unsigned8(b1) == Unsigned8(c1) && Unsigned8(b0) < Unsigned8(c0) {
          LastByteDecides(b0, b1, b2, b3, c0);
        }
      }
    }
  }

  /** The order of words is that of the numbers they spell, and different words spell different numbers. */
  lemma Order(x: bv32, y: bv32)
    ensures Less(x, y) <==> Unsigned32(x) < Unsigned32(y)
    ensures x == y <==> Unsigned32(x) == Unsigned32(y)
  {
    hide Word, Byte, Unsigned32, Less;
    WordBytes(x);
    WordBytes(y);
    Asymmetric(x, y);
    Asymmetric(y, x);
    BytesDecide(Byte(x, 0), Byte(x, 1), Byte(x, 2), Byte(x, 3), Byte(y, 0), Byte(y, 1), Byte(y, 2), Byte(y, 3));
    BytesDecide(Byte(y, 0), Byte(y, 1), Byte(y, 2), Byte(y, 3), Byte(x, 0), Byte(x, 1), Byte(x, 2), Byte(x, 3));
  }

  function Topped(highest: bv1, rest: bv31): bv32 {
    (highest as bv32 << 31) | (rest as bv32)
  }

  lemma HighestValue(highest: bv1, rest: bv31)
    ensures ((highest as bv32 << 31) | (rest as bv32)) as int == 0x8000_0000 * highest as int + rest as int
    ensures (rest as bv32 << 1) as int == 2 * rest as int
  {
  }

  function Unsigned31(rest: bv31): (v: int)
    ensures 0 <= v < 0x8000_0000
  {
    rest as int
  }

  lemma ToppedNumber(highest: bv1, rest: bv31)
    ensures Unsigned32(Topped(highest, rest)) == 0x8000_0000 * highest as int + Unsigned31(rest)
  {
    HighestValue(highest, rest);
  }

  lemma OneBit(b: bv1)
    ensures b as int == (if b == 0 then 0 else 1) && (!b == 0 <==> b != 0)
  {
  }

  lemma HighestParts(x: bv32) returns (highest: bv1, rest: bv31)
    ensures x == Topped(highest, rest)
  {
    highest, rest := (x >> 31) as bv1, (x & 0x7fff_ffff) as bv31;
  }

  lemma FlippedTop(highest: bv1, rest: bv31)
    ensures FlipSign(Topped(highest, rest)) == Topped(!highest, rest)
    ensures Topped(highest, rest) & 0x8000_0000 == 0 <==> highest == 0
  {
  }

  /** Flipping the sign moves ints up to where words begin, and the highest bit is the sign. */
  lemma FlippedValue(x: bv32)
    ensures Unsigned32(FlipSign(x)) == Int(x) + 0x8000_0000
    ensures x & 0x8000_0000 == 0 <==> Int(x) >= 0
  {
    hide Topped, FlipSign, Unsigned32;
    var highest, rest := HighestParts(x);
    FlippedTop(highest, rest);
    ToppedNumber(highest, rest);
    ToppedNumber(!highest, rest);
    OneBit(highest);
    OneBit(!highest);
  }

  /** Comparing words with flipped signs compares the signed numbers they stand for. */
  lemma SignedOrder(x: bv32, y: bv32)
    ensures SignedLess(x, y) <==> Int(x) < Int(y)
  {
    hide FlipSign, Unsigned32, Int, Less;
    FlippedValue(x);
    FlippedValue(y);
    Order(FlipSign(x), FlipSign(y));
  }

  // ----- sums and differences

  lemma WideSum(x: bv32, y: bv32)
    ensures (x as bv33 + y as bv33) as int == x as int + y as int
  {
  }

  lemma CarryValue(carry: bv1, low: bv32)
    ensures ((carry as bv33 << 32) | (low as bv33)) as int == SPACE * carry as int + low as int
  {
  }

  lemma CarryCut(x: bv32, y: bv32)
    ensures x as bv33 + y as bv33 == ((((x as bv33 + y as bv33) >> 32) as bv1 as bv33) << 32) | ((x + y) as bv33)
  {
  }

  lemma RemainderOf(n: int, q: int, r: int)
    requires n == SPACE * q + r && 0 <= r < SPACE
    ensures n % SPACE == r
  {
  }

  lemma SumOfWords(x: bv32, y: bv32)
    ensures (x + y) as int == (x as int + y as int) % SPACE
  {
    var carry := ((x as bv33 + y as bv33) >> 32) as bv1;
    WideSum(x, y);
    CarryCut(x, y);
    CarryValue(carry, x + y);
    RemainderOf(x as int + y as int, carry as int, (x + y) as int);
  }

  /** Addition is that of numbers, modulo 2 to the 32. */
  lemma SumValue(x: bv32, y: bv32)
    ensures Unsigned32(Add(x, y)) == (Unsigned32(x) + Unsigned32(y)) % SPACE
  {
    SumOfWords(x, y);
  }

  lemma Negated(y: bv32)
    ensures Add(y, 0 - y) == 0
  {
  }

  lemma SubIsAdd(x: bv32, y: bv32)
    ensures Sub(x, y) == Add(x, 0 - y)
  {
  }

  lemma ZeroValue()
    ensures Unsigned32(0) == 0
  {
  }

  lemma DifferenceOf(x: int, y: int, n: int)
    requires 0 <= y < SPACE && 0 <= n < SPACE && (y + n) % SPACE == 0
    ensures (x + n) % SPACE == (x - y) % SPACE
  {
    if y == 0 {
      assert n == 0;
    } else {
      assert n == SPACE - y;
    }
  }

  /** Subtraction is that of numbers, modulo 2 to the 32. */
  lemma DifferenceValue(x: bv32, y: bv32)
    ensures Unsigned32(Sub(x, y)) == (Unsigned32(x) - Unsigned32(y)) % SPACE
  {
    hide Add, Sub, Unsigned32;
    SubIsAdd(x, y);
    SumValue(x, 0 - y);
    Negated(y);
    SumValue(y, 0 - y);
    ZeroValue();
    DifferenceOf(Unsigned32(x), Unsigned32(y), Unsigned32(0 - y));
  }

  lemma AllOnes(x: bv32)
    ensures Add(x, Not(x)) == 0xffff_ffff
    ensures Unsigned32(0xffff_ffff) == SPACE - 1
  {
  }

  /** The complement counts down from the largest word. */
  lemma ComplementValue(x: bv32)
    ensures Unsigned32(Not(x)) == SPACE - 1 - Unsigned32(x)
  {
    hide Add, Not, Unsigned32;
    SumValue(x, Not(x));
    AllOnes(x);
  }

  // ----- shifts

  function Power2(n: nat): (p: nat)
    ensures p > 0
  {
    if n == 0 then 1 else 2 * Power2(n - 1)
  }

  function Doubled(rest: bv31, lowest: bv1): bv32 {
    (rest as bv32 << 1) | (lowest as bv32)
  }

  function Widened(rest: bv31): bv32 {
    rest as bv32
  }

  lemma DoubledValue(rest: bv31, lowest: bv1)
    ensures Unsigned32(Doubled(rest, lowest)) / 2 == Unsigned32(Widened(rest))
  {
    EvenOddValue(rest, lowest);
    WidenedValue(rest);
  }

  lemma EvenOddValue(rest: bv31, lowest: bv1)
    ensures ((rest as bv32 << 1) | (lowest as bv32)) as int == 2 * rest as int + lowest as int
  {
  }

  lemma WidenedValue(rest: bv31)
    ensures rest as bv32 as int == rest as int
  {
  }

  lemma LowestCut(x: bv32) returns (rest: bv31, lowest: bv1)
    ensures x == Doubled(rest, lowest) && Right(x, 1) == Widened(rest)
  {
    rest, lowest := (x >> 1) as bv31, (x & 1) as bv1;
  }

  lemma HalfValue(x: bv32)
    ensures Unsigned32(Right(x, 1)) == Unsigned32(x) / 2
  {
    hide Right, Unsigned32, Doubled, Widened;
    var rest, lowest := LowestCut(x);
    DoubledValue(rest, lowest);
  }

  lemma ToppedValue(highest: bv1, rest: bv31)
    ensures Unsigned32(Left(Widened(rest), 1)) == 2 * Unsigned32(Topped(highest, rest)) % SPACE
  {
    HighestValue(highest, rest);
    RemainderOf(2 * Unsigned32(Topped(highest, rest)), highest as int, 2 * rest as int);
  }

  lemma HighestCut(x: bv32) returns (highest: bv1, rest: bv31)
    ensures x == Topped(highest, rest) && Left(x, 1) == Left(Widened(rest), 1)
  {
    highest, rest := (x >> 31) as bv1, (x & 0x7fff_ffff) as bv31;
  }

  lemma TwiceValue(x: bv32)
    ensures Unsigned32(Left(x, 1)) == 2 * Unsigned32(x) % SPACE
  {
    hide Left, Unsigned32, Topped, Widened;
    var highest, rest := HighestCut(x);
    ToppedValue(highest, rest);
  }

  lemma OneMore(x: bv32, n: bv5)
    ensures n == 0 || (Right(x, n) == Right(Right(x, n - 1), 1) && Left(x, n) == Left(Left(x, n - 1), 1))
  {
  }

  lemma NoShift(x: bv32)
    ensures Right(x, 0) == x && Left(x, 0) == x
  {
  }

  function Amount(n: bv5): (v: nat)
    ensures v < 32
  {
    n as int
  }

  lemma OneLess(n: bv5)
    ensures n == 0 <==> Amount(n) == 0
    ensures n != 0 ==> Amount(n - 1) == Amount(n) - 1
  {
  }

  lemma AtLeastOnce(d: int, k: int)
    requires d > 0
    ensures k >= 1 ==> d * k >= d
    ensures k <= -1 ==> d * k <= -d
  {
  }

  lemma QuotientOf(v: int, d: int, q: int, r: int)
    requires d > 0 && v == d * q + r && 0 <= r < d
    ensures v / d == q
  {
    assert d * (v / d - q) == r - v % d;
    AtLeastOnce(d, v / d - q);
  }

  lemma HalvedAgain(v: nat, p: nat)
    requires p > 0
    ensures v / p / 2 == v / (2 * p)
  {
    var q, r := v / p, v % p;
    var h, l := q / 2, q % 2;
    assert v == p * (2 * h + l) + r;
    Regrouped(p, h, l);
    assert 0 <= p * l <= p;
    QuotientOf(v, 2 * p, h, p * l + r);
  }

  lemma Regrouped(p: int, h: int, l: int)
    ensures p * (2 * h + l) == (2 * p) * h + p * l
  {
  }

  lemma TwiceAgain(v: int, p: int)
    ensures 2 * (v * p % SPACE) % SPACE == v * (2 * p) % SPACE
  {
    var q, r := v * p / SPACE, v * p % SPACE;
    assert v * (2 * p) == 2 * (v * p);
    Reduced(q, r);
  }

  lemma Reduced(q: int, r: int)
    ensures 2 * (SPACE * q + r) % SPACE == 2 * r % SPACE
  {
    var k, l := 2 * r / SPACE, 2 * r % SPACE;
    RemainderOf(2 * (SPACE * q + r), 2 * q + k, l);
  }

  /** A logical shift to the right divides by a power of two. */
  lemma {:induction false} RightValue(x: bv32, n: bv5)
    ensures Unsigned32(Right(x, n)) == Unsigned32(x) / Power2(Amount(n))
    decreases Amount(n)
  {
    hide Right, Unsigned32, Amount;
    OneLess(n);
    if Amount(n) == 0 {
      NoShift(x);
    } else {
      OneMore(x, n);
      RightValue(x, n - 1);
      HalfValue(Right(x, n - 1));
      HalvedAgain(Unsigned32(x), Power2(Amount(n - 1)));
    }
  }

  /** A shift to the left multiplies by a power of two, modulo 2 to the 32. */
  lemma {:induction false} LeftValue(x: bv32, n: bv5)
    ensures Unsigned32(Left(x, n)) == Unsigned32(x) * Power2(Amount(n)) % SPACE
    decreases Amount(n)
  {
    hide Left, Unsigned32, Amount;
    OneLess(n);
    if Amount(n) == 0 {
      NoShift(x);
    } else {
      OneMore(x, n);
      LeftValue(x, n - 1);
      TwiceValue(Left(x, n - 1));
      TwiceAgain(Unsigned32(x), Power2(Amount(n - 1)));
    }
  }
}
