/** Decimal text of unsigned ints: str_to_uns and uns_to_str of A6/handout/lib.c. */
module Decimal {

  const UNSIGNED := 0x1_0000_0000
  const END := '\0'

  function Digit(d: int): char
    requires 0 <= d < 10
  {
    ('0' as int + d) as char
  }

  function ValueOf(c: char): int {
    c as int - '0' as int
  }

  predicate IsDigits(s: string) {
    forall i :: 0 <= i < |s| ==> 0 <= ValueOf(s[i]) < 10
  }

  // ----- the two readings of a digit string

  function Pow10(k: nat): nat {
    if k == 0 then 1 else 10 * Pow10(k - 1)
  }

  /** Every character weighs ten times the one after it. */
  function PlaceValue(s: string): int {
    if s == [] then 0 else ValueOf(s[0]) * Pow10(|s| - 1) + PlaceValue(s[1..])
  }

  /** The same value accumulated from the left. */
  function Accumulated(s: string): int {
    if s == [] then 0 else 10 * Accumulated(s[..|s| - 1]) + ValueOf(s[|s| - 1])
  }

  lemma {:induction false} PlaceValueLast(s: string, c: char)
    ensures PlaceValue(s + [c]) == 10 * PlaceValue(s) + ValueOf(c)
  {
    if s == [] {
      assert PlaceValue([c]) == ValueOf(c) * Pow10(0) + PlaceValue([]);
    } else {
      PlaceValueLast(s[1..], c);
      assert (s + [c])[1..] == s[1..] + [c];
      assert ValueOf(s[0]) * Pow10(|s|) == 10 * (ValueOf(s[0]) * Pow10(|s| - 1));
    }
  }

  lemma {:induction false} AccumulatedIsPlaceValue(s: string)
    ensures Accumulated(s) == PlaceValue(s)
  {
    if s != [] {
      AccumulatedIsPlaceValue(s[..|s| - 1]);
      PlaceValueLast(s[..|s| - 1], s[|s| - 1]);
      assert s == s[..|s| - 1] + [s[|s| - 1]];
    }
  }

  // ----- the canonical text of a number

  function Text(n: nat): string {
    if n < 10 then [Digit(n)] else Text(n / 10) + [Digit(n % 10)]
  }

  /** Digits only, at least one, and no leading zero except in "0" itself. */
  predicate Canonical(s: string) {
    s != [] && IsDigits(s) && (s[0] == '0' ==> |s| == 1)
  }

  lemma {:induction false} TextMeans(n: nat)
    ensures Canonical(Text(n)) && Accumulated(Text(n)) == n && (n > 0 ==> Text(n)[0] != '0')
  {
    if n < 10 {
      assert Text(n)[..0] == [];
    } else {
      TextMeans(n / 10);
      var t := Text(n);
      assert t[..|t| - 1] == Text(n / 10);
    }
  }

  lemma LastDigit(n: nat, d: nat)
    requires d < 10 && n > 0
    ensures Text(10 * n + d) == Text(n) + [Digit(d)]
  {
  }

  /** Canonical texts and numbers correspond one to one. */
  lemma {:induction false} TextIsTheOnlyOne(s: string)
    requires Canonical(s)
    ensures Accumulated(s) >= 0 && Text(Accumulated(s)) == s
  {
    var last := |s| - 1;
    if last == 0 {
      assert s[..0] == [] && s == [s[0]];
    } else {
      var init := s[..last];
      TextIsTheOnlyOne(init);
      assert Text(0) == [Digit(0)] && init[0] != '0';
      LastDigit(Accumulated(init), ValueOf(s[last]));
      hide Text;
      assert s == init + [s[last]];
    }
  }

  // ----- the code

  /** str is what the buffer holds before its terminating zero; wrap-around is that of unsigned int. */
  method StrToUns(str: string) returns (val: nat)
    requires str != [] && END !in str
    ensures val == Accumulated(str) % UNSIGNED
    ensures IsDigits(str) && PlaceValue(str) < UNSIGNED ==> val == PlaceValue(str)
  {
    val := ValueOf(str[0]) % UNSIGNED;
    assert str[..1] == [str[0]] && str[..1][..0] == [];
    var i := 1;
    while i < |str|
      invariant 1 <= i <= |str| && val == Accumulated(str[..i]) % UNSIGNED
    {
      assert str[..i + 1][..i] == str[..i];
      WrapAround(Accumulated(str[..i]), ValueOf(str[i]));
      val := (val * 10 + ValueOf(str[i])) % UNSIGNED;
      i := i + 1;
    }
    assert str[..|str|] == str;
    AccumulatedIsPlaceValue(str);
    if IsDigits(str) {
      NotNegative(str);
    }
  }

  lemma WrapAround(x: int, d: int)
    ensures (10 * x + d) % UNSIGNED == (x % UNSIGNED * 10 + d) % UNSIGNED
  {
    var q := x / UNSIGNED;
    assert 10 * x + d == x % UNSIGNED * 10 + d + (10 * q) * UNSIGNED;
    Multiple(x % UNSIGNED * 10 + d, 10 * q);
  }

  lemma Multiple(a: int, q: int)
    ensures (a + q * UNSIGNED) % UNSIGNED == a % UNSIGNED
  {
  }

  lemma {:induction false} NotNegative(s: string)
    requires IsDigits(s)
    ensures 0 <= Accumulated(s)
  {
    if s != [] {
      NotNegative(s[..|s| - 1]);
    }
  }

  /** The digits of n in the order in which division by ten produces them. */
  function LowToHigh(n: nat): string {
    if n == 0 then [] else [Digit(n % 10)] + LowToHigh(n / 10)
  }

  function Backwards(s: string): (r: string)
    ensures |r| == |s|
  {
    if s == [] then [] else Backwards(s[1..]) + [s[0]]
  }

  lemma {:induction false} BackwardsAt(s: string, i: nat)
    requires i < |s|
    ensures Backwards(s)[i] == s[|s| - 1 - i]
  {
    if i < |s| - 1 {
      BackwardsAt(s[1..], i);
    }
  }

  lemma {:induction false} TextBackwards(n: nat)
    requires n > 0
    ensures Backwards(LowToHigh(n)) == Text(n)
  {
    if n >= 10 {
      TextBackwards(n / 10);
      assert LowToHigh(n)[1..] == LowToHigh(n / 10);
    } else {
      assert LowToHigh(n) == [Digit(n)];
    }
  }

  lemma FrontReversed(before: string, after: string, n: nat)
    requires n <= |before| == |after|
    requires forall i :: 0 <= i < n ==> after[i] == before[n - 1 - i]
    requires forall i :: n <= i < |before| ==> after[i] == before[i]
    ensures after[..n] == Backwards(before[..n]) && after[n..] == before[n..]
  {
    hide Backwards;
    forall i | 0 <= i < n
      ensures after[i] == Backwards(before[..n])[i]
    {
      BackwardsAt(before[..n], i);
    }
  }

  method ReverseInPlace(buffer: array<char>, last: int)
    requires -1 <= last < buffer.Length
    modifies buffer
    ensures buffer[..last + 1] == Backwards(old(buffer[..last + 1]))
    ensures buffer[last + 1..] == old(buffer[last + 1..])
  {
    ghost var before := buffer[..];
    hide Backwards;
    var front, ptr := 0, last;
    while ptr > front
      invariant 0 <= front <= ptr + 1 && front + ptr == last
      invariant forall i :: 0 <= i < front || ptr < i <= last ==> buffer[i] == before[last - i]
      invariant forall i :: front <= i <= ptr || last < i < buffer.Length ==> buffer[i] == before[i]
    {
      var tmp := buffer[ptr];
      buffer[ptr] := buffer[front];
      buffer[front] := tmp;
      ptr := ptr - 1;
      front := front + 1;
    }
    FrontReversed(before, buffer[..], last + 1);
  }

  lemma LowStep(n: nat)
    requires n > 0
    ensures LowToHigh(n) == [Digit(n % 10)] + LowToHigh(n / 10)
  {
  }

  /** The result is one less than the number of digits, except that it is 1 for zero. */
  method UnsToStr(buffer: array<char>, val: nat) returns (retval: int)
    requires |Text(val)| < buffer.Length
    modifies buffer
    ensures var n := |Text(val)|;
            && buffer[..n] == Text(val) && buffer[n] == END && buffer[n + 1..] == old(buffer[n + 1..])
            && retval == if val == 0 then 1 else n - 1
  {
    if val == 0 {
      buffer[0] := '0';
      buffer[1] := END;
      assert buffer[..1] == Text(0);
      return 1;
    }
    TextBackwards(val);
    assert LowToHigh(0) == [];
    ghost var digits := LowToHigh(val);
    ghost var n := |digits|;
    hide LowToHigh, Text, Backwards;
    // division yields the lowest digit first
    var ptr, rest: nat := 0, val;
    while rest != 0
      invariant ptr <= n && buffer[..ptr] == digits[..ptr] && digits[ptr..] == LowToHigh(rest)
      invariant buffer[n + 1..] == old(buffer[n + 1..])
      decreases rest
    {
      LowStep(rest);
      assert digits[ptr] == digits[ptr..][0] && digits[ptr + 1..] == digits[ptr..][1..];
      buffer[ptr] := Digit(rest % 10);
      ptr := ptr + 1;
      rest := rest / 10;
    }
    assert ptr == n && buffer[..n] == digits;
    buffer[ptr] := END;
    ptr := ptr - 1;
    retval := ptr;
    assert buffer[..n] == digits && buffer[n..][0] == END && buffer[n..][1..] == old(buffer[n + 1..]);
    ReverseInPlace(buffer, ptr);
    assert buffer[n] == buffer[n..][0] && buffer[n + 1..] == buffer[n..][1..];
  }

  // ----- the round trips

  /** Reading what was written gives the number back. */
  method RoundTrip(buffer: array<char>, val: nat) returns (result: nat)
    requires val < UNSIGNED && |Text(val)| < buffer.Length
    modifies buffer
    ensures result == val
  {
    var _ := UnsToStr(buffer, val);
    TextMeans(val);
    NoEndInside(Text(val));
    AccumulatedIsPlaceValue(Text(val));
    result := StrToUns(buffer[..|Text(val)|]);
  }

  lemma NoEndInside(s: string)
    requires IsDigits(s)
    ensures END !in s
  {
    forall i | 0 <= i < |s|
      ensures s[i] != END
    {
      assert 0 <= ValueOf(s[i]);
    }
  }
}
