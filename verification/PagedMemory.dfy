/**
 The sparse memory of A5/src/memory.c: 65536 pages of 16384 words, allocated when first touched, holding
 what a flat array of 2^32 bytes would hold. An address is an int, negative or not; only its value
 modulo 2^32 matters.
*/
module PagedMemory {
  import opened WordValues

  const PAGES := 0x1_0000
  const PAGE_WORDS := 0x4000

  // ----- a shift

  /** The shift of a signed int to the right. */
  function ShiftRight(x: bv32, n: bv8): bv32
    requires n < 32
  {
    if x & 0x8000_0000 != 0 then !(!x >> n) else x >> n
  }

  // ----- replacing a part of a word, as the C expressions do

  function WithLowHalf(word: bv32, data: bv32): bv32 {
    (word & 0xffff0000) | (data & 0x0000ffff)
  }

  function WithHighHalf(word: bv32, data: bv32): bv32 {
    (word & 0x0000ffff) | (data << 16)
  }

  function WithByte(word: bv32, i: int, data: bv32): bv32 {
    if i == 0 then (word & 0xffffff00) | (data & 0xff)
    else if i == 1 then (word & 0xffff00ff) | ((data & 0xff) << 8)
    else if i == 2 then (word & 0xff00ffff) | ((data & 0xff) << 16)
    else (word & 0x00ffffff) | ((data & 0xff) << 24)
  }

  lemma StoreHalf(b0: bv8, b1: bv8, b2: bv8, b3: bv8, data: bv32)
    ensures WithLowHalf(Word(b0, b1, b2, b3), data) == Word(Byte(data, 0), Byte(data, 1), b2, b3)
    ensures WithHighHalf(Word(b0, b1, b2, b3), data) == Word(b0, b1, Byte(data, 0), Byte(data, 1))
  {
  }

  lemma StoreByte0(b0: bv8, b1: bv8, b2: bv8, b3: bv8, data: bv32)
    ensures WithByte(Word(b0, b1, b2, b3), 0, data) == Word(Byte(data, 0), b1, b2, b3)
  {
  }

  lemma StoreByte1(b0: bv8, b1: bv8, b2: bv8, b3: bv8, data: bv32)
    ensures WithByte(Word(b0, b1, b2, b3), 1, data) == Word(b0, Byte(data, 0), b2, b3)
  {
  }

  lemma StoreByte2(b0: bv8, b1: bv8, b2: bv8, b3: bv8, data: bv32)
    ensures WithByte(Word(b0, b1, b2, b3), 2, data) == Word(b0, b1, Byte(data, 0), b3)
  {
  }

  lemma StoreByte3(b0: bv8, b1: bv8, b2: bv8, b3: bv8, data: bv32)
    ensures WithByte(Word(b0, b1, b2, b3), 3, data) == Word(b0, b1, b2, Byte(data, 0))
  {
  }

  /** The masks of the byte writes replace one byte and keep the other three. */
  lemma StoreByte(b0: bv8, b1: bv8, b2: bv8, b3: bv8, i: int, data: bv32)
    requires 0 <= i < 4
    ensures var four := [b0, b1, b2, b3][i := Byte(data, 0)];
            WithByte(Word(b0, b1, b2, b3), i, data) == Word(four[0], four[1], four[2], four[3])
  {
    hide WithByte, Word, Byte;
    StoreByte0(b0, b1, b2, b3, data);
    StoreByte1(b0, b1, b2, b3, data);
    StoreByte2(b0, b1, b2, b3, data);
    StoreByte3(b0, b1, b2, b3, data);
  }

  /** m with bytes in place of what was there from a on. */
  function Spliced(m: seq<bv8>, a: int, bytes: seq<bv8>): (r: seq<bv8>)
    requires 0 <= a && a + |bytes| <= |m|
    ensures |r| == |m|
  {
    m[..a] + bytes + m[a + |bytes|..]
  }

  /** Replacing an aligned group of four bytes by one in which some bytes are new. */
  lemma SpliceWithin(m: seq<bv8>, base: int, k: int, bytes: seq<bv8>, four: seq<bv8>)
    requires 0 <= base && 0 <= k && k + |bytes| <= 4 == |four| && base + 4 <= |m|
    requires forall j :: 0 <= j < 4 ==> four[j] == if k <= j < k + |bytes| then bytes[j - k] else m[base + j]
    ensures Spliced(m, base, four) == Spliced(m, base + k, bytes)
    ensures |bytes| == 1 ==> Spliced(m, base, four) == m[base + k := bytes[0]]
  {
    assert Spliced(m, base, four) == Spliced(m, base + k, bytes);
  }

  // ----- extracting a part of a word

  function LowHalf(word: bv32): bv32 {
    word & 0xffff
  }

  function HighHalf(word: bv32): bv32 {
    ShiftRight(word, 16) & 0xffff
  }

  function PickByte(word: bv32, i: int): bv32 {
    if i == 0 then word & 0xff
    else if i == 1 then ShiftRight(word, 8) & 0xff
    else if i == 2 then ShiftRight(word, 16) & 0xff
    else ShiftRight(word, 24) & 0xff
  }

  lemma LoadHalf(b0: bv8, b1: bv8, b2: bv8, b3: bv8)
    ensures LowHalf(Word(b0, b1, b2, b3)) == Half(b0, b1)
    ensures HighHalf(Word(b0, b1, b2, b3)) == Half(b2, b3)
  {
  }

  lemma LoadByte(b0: bv8, b1: bv8, b2: bv8, b3: bv8)
    ensures PickByte(Word(b0, b1, b2, b3), 0) == Unsigned(b0)
    ensures PickByte(Word(b0, b1, b2, b3), 1) == Unsigned(b1)
    ensures PickByte(Word(b0, b1, b2, b3), 2) == Unsigned(b2)
    ensures PickByte(Word(b0, b1, b2, b3), 3) == Unsigned(b3)
  {
  }

  // ----- addresses

  function PageNumber(addr: int): int {
    addr / 0x1_0000 % PAGES
  }

  function WordIndex(addr: int): int {
    addr / 4 % PAGE_WORDS
  }

  /** Page and index find the word that holds the addressed byte. */
  lemma AddressParts(addr: int)
    ensures 0 <= PageNumber(addr) < PAGES && 0 <= WordIndex(addr) < PAGE_WORDS
    ensures addr % SPACE == 4 * (PAGE_WORDS * PageNumber(addr) + WordIndex(addr)) + addr % 4
  {
    var q, r := addr / 0x1_0000, addr % 0x1_0000;
    var u, v := q / PAGES, q % PAGES;
    ModuloSpace(u, 0x1_0000 * v + r);
    Quarter(q, r);
    ModuloPage(q, r / 4);
  }

  lemma ModuloSpace(u: int, rest: int)
    requires 0 <= rest < SPACE
    ensures (SPACE * u + rest) % SPACE == rest
  {
  }

  lemma Quarter(q: int, r: int)
    requires 0 <= r < 0x1_0000
    ensures (0x1_0000 * q + r) / 4 == PAGE_WORDS * q + r / 4 && (0x1_0000 * q + r) % 4 == r % 4
  {
  }

  lemma ModuloPage(q: int, j: int)
    requires 0 <= j < PAGE_WORDS
    ensures (PAGE_WORDS * q + j) % PAGE_WORDS == j
  {
  }

  class Memory {
    var pages: array<array?<bv32>>
    ghost var flat: seq<bv8>
    ghost var repr: set<object>

    ghost predicate Shaped()
      reads this, repr
    {
      && this in repr && pages in repr && pages.Length == PAGES && |flat| == SPACE
      && (forall p :: 0 <= p < PAGES && pages[p] != null ==> pages[p] in repr && pages[p].Length == PAGE_WORDS)
      && (forall p, q :: 0 <= p < q < PAGES && pages[p] != null ==> pages[p] != pages[q])
    }

    /** What page p holds at index i; a page that does not exist yet holds zeros. */
    ghost function Stored(p: int, i: int): bv32
      requires Shaped() && 0 <= p < PAGES && 0 <= i < PAGE_WORDS
      reads this, repr
    {
      if pages[p] == null then 0 else pages[p][i]
    }

    static ghost function FlatWord(m: seq<bv8>, p: int, i: int): bv32
      requires |m| == SPACE && 0 <= p < PAGES && 0 <= i < PAGE_WORDS
    {
      var a := 4 * (PAGE_WORDS * p + i);
      Word(m[a], m[a + 1], m[a + 2], m[a + 3])
    }

    ghost predicate Valid()
      reads this, repr
    {
      && Shaped()
      && forall p, i :: 0 <= p < PAGES && 0 <= i < PAGE_WORDS ==> Stored(p, i) == FlatWord(flat, p, i)
    }

    constructor Create()
      ensures Valid() && fresh(repr) && flat == seq(SPACE, _ => 0)
    {
      pages := new array?<bv32>[PAGES](_ => null);
      flat := seq(SPACE, _ => 0);
      new;
      repr := {this, pages};
      assert Word(0, 0, 0, 0) == 0;
    }

    /** Allocating a page cannot be seen. */
    method GetPage(addr: int) returns (page: array<bv32>)
      requires Valid()
      modifies repr, `repr
      ensures Valid() && flat == old(flat) && fresh(repr - old(repr)) && repr >= old(repr)
      ensures 0 <= PageNumber(addr) < PAGES && page == pages[PageNumber(addr)]
    {
      AddressParts(addr);
      hide Word;
      var pageNumber := PageNumber(addr);
      if pages[pageNumber] == null {
        var zeros := new bv32[PAGE_WORDS](_ => 0);
        pages[pageNumber] := zeros;
        repr := repr + {zeros};
      }
      page := pages[pageNumber];
    }

    /** Replaces one word of an existing page. */
    method Put(page: array<bv32>, addr: int, word: bv32, ghost b: seq<bv8>)
      requires Valid() && 0 <= PageNumber(addr) < PAGES && page == pages[PageNumber(addr)]
      requires |b| == 4 && word == Word(b[0], b[1], b[2], b[3])
      modifies page, `flat
      ensures Valid()
      ensures var base := addr % SPACE - addr % 4;
              0 <= base <= SPACE - 4 && flat == Spliced(old(flat), base, b)
    {
      AddressParts(addr);
      hide Word, Spliced, PageNumber;
      ghost var base := addr % SPACE - addr % 4;
      var index := WordIndex(addr);
      page[index] := word;
      flat := Spliced(flat, base, b);
      forall p, i | 0 <= p < PAGES && 0 <= i < PAGE_WORDS
        ensures Stored(p, i) == FlatWord(flat, p, i)
      {
        assert old(Stored(p, i) == FlatWord(flat, p, i));
        OtherWord(old(flat), b, base, p, i);
      }
    }

    /** Changing one aligned word leaves every other word alone. */
    static lemma OtherWord(m: seq<bv8>, b: seq<bv8>, base: int, p: int, i: int)
      requires |m| == SPACE && |b| == 4 && 0 <= base <= SPACE - 4 && base % 4 == 0
      requires 0 <= p < PAGES && 0 <= i < PAGE_WORDS
      ensures var m' := Spliced(m, base, b);
              FlatWord(m', p, i) == if 4 * (PAGE_WORDS * p + i) == base then Word(b[0], b[1], b[2], b[3]) else FlatWord(m, p, i)
    {
      hide Word;
    }

    /** The addressed word, and where its bytes are in the flat memory. */
    lemma WordAt(page: array<bv32>, addr: int)
      requires Valid() && 0 <= PageNumber(addr) < PAGES && page == pages[PageNumber(addr)]
      ensures 0 <= WordIndex(addr) < page.Length && |flat| == SPACE
      ensures var base := addr % SPACE - addr % 4;
              0 <= base <= SPACE - 4
              && page[WordIndex(addr)] == Word(flat[base], flat[base + 1], flat[base + 2], flat[base + 3])
    {
      hide Word;
      AddressParts(addr);
      assert Stored(PageNumber(addr), WordIndex(addr)) == FlatWord(flat, PageNumber(addr), WordIndex(addr));
    }

    // ----- the six operations; false stands for the exit on an unaligned address

    method WrW(addr: int, data: bv32) returns (ok: bool)
      requires Valid()
      modifies repr, `repr, `flat
      ensures Valid() && fresh(repr - old(repr)) && repr >= old(repr)
      ensures ok <==> addr % 4 == 0
      ensures var a := addr % SPACE;
              flat == if ok then Spliced(old(flat), a, [Byte(data, 0), Byte(data, 1), Byte(data, 2), Byte(data, 3)])
                      else old(flat)
    {
      if addr % 4 != 0 {
        return false;
      }
      var page := GetPage(addr);
      WordBytes(data);
      hide Word, Byte;
      Put(page, addr, data, [Byte(data, 0), Byte(data, 1), Byte(data, 2), Byte(data, 3)]);
      return true;
    }

    method WrH(addr: int, data: bv32) returns (ok: bool)
      requires Valid()
      modifies repr, `repr, `flat
      ensures Valid() && fresh(repr - old(repr)) && repr >= old(repr)
      ensures ok <==> addr % 2 == 0
      ensures var a := addr % SPACE;
              flat == if ok then Spliced(old(flat), a, [Byte(data, 0), Byte(data, 1)]) else old(flat)
    {
      hide Word, Byte, Spliced, PageNumber, WordIndex, WithLowHalf, WithHighHalf;
      if addr % 2 != 0 {
        return false;
      }
      var page := GetPage(addr);
      WordAt(page, addr);
      var index := WordIndex(addr);
      ghost var base, bytes := addr % SPACE - addr % 4, [Byte(data, 0), Byte(data, 1)];
      StoreHalf(flat[base], flat[base + 1], flat[base + 2], flat[base + 3], data);
      if addr % 4 < 2 {
        ghost var four := [bytes[0], bytes[1], flat[base + 2], flat[base + 3]];
        SpliceWithin(flat, base, 0, bytes, four);
        Put(page, addr, WithLowHalf(page[index], data), four);
      } else {
        ghost var four := [flat[base], flat[base + 1], bytes[0], bytes[1]];
        SpliceWithin(flat, base, 2, bytes, four);
        Put(page, addr, WithHighHalf(page[index], data), four);
      }
      return true;
    }

    /** Replaces the addressed byte in the word that holds it. */
    method PutByte(page: array<bv32>, addr: int, data: bv32)
      requires Valid() && 0 <= PageNumber(addr) < PAGES && page == pages[PageNumber(addr)]
      modifies page, `flat
      ensures Valid() && flat == old(flat)[addr % SPACE := Byte(data, 0)]
    {
      hide Valid, Word, Byte, Spliced, PageNumber, WordIndex, WithByte;
      WordAt(page, addr);
      var index := WordIndex(addr);
      ghost var four := ByteReplaced(flat, addr % SPACE, data);
      Put(page, addr, WithByte(page[index], addr % 4, data), four);
    }

    /** The aligned group of four bytes around a, with a new byte at a. */
    static lemma ByteReplaced(m: seq<bv8>, a: int, data: bv32) returns (four: seq<bv8>)
      requires |m| == SPACE && 0 <= a < SPACE
      ensures var base := a - a % 4;
              && base + 4 <= SPACE && |four| == 4
              && WithByte(Word(m[base], m[base + 1], m[base + 2], m[base + 3]), a % 4, data) == Word(four[0], four[1], four[2], four[3])
              && Spliced(m, base, four) == m[a := Byte(data, 0)]
    {
      hide Word, Byte, Spliced, WithByte;
      var base := a - a % 4;
      StoreByte(m[base], m[base + 1], m[base + 2], m[base + 3], a % 4, data);
      four := [m[base], m[base + 1], m[base + 2], m[base + 3]][a % 4 := Byte(data, 0)];
      SpliceWithin(m, base, a % 4, [Byte(data, 0)], four);
    }

    method WrB(addr: int, data: bv32)
      requires Valid()
      modifies repr, `repr, `flat
      ensures Valid() && fresh(repr - old(repr)) && repr >= old(repr)
      ensures flat == old(flat)[addr % SPACE := Byte(data, 0)]
    {
      hide Word, Byte, PageNumber;
      var page := GetPage(addr);
      PutByte(page, addr, data);
    }

    method RdW(addr: int) returns (ok: bool, word: bv32)
      requires Valid()
      modifies repr, `repr
      ensures Valid() && flat == old(flat) && fresh(repr - old(repr)) && repr >= old(repr)
      ensures ok <==> addr % 4 == 0
      ensures var a := addr % SPACE; ok ==> word == Word(flat[a], flat[a + 1], flat[a + 2], flat[a + 3])
    {
      hide Word;
      var page := GetPage(addr);
      if addr % 4 != 0 {
        return false, 0;
      }
      WordAt(page, addr);
      return true, page[WordIndex(addr)];
    }

    method RdH(addr: int) returns (ok: bool, word: bv32)
      requires Valid()
      modifies repr, `repr
      ensures Valid() && flat == old(flat) && fresh(repr - old(repr)) && repr >= old(repr)
      ensures ok <==> addr % 2 == 0
      ensures var a := addr % SPACE; ok ==> word == Half(flat[a], flat[a + 1])
    {
      hide Word, Half, LowHalf, HighHalf, PageNumber, WordIndex;
      var page := GetPage(addr);
      if addr % 2 != 0 {
        return false, 0;
      }
      WordAt(page, addr);
      ghost var base := addr % SPACE - addr % 4;
      LoadHalf(flat[base], flat[base + 1], flat[base + 2], flat[base + 3]);
      var index := WordIndex(addr);
      return true, if addr % 4 < 2 then LowHalf(page[index]) else HighHalf(page[index]);
    }

    /** The byte at a is picked out of the aligned word around it. */
    static lemma BytePicked(m: seq<bv8>, a: int)
      requires |m| == SPACE && 0 <= a < SPACE
      ensures var base := a - a % 4;
              && base + 4 <= SPACE
              && PickByte(Word(m[base], m[base + 1], m[base + 2], m[base + 3]), a % 4) == Unsigned(m[a])
    {
      hide Word, PickByte, Unsigned;
      var base := a - a % 4;
      LoadByte(m[base], m[base + 1], m[base + 2], m[base + 3]);
    }

    method RdB(addr: int) returns (word: bv32)
      requires Valid()
      modifies repr, `repr
      ensures Valid() && flat == old(flat) && fresh(repr - old(repr)) && repr >= old(repr)
      ensures word == Unsigned(flat[addr % SPACE])
    {
      hide Valid, Word, PickByte, Unsigned, PageNumber, WordIndex;
      var page := GetPage(addr);
      WordAt(page, addr);
      BytePicked(flat, addr % SPACE);
      var index := WordIndex(addr);
      return PickByte(page[index], addr % 4);
    }
  }
}
