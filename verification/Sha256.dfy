/**
 The streaming hash of A4/handout/src/sha256.c, in its little-endian build. Words in memory are four
 bytes, the least significant first.
*/
module Sha256 {
  import opened Sha256Spec
  import opened WordValues

  // ----- macros

  function RotrMacro(x: bv32, n: bv8): bv32
    requires 0 < n < 32
  {
    (x >> n) | (x << (32 - n))
  }

  function RotlMacro(x: bv32, n: bv8): bv32
    requires 0 < n < 32
  {
    (x << n) | (x >> (32 - n))
  }

  function ChMacro(x: bv32, y: bv32, z: bv32): bv32 {
    z ^ (x & (y ^ z))
  }

  function MajMacro(x: bv32, y: bv32, z: bv32): bv32 {
    (x & (y | z)) | (y & z)
  }

  function BigSigma0Macro(x: bv32): bv32 {
    Xor(Xor(RotrMacro(x, 2), RotrMacro(x, 13)), RotrMacro(x, 22))
  }

  function BigSigma1Macro(x: bv32): bv32 {
    Xor(Xor(RotrMacro(x, 6), RotrMacro(x, 11)), RotrMacro(x, 25))
  }

  function SmallSigma0Macro(x: bv32): bv32 {
    Xor(Xor(RotrMacro(x, 7), RotrMacro(x, 18)), Right(x, 3))
  }

  function SmallSigma1Macro(x: bv32): bv32 {
    Xor(Xor(RotrMacro(x, 17), RotrMacro(x, 19)), Right(x, 10))
  }

  function ByteSwap(x: bv32): bv32 {
    (RotrMacro(x, 8) & 0xff00ff00) | (RotlMacro(x, 8) & 0x00ff00ff)
  }

  function ByteSwap64(x: bv64): bv64 {
    var a := (x >> 32) as bv32;
    var b := (x & 0xffffffff) as bv32;
    ((ByteSwap(b) as bv64) << 32) | (ByteSwap(a) as bv64)
  }

  function FirstLowest(a: bv8, b: bv8, c: bv8, d: bv8): bv32 {
    (a as bv32) | (b as bv32 << 8) | (c as bv32 << 16) | (d as bv32 << 24)
  }

  /** Reading a word from memory. */
  function LoadWord(m: Bytes, i: nat): bv32
    requires 4 * i + 4 <= |m|
  {
    FirstLowest(m[4 * i], m[4 * i + 1], m[4 * i + 2], m[4 * i + 3])
  }

  function StoreWord(x: bv32): (r: Bytes)
    ensures |r| == 4
  {
    [(x & 0xff) as bv8, ((x >> 8) & 0xff) as bv8, ((x >> 16) & 0xff) as bv8, ((x >> 24) & 0xff) as bv8]
  }

  /** How a 64-bit word lies in memory. */
  function StoreWord64(x: bv64): (r: Bytes)
    ensures |r| == 8
  {
    [(x & 0xff) as bv8, ((x >> 8) & 0xff) as bv8, ((x >> 16) & 0xff) as bv8, ((x >> 24) & 0xff) as bv8,
     ((x >> 32) & 0xff) as bv8, ((x >> 40) & 0xff) as bv8, ((x >> 48) & 0xff) as bv8, ((x >> 56) & 0xff) as bv8]
  }

  /** The optimised Ch is that of section 4.1.2. */
  lemma ChIsStandard(x: bv32, y: bv32, z: bv32)
    ensures ChMacro(x, y, z) == Ch(x, y, z)
  {
    ChBits(x, y, z);
  }

  lemma ChBits(x: bv32, y: bv32, z: bv32)
    ensures z ^ (x & (y ^ z)) == (x & y) ^ (!x & z)
  {
  }

  /** The optimised Maj is that of section 4.1.2. */
  lemma MajIsStandard(x: bv32, y: bv32, z: bv32)
    ensures MajMacro(x, y, z) == Maj(x, y, z)
  {
    MajBits(x, y, z);
  }

  lemma MajBits(x: bv32, y: bv32, z: bv32)
    ensures (x & (y | z)) | (y & z) == (x & y) ^ (x & z) ^ (y & z)
  {
  }

  lemma RotrIsStandard(x: bv32, n: bv8)
    requires 0 < n < 32
    ensures RotrMacro(x, n) == Rotr(n, x)
  {
  }

  /** The four sigma macros are the functions of section 4.1.2. */
  lemma SigmasAreStandard(x: bv32)
    ensures BigSigma0Macro(x) == BigSigma0(x) && BigSigma1Macro(x) == BigSigma1(x)
    ensures SmallSigma0Macro(x) == SmallSigma0(x) && SmallSigma1Macro(x) == SmallSigma1(x)
  {
    RotrIsStandard(x, 2);
    RotrIsStandard(x, 13);
    RotrIsStandard(x, 22);
    RotrIsStandard(x, 6);
    RotrIsStandard(x, 11);
    RotrIsStandard(x, 25);
    RotrIsStandard(x, 7);
    RotrIsStandard(x, 18);
    RotrIsStandard(x, 17);
    RotrIsStandard(x, 19);
    hide RotrMacro, Rotr, Xor, Right;
  }

  /** A swapped load is the big-endian word of the standard. */
  lemma SwappedLoad(m: Bytes, i: nat)
    requires 4 * i + 4 <= |m|
    ensures ByteSwap(LoadWord(m, i)) == MessageWord(m, i)
  {
    hide ByteSwap, FirstLowest, FirstHighest;
    SwapBytes(m[4 * i], m[4 * i + 1], m[4 * i + 2], m[4 * i + 3]);
  }

  lemma SwapBytes(a: bv8, b: bv8, c: bv8, d: bv8)
    ensures ByteSwap(FirstLowest(a, b, c, d)) == FirstHighest(a, b, c, d)
  {
  }

  lemma SwappedStore(x: bv32)
    ensures StoreWord(ByteSwap(x)) == BigEndian32(x)
  {
  }

  lemma SwappedStore64(x: bv64)
    ensures StoreWord64(ByteSwap64(x)) == BigEndian64(x)
  {
  }

  // ----- the block function

  lemma WLoaded(cbuf: Bytes, t: nat)
    requires |cbuf| == BLOCK && t < 16
    ensures W(cbuf, t) == ByteSwap(LoadWord(cbuf, t))
  {
    hide MessageWord, LoadWord, ByteSwap, Plus;
    SwappedLoad(cbuf, t);
  }

  lemma WStep(cbuf: Bytes, t: nat)
    requires |cbuf| == BLOCK && 16 <= t
    ensures W(cbuf, t)
            == Plus(Plus(Plus(SmallSigma1(W(cbuf, t - 2)), W(cbuf, t - 7)), SmallSigma0(W(cbuf, t - 15))), W(cbuf, t - 16))
  {
    hide MessageWord, SmallSigma0, SmallSigma1, Plus;
  }

  /** The schedule, filled through four pointers that walk behind the one being written. */
  method Schedule(cbuf: Bytes) returns (buf: array<bv32>)
    requires |cbuf| == BLOCK
    ensures fresh(buf) && buf.Length == 64 && forall t :: 0 <= t < 64 ==> buf[t] == W(cbuf, t)
  {
    hide W, MessageWord, LoadWord, ByteSwap, SmallSigma0, SmallSigma1, SmallSigma0Macro, SmallSigma1Macro, Plus;
    buf := new bv32[64];
    var w, c := 0, 0;
    for i := 16 downto 0
      invariant w == c == 16 - i
      invariant forall t :: 0 <= t < w ==> buf[t] == W(cbuf, t)
    {
      WLoaded(cbuf, c);
      buf[w] := ByteSwap(LoadWord(cbuf, c));
      w := w + 1;
      c := c + 1;
    }
    var w16, w15, w7, w2 := 0, 1, 9, 14;
    for i := 48 downto 0
      invariant w == 64 - i && w16 == w - 16 && w15 == w - 15 && w7 == w - 7 && w2 == w - 2
      invariant forall t :: 0 <= t < w ==> buf[t] == W(cbuf, t)
    {
      WStep(cbuf, w);
      SigmasAreStandard(buf[w2]);
      SigmasAreStandard(buf[w15]);
      buf[w] := Plus(Plus(Plus(SmallSigma1Macro(buf[w2]), buf[w7]), SmallSigma0Macro(buf[w15])), buf[w16]);
      w := w + 1;
      w7 := w7 + 1;
      w16 := w16 + 1;
      w2 := w2 + 1;
      w15 := w15 + 1;
    }
  }

  /** DO_ROUND on the eight working variables. */
  method DoRound(v: Words, k: bv32, w: bv32) returns (v': Words)
    ensures v' == Round(v, k, w)
  {
    var a, b, c, d, e, f, g, h := v.a, v.b, v.c, v.d, v.e, v.f, v.g, v.h;
    hide ChMacro, MajMacro, Ch, Maj, BigSigma0, BigSigma1, BigSigma0Macro, BigSigma1Macro, Plus;
    SigmasAreStandard(a);
    SigmasAreStandard(e);
    ChIsStandard(e, f, g);
    MajIsStandard(a, b, c);
    var t1 := Plus(Plus(Plus(Plus(h, BigSigma1Macro(e)), ChMacro(e, f, g)), k), w);
    var t2 := Plus(BigSigma0Macro(a), MajMacro(a, b, c));
    h := g;
    g := f;
    f := e;
    e := Plus(d, t1);
    d := c;
    c := b;
    b := a;
    a := Plus(t1, t2);
    v' := Words(a, b, c, d, e, f, g, h);
  }

  /** The values SHA256_UNROLL may have. */
  predicate Unrolling(u: nat) {
    u == 1 || u == 2 || u == 4 || u == 8 || u == 16 || u == 32 || u == 64
  }

  /** However the rounds are grouped, there are sixty-four of them. */
  method AllRounds(cbuf: Bytes, buf: array<bv32>, start: Words, unroll: nat) returns (v: Words)
    requires |cbuf| == BLOCK && Unrolling(unroll)
    requires buf.Length == 64 && forall t :: 0 <= t < 64 ==> buf[t] == W(cbuf, t)
    ensures v == Rounds(start, cbuf, 64)
  {
    hide Round, K, W;
    v := start;
    var kp := 0;
    for i := 64 / unroll downto 0
      invariant kp + i * unroll == 64 && 0 <= kp && v == Rounds(start, cbuf, kp)
    {
      assert (i + 1) * unroll == i * unroll + unroll && 0 <= i * unroll;
      ghost var first := kp;
      for j := 0 to unroll
        invariant kp == first + j && v == Rounds(start, cbuf, kp)
      {
        v := DoRound(v, K(kp), buf[kp]);
        kp := kp + 1;
      }
    }
  }

  // ----- what the context stands for

  function ToWords(s: seq<bv32>): Words
    requires |s| == 8
  {
    Words(s[0], s[1], s[2], s[3], s[4], s[5], s[6], s[7])
  }

  /** The hash of the complete blocks so far, the bytes after them, and the number of bits seen. */
  datatype State = State(hash: Words, pending: Bytes, total: bv64)

  /** The bytes after the last complete block. */
  function Tail(m: Bytes): (r: Bytes)
    ensures |r| < BLOCK
    decreases |m|
  {
    if |m| < BLOCK then m else Tail(m[BLOCK..])
  }

  /** What any sequence of updates with these bytes does, from any state. */
  function Absorb(s: State, data: Bytes): State {
    var m := s.pending + data;
    State(Fold(s.hash, m), Tail(m), Plus64(s.total, BitLength(|data|)))
  }

  lemma {:induction false} FoldJoined(hash: Words, m: Bytes, n: Bytes)
    ensures Fold(hash, m + n) == Fold(Fold(hash, m), Tail(m) + n)
    ensures Tail(m + n) == Tail(Tail(m) + n)
    decreases |m|
  {
    hide Compress;
    if |m| >= BLOCK {
      FoldJoined(Compress(hash, m[..BLOCK]), m[BLOCK..], n);
      assert (m + n)[..BLOCK] == m[..BLOCK] && (m + n)[BLOCK..] == m[BLOCK..] + n;
    }
  }

  lemma Plus64Associates(x: bv64, y: bv64, z: bv64)
    ensures Plus64(Plus64(x, y), z) == Plus64(x, Plus64(y, z)) && Plus64(x, 0) == x
  {
    AddAssociates(x, y, z);
  }

  lemma AddAssociates(x: bv64, y: bv64, z: bv64)
    ensures (x + y) + z == x + (y + z)
  {
  }

  lemma {:induction false} BitLengthAdds(m: nat, n: nat)
    ensures BitLength(m + n) == Plus64(BitLength(m), BitLength(n))
  {
    hide Plus64;
    if n > 0 {
      BitLengthAdds(m, n - 1);
      Plus64Associates(BitLength(m), BitLength(n - 1), 8);
    } else {
      Plus64Associates(BitLength(m), 0, 0);
    }
  }

  /** Splitting the input between two updates cannot be seen. */
  lemma AbsorbJoined(s: State, m: Bytes, n: Bytes)
    ensures Absorb(Absorb(s, m), n) == Absorb(s, m + n)
  {
    hide Fold, Tail, BitLength, Plus64;
    Plus64Associates(s.total, BitLength(|m|), BitLength(|n|));
    FoldJoined(s.hash, s.pending + m, n);
    assert s.pending + (m + n) == s.pending + m + n;
    BitLengthAdds(|m|, |n|);
  }

  /** The number of bits in one block. */
  lemma BitLengthOfBlock()
    ensures BitLength(BLOCK) == 512
  {
    assert BitLength(1) == 8;
    BitLengthAdds(1, 1);
    BitLengthAdds(2, 2);
    BitLengthAdds(4, 4);
    BitLengthAdds(8, 8);
    BitLengthAdds(16, 16);
    BitLengthAdds(32, 32);
  }

  /** Absorbing at most the rest of a block. */
  lemma AbsorbPart(s: State, part: Bytes)
    requires |s.pending| + |part| <= BLOCK
    ensures Absorb(s, part) ==
      if |s.pending| + |part| == BLOCK then
        State(Compress(s.hash, s.pending + part), [], Plus64(s.total, BitLength(|part|)))
      else
        State(s.hash, s.pending + part, Plus64(s.total, BitLength(|part|)))
  {
    hide Compress, BitLength, Plus64;
    var m := s.pending + part;
    if |m| == BLOCK {
      assert m[..BLOCK] == m && m[BLOCK..] == [];
      assert Fold(Compress(s.hash, m), []) == Compress(s.hash, m) && Tail([]) == [];
    }
  }

  lemma AbsorbNothing(s: State)
    requires |s.pending| < BLOCK
    ensures Absorb(s, []) == s
  {
    AbsorbPart(s, []);
    assert s.pending + [] == s.pending;
    Plus64Associates(s.total, 0, 0);
  }

  // ----- the context

  class Context {
    var totalLength: bv64
    var hash: array<bv32>
    var bufferLength: int
    var buffer: array<bv8>

    ghost predicate Shaped()
      reads this
    {
      hash.Length == 8 && buffer.Length == BLOCK && 0 <= bufferLength <= BLOCK
    }

    ghost predicate Valid()
      reads this
    {
      Shaped() && bufferLength < BLOCK
    }

    /** Bytes of the buffer past bufferLength mean nothing. */
    ghost function Progress(): State
      requires Shaped()
      reads this, hash, buffer
    {
      State(ToWords(hash[..]), buffer[..bufferLength], totalLength)
    }

    /** sha256_init, on a context whose buffer holds anything. */
    constructor Init()
      ensures Valid() && fresh(hash) && fresh(buffer) && Progress() == State(INITIAL, [], 0)
    {
      totalLength := 0;
      hash := new bv32[8];
      buffer := new bv8[BLOCK];
      bufferLength := 0;
      new;
      hash[0], hash[1], hash[2], hash[3] := 0x6a09e667, 0xbb67ae85, 0x3c6ef372, 0xa54ff53a;
      hash[4], hash[5], hash[6], hash[7] := 0x510e527f, 0x9b05688c, 0x1f83d9ab, 0x5be0cd19;
    }

    /** SHA256Guts is the block function of section 6.2.2. */
    method Guts(cbuf: Bytes, unroll: nat)
      requires Shaped() && |cbuf| == BLOCK && Unrolling(unroll)
      modifies hash
      ensures ToWords(hash[..]) == Compress(old(ToWords(hash[..])), cbuf)
    {
      hide Plus, Rounds, W;
      var buf := Schedule(cbuf);
      var start := Words(hash[0], hash[1], hash[2], hash[3], hash[4], hash[5], hash[6], hash[7]);
      var v := AllRounds(cbuf, buf, start, unroll);
      hash[0] := Plus(v.a, hash[0]);
      hash[1] := Plus(v.b, hash[1]);
      hash[2] := Plus(v.c, hash[2]);
      hash[3] := Plus(v.d, hash[3]);
      hash[4] := Plus(v.e, hash[4]);
      hash[5] := Plus(v.f, hash[5]);
      hash[6] := Plus(v.g, hash[6]);
      hash[7] := Plus(v.h, hash[7]);
    }

    /** memcpy into the buffer behind the pending bytes. */
    method CopyIn(part: Bytes)
      requires Shaped() && bufferLength + |part| <= BLOCK
      modifies buffer
      ensures buffer[..bufferLength + |part|] == old(buffer[..bufferLength]) + part
    {
      for i := 0 to |part|
        invariant buffer[..bufferLength + i] == old(buffer[..bufferLength]) + part[..i]
      {
        buffer[bufferLength + i] := part[i];
        assert part[..i + 1] == part[..i] + [part[i]];
      }
      assert part[..|part|] == part;
    }

    /** One pass of the simple loop: fill the buffer up, and compress it once it is full. */
    method Take(part: Bytes, unroll: nat)
      requires Valid() && bufferLength + |part| <= BLOCK && Unrolling(unroll)
      modifies this, hash, buffer
      ensures Valid() && hash == old(hash) && buffer == old(buffer)
      ensures Progress() == Absorb(old(Progress()), part)
    {
      hide Compress, BitLength, Plus64, Absorb;
      AbsorbPart(Progress(), part);
      CopyIn(part);
      totalLength := Plus64(totalLength, BitLength(|part|));
      bufferLength := bufferLength + |part|;
      if bufferLength == BLOCK {
        assert buffer[..BLOCK] == buffer[..];
        Guts(buffer[..], unroll);
        bufferLength := 0;
      }
    }

    /** sha256_update without SHA256_FAST_COPY. */
    method Update(data: Bytes, unroll: nat)
      requires Valid() && Unrolling(unroll)
      modifies this, hash, buffer
      ensures Valid() && hash == old(hash) && buffer == old(buffer)
      ensures Progress() == Absorb(old(Progress()), data)
    {
      hide Absorb;
      var pos := 0;
      AbsorbNothing(Progress());
      while pos < |data|
        invariant 0 <= pos <= |data| && Valid() && hash == old(hash) && buffer == old(buffer)
        invariant Progress() == Absorb(old(Progress()), data[..pos])
      {
        var bufferBytesLeft := BLOCK - bufferLength;
        var bytesToCopy := bufferBytesLeft;
        if bytesToCopy > |data| - pos {
          bytesToCopy := |data| - pos;
        }
        AbsorbJoined(old(Progress()), data[..pos], data[pos..pos + bytesToCopy]);
        assert data[..pos + bytesToCopy] == data[..pos] + data[pos..pos + bytesToCopy];
        Take(data[pos..pos + bytesToCopy], unroll);
        pos := pos + bytesToCopy;
      }
      assert data[..|data|] == data;
    }

    /** sha256_update with SHA256_FAST_COPY: whole blocks are compressed where they lie. */
    method UpdateFast(data: Bytes, unroll: nat)
      requires Valid() && Unrolling(unroll)
      modifies this, hash, buffer
      ensures Valid() && hash == old(hash) && buffer == old(buffer)
      ensures Progress() == Absorb(old(Progress()), data)
    {
      hide Absorb, Compress, BitLength, Plus64, ToWords;
      var pos := 0;
      AbsorbNothing(Progress());
      if bufferLength != 0 {
        var bytesToCopy := BLOCK - bufferLength;
        if bytesToCopy > |data| {
          bytesToCopy := |data|;
        }
        AbsorbPart(Progress(), data[..bytesToCopy]);
        Take(data[..bytesToCopy], unroll);
        assert |Progress().pending| == bufferLength;
        pos := bytesToCopy;
      }
      while |data| - pos > 63
        invariant 0 <= pos <= |data| && Valid() && hash == old(hash) && buffer == old(buffer)
        invariant pos < |data| ==> bufferLength == 0
        invariant Progress() == Absorb(old(Progress()), data[..pos])
      {
        WholeBlock(Progress(), data[pos..pos + BLOCK]);
        AbsorbJoined(old(Progress()), data[..pos], data[pos..pos + BLOCK]);
        assert data[..pos + BLOCK] == data[..pos] + data[pos..pos + BLOCK];
        totalLength := Plus64(totalLength, 512);
        Guts(data[pos..pos + BLOCK], unroll);
        pos := pos + BLOCK;
      }
      AbsorbJoined(old(Progress()), data[..pos], data[pos..]);
      assert data == data[..pos] + data[pos..];
      KeepRest(data[pos..]);
    }

    /** The bytes after the last whole block stay in the buffer. */
    method KeepRest(rest: Bytes)
      requires Valid() && |rest| < BLOCK && (rest != [] ==> bufferLength == 0)
      modifies this, hash, buffer
      ensures Valid() && hash == old(hash) && buffer == old(buffer)
      ensures Progress() == Absorb(old(Progress()), rest)
    {
      hide Absorb, Compress, BitLength, Plus64;
      AbsorbPart(Progress(), rest);
      AbsorbNothing(Progress());
      if |rest| != 0 {
        CopyIn(rest);
        totalLength := Plus64(totalLength, BitLength(|rest|));
        bufferLength := bufferLength + |rest|;
      }
    }

    /** sha256_final in the build with or without SHA256_FAST_COPY. */
    method Final(unroll: nat, fast: bool) returns (result: Bytes)
      requires Valid() && Unrolling(unroll)
      modifies this, hash, buffer
      ensures Valid() && result == Finish(old(Progress())) && bufferLength == 0
    {
      hide Absorb, BigEndian64, StoreWord64, ByteSwap64, Fold, Compress, BitLength, Plus64;
      var bytesToPad := 120 - bufferLength;
      if bytesToPad > BLOCK {
        bytesToPad := bytesToPad - BLOCK;
      }
      var lengthPad := ByteSwap64(totalLength);
      SwappedStore64(totalLength);
      ghost var s := Progress();
      PaddingIsFinalPad(s, bytesToPad);
      if fast {
        UpdateFast(Padding()[..bytesToPad], unroll);
        UpdateFast(StoreWord64(lengthPad), unroll);
      } else {
        Update(Padding()[..bytesToPad], unroll);
        Update(StoreWord64(lengthPad), unroll);
      }
      AbsorbJoined(s, Padding()[..bytesToPad], BigEndian64(s.total));
      FinalPadFillsBlock(s);
      result := Output(fast);
    }

    method Output(fast: bool) returns (result: Bytes)
      requires Shaped()
      ensures result == Digest(ToWords(hash[..]))
    {
      hide BigEndian32, StoreWord, ByteSwap;
      result := [];
      for i := 0 to 8
        invariant result == Joined(hash[..i])
      {
        assert hash[..i + 1][..i] == hash[..i];
        SwappedStore(hash[i]);
        if fast {
          result := result + StoreWord(ByteSwap(hash[i]));
        } else {
          // from the highest byte to the lowest
          result := result + BigEndian32(hash[i]);
        }
      }
      assert hash[..8] == hash[..];
      JoinedIsDigest(hash[..]);
    }
  }

  /** The static array padding. */
  function Padding(): (r: Bytes)
    ensures |r| == BLOCK
  {
    [0x80] + Zeros(BLOCK - 1)
  }

  function Joined(words: seq<bv32>): Bytes {
    if words == [] then [] else Joined(words[..|words| - 1]) + BigEndian32(words[|words| - 1])
  }

  lemma JoinedIsDigest(s: seq<bv32>)
    requires |s| == 8
    ensures Joined(s) == Digest(ToWords(s))
  {
    hide BigEndian32, Joined;
    JoinedFirst(s);
    JoinedStep(s, 1);
    JoinedStep(s, 2);
    JoinedStep(s, 3);
    JoinedStep(s, 4);
    JoinedStep(s, 5);
    JoinedStep(s, 6);
    JoinedStep(s, 7);
    assert s[..8] == s;
  }

  lemma JoinedFirst(s: seq<bv32>)
    requires |s| > 0
    ensures Joined(s[..1]) == BigEndian32(s[0])
  {
    JoinedStep(s, 0);
    assert s[..0] == [] && [] + BigEndian32(s[0]) == BigEndian32(s[0]);
  }

  lemma JoinedStep(s: seq<bv32>, i: nat)
    requires i < |s|
    ensures Joined(s[..i + 1]) == Joined(s[..i]) + BigEndian32(s[i])
  {
    assert s[..i + 1][..i] == s[..i];
  }

  // ----- the whole hash

  const START := State(INITIAL, [], 0)

  /** What sha256_final absorbs: 1 to 64 pad bytes and the length. */
  function FinalPad(s: State): Bytes {
    [0x80] + Zeros((119 - |s.pending|) % BLOCK) + BigEndian64(s.total)
  }

  function Finish(s: State): Bytes {
    Digest(Absorb(s, FinalPad(s)).hash)
  }

  lemma PaddingIsFinalPad(s: State, bytesToPad: nat)
    requires |s.pending| < BLOCK
    requires bytesToPad == if 120 - |s.pending| > BLOCK then 56 - |s.pending| else 120 - |s.pending|
    ensures 1 <= bytesToPad <= BLOCK
    ensures Padding()[..bytesToPad] + BigEndian64(s.total) == FinalPad(s)
  {
    hide BigEndian64;
    assert (119 - |s.pending|) % BLOCK == bytesToPad - 1;
  }

  lemma {:induction false} TailLength(m: Bytes)
    ensures |Tail(m)| == |m| % BLOCK
    decreases |m|
  {
    if |m| >= BLOCK {
      TailLength(m[BLOCK..]);
    }
  }

  /** The padding and the length end exactly on a block boundary, whatever came before. */
  lemma FinalPadFillsBlock(s: State)
    requires |s.pending| < BLOCK
    ensures Absorb(s, FinalPad(s)).pending == []
  {
    hide BigEndian64, Tail, BitLength, Plus64, Fold;
    var m := s.pending + FinalPad(s);
    assert |m| % BLOCK == 0;
    TailLength(m);
  }

  lemma AbsorbedFromStart(m: Bytes)
    ensures Absorb(START, m) == State(Fold(INITIAL, m), Tail(m), BitLength(|m|))
  {
    hide Fold, BitLength, Plus64, Tail;
    ZeroPlus(BitLength(|m|));
    assert [] + m == m;
  }

  lemma FinalPadIsPad(m: Bytes)
    ensures m + FinalPad(Absorb(START, m)) == Pad(m)
  {
    hide BitLength, BigEndian64, Tail, Zeros, Absorb, Fold;
    AbsorbedFromStart(m);
    TailLength(m);
    JoinFour(m, [0x80], Zeros(ZeroCount(|m|)), BigEndian64(BitLength(|m|)));
  }

  lemma JoinFour(a: Bytes, b: Bytes, c: Bytes, d: Bytes)
    ensures a + (b + c + d) == a + b + c + d
  {
  }

  lemma ZeroPlus(x: bv64)
    ensures Plus64(0, x) == x
  {
  }

  /** sha256_final after any updates that absorbed m returns SHA-256 of m. */
  lemma FinishIsSha256(m: Bytes)
    ensures Finish(Absorb(START, m)) == Sha256(m)
  {
    hide Fold, Tail, BitLength, Plus64, BigEndian64, Digest;
    AbsorbedFromStart(m);
    FinalPadIsPad(m);
    var pad := FinalPad(Absorb(START, m));
    AbsorbJoined(START, m, pad);
    assert [] + (m + pad) == Pad(m);
  }

  function Concatenated(chunks: seq<Bytes>): Bytes {
    if chunks == [] then [] else Concatenated(chunks[..|chunks| - 1]) + chunks[|chunks| - 1]
  }

  /** For every list of updates, in either form, the result is SHA-256 of the bytes joined together. */
  method HashAll(chunks: seq<Bytes>, fast: bool, unroll: nat) returns (result: Bytes)
    requires Unrolling(unroll)
    ensures result == Sha256(Concatenated(chunks))
  {
    hide Absorb, Sha256, Finish;
    var sc := new Context.Init();
    AbsorbNothing(START);
    for i := 0 to |chunks|
      invariant sc.Valid() && fresh(sc) && fresh(sc.hash) && fresh(sc.buffer)
      invariant sc.Progress() == Absorb(START, Concatenated(chunks[..i]))
    {
      assert chunks[..i + 1][..i] == chunks[..i];
      AbsorbJoined(START, Concatenated(chunks[..i]), chunks[i]);
      if fast {
        sc.UpdateFast(chunks[i], unroll);
      } else {
        sc.Update(chunks[i], unroll);
      }
    }
    assert chunks[..|chunks|] == chunks;
    FinishIsSha256(Concatenated(chunks));
    result := sc.Final(unroll, fast);
  }

  lemma WholeBlock(s: State, block: Bytes)
    requires s.pending == [] && |block| == BLOCK
    ensures Absorb(s, block) == State(Compress(s.hash, block), [], Plus64(s.total, 512))
  {
    AbsorbPart(s, block);
    BitLengthOfBlock();
    assert [] + block == block;
  }
}
