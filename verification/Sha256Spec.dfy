/** The SHA-256 function of FIPS 180-4, defined on byte strings without any state. */
module Sha256Spec {
  import opened WordValues

  type Bytes = seq<bv8>

  const BLOCK := 64

  // ----- functions of sections 3.2 and 4.1.2

  function Rotr(n: bv8, x: bv32): bv32
    requires 0 < n < 32
  {
    (x >> n) | (x << (32 - n))
  }

  /** Addition modulo 2 to the 32, also that of uint32_t. */
  function Plus(x: bv32, y: bv32): bv32 {
    x + y
  }

  /** Addition modulo 2 to the 64. */
  function Plus64(x: bv64, y: bv64): bv64 {
    x + y
  }

  function Ch(x: bv32, y: bv32, z: bv32): bv32 {
    (x & y) ^ (!x & z)
  }

  function Maj(x: bv32, y: bv32, z: bv32): bv32 {
    (x & y) ^ (x & z) ^ (y & z)
  }

  function BigSigma0(x: bv32): bv32 {
    Xor(Xor(Rotr(2, x), Rotr(13, x)), Rotr(22, x))
  }

  function BigSigma1(x: bv32): bv32 {
    Xor(Xor(Rotr(6, x), Rotr(11, x)), Rotr(25, x))
  }

  function SmallSigma0(x: bv32): bv32 {
    Xor(Xor(Rotr(7, x), Rotr(18, x)), Right(x, 3))
  }

  function SmallSigma1(x: bv32): bv32 {
    Xor(Xor(Rotr(17, x), Rotr(19, x)), Right(x, 10))
  }

  /** The words of section 4.2.2, eight to a row. */
  function KRow(row: nat): (r: seq<bv32>)
    ensures |r| == 8
  {
    match row
    case 0 => [0x428a2f98, 0x71374491, 0xb5c0fbcf, 0xe9b5dba5, 0x3956c25b, 0x59f111f1, 0x923f82a4, 0xab1c5ed5]
    case 1 => [0xd807aa98, 0x12835b01, 0x243185be, 0x550c7dc3, 0x72be5d74, 0x80deb1fe, 0x9bdc06a7, 0xc19bf174]
    case 2 => [0xe49b69c1, 0xefbe4786, 0x0fc19dc6, 0x240ca1cc, 0x2de92c6f, 0x4a7484aa, 0x5cb0a9dc, 0x76f988da]
    case 3 => [0x983e5152, 0xa831c66d, 0xb00327c8, 0xbf597fc7, 0xc6e00bf3, 0xd5a79147, 0x06ca6351, 0x14292967]
    case 4 => [0x27b70a85, 0x2e1b2138, 0x4d2c6dfc, 0x53380d13, 0x650a7354, 0x766a0abb, 0x81c2c92e, 0x92722c85]
    case 5 => [0xa2bfe8a1, 0xa81a664b, 0xc24b8b70, 0xc76c51a3, 0xd192e819, 0xd6990624, 0xf40e3585, 0x106aa070]
    case 6 => [0x19a4c116, 0x1e376c08, 0x2748774c, 0x34b0bcb5, 0x391c0cb3, 0x4ed8aa4a, 0x5b9cca4f, 0x682e6ff3]
    case _ => [0x748f82ee, 0x78a5636f, 0x84c87814, 0x8cc70208, 0x90befffa, 0xa4506ceb, 0xbef9a3f7, 0xc67178f2]
  }

  function K(t: nat): bv32
    requires t < 64
  {
    KRow(t / 8)[t % 8]
  }

  // ----- section 5: padding and parsing

  /** The number of bits in n bytes, as a 64-bit word. */
  function BitLength(n: nat): bv64 {
    if n == 0 then 0 else Plus64(BitLength(n - 1), 8)
  }

  function BigEndian64(x: bv64): (r: Bytes)
    ensures |r| == 8
  {
    [((x >> 56) & 0xff) as bv8, ((x >> 48) & 0xff) as bv8, ((x >> 40) & 0xff) as bv8, ((x >> 32) & 0xff) as bv8,
     ((x >> 24) & 0xff) as bv8, ((x >> 16) & 0xff) as bv8, ((x >> 8) & 0xff) as bv8, (x & 0xff) as bv8]
  }

  function BigEndian32(x: bv32): (r: Bytes)
    ensures |r| == 4
  {
    [((x >> 24) & 0xff) as bv8, ((x >> 16) & 0xff) as bv8, ((x >> 8) & 0xff) as bv8, (x & 0xff) as bv8]
  }

  function FirstHighest(a: bv8, b: bv8, c: bv8, d: bv8): bv32 {
    (a as bv32 << 24) | (b as bv32 << 16) | (c as bv32 << 8) | (d as bv32)
  }

  /** Word i of a block, the first byte being the most significant. */
  function MessageWord(block: Bytes, i: nat): bv32
    requires 4 * i + 4 <= |block|
  {
    FirstHighest(block[4 * i], block[4 * i + 1], block[4 * i + 2], block[4 * i + 3])
  }

  /** Section 5.1.1: the least number of zero bytes that fills the last block. */
  function ZeroCount(n: nat): (k: nat)
    ensures (n + 1 + k + 8) % BLOCK == 0 && k < BLOCK
  {
    (119 - n % BLOCK) % BLOCK
  }

  function Zeros(n: nat): (r: Bytes)
    ensures |r| == n
  {
    seq(n, _ => 0)
  }

  function Pad(m: Bytes): Bytes {
    m + [0x80] + Zeros(ZeroCount(|m|)) + BigEndian64(BitLength(|m|))
  }

  // ----- section 6.2.2

  datatype Words = Words(a: bv32, b: bv32, c: bv32, d: bv32, e: bv32, f: bv32, g: bv32, h: bv32)

  const INITIAL := Words(0x6a09e667, 0xbb67ae85, 0x3c6ef372, 0xa54ff53a, 0x510e527f, 0x9b05688c, 0x1f83d9ab, 0x5be0cd19)

  /** Step 1: the message schedule. */
  function W(block: Bytes, t: nat): bv32
    requires |block| == BLOCK
  {
    if t < 16 then MessageWord(block, t)
    else Plus(Plus(Plus(SmallSigma1(W(block, t - 2)), W(block, t - 7)), SmallSigma0(W(block, t - 15))), W(block, t - 16))
  }

  /** Step 3: one round. */
  function Round(v: Words, k: bv32, w: bv32): Words {
    var t1 := Plus(Plus(Plus(Plus(v.h, BigSigma1(v.e)), Ch(v.e, v.f, v.g)), k), w);
    var t2 := Plus(BigSigma0(v.a), Maj(v.a, v.b, v.c));
    Words(Plus(t1, t2), v.a, v.b, v.c, Plus(v.d, t1), v.e, v.f, v.g)
  }

  function Rounds(v: Words, block: Bytes, t: nat): Words
    requires |block| == BLOCK && t <= 64
  {
    if t == 0 then v else Round(Rounds(v, block, t - 1), K(t - 1), W(block, t - 1))
  }

  function Sum(x: Words, y: Words): Words {
    Words(Plus(x.a, y.a), Plus(x.b, y.b), Plus(x.c, y.c), Plus(x.d, y.d),
          Plus(x.e, y.e), Plus(x.f, y.f), Plus(x.g, y.g), Plus(x.h, y.h))
  }

  /** Steps 2 to 4: the next hash value. */
  function Compress(hash: Words, block: Bytes): Words
    requires |block| == BLOCK
  {
    Sum(Rounds(hash, block, 64), hash)
  }

  /** The hash value after all complete blocks of a message. */
  function Fold(hash: Words, m: Bytes): Words
    decreases |m|
  {
    if |m| < BLOCK then hash else Fold(Compress(hash, m[..BLOCK]), m[BLOCK..])
  }

  function Digest(hash: Words): (r: Bytes)
    ensures |r| == 32
  {
    BigEndian32(hash.a) + BigEndian32(hash.b) + BigEndian32(hash.c) + BigEndian32(hash.d)
    + BigEndian32(hash.e) + BigEndian32(hash.f) + BigEndian32(hash.g) + BigEndian32(hash.h)
  }

  function Sha256(m: Bytes): Bytes {
    Digest(Fold(INITIAL, Pad(m)))
  }
}
