/** SHA-256 as FIPS 180-4 defines it: padding (section 5.1.1) and hash computation (section 6.2.2). */
module Sha256Spec {

  type Byte = bv8
  type Word = bv32

  const BLOCK: nat := 64
  const UINT64: nat := 0x1_0000_0000_0000_0000

  /** Section 4.1.2. */
  function Ch(x: Word, y: Word, z: Word): (r: Word) { (x & y) ^ (!x & z) }

  function Maj(x: Word, y: Word, z: Word): (r: Word) { (x & y) ^ (x & z) ^ (y & z) }

  function BigSigma0(x: Word): (r: Word) { x.RotateRight(2) ^ x.RotateRight(13) ^ x.RotateRight(22) }

  function BigSigma1(x: Word): (r: Word) { x.RotateRight(6) ^ x.RotateRight(11) ^ x.RotateRight(25) }

  function SmallSigma0(x: Word): (r: Word) { x.RotateRight(7) ^ x.RotateRight(18) ^ (x >> 3) }

  function SmallSigma1(x: Word): (r: Word) { x.RotateRight(17) ^ x.RotateRight(19) ^ (x >> 10) }

  /** Section 4.2.2, in two halves. */
  const K: seq<Word> := K_LOW + K_HIGH

  const K_LOW: seq<Word> := [
    0x428a2f98, 0x71374491, 0xb5c0fbcf, 0xe9b5dba5, 0x3956c25b, 0x59f111f1, 0x923f82a4, 0xab1c5ed5,
    0xd807aa98, 0x12835b01, 0x243185be, 0x550c7dc3, 0x72be5d74, 0x80deb1fe, 0x9bdc06a7, 0xc19bf174,
    0xe49b69c1, 0xefbe4786, 0x0fc19dc6, 0x240ca1cc, 0x2de92c6f, 0x4a7484aa, 0x5cb0a9dc, 0x76f988da,
    0x983e5152, 0xa831c66d, 0xb00327c8, 0xbf597fc7, 0xc6e00bf3, 0xd5a79147, 0x06ca6351, 0x14292967
  ]

  const K_HIGH: seq<Word> := [
    0x27b70a85, 0x2e1b2138, 0x4d2c6dfc, 0x53380d13, 0x650a7354, 0x766a0abb, 0x81c2c92e, 0x92722c85,
    0xa2bfe8a1, 0xa81a664b, 0xc24b8b70, 0xc76c51a3, 0xd192e819, 0xd6990624, 0xf40e3585, 0x106aa070,
    0x19a4c116, 0x1e376c08, 0x2748774c, 0x34b0bcb5, 0x391c0cb3, 0x4ed8aa4a, 0x5b9cca4f, 0x682e6ff3,
    0x748f82ee, 0x78a5636f, 0x84c87814, 0x8cc70208, 0x90befffa, 0xa4506ceb, 0xbef9a3f7, 0xc67178f2
  ]

  /** Section 5.3.3. */
  const H0: seq<Word> := [
    0x6a09e667, 0xbb67ae85, 0x3c6ef372, 0xa54ff53a, 0x510e527f, 0x9b05688c, 0x1f83d9ab, 0x5be0cd19
  ]

  /** The big-endian word at byte position `4t` of a block. */
  function WordAt(block: seq<Byte>, t: nat): (w: Word)
    requires |block| == BLOCK && t < 16
  {
    (block[4 * t] as bv32 << 24) | (block[4 * t + 1] as bv32 << 16) |
    (block[4 * t + 2] as bv32 << 8) | (block[4 * t + 3] as bv32)
  }

  /** The message schedule W_t. */
  function Schedule(block: seq<Byte>, t: nat): (w: Word)
    requires |block| == BLOCK
  {
    if t < 16 then WordAt(block, t)
    else Extend(Schedule(block, t - 2), Schedule(block, t - 7), Schedule(block, t - 15), Schedule(block, t - 16))
  }

  function Extend(w2: Word, w7: Word, w15: Word, w16: Word): (w: Word) {
    Add(Add(Add(SmallSigma1(w2), w7), SmallSigma0(w15)), w16)
  }

  datatype Working = Working(a: Word, b: Word, c: Word, d: Word, e: Word, f: Word, g: Word, h: Word)

  function Round(v: Working, k: Word, w: Word): (r: Working) {
    var t1, t2 := T1(v.h, v.e, v.f, v.g, k, w), T2(v.a, v.b, v.c);
    Working(Add(t1, t2), v.a, v.b, v.c, Add(v.d, t1), v.e, v.f, v.g)
  }

  function T1(h: Word, e: Word, f: Word, g: Word, k: Word, w: Word): (t: Word) {
    Add(Add(Add(Add(h, BigSigma1(e)), Ch(e, f, g)), k), w)
  }

  function T2(a: Word, b: Word, c: Word): (t: Word) {
    Add(BigSigma0(a), Maj(a, b, c))
  }

  /** Addition modulo 2^32. */
  function Add(x: Word, y: Word): (z: Word) {
    x + y
  }

  /** The working variables after `t` rounds. */
  function Rounds(v: Working, block: seq<Byte>, t: nat): (r: Working)
    requires |block| == BLOCK && t <= 64
  {
    if t == 0 then v else Round(Rounds(v, block, t - 1), K[t - 1], Schedule(block, t - 1))
  }

  function Load(h: seq<Word>): (v: Working)
    requires |h| == 8
  {
    Working(h[0], h[1], h[2], h[3], h[4], h[5], h[6], h[7])
  }

  function AddInto(h: seq<Word>, v: Working): (r: seq<Word>)
    requires |h| == 8
    ensures |r| == 8
  {
    [Add(h[0], v.a), Add(h[1], v.b), Add(h[2], v.c), Add(h[3], v.d),
     Add(h[4], v.e), Add(h[5], v.f), Add(h[6], v.g), Add(h[7], v.h)]
  }

  function Compress(h: seq<Word>, block: seq<Byte>): (r: seq<Word>)
    requires |h| == 8 && |block| == BLOCK
    ensures |r| == 8
  {
    AddInto(h, Rounds(Load(h), block, 64))
  }

  /** The hash value after all the blocks of `m`. */
  function HashBlocks(m: seq<Byte>): (h: seq<Word>)
    requires |m| % BLOCK == 0
    ensures |h| == 8
  {
    if m == [] then H0 else Compress(HashBlocks(m[..|m| - BLOCK]), m[|m| - BLOCK..])
  }

  function Zeros(n: nat): (z: seq<Byte>)
    ensures |z| == n && forall i :: 0 <= i < n ==> z[i] == 0
  {
    seq(n, _ => 0)
  }

  function Pow256(k: nat): (p: nat)
    ensures p > 0
  {
    if k == 0 then 1 else 256 * Pow256(k - 1)
  }

  function NumberByte(n: nat, i: nat): (b: Byte) {
    (n / Pow256(i) % 256) as bv8
  }

  /** The length in bits as a 64-bit big-endian number. */
  function LengthField(bits: nat): (b: seq<Byte>)
    ensures |b| == 8
  {
    seq(8, i requires 0 <= i < 8 => NumberByte(bits % UINT64, 7 - i))
  }

  /** The number of zero bytes between the 0x80 byte and the length field. */
  function ZeroCount(length: nat): (k: nat) {
    (55 - length) % BLOCK
  }

  function Pad(m: seq<Byte>): (p: seq<Byte>)
    ensures |p| % BLOCK == 0
  {
    m + [0x80] + Zeros(ZeroCount(|m|)) + LengthField(8 * |m|)
  }

  /** Section 5.1.1 asks for the smallest such number. */
  lemma ZeroCountIsLeast(length: nat, k: nat)
    ensures (length + 1 + ZeroCount(length)) % BLOCK == 56
    ensures (length + 1 + k) % BLOCK == 56 ==> ZeroCount(length) <= k
  {
  }

  /** Byte `i` of a word, the most significant first. */
  function WordByte(w: Word, i: nat): (b: Byte)
    requires i < 4
  {
    ((w >> (24 - 8 * i)) & 0xff) as bv8
  }

  function Digest(h: seq<Word>): (d: seq<Byte>)
    requires |h| == 8
    ensures |d| == 32
  {
    seq(32, i requires 0 <= i < 32 => WordByte(h[i / 4], i % 4))
  }

  function Sha256(m: seq<Byte>): (d: seq<Byte>)
    ensures |d| == 32
  {
    Digest(HashBlocks(Pad(m)))
  }

  // ---------------------------------------------------------------------------
  // Laws
  // ---------------------------------------------------------------------------

  /** Four bytes side by side, as numbers. */
  lemma FourBytes(a: Byte, b: Byte, c: Byte, d: Byte)
    ensures ((a as bv32 << 24) | (b as bv32 << 16) | (c as bv32 << 8) | (d as bv32)) as int ==
            0x100_0000 * a as int + 0x1_0000 * b as int + 0x100 * c as int + d as int
  {
  }

  /** The first byte of a word in a block is the most significant one. */
  lemma WordAtIsBigEndian(block: seq<Byte>, t: nat)
    requires |block| == BLOCK && t < 16
    ensures WordAt(block, t) as int ==
            0x100_0000 * block[4 * t] as int + 0x1_0000 * block[4 * t + 1] as int +
            0x100 * block[4 * t + 2] as int + block[4 * t + 3] as int
  {
    FourBytes(block[4 * t], block[4 * t + 1], block[4 * t + 2], block[4 * t + 3]);
  }

  lemma BytesOfWord(w: Word, a: Byte, b: Byte, c: Byte, d: Byte)
    requires w == (a as bv32 << 24) | (b as bv32 << 16) | (c as bv32 << 8) | (d as bv32)
    ensures WordByte(w, 0) == a && WordByte(w, 1) == b && WordByte(w, 2) == c && WordByte(w, 3) == d
  {
  }

  lemma Parts(w: Word) returns (a: Byte, b: Byte, c: Byte, d: Byte)
    ensures w == (a as bv32 << 24) | (b as bv32 << 16) | (c as bv32 << 8) | (d as bv32)
  {
    a, b, c, d := (w >> 24) as bv8, ((w >> 16) & 0xff) as bv8, ((w >> 8) & 0xff) as bv8, (w & 0xff) as bv8;
  }

  /** The first byte of a word in the digest is the most significant one. */
  lemma WordByteIsBigEndian(w: Word)
    ensures w as int == 0x100_0000 * WordByte(w, 0) as int + 0x1_0000 * WordByte(w, 1) as int +
                        0x100 * WordByte(w, 2) as int + WordByte(w, 3) as int
  {
    hide WordByte;
    var a, b, c, d := Parts(w);
    BytesOfWord(w, a, b, c, d);
    FourBytes(a, b, c, d);
  }

  /** Bit by bit, the first argument chooses between the other two. */
  lemma ChChooses(x: Word, y: Word, z: Word)
    ensures x & Ch(x, y, z) == x & y && !x & Ch(x, y, z) == !x & z
  {
  }

  /** Bit by bit: what the first two agree on, and the third where they do not. */
  lemma MajVotes(x: Word, y: Word, z: Word)
    ensures !(x ^ y) & Maj(x, y, z) == !(x ^ y) & x && (x ^ y) & Maj(x, y, z) == (x ^ y) & z
  {
  }
}
