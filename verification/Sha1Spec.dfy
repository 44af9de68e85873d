/**
 SHA-1 as FIPS 180-4 defines it: the functions and constants of sections 4.1.1 and 4.2.1, the padding
 of section 5.1.1, the initial value of section 5.3.1 and the computation of section 6.1.2. Messages
 are strings of octets.
 */
module Sha1Spec {

  type Word = bv32
  type Octet = bv8

  /** The working variables a..e, and also a hash value H0..H4. */
  datatype Regs = Regs(a: Word, b: Word, c: Word, d: Word, e: Word)

  const INITIAL: Regs := Regs(0x67452301, 0xEFCDAB89, 0x98BADCFE, 0x10325476, 0xC3D2E1F0)

  function Rotl(x: Word, n: nat): Word
    requires n <= 32
  {
    (x << n) | (x >> (32 - n))
  }

  function Ch(x: Word, y: Word, z: Word): Word {
    (x & y) ^ (!x & z)
  }

  function Parity(x: Word, y: Word, z: Word): Word {
    x ^ y ^ z
  }

  function Maj(x: Word, y: Word, z: Word): Word {
    (x & y) ^ (x & z) ^ (y & z)
  }

  function F(t: nat, x: Word, y: Word, z: Word): Word
    requires t < 80
  {
    if t < 20 then Ch(x, y, z)
    else if t < 40 then Parity(x, y, z)
    else if t < 60 then Maj(x, y, z)
    else Parity(x, y, z)
  }

  function K(t: nat): Word
    requires t < 80
  {
    if t < 20 then 0x5A827999
    else if t < 40 then 0x6ED9EBA1
    else if t < 60 then 0x8F1BBCDC
    else 0xCA62C1D6
  }

  /** Four octets read as a word, most significant octet first. */
  function WordOf(b0: Octet, b1: Octet, b2: Octet, b3: Octet): Word {
    (b0 as Word << 24) | (b1 as Word << 16) | (b2 as Word << 8) | (b3 as Word)
  }

  /** A word written as four octets, most significant octet first. */
  function OctetsOf(w: Word): (b: seq<Octet>)
    ensures |b| == 4
  {
    [(w >> 24) as Octet, ((w >> 16) & 0xFF) as Octet, ((w >> 8) & 0xFF) as Octet, (w & 0xFF) as Octet]
  }

  function Mix(w3: Word, w8: Word, w14: Word, w16: Word): Word {
    Rotl(w3 ^ w8 ^ w14 ^ w16, 1)
  }

  /** The message schedule. */
  function W(block: seq<Octet>, t: nat): Word
    requires |block| == 64 && t < 80
  {
    if t < 16 then
      WordOf(block[4 * t], block[4 * t + 1], block[4 * t + 2], block[4 * t + 3])
    else
      Mix(W(block, t - 3), W(block, t - 8), W(block, t - 14), W(block, t - 16))
  }

  function Sum5(rot: Word, f: Word, e: Word, k: Word, w: Word): Word {
    rot + f + e + k + w
  }

  /** Step t of the computation. */
  function Round(r: Regs, f: Word, k: Word, w: Word): Regs {
    Regs(Sum5(Rotl(r.a, 5), f, r.e, k, w), r.a, Rotl(r.b, 30), r.c, r.d)
  }

  /** The working variables after the first t steps. */
  function Rounds(h: Regs, block: seq<Octet>, t: nat): Regs
    requires |block| == 64 && t <= 80
  {
    if t == 0 then h
    else
      var r := Rounds(h, block, t - 1);
      Round(r, F(t - 1, r.b, r.c, r.d), K(t - 1), W(block, t - 1))
  }

  lemma ScheduleStep(block: seq<Octet>, t: nat)
    requires |block| == 64 && 16 <= t < 80
    ensures W(block, t) == Mix(W(block, t - 3), W(block, t - 8), W(block, t - 14), W(block, t - 16))
  {
  }

  /** The exclusive or of four earlier words, turned left by one bit: the top bit comes in at the bottom. */
  lemma ScheduleBits(block: seq<Octet>, t: nat)
    requires |block| == 64 && 16 <= t < 80
    ensures var v := W(block, t - 3) ^ W(block, t - 8) ^ W(block, t - 14) ^ W(block, t - 16);
            W(block, t) & 1 == v >> 31 && W(block, t) >> 1 == v & 0x7FFF_FFFF
  {
    hide W, Mix;
    ScheduleStep(block, t);
    MixBits(W(block, t - 3), W(block, t - 8), W(block, t - 14), W(block, t - 16));
  }

  lemma MixBits(w3: Word, w8: Word, w14: Word, w16: Word)
    ensures var v := w3 ^ w8 ^ w14 ^ w16;
            Mix(w3, w8, w14, w16) & 1 == v >> 31 && Mix(w3, w8, w14, w16) >> 1 == v & 0x7FFF_FFFF
  {
  }

  lemma RoundsStep(h: Regs, block: seq<Octet>, t: nat)
    requires |block| == 64 && t < 80
    ensures var r := Rounds(h, block, t);
            Rounds(h, block, t + 1) == Round(r, F(t, r.b, r.c, r.d), K(t), W(block, t))
  {
    hide F, K, W, Round;
  }

  /** Addition modulo 2^32. */
  function Plus(x: Word, y: Word): Word {
    x + y
  }

  function Add(h: Regs, r: Regs): Regs {
    Regs(Plus(h.a, r.a), Plus(h.b, r.b), Plus(h.c, r.c), Plus(h.d, r.d), Plus(h.e, r.e))
  }

  function Compress(h: Regs, block: seq<Octet>): Regs
    requires |block| == 64
  {
    Add(h, Rounds(h, block, 80))
  }

  /** The hash value after all complete blocks of m. */
  function HashBlocks(h: Regs, m: seq<Octet>): Regs
    requires |m| % 64 == 0
  {
    if m == [] then h else Compress(HashBlocks(h, m[..|m| - 64]), m[|m| - 64..])
  }

  /** The hash value of one run of blocks is where the next run starts. */
  lemma {:induction false} HashBlocksAppend(h: Regs, m: seq<Octet>, n: seq<Octet>)
    requires |m| % 64 == 0 && |n| % 64 == 0
    ensures HashBlocks(h, m + n) == HashBlocks(HashBlocks(h, m), n)
    decreases |n|
  {
    hide Compress;
    if n == [] {
      assert m + n == m;
    } else {
      var most, last := n[..|n| - 64], n[|n| - 64..];
      HashBlocksAppend(h, m, most);
      assert (m + n)[..|m + n| - 64] == m + most && (m + n)[|m + n| - 64..] == last;
    }
  }

  // ----- padding

  /** The number of zero octets between the one bit and the length; see `LeastZeros`. */
  function ZeroCount(n: nat): nat {
    (119 - n % 64) % 64
  }

  lemma Mod512(q: nat, x: nat)
    ensures (512 * q + x) % 512 == x % 512
  {
  }

  /**
   With l = 8n message bits and the k = 8 * ZeroCount(n) + 7 zero bits that follow the one bit,
   l + 1 + k is congruent to 448 modulo 512, and no smaller k is.
   */
  lemma LeastZeros(n: nat, k: nat)
    ensures (8 * n + 1 + (8 * ZeroCount(n) + 7)) % 512 == 448
    ensures (8 * n + 1 + k) % 512 == 448 ==> 8 * ZeroCount(n) + 7 <= k
  {
    var q, r := n / 64, n % 64;
    var z := if r <= 55 then 55 - r else 119 - r;
    assert n == 64 * q + r && ZeroCount(n) == z;
    Mod512(q, 8 * r + 1 + (8 * z + 7));
    Mod512(q, 8 * r + 1 + k);
    if k < 8 * z + 7 {
      assert 8 * r + 1 + k < if r <= 55 then 448 else 960;
    }
  }

  lemma PaddedLength(n: nat)
    ensures (n + 1 + ZeroCount(n) + 8) % 64 == 0
  {
    var q, r := n / 64, n % 64;
    assert n == 64 * q + r;
    assert (n + 1 + ZeroCount(n) + 8) % 64 == (r + 9 + ZeroCount(n)) % 64;
  }

  function Zeros(k: nat): (z: seq<Octet>)
    ensures |z| == k
  {
    if k == 0 then [] else Zeros(k - 1) + [0]
  }

  /** A number as a 64-bit block, most significant octet first. */
  function Length64(bits: nat): (b: seq<Octet>)
    requires bits < 0x1_0000_0000_0000_0000
    ensures |b| == 8
  {
    OctetsOf((bits / 0x1_0000_0000) as Word) + OctetsOf((bits % 0x1_0000_0000) as Word)
  }

  /** A message followed by its padding, the length field holding the given number of bits. */
  function Padded(m: seq<Octet>, bits: nat): (p: seq<Octet>)
    requires bits < 0x1_0000_0000_0000_0000
    ensures |p| % 64 == 0
  {
    PaddedLength(|m|);
    m + [0x80] + Zeros(ZeroCount(|m|)) + Length64(bits)
  }

  lemma {:induction false} ZerosAt(k: nat, i: nat)
    requires i < k
    ensures Zeros(k)[i] == 0
  {
    if i < k - 1 {
      ZerosAt(k - 1, i);
    }
  }

  /** A padded message is the shortest run of blocks with room for one octet and the length at its end. */
  lemma PaddedSize(m: seq<Octet>, bits: nat)
    requires bits < 0x1_0000_0000_0000_0000
    ensures |Padded(m, bits)| % 64 == 0 && |m| + 9 <= |Padded(m, bits)| < |m| + 73
    ensures Padded(m, bits)[|Padded(m, bits)| - 8..] == Length64(bits)
  {
    hide Length64;
  }

  /** What stands where before the length. */
  lemma PaddedLayout(m: seq<Octet>, bits: nat, i: nat)
    requires bits < 0x1_0000_0000_0000_0000 && i < |Padded(m, bits)| - 8
    ensures Padded(m, bits)[i] == if i < |m| then m[i] else if i == |m| then 0x80 else 0
  {
    hide Length64;
    if |m| < i {
      ZerosAt(ZeroCount(|m|), i - |m| - 1);
    }
  }

  function DigestOf(h: Regs): (d: seq<Octet>)
    ensures |d| == 20
  {
    OctetsOf(h.a) + OctetsOf(h.b) + OctetsOf(h.c) + OctetsOf(h.d) + OctetsOf(h.e)
  }

  /** The SHA-1 message digest. */
  function Sha1(m: seq<Octet>): (d: seq<Octet>)
    requires |m| < 0x2000_0000_0000_0000
    ensures |d| == 20
  {
    DigestOf(HashBlocks(INITIAL, Padded(m, 8 * |m|)))
  }
}
