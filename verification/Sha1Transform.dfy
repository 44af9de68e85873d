/**
 The compression function of sha1.c in both of its forms: the unrolled one, in which the five
 registers change roles from line to line instead of being moved, and the CONFIG_SMALL loop.
 */
module Sha1Transform {
  import opened Sha1Spec

  // ----- byte order

  function Bswap32(x0: Word): Word {
    var x := ((x0 << 8) & 0xFF00FF00) | ((x0 >> 8) & 0x00FF00FF);
    (x >> 16) | (x << 16)
  }

  /** Four octets read natively, least significant octet first. */
  function NativeWord(b0: Octet, b1: Octet, b2: Octet, b3: Octet): Word {
    (b0 as Word) | (b1 as Word << 8) | (b2 as Word << 16) | (b3 as Word << 24)
  }

  /** A word stored natively. */
  function NativeOctets(w: Word): (b: seq<Octet>)
    ensures |b| == 4
  {
    [(w & 0xFF) as Octet, ((w >> 8) & 0xFF) as Octet, ((w >> 16) & 0xFF) as Octet, (w >> 24) as Octet]
  }

  /** `be2me_32` turns a native load into a big-endian one, and back for a store. */
  lemma BswapLoads(b0: Octet, b1: Octet, b2: Octet, b3: Octet)
    ensures Bswap32(NativeWord(b0, b1, b2, b3)) == WordOf(b0, b1, b2, b3)
  {
  }

  lemma BswapStores(w: Word)
    ensures NativeOctets(Bswap32(w)) == OctetsOf(w)
  {
  }

  // ----- the expressions in the macros

  /** `((w&(x^y))^y)` */
  function Choose(w: Word, x: Word, y: Word): Word {
    (w & (x ^ y)) ^ y
  }

  /** `( w^x     ^y)` */
  function Xor(w: Word, x: Word, y: Word): Word {
    w ^ x ^ y
  }

  /** `(((w|x)&y)|(w&x))` */
  function Majority(w: Word, x: Word, y: Word): Word {
    ((w | x) & y) | (w & x)
  }

  /** `z += f + blk(i) + k + rol(v,5)` */
  function Accumulate(z: Word, f: Word, blk: Word, k: Word, rot: Word): Word {
    z + (f + blk + k + rot)
  }

  lemma ChooseBits(x: Word, y: Word, z: Word)
    ensures (x & (y ^ z)) ^ z == (x & y) ^ (!x & z)
  {
  }

  lemma MajorityBits(x: Word, y: Word, z: Word)
    ensures ((x | y) & z) | (x & y) == (x & y) ^ (x & z) ^ (y & z)
  {
  }

  lemma ChooseIsCh(x: Word, y: Word, z: Word)
    ensures Choose(x, y, z) == Ch(x, y, z)
  {
    ChooseBits(x, y, z);
  }

  lemma MajorityIsMaj(x: Word, y: Word, z: Word)
    ensures Majority(x, y, z) == Maj(x, y, z)
  {
    MajorityBits(x, y, z);
  }

  lemma XorIsParity(x: Word, y: Word, z: Word)
    ensures Xor(x, y, z) == Parity(x, y, z)
  {
  }

  lemma AccumulateIsSum(z: Word, f: Word, blk: Word, k: Word, rot: Word)
    ensures Accumulate(z, f, blk, k, rot) == Sum5(rot, f, z, k, blk)
  {
  }

  /** The macros add the five terms of the standard in another order and leave the moves out. */
  lemma MacroStep(v: Word, w: Word, x: Word, y: Word, z: Word, f: Word, k: Word, blk: Word)
    ensures Round(Regs(v, w, x, y, z), f, k, blk)
         == Regs(Accumulate(z, f, blk, k, Rotl(v, 5)), v, Rotl(w, 30), x, y)
  {
    hide Rotl, Accumulate, Sum5;
    AccumulateIsSum(z, f, blk, k, Rotl(v, 5));
  }

  function RegsOf(s: seq<Word>): Regs
    requires |s| == 5
  {
    Regs(s[0], s[1], s[2], s[3], s[4])
  }

  /** The first n entries of `block` are the message schedule. */
  ghost predicate Scheduled(block: seq<Word>, buffer: seq<Octet>, n: nat)
    requires |buffer| == 64
  {
    |block| == 80 && n <= 80 && forall j :: 0 <= j < n ==> block[j] == W(buffer, j)
  }

  /** `blk0(i)`. */
  method Blk0(block: array<Word>, buffer: seq<Octet>, i: nat) returns (w: Word)
    requires |buffer| == 64 && i < 16 && Scheduled(block[..], buffer, i)
    modifies block
    ensures Scheduled(block[..], buffer, i + 1) && w == W(buffer, i)
  {
    hide Bswap32, NativeWord, WordOf;
    var word := NativeWord(buffer[4 * i], buffer[4 * i + 1], buffer[4 * i + 2], buffer[4 * i + 3]);
    BswapLoads(buffer[4 * i], buffer[4 * i + 1], buffer[4 * i + 2], buffer[4 * i + 3]);
    block[i] := Bswap32(word);
    w := block[i];
  }

  /** `blk(i)`. */
  method Blk(block: array<Word>, ghost buffer: seq<Octet>, i: nat) returns (w: Word)
    requires |buffer| == 64 && 16 <= i < 80 && Scheduled(block[..], buffer, i)
    modifies block
    ensures Scheduled(block[..], buffer, i + 1) && w == W(buffer, i)
  {
    hide Mix, W;
    ScheduleStep(buffer, i);
    block[i] := Mix(block[i - 3], block[i - 8], block[i - 14], block[i - 16]);
    w := block[i];
  }

  // ----- R0 to R4

  // Each takes the registers in their present roles, v being a and z being e, and gives back the
  // two it changes. Read as (z, v, w, x, y), the registers have then gone through one more step.

  method R0(v: Word, w: Word, x: Word, y: Word, z: Word, i: nat,
            block: array<Word>, buffer: seq<Octet>, ghost h: Regs)
    returns (z': Word, w': Word)
    requires |buffer| == 64 && i < 16 && Scheduled(block[..], buffer, i)
    requires Rounds(h, buffer, i) == Regs(v, w, x, y, z)
    modifies block
    ensures Scheduled(block[..], buffer, i + 1)
    ensures Rounds(h, buffer, i + 1) == Regs(z', v, w', x, y)
  {
    hide Rotl, W, Scheduled, Rounds, Round, Ch, Parity, Maj, Choose, Xor, Majority, Accumulate;
    var blk := Blk0(block, buffer, i);
    z' := Accumulate(z, Choose(w, x, y), blk, 0x5A827999, Rotl(v, 5));
    w' := Rotl(w, 30);
    RoundsStep(h, buffer, i);
    ChooseIsCh(w, x, y);
    MacroStep(v, w, x, y, z, Choose(w, x, y), 0x5A827999, blk);
  }

  method R1(v: Word, w: Word, x: Word, y: Word, z: Word, i: nat,
            block: array<Word>, ghost buffer: seq<Octet>, ghost h: Regs)
    returns (z': Word, w': Word)
    requires |buffer| == 64 && 16 <= i < 20 && Scheduled(block[..], buffer, i)
    requires Rounds(h, buffer, i) == Regs(v, w, x, y, z)
    modifies block
    ensures Scheduled(block[..], buffer, i + 1)
    ensures Rounds(h, buffer, i + 1) == Regs(z', v, w', x, y)
  {
    hide Rotl, W, Scheduled, Rounds, Round, Ch, Parity, Maj, Choose, Xor, Majority, Accumulate;
    var blk := Blk(block, buffer, i);
    z' := Accumulate(z, Choose(w, x, y), blk, 0x5A827999, Rotl(v, 5));
    w' := Rotl(w, 30);
    RoundsStep(h, buffer, i);
    ChooseIsCh(w, x, y);
    MacroStep(v, w, x, y, z, Choose(w, x, y), 0x5A827999, blk);
  }

  method R2(v: Word, w: Word, x: Word, y: Word, z: Word, i: nat,
            block: array<Word>, ghost buffer: seq<Octet>, ghost h: Regs)
    returns (z': Word, w': Word)
    requires |buffer| == 64 && 20 <= i < 40 && Scheduled(block[..], buffer, i)
    requires Rounds(h, buffer, i) == Regs(v, w, x, y, z)
    modifies block
    ensures Scheduled(block[..], buffer, i + 1)
    ensures Rounds(h, buffer, i + 1) == Regs(z', v, w', x, y)
  {
    hide Rotl, W, Scheduled, Rounds, Round, Ch, Parity, Maj, Choose, Xor, Majority, Accumulate;
    var blk := Blk(block, buffer, i);
    z' := Accumulate(z, Xor(w, x, y), blk, 0x6ED9EBA1, Rotl(v, 5));
    w' := Rotl(w, 30);
    RoundsStep(h, buffer, i);
    XorIsParity(w, x, y);
    MacroStep(v, w, x, y, z, Xor(w, x, y), 0x6ED9EBA1, blk);
  }

  method R3(v: Word, w: Word, x: Word, y: Word, z: Word, i: nat,
            block: array<Word>, ghost buffer: seq<Octet>, ghost h: Regs)
    returns (z': Word, w': Word)
    requires |buffer| == 64 && 40 <= i < 60 && Scheduled(block[..], buffer, i)
    requires Rounds(h, buffer, i) == Regs(v, w, x, y, z)
    modifies block
    ensures Scheduled(block[..], buffer, i + 1)
    ensures Rounds(h, buffer, i + 1) == Regs(z', v, w', x, y)
  {
    hide Rotl, W, Scheduled, Rounds, Round, Ch, Parity, Maj, Choose, Xor, Majority, Accumulate;
    var blk := Blk(block, buffer, i);
    z' := Accumulate(z, Majority(w, x, y), blk, 0x8F1BBCDC, Rotl(v, 5));
    w' := Rotl(w, 30);
    RoundsStep(h, buffer, i);
    MajorityIsMaj(w, x, y);
    MacroStep(v, w, x, y, z, Majority(w, x, y), 0x8F1BBCDC, blk);
  }

  method R4(v: Word, w: Word, x: Word, y: Word, z: Word, i: nat,
            block: array<Word>, ghost buffer: seq<Octet>, ghost h: Regs)
    returns (z': Word, w': Word)
    requires |buffer| == 64 && 60 <= i < 80 && Scheduled(block[..], buffer, i)
    requires Rounds(h, buffer, i) == Regs(v, w, x, y, z)
    modifies block
    ensures Scheduled(block[..], buffer, i + 1)
    ensures Rounds(h, buffer, i + 1) == Regs(z', v, w', x, y)
  {
    hide Rotl, W, Scheduled, Rounds, Round, Ch, Parity, Maj, Choose, Xor, Majority, Accumulate;
    var blk := Blk(block, buffer, i);
    z' := Accumulate(z, Xor(w, x, y), blk, 0xCA62C1D6, Rotl(v, 5));
    w' := Rotl(w, 30);
    RoundsStep(h, buffer, i);
    XorIsParity(w, x, y);
    MacroStep(v, w, x, y, z, Xor(w, x, y), 0xCA62C1D6, blk);
  }

  // ----- transform

  method AddInto(state: array<Word>, a: Word, b: Word, c: Word, d: Word, e: Word)
    requires state.Length == 5
    modifies state
    ensures RegsOf(state[..]) == Add(RegsOf(old(state[..])), Regs(a, b, c, d, e))
  {
    hide Plus;
    state[0] := Plus(state[0], a);
    state[1] := Plus(state[1], b);
    state[2] := Plus(state[2], c);
    state[3] := Plus(state[3], d);
    state[4] := Plus(state[4], e);
  }

  /** The registers after the first n steps, the schedule being filled in up to there. */
  ghost predicate Reached(block: seq<Word>, buffer: seq<Octet>, h: Regs, n: nat, r: Regs)
    requires |buffer| == 64
  {
    Scheduled(block, buffer, n) && Rounds(h, buffer, n) == r
  }

  /** Steps 0 to 19. */
  method FirstTwenty(a0: Word, b0: Word, c0: Word, d0: Word, e0: Word,
                     block: array<Word>, buffer: seq<Octet>, ghost h: Regs)
    returns (a: Word, b: Word, c: Word, d: Word, e: Word)
    requires |buffer| == 64 && Reached(block[..], buffer, h, 0, Regs(a0, b0, c0, d0, e0))
    modifies block
    ensures Reached(block[..], buffer, h, 20, Regs(a, b, c, d, e))
  {
    hide Rounds, Scheduled;
    a, b, c, d, e := a0, b0, c0, d0, e0;
    var i := 0;
    while i < 15
      invariant i % 5 == 0 && 0 <= i <= 15
      invariant Reached(block[..], buffer, h, i, Regs(a, b, c, d, e))
    {
      e, b := R0(a, b, c, d, e, i, block, buffer, h);
      d, a := R0(e, a, b, c, d, i + 1, block, buffer, h);
      c, e := R0(d, e, a, b, c, i + 2, block, buffer, h);
      b, d := R0(c, d, e, a, b, i + 3, block, buffer, h);
      a, c := R0(b, c, d, e, a, i + 4, block, buffer, h);
      i := i + 5;
    }
    e, b := R0(a, b, c, d, e, 15, block, buffer, h);
    d, a := R1(e, a, b, c, d, 16, block, buffer, h);
    c, e := R1(d, e, a, b, c, 17, block, buffer, h);
    b, d := R1(c, d, e, a, b, 18, block, buffer, h);
    a, c := R1(b, c, d, e, a, 19, block, buffer, h);
  }

  /** Steps 20 to 39. */
  method SecondTwenty(a0: Word, b0: Word, c0: Word, d0: Word, e0: Word,
                    block: array<Word>, ghost buffer: seq<Octet>, ghost h: Regs)
    returns (a: Word, b: Word, c: Word, d: Word, e: Word)
    requires |buffer| == 64 && Reached(block[..], buffer, h, 20, Regs(a0, b0, c0, d0, e0))
    modifies block
    ensures Reached(block[..], buffer, h, 40, Regs(a, b, c, d, e))
  {
    hide Rounds, Scheduled;
    a, b, c, d, e := a0, b0, c0, d0, e0;
    var i := 20;
    while i < 40
      invariant i % 5 == 0 && 20 <= i <= 40
      invariant Reached(block[..], buffer, h, i, Regs(a, b, c, d, e))
    {
      e, b := R2(a, b, c, d, e, i, block, buffer, h);
      d, a := R2(e, a, b, c, d, i + 1, block, buffer, h);
      c, e := R2(d, e, a, b, c, i + 2, block, buffer, h);
      b, d := R2(c, d, e, a, b, i + 3, block, buffer, h);
      a, c := R2(b, c, d, e, a, i + 4, block, buffer, h);
      i := i + 5;
    }
  }

  /** Steps 40 to 59. */
  method ThirdTwenty(a0: Word, b0: Word, c0: Word, d0: Word, e0: Word,
                    block: array<Word>, ghost buffer: seq<Octet>, ghost h: Regs)
    returns (a: Word, b: Word, c: Word, d: Word, e: Word)
    requires |buffer| == 64 && Reached(block[..], buffer, h, 40, Regs(a0, b0, c0, d0, e0))
    modifies block
    ensures Reached(block[..], buffer, h, 60, Regs(a, b, c, d, e))
  {
    hide Rounds, Scheduled;
    a, b, c, d, e := a0, b0, c0, d0, e0;
    var i := 40;
    while i < 60
      invariant i % 5 == 0 && 40 <= i <= 60
      invariant Reached(block[..], buffer, h, i, Regs(a, b, c, d, e))
    {
      e, b := R3(a, b, c, d, e, i, block, buffer, h);
      d, a := R3(e, a, b, c, d, i + 1, block, buffer, h);
      c, e := R3(d, e, a, b, c, i + 2, block, buffer, h);
      b, d := R3(c, d, e, a, b, i + 3, block, buffer, h);
      a, c := R3(b, c, d, e, a, i + 4, block, buffer, h);
      i := i + 5;
    }
  }

  /** Steps 60 to 79. */
  method LastTwenty(a0: Word, b0: Word, c0: Word, d0: Word, e0: Word,
                    block: array<Word>, ghost buffer: seq<Octet>, ghost h: Regs)
    returns (a: Word, b: Word, c: Word, d: Word, e: Word)
    requires |buffer| == 64 && Reached(block[..], buffer, h, 60, Regs(a0, b0, c0, d0, e0))
    modifies block
    ensures Reached(block[..], buffer, h, 80, Regs(a, b, c, d, e))
  {
    hide Rounds, Scheduled;
    a, b, c, d, e := a0, b0, c0, d0, e0;
    var i := 60;
    while i < 80
      invariant i % 5 == 0 && 60 <= i <= 80
      invariant Reached(block[..], buffer, h, i, Regs(a, b, c, d, e))
    {
      e, b := R4(a, b, c, d, e, i, block, buffer, h);
      d, a := R4(e, a, b, c, d, i + 1, block, buffer, h);
      c, e := R4(d, e, a, b, c, i + 2, block, buffer, h);
      b, d := R4(c, d, e, a, b, i + 3, block, buffer, h);
      a, c := R4(b, c, d, e, a, i + 4, block, buffer, h);
      i := i + 5;
    }
  }

  /** The unrolled `transform` on one 64-byte block. */
  method Transform(state: array<Word>, buffer: seq<Octet>)
    requires state.Length == 5 && |buffer| == 64
    modifies state
    ensures RegsOf(state[..]) == Compress(RegsOf(old(state[..])), buffer)
  {
    hide Rounds, Scheduled, Add;
    ghost var h := RegsOf(state[..]);
    var block := new Word[80];
    var a, b, c, d, e := state[0], state[1], state[2], state[3], state[4];
    NothingYet(block[..], buffer, h);
    a, b, c, d, e := FirstTwenty(a, b, c, d, e, block, buffer, h);
    a, b, c, d, e := SecondTwenty(a, b, c, d, e, block, buffer, h);
    a, b, c, d, e := ThirdTwenty(a, b, c, d, e, block, buffer, h);
    a, b, c, d, e := LastTwenty(a, b, c, d, e, block, buffer, h);
    AddInto(state, a, b, c, d, e);
  }

  lemma NothingYet(block: seq<Word>, buffer: seq<Octet>, h: Regs)
    requires |block| == 80 && |buffer| == 64
    ensures Reached(block, buffer, h, 0, h)
  {
  }

  /** The value of t in the CONFIG_SMALL loop, which adds to it in three stages. */
  function SmallSum(blk: Word, e: Word, rot: Word, f: Word, k: Word): Word {
    blk + (e + rot) + (f + k)
  }

  lemma SmallSumIsSum(blk: Word, e: Word, rot: Word, f: Word, k: Word)
    ensures SmallSum(blk, e, rot, f, k) == Sum5(rot, f, e, k, blk)
  {
  }

  lemma SmallStep(a: Word, b: Word, c: Word, d: Word, e: Word, f: Word, k: Word, blk: Word)
    ensures Round(Regs(a, b, c, d, e), f, k, blk) == Regs(SmallSum(blk, e, Rotl(a, 5), f, k), a, Rotl(b, 30), c, d)
  {
    hide Rotl, SmallSum, Sum5;
    SmallSumIsSum(blk, e, Rotl(a, 5), f, k);
  }

  /** The CONFIG_SMALL `transform` computes the same. */
  method TransformSmall(state: array<Word>, buffer: seq<Octet>)
    requires state.Length == 5 && |buffer| == 64
    modifies state
    ensures RegsOf(state[..]) == Compress(RegsOf(old(state[..])), buffer)
  {
    hide Rounds, Scheduled, W, Rotl, Round, Ch, Parity, Maj, Choose, Xor, Majority, SmallSum, Add;
    ghost var h := RegsOf(state[..]);
    var block := new Word[80];
    var a, b, c, d, e := state[0], state[1], state[2], state[3], state[4];
    NothingYet(block[..], buffer, h);
    var i := 0;
    while i < 80
      invariant 0 <= i <= 80
      invariant Reached(block[..], buffer, h, i, Regs(a, b, c, d, e))
      invariant state[..] == old(state[..])
    {
      var blk;
      if i < 16 {
        blk := Blk0(block, buffer, i);
      } else {
        blk := Blk(block, buffer, i);
      }
      var f, k;
      if i < 40 {
        if i < 20 {
          ChooseIsCh(b, c, d);
          f, k := Choose(b, c, d), 0x5A827999;
        } else {
          XorIsParity(b, c, d);
          f, k := Xor(b, c, d), 0x6ED9EBA1;
        }
      } else {
        if i < 60 {
          MajorityIsMaj(b, c, d);
          f, k := Majority(b, c, d), 0x8F1BBCDC;
        } else {
          XorIsParity(b, c, d);
          f, k := Xor(b, c, d), 0xCA62C1D6;
        }
      }
      var t := SmallSum(blk, e, Rotl(a, 5), f, k);
      RoundsStep(h, buffer, i);
      SmallStep(a, b, c, d, e, f, k, blk);
      e := d;
      d := c;
      c := Rotl(b, 30);
      b := a;
      a := t;
      i := i + 1;
    }
    AddInto(state, a, b, c, d, e);
  }
}
