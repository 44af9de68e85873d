/**
 The variable-length integers of `HtsInt`: an int64 is reinterpreted as a uint64 and written
 little-endian without its high-order zero bytes.
 */
module IntCodec {
  import opened Words

  /** The cast from int64 to uint64. */
  function ToU64(v: Int64): (u: nat)
    ensures u < TWO_64
  {
    if v < 0 then v + TWO_64 else v
  }

  /** The cast from uint64 to int64. */
  function ToInt64(u: nat): Int64
    requires u < TWO_64
  {
    if u < TWO_64 / 2 then u else u - TWO_64
  }

  /** Little-endian bytes of a number, none of them a high-order zero. */
  function MinimalLe(u: nat): (b: Bytes)
    ensures u == 0 <==> b == []
  {
    if u == 0 then [] else [u % 0x100] + MinimalLe(u / 0x100)
  }

  /** The bytes `HtsInt::Serialize` writes. */
  function IntBytes(v: Int64): Bytes {
    MinimalLe(ToU64(v))
  }

  /** The number the parsing constructor of `HtsInt` reads: at most eight bytes are used. */
  function ReadInt(b: Bytes): Int64 {
    var len := if |b| > 8 then 8 else |b|;
    FromLeBound(b[..len]);
    Pow256Monotonic(len, 8);
    Pow256Of4And8();
    ToInt64(FromLe(b[..len]))
  }

  lemma ReadShort(b: Bytes)
    requires |b| <= 8
    ensures FromLe(b) < TWO_64 && ReadInt(b) == ToInt64(FromLe(b))
  {
    assert b[..|b|] == b;
    FromLeBound(b);
    Pow256Monotonic(|b|, 8);
    Pow256Of4And8();
  }

  lemma {:induction false} Pow256Monotonic(m: nat, n: nat)
    requires m <= n
    ensures Pow256(m) <= Pow256(n)
  {
    if m < n {
      Pow256Monotonic(m, n - 1);
    }
  }

  /** How many bytes a number needs. */
  lemma {:induction false} MinimalLength(u: nat, n: nat)
    requires u < Pow256(n)
    ensures |MinimalLe(u)| <= n
  {
    if u != 0 {
      assert u / 0x100 < Pow256(n - 1);
      MinimalLength(u / 0x100, n - 1);
    }
  }

  lemma {:induction false} FromMinimal(u: nat)
    ensures FromLe(MinimalLe(u)) == u
  {
    if u != 0 {
      FromMinimal(u / 0x100);
      assert MinimalLe(u)[1..] == MinimalLe(u / 0x100);
    }
  }

  /** Write then read is the identity on every int64, in at most eight bytes. */
  lemma IntRoundTrip(v: Int64)
    ensures |IntBytes(v)| <= 8 && (v == 0 <==> IntBytes(v) == [])
    ensures ReadInt(IntBytes(v)) == v
  {
    Pow256Of4And8();
    MinimalLength(ToU64(v), 8);
    FromMinimal(ToU64(v));
    assert IntBytes(v)[..|IntBytes(v)|] == IntBytes(v);
  }

  /** The payload without its high-order zero bytes. */
  function StripHigh(b: Bytes): Bytes {
    if b != [] && b[|b| - 1] == 0 then StripHigh(b[..|b| - 1]) else b
  }

  lemma {:induction false} FromLeAppend(b: Bytes, d: byte)
    ensures FromLe(b + [d]) == FromLe(b) + Pow256(|b|) * d
  {
    if b == [] {
      assert b + [d] == [d];
    } else {
      assert (b + [d])[1..] == b[1..] + [d];
      FromLeAppend(b[1..], d);
    }
  }

  /** A payload with no high-order zero byte is the minimal writing of its number. */
  lemma {:induction false} MinimalOfStripped(b: Bytes)
    requires b != [] ==> b[|b| - 1] != 0
    ensures MinimalLe(FromLe(b)) == b
  {
    if b != [] {
      var rest := b[1..];
      if rest == [] {
        assert FromLe(rest) == 0;
      } else {
        assert rest[|rest| - 1] == b[|b| - 1];
      }
      MinimalOfStripped(rest);
      Digit(FromLe(rest), b[0]);
      assert FromLe(rest) == 0 ==> rest == [];
      assert b == [b[0]] + rest;
    }
  }

  lemma {:induction false} StripHighKeepsValue(b: Bytes)
    ensures FromLe(StripHigh(b)) == FromLe(b)
    ensures |StripHigh(b)| <= |b|
    ensures StripHigh(b) != [] ==> StripHigh(b)[|StripHigh(b)| - 1] != 0
    decreases |b|
  {
    if b != [] && b[|b| - 1] == 0 {
      FromLeAppend(b[..|b| - 1], 0);
      assert b == b[..|b| - 1] + [0];
      StripHighKeepsValue(b[..|b| - 1]);
    }
  }

  lemma CastsInvert(u: nat)
    requires u < TWO_64
    ensures ToU64(ToInt64(u)) == u
  {
  }

  /** Re-encoding what was read strips exactly the high-order zero bytes of the payload used. */
  lemma ReencodeStrips(b: Bytes)
    ensures IntBytes(ReadInt(b)) == StripHigh(if |b| > 8 then b[..8] else b)
  {
    var used := if |b| > 8 then b[..8] else b;
    assert used == b[..if |b| > 8 then 8 else |b|];
    FromLeBound(used);
    Pow256Monotonic(|used|, 8);
    Pow256Of4And8();
    CastsInvert(FromLe(used));
    StripHighKeepsValue(used);
    MinimalOfStripped(StripHigh(used));
  }

  lemma HighZero(b: Bytes)
    requires |b| < 8
    ensures ReadInt(b + [0]) == ReadInt(b)
  {
    ReadShort(b);
    ReadShort(b + [0]);
    FromLeAppend(b, 0);
  }

  lemma EightDigits(b: Bytes)
    requires |b| == 8
    ensures FromLe(b) == FromLe(b[..4]) + 0x1_0000_0000 * FromLe(b[4..])
    ensures FromLe(b[..4]) == b[0] as int + 0x100 * b[1] as int + 0x1_0000 * b[2] as int + 0x100_0000 * b[3] as int
    ensures FromLe(b[4..]) == b[4] as int + 0x100 * b[5] as int + 0x1_0000 * b[6] as int + 0x100_0000 * b[7] as int
  {
    hide FromLe, Pow256;
    FromLeSplit(b, 4);
    Pow256Of4And8();
    FourDigits(b[..4]);
    FourDigits(b[4..]);
  }

  /**
   What a payload of eight bytes means: two's complement, least significant byte first. By `HighZero`
   a shorter one means the same as with zero bytes behind it.
   */
  lemma ReadPlaceValues(b: Bytes)
    requires |b| == 8
    ensures var low := b[0] as int + 0x100 * b[1] as int + 0x1_0000 * b[2] as int + 0x100_0000 * b[3] as int;
            var high := b[4] as int + 0x100 * b[5] as int + 0x1_0000 * b[6] as int + 0x100_0000 * b[7] as int;
            ReadInt(b) == low + 0x1_0000_0000 * (if b[7] < 0x80 then high else high - 0x1_0000_0000)
  {
    hide FromLe;
    ReadShort(b);
    EightDigits(b);
  }

  lemma ShiftSum(d: int, y: int, p: int, x: int)
    ensures d + 0x100 * (y + p * x) == d + 0x100 * y + 0x100 * p * x
  {
  }

  lemma {:induction false} FromLeSplit(b: Bytes, n: nat)
    requires n <= |b|
    ensures FromLe(b) == FromLe(b[..n]) + Pow256(n) * FromLe(b[n..])
  {
    if n == 0 {
      assert b[0..] == b;
    } else {
      FromLeSplit(b[1..], n - 1);
      assert b[..n][1..] == b[1..n] && b[1..n] == b[1..][..n - 1];
      assert b[1..][n - 1..] == b[n..];
      ShiftSum(b[0], FromLe(b[1..n]), Pow256(n - 1), FromLe(b[n..]));
    }
  }

  lemma ModUnique(q: nat, r: nat)
    requires r < TWO_64
    ensures (TWO_64 * q + r) % TWO_64 == r
  {
  }

  lemma LongPayloadModulo(b: Bytes)
    requires |b| > 8
    ensures FromLe(b) % TWO_64 == FromLe(b[..8])
  {
    hide FromLe;
    FromLeSplit(b, 8);
    FromLeBound(b[..8]);
    Pow256Of4And8();
    ModUnique(FromLe(b[8..]), FromLe(b[..8]));
  }

  /** A payload of any length is read modulo 2^64. */
  lemma ReadModulo(b: Bytes)
    ensures ReadInt(b) == ToInt64(FromLe(b) % TWO_64)
  {
    hide FromLe, Pow256;
    if |b| > 8 {
      LongPayloadModulo(b);
    } else {
      assert b[..|b|] == b;
      FromLeBound(b);
      Pow256Monotonic(|b|, 8);
      Pow256Of4And8();
    }
  }
}
