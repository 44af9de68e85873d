/**
 Bytes and 32-bit words as the client keeps them in memory on a little-endian host, and the
 byte reversal of common.cpp that every length field passes through.
 */
module Words {

  const TWO_32: int := 0x1_0000_0000
  const TWO_64: int := 0x1_0000_0000_0000_0000

  type byte = b: int | 0 <= b < 0x100
  type Bytes = seq<byte>
  type U32 = w: int | 0 <= w < 0x1_0000_0000
  type Int64 = v: int | -0x8000_0000_0000_0000 <= v < 0x8000_0000_0000_0000

  datatype Option<+T> = None | Some(value: T)

  /** A string literal as the bytes a message holds. */
  function Ascii(s: string): (b: Bytes)
    requires forall i :: 0 <= i < |s| ==> s[i] < 128 as char
    ensures |b| == |s|
  {
    seq(|s|, i requires 0 <= i < |s| => s[i] as int)
  }

  /** The bytes are the codes of the characters. */
  ghost predicate Spelt(b: Bytes, s: string) {
    |b| == |s| && forall i :: 0 <= i < |s| ==> b[i] == s[i] as int
  }

  lemma SpeltExactly(b: Bytes, s: string)
    requires forall i :: 0 <= i < |s| ==> s[i] < 128 as char
    ensures Spelt(b, s) <==> b == Ascii(s)
  {
  }

  // ----- little-endian numbers

  /** The n lowest bytes of a number, least significant first. */
  function ToLe(w: nat, n: nat): (b: Bytes)
    ensures |b| == n
  {
    if n == 0 then [] else [w % 0x100] + ToLe(w / 0x100, n - 1)
  }

  function FromLe(b: Bytes): nat {
    if b == [] then 0 else b[0] as int + 0x100 * FromLe(b[1..])
  }

  /** 256^n. */
  function Pow256(n: nat): (p: nat)
    ensures p > 0
  {
    if n == 0 then 1 else 0x100 * Pow256(n - 1)
  }

  lemma Pow256Of4And8()
    ensures Pow256(4) == TWO_32 && Pow256(8) == TWO_64
  {
    assert Pow256(8) == 0x100 * (0x100 * (0x100 * (0x100 * Pow256(4))));
  }

  lemma {:induction false} FromLeBound(b: Bytes)
    ensures FromLe(b) < Pow256(|b|)
  {
    if b != [] {
      FromLeBound(b[1..]);
    }
  }

  lemma Digit(q: nat, r: nat)
    requires r < 0x100
    ensures (0x100 * q + r) / 0x100 == q && (0x100 * q + r) % 0x100 == r
  {
  }

  lemma {:induction false} FromToLe(w: nat, n: nat)
    requires w < Pow256(n)
    ensures FromLe(ToLe(w, n)) == w
  {
    if n > 0 {
      FromToLe(w / 0x100, n - 1);
      assert ToLe(w, n)[1..] == ToLe(w / 0x100, n - 1);
    }
  }

  lemma {:induction false} ToFromLe(b: Bytes)
    ensures ToLe(FromLe(b), |b|) == b
  {
    if b != [] {
      ToFromLe(b[1..]);
      Digit(FromLe(b[1..]), b[0]);
      assert b == [b[0]] + b[1..];
    }
  }

  // ----- 32-bit words

  /** What a uint32_t keeps of a sum that may be too large for it. */
  function Wrap32(x: nat): (w: U32)
    ensures x < TWO_32 ==> w == x
  {
    if x < TWO_32 then x else Wrap32(x - TWO_32)
  }

  lemma {:induction false} Wrap32IsMod(x: nat)
    ensures Wrap32(x) == x % TWO_32
  {
    if x >= TWO_32 {
      Wrap32IsMod(x - TWO_32);
    }
  }

  /** A word in the memory of the host. */
  function Le32(w: U32): (b: Bytes)
    ensures |b| == 4
  {
    ToLe(w, 4)
  }

  function Load32(b: Bytes): U32
    requires |b| == 4
  {
    FromLeBound(b);
    Pow256Of4And8();
    FromLe(b)
  }

  function Swap4(b: Bytes): (s: Bytes)
    requires |b| == 4
    ensures |s| == 4
  {
    [b[3], b[2], b[1], b[0]]
  }

  /** A word as a length field has it on the wire: most significant byte first. */
  function Be32(w: U32): (b: Bytes)
    ensures |b| == 4
  {
    Swap4(Le32(w))
  }

  function FromBe32(b: Bytes): U32
    requires |b| == 4
  {
    Load32(Swap4(b))
  }

  /** Memory and wire order both determine the word, and any four bytes are some word. */
  lemma WordBytes(w: U32, b: Bytes)
    requires |b| == 4
    ensures Load32(Le32(w)) == w && FromBe32(Be32(w)) == w
    ensures Le32(Load32(b)) == b && Be32(FromBe32(b)) == b
  {
    Pow256Of4And8();
    FromToLe(w, 4);
    assert Swap4(Swap4(Le32(w))) == Le32(w);
    ToFromLe(b);
    ToFromLe(Swap4(b));
  }

  /** Place values of both byte orders. */
  lemma PlaceValues(b: Bytes)
    requires |b| == 4
    ensures Load32(b) == 0x100_0000 * b[3] as int + 0x1_0000 * b[2] as int + 0x100 * b[1] as int + b[0] as int
    ensures FromBe32(b) == 0x100_0000 * b[0] as int + 0x1_0000 * b[1] as int + 0x100 * b[2] as int + b[3] as int
  {
    FourDigits(b);
    FourDigits(Swap4(b));
  }

  lemma FourDigits(b: Bytes)
    requires |b| == 4
    ensures FromLe(b) == 0x100_0000 * b[3] as int + 0x1_0000 * b[2] as int + 0x100 * b[1] as int + b[0] as int
  {
    assert b[1..][1..] == b[2..] && b[2..][1..] == b[3..] && b[3..][1..] == [];
    assert FromLe(b[3..]) == b[3] as int;
    assert FromLe(b[2..]) == b[2] as int + 0x100 * b[3] as int;
    assert FromLe(b[1..]) == b[1] as int + 0x100 * FromLe(b[2..]);
  }

  /** `htonl`: storing the result as a native word leaves the big-endian bytes in memory. */
  method Htonl(v: U32) returns (res: U32)
    ensures Le32(res) == Be32(v)
    ensures var b := Le32(res);
            v == 0x100_0000 * b[0] as int + 0x1_0000 * b[1] as int + 0x100 * b[2] as int + b[3] as int
  {
    var vp := new byte[4](i requires 0 <= i < 4 => Le32(v)[i]);
    var rp := new byte[4](_ => 0);
    rp[0] := vp[3];
    rp[1] := vp[2];
    rp[2] := vp[1];
    rp[3] := vp[0];
    res := Load32(rp[..]);
    assert rp[..] == Be32(v);
    WordBytes(v, rp[..]);
    PlaceValues(Be32(v));
  }

  /** `ntohl`: a word loaded natively from four wire bytes becomes the number they spell. */
  method Ntohl(v: U32) returns (res: U32)
    ensures res == FromBe32(Le32(v))
    ensures Be32(res) == Le32(v)
    ensures var b := Le32(v);
            res == 0x100_0000 * b[0] as int + 0x1_0000 * b[1] as int + 0x100 * b[2] as int + b[3] as int
  {
    var vp := new byte[4](i requires 0 <= i < 4 => Le32(v)[i]);
    var rp := new byte[4](_ => 0);
    rp[0] := vp[3];
    rp[1] := vp[2];
    rp[2] := vp[1];
    rp[3] := vp[0];
    res := Load32(rp[..]);
    assert rp[..] == Swap4(Le32(v));
    WordBytes(v, Le32(v));
    PlaceValues(Le32(v));
  }

  // ----- slices

  /** A slice of a slice. */
  lemma SubSlice(b: Bytes, lo: nat, hi: nat, i: nat, j: nat)
    requires lo <= hi <= |b| && i <= j <= hi - lo
    ensures b[lo..hi][i..j] == b[lo + i..lo + j]
  {
    assert forall k :: 0 <= k < j - i ==> b[lo..hi][i..j][k] == b[lo + i..lo + j][k];
  }

  /** A slice of a string found at an offset of a buffer. */
  lemma WindowSlice(b: Bytes, off: nat, e: Bytes, i: nat, j: nat)
    requires off + |e| <= |b| && b[off..off + |e|] == e
    requires i <= j <= |e|
    ensures b[off + i..off + j] == e[i..j]
  {
    SubSlice(b, off, off + |e|, i, j);
  }

  lemma WindowAt(b: Bytes, off: nat, e: Bytes, i: nat)
    requires off + |e| <= |b| && b[off..off + |e|] == e
    requires i < |e|
    ensures b[off + i] == e[i]
  {
    assert b[off + i] == b[off..off + |e|][i];
  }
}
