/**
 The writers of htsmessage.cpp, working in place on the output buffer at an offset, and the size
 computations they depend on in uint32_t arithmetic.
 */
module Serialiser {
  import opened Words
  import opened HtsMessage
  import opened IntCodec
  import opened Encoding

  /** A buffer after e has been written at off, nothing else being touched. */
  function Overwrite(s: Bytes, off: nat, e: Bytes): (r: Bytes)
    requires off + |e| <= |s|
    ensures |r| == |s|
  {
    s[..off] + e + s[off + |e|..]
  }

  /** Two adjacent writes are one. */
  lemma OverwriteAdjacent(s: Bytes, off: nat, e: Bytes, f: Bytes)
    requires off + |e| + |f| <= |s|
    ensures Overwrite(Overwrite(s, off, e), off + |e|, f) == Overwrite(s, off, e + f)
  {
    var t := Overwrite(s, off, e);
    assert t[..off + |e|] == s[..off] + e;
    assert t[off + |e| + |f|..] == s[off + |e| + |f|..];
  }

  lemma OverwriteWhole(s: Bytes, e: Bytes)
    requires |e| == |s|
    ensures Overwrite(s, 0, e) == e
  {
  }

  lemma OverwriteNothing(s: Bytes, off: nat)
    requires off <= |s|
    ensures Overwrite(s, off, []) == s
  {
  }

  /** Cutting a summand to 32 bits first does not change the sum's 32 bits. */
  lemma {:induction false} Wrap32Sum(a: nat, b: nat)
    ensures Wrap32(Wrap32(a) + b) == Wrap32(a + b)
  {
    if a >= TWO_32 {
      Wrap32Sum(a - TWO_32, b);
    }
  }

  /** `pCalcSize`; strings and binaries use their length directly. */
  method PCalcSize(b: Body) returns (totalSize: U32)
    ensures totalSize == Wrap32(PayloadSize(b))
    decreases b
  {
    hide Wrap32, Size, Encode, EncodeAll;
    match b {
      case IntBody(num) => totalSize := IntSize(num);
      case StrBody(str) => totalSize := Wrap32(|str|);
      case BinBody(bin) => totalSize := Wrap32(|bin|);
      case MapBody(_) | ListBody(_) =>
        var children := b.children;
        totalSize := 0;
        var i := 0;
        while i < |children|
          invariant 0 <= i <= |children|
          invariant totalSize == Wrap32(SizeAll(children[..i]))
        {
          var size := CalcSize(children[i]);
          SizeAllPrefix(children, i);
          Wrap32Sum(SizeAll(children[..i]), size);
          Wrap32Sum(Size(children[i]), SizeAll(children[..i]));
          totalSize := Wrap32(totalSize + size);
          i := i + 1;
        }
        assert children[..i] == children;
    }
  }

  /** `HtsInt::pCalcSize`: how often a uint64_t can be shifted by a byte before it is 0. */
  method IntSize(num: Int64) returns (res: nat)
    ensures res == |IntBytes(num)| && res < TWO_32
  {
    var u64 := ToU64(num);
    res := 0;
    while u64 != 0
      invariant res + |MinimalLe(u64)| == |IntBytes(num)|
    {
      res := res + 1;
      u64 := u64 / 0x100;
    }
    IntRoundTrip(num);
  }

  /** `calcSize`. */
  method CalcSize(n: Node) returns (size: U32)
    ensures size == Wrap32(Size(n))
    decreases n
  {
    var payload := PCalcSize(n.body);
    Wrap32Sum(PayloadSize(n.body), 6 + |n.name|);
    size := Wrap32(payload + 6 + |n.name|);
  }

  method Memcpy(buf: array<byte>, off: nat, src: Bytes)
    requires off + |src| <= buf.Length
    modifies buf
    ensures buf[..] == Overwrite(old(buf[..]), off, src)
  {
    forall i | 0 <= i < |src| {
      buf[off + i] := src[i];
    }
  }

  /** A 32-bit length stored at an offset, in network order. */
  method PutLength(buf: array<byte>, off: nat, v: U32)
    requires off + 4 <= buf.Length
    modifies buf
    ensures buf[..] == Overwrite(old(buf[..]), off, Be32(v))
  {
    var word := Htonl(v);
    Memcpy(buf, off, Le32(word));
  }

  /** The first lines of every `Serialize`: type, name length, payload length, name. */
  method PutHeader(n: Node, payload: U32, buf: array<byte>, off: nat)
    requires payload == Wrap32(PayloadSize(n.body))
    requires off + 6 + |n.name| <= buf.Length
    modifies buf
    ensures buf[..] == Overwrite(old(buf[..]), off, Header(n) + n.name)
  {
    hide Be32;
    ghost var s := buf[..];
    var two := [Tag(n.body), |n.name| % 0x100];
    Memcpy(buf, off, two);
    PutLength(buf, off + 2, payload);
    OverwriteAdjacent(s, off, two, Be32(payload));
    if |n.name| > 0 {
      Memcpy(buf, off + 6, n.name);
    } else {
      OverwriteNothing(buf[..], off + 6);
    }
    OverwriteAdjacent(s, off, Header(n), n.name);
  }

  /** `Serialize`: writes the encoding of the node, `calcSize()` bytes, and nothing else. */
  method Serialize(n: Node, buf: array<byte>, off: nat)
    requires Size(n) < TWO_32 && off + Size(n) <= buf.Length
    modifies buf
    ensures buf[..] == Overwrite(old(buf[..]), off, Encode(n))
    decreases n
  {
    hide Header, Payload;
    ghost var s := buf[..];
    var payload := PCalcSize(n.body);
    PutHeader(n, payload, buf, off);
    var tmpbuf := off + 6 + |n.name|;
    SerializePayload(n.body, buf, tmpbuf);
    OverwriteAdjacent(s, off, Header(n) + n.name, Payload(n.body));
  }

  method SerializePayload(b: Body, buf: array<byte>, off: nat)
    requires PayloadSize(b) < TWO_32 && off + PayloadSize(b) <= buf.Length
    modifies buf
    ensures buf[..] == Overwrite(old(buf[..]), off, Payload(b))
    decreases b
  {
    match b {
      case IntBody(num) => SerializeInt(num, buf, off);
      case StrBody(str) => Memcpy(buf, off, str);
      case BinBody(bin) => Memcpy(buf, off, bin);
      case MapBody(children) => SerializeAll(children, buf, off);
      case ListBody(children) => SerializeAll(children, buf, off);
    }
  }

  /** The loop over the children, `tmpbuf` advancing by each child's `calcSize()`. */
  method SerializeAll(ns: seq<Node>, buf: array<byte>, off: nat)
    requires SizeAll(ns) < TWO_32 && off + SizeAll(ns) <= buf.Length
    modifies buf
    ensures buf[..] == Overwrite(old(buf[..]), off, EncodeAll(ns))
    decreases ns, 0
  {
    hide Encode, Wrap32, Size, Overwrite;
    var tmpbuf: nat := off;
    var i := 0;
    OverwriteNothing(buf[..], off);
    while i < |ns|
      invariant 0 <= i <= |ns|
      invariant SizeAll(ns[..i]) <= SizeAll(ns) && tmpbuf == off + SizeAll(ns[..i])
      invariant buf[..] == Overwrite(old(buf[..]), off, EncodeAll(ns[..i]))
    {
      SizeAllPrefix(ns, i);
      Serialize(ns[i], buf, tmpbuf);
      OverwriteAdjacent(old(buf[..]), off, EncodeAll(ns[..i]), Encode(ns[i]));
      var size := CalcSize(ns[i]);
      tmpbuf := tmpbuf + size;
      i := i + 1;
    }
    assert ns[..i] == ns;
  }

  /** `HtsInt::Serialize`: the low byte goes out and the number is shifted, len times. */
  method SerializeInt(num: Int64, buf: array<byte>, off: nat)
    requires off + |IntBytes(num)| <= buf.Length
    modifies buf
    ensures buf[..] == Overwrite(old(buf[..]), off, IntBytes(num))
  {
    var len := IntSize(num);
    ghost var e := IntBytes(num);
    var u64 := ToU64(num);
    var i := 0;
    OverwriteNothing(buf[..], off);
    while i < len
      invariant 0 <= i <= len
      invariant MinimalLe(u64) == e[i..]
      invariant buf[..] == Overwrite(old(buf[..]), off, e[..i])
    {
      buf[off + i] := u64 % 0x100;
      assert e[..i + 1] == e[..i] + [u64 % 0x100];
      u64 := u64 / 0x100;
      i := i + 1;
    }
    assert e[..len] == e;
  }

  lemma LengthInFront(b: Bytes, w: U32, rest: Bytes)
    requires b == Be32(w) + rest
    ensures w == 0x100_0000 * b[0] as int + 0x1_0000 * b[1] as int + 0x100 * b[2] as int + b[3] as int
  {
    hide Be32, FromBe32;
    PlaceValues(Be32(w));
    WordBytes(w, Be32(w));
  }

  /**
   `HtsMessage::Serialize` on the fields of the root map. Every byte of the allocated buffer is
   written over the 0xFF filler; the length field counts itself, and the reported length is four
   more than the buffer has.
   */
  method SerializeMessage(ns: seq<Node>) returns (length: U32, buf: array<byte>)
    requires 8 + SizeAll(ns) < TWO_32
    ensures fresh(buf) && buf[..] == Be32(4 + SizeAll(ns)) + EncodeAll(ns)
    ensures length == buf.Length + 4
    ensures buf.Length == 0x100_0000 * buf[0] as int + 0x1_0000 * buf[1] as int + 0x100 * buf[2] as int + buf[3] as int
  {
    hide Be32, Encode, EncodeAll, Wrap32, Size, Overwrite;
    var resLength: U32 := 4;
    var i := 0;
    while i < |ns|
      invariant 0 <= i <= |ns|
      invariant SizeAll(ns[..i]) <= SizeAll(ns) && resLength == 4 + SizeAll(ns[..i])
    {
      SizeAllPrefix(ns, i);
      var size := CalcSize(ns[i]);
      resLength := Wrap32(resLength + size);
      i := i + 1;
    }
    assert ns[..i] == ns;
    buf := new byte[resLength](_ => 0xFF);
    ghost var filler := buf[..];
    PutLength(buf, 0, resLength);
    SerializeAll(ns, buf, 4);
    OverwriteAdjacent(filler, 0, Be32(resLength), EncodeAll(ns));
    OverwriteWhole(filler, Be32(resLength) + EncodeAll(ns));
    length := Wrap32(resLength + 4);
    LengthInFront(buf[..], resLength, EncodeAll(ns));
  }
}
