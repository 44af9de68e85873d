/**
 The HTSMSG wire format: type byte, name length byte, big-endian payload length, name, payload.
 The functions are the sequences that the writers of htsmessage.cpp put in their buffer.
 */
module Encoding {
  import opened Words
  import opened HtsMessage
  import opened IntCodec

  function Tag(b: Body): byte {
    match b
    case MapBody(_) => 1
    case IntBody(_) => 2
    case StrBody(_) => 3
    case BinBody(_) => 4
    case ListBody(_) => 5
  }

  /** `pCalcSize` before it is cut to 32 bits. */
  function PayloadSize(b: Body): nat {
    match b
    case MapBody(children) => SizeAll(children)
    case ListBody(children) => SizeAll(children)
    case IntBody(num) => |IntBytes(num)|
    case StrBody(str) => |str|
    case BinBody(bin) => |bin|
  }

  /** `calcSize` before it is cut to 32 bits. */
  function Size(n: Node): nat {
    6 + |n.name| + PayloadSize(n.body)
  }

  function SizeAll(ns: seq<Node>): nat {
    if ns == [] then 0 else Size(ns[0]) + SizeAll(ns[1..])
  }

  function Header(n: Node): (h: Bytes)
    ensures |h| == 6
  {
    [Tag(n.body), |n.name| % 0x100] + Be32(Wrap32(PayloadSize(n.body)))
  }

  function Encode(n: Node): (b: Bytes)
    ensures |b| == Size(n)
  {
    Header(n) + n.name + Payload(n.body)
  }

  function Payload(b: Body): (p: Bytes)
    ensures |p| == PayloadSize(b)
  {
    match b
    case MapBody(children) => EncodeAll(children)
    case ListBody(children) => EncodeAll(children)
    case IntBody(num) => IntBytes(num)
    case StrBody(str) => str
    case BinBody(bin) => bin
  }

  function EncodeAll(ns: seq<Node>): (b: Bytes)
    ensures |b| == SizeAll(ns)
  {
    if ns == [] then [] else Encode(ns[0]) + EncodeAll(ns[1..])
  }

  lemma EncodeAllHead(ns: seq<Node>)
    requires ns != []
    ensures SizeAll(ns) == Size(ns[0]) + SizeAll(ns[1..])
    ensures EncodeAll(ns)[..Size(ns[0])] == Encode(ns[0])
    ensures EncodeAll(ns)[Size(ns[0])..] == EncodeAll(ns[1..])
  {
  }

  lemma {:induction false} SizeAllAppend(ns: seq<Node>, n: Node)
    ensures SizeAll(ns + [n]) == SizeAll(ns) + Size(n)
    ensures EncodeAll(ns + [n]) == EncodeAll(ns) + Encode(n)
  {
    if ns == [] {
      assert ns + [n] == [n];
    } else {
      assert (ns + [n])[1..] == ns[1..] + [n];
      SizeAllAppend(ns[1..], n);
    }
  }

  lemma {:induction false} SizeAllPrefix(ns: seq<Node>, i: nat)
    requires i < |ns|
    ensures SizeAll(ns[..i]) + Size(ns[i]) <= SizeAll(ns)
    ensures SizeAll(ns[..i + 1]) == SizeAll(ns[..i]) + Size(ns[i])
    ensures EncodeAll(ns[..i + 1]) == EncodeAll(ns[..i]) + Encode(ns[i])
  {
    assert ns[..i + 1] == ns[..i] + [ns[i]];
    SizeAllAppend(ns[..i], ns[i]);
    SizePrefixBound(ns, i + 1);
  }

  lemma {:induction false} SizePrefixBound(ns: seq<Node>, i: nat)
    requires i <= |ns|
    ensures SizeAll(ns[..i]) <= SizeAll(ns)
  {
    if i > 0 {
      assert ns[..i][1..] == ns[1..][..i - 1];
      SizePrefixBound(ns[1..], i - 1);
    }
  }

  /** The length byte and the 32-bit length field can hold what they are given. */
  ghost predicate LengthsFit(n: Node) {
    |n.name| <= 255 && Size(n) < TWO_32
    && (n.body.MapBody? || n.body.ListBody? ==> AllFit(n.body.children))
  }

  ghost predicate AllFit(ns: seq<Node>) {
    ns == [] || (LengthsFit(ns[0]) && AllFit(ns[1..]))
  }

  lemma {:induction false} WellFormedFits(n: Node)
    requires WellFormed(n) && Size(n) < TWO_32
    ensures LengthsFit(n)
  {
    if n.body.MapBody? || n.body.ListBody? {
      WellFormedAllFit(n.body.children);
    }
  }

  lemma {:induction false} WellFormedAllFit(ns: seq<Node>)
    requires AllWellFormed(ns) && SizeAll(ns) < TWO_32
    ensures AllFit(ns)
  {
    if ns != [] {
      WellFormedFits(ns[0]);
      WellFormedAllFit(ns[1..]);
    }
  }

  lemma EncodedHeader(n: Node)
    requires LengthsFit(n)
    ensures Encode(n)[0] == Tag(n.body) && Encode(n)[1] == |n.name|
    ensures FromBe32(Encode(n)[2..6]) == PayloadSize(n.body)
  {
    var size := PayloadSize(n.body);
    assert Encode(n)[2..6] == Header(n)[2..6] == Be32(size);
    WordBytes(size, Be32(size));
  }

  lemma EncodedNamePayload(n: Node)
    ensures Encode(n)[6..6 + |n.name|] == n.name
    ensures Encode(n)[6 + |n.name|..Size(n)] == Payload(n.body)
  {
  }

  /** No byte of an integer's payload is spare. */
  lemma IntBytesTight(v: Int64)
    ensures |IntBytes(v)| <= 8 && ReadInt(IntBytes(v)) == v
    ensures IntBytes(v) != [] ==> IntBytes(v)[|IntBytes(v)| - 1] != 0
  {
    hide IntBytes, ReadInt;
    IntRoundTrip(v);
    ReencodeStrips(IntBytes(v));
    StripHighKeepsValue(IntBytes(v));
  }

  /** What a server that knows only the format finds where in the bytes of a field. */
  lemma FieldLayout(n: Node)
    requires LengthsFit(n)
    ensures var e, start := Encode(n), 6 + |n.name|;
            && |e| >= start
            && e[0] == (match n.body
                        case MapBody(_) => 1
                        case IntBody(_) => 2
                        case StrBody(_) => 3
                        case BinBody(_) => 4
                        case ListBody(_) => 5)
            && e[1] == |n.name|
            && 0x100_0000 * e[2] as int + 0x1_0000 * e[3] as int + 0x100 * e[4] as int + e[5] as int == |e| - start
            && e[6..start] == n.name
            && match n.body
               case MapBody(children) => e[start..] == EncodeAll(children)
               case ListBody(children) => e[start..] == EncodeAll(children)
               case StrBody(str) => e[start..] == str
               case BinBody(bin) => e[start..] == bin
               case IntBody(num) =>
                 |e| - start <= 8 && ReadInt(e[start..]) == num && (|e| > start ==> e[|e| - 1] != 0)
  {
    hide Encode, ReadInt, IntBytes, FromBe32;
    var e, start := Encode(n), 6 + |n.name|;
    EncodedHeader(n);
    EncodedNamePayload(n);
    PlaceValues(e[2..6]);
    assert e[start..] == e[start..Size(n)];
    if n.body.IntBody? {
      IntBytesTight(n.body.num);
      assert |e| > start ==> e[|e| - 1] == e[start..][|e| - start - 1];
    }
  }

  /** Fields follow each other without anything in between. */
  lemma FieldPlaces(ns: seq<Node>, i: nat)
    requires i < |ns|
    ensures var off := SizeAll(ns[..i]);
            off + Size(ns[i]) <= |EncodeAll(ns)| && EncodeAll(ns)[off..off + Size(ns[i])] == Encode(ns[i])
    ensures SizeAll(ns[..i + 1]) == SizeAll(ns[..i]) + Size(ns[i])
  {
    hide Encode, EncodeAll;
    SizeAllPrefix(ns, i);
    EncodeAllSplit(ns, i + 1);
  }

  lemma {:induction false} EncodeAllSplit(ns: seq<Node>, i: nat)
    requires i <= |ns|
    ensures EncodeAll(ns) == EncodeAll(ns[..i]) + EncodeAll(ns[i..])
  {
    hide Encode;
    if i == 0 {
      assert ns[0..] == ns;
    } else {
      EncodeAllSplit(ns[1..], i - 1);
      assert ns[..i][1..] == ns[1..][..i - 1] && ns[1..][i - 1..] == ns[i..];
      assert EncodeAll(ns[..i]) == Encode(ns[0]) + EncodeAll(ns[..i][1..]);
    }
  }

  /** Reading back the header, the name and the payload of an encoded node found at an offset. */
  lemma EncodedParts(b: Bytes, off: nat, n: Node)
    requires LengthsFit(n)
    requires off + Size(n) <= |b| && b[off..off + Size(n)] == Encode(n)
    ensures b[off] == Tag(n.body) && b[off + 1] == |n.name|
    ensures FromBe32(b[off + 2..off + 6]) == PayloadSize(n.body)
    ensures b[off + 6..off + 6 + |n.name|] == n.name
    ensures b[off + 6 + |n.name|..off + Size(n)] == Payload(n.body)
  {
    var k, e := |n.name|, Encode(n);
    EncodedHeader(n);
    EncodedNamePayload(n);
    WindowAt(b, off, e, 0);
    WindowAt(b, off, e, 1);
    WindowSlice(b, off, e, 2, 6);
    WindowSlice(b, off, e, 6, 6 + k);
    WindowSlice(b, off, e, 6 + k, |e|);
  }

  /** The first of several encoded nodes found at an offset, and the others after it. */
  lemma EncodedHeadAndRest(b: Bytes, off: nat, ns: seq<Node>)
    requires ns != []
    requires off + SizeAll(ns) <= |b| && b[off..off + SizeAll(ns)] == EncodeAll(ns)
    ensures SizeAll(ns) == Size(ns[0]) + SizeAll(ns[1..]) && Size(ns[0]) >= 6
    ensures b[off..off + Size(ns[0])] == Encode(ns[0])
    ensures b[off + Size(ns[0])..off + SizeAll(ns)] == EncodeAll(ns[1..])
  {
    var e := EncodeAll(ns);
    EncodeAllHead(ns);
    WindowSlice(b, off, e, 0, Size(ns[0]));
    WindowSlice(b, off, e, Size(ns[0]), |e|);
  }

  // ----- the format is self-delimiting and injective

  /**
   Two encodings followed by anything can only agree when the nodes agree, children in the same
   order; so every field tells where it ends, and equal bytes carry equal trees.
   */
  lemma {:induction false} EncodeInjective(n: Node, m: Node, r: Bytes, s: Bytes)
    requires LengthsFit(n) && LengthsFit(m)
    requires Encode(n) + r == Encode(m) + s
    ensures n == m && r == s
    decreases n
  {
    var b := Encode(n) + r;
    assert b[0..0 + Size(n)] == Encode(n);
    assert b[0..0 + Size(m)] == Encode(m) by { assert b == Encode(m) + s; }
    EncodedParts(b, 0, n);
    EncodedParts(b, 0, m);
    assert Size(n) == Size(m) && Payload(n.body) == Payload(m.body) && n.name == m.name;
    assert r == b[Size(n)..] && s == b[Size(m)..];
    match n.body {
      case MapBody(children) => EncodeAllInjective(children, m.body.children);
      case ListBody(children) => EncodeAllInjective(children, m.body.children);
      case IntBody(num) =>
        IntRoundTrip(num);
        IntRoundTrip(m.body.num);
      case StrBody(_) =>
      case BinBody(_) =>
    }
  }

  lemma {:induction false} EncodeAllInjective(ns: seq<Node>, ms: seq<Node>)
    requires AllFit(ns) && AllFit(ms)
    requires EncodeAll(ns) == EncodeAll(ms)
    ensures ns == ms
    decreases ns
  {
    if ns == [] || ms == [] {
      assert |EncodeAll(ns)| == SizeAll(ns) && |EncodeAll(ms)| == SizeAll(ms);
    } else {
      EncodeInjective(ns[0], ms[0], EncodeAll(ns[1..]), EncodeAll(ms[1..]));
      EncodeAllInjective(ns[1..], ms[1..]);
      assert ns == [ns[0]] + ns[1..] && ms == [ms[0]] + ms[1..];
    }
  }

  /** In particular, fields that encode alike are the same tree, whatever follows them. */
  lemma EqualBytesEqualTrees(n: Node, m: Node, r: Bytes, s: Bytes)
    requires WellFormed(n) && Size(n) < TWO_32 && WellFormed(m) && Size(m) < TWO_32
    requires Encode(n) + r == Encode(m) + s
    ensures Size(n) == Size(m) && n.name == m.name && Value(n.body) == Value(m.body)
  {
    WellFormedFits(n);
    WellFormedFits(m);
    EncodeInjective(n, m, r, s);
  }
}
