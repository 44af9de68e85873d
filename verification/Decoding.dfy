/**
 The parsing constructors of htsmessage.cpp as functions of the buffer and an offset.

 `None` stands for a run the source leaves undefined or never finishes: a read past the end of
 the buffer, a type byte that leaves the node pointer null, or a field whose 32-bit size wraps
 to 0, on which the loops make no progress. All other wraparounds are followed.
 */
module Decoding {
  import opened Words
  import opened HtsMessage
  import opened IntCodec

  /** The fields a container loop built, where it stopped, and what its `mlen` was by then. */
  datatype Span = Span(entries: seq<Entry>, end: nat, left: int)

  function NameLen(b: Bytes, off: nat): byte
    requires off + 6 <= |b|
  {
    b[off + 1]
  }

  function PayloadLen(b: Bytes, off: nat): U32
    requires off + 6 <= |b|
  {
    FromBe32(b[off + 2..off + 6])
  }

  /** The loops' `psize`, a uint32_t. */
  function FieldSize(b: Bytes, off: nat): U32
    requires off + 6 <= |b|
  {
    Wrap32(6 + NameLen(b, off) as int + PayloadLen(b, off))
  }

  /** One field: the dispatch on its type byte followed by the constructor it selects. */
  function ParseField(b: Bytes, off: nat): Option<Entry>
    decreases |b| - off, 0
  {
    if off + 6 > |b| then
      None
    else
      var len := PayloadLen(b, off);
      var start := off + 6 + NameLen(b, off) as int;
      if b[off] == 1 || b[off] == 5 then
        if start > |b| then None
        else
          match Items(b, start, len)
          case None => None
          case Some(span) =>
            var tree := if b[off] == 1 then Map(SetAll(map[], span.entries)) else List(Trees(span.entries));
            Some(Entry(b[off + 6..start], tree))
      else if b[off] == 2 then
        // The constructor returns before it reads the name when there is no payload.
        if len == 0 then Some(Entry([], Int(0)))
        else
          var used := if len > 8 then 8 else len;
          if start + used > |b| then None
          else Some(Entry(b[off + 6..start], Int(ReadInt(b[start..start + used]))))
      else if b[off] == 3 || b[off] == 4 then
        if start + len > |b| then None
        else
          var bytes := b[start..start + len];
          Some(Entry(b[off + 6..start], if b[off] == 3 then Str(bytes) else Bin(bytes)))
      else
        None
  }

  /** The loop of the map and list constructors; the int64 `mlen` may end below 0. */
  function Items(b: Bytes, off: nat, mlen: int): (r: Option<Span>)
    decreases |b| - off, 1
  {
    if mlen <= 0 then
      Some(Span([], off, mlen))
    else if off + 6 > |b| || FieldSize(b, off) == 0 then
      None
    else
      var psize := FieldSize(b, off);
      match ParseField(b, off)
      case None => None
      case Some(e) =>
        match Items(b, off + psize, mlen - psize)
        case None => None
        case Some(rest) => Some(rest.(entries := [e] + rest.entries))
  }

  /** The loop of `HtsMessage::Deserialize`; the uint32 `length` may wrap. */
  function Fields(b: Bytes, off: nat, length: U32): Option<seq<Entry>>
    decreases |b| - off
  {
    if length <= 5 then
      Some([])
    else if off + 6 > |b| || FieldSize(b, off) == 0 then
      None
    else
      var psize := FieldSize(b, off);
      match ParseField(b, off)
      case None => None
      case Some(e) =>
        match Fields(b, off + psize, Remaining(length, psize))
        case None => None
        case Some(rest) => Some([e] + rest)
  }

  /** `HtsMessage::Deserialize` on a buffer of exactly the announced length. */
  function Deserialize(b: Bytes): Option<map<Bytes, Tree>>
    requires |b| < TWO_32
  {
    match Fields(b, 0, |b|)
    case None => None
    case Some(es) => Some(SetAll(map[], es))
  }

  /** One turn of the container loop. */
  lemma ItemsStep(b: Bytes, off: nat, psize: nat, mlen: int, e: Entry, rest: Span)
    requires psize > 0 && psize + mlen > 0 && off + 6 <= |b| && FieldSize(b, off) == psize
    requires ParseField(b, off) == Some(e)
    requires Items(b, off + psize, mlen) == Some(rest)
    ensures Items(b, off, psize + mlen) == Some(Span([e] + rest.entries, rest.end, rest.left))
  {
    assert psize + mlen - FieldSize(b, off) == mlen;
  }

  /** The two container constructors, given what their loop builds. */
  lemma ParseContainer(b: Bytes, off: nat, span: Span)
    requires off + 6 <= |b| && (b[off] == 1 || b[off] == 5)
    requires off + 6 + NameLen(b, off) as int <= |b|
    requires Items(b, off + 6 + NameLen(b, off) as int, PayloadLen(b, off)) == Some(span)
    ensures ParseField(b, off)
         == Some(Entry(b[off + 6..off + 6 + NameLen(b, off) as int],
                       if b[off] == 1 then Map(SetAll(map[], span.entries)) else List(Trees(span.entries))))
  {
  }

  lemma FieldType(b: Bytes, off: nat)
    requires ParseField(b, off).Some?
    ensures off + 6 <= |b| && 1 <= b[off] <= 5
  {
  }

  /** What a defined parse of a container says about its loop. */
  lemma ContainerDefined(b: Bytes, off: nat)
    requires ParseField(b, off).Some? && off < |b| && (b[off] == 1 || b[off] == 5)
    ensures off + 6 + NameLen(b, off) as int <= |b|
    ensures var span := Items(b, off + 6 + NameLen(b, off) as int, PayloadLen(b, off));
            && span.Some?
            && ParseField(b, off)
            == Some(Entry(b[off + 6..off + 6 + NameLen(b, off) as int],
                          if b[off] == 1 then Map(SetAll(map[], span.value.entries))
                          else List(Trees(span.value.entries))))
  {
  }

  /** What a defined parse of an integer says about its bytes. */
  lemma IntDefined(b: Bytes, off: nat)
    requires ParseField(b, off).Some? && off < |b| && b[off] == 2
    ensures off + 6 <= |b|
    ensures PayloadLen(b, off) == 0 ==> ParseField(b, off) == Some(Entry([], Int(0)))
    ensures PayloadLen(b, off) != 0 ==>
              var start := off + 6 + NameLen(b, off) as int;
              var used := if PayloadLen(b, off) > 8 then 8 else PayloadLen(b, off);
              && start + used <= |b|
              && ParseField(b, off) == Some(Entry(b[off + 6..start], Int(ReadInt(b[start..start + used]))))
  {
    hide Items, FromBe32, ReadInt;
  }

  /** What a defined parse of a string or a binary says about its bytes. */
  lemma BytesDefined(b: Bytes, off: nat)
    requires ParseField(b, off).Some? && off < |b| && (b[off] == 3 || b[off] == 4)
    ensures off + 6 <= |b|
    ensures var start := off + 6 + NameLen(b, off) as int;
            var len := PayloadLen(b, off);
            && start + len <= |b|
            && ParseField(b, off)
            == Some(Entry(b[off + 6..start],
                          if b[off] == 3 then Str(b[start..start + len]) else Bin(b[start..start + len])))
  {
    hide Items, FromBe32;
  }

  /** A defined loop that is not over: the field it reads, and what remains. */
  lemma ItemsTurn(b: Bytes, off: nat, mlen: int)
    requires mlen > 0 && Items(b, off, mlen).Some?
    ensures off + 6 <= |b| && FieldSize(b, off) > 0 && ParseField(b, off).Some?
    ensures Items(b, off + FieldSize(b, off), mlen - FieldSize(b, off)).Some?
    ensures Items(b, off, mlen).value.entries
         == [ParseField(b, off).value]
          + Items(b, off + FieldSize(b, off), mlen - FieldSize(b, off)).value.entries
  {
  }

  lemma ItemsOver(b: Bytes, off: nat, mlen: int)
    requires mlen <= 0
    ensures Items(b, off, mlen) == Some(Span([], off, mlen))
  {
  }

  /** `length -= psize` on a uint32_t. */
  function Remaining(length: U32, psize: U32): U32 {
    if psize <= length then length - psize else TWO_32 + length - psize
  }

  lemma FieldsTurn(b: Bytes, off: nat, length: U32)
    requires length > 5 && Fields(b, off, length).Some?
    ensures off + 6 <= |b| && FieldSize(b, off) > 0 && ParseField(b, off).Some?
    ensures var rest := Fields(b, off + FieldSize(b, off), Remaining(length, FieldSize(b, off)));
            rest.Some? && Fields(b, off, length).value == [ParseField(b, off).value] + rest.value
  {
  }

  lemma FieldsShort(b: Bytes, off: nat, length: U32)
    requires length <= 5
    ensures Fields(b, off, length) == Some([])
  {
  }

  /**
   The top-level loop has no such patience as the container loops: when a field is longer than what
   remains of the message, the length wraps around and the next turn reads behind the buffer.
   */
  lemma TopLevelOverrun(b: Bytes, off: nat, length: U32)
    requires length > 5 && off + length == |b| && off + 6 <= |b|
    requires FieldSize(b, off) > length
    ensures Fields(b, off, length) == None
  {
    hide ParseField, FieldSize;
    assert Remaining(length, FieldSize(b, off)) > 5;
    assert Fields(b, off + FieldSize(b, off), Remaining(length, FieldSize(b, off))) == None;
  }

  // ----- appended bytes do not disturb a defined parse

  lemma {:induction false} ParseFieldExtends(b: Bytes, t: Bytes, off: nat)
    requires ParseField(b, off).Some?
    ensures ParseField(b + t, off) == ParseField(b, off)
    decreases |b| - off, 0
  {
    SameHeader(b, t, off);
    var len := PayloadLen(b, off);
    var start := off + 6 + NameLen(b, off) as int;
    if b[off] == 1 || b[off] == 5 {
      ItemsExtends(b, t, start, len);
      assert (b + t)[off + 6..start] == b[off + 6..start];
    } else if b[off] == 2 {
      if len != 0 {
        var used := if len > 8 then 8 else len;
        assert (b + t)[off + 6..start] == b[off + 6..start];
        assert (b + t)[start..start + used] == b[start..start + used];
      }
    } else {
      assert (b + t)[off + 6..start] == b[off + 6..start];
      assert (b + t)[start..start + len] == b[start..start + len];
    }
  }

  lemma SameHeader(b: Bytes, t: Bytes, off: nat)
    requires off + 6 <= |b|
    ensures (b + t)[off] == b[off] && NameLen(b + t, off) == NameLen(b, off)
    ensures PayloadLen(b + t, off) == PayloadLen(b, off) && FieldSize(b + t, off) == FieldSize(b, off)
  {
    assert (b + t)[off + 2..off + 6] == b[off + 2..off + 6];
  }

  lemma {:induction false} ItemsExtends(b: Bytes, t: Bytes, off: nat, mlen: int)
    requires Items(b, off, mlen).Some?
    ensures Items(b + t, off, mlen) == Items(b, off, mlen)
    decreases |b| - off, 1
  {
    if mlen > 0 {
      SameHeader(b, t, off);
      ParseFieldExtends(b, t, off);
      ItemsExtends(b, t, off + FieldSize(b, off), mlen - FieldSize(b, off));
    }
  }

  // ----- well-formed buffers

  /**
   The bytes of b from lo to hi are a run of complete fields of the five known types, each with
   its payload inside its parent's. Payloads of integers may have any length.
   */
  ghost predicate WellFormedFields(b: Bytes, lo: nat, hi: nat)
    requires hi <= |b|
    decreases hi - lo, 1
  {
    lo == hi || (WellFormedField(b, lo, hi) && WellFormedFields(b, FieldEnd(b, lo), hi))
  }

  function FieldEnd(b: Bytes, lo: nat): nat
    requires lo + 6 <= |b|
  {
    lo + 6 + NameLen(b, lo) as int + PayloadLen(b, lo)
  }

  ghost predicate WellFormedField(b: Bytes, lo: nat, hi: nat)
    requires hi <= |b|
    ensures WellFormedField(b, lo, hi) ==> lo + 6 <= hi && FieldEnd(b, lo) <= hi
    decreases hi - lo, 0
  {
    && lo + 6 <= hi
    && 1 <= b[lo] <= 5
    && FieldEnd(b, lo) <= hi
    && (b[lo] == 1 || b[lo] == 5 ==> WellFormedFields(b, lo + 6 + NameLen(b, lo) as int, FieldEnd(b, lo)))
  }

  lemma {:induction false} WellFormedFieldParses(b: Bytes, lo: nat, hi: nat)
    requires hi <= |b| && hi - lo < TWO_32 && WellFormedField(b, lo, hi)
    ensures ParseField(b, lo).Some?
    decreases hi - lo, 0
  {
    if b[lo] == 1 || b[lo] == 5 {
      WellFormedFieldsParse(b, lo + 6 + NameLen(b, lo) as int, FieldEnd(b, lo));
    }
  }

  /**
   On a well-formed buffer every container loop finishes, consumes its payload exactly, ends
   with `mlen` equal to 0 and takes at least six bytes per field.
   */
  lemma {:induction false} WellFormedFieldsParse(b: Bytes, lo: nat, hi: nat)
    requires lo <= hi <= |b| && hi - lo < TWO_32 && WellFormedFields(b, lo, hi)
    ensures Items(b, lo, hi - lo).Some?
    ensures var span := Items(b, lo, hi - lo).value;
            span.end == hi && span.left == 0 && 6 * |span.entries| <= hi - lo
    decreases hi - lo, 1
  {
    if lo < hi {
      WellFormedFieldParses(b, lo, hi);
      assert FieldSize(b, lo) == FieldEnd(b, lo) - lo;
      WellFormedFieldsParse(b, FieldEnd(b, lo), hi);
      assert (hi - lo) - FieldSize(b, lo) == hi - FieldEnd(b, lo);
    }
  }

  /** The top-level loop reads the same fields and leaves up to five trailing bytes unread. */
  lemma {:induction false} FieldsIgnoreTail(b: Bytes, lo: nat, hi: nat, t: nat)
    requires lo <= hi && hi + t <= |b| && t <= 5 && hi + t - lo < TWO_32
    requires WellFormedFields(b, lo, hi)
    ensures Items(b, lo, hi - lo).Some?
    ensures Fields(b, lo, hi + t - lo) == Some(Items(b, lo, hi - lo).value.entries)
    decreases hi - lo
  {
    hide ParseField, FromBe32;
    if lo < hi {
      WellFormedFieldParses(b, lo, hi);
      var p := FieldSize(b, lo);
      assert p == FieldEnd(b, lo) - lo;
      FieldsIgnoreTail(b, lo + p, hi, t);
      assert hi - lo - p == hi - (lo + p);
    }
  }

  lemma {:induction false} WellFormedExtends(b: Bytes, t: Bytes, lo: nat, hi: nat)
    requires hi <= |b| && WellFormedFields(b, lo, hi)
    ensures WellFormedFields(b + t, lo, hi)
    decreases hi - lo
  {
    if lo != hi {
      SameHeader(b, t, lo);
      var end := FieldEnd(b, lo);
      assert FieldEnd(b + t, lo) == end;
      if b[lo] == 1 || b[lo] == 5 {
        WellFormedExtends(b, t, lo + 6 + NameLen(b, lo) as int, end);
      }
      assert WellFormedField(b + t, lo, hi);
      WellFormedExtends(b, t, end, hi);
      assert WellFormedFields(b + t, end, hi);
    }
  }

  lemma WellFormedMessage(b: Bytes, n: nat)
    requires n <= |b| <= n + 5 && |b| < TWO_32 && WellFormedFields(b, 0, n)
    ensures Items(b, 0, n).Some?
    ensures Deserialize(b) == Some(SetAll(map[], Items(b, 0, n).value.entries))
  {
    FieldsIgnoreTail(b, 0, n, |b| - n);
  }

  /** Any 0 to 5 bytes appended to a well-formed buffer leave the message unchanged. */
  lemma TrailingBytesIgnored(b: Bytes, t: Bytes)
    requires WellFormedFields(b, 0, |b|) && |t| <= 5 && |b| + |t| < TWO_32
    ensures Deserialize(b).Some? && Deserialize(b + t) == Deserialize(b)
  {
    var n := |b|;
    WellFormedMessage(b, n);
    assert WellFormedFields(b + t, 0, n) by { WellFormedExtends(b, t, 0, n); }
    WellFormedMessage(b + t, n);
    assert Items(b + t, 0, n) == Items(b, 0, n) by { ItemsExtends(b, t, 0, n); }
  }
}
