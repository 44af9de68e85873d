/**
 The parsing constructors and `Deserialize` of htsmessage.cpp as they run: a cursor `tmpbuf` into
 the buffer, a remaining length, and objects whose fields fill up as the loops turn.

 Their preconditions ask for what the source silently relies on: that the run over these bytes is
 defined and ends. The theorems on well-formed buffers in Decoding discharge them.
 */
module Parser {
  import opened Words
  import opened HtsMessage
  import opened IntCodec
  import opened Decoding

  /** What an `HtsMessage` holds: `valid` with its root, or nothing. */
  datatype Message = Invalid | Valid(root: map<Bytes, Tree>)

  class HtsMap {
    var name: Bytes
    var data: map<Bytes, Tree>

    constructor ()
      ensures name == [] && data == map[]
    {
      name := [];
      data := map[];
    }

    /** Names the child and stores it; a child already under that name is replaced. */
    method SetData(newName: Bytes, newData: Tree)
      modifies this`data
      ensures data == old(data)[newName := newData]
    {
      data := data[newName := newData];
    }

    method MakeMsg() returns (res: Message)
      ensures res == Valid(data)
    {
      res := Valid(data);
    }

    constructor Parse(buf: array<byte>, off: nat)
      requires off < buf.Length
      requires buf[off] == 1 ==> ParseField(buf[..], off).Some?
      ensures buf[off] == 1 ==> ParseField(buf[..], off) == Some(Entry(name, Map(data)))
      ensures buf[off] != 1 ==> name == [] && data == map[]
      decreases buf.Length - off, 0
    {
      name := [];
      data := map[];
      new;
      hide ParseField, Items, FieldSize, FromBe32, SetAll;
      SetAllNone(map[]);
      if buf[off] != 1 {
        return;
      }
      ghost var b := buf[..];
      ContainerDefined(b, off);
      var nlen := buf[off + 1];
      var len := ReadLength(buf, off + 2);
      assert len == PayloadLen(b, off) by { assert b[off + 2..off + 6] == buf[off + 2..off + 6]; }
      var tmpbuf: nat := off + 6;
      if nlen > 0 {
        name := buf[tmpbuf..tmpbuf + nlen as int];
        tmpbuf := tmpbuf + nlen as int;
      }
      ghost var start := tmpbuf;
      ghost var stored: seq<Entry> := [];
      assert stored + Items(b, start, len).value.entries == Items(b, start, len).value.entries;
      var mlen: int := len;
      while mlen > 0
        invariant off < tmpbuf && buf[..] == b
        invariant data == SetAll(map[], stored)
        invariant name == b[off + 6..start]
        invariant Items(b, tmpbuf, mlen).Some?
        invariant Items(b, start, len).value.entries == stored + Items(b, tmpbuf, mlen).value.entries
        decreases mlen
      {
        ItemsTurn(b, tmpbuf, mlen);
        var psize := ReadFieldSize(buf, tmpbuf);
        var newName, newData := ParseChild(buf, tmpbuf);
        SetAllAppend(map[], stored, Entry(newName, newData));
        SetData(newName, newData);
        stored := stored + [Entry(newName, newData)];
        tmpbuf := tmpbuf + psize;
        mlen := mlen - psize;
      }
      ItemsOver(b, tmpbuf, mlen);
      assert stored + [] == stored;
    }
  }

  class HtsList {
    var name: Bytes
    var data: seq<Tree>

    /** Takes the child's name away and appends it. */
    method AppendData(newData: Tree)
      modifies this`data
      ensures data == old(data) + [newData]
    {
      data := data + [newData];
    }

    constructor Parse(buf: array<byte>, off: nat)
      requires off < buf.Length
      requires buf[off] == 5 ==> ParseField(buf[..], off).Some?
      ensures buf[off] == 5 ==> ParseField(buf[..], off) == Some(Entry(name, List(data)))
      ensures buf[off] != 5 ==> name == [] && data == []
      decreases buf.Length - off, 0
    {
      name := [];
      data := [];
      new;
      hide ParseField, Items, FieldSize, FromBe32;
      if buf[off] != 5 {
        return;
      }
      ghost var b := buf[..];
      ContainerDefined(b, off);
      var nlen := buf[off + 1];
      var len := ReadLength(buf, off + 2);
      assert len == PayloadLen(b, off) by { assert b[off + 2..off + 6] == buf[off + 2..off + 6]; }
      var tmpbuf: nat := off + 6;
      if nlen > 0 {
        name := buf[tmpbuf..tmpbuf + nlen as int];
        tmpbuf := tmpbuf + nlen as int;
      }
      ghost var start := tmpbuf;
      ghost var stored: seq<Entry> := [];
      assert stored + Items(b, start, len).value.entries == Items(b, start, len).value.entries;
      var mlen: int := len;
      while mlen > 0
        invariant off < tmpbuf && buf[..] == b
        invariant data == Trees(stored)
        invariant name == b[off + 6..start]
        invariant Items(b, tmpbuf, mlen).Some?
        invariant Items(b, start, len).value.entries == stored + Items(b, tmpbuf, mlen).value.entries
        decreases mlen
      {
        ItemsTurn(b, tmpbuf, mlen);
        var psize := ReadFieldSize(buf, tmpbuf);
        var newName, newData := ParseChild(buf, tmpbuf);
        AppendData(newData);
        stored := stored + [Entry(newName, newData)];
        tmpbuf := tmpbuf + psize;
        mlen := mlen - psize;
      }
      ItemsOver(b, tmpbuf, mlen);
      assert stored + [] == stored;
    }
  }

  lemma IntHeader(b: Bytes, off: nat)
    requires off < |b| && b[off] == 2 && ParseField(b, off).Some?
    ensures off + 6 <= |b|
    ensures var len := PayloadLen(b, off);
            if len == 0 then ParseField(b, off) == Some(Entry([], Int(0)))
            else off + 6 + NameLen(b, off) as int + (if len > 8 then 8 else len) <= |b|
  {
    hide ParseField, FromBe32, ReadInt;
    IntDefined(b, off);
  }

  lemma IntNumber(b: Bytes, off: nat, start: nat, len: nat)
    requires off + 6 <= |b| && b[off] == 2 && ParseField(b, off).Some? && PayloadLen(b, off) != 0
    requires start == off + 6 + NameLen(b, off) as int
    requires len == if PayloadLen(b, off) > 8 then 8 else PayloadLen(b, off)
    ensures start + len <= |b| && FromLe(b[start..start + len]) < TWO_64
    ensures ParseField(b, off) == Some(Entry(b[off + 6..start], Int(ToInt64(FromLe(b[start..start + len])))))
  {
    hide ParseField, FromBe32, FromLe, ReadInt, ToInt64;
    IntDefined(b, off);
    ReadShort(b[start..start + len]);
  }

  class HtsInt {
    var name: Bytes
    var data: Int64

    /** At most eight payload bytes are used, and without any the name is not read either. */
    constructor Parse(buf: array<byte>, off: nat)
      requires off < buf.Length
      requires buf[off] == 2 ==> ParseField(buf[..], off).Some?
      ensures buf[off] == 2 ==> ParseField(buf[..], off) == Some(Entry(name, Int(data)))
      ensures buf[off] != 2 ==> name == [] && data == 0
    {
      name := [];
      data := 0;
      new;
      hide ParseField, Items, FromBe32, FromLe, ReadInt, ToInt64;
      if buf[off] != 2 {
        return;
      }
      ghost var b := buf[..];
      IntHeader(b, off);
      assert b[off + 2..off + 6] == buf[off + 2..off + 6];
      var nlen := buf[off + 1];
      var len := ReadLength(buf, off + 2);
      if len > 8 {
        len := 8;
      }
      if len == 0 {
        return;
      }
      var tmpbuf: nat := off + 6;
      if nlen > 0 {
        name := buf[tmpbuf..tmpbuf + nlen as int];
        tmpbuf := tmpbuf + nlen as int;
      }
      var u64 := ReadLe(buf, tmpbuf, len);
      assert b[tmpbuf..tmpbuf + len] == buf[tmpbuf..tmpbuf + len];
      IntNumber(b, off, tmpbuf, len);
      data := ToInt64(u64);
    }
  }

  class HtsStr {
    var name: Bytes
    var data: Bytes

    constructor Parse(buf: array<byte>, off: nat)
      requires off < buf.Length
      requires buf[off] == 3 ==> ParseField(buf[..], off).Some?
      ensures buf[off] == 3 ==> ParseField(buf[..], off) == Some(Entry(name, Str(data)))
      ensures buf[off] != 3 ==> name == [] && data == []
    {
      name := [];
      data := [];
      new;
      hide ParseField, Items, FromBe32;
      if buf[off] != 3 {
        return;
      }
      ghost var b := buf[..];
      BytesDefined(b, off);
      assert b[off + 2..off + 6] == buf[off + 2..off + 6];
      var nlen := buf[off + 1];
      var len := ReadLength(buf, off + 2);
      var tmpbuf: nat := off + 6;
      if nlen > 0 {
        name := buf[tmpbuf..tmpbuf + nlen as int];
        tmpbuf := tmpbuf + nlen as int;
      }
      data := buf[tmpbuf..tmpbuf + len];
    }
  }

  class HtsBin {
    var name: Bytes
    var dataBuf: Bytes

    constructor Parse(buf: array<byte>, off: nat)
      requires off < buf.Length
      requires buf[off] == 4 ==> ParseField(buf[..], off).Some?
      ensures buf[off] == 4 ==> ParseField(buf[..], off) == Some(Entry(name, Bin(dataBuf)))
      ensures buf[off] != 4 ==> name == [] && dataBuf == []
    {
      name := [];
      dataBuf := [];
      new;
      hide ParseField, Items, FromBe32;
      if buf[off] != 4 {
        return;
      }
      ghost var b := buf[..];
      BytesDefined(b, off);
      assert b[off + 2..off + 6] == buf[off + 2..off + 6];
      var nlen := buf[off + 1];
      var len := ReadLength(buf, off + 2);
      var tmpbuf: nat := off + 6;
      if nlen > 0 {
        name := buf[tmpbuf..tmpbuf + nlen as int];
        tmpbuf := tmpbuf + nlen as int;
      }
      dataBuf := buf[tmpbuf..tmpbuf + len];
    }
  }

  /** A length field: a native load followed by `ntohl`. */
  method ReadLength(buf: array<byte>, off: nat) returns (len: U32)
    requires off + 4 <= buf.Length
    ensures len == FromBe32(buf[off..off + 4])
  {
    len := Ntohl(Load32(buf[off..off + 4]));
    WordBytes(0, buf[off..off + 4]);
  }

  /** Shifting a byte into a uint64_t loses nothing while at most eight bytes are involved. */
  lemma ShiftIn(payload: Bytes, i: nat)
    requires i < |payload| <= 8
    ensures var u := FromLe(payload[i + 1..]);
            (u * 0x100) % TWO_64 + payload[i] as int == FromLe(payload[i..])
  {
    hide Pow256;
    assert payload[i..][1..] == payload[i + 1..];
    FromLeBound(payload[i..]);
    Pow256Monotonic(|payload| - i, 8);
    Pow256Of4And8();
  }

  /** The loop of `HtsInt`: bytes are shifted in from the last one down. */
  method ReadLe(buf: array<byte>, off: nat, len: nat) returns (u64: nat)
    requires len <= 8 && off + len <= buf.Length
    ensures u64 == FromLe(buf[off..off + len]) < TWO_64
  {
    ghost var payload := buf[off..off + len];
    u64 := 0;
    var i: int := len - 1;
    while i >= 0
      invariant -1 <= i < len
      invariant u64 == FromLe(payload[i + 1..])
    {
      hide FromLe;
      ShiftIn(payload, i);
      u64 := (u64 * 0x100) % TWO_64 + buf[off + i] as int;
      i := i - 1;
    }
    assert payload[0..] == payload;
    ReadShort(payload);
  }

  /** `psize`, with the wrap of its uint32_t additions. */
  method ReadFieldSize(buf: array<byte>, off: nat) returns (psize: U32)
    requires off + 6 <= buf.Length
    ensures psize == FieldSize(buf[..], off)
  {
    hide FromBe32;
    var subNameLen := buf[off + 1];
    var subLen := ReadLength(buf, off + 2);
    assert buf[..][off + 2..off + 6] == buf[off + 2..off + 6];
    psize := Wrap32(6 + subNameLen as int + subLen);
  }

  /** The `switch` of the loops: a new node of the type the field announces. */
  method ParseChild(buf: array<byte>, off: nat) returns (name: Bytes, tree: Tree)
    requires off < buf.Length && ParseField(buf[..], off).Some?
    ensures ParseField(buf[..], off) == Some(Entry(name, tree))
    decreases buf.Length - off, 1
  {
    hide Items, FromBe32;
    if buf[off] == 1 {
      var n := new HtsMap.Parse(buf, off);
      name, tree := n.name, Map(n.data);
    } else if buf[off] == 2 {
      var n := new HtsInt.Parse(buf, off);
      name, tree := n.name, Int(n.data);
    } else if buf[off] == 3 {
      var n := new HtsStr.Parse(buf, off);
      name, tree := n.name, Str(n.data);
    } else if buf[off] == 4 {
      var n := new HtsBin.Parse(buf, off);
      name, tree := n.name, Bin(n.dataBuf);
    } else {
      var n := new HtsList.Parse(buf, off);
      name, tree := n.name, List(n.data);
    }
  }

  /** `HtsMessage::Deserialize` on a buffer of the announced length. */
  method DeserializeMessage(buf: array<byte>) returns (msg: Message)
    requires buf.Length < TWO_32 && Deserialize(buf[..]).Some?
    ensures msg == Valid(Deserialize(buf[..]).value)
  {
    hide ParseField, FieldSize, FromBe32, Fields, SetAll;
    SetAllNone(map[]);
    var res := new HtsMap();
    var length: U32 := buf.Length;
    var tmpbuf: nat := 0;
    ghost var b := buf[..];
    ghost var all, stored := Fields(b, 0, |b|).value, [];
    while length > 5
      invariant buf[..] == b
      invariant res.data == SetAll(map[], stored)
      invariant Fields(b, tmpbuf, length).Some? && all == stored + Fields(b, tmpbuf, length).value
      invariant fresh(res)
      decreases buf.Length - tmpbuf
    {
      FieldsTurn(b, tmpbuf, length);
      var psize := ReadFieldSize(buf, tmpbuf);
      var newName, newData := ParseChild(buf, tmpbuf);
      SetAllAppend(map[], stored, Entry(newName, newData));
      res.SetData(newName, newData);
      stored := stored + [Entry(newName, newData)];
      length := Remaining(length, psize);
      tmpbuf := tmpbuf + psize;
    }
    FieldsShort(b, tmpbuf, length);
    assert stored + [] == stored;
    msg := res.MakeMsg();
  }
}
