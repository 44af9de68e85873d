/**
 What parsing gives back for what was serialised, for every tree, every nesting depth and every
 iteration order of every map in it.
 */
module RoundTrip {
  import opened Words
  import opened HtsMessage
  import opened IntCodec
  import opened Encoding
  import opened Decoding

  // ----- what comes back

  /** A zero integer has no payload, and its parsing constructor then skips the name. */
  function Back(n: Node): Entry {
    Entry(if n.body == IntBody(0) then [] else n.name, BackTree(n.body))
  }

  function BackTree(b: Body): Tree {
    match b
    case MapBody(children) => Map(SetAll(map[], BackAll(children)))
    case ListBody(children) => List(Trees(BackAll(children)))
    case _ => Value(b)
  }

  function BackAll(ns: seq<Node>): (es: seq<Entry>)
    ensures |es| == |ns|
  {
    if ns == [] then [] else [Back(ns[0])] + BackAll(ns[1..])
  }

  /** Every encoded node, wherever it stands in a buffer, parses to `Back` of it. */
  lemma {:induction false} ParseEncoded(b: Bytes, off: nat, n: Node)
    requires LengthsFit(n)
    requires off + Size(n) <= |b| && b[off..off + Size(n)] == Encode(n)
    ensures FieldSize(b, off) == Size(n)
    ensures ParseField(b, off) == Some(Back(n))
    decreases n
  {
    hide ParseField, FromBe32, Encode;
    EncodedParts(b, off, n);
    if n.body.MapBody? || n.body.ListBody? {
      ParseEncodedContainer(b, off, n);
    } else {
      ParseEncodedLeaf(b, off, n);
    }
  }

  lemma ParseEncodedLeaf(b: Bytes, off: nat, n: Node)
    requires LengthsFit(n) && !n.body.MapBody? && !n.body.ListBody?
    requires off + Size(n) <= |b| && b[off..off + Size(n)] == Encode(n)
    ensures ParseField(b, off) == Some(Back(n))
  {
    hide Items, FromBe32, Encode, ReadInt, IntBytes;
    EncodedParts(b, off, n);
    if n.body.IntBody? {
      IntRoundTrip(n.body.num);
    }
  }

  lemma {:induction false} ParseEncodedContainer(b: Bytes, off: nat, n: Node)
    requires LengthsFit(n) && (n.body.MapBody? || n.body.ListBody?)
    requires off + Size(n) <= |b| && b[off..off + Size(n)] == Encode(n)
    ensures ParseField(b, off) == Some(Back(n))
    decreases n.body
  {
    hide FieldSize, ParseField, Items, FromBe32, Encode;
    EncodedParts(b, off, n);
    var start, children := off + 6 + |n.name|, n.body.children;
    ParseEncodedAll(b, start, children);
    ParseContainer(b, off, Span(BackAll(children), start + SizeAll(children), 0));
  }

  lemma {:induction false} ParseEncodedAll(b: Bytes, off: nat, ns: seq<Node>)
    requires AllFit(ns)
    requires off + SizeAll(ns) <= |b| && b[off..off + SizeAll(ns)] == EncodeAll(ns)
    ensures Items(b, off, SizeAll(ns)) == Some(Span(BackAll(ns), off + SizeAll(ns), 0))
    decreases ns
  {
    hide FieldSize, ParseField, Items, Encode, EncodeAll;
    if ns == [] {
      ItemsOver(b, off, 0);
    } else {
      var size, rest := Size(ns[0]), ns[1..];
      EncodedHeadAndRest(b, off, ns);
      ParseEncoded(b, off, ns[0]);
      ParseEncodedAll(b, off + size, rest);
      ItemsStep(b, off, size, SizeAll(rest), Back(ns[0]), Span(BackAll(rest), off + size + SizeAll(rest), 0));
    }
  }

  /**
   A container whose announced length ends inside its last child still takes that child whole; the
   loop then stops with a negative length.
   */
  lemma {:induction false} OverrunTaken(b: Bytes, off: nat, ns: seq<Node>, mlen: int)
    requires AllFit(ns) && ns != []
    requires off + SizeAll(ns) <= |b| && b[off..off + SizeAll(ns)] == EncodeAll(ns)
    requires SizeAll(ns[..|ns| - 1]) < mlen <= SizeAll(ns)
    ensures Items(b, off, mlen) == Some(Span(BackAll(ns), off + SizeAll(ns), mlen - SizeAll(ns)))
    decreases ns
  {
    hide FieldSize, ParseField, Items, Encode, EncodeAll;
    var size, rest := Size(ns[0]), ns[1..];
    EncodedHeadAndRest(b, off, ns);
    ParseEncoded(b, off, ns[0]);
    if rest == [] {
      ItemsOver(b, off + size, mlen - size);
    } else {
      assert ns[..|ns| - 1][1..] == rest[..|rest| - 1];
      OverrunTaken(b, off + size, rest, mlen - size);
    }
    ItemsStep(b, off, size, mlen - size, Back(ns[0]),
              Span(BackAll(rest), off + size + SizeAll(rest), mlen - size - SizeAll(rest)));
  }

  // ----- whole messages

  lemma NoSize()
    ensures SizeAll([]) == 0
  {
  }

  lemma ContainerSize(b: Body)
    requires b.MapBody? || b.ListBody?
    ensures PayloadSize(b) == SizeAll(b.children) && Payload(b) == EncodeAll(b.children)
  {
  }

  /** What the serialiser writes is well-formed in the sense of the parser theorems. */
  lemma {:induction false} EncodedWellFormed(b: Bytes, off: nat, ns: seq<Node>)
    requires AllFit(ns)
    requires off + SizeAll(ns) <= |b| && b[off..off + SizeAll(ns)] == EncodeAll(ns)
    ensures WellFormedFields(b, off, off + SizeAll(ns))
    decreases ns
  {
    hide FromBe32, Encode, EncodeAll, PayloadSize, SizeAll;
    if ns == [] {
      NoSize();
    } else {
      var n, rest := ns[0], ns[1..];
      EncodedHeadAndRest(b, off, ns);
      EncodedParts(b, off, n);
      assert FieldEnd(b, off) == off + Size(n);
      if n.body.MapBody? || n.body.ListBody? {
        ContainerSize(n.body);
        EncodedWellFormed(b, off + 6 + |n.name|, n.body.children);
      }
      assert WellFormedField(b, off, off + SizeAll(ns));
      EncodedWellFormed(b, off + Size(n), rest);
    }
  }

  /** A message parses to what comes back of its fields, whatever 0 to 5 bytes follow it. */
  lemma DeserializeEncoded(ns: seq<Node>, t: Bytes)
    requires AllWellFormed(ns) && SizeAll(ns) + |t| < TWO_32 && |t| <= 5
    ensures Deserialize(EncodeAll(ns) + t) == Some(SetAll(map[], BackAll(ns)))
  {
    hide Items, EncodeAll, Deserialize;
    var b := EncodeAll(ns) + t;
    WellFormedAllFit(ns);
    assert b[0..0 + SizeAll(ns)] == EncodeAll(ns);
    EncodedWellFormed(b, 0, ns);
    WellFormedMessage(b, SizeAll(ns));
    ParseEncodedAll(b, 0, ns);
  }

  // ----- exactly when the tree itself comes back

  lemma {:induction false} BackAllAt(ns: seq<Node>, i: nat)
    requires i < |ns|
    ensures BackAll(ns)[i] == Back(ns[i])
  {
    if i > 0 {
      BackAllAt(ns[1..], i - 1);
    }
  }

  lemma BackSource(ns: seq<Node>, k: Bytes) returns (i: nat)
    requires k in SetAll(map[], BackAll(ns))
    ensures i < |ns| && Back(ns[i]).name == k && SetAll(map[], BackAll(ns))[k] == BackTree(ns[i].body)
  {
    SetAllSource(map[], BackAll(ns), k);
    i :| 0 <= i < |ns| && BackAll(ns)[i].name == k && SetAll(map[], BackAll(ns))[k] == BackAll(ns)[i].tree;
    BackAllAt(ns, i);
  }

  /** No map in the tree has a zero integer under a nonempty key. */
  ghost predicate NoNamedZero(t: Tree) {
    match t
    case Map(data) =>
      forall k :: k in data ==> (k != [] ==> data[k] != Int(0)) && NoNamedZero(data[k])
    case List(items) => forall i :: 0 <= i < |items| ==> NoNamedZero(items[i])
    case _ => true
  }

  /** What comes back never has one. */
  lemma {:induction false} BackHasNoNamedZero(b: Body)
    ensures NoNamedZero(BackTree(b))
  {
    if b.MapBody? {
      var data := SetAll(map[], BackAll(b.children));
      forall k | k in data ensures (k != [] ==> data[k] != Int(0)) && NoNamedZero(data[k]) {
        var i := BackSource(b.children, k);
        BackHasNoNamedZero(b.children[i].body);
      }
    } else if b.ListBody? {
      forall i | 0 <= i < |b.children| ensures NoNamedZero(Trees(BackAll(b.children))[i]) {
        BackAllAt(b.children, i);
        BackHasNoNamedZero(b.children[i].body);
      }
    }
  }

  lemma {:induction false} BackOfClean(b: Body)
    requires WellFormedBody(b) && NoNamedZero(Value(b))
    ensures BackTree(b) == Value(b)
    decreases b
  {
    if b.MapBody? {
      forall i | 0 <= i < |b.children| ensures BackAll(b.children)[i] == ValueAll(b.children)[i] {
        var c := b.children[i];
        BackAllAt(b.children, i);
        ValueAllAt(b.children, i);
        MapValue(b.children, i);
        AllWellFormedAt(b.children, i);
        assert c.name != [] ==> Value(c.body) != Int(0);
        BackOfClean(c.body);
      }
      assert BackAll(b.children) == ValueAll(b.children);
    } else if b.ListBody? {
      forall i | 0 <= i < |b.children| ensures Trees(BackAll(b.children))[i] == Trees(ValueAll(b.children))[i] {
        BackAllAt(b.children, i);
        ValueAllAt(b.children, i);
        AllWellFormedAt(b.children, i);
        assert Trees(ValueAll(b.children))[i] == Value(b.children[i].body);
        BackOfClean(b.children[i].body);
      }
      assert Trees(BackAll(b.children)) == Trees(ValueAll(b.children));
    }
  }

  ghost predicate EntriesFit(es: seq<Entry>) {
    forall i :: 0 <= i < |es| ==> |es[i].name| <= 255 && NamesFit(es[i].tree)
  }

  lemma SetAllFit(es: seq<Entry>)
    requires EntriesFit(es)
    ensures NamesFit(Map(SetAll(map[], es)))
  {
    var data := SetAll(map[], es);
    forall k | k in data ensures |k| <= 255 && NamesFit(data[k]) {
      SetAllSource(map[], es, k);
    }
  }

  /** No parser ever yields a name that is longer than a length byte can say. */
  lemma {:induction false} ParsedNamesFit(b: Bytes, off: nat)
    requires ParseField(b, off).Some? && off < |b|
    ensures |ParseField(b, off).value.name| <= 255 && NamesFit(ParseField(b, off).value.tree)
    decreases |b| - off, 0
  {
    hide ParseField, Items, FromBe32, SetAll;
    FieldType(b, off);
    if b[off] == 1 || b[off] == 5 {
      ContainerDefined(b, off);
      var start, len := off + 6 + NameLen(b, off) as int, PayloadLen(b, off);
      ItemsNamesFit(b, start, len);
      SetAllFit(Items(b, start, len).value.entries);
    } else if b[off] == 2 {
      IntDefined(b, off);
    } else {
      BytesDefined(b, off);
    }
  }

  lemma {:induction false} ItemsNamesFit(b: Bytes, off: nat, mlen: int)
    requires Items(b, off, mlen).Some?
    ensures EntriesFit(Items(b, off, mlen).value.entries)
    decreases |b| - off, 1
  {
    hide ParseField, Items, FieldSize;
    if mlen > 0 {
      ItemsTurn(b, off, mlen);
      ParsedNamesFit(b, off);
      ItemsNamesFit(b, off + FieldSize(b, off), mlen - FieldSize(b, off));
    } else {
      ItemsOver(b, off, mlen);
    }
  }

  lemma {:induction false} FieldsNamesFit(b: Bytes, off: nat, length: U32)
    requires Fields(b, off, length).Some?
    ensures EntriesFit(Fields(b, off, length).value)
    decreases |b| - off
  {
    hide ParseField, Fields, FieldSize;
    if length > 5 {
      FieldsTurn(b, off, length);
      ParsedNamesFit(b, off);
      FieldsNamesFit(b, off + FieldSize(b, off), Remaining(length, FieldSize(b, off)));
    } else {
      FieldsShort(b, off, length);
    }
  }

  lemma DeserializedNamesFit(b: Bytes)
    requires |b| < TWO_32 && Deserialize(b).Some?
    ensures NamesFit(Map(Deserialize(b).value))
  {
    hide Fields, NamesFit;
    FieldsNamesFit(b, 0, |b|);
    SetAllFit(Fields(b, 0, |b|).value);
  }

  /**
   The round trip of `Serialize` and `Deserialize`, for every message that can be built and that
   fits its length field, whatever the iteration orders: it comes back unchanged if and only if all
   its names fit their length byte and no map in it has a zero integer under a nonempty key.
   */
  lemma RoundTripExact(ns: seq<Node>, t: Bytes)
    requires Built(MapBody(ns)) && SizeAll(ns) + |t| < TWO_32 && |t| <= 5
    ensures Deserialize(EncodeAll(ns) + t) == Some(Value(MapBody(ns)).data)
       <==> NamesFit(Value(MapBody(ns))) && NoNamedZero(Value(MapBody(ns)))
  {
    hide Deserialize, EncodeAll, NoNamedZero, NamesFit, WellFormedBody;
    var v := Value(MapBody(ns));
    if Deserialize(EncodeAll(ns) + t) == Some(v.data) {
      DeserializedNamesFit(EncodeAll(ns) + t);
    }
    if NamesFit(v) {
      BuiltFits(MapBody(ns));
      WellFormedRoundTrip(ns, t);
    }
  }

  lemma WellFormedRoundTrip(ns: seq<Node>, t: Bytes)
    requires WellFormedBody(MapBody(ns)) && SizeAll(ns) + |t| < TWO_32 && |t| <= 5
    ensures Deserialize(EncodeAll(ns) + t) == Some(Value(MapBody(ns)).data)
       <==> NoNamedZero(Value(MapBody(ns)))
  {
    hide Deserialize, EncodeAll, NoNamedZero;
    DeserializeEncoded(ns, t);
    assert Map(SetAll(map[], BackAll(ns))) == BackTree(MapBody(ns));
    BackHasNoNamedZero(MapBody(ns));
    if NoNamedZero(Value(MapBody(ns))) {
      BackOfClean(MapBody(ns));
    }
  }

  /** The smallest message that does not: `{"a": 0}` comes back as `{"": 0}`. */
  lemma ZeroLosesItsName()
    ensures var ns := [Node([97], IntBody(0))];
            Deserialize(EncodeAll(ns)) == Some(map[[] := Int(0)])
            && Value(MapBody(ns)) == Map(map[[97] := Int(0)])
  {
    var ns := [Node([97], IntBody(0))];
    assert AllWellFormed(ns) by { assert ns[1..] == []; }
    assert SizeAll(ns) == Size(ns[0]) == 7 by { assert ns[1..] == []; }
    DeserializeEncoded(ns, []);
    assert EncodeAll(ns) + [] == EncodeAll(ns);
    assert BackAll(ns) == [Entry([], Int(0))];
    assert ValueAll(ns) == [Entry([97], Int(0))];
  }

  // ----- what an application reads is unchanged in any case

  /** One step from a node to another with the accessors of `HtsMap` and `HtsList`. */
  datatype PathStep = Named(name: Bytes) | Indexed(i: nat)

  function Walk(d: Option<Tree>, step: PathStep): Option<Tree> {
    match step
    case Named(name) => GetData(GetMap(d), name)
    case Indexed(i) => GetItem(GetList(d), i)
  }

  function Follow(d: Option<Tree>, path: seq<PathStep>): Option<Tree>
    decreases |path|
  {
    if path == [] then d else Follow(Walk(d, path[0]), path[1..])
  }

  datatype Reading = Reading(u32: U32, s64: Int64, str: Bytes, bin: Bytes, count: nat, isMap: bool, isList: bool)

  function Read(d: Option<Tree>): Reading {
    Reading(GetU32(d), GetS64(d), GetStr(d), GetBin(d), |GetList(d)|,
            d.Some? && d.value.Map?, d.Some? && d.value.List?)
  }

  ghost predicate NonemptyNames(path: seq<PathStep>) {
    forall i :: 0 <= i < |path| && path[i].Named? ==> path[i].name != []
  }

  /** A missing node and a zero integer have nothing in them to be read. */
  lemma {:induction false} FollowNothing(d: Option<Tree>, path: seq<PathStep>)
    requires d == None || d == Some(Int(0))
    ensures Read(Follow(d, path)) == Read(None)
    decreases |path|
  {
    if path != [] {
      assert Walk(d, path[0]) == None;
      FollowNothing(None, path[1..]);
    }
  }

  /** Under a nonempty key stands what came back of the value that stood there before. */
  lemma BackKeySource(ns: seq<Node>, k: Bytes) returns (i: nat)
    requires WellFormedBody(MapBody(ns)) && k != [] && k in SetAll(map[], BackAll(ns))
    ensures i < |ns| && SetAll(map[], BackAll(ns))[k] == BackTree(ns[i].body)
    ensures var before := SetAll(map[], ValueAll(ns));
            k in before && before[k] == Value(ns[i].body) && before[k] != Int(0)
  {
    i := BackSource(ns, k);
    MapValue(ns, i);
  }

  lemma BackKeyKept(ns: seq<Node>, k: Bytes)
    requires WellFormedBody(MapBody(ns)) && k in SetAll(map[], ValueAll(ns))
    requires SetAll(map[], ValueAll(ns))[k] != Int(0)
    ensures k in SetAll(map[], BackAll(ns))
  {
    var i := MapValueSource(ns, k);
    BackAllAt(ns, i);
    BackKeyMember(ns, i);
  }

  lemma {:induction false} BackKeyMember(ns: seq<Node>, i: nat)
    requires i < |ns|
    ensures BackAll(ns)[i].name in SetAll(map[], BackAll(ns))
  {
    var es := BackAll(ns);
    SetAllSplit(map[], es[..i + 1], es[i + 1..]);
    assert es == es[..i + 1] + es[i + 1..] && es[..i + 1] == es[..i] + [es[i]];
    SetAllAppend(map[], es[..i], es[i]);
    SetAllKeeps(SetAll(map[], es[..i + 1]), es[i + 1..], es[i].name);
  }

  /** `contains` afterwards: a zero integer is no longer found under its name, all else is. */
  lemma ContainsAfterwards(ns: seq<Node>, k: Bytes)
    requires WellFormedBody(MapBody(ns)) && k != []
    ensures var before, after := SetAll(map[], ValueAll(ns)), SetAll(map[], BackAll(ns));
            k in after <==> k in before && before[k] != Int(0)
  {
    var before, after := SetAll(map[], ValueAll(ns)), SetAll(map[], BackAll(ns));
    if k in after {
      var i := BackKeySource(ns, k);
    } else if k in before && before[k] != Int(0) {
      BackKeyKept(ns, k);
    }
  }

  /**
   On every path of nonempty names and list positions, `getU32`, `getS64`, `getStr`, `getBin`,
   the length of `getList` and the kind tests answer as they did before the message was
   serialised, zero integers included.
   */
  lemma {:induction false} ReadingsSurvive(b: Body, path: seq<PathStep>)
    requires WellFormedBody(b) && NonemptyNames(path)
    ensures Read(Follow(Some(BackTree(b)), path)) == Read(Follow(Some(Value(b)), path))
    decreases |path|, 0
  {
    if path != [] {
      var step, rest := path[0], path[1..];
      assert NonemptyNames(rest) by {
        forall i | 0 <= i < |rest| && rest[i].Named? ensures rest[i].name != [] {
          assert rest[i] == path[i + 1];
        }
      }
      if step.Named? && b.MapBody? {
        SurviveNamed(b.children, step.name, rest);
      } else if step.Indexed? && b.ListBody? && step.i < |b.children| {
        BackAllAt(b.children, step.i);
        ValueAllAt(b.children, step.i);
        AllWellFormedAt(b.children, step.i);
        ReadingsSurvive(b.children[step.i].body, rest);
      } else {
        assert Walk(Some(BackTree(b)), step) == None && Walk(Some(Value(b)), step) == None;
      }
    }
  }

  lemma {:induction false} SurviveNamed(ns: seq<Node>, k: Bytes, rest: seq<PathStep>)
    requires WellFormedBody(MapBody(ns)) && k != [] && NonemptyNames(rest)
    ensures Read(Follow(GetData(SetAll(map[], BackAll(ns)), k), rest))
         == Read(Follow(GetData(SetAll(map[], ValueAll(ns)), k), rest))
    decreases |rest|, 1
  {
    hide Follow, Read;
    var before, after := SetAll(map[], ValueAll(ns)), SetAll(map[], BackAll(ns));
    ContainsAfterwards(ns, k);
    if k in after {
      var i := BackKeySource(ns, k);
      AllWellFormedAt(ns, i);
      ReadingsSurvive(ns[i].body, rest);
    } else {
      FollowNothing(GetData(after, k), rest);
      FollowNothing(GetData(before, k), rest);
    }
  }

  // ----- what the typed getters return

  /** None of the getters of another kind finds anything. */
  ghost predicate NoNumber(d: Option<Tree>) {
    GetU32(d) == 0 && GetS64(d) == 0
  }

  ghost predicate NoBytes(d: Option<Tree>) {
    GetStr(d) == [] && GetBin(d) == []
  }

  ghost predicate NoChildren(d: Option<Tree>) {
    GetList(d) == [] && GetMap(d) == map[]
  }

  /** The getters of a node, and of what is in it, answer with what b was made of. */
  ghost predicate ReadsAs(d: Option<Tree>, b: Body)
    decreases b
  {
    match b
    case IntBody(num) =>
      GetS64(d) == num && (GetU32(d) - num) % 0x1_0000_0000 == 0 && NoBytes(d) && NoChildren(d)
    case StrBody(str) => GetStr(d) == str && GetBin(d) == [] && NoNumber(d) && NoChildren(d)
    case BinBody(bin) => GetBin(d) == bin && GetStr(d) == [] && NoNumber(d) && NoChildren(d)
    case ListBody(children) =>
      && |GetList(d)| == |children| && GetMap(d) == map[] && NoNumber(d) && NoBytes(d)
      && forall i :: 0 <= i < |children| ==> ReadsAs(GetItem(GetList(d), i), children[i].body)
    case MapBody(children) =>
      && GetList(d) == [] && NoNumber(d) && NoBytes(d)
      && (forall i :: 0 <= i < |children| && children[i].name != [] ==>
            ReadsAs(GetData(GetMap(d), children[i].name), children[i].body))
      && (forall k :: k in GetMap(d) ==> GetData(GetMap(d), k) == Some(GetMap(d)[k]))
      && (forall k :: k in GetMap(d) && k != [] ==> exists i :: 0 <= i < |children| && children[i].name == k)
  }

  /**
   After the round trip every getter returns what was stored, at every depth: the number itself and
   its low 32 bits, the string, the binary, the items of a list in order, the children of a map by
   their nonempty names, and 0 or nothing for every other kind.
   */
  lemma GettersAfterwards(ns: seq<Node>, t: Bytes)
    requires WellFormedBody(MapBody(ns)) && SizeAll(ns) + |t| < TWO_32 && |t| <= 5
    ensures Deserialize(EncodeAll(ns) + t).Some?
    ensures ReadsAs(Some(Map(Deserialize(EncodeAll(ns) + t).value)), MapBody(ns))
  {
    hide Deserialize, EncodeAll, ReadsAs;
    DeserializeEncoded(ns, t);
    BackReads(MapBody(ns));
    assert BackTree(MapBody(ns)) == Map(SetAll(map[], BackAll(ns)));
  }

  lemma {:induction false} BackReads(b: Body)
    requires WellFormedBody(b)
    ensures ReadsAs(Some(BackTree(b)), b)
    decreases b, 1
  {
    if b.MapBody? {
      BackReadsMap(b.children);
    } else if b.ListBody? {
      forall i | 0 <= i < |b.children|
        ensures ReadsAs(GetItem(GetList(Some(BackTree(b))), i), b.children[i].body)
      {
        BackAllAt(b.children, i);
        AllWellFormedAt(b.children, i);
        BackReads(b.children[i].body);
      }
    }
  }

  lemma {:induction false} BackReadsMap(ns: seq<Node>)
    requires WellFormedBody(MapBody(ns))
    ensures ReadsAs(Some(BackTree(MapBody(ns))), MapBody(ns))
    decreases MapBody(ns), 0
  {
    var data := SetAll(map[], BackAll(ns));
    forall i | 0 <= i < |ns| && ns[i].name != [] ensures ReadsAs(GetData(data, ns[i].name), ns[i].body) {
      BackReadsChild(ns, i);
    }
    forall k | k in data && k != [] ensures exists i :: 0 <= i < |ns| && ns[i].name == k {
      var i := BackSource(ns, k);
      assert ns[i].name == k;
    }
  }

  lemma {:induction false} BackReadsChild(ns: seq<Node>, i: nat)
    requires WellFormedBody(MapBody(ns)) && i < |ns| && ns[i].name != []
    ensures ReadsAs(GetData(SetAll(map[], BackAll(ns)), ns[i].name), ns[i].body)
    decreases ns, 0
  {
    hide BackTree, ReadsAs;
    AllWellFormedAt(ns, i);
    ChildAfterwards(ns, i);
    if ns[i].name in SetAll(map[], BackAll(ns)) {
      BackReads(ns[i].body);
    } else {
      ReadsAsZero();
    }
  }

  lemma ReadsAsZero()
    ensures ReadsAs(None, IntBody(0))
  {
  }

  /** Only a zero integer goes missing from under its name. */
  lemma ChildAfterwards(ns: seq<Node>, i: nat)
    requires WellFormedBody(MapBody(ns)) && i < |ns| && ns[i].name != []
    ensures var data, k := SetAll(map[], BackAll(ns)), ns[i].name;
            if k in data then data[k] == BackTree(ns[i].body) else ns[i].body == IntBody(0)
  {
    hide BackTree, Value;
    var k := ns[i].name;
    ContainsAfterwards(ns, k);
    MapValue(ns, i);
    if k in SetAll(map[], BackAll(ns)) {
      var j := BackSource(ns, k);
      assert Back(ns[j]).name == k && ns[j].name == k;
    } else {
      IntValue(ns[i].body);
    }
  }

  lemma IntValue(b: Body)
    ensures Value(b) == Int(0) <==> b == IntBody(0)
  {
  }
}
