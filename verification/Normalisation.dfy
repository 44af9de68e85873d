/**
 Serialising and parsing twice. The parsed message has to be listed in some iteration order to be
 serialised again; that order is free, and the message is never larger than the first one.
 */
module Normalisation {
  import opened Words
  import opened HtsMessage
  import opened IntCodec
  import opened Encoding
  import opened Decoding
  import opened RoundTrip

  // ----- the size of a message does not depend on iteration order

  /** The payload size of a tree, its maps summed up in an arbitrary order. */
  ghost function TreeSize(t: Tree): nat
    decreases t, 1, 0
  {
    match t
    case Map(data) => SumKeys(t, data.Keys)
    case List(items) => SumItems(items)
    case Int(num) => |IntBytes(num)|
    case Str(str) => |str|
    case Bin(bin) => |bin|
  }

  ghost function SumKeys(t: Tree, keys: set<Bytes>): nat
    requires t.Map? && keys <= t.data.Keys
    decreases t, 0, |keys|
  {
    if keys == {} then 0
    else
      var k :| k in keys;
      6 + |k| + TreeSize(t.data[k]) + SumKeys(t, keys - {k})
  }

  ghost function SumItems(items: seq<Tree>): nat
    decreases items, 0, 0
  {
    if items == [] then 0 else 6 + TreeSize(items[0]) + SumItems(items[1..])
  }

  lemma {:induction false} SumKeysWithout(t: Tree, keys: set<Bytes>, k: Bytes)
    requires t.Map? && keys <= t.data.Keys && k in keys
    ensures SumKeys(t, keys) == 6 + |k| + TreeSize(t.data[k]) + SumKeys(t, keys - {k})
    decreases |keys|
  {
    hide TreeSize;
    var j :| j in keys && SumKeys(t, keys) == 6 + |j| + TreeSize(t.data[j]) + SumKeys(t, keys - {j});
    if j != k {
      SumKeysWithout(t, keys - {j}, k);
      SumKeysWithout(t, keys - {k}, j);
      assert keys - {j} - {k} == keys - {k} - {j};
    }
  }

  lemma {:induction false} SumKeysAgree(t: Tree, u: Tree, keys: set<Bytes>)
    requires t.Map? && u.Map? && keys <= t.data.Keys && keys <= u.data.Keys
    requires forall k :: k in keys ==> t.data[k] == u.data[k]
    ensures SumKeys(t, keys) == SumKeys(u, keys)
    decreases |keys|
  {
    hide TreeSize;
    if keys != {} {
      var k :| k in keys;
      SumKeysWithout(t, keys, k);
      SumKeysWithout(u, keys, k);
      SumKeysAgree(t, u, keys - {k});
    }
  }

  /** Every listing of a tree has the size of the tree. */
  lemma {:induction false} ListingSize(b: Body)
    requires Built(b)
    ensures PayloadSize(b) == TreeSize(Value(b))
    decreases b, 1, 0
  {
    hide IntBytes;
    if b.MapBody? {
      var t := Value(b);
      KeysAreNames(b.children);
      forall i | 0 <= i < |b.children|
        ensures b.children[i].name in t.data && t.data[b.children[i].name] == Value(b.children[i].body)
      {
        MapValue(b.children, i);
      }
      ChildrenSize(t, b.children);
    } else if b.ListBody? {
      ItemsSize(b.children);
    }
  }

  ghost function Names(ns: seq<Node>): set<Bytes> {
    if ns == [] then {} else {ns[0].name} + Names(ns[1..])
  }

  lemma {:induction false} NamesHas(ns: seq<Node>, k: Bytes)
    ensures k in Names(ns) <==> exists i :: 0 <= i < |ns| && ns[i].name == k
  {
    if ns != [] {
      NamesHas(ns[1..], k);
      if k in Names(ns[1..]) {
        var i :| 0 <= i < |ns[1..]| && ns[1..][i].name == k;
        assert ns[i + 1].name == k;
      }
      if i :| 0 < i < |ns| && ns[i].name == k {
        assert ns[1..][i - 1].name == k;
      }
    }
  }

  lemma KeysAreNames(ns: seq<Node>)
    requires DistinctNames(ns)
    ensures SetAll(map[], ValueAll(ns)).Keys == Names(ns)
  {
    var data := SetAll(map[], ValueAll(ns));
    forall k ensures k in data <==> k in Names(ns) {
      NamesHas(ns, k);
      if k in data {
        var i := MapValueSource(ns, k);
      }
      if i :| 0 <= i < |ns| && ns[i].name == k {
        MapValue(ns, i);
      }
    }
  }

  lemma {:induction false} ChildrenSize(t: Tree, ns: seq<Node>)
    requires Built(MapBody(ns)) && t.Map? && Names(ns) <= t.data.Keys
    requires forall i :: 0 <= i < |ns| ==> ns[i].name in t.data && t.data[ns[i].name] == Value(ns[i].body)
    ensures SizeAll(ns) == SumKeys(t, Names(ns))
    decreases ns, 0, 0
  {
    hide TreeSize, Value;
    if ns != [] {
      var k, rest := ns[0].name, ns[1..];
      assert k !in Names(rest) by { NamesHas(rest, k); }
      assert Names(ns) - {k} == Names(rest);
      SumKeysWithout(t, Names(ns), k);
      ListingSize(ns[0].body);
      ChildrenSize(t, rest);
    }
  }

  lemma {:induction false} ItemsSize(ns: seq<Node>)
    requires Unnamed(ns) && AllBuilt(ns)
    ensures SizeAll(ns) == SumItems(Trees(ValueAll(ns)))
    decreases ns, 0, 0
  {
    hide TreeSize, Value;
    if ns != [] {
      ListingSize(ns[0].body);
      ItemsSize(ns[1..]);
      assert Trees(ValueAll(ns))[1..] == Trees(ValueAll(ns[1..]));
    }
  }

  // ----- what comes back is not larger

  ghost function SumEntries(es: seq<Entry>): nat {
    if es == [] then 0 else 6 + |es[0].name| + TreeSize(es[0].tree) + SumEntries(es[1..])
  }

  lemma SetSize(acc: map<Bytes, Tree>, k: Bytes, v: Tree)
    ensures TreeSize(Map(acc[k := v])) <= TreeSize(Map(acc)) + 6 + |k| + TreeSize(v)
  {
    var t, u, others := Map(acc), Map(acc[k := v]), acc.Keys - {k};
    assert u.data.Keys - {k} == others;
    SumKeysWithout(u, u.data.Keys, k);
    SumKeysAgree(t, u, others);
    if k in acc {
      SumKeysWithout(t, acc.Keys, k);
    } else {
      assert others == acc.Keys;
    }
  }

  lemma {:induction false} SetAllSize(acc: map<Bytes, Tree>, es: seq<Entry>)
    ensures TreeSize(Map(SetAll(acc, es))) <= TreeSize(Map(acc)) + SumEntries(es)
    decreases |es|
  {
    hide TreeSize;
    if es != [] {
      SetSize(acc, es[0].name, es[0].tree);
      SetAllSize(acc[es[0].name := es[0].tree], es[1..]);
    }
  }

  lemma {:induction false} BackSize(b: Body)
    ensures TreeSize(BackTree(b)) <= PayloadSize(b)
    decreases b
  {
    if b.MapBody? {
      SetAllSize(map[], BackAll(b.children));
      assert TreeSize(Map(map[])) == 0;
      BackAllSize(b.children);
    } else if b.ListBody? {
      BackAllSize(b.children);
    }
  }

  lemma {:induction false} BackAllSize(ns: seq<Node>)
    ensures SumEntries(BackAll(ns)) <= SizeAll(ns)
    ensures SumItems(Trees(BackAll(ns))) <= SizeAll(ns)
    decreases ns
  {
    hide TreeSize, BackTree;
    if ns != [] {
      BackSize(ns[0].body);
      BackAllSize(ns[1..]);
      assert Trees(BackAll(ns))[1..] == Trees(BackAll(ns[1..]));
    }
  }

  // ----- every tree can be listed

  /** Every tree is the value of some built message. */
  lemma {:induction false} ListTree(t: Tree) returns (b: Body)
    ensures Built(b) && Value(b) == t
    decreases t, 1, 0
  {
    match t {
      case Map(data) =>
        var ns := ListKeys(t, data.Keys);
        b := MapBody(ns);
        KeysAreNames(ns);
        forall k | k in data ensures SetAll(map[], ValueAll(ns))[k] == data[k] {
          var i := MapValueSource(ns, k);
        }
        assert SetAll(map[], ValueAll(ns)) == data;
      case List(items) =>
        var ns := ListItems(items);
        b := ListBody(ns);
      case Int(num) => b := IntBody(num);
      case Str(str) => b := StrBody(str);
      case Bin(bin) => b := BinBody(bin);
    }
  }

  lemma {:induction false} ListKeys(t: Tree, keys: set<Bytes>) returns (ns: seq<Node>)
    requires t.Map? && keys <= t.data.Keys
    ensures DistinctNames(ns) && AllBuilt(ns) && Names(ns) == keys
    ensures forall i :: 0 <= i < |ns| ==> ns[i].name in t.data && Value(ns[i].body) == t.data[ns[i].name]
    decreases t, 0, |keys|
  {
    hide Value, Built;
    if keys == {} {
      ns := [];
    } else {
      var k :| k in keys;
      var b := ListTree(t.data[k]);
      var rest := ListKeys(t, keys - {k});
      ns := [Node(k, b)] + rest;
      assert ns[1..] == rest;
      forall i | 0 <= i < |rest| ensures rest[i].name != k {
        NamesHas(rest, rest[i].name);
      }
    }
  }

  lemma {:induction false} ListItems(items: seq<Tree>) returns (ns: seq<Node>)
    ensures Unnamed(ns) && AllBuilt(ns) && Trees(ValueAll(ns)) == items
    decreases items, 0, 0
  {
    if items == [] {
      ns := [];
    } else {
      var b := ListTree(items[0]);
      var rest := ListItems(items[1..]);
      ns := [Node([], b)] + rest;
      assert ns[1..] == rest;
      assert Trees(ValueAll(ns)) == [Value(b)] + Trees(ValueAll(rest));
    }
  }

  // ----- twice is once

  /** A parsed message can be listed for being serialised again, so there is a second time. */
  lemma ParsedCanBeListed(ns: seq<Node>, s: Bytes) returns (ms: seq<Node>)
    requires WellFormedBody(MapBody(ns)) && SizeAll(ns) + |s| < TWO_32 && |s| <= 5
    ensures Deserialize(EncodeAll(ns) + s).Some?
    ensures Built(MapBody(ms)) && Value(MapBody(ms)) == Map(Deserialize(EncodeAll(ns) + s).value)
  {
    hide Deserialize, EncodeAll, NamesFit;
    DeserializeEncoded(ns, s);
    var b := ListTree(BackTree(MapBody(ns)));
    ms := if b.MapBody? then b.children else [];
  }

  /**
   Serialise, parse, list the result in any order, serialise and parse again: the second message
   still fits, and it equals the first one parsed. So parsing what was serialised normalises.
   */
  lemma TwiceIsOnce(ns: seq<Node>, s: Bytes, ms: seq<Node>, t: Bytes)
    requires WellFormedBody(MapBody(ns)) && SizeAll(ns) + |s| < TWO_32 && |s| <= 5
    requires SizeAll(ns) + |t| < TWO_32 && |t| <= 5
    requires Deserialize(EncodeAll(ns) + s).Some?
    requires Built(MapBody(ms)) && Value(MapBody(ms)) == Map(Deserialize(EncodeAll(ns) + s).value)
    ensures SizeAll(ms) <= SizeAll(ns)
    ensures Deserialize(EncodeAll(ms) + t) == Deserialize(EncodeAll(ns) + s)
  {
    hide Deserialize, EncodeAll, NoNamedZero, NamesFit;
    DeserializeEncoded(ns, s);
    assert Value(MapBody(ms)) == BackTree(MapBody(ns));
    ListingSize(MapBody(ms));
    BackSize(MapBody(ns));
    DeserializedNamesFit(EncodeAll(ns) + s);
    BackHasNoNamedZero(MapBody(ns));
    RoundTripExact(ms, t);
  }

  ghost predicate Lists(ns: seq<Node>, t: Tree) {
    Built(MapBody(ns)) && Value(MapBody(ns)) == t
  }

  predicate ComesBack(ns: seq<Node>, t: Tree) {
    |EncodeAll(ns)| < TWO_32 && t.Map? && Deserialize(EncodeAll(ns)) == Some(t.data)
  }

  /**
   The fixed points, whatever the order they are listed in, are exactly the messages whose names
   fit and that have no zero integer under a nonempty key.
   */
  lemma FixedPointsExactly(t: Tree)
    requires t.Map? && TreeSize(t) < TWO_32
    ensures NamesFit(t) && NoNamedZero(t) <==> forall ns :: Lists(ns, t) ==> ComesBack(ns, t)
  {
    hide Deserialize, EncodeAll, NoNamedZero, TreeSize, NamesFit, Built;
    forall ns | Lists(ns, t) ensures ComesBack(ns, t) <==> NamesFit(t) && NoNamedZero(t) {
      ListingSize(MapBody(ns));
      RoundTripExact(ns, []);
      assert EncodeAll(ns) + [] == EncodeAll(ns);
    }
    var b := ListTree(t);
    assert b.MapBody? && b == MapBody(b.children);
    assert Lists(b.children, t);
  }
}
