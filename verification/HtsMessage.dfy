/**
 The HTSMSG node hierarchy of htsmessage.h.

 A `Node` is a tree as the encoder sees it: every node carries its own name, and the children
 of a map stand in the order in which its unordered container happens to be iterated. A `Tree`
 is what such a node holds once names are keys and that order is forgotten; it is what the
 parser builds and what the typed accessors read.
 */
module HtsMessage {
  import opened Words

  datatype Node = Node(name: Bytes, body: Body)

  datatype Body =
    | MapBody(children: seq<Node>)
    | ListBody(children: seq<Node>)
    | IntBody(num: Int64)
    | StrBody(str: Bytes)
    | BinBody(bin: Bytes)

  datatype Tree =
    | Map(data: map<Bytes, Tree>)
    | List(items: seq<Tree>)
    | Int(num: Int64)
    | Str(str: Bytes)
    | Bin(bin: Bytes)

  /** A node with its name, as a parsing constructor leaves it. */
  datatype Entry = Entry(name: Bytes, tree: Tree)

  /** `HtsMap::setData` once per entry, in order: a later entry replaces an earlier one. */
  function SetAll(acc: map<Bytes, Tree>, es: seq<Entry>): map<Bytes, Tree>
    decreases |es|
  {
    if es == [] then acc else SetAll(acc[es[0].name := es[0].tree], es[1..])
  }

  /** `HtsList::appendData` once per entry: names are dropped. */
  function Trees(es: seq<Entry>): (ts: seq<Tree>)
    ensures |ts| == |es|
  {
    seq(|es|, i requires 0 <= i < |es| => es[i].tree)
  }

  // ----- what a node holds

  function Value(b: Body): Tree {
    match b
    case MapBody(children) => Map(SetAll(map[], ValueAll(children)))
    case ListBody(children) => List(Trees(ValueAll(children)))
    case IntBody(num) => Int(num)
    case StrBody(str) => Str(str)
    case BinBody(bin) => Bin(bin)
  }

  function ValueAll(ns: seq<Node>): (es: seq<Entry>)
    ensures |es| == |ns|
  {
    if ns == [] then [] else [Entry(ns[0].name, Value(ns[0].body))] + ValueAll(ns[1..])
  }

  lemma {:induction false} ValueAllAt(ns: seq<Node>, i: nat)
    requires i < |ns|
    ensures ValueAll(ns)[i] == Entry(ns[i].name, Value(ns[i].body))
  {
    if i > 0 {
      ValueAllAt(ns[1..], i - 1);
    }
  }

  ghost predicate DistinctNames(ns: seq<Node>) {
    forall i, j :: 0 <= i < j < |ns| ==> ns[i].name != ns[j].name
  }

  ghost predicate Unnamed(ns: seq<Node>) {
    forall i :: 0 <= i < |ns| ==> ns[i].name == []
  }

  /**
   What building a message with `setData` and `appendData` guarantees: map children stand under
   distinct names, list items under the empty name.
   */
  ghost predicate Built(b: Body) {
    match b
    case MapBody(children) => DistinctNames(children) && AllBuilt(children)
    case ListBody(children) => Unnamed(children) && AllBuilt(children)
    case _ => true
  }

  ghost predicate AllBuilt(ns: seq<Node>) {
    ns == [] || (Built(ns[0].body) && AllBuilt(ns[1..]))
  }

  lemma {:induction false} AllBuiltAt(ns: seq<Node>, i: nat)
    requires AllBuilt(ns) && i < |ns|
    ensures Built(ns[i].body)
  {
    if i > 0 {
      AllBuiltAt(ns[1..], i - 1);
    }
  }

  /** And, at all levels, names that fit their length byte. */
  ghost predicate WellFormed(n: Node) {
    |n.name| <= 255 && WellFormedBody(n.body)
  }

  ghost predicate WellFormedBody(b: Body) {
    match b
    case MapBody(children) => DistinctNames(children) && AllWellFormed(children)
    case ListBody(children) => Unnamed(children) && AllWellFormed(children)
    case _ => true
  }

  ghost predicate AllWellFormed(ns: seq<Node>) {
    ns == [] || (WellFormed(ns[0]) && AllWellFormed(ns[1..]))
  }

  lemma {:induction false} AllWellFormedAt(ns: seq<Node>, i: nat)
    requires AllWellFormed(ns) && i < |ns|
    ensures WellFormed(ns[i])
  {
    if i > 0 {
      AllWellFormedAt(ns[1..], i - 1);
    }
  }

  lemma {:induction false} WellFormedFrom(ns: seq<Node>)
    requires forall i :: 0 <= i < |ns| ==> WellFormed(ns[i])
    ensures AllWellFormed(ns)
  {
    if ns != [] {
      WellFormedFrom(ns[1..]);
    }
  }

  /** No name in the tree is longer than a length byte can say. */
  ghost predicate NamesFit(t: Tree) {
    match t
    case Map(data) => forall k :: k in data ==> |k| <= 255 && NamesFit(data[k])
    case List(items) => forall i :: 0 <= i < |items| ==> NamesFit(items[i])
    case _ => true
  }

  // ----- properties of setData sequences

  lemma SetAllNone(acc: map<Bytes, Tree>)
    ensures SetAll(acc, []) == acc
  {
  }

  lemma SetAllAppend(acc: map<Bytes, Tree>, es: seq<Entry>, e: Entry)
    ensures SetAll(acc, es + [e]) == SetAll(acc, es)[e.name := e.tree]
  {
    SetAllSplit(acc, es, [e]);
  }

  lemma {:induction false} SetAllSplit(acc: map<Bytes, Tree>, es: seq<Entry>, fs: seq<Entry>)
    ensures SetAll(acc, es + fs) == SetAll(SetAll(acc, es), fs)
    decreases |es|
  {
    if es == [] {
      assert es + fs == fs;
    } else {
      assert (es + fs)[1..] == es[1..] + fs;
      SetAllSplit(acc[es[0].name := es[0].tree], es[1..], fs);
    }
  }

  /** Where an entry found in the map came from. */
  lemma {:induction false} SetAllSource(acc: map<Bytes, Tree>, es: seq<Entry>, k: Bytes)
    requires k in SetAll(acc, es)
    ensures (k in acc && SetAll(acc, es)[k] == acc[k])
         || (exists i :: 0 <= i < |es| && es[i].name == k && SetAll(acc, es)[k] == es[i].tree)
    decreases |es|
  {
    if es != [] {
      var acc' := acc[es[0].name := es[0].tree];
      SetAllSource(acc', es[1..], k);
      if k in acc' && SetAll(acc', es[1..])[k] == acc'[k] {
        if k == es[0].name {
          assert es[0].name == k && SetAll(acc, es)[k] == es[0].tree;
        }
      } else {
        var i :| 0 <= i < |es[1..]| && es[1..][i].name == k && SetAll(acc', es[1..])[k] == es[1..][i].tree;
        assert es[i + 1] == es[1..][i];
      }
    }
  }

  /** Keys are kept, and a key that no entry names keeps its value. */
  lemma {:induction false} SetAllKeeps(acc: map<Bytes, Tree>, es: seq<Entry>, k: Bytes)
    ensures k in acc ==> k in SetAll(acc, es)
    ensures (forall i :: 0 <= i < |es| ==> es[i].name != k) ==>
              (k in SetAll(acc, es) <==> k in acc) && (k in acc ==> SetAll(acc, es)[k] == acc[k])
    decreases |es|
  {
    if es != [] {
      SetAllKeeps(acc[es[0].name := es[0].tree], es[1..], k);
    }
  }

  /** The last entry under a name decides. */
  lemma {:induction false} SetAllFinds(acc: map<Bytes, Tree>, es: seq<Entry>, i: nat)
    requires i < |es|
    requires forall j :: i < j < |es| ==> es[j].name != es[i].name
    ensures es[i].name in SetAll(acc, es) && SetAll(acc, es)[es[i].name] == es[i].tree
    decreases |es|
  {
    var acc' := acc[es[0].name := es[0].tree];
    if i == 0 {
      SetAllKeeps(acc', es[1..], es[0].name);
    } else {
      SetAllFinds(acc', es[1..], i - 1);
    }
  }

  /** A map of children with distinct names holds exactly those children. */
  lemma MapValue(ns: seq<Node>, i: nat)
    requires DistinctNames(ns) && i < |ns|
    ensures var data := SetAll(map[], ValueAll(ns));
            ns[i].name in data && data[ns[i].name] == Value(ns[i].body)
  {
    forall j | i <= j < |ns| ensures ValueAll(ns)[j].name == ns[j].name {
      ValueAllAt(ns, j);
    }
    ValueAllAt(ns, i);
    SetAllFinds(map[], ValueAll(ns), i);
  }

  lemma MapValueSource(ns: seq<Node>, k: Bytes) returns (i: nat)
    requires k in SetAll(map[], ValueAll(ns))
    ensures i < |ns| && ns[i].name == k && SetAll(map[], ValueAll(ns))[k] == Value(ns[i].body)
  {
    SetAllSource(map[], ValueAll(ns), k);
    i :| 0 <= i < |ns| && ValueAll(ns)[i].name == k && SetAll(map[], ValueAll(ns))[k] == ValueAll(ns)[i].tree;
    ValueAllAt(ns, i);
  }

  /** A built message whose names fit is well-formed. */
  lemma {:induction false} BuiltFits(b: Body)
    requires Built(b) && NamesFit(Value(b))
    ensures WellFormedBody(b)
    decreases b
  {
    if b.MapBody? || b.ListBody? {
      forall i | 0 <= i < |b.children| ensures WellFormed(b.children[i]) {
        AllBuiltAt(b.children, i);
        ValueAllAt(b.children, i);
        if b.MapBody? {
          MapValue(b.children, i);
        } else {
          assert Trees(ValueAll(b.children))[i] == Value(b.children[i].body);
        }
        BuiltFits(b.children[i].body);
      }
      WellFormedFrom(b.children);
    }
  }

  // ----- the typed accessors

  /** `HtsMap::getData`: None stands for the default `HtsData` it makes for a missing name. */
  function GetData(data: map<Bytes, Tree>, name: Bytes): Option<Tree> {
    if name in data then Some(data[name]) else None
  }

  function GetU32(d: Option<Tree>): U32 {
    if d.Some? && d.value.Int? then d.value.num % TWO_32 else 0
  }

  function GetS64(d: Option<Tree>): Int64 {
    if d.Some? && d.value.Int? then d.value.num else 0
  }

  function GetStr(d: Option<Tree>): Bytes {
    if d.Some? && d.value.Str? then d.value.str else []
  }

  function GetBin(d: Option<Tree>): Bytes {
    if d.Some? && d.value.Bin? then d.value.bin else []
  }

  /** `HtsMap::getList`: an empty list for anything that is not one. */
  function GetList(d: Option<Tree>): seq<Tree> {
    if d.Some? && d.value.List? then d.value.items else []
  }

  /** `HtsMap::getMap`: an empty map for anything that is not one. */
  function GetMap(d: Option<Tree>): map<Bytes, Tree> {
    if d.Some? && d.value.Map? then d.value.data else map[]
  }

  /** `HtsList::getData(n)`. */
  function GetItem(items: seq<Tree>, n: nat): Option<Tree> {
    if n >= |items| then None else Some(items[n])
  }
}
