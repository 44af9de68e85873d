/**
 The deque of HtspMsgQueue.cpp, shared by everyone who waits for a message. Each method is one
 region under the queue's lock; waiting on the condition variable is not part of the model.
 */
module MsgQueue {
  import opened Words
  import opened HtsMessage
  import opened Parser

  const SEQ: Bytes := Ascii("seq")
  const METHOD: Bytes := Ascii("method")
  const SUBSCRIPTION_ID: Bytes := Ascii("subscriptionId")

  /** What a requester looks for: the reply to a number, or the events of a subscription. */
  datatype Key = Sequence(number: U32) | Subscription(id: U32)

  predicate HasSequence(root: map<Bytes, Tree>) {
    SEQ in root
  }

  predicate IsSubscriptionEvent(root: map<Bytes, Tree>) {
    var name := GetStr(GetData(root, METHOD));
    name == Ascii("subscriptionGrace") || name == Ascii("subscriptionStatus")
    || name == Ascii("subscriptionStart")
  }

  /** The comparisons of `FindFirstSequence` and of the scan in `SubscribeChannelAsync`. */
  predicate Matches(key: Key, msg: Message) {
    msg.Valid? &&
    match key
    case Sequence(number) => HasSequence(msg.root) && GetU32(GetData(msg.root, SEQ)) == number
    case Subscription(id) => IsSubscriptionEvent(msg.root) && GetU32(GetData(msg.root, SUBSCRIPTION_ID)) == id
  }

  /** The names that messages are told apart by, spelt out. */
  lemma KeysSpelt()
    ensures Spelt(SEQ, "seq") && Spelt(METHOD, "method") && Spelt(SUBSCRIPTION_ID, "subscriptionId")
  {
  }

  /** What makes a message one for a key, in terms of what it holds under which name. */
  lemma MatchesExactly(msg: Message, number: U32, id: U32)
    requires msg.Valid?
    ensures Matches(Sequence(number), msg)
            <==> SEQ in msg.root
                 && number == if msg.root[SEQ].Int? then msg.root[SEQ].num % 0x1_0000_0000 else 0
    ensures Matches(Subscription(id), msg)
            <==> && METHOD in msg.root && msg.root[METHOD].Str?
                 && (|| Spelt(msg.root[METHOD].str, "subscriptionGrace")
                     || Spelt(msg.root[METHOD].str, "subscriptionStatus")
                     || Spelt(msg.root[METHOD].str, "subscriptionStart"))
                 && id == if SUBSCRIPTION_ID in msg.root && msg.root[SUBSCRIPTION_ID].Int?
                          then msg.root[SUBSCRIPTION_ID].num % 0x1_0000_0000 else 0
  {
    hide Ascii, Spelt;
    EventsSpelt(GetStr(GetData(msg.root, METHOD)));
  }

  lemma EventsSpelt(name: Bytes)
    ensures name == Ascii("subscriptionGrace") <==> Spelt(name, "subscriptionGrace")
    ensures name == Ascii("subscriptionStatus") <==> Spelt(name, "subscriptionStatus")
    ensures name == Ascii("subscriptionStart") <==> Spelt(name, "subscriptionStart")
    ensures name == [] ==> !Spelt(name, "subscriptionGrace") && !Spelt(name, "subscriptionStatus")
                           && !Spelt(name, "subscriptionStart")
  {
    hide Ascii;
    SpeltExactly(name, "subscriptionGrace");
    SpeltExactly(name, "subscriptionStatus");
    SpeltExactly(name, "subscriptionStart");
  }

  ghost predicate AllValid(q: seq<Message>) {
    forall i :: 0 <= i < |q| ==> q[i].Valid?
  }

  /** The position of the first message for a key. */
  function FirstIndex(q: seq<Message>, key: Key): (r: Option<nat>)
    ensures r.Some? ==> r.value < |q| && Matches(key, q[r.value])
                        && forall j :: 0 <= j < r.value ==> !Matches(key, q[j])
    ensures r.None? ==> forall j :: 0 <= j < |q| ==> !Matches(key, q[j])
  {
    if q == [] then None
    else if Matches(key, q[0]) then Some(0)
    else
      match FirstIndex(q[1..], key)
      case None =>
        assert forall j :: 1 <= j < |q| ==> q[j] == q[1..][j - 1];
        None
      case Some(k) =>
        assert forall j :: 1 <= j < |q| ==> q[j] == q[1..][j - 1];
        Some(k + 1)
  }

  function RemoveAt<T>(q: seq<T>, i: nat): (r: seq<T>)
    requires i < |q|
    ensures |r| == |q| - 1
  {
    q[..i] + q[i + 1..]
  }

  class HtspMsgQueue {
    var queue: seq<Message>

    constructor ()
      ensures queue == []
    {
      queue := [];
    }

    method EnqueueMsg(msg: Message)
      modifies this
      ensures queue == old(queue) + [msg]
      ensures (None, queue) == Do(old(queue), Enqueue(msg))
    {
      queue := queue + [msg];
    }

    /** Scans from the front; the first message that satisfies `cmp` is erased and returned. */
    method FindFirst(cmp: Message -> bool) returns (found: bool, msg: Message)
      modifies this
      ensures !found ==> queue == old(queue) && forall j :: 0 <= j < |queue| ==> !cmp(queue[j])
      ensures found ==> exists k :: 0 <= k < |old(queue)| && msg == old(queue)[k] && cmp(msg)
                                    && queue == RemoveAt(old(queue), k)
                                    && forall j :: 0 <= j < k ==> !cmp(old(queue)[j])
    {
      var it := 0;
      while it != |queue|
        invariant 0 <= it <= |queue| && queue == old(queue)
        invariant forall j :: 0 <= j < it ==> !cmp(queue[j])
      {
        if cmp(queue[it]) {
          msg := queue[it];
          queue := RemoveAt(queue, it);
          return true, msg;
        }
        it := it + 1;
      }
      return false, Invalid;
    }

    /** The same scan for a reply; every queued message must have a root to look into. */
    method FindFirstSequence(sequence: U32) returns (found: bool, msg: Message)
      requires AllValid(queue)
      modifies this
      ensures found == FirstIndex(old(queue), Sequence(sequence)).Some?
      ensures !found ==> queue == old(queue)
      ensures found ==> var k := FirstIndex(old(queue), Sequence(sequence)).value;
                        msg == old(queue)[k] && queue == RemoveAt(old(queue), k)
      ensures (if found then Some(msg) else None, queue) == Do(old(queue), Find(Sequence(sequence)))
    {
      var it := 0;
      while it != |queue|
        invariant 0 <= it <= |queue| && queue == old(queue)
        invariant forall j :: 0 <= j < it ==> !Matches(Sequence(sequence), queue[j])
      {
        if SEQ in queue[it].root && GetU32(GetData(queue[it].root, SEQ)) == sequence {
          msg := queue[it];
          queue := RemoveAt(queue, it);
          return true, msg;
        }
        it := it + 1;
      }
      return false, Invalid;
    }

    /** The look-up of `SubscribeChannelAsync`: `FindFirst` with its comparison, which looks into each root. */
    method FindSubscriptionEvent(id: U32) returns (found: bool, msg: Message)
      requires AllValid(queue)
      modifies this
      ensures (if found then Some(msg) else None, queue) == Do(old(queue), Find(Subscription(id)))
    {
      found, msg := FindFirst(m => Matches(Subscription(id), m));
      if found {
        ghost var q := old(queue);
        ghost var k :| 0 <= k < |q| && msg == q[k] && queue == RemoveAt(q, k) && Matches(Subscription(id), msg)
                 && forall j :: 0 <= j < k ==> !Matches(Subscription(id), q[j]);
        FirstUnique(q, Subscription(id), k);
      }
    }

    /** One attempt of `GetMsg`: the front message, whoever it was meant for. */
    method GetMsg() returns (got: bool, msg: Message)
      modifies this
      ensures got == (old(queue) != [])
      ensures got ==> msg == old(queue)[0] && queue == old(queue)[1..]
      ensures !got ==> queue == old(queue)
      ensures (if got then Some(msg) else None, queue) == Do(old(queue), Get)
    {
      if queue != [] {
        msg := queue[0];
        queue := queue[1..];
        return true, msg;
      }
      return false, Invalid;
    }
  }

  // ----- runs of the queue

  datatype Op = Enqueue(msg: Message) | Find(key: Key) | Get

  /** One operation: what it hands out and the queue it leaves. */
  function Do(q: seq<Message>, op: Op): (Option<Message>, seq<Message>) {
    match op
    case Enqueue(msg) => (None, q + [msg])
    case Find(key) =>
      (match FirstIndex(q, key)
       case None => (None, q)
       case Some(k) => (Some(q[k]), RemoveAt(q, k)))
    case Get => if q == [] then (None, q) else (Some(q[0]), q[1..])
  }

  /** What each operation of a run hands out. */
  function Results(q: seq<Message>, ops: seq<Op>): (rs: seq<Option<Message>>)
    ensures |rs| == |ops|
    decreases |ops|
  {
    if ops == [] then [] else [Do(q, ops[0]).0] + Results(Do(q, ops[0]).1, ops[1..])
  }

  function QueueAfter(q: seq<Message>, ops: seq<Op>): seq<Message>
    decreases |ops|
  {
    if ops == [] then q else QueueAfter(Do(q, ops[0]).1, ops[1..])
  }

  /** One more operation after a run. */
  lemma {:induction false} RunMore(q: seq<Message>, ops: seq<Op>, op: Op)
    ensures QueueAfter(q, ops + [op]) == Do(QueueAfter(q, ops), op).1
    ensures Results(q, ops + [op]) == Results(q, ops) + [Do(QueueAfter(q, ops), op).0]
    decreases |ops|
  {
    hide Do;
    if ops == [] {
      assert ops + [op] == [op] && [op][1..] == [];
    } else {
      assert (ops + [op])[1..] == ops[1..] + [op];
      RunMore(Do(q, ops[0]).1, ops[1..], op);
    }
  }

  // ----- private mailboxes

  /** The messages of a queue that are for one key, in order. */
  function Mailbox(q: seq<Message>, key: Key): seq<Message> {
    if q == [] then [] else (if Matches(key, q[0]) then [q[0]] else []) + Mailbox(q[1..], key)
  }

  /** A FIFO mailbox of one key's own: it stores what is for the key and gives up its head. */
  function DoPrivate(box: seq<Message>, key: Key, op: Op): (Option<Message>, seq<Message>) {
    match op
    case Enqueue(msg) => (None, if Matches(key, msg) then box + [msg] else box)
    case Find(k) => if k != key || box == [] then (None, box) else (Some(box[0]), box[1..])
    case Get => (None, box)
  }

  function PrivateResults(box: seq<Message>, key: Key, ops: seq<Op>): (rs: seq<Option<Message>>)
    ensures |rs| == |ops|
    decreases |ops|
  {
    if ops == [] then []
    else [DoPrivate(box, key, ops[0]).0] + PrivateResults(DoPrivate(box, key, ops[0]).1, key, ops[1..])
  }

  /** No two keys claim the message. */
  ghost predicate Unambiguous(msg: Message) {
    forall k, l :: Matches(k, msg) && Matches(l, msg) ==> k == l
  }

  /** Only a subscription event that carries a sequence number as well is ambiguous. */
  lemma UnambiguousExactly(msg: Message)
    requires msg.Valid?
    ensures Unambiguous(msg) <==> !(HasSequence(msg.root) && IsSubscriptionEvent(msg.root))
  {
    var n, id := GetU32(GetData(msg.root, SEQ)), GetU32(GetData(msg.root, SUBSCRIPTION_ID));
    if HasSequence(msg.root) && IsSubscriptionEvent(msg.root) {
      assert Matches(Sequence(n), msg) && Matches(Subscription(id), msg);
    }
  }

  ghost predicate AllUnambiguous(q: seq<Message>) {
    forall i :: 0 <= i < |q| ==> Unambiguous(q[i])
  }

  /** Operations of requesters who look for keys, on messages that are for one of them at most. */
  ghost predicate Mailable(ops: seq<Op>) {
    forall i :: 0 <= i < |ops| ==> !ops[i].Get? && (ops[i].Enqueue? ==> Unambiguous(ops[i].msg))
  }

  lemma {:induction false} MailboxConcat(q: seq<Message>, r: seq<Message>, key: Key)
    ensures Mailbox(q + r, key) == Mailbox(q, key) + Mailbox(r, key)
  {
    hide Matches;
    if q == [] {
      assert q + r == r;
    } else {
      var first := if Matches(key, q[0]) then [q[0]] else [];
      assert (q + r)[0] == q[0] && (q + r)[1..] == q[1..] + r;
      MailboxConcat(q[1..], r, key);
      assert Mailbox(q, key) == first + Mailbox(q[1..], key);
      assert Mailbox(q + r, key) == first + (Mailbox(q[1..], key) + Mailbox(r, key));
    }
  }

  lemma {:induction false} MailboxNone(q: seq<Message>, key: Key)
    requires forall j :: 0 <= j < |q| ==> !Matches(key, q[j])
    ensures Mailbox(q, key) == []
  {
    if q != [] {
      MailboxNone(q[1..], key);
    }
  }

  lemma MailboxAround(q: seq<Message>, i: nat, key: Key)
    requires i < |q|
    ensures Mailbox(q, key)
         == Mailbox(q[..i], key) + (if Matches(key, q[i]) then [q[i]] else []) + Mailbox(q[i + 1..], key)
    ensures Mailbox(RemoveAt(q, i), key) == Mailbox(q[..i], key) + Mailbox(q[i + 1..], key)
  {
    hide Matches, Mailbox;
    var before, from := q[..i], q[i..];
    assert q == before + from && from[0] == q[i] && from[1..] == q[i + 1..];
    MailboxFirst(from, key);
    MailboxConcat(before, from, key);
    MailboxConcat(before, q[i + 1..], key);
  }

  lemma MailboxFirst(q: seq<Message>, key: Key)
    requires q != []
    ensures Mailbox(q, key) == (if Matches(key, q[0]) then [q[0]] else []) + Mailbox(q[1..], key)
  {
    hide Matches;
  }

  /** One operation on the shared deque is, for each key, one operation on its own mailbox. */
  lemma OneStepSimulation(q: seq<Message>, op: Op, key: Key)
    requires AllUnambiguous(q) && !op.Get?
    ensures Mailbox(Do(q, op).1, key) == DoPrivate(Mailbox(q, key), key, op).1
    ensures op == Find(key) ==> Do(q, op).0 == DoPrivate(Mailbox(q, key), key, op).0
  {
    hide Matches;
    match op {
      case Enqueue(msg) =>
        MailboxConcat(q, [msg], key);
        assert Mailbox([msg], key) == if Matches(key, msg) then [msg] else [];
      case Find(k) =>
        match FirstIndex(q, k) {
          case None =>
            if k == key { MailboxNone(q, key); }
          case Some(i) =>
            MailboxAround(q, i, key);
            if k == key { MailboxNone(q[..i], key); }
        }
    }
  }

  lemma StaysUnambiguous(q: seq<Message>, op: Op)
    requires AllUnambiguous(q) && (op.Enqueue? ==> Unambiguous(op.msg))
    ensures AllUnambiguous(Do(q, op).1)
  {
    hide Unambiguous;
  }

  /**
   In any interleaving, each requester is handed exactly what a private FIFO mailbox of its own
   would have handed it.
   */
  lemma {:induction false} MailboxSimulation(q: seq<Message>, ops: seq<Op>, key: Key, i: nat)
    requires AllUnambiguous(q) && Mailable(ops) && i < |ops| && ops[i] == Find(key)
    ensures Results(q, ops)[i] == PrivateResults(Mailbox(q, key), key, ops)[i]
    decreases |ops|
  {
    hide Mailbox, Do, DoPrivate, Unambiguous;
    OneStepSimulation(q, ops[0], key);
    if i > 0 {
      StaysUnambiguous(q, ops[0]);
      assert Mailable(ops[1..]);
      MailboxSimulation(Do(q, ops[0]).1, ops[1..], key, i - 1);
    }
  }

  /** For an ambiguous message the claim fails: the first of the two requesters takes it away. */
  lemma AmbiguousMessageIsStolen(msg: Message, k: Key, l: Key)
    requires k != l && Matches(k, msg) && Matches(l, msg)
    ensures var ops := [Enqueue(msg), Find(k), Find(l)];
            Results([], ops)[2] == None && PrivateResults([], l, ops)[2] == Some(msg)
  {
    var ops := [Enqueue(msg), Find(k), Find(l)];
    var q1 := Do([], ops[0]).1;
    assert q1 == [msg] && FirstIndex(q1, k) == Some(0);
    var q2 := Do(q1, ops[1]).1;
    assert q2 == [] && FirstIndex(q2, l) == None;
    assert ops[1..] == [Find(k), Find(l)] && ops[1..][1..] == [Find(l)];
    assert Results(q2, [Find(l)])[0] == None;
    assert Results(q1, ops[1..])[1] == None;
    var b1 := DoPrivate([], l, ops[0]).1;
    assert b1 == [msg] && DoPrivate(b1, l, ops[1]) == (None, b1);
    assert PrivateResults(b1, l, [Find(l)])[0] == Some(msg);
    assert PrivateResults(b1, l, ops[1..])[1] == Some(msg);
  }

  /** A run of requesters who look for keys, in which only messages of a given kind are enqueued. */
  ghost predicate RunOver(ops: seq<Op>, kind: iset<Message>) {
    forall i :: 0 <= i < |ops| ==> !ops[i].Get? && (ops[i].Enqueue? ==> ops[i].msg in kind)
  }

  /** From an empty queue, every find hands out what a private mailbox would. */
  ghost predicate Simulated(ops: seq<Op>) {
    forall i :: 0 <= i < |ops| && ops[i].Find? ==>
      Results([], ops)[i] == PrivateResults([], ops[i].key, ops)[i]
  }

  ghost predicate TwoKeyed(msg: Message) {
    msg.Valid? && HasSequence(msg.root) && IsSubscriptionEvent(msg.root)
  }

  /** The condition is exact: one message that is both spoils it, and nothing else does. */
  lemma SimulatedExactly(kind: iset<Message>)
    requires forall msg :: msg in kind ==> msg.Valid?
    ensures (forall ops :: RunOver(ops, kind) ==> Simulated(ops)) <==> (forall msg :: msg in kind ==> !TwoKeyed(msg))
  {
    hide Results, PrivateResults, Matches, HasSequence, IsSubscriptionEvent;
    if msg :| msg in kind && TwoKeyed(msg) {
      var k, l := TwoKeys(msg);
      AmbiguousMessageIsStolen(msg, k, l);
      var ops := [Enqueue(msg), Find(k), Find(l)];
      assert RunOver(ops, kind);
      assert ops[2].Find? && !Simulated(ops);
    } else {
      forall ops | RunOver(ops, kind) ensures Simulated(ops) {
        AllSimulated(ops, kind);
      }
    }
  }

  lemma TwoKeys(msg: Message) returns (k: Key, l: Key)
    requires TwoKeyed(msg)
    ensures k != l && Matches(k, msg) && Matches(l, msg)
  {
    k := Sequence(GetU32(GetData(msg.root, SEQ)));
    l := Subscription(GetU32(GetData(msg.root, SUBSCRIPTION_ID)));
  }

  lemma AllSimulated(ops: seq<Op>, kind: iset<Message>)
    requires RunOver(ops, kind) && forall msg :: msg in kind ==> msg.Valid? && !TwoKeyed(msg)
    ensures Simulated(ops)
  {
    hide Results, PrivateResults, Unambiguous;
    forall i | 0 <= i < |ops| && ops[i].Enqueue? ensures Unambiguous(ops[i].msg) {
      UnambiguousExactly(ops[i].msg);
    }
    forall i | 0 <= i < |ops| && ops[i].Find? ensures Results([], ops)[i] == PrivateResults([], ops[i].key, ops)[i] {
      MailboxSimulation([], ops, ops[i].key, i);
    }
  }

  lemma BothTake(q: seq<Message>, k: Key, l: Key, i: nat, j: nat)
    requires i < j && FirstIndex(q, k) == Some(i) && FirstIndex(q, l) == Some(j)
    ensures Do(RemoveAt(q, i), Find(l)) == (Some(q[j]), RemoveAt(RemoveAt(q, i), j - 1))
    ensures Do(RemoveAt(q, j), Find(k)) == (Some(q[i]), RemoveAt(RemoveAt(q, j), i))
    ensures RemoveAt(RemoveAt(q, i), j - 1) == RemoveAt(RemoveAt(q, j), i)
  {
    hide FirstIndex, RemoveAt, Matches;
    RemovalsCommute(q, i, j);
    FirstAfterRemoval(q, l, j, i);
    FirstAfterRemoval(q, k, i, j);
  }

  lemma RemovalsCommute<T>(q: seq<T>, i: nat, j: nat)
    requires i < j < |q|
    ensures RemoveAt(RemoveAt(q, i), j - 1) == RemoveAt(RemoveAt(q, j), i)
    ensures RemoveAt(q, i)[j - 1] == q[j] && RemoveAt(q, j)[i] == q[i]
  {
  }

  /** Requesters with different keys may take in either order. */
  lemma TakesCommute(q: seq<Message>, k: Key, l: Key)
    requires AllUnambiguous(q) && k != l
    ensures var (mk, qk), (ml, ql) := Do(q, Find(k)), Do(q, Find(l));
            && Do(ql, Find(k)) == (mk, Do(qk, Find(l)).1)
            && Do(qk, Find(l)).0 == ml
  {
    hide FirstIndex, RemoveAt, Matches;
    match (FirstIndex(q, k), FirstIndex(q, l)) {
      case (Some(i), Some(j)) =>
        assert Matches(k, q[i]) && Matches(l, q[j]);
        if i < j { BothTake(q, k, l, i, j); } else { BothTake(q, l, k, j, i); }
      case (Some(i), None) => NoneAfterRemoval(q, l, i);
      case (None, Some(j)) => NoneAfterRemoval(q, k, j);
      case (None, None) =>
    }
  }

  lemma FirstUnique(q: seq<Message>, key: Key, i: nat)
    requires i < |q| && Matches(key, q[i]) && forall j :: 0 <= j < i ==> !Matches(key, q[j])
    ensures FirstIndex(q, key) == Some(i)
  {
    var r := FirstIndex(q, key);
    assert r.Some?;
    assert r.value >= i;
  }

  lemma FirstAfterRemoval(q: seq<Message>, key: Key, i: nat, j: nat)
    requires FirstIndex(q, key) == Some(i) && j < |q| && j != i
    ensures FirstIndex(RemoveAt(q, j), key) == Some(if j < i then i - 1 else i)
  {
    FirstUnique(RemoveAt(q, j), key, if j < i then i - 1 else i);
  }

  lemma NoneAfterRemoval(q: seq<Message>, key: Key, j: nat)
    requires FirstIndex(q, key) == None && j < |q|
    ensures FirstIndex(RemoveAt(q, j), key) == None
  {
  }

  // ----- nothing is lost, doubled or reordered

  function Added(op: Op): seq<Message> {
    if op.Enqueue? then [op.msg] else []
  }

  function Given(r: Option<Message>): seq<Message> {
    if r.Some? then [r.value] else []
  }

  function Enqueued(ops: seq<Op>): seq<Message> {
    if ops == [] then [] else Added(ops[0]) + Enqueued(ops[1..])
  }

  function Taken(rs: seq<Option<Message>>): seq<Message> {
    if rs == [] then [] else Given(rs[0]) + Taken(rs[1..])
  }

  lemma {:induction false} TakenMore(rs: seq<Option<Message>>, r: Option<Message>)
    ensures Taken(rs + [r]) == Taken(rs) + Given(r)
  {
    if rs == [] {
      assert rs + [r] == [r] && [r][1..] == [];
    } else {
      assert (rs + [r])[1..] == rs[1..] + [r];
      TakenMore(rs[1..], r);
      assert Taken(rs + [r]) == Given(rs[0]) + (Taken(rs[1..]) + Given(r));
    }
  }

  lemma OneStepConserves(q: seq<Message>, op: Op)
    ensures multiset(Do(q, op).1) + multiset(Given(Do(q, op).0)) == multiset(q) + multiset(Added(op))
  {
    hide Matches;
    match op {
      case Enqueue(_) =>
      case Find(key) =>
        var r := FirstIndex(q, key);
        if r.Some? {
          assert q == q[..r.value] + [q[r.value]] + q[r.value + 1..];
        }
      case Get =>
        if q != [] { assert q == [q[0]] + q[1..]; }
    }
  }

  /** In every run, `GetMsg` included, what was enqueued is what was taken plus what is queued. */
  lemma {:induction false} RunConserves(q: seq<Message>, ops: seq<Op>)
    ensures multiset(Taken(Results(q, ops))) + multiset(QueueAfter(q, ops))
         == multiset(q) + multiset(Enqueued(ops))
    decreases |ops|
  {
    hide Do, Added, Given;
    if ops != [] {
      var (out, next) := Do(q, ops[0]);
      OneStepConserves(q, ops[0]);
      RunConserves(next, ops[1..]);
      assert Results(q, ops)[1..] == Results(next, ops[1..]);
      var rest := Taken(Results(next, ops[1..]));
      assert Taken(Results(q, ops)) == Given(out) + rest;
      assert QueueAfter(q, ops) == QueueAfter(next, ops[1..]);
      assert Enqueued(ops) == Added(ops[0]) + Enqueued(ops[1..]);
      Regroup(multiset(next), multiset(Given(out)), multiset(q), multiset(Added(ops[0])),
              multiset(rest), multiset(QueueAfter(q, ops)), multiset(Enqueued(ops[1..])));
    }
  }

  lemma Regroup<T>(next: multiset<T>, given: multiset<T>, q: multiset<T>, added: multiset<T>,
                   rest: multiset<T>, end: multiset<T>, later: multiset<T>)
    requires next + given == q + added && rest + end == next + later
    ensures given + rest + end == q + (added + later)
  {
    assert given + rest + end == given + (rest + end) == (next + given) + later;
  }

  /** a is b with some elements left out. */
  predicate Subsequence<T(==)>(a: seq<T>, b: seq<T>) {
    if a == [] then true
    else if b == [] then false
    else (a[|a| - 1] == b[|b| - 1] && Subsequence(a[..|a| - 1], b[..|b| - 1])) || Subsequence(a, b[..|b| - 1])
  }

  lemma {:induction false} SubsequenceDrop<T>(a: seq<T>, b: seq<T>, i: nat)
    requires Subsequence(a, b) && i < |a|
    ensures Subsequence(RemoveAt(a, i), b)
    decreases |b|
  {
    var a', b' := a[..|a| - 1], b[..|b| - 1];
    if a[|a| - 1] == b[|b| - 1] && Subsequence(a', b') {
      if i == |a| - 1 {
        assert RemoveAt(a, i) == a';
        SubsequenceWiden(a', b', b[|b| - 1]);
        assert b == b' + [b[|b| - 1]];
      } else {
        SubsequenceDrop(a', b', i);
        var r := RemoveAt(a, i);
        assert r[..|r| - 1] == RemoveAt(a', i) && r[|r| - 1] == a[|a| - 1];
      }
    } else {
      SubsequenceDrop(a, b', i);
      SubsequenceWiden(RemoveAt(a, i), b', b[|b| - 1]);
      assert b == b' + [b[|b| - 1]];
    }
  }

  lemma SubsequenceWiden<T>(a: seq<T>, b: seq<T>, x: T)
    requires Subsequence(a, b)
    ensures Subsequence(a, b + [x])
  {
    assert (b + [x])[..|b|] == b;
  }

  lemma SubsequenceExtend<T>(a: seq<T>, b: seq<T>, x: T)
    requires Subsequence(a, b)
    ensures Subsequence(a + [x], b + [x])
  {
    assert (a + [x])[..|a|] == a && (b + [x])[..|b|] == b;
  }

  lemma OneStepSubsequence(q: seq<Message>, history: seq<Message>, op: Op)
    requires Subsequence(q, history)
    ensures Subsequence(Do(q, op).1, history + Added(op))
  {
    hide FirstIndex, Subsequence, Matches;
    assert history + [] == history;
    match op {
      case Enqueue(msg) => SubsequenceExtend(q, history, msg);
      case Find(key) =>
        if FirstIndex(q, key).Some? { SubsequenceDrop(q, history, FirstIndex(q, key).value); }
      case Get =>
        if q != [] {
          SubsequenceDrop(q, history, 0);
          assert RemoveAt(q, 0) == q[1..];
        }
    }
  }

  /** The deque is at all times the enqueue history with some messages left out. */
  lemma {:induction false} QueueIsSubsequence(q: seq<Message>, history: seq<Message>, ops: seq<Op>)
    requires Subsequence(q, history)
    ensures Subsequence(QueueAfter(q, ops), history + Enqueued(ops))
    decreases |ops|
  {
    hide Do, Subsequence, Added;
    if ops == [] {
      assert history + Enqueued(ops) == history;
    } else {
      OneStepSubsequence(q, history, ops[0]);
      QueueIsSubsequence(Do(q, ops[0]).1, history + Added(ops[0]), ops[1..]);
      assert history + Enqueued(ops) == history + Added(ops[0]) + Enqueued(ops[1..]);
    }
  }
}
