/**
 Requests and replies while the worker runs, as a state machine over the bytes that travel. Each
 allocation of a number and each locked region of the queue is one atomic step; when a waiting
 requester scans, gives up, or is served is left free. The server may send any body on which parsing is
 defined, at any time, as long as the number to be read in a reply is the one in its request, and none is
 to be read in a message of the server's own.
 */
module Correlation {
  import opened Words
  import opened HtsMessage
  import opened Encoding
  import opened Decoding
  import opened RoundTrip
  import opened Parser
  import opened Framing
  import opened MsgQueue
  import opened Client

  /** A message body on its way to the client. The id and the origin are only there to be talked about. */
  datatype Flying = Flying(id: nat, origin: Option<nat>, body: Bytes)

  /** The same message once the worker has parsed it. */
  datatype Item = Item(id: nat, origin: Option<nat>, body: Bytes, msg: Message)

  /** An item that left the queue, for a request or for someone else. */
  datatype Delivery = Delivery(request: Option<nat>, item: Item)

  datatype State = State(
    counter: U32,                 // m_nextSeqNum
    numbers: seq<U32>,            // the number each request was given
    sent: seq<Bytes>,             // the body of each request
    waiting: set<nat>,            // the requests that still scan the queue
    downlink: seq<Flying>,        // what the server has sent and the worker has not read
    emitted: nat,                 // how many messages the server has sent
    queue: seq<Item>,             // m_queue
    delivered: seq<Delivery>,
    dropped: seq<nat>)            // the messages the worker did not queue

  const INIT: State := State(1, [], [], {}, [], 0, [], [], [])

  datatype Step =
    | Request(fields: seq<Node>, slack: Bytes)   // HTSPNextSeqNum, setData("seq"), TransmitMessage
    | Reply(request: nat, body: Bytes)           // at any time, any number of times
    | Event(body: Bytes)                         // a message of the server's own
    | Work                                       // one turn of the worker loop
    | Scan(request: nat)                         // FindFirstSequence
    | Timeout(request: nat)
    | ScanEvents(id: U32)                        // FindFirst of a subscriber
    | TakeAny                                    // GetMsg

  /** What a body is parsed to. */
  function Parsed(body: Bytes): Option<map<Bytes, Tree>> {
    if |body| >= TWO_32 then None else Deserialize(body)
  }

  /** The number a receiver reads in a body. */
  function NumberRead(body: Bytes): Option<U32> {
    match Parsed(body)
    case None => None
    case Some(root) => if HasSequence(root) then Some(GetU32(GetData(root, SEQ))) else None
  }

  function WireBody(fields: seq<Node>, slack: Bytes): Bytes {
    EncodeAll(fields) + slack
  }

  ghost predicate Enabled(s: State, step: Step) {
    match step
    case Request(fields, slack) => Sendable(Sent(fields, slack)) && CarriesNumber(fields, s.counter)
    case Reply(r, body) =>
      r < |s.sent| && NumberRead(s.sent[r]).Some? && Parsed(body).Some? && NumberRead(body) == NumberRead(s.sent[r])
    case Event(body) => Parsed(body).Some? && NumberRead(body) == None
    case Work => s.downlink != [] && Parsed(s.downlink[0].body).Some?
    case Scan(r) => r in s.waiting && r < |s.numbers|
    case Timeout(r) => r in s.waiting
    case ScanEvents(_) => true
    case TakeAny => s.queue != []
  }

  /** The methods that `ProcessEventMsg` takes care of. */
  predicate IsEventMethod(name: Bytes) {
    || name == Ascii("queueStatus") || name == Ascii("signalStatus") || name == Ascii("channelUpdate")
    || name == Ascii("timeshiftStatus") || IsTagMethod(name) || IsDvrMethod(name)
  }

  predicate IsTagMethod(name: Bytes) {
    name == Ascii("tagAdd") || name == Ascii("tagUpdate") || name == Ascii("tagDelete")
  }

  predicate IsDvrMethod(name: Bytes) {
    name == Ascii("dvrEntryAdd") || name == Ascii("dvrEntryUpdate") || name == Ascii("dvrEntryDelete")
  }

  /** Whether the worker deals with a message itself instead of queueing it. */
  predicate Consumed(root: map<Bytes, Tree>) {
    var name := GetStr(GetData(root, METHOD));
    name == Ascii("muxpkt") || IsEventMethod(name)
  }

  function Messages(q: seq<Item>): (ms: seq<Message>)
    ensures |ms| == |q|
  {
    seq(|q|, i requires 0 <= i < |q| => q[i].msg)
  }

  /** The first item for a key leaves the queue. */
  function Serve(s: State, key: Key, request: Option<nat>): State {
    match FirstIndex(Messages(s.queue), key)
    case None => s
    case Some(i) => Hand(s, i, request)
  }

  function Hand(s: State, i: nat, request: Option<nat>): State
    requires i < |s.queue|
  {
    s.(queue := RemoveAt(s.queue, i), delivered := s.delivered + [Delivery(request, s.queue[i])],
       waiting := if request.Some? then s.waiting - {request.value} else s.waiting)
  }

  function Emit(s: State, origin: Option<nat>, body: Bytes): State {
    s.(downlink := s.downlink + [Flying(s.emitted, origin, body)], emitted := s.emitted + 1)
  }

  /** An empty body makes an invalid message, which the worker drops. */
  function DoWork(s: State): State
    requires s.downlink != [] && Parsed(s.downlink[0].body).Some?
  {
    var f, s' := s.downlink[0], s.(downlink := s.downlink[1..]);
    var root := Parsed(f.body).value;
    if f.body == [] || Consumed(root) then s'.(dropped := s.dropped + [f.id])
    else s'.(queue := s.queue + [Item(f.id, f.origin, f.body, Valid(root))])
  }

  ghost function Apply(s: State, step: Step): State
    requires Enabled(s, step)
  {
    match step
    case Request(fields, slack) =>
      s.(counter := Successor(s.counter), numbers := s.numbers + [s.counter],
         sent := s.sent + [WireBody(fields, slack)], waiting := s.waiting + {|s.numbers|})
    case Reply(r, body) => Emit(s, Some(r), body)
    case Event(body) => Emit(s, None, body)
    case Work => DoWork(s)
    case Scan(r) => Serve(s, Sequence(s.numbers[r]), Some(r))
    case Timeout(r) => s.(waiting := s.waiting - {r})
    case ScanEvents(id) => Serve(s, Subscription(id), None)
    case TakeAny => Hand(s, 0, None)
  }

  /** The state after a run, None if one of its steps was not possible. */
  ghost function Run(steps: seq<Step>): Option<State> {
    if steps == [] then Some(INIT)
    else
      match Run(steps[..|steps| - 1])
      case None => None
      case Some(s) =>
        var step := steps[|steps| - 1];
        if Enabled(s, step) then Some(Apply(s, step)) else None
  }

  // ----- the invariant

  /** What is known of a body: it can be parsed, and it has the number of its origin or none. */
  ghost predicate Genuine(numbers: seq<U32>, origin: Option<nat>, body: Bytes) {
    && Parsed(body).Some?
    && match origin
       case None => NumberRead(body) == None
       case Some(o) => o < |numbers| && NumberRead(body) == Some(numbers[o])
  }

  ghost predicate GenuineFlying(numbers: seq<U32>, f: Flying) {
    Genuine(numbers, f.origin, f.body)
  }

  ghost predicate GenuineItem(numbers: seq<U32>, item: Item) {
    Genuine(numbers, item.origin, item.body) && item.msg == Valid(Parsed(item.body).value)
  }

  ghost predicate GenuineDelivery(numbers: seq<U32>, d: Delivery) {
    GenuineItem(numbers, d.item)
    && (d.request.Some? ==> d.request.value < |numbers| && Matches(Sequence(numbers[d.request.value]), d.item.msg))
  }

  ghost predicate Numbered(s: State) {
    && s.counter == SeqAt(|s.numbers|)
    && |s.sent| == |s.numbers|
    && (forall r :: 0 <= r < |s.numbers| ==> s.numbers[r] == SeqAt(r))
    && (forall r :: 0 <= r < |s.numbers| ==> NumberRead(s.sent[r]) == Some(s.numbers[r]))
  }

  ghost predicate AllGenuine(s: State) {
    && (forall i :: 0 <= i < |s.downlink| ==> GenuineFlying(s.numbers, s.downlink[i]))
    && (forall i :: 0 <= i < |s.queue| ==> GenuineItem(s.numbers, s.queue[i]))
    && (forall i :: 0 <= i < |s.delivered| ==> GenuineDelivery(s.numbers, s.delivered[i]))
  }

  /** Messages keep their order until they are taken, and are in one place only. */
  ghost predicate Distinct(s: State) {
    && (forall i, j :: 0 <= i < j < |s.downlink| ==> s.downlink[i].id < s.downlink[j].id)
    && (forall i, j :: 0 <= i < j < |s.queue| ==> s.queue[i].id < s.queue[j].id)
    && (forall i, j :: 0 <= i < j < |s.delivered| ==> s.delivered[i].item.id != s.delivered[j].item.id)
    && (forall i :: 0 <= i < |s.downlink| ==> s.downlink[i].id < s.emitted)
    && (forall i, j :: 0 <= i < |s.queue| && 0 <= j < |s.downlink| ==> s.queue[i].id < s.downlink[j].id)
    && (forall i :: 0 <= i < |s.queue| ==> s.queue[i].id < s.emitted)
    && (forall i, j :: 0 <= i < |s.delivered| && 0 <= j < |s.downlink| ==> s.delivered[i].item.id < s.downlink[j].id)
    && (forall i :: 0 <= i < |s.delivered| ==> s.delivered[i].item.id < s.emitted)
    && (forall i, j :: 0 <= i < |s.delivered| && 0 <= j < |s.queue| ==> s.delivered[i].item.id != s.queue[j].id)
  }

  ghost predicate Inv(s: State) {
    Numbered(s) && AllGenuine(s) && Distinct(s)
  }

  // ----- the invariant is kept

  /** What was encoded is what the receiver parses. */
  lemma BodyParses(fields: seq<Node>, slack: Bytes)
    requires Receivable(Sent(fields, slack))
    ensures Parsed(WireBody(fields, slack)) == Some(SetAll(map[], BackAll(fields)))
  {
    hide EncodeAll, Deserialize, BackAll, SetAll;
    DeserializeEncoded(fields, slack);
  }

  /** A number other than 0 is found in it. */
  lemma BodyNumber(fields: seq<Node>, slack: Bytes, n: U32)
    requires Receivable(Sent(fields, slack)) && CarriesNumber(fields, n) && n != 0
    ensures NumberRead(WireBody(fields, slack)) == Some(n)
    ensures Matches(Sequence(n), Valid(SetAll(map[], BackAll(fields))))
  {
    hide Parsed, BackAll, SetAll, WireBody, CarriesNumber;
    BodyParses(fields, slack);
    NumberSurvives(fields, n);
  }

  lemma BodyNoNumber(fields: seq<Node>, slack: Bytes)
    requires Receivable(Sent(fields, slack)) && forall i :: 0 <= i < |fields| ==> fields[i].name != SEQ
    ensures NumberRead(WireBody(fields, slack)) == None
  {
    hide Parsed, BackAll, SetAll, WireBody;
    BodyParses(fields, slack);
    NoNumberAppears(fields);
  }

  /**
   An ordinary server is among those allowed: in any run it may answer any request with any encoded
   fields that carry the number of the request, and send any that carry none, followed by 0 to 5 bytes.
   */
  lemma EncodedMayBeSent(steps: seq<Step>, fields: seq<Node>, slack: Bytes)
    requires Run(steps).Some? && Receivable(Sent(fields, slack))
    ensures forall r :: 0 <= r < |Run(steps).value.numbers| && CarriesNumber(fields, Run(steps).value.numbers[r]) ==>
              Enabled(Run(steps).value, Reply(r, WireBody(fields, slack)))
    ensures (forall i :: 0 <= i < |fields| ==> fields[i].name != SEQ) ==>
              Enabled(Run(steps).value, Event(WireBody(fields, slack)))
  {
    hide Run, Receivable, CarriesNumber, NumberRead, Parsed, WireBody, SeqAt, Distinct, AllGenuine, SetAll, BackAll;
    RunKeeps(steps);
    BodyParses(fields, slack);
    var s := Run(steps).value;
    forall r | 0 <= r < |s.numbers| && CarriesNumber(fields, s.numbers[r])
      ensures Enabled(s, Reply(r, WireBody(fields, slack)))
    {
      SeqDistinctExactly(r, r);
      BodyNumber(fields, slack, s.numbers[r]);
    }
    if forall i :: 0 <= i < |fields| ==> fields[i].name != SEQ {
      BodyNoNumber(fields, slack);
    }
  }

  lemma RequestKeeps(s: State, fields: seq<Node>, slack: Bytes)
    requires Inv(s) && Enabled(s, Request(fields, slack))
    ensures Inv(Apply(s, Request(fields, slack)))
  {
    hide SeqAt, NumberRead, Matches, WireBody, CarriesNumber, Sendable, Receivable, Parsed, BackAll, SetAll;
    CanBeReceived(Sent(fields, slack));
    var s' := Apply(s, Request(fields, slack));
    SeqDistinctExactly(|s.numbers|, |s.numbers|);
    BodyNumber(fields, slack, s.counter);
    NextNumber(|s.numbers|);
    assert forall r :: 0 <= r < |s.numbers| ==> s'.numbers[r] == s.numbers[r];
  }

  lemma NextNumber(i: nat)
    ensures SeqAt(i + 1) == Successor(SeqAt(i))
  {
  }

  lemma EmitKeeps(s: State, origin: Option<nat>, body: Bytes)
    requires Inv(s) && Genuine(s.numbers, origin, body)
    ensures Inv(Emit(s, origin, body))
  {
    hide SeqAt, NumberRead, Matches, Parsed;
  }

  lemma WorkKeeps(s: State)
    requires Inv(s) && Enabled(s, Work)
    ensures Inv(DoWork(s))
  {
    hide SeqAt, NumberRead, Matches, Parsed, Consumed;
    assert GenuineFlying(s.numbers, s.downlink[0]);
  }

  lemma HandKeeps(s: State, i: nat, request: Option<nat>)
    requires Inv(s) && i < |s.queue|
    requires request.Some? ==> request.value < |s.numbers|
                               && Matches(Sequence(s.numbers[request.value]), s.queue[i].msg)
    ensures Inv(Hand(s, i, request))
  {
    hide SeqAt, NumberRead, Matches, GenuineItem, GenuineFlying;
  }

  lemma ServeKeeps(s: State, key: Key, request: Option<nat>)
    requires Inv(s)
    requires request.Some? ==> request.value < |s.numbers| && key == Sequence(s.numbers[request.value])
    ensures Inv(Serve(s, key, request))
  {
    hide Inv, Matches, FirstIndex;
    var r := FirstIndex(Messages(s.queue), key);
    if r.Some? {
      HandKeeps(s, r.value, request);
    }
  }

  lemma StepKeeps(s: State, step: Step)
    requires Inv(s) && Enabled(s, step)
    ensures Inv(Apply(s, step))
  {
    match step {
      case Request(fields, slack) => RequestKeeps(s, fields, slack);
      case Reply(r, body) => EmitKeeps(s, Some(r), body);
      case Event(body) => EmitKeeps(s, None, body);
      case Work => WorkKeeps(s);
      case Scan(r) => ServeKeeps(s, Sequence(s.numbers[r]), Some(r));
      case Timeout(r) =>
      case ScanEvents(id) => ServeKeeps(s, Subscription(id), None);
      case TakeAny => HandKeeps(s, 0, None);
    }
  }

  lemma {:induction false} RunKeeps(steps: seq<Step>)
    requires Run(steps).Some?
    ensures Inv(Run(steps).value)
  {
    if steps != [] {
      var before := steps[..|steps| - 1];
      RunKeeps(before);
      StepKeeps(Run(before).value, steps[|steps| - 1]);
    }
  }

  // ----- what a requester is handed

  /**
   In every run, whoever gives up and whatever the server sends late, twice or on its own: a message
   handed to a request is a reply, and the request it answers has the same number.
   */
  lemma SameNumber(steps: seq<Step>, i: nat)
    requires Run(steps).Some? && i < |Run(steps).value.delivered|
    requires Run(steps).value.delivered[i].request.Some?
    ensures var s := Run(steps).value;
            var d := s.delivered[i];
            && d.item.origin.Some? && d.item.origin.value < |s.numbers| && d.request.value < |s.numbers|
            && SeqAt(d.item.origin.value) == SeqAt(d.request.value)
  {
    hide Run, SeqAt, Deserialize, Distinct;
    RunKeeps(steps);
    var s := Run(steps).value;
    assert GenuineDelivery(s.numbers, s.delivered[i]);
  }

  /**
   As long as at most 2^31 - 1 requests have been made, a message handed to a request is a reply to
   that very request, never a stale or a foreign one.
   */
  lemma RepliesCorrelate(steps: seq<Step>, i: nat)
    requires Run(steps).Some? && i < |Run(steps).value.delivered|
    requires Run(steps).value.delivered[i].request.Some?
    requires |Run(steps).value.numbers| <= CYCLE
    ensures Run(steps).value.delivered[i].item.origin == Run(steps).value.delivered[i].request
  {
    hide Run, SeqAt;
    SameNumber(steps, i);
    var d := Run(steps).value.delivered[i];
    var o, r := d.item.origin.value, d.request.value;
    if o <= r {
      SeqDistinctExactly(o, r);
    } else {
      SeqDistinctExactly(r, o);
    }
  }

  /** No message is handed out twice, to requests or to anyone else, in any run. */
  lemma HandedOutOnce(steps: seq<Step>, i: nat, j: nat)
    requires Run(steps).Some? && i < j < |Run(steps).value.delivered|
    ensures Run(steps).value.delivered[i].item.id != Run(steps).value.delivered[j].item.id
  {
    hide Run;
    RunKeeps(steps);
  }

  /** The step of the run that put a message on the wire. */
  ghost predicate SentBy(steps: seq<Step>, origin: Option<nat>, body: Bytes) {
    exists k :: 0 <= k < |steps| && IsSending(steps[k], origin, body)
  }

  predicate IsSending(step: Step, origin: Option<nat>, body: Bytes) {
    match step
    case Reply(r, b) => origin == Some(r) && b == body
    case Event(b) => origin == None && b == body
    case _ => false
  }

  ghost predicate AllSent(steps: seq<Step>, s: State) {
    && (forall i :: 0 <= i < |s.downlink| ==> SentBy(steps, s.downlink[i].origin, s.downlink[i].body))
    && (forall i :: 0 <= i < |s.queue| ==> SentBy(steps, s.queue[i].origin, s.queue[i].body))
    && (forall i :: 0 <= i < |s.delivered| ==> SentBy(steps, s.delivered[i].item.origin, s.delivered[i].item.body))
  }

  lemma SentEarlier(steps: seq<Step>, step: Step, origin: Option<nat>, body: Bytes)
    requires SentBy(steps, origin, body) || IsSending(step, origin, body)
    ensures SentBy(steps + [step], origin, body)
  {
    if SentBy(steps, origin, body) {
      var k :| 0 <= k < |steps| && IsSending(steps[k], origin, body);
      assert (steps + [step])[k] == steps[k];
    } else {
      assert (steps + [step])[|steps|] == step;
    }
  }

  lemma AllSentLater(steps: seq<Step>, step: Step, s: State)
    requires AllSent(steps, s)
    ensures AllSent(steps + [step], s)
  {
    hide SentBy;
    forall i | 0 <= i < |s.downlink| ensures SentBy(steps + [step], s.downlink[i].origin, s.downlink[i].body) {
      SentEarlier(steps, step, s.downlink[i].origin, s.downlink[i].body);
    }
    forall i | 0 <= i < |s.queue| ensures SentBy(steps + [step], s.queue[i].origin, s.queue[i].body) {
      SentEarlier(steps, step, s.queue[i].origin, s.queue[i].body);
    }
    forall i | 0 <= i < |s.delivered|
      ensures SentBy(steps + [step], s.delivered[i].item.origin, s.delivered[i].item.body)
    {
      SentEarlier(steps, step, s.delivered[i].item.origin, s.delivered[i].item.body);
    }
  }

  lemma StepSends(steps: seq<Step>, s: State, step: Step)
    requires AllSent(steps, s) && Enabled(s, step)
    ensures AllSent(steps + [step], Apply(s, step))
  {
    hide SentBy, FirstIndex, Parsed, Consumed, Sendable, CarriesNumber, NumberRead, WireBody;
    AllSentLater(steps, step, s);
    if step.Reply? {
      SentEarlier(steps, step, Some(step.request), step.body);
    } else if step.Event? {
      SentEarlier(steps, step, None, step.body);
    }
  }

  lemma {:induction false} RunSends(steps: seq<Step>)
    requires Run(steps).Some?
    ensures AllSent(steps, Run(steps).value)
  {
    hide AllSent, Apply, Enabled;
    if steps == [] {
      NothingSent();
    } else {
      var before, step := steps[..|steps| - 1], steps[|steps| - 1];
      RunSends(before);
      assert Enabled(Run(before).value, step);
      StepSends(before, Run(before).value, step);
      assert before + [step] == steps;
    }
  }

  lemma NothingSent()
    ensures AllSent([], INIT)
  {
  }

  /**
   What a request is handed is what the server sent in answer to it: some step of the run is a reply
   to this request, and the message handed out is what the body of that reply parses to.
   */
  lemma HandedWhatWasReplied(steps: seq<Step>, i: nat)
    requires Run(steps).Some? && i < |Run(steps).value.delivered|
    requires Run(steps).value.delivered[i].request.Some?
    requires |Run(steps).value.numbers| <= CYCLE
    ensures var d := Run(steps).value.delivered[i];
            && SentBy(steps, d.request, d.item.body)
            && Parsed(d.item.body).Some? && d.item.msg == Valid(Parsed(d.item.body).value)
  {
    hide Run, SentBy, Matches, Parsed, NumberRead, Numbered, Distinct;
    RepliesCorrelate(steps, i);
    RunSends(steps);
    RunKeeps(steps);
    var s := Run(steps).value;
    assert GenuineDelivery(s.numbers, s.delivered[i]);
  }

  /** And when the server encoded fields, every path of nonempty names reads as it does in them. */
  lemma HandedReadsAsWritten(steps: seq<Step>, i: nat, fields: seq<Node>, slack: Bytes, path: seq<PathStep>)
    requires Run(steps).Some? && i < |Run(steps).value.delivered| && NonemptyNames(path)
    requires Receivable(Sent(fields, slack)) && Run(steps).value.delivered[i].item.body == WireBody(fields, slack)
    ensures var msg := Run(steps).value.delivered[i].item.msg;
            msg.Valid? && Read(Follow(Some(Map(msg.root)), path)) == Read(Follow(Some(Value(MapBody(fields))), path))
  {
    hide Run, Read, Follow, Value, NonemptyNames, Matches, SetAll, BackAll, Parsed, NumberRead, Numbered, Distinct;
    RunKeeps(steps);
    var s := Run(steps).value;
    assert GenuineDelivery(s.numbers, s.delivered[i]);
    BodyParses(fields, slack);
    ReadingsSurvive(MapBody(fields), path);
    assert Map(SetAll(map[], BackAll(fields))) == BackTree(MapBody(fields));
  }

  // ----- conservation

  function FlyingIds(q: seq<Flying>): (ids: seq<nat>)
    ensures |ids| == |q|
  {
    seq(|q|, i requires 0 <= i < |q| => q[i].id)
  }

  function ItemIds(q: seq<Item>): (ids: seq<nat>)
    ensures |ids| == |q|
  {
    seq(|q|, i requires 0 <= i < |q| => q[i].id)
  }

  function DeliveryIds(q: seq<Delivery>): (ids: seq<nat>)
    ensures |ids| == |q|
  {
    seq(|q|, i requires 0 <= i < |q| => q[i].item.id)
  }

  function UpTo(n: nat): (ids: seq<nat>)
    ensures |ids| == n
  {
    seq(n, i => i)
  }

  /** All messages there are, wherever they are. */
  function Everywhere(s: State): multiset<nat> {
    multiset(FlyingIds(s.downlink)) + multiset(ItemIds(s.queue)) + multiset(DeliveryIds(s.delivered))
    + multiset(s.dropped)
  }

  ghost predicate Conserved(s: State) {
    Everywhere(s) == multiset(UpTo(s.emitted))
  }

  lemma EmitConserves(s: State, origin: Option<nat>, body: Bytes)
    requires Conserved(s)
    ensures Conserved(Emit(s, origin, body))
  {
    var s' := Emit(s, origin, body);
    assert FlyingIds(s'.downlink) == FlyingIds(s.downlink) + [s.emitted];
    assert UpTo(s'.emitted) == UpTo(s.emitted) + [s.emitted];
  }

  lemma WorkConserves(s: State)
    requires Conserved(s) && Enabled(s, Work)
    ensures Conserved(DoWork(s))
  {
    hide Parsed, Consumed;
    var s', f := DoWork(s), s.downlink[0];
    assert FlyingIds(s.downlink) == [f.id] + FlyingIds(s'.downlink);
    assert s'.dropped == s.dropped || ItemIds(s'.queue) == ItemIds(s.queue);
    assert s'.dropped == s.dropped + [f.id] || ItemIds(s'.queue) == ItemIds(s.queue) + [f.id];
  }

  lemma HandConserves(s: State, i: nat, request: Option<nat>)
    requires Conserved(s) && i < |s.queue|
    ensures Conserved(Hand(s, i, request))
  {
    var s', ids := Hand(s, i, request), ItemIds(s.queue);
    assert ids == ids[..i] + [s.queue[i].id] + ids[i + 1..];
    assert ItemIds(s'.queue) == ids[..i] + ids[i + 1..];
    assert DeliveryIds(s'.delivered) == DeliveryIds(s.delivered) + [s.queue[i].id];
  }

  lemma StepConserves(s: State, step: Step)
    requires Conserved(s) && Enabled(s, step)
    ensures Conserved(Apply(s, step))
  {
    hide Conserved, Sendable, CarriesNumber, NumberRead, Parsed, FirstIndex, WireBody;
    match step {
      case Request(_, _) => OnlyPlaces(s, Apply(s, step));
      case Reply(r, body) => EmitConserves(s, Some(r), body);
      case Event(body) => EmitConserves(s, None, body);
      case Work => WorkConserves(s);
      case Scan(r) => ServeConserves(s, Sequence(s.numbers[r]), Some(r));
      case Timeout(_) => OnlyPlaces(s, Apply(s, step));
      case ScanEvents(id) => ServeConserves(s, Subscription(id), None);
      case TakeAny => HandConserves(s, 0, None);
    }
  }

  lemma ServeConserves(s: State, key: Key, request: Option<nat>)
    requires Conserved(s)
    ensures Conserved(Serve(s, key, request))
  {
    hide Conserved, FirstIndex;
    var r := FirstIndex(Messages(s.queue), key);
    if r.Some? {
      HandConserves(s, r.value, request);
    }
  }

  lemma OnlyPlaces(s: State, s': State)
    requires Conserved(s) && s'.emitted == s.emitted
    requires s'.downlink == s.downlink && s'.queue == s.queue && s'.delivered == s.delivered && s'.dropped == s.dropped
    ensures Conserved(s')
  {
  }

  lemma {:induction false} RunConserves(steps: seq<Step>)
    requires Run(steps).Some?
    ensures Conserved(Run(steps).value)
  {
    hide Apply, Enabled;
    if steps != [] {
      var before := steps[..|steps| - 1];
      RunConserves(before);
      StepConserves(Run(before).value, steps[|steps| - 1]);
    }
  }

  /**
   In every run each message the server has sent so far is in exactly one place: on its way, in the
   queue, handed out or dropped by the worker. None is lost, doubled or made up.
   */
  lemma EveryMessageOnce(steps: seq<Step>, id: nat)
    requires Run(steps).Some?
    ensures Everywhere(Run(steps).value)[id] == if id < Run(steps).value.emitted then 1 else 0
  {
    hide Run, Everywhere;
    RunConserves(steps);
    CountUpTo(Run(steps).value.emitted, id);
  }

  lemma {:induction false} CountUpTo(n: nat, id: nat)
    ensures multiset(UpTo(n))[id] == if id < n then 1 else 0
  {
    if n > 0 {
      CountUpTo(n - 1, id);
      assert UpTo(n) == UpTo(n - 1) + [n - 1];
    }
  }
}
