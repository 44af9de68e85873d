/**
 Runs of the state machine seen from the client's parts: what the worker keeps, what the shared deque
 goes through, and who waits for how long.
 */
module CorrelationRuns {
  import opened Words
  import opened HtsMessage
  import opened Parser
  import opened Framing
  import opened MsgQueue
  import opened Client
  import opened Correlation

  // ----- what the worker keeps

  /** The string a message has under "method", if any. */
  function MethodOf(root: map<Bytes, Tree>): Bytes {
    if METHOD in root && root[METHOD].Str? then root[METHOD].str else []
  }

  /** The methods the worker deals with itself, spelt out. */
  ghost predicate OwnMethod(name: Bytes) {
    || Spelt(name, "muxpkt") || Spelt(name, "queueStatus") || Spelt(name, "signalStatus")
    || Spelt(name, "channelUpdate") || Spelt(name, "timeshiftStatus")
    || Spelt(name, "tagAdd") || Spelt(name, "tagUpdate") || Spelt(name, "tagDelete")
    || Spelt(name, "dvrEntryAdd") || Spelt(name, "dvrEntryUpdate") || Spelt(name, "dvrEntryDelete")
  }

  /**
   The worker drops an empty body and the messages of the methods it deals with itself, and queues
   exactly the others, as they were parsed.
   */
  lemma WorkerRoutes(s: State)
    requires Enabled(s, Work)
    ensures var f, s' := s.downlink[0], DoWork(s);
            var root := Parsed(f.body).value;
            var kept := f.body != [] && !OwnMethod(MethodOf(root));
            && (kept <==> s'.queue == s.queue + [Item(f.id, f.origin, f.body, Valid(root))])
            && (!kept <==> s'.queue == s.queue)
            && s'.dropped == (if kept then s.dropped else s.dropped + [f.id])
            && s'.downlink == s.downlink[1..] && s'.delivered == s.delivered
  {
    hide Parsed, Consumed, OwnMethod, MethodOf;
    var f := s.downlink[0];
    ConsumedExactly(Parsed(f.body).value);
    var item := Item(f.id, f.origin, f.body, Valid(Parsed(f.body).value));
    assert |s.queue + [item]| == |s.queue| + 1;
  }

  lemma ConsumedExactly(root: map<Bytes, Tree>)
    ensures Consumed(root) <==> OwnMethod(MethodOf(root))
  {
    hide Ascii, Spelt;
    var name := MethodOf(root);
    StatusSpelt(name);
    TagsSpelt(name);
    DvrSpelt(name);
  }

  lemma StatusSpelt(name: Bytes)
    ensures name == Ascii("muxpkt") <==> Spelt(name, "muxpkt")
    ensures name == Ascii("queueStatus") <==> Spelt(name, "queueStatus")
    ensures name == Ascii("signalStatus") <==> Spelt(name, "signalStatus")
    ensures name == Ascii("channelUpdate") <==> Spelt(name, "channelUpdate")
    ensures name == Ascii("timeshiftStatus") <==> Spelt(name, "timeshiftStatus")
  {
    hide Ascii, Spelt;
    SpeltExactly(name, "muxpkt");
    SpeltExactly(name, "queueStatus");
    SpeltExactly(name, "signalStatus");
    SpeltExactly(name, "channelUpdate");
    SpeltExactly(name, "timeshiftStatus");
  }

  lemma TagsSpelt(name: Bytes)
    ensures name == Ascii("tagAdd") <==> Spelt(name, "tagAdd")
    ensures name == Ascii("tagUpdate") <==> Spelt(name, "tagUpdate")
    ensures name == Ascii("tagDelete") <==> Spelt(name, "tagDelete")
  {
    hide Ascii, Spelt;
    SpeltExactly(name, "tagAdd");
    SpeltExactly(name, "tagUpdate");
    SpeltExactly(name, "tagDelete");
  }

  lemma DvrSpelt(name: Bytes)
    ensures name == Ascii("dvrEntryAdd") <==> Spelt(name, "dvrEntryAdd")
    ensures name == Ascii("dvrEntryUpdate") <==> Spelt(name, "dvrEntryUpdate")
    ensures name == Ascii("dvrEntryDelete") <==> Spelt(name, "dvrEntryDelete")
  {
    hide Ascii, Spelt;
    SpeltExactly(name, "dvrEntryAdd");
    SpeltExactly(name, "dvrEntryUpdate");
    SpeltExactly(name, "dvrEntryDelete");
  }

  /**
   In every run the worker can go on while something is on its way, whatever the server sent, anyone
   can take what is queued, and a request that waits can look for its reply or give up.
   */
  lemma StepsPossible(steps: seq<Step>, r: nat, id: U32)
    requires Run(steps).Some?
    ensures var s := Run(steps).value;
            && (Enabled(s, Work) <==> s.downlink != [])
            && (Enabled(s, TakeAny) <==> s.queue != [])
            && (Enabled(s, Scan(r)) <==> r in s.waiting) && (Enabled(s, Timeout(r)) <==> r in s.waiting)
            && Enabled(s, ScanEvents(id))
  {
    hide Run, Parsed, NumberRead, Matches, SeqAt, Distinct;
    RunKeeps(steps);
    RunWaits(steps);
    var s := Run(steps).value;
    assert s.downlink != [] ==> GenuineFlying(s.numbers, s.downlink[0]);
  }

  // ----- every run is a run of the deque

  /** What a step does to the deque, if anything. */
  function QueueOps(s: State, step: Step): seq<Op> {
    match step
    case Work =>
      if s.downlink == [] || Parsed(s.downlink[0].body).None? then []
      else
        var root := Parsed(s.downlink[0].body).value;
        if s.downlink[0].body == [] || Consumed(root) then [] else [Enqueue(Valid(root))]
    case Scan(r) => if r < |s.numbers| then [Find(Sequence(s.numbers[r]))] else []
    case ScanEvents(id) => [Find(Subscription(id))]
    case TakeAny => [Get]
    case _ => []
  }

  ghost function AllQueueOps(steps: seq<Step>): seq<Op>
    requires Run(steps).Some?
  {
    if steps == [] then []
    else
      var before := steps[..|steps| - 1];
      AllQueueOps(before) + QueueOps(Run(before).value, steps[|steps| - 1])
  }

  function HandedOut(ds: seq<Delivery>): (ms: seq<Message>)
    ensures |ms| == |ds|
  {
    seq(|ds|, i requires 0 <= i < |ds| => ds[i].item.msg)
  }

  /** The queue and what was handed out are those of the deque after the same operations. */
  ghost predicate LikeDeque(s: State, ops: seq<Op>) {
    Messages(s.queue) == QueueAfter([], ops) && HandedOut(s.delivered) == Taken(Results([], ops))
  }

  lemma HandIsTaking(s: State, i: nat, request: Option<nat>)
    requires i < |s.queue|
    ensures Messages(Hand(s, i, request).queue) == RemoveAt(Messages(s.queue), i)
    ensures HandedOut(Hand(s, i, request).delivered) == HandedOut(s.delivered) + [Messages(s.queue)[i]]
  {
  }

  lemma ServeIsFind(s: State, key: Key, request: Option<nat>, ops: seq<Op>)
    requires LikeDeque(s, ops)
    ensures LikeDeque(Serve(s, key, request), ops + [Find(key)])
  {
    hide FirstIndex, QueueAfter, Results, Taken, Hand, RemoveAt;
    var op := Find(key);
    RunMore([], ops, op);
    TakenMore(Results([], ops), Do(QueueAfter([], ops), op).0);
    var r := FirstIndex(Messages(s.queue), key);
    if r.Some? {
      HandIsTaking(s, r.value, request);
    } else {
      assert HandedOut(s.delivered) + [] == HandedOut(s.delivered);
    }
  }

  lemma TakeIsGet(s: State, ops: seq<Op>)
    requires LikeDeque(s, ops) && s.queue != []
    ensures LikeDeque(Hand(s, 0, None), ops + [Get])
  {
    hide QueueAfter, Results, Taken, Hand;
    RunMore([], ops, Get);
    TakenMore(Results([], ops), Do(QueueAfter([], ops), Get).0);
    HandIsTaking(s, 0, None);
    assert RemoveAt(Messages(s.queue), 0) == Messages(s.queue)[1..];
  }

  lemma WorkIsEnqueue(s: State, ops: seq<Op>)
    requires LikeDeque(s, ops) && Enabled(s, Work)
    ensures LikeDeque(DoWork(s), ops + QueueOps(s, Work))
  {
    hide QueueAfter, Results, Taken, Parsed, Consumed;
    var added := QueueOps(s, Work);
    if added == [] {
      assert ops + added == ops;
    } else {
      var op := added[0];
      RunMore([], ops, op);
      TakenMore(Results([], ops), Do(QueueAfter([], ops), op).0);
      assert HandedOut(s.delivered) + [] == HandedOut(s.delivered);
      assert Messages(DoWork(s).queue) == Messages(s.queue) + [op.msg];
    }
  }

  lemma StepLikeDeque(s: State, step: Step, ops: seq<Op>)
    requires LikeDeque(s, ops) && Enabled(s, step)
    ensures LikeDeque(Apply(s, step), ops + QueueOps(s, step))
  {
    hide FirstIndex, QueueAfter, Results, Taken, Parsed, Consumed, Sendable, CarriesNumber, NumberRead, WireBody;
    match step {
      case Work => WorkIsEnqueue(s, ops);
      case Scan(r) => ServeIsFind(s, Sequence(s.numbers[r]), Some(r), ops);
      case ScanEvents(id) => ServeIsFind(s, Subscription(id), None, ops);
      case TakeAny => TakeIsGet(s, ops);
      case _ => assert ops + [] == ops;
    }
  }

  /**
   What happens to the queue in a run is a run of the deque of HtspMsgQueue.cpp, from which everything
   is handed out: all that is proved of the deque, such as `MailboxSimulation`, is true of it.
   */
  lemma {:induction false} RunIsDequeRun(steps: seq<Step>)
    requires Run(steps).Some?
    ensures Messages(Run(steps).value.queue) == QueueAfter([], AllQueueOps(steps))
    ensures HandedOut(Run(steps).value.delivered) == Taken(Results([], AllQueueOps(steps)))
  {
    hide Apply, Enabled, QueueOps;
    if steps != [] {
      var before, step := steps[..|steps| - 1], steps[|steps| - 1];
      RunIsDequeRun(before);
      assert LikeDeque(Run(before).value, AllQueueOps(before));
      StepLikeDeque(Run(before).value, step, AllQueueOps(before));
    }
  }

  // ----- who waits

  /** Some message was handed to the request. */
  ghost predicate Handed(s: State, r: nat) {
    exists i :: 0 <= i < |s.delivered| && s.delivered[i].request == Some(r)
  }

  /** A request waits from when it is made until it gives up or is handed a message, which happens once. */
  ghost predicate WaitsRightly(steps: seq<Step>, s: State) {
    && (forall r: nat :: r in s.waiting <==> r < |s.numbers| && Timeout(r) !in steps && !Handed(s, r))
    && (forall r: nat :: Timeout(r) in steps || Handed(s, r) ==> r < |s.numbers|)
    && (forall i, j :: 0 <= i < j < |s.delivered| && s.delivered[i].request.Some? ==>
          s.delivered[i].request != s.delivered[j].request)
  }

  lemma HandWaits(steps: seq<Step>, step: Step, s: State, i: nat, request: Option<nat>)
    requires WaitsRightly(steps, s) && i < |s.queue| && !step.Timeout?
    requires request.Some? ==> request.value in s.waiting
    ensures WaitsRightly(steps + [step], Hand(s, i, request))
  {
    var s' := Hand(s, i, request);
    forall r: nat ensures Handed(s', r) <==> Handed(s, r) || request == Some(r) {
      if Handed(s, r) {
        var k :| 0 <= k < |s.delivered| && s.delivered[k].request == Some(r);
        assert s'.delivered[k] == s.delivered[k];
      }
      if request == Some(r) {
        assert s'.delivered[|s.delivered|].request == Some(r);
      }
    }
  }

  lemma SameWaits(steps: seq<Step>, step: Step, s: State, s': State)
    requires WaitsRightly(steps, s) && s'.delivered == s.delivered
    requires step.Request? ==> |s'.numbers| == |s.numbers| + 1 && s'.waiting == s.waiting + {|s.numbers|}
    requires step.Timeout? ==> step.request in s.waiting && s'.waiting == s.waiting - {step.request}
    requires !step.Timeout? && !step.Request? ==> s'.waiting == s.waiting
    requires !step.Request? ==> s'.numbers == s.numbers
    ensures WaitsRightly(steps + [step], s')
  {
    forall r: nat ensures Handed(s', r) <==> Handed(s, r) {
    }
  }

  lemma StepWaits(steps: seq<Step>, s: State, step: Step)
    requires WaitsRightly(steps, s) && Enabled(s, step)
    ensures WaitsRightly(steps + [step], Apply(s, step))
  {
    hide WaitsRightly, FirstIndex, Parsed, Consumed, Sendable, CarriesNumber, NumberRead, WireBody, Hand;
    match step {
      case Scan(r) =>
        var k := FirstIndex(Messages(s.queue), Sequence(s.numbers[r]));
        if k.Some? { HandWaits(steps, step, s, k.value, Some(r)); } else { SameWaits(steps, step, s, s); }
      case ScanEvents(id) =>
        var k := FirstIndex(Messages(s.queue), Subscription(id));
        if k.Some? { HandWaits(steps, step, s, k.value, None); } else { SameWaits(steps, step, s, s); }
      case TakeAny => HandWaits(steps, step, s, 0, None);
      case _ => SameWaits(steps, step, s, Apply(s, step));
    }
  }

  lemma {:induction false} RunWaits(steps: seq<Step>)
    requires Run(steps).Some?
    ensures WaitsRightly(steps, Run(steps).value)
  {
    hide Apply, Enabled, WaitsRightly;
    if steps == [] {
      NobodyWaits();
    } else {
      var before, step := steps[..|steps| - 1], steps[|steps| - 1];
      RunWaits(before);
      StepWaits(before, Run(before).value, step);
      assert before + [step] == steps;
    }
  }

  lemma NobodyWaits()
    ensures WaitsRightly([], INIT)
  {
  }
}
