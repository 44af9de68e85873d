/**
 The bound of 2^31 - 1 requests is exact: with one request more, a reply that came too late for
 the first request can be handed to the last one, whose number is the same.
 */
module StaleReply {
  import opened Words
  import opened HtsMessage
  import opened IntCodec
  import opened Encoding
  import opened RoundTrip
  import opened Framing
  import opened MsgQueue
  import opened Client
  import opened Correlation

  const SLACK: Bytes := [0, 0, 0, 0]

  /** The smallest message that carries a number. */
  function NumberFields(n: U32): seq<Node> {
    [Node(SEQ, IntBody(n))]
  }

  lemma NumberFieldsFit(n: U32)
    requires n > 0
    ensures Sendable(Sent(NumberFields(n), SLACK)) && CarriesNumber(NumberFields(n), n)
  {
    hide IntBytes;
    var fields := NumberFields(n);
    IntRoundTrip(n);
    assert fields[1..] == [];
    assert AllWellFormed(fields) by { assert WellFormed(fields[0]); }
    assert SizeAll(fields) == Size(fields[0]) + SizeAll(fields[1..]);
    assert fields[0].name == SEQ && fields[0].body.IntBody? && fields[0].body.num % TWO_32 == n;
  }

  lemma NumberFieldsQueue(n: U32)
    requires n > 0
    ensures !Consumed(SetAll(map[], BackAll(NumberFields(n))))
  {
    var fields := NumberFields(n);
    assert fields[1..] == [];
    var e := Entry(SEQ, Int(n));
    assert |BackAll(fields[1..])| == 0;
    assert BackAll(fields) == [Back(fields[0])] + BackAll(fields[1..]) == [e];
    var root := SetAll(map[], [e]);
    SetAllAppend(map[], [], e);
    assert [] + [e] == [e];
    assert |METHOD| != |SEQ|;
    assert GetStr(GetData(root, METHOD)) == [];
  }

  lemma RunOneMore(steps: seq<Step>, step: Step)
    requires Run(steps).Some? && Enabled(Run(steps).value, step)
    ensures Run(steps + [step]) == Some(Apply(Run(steps).value, step))
  {
    hide Enabled, Apply;
    assert (steps + [step])[..|steps|] == steps;
  }

  /** n requests have been made and nobody waits; all that is left is a reply to the first one. */
  ghost predicate OnlyStaleReply(s: State, n: nat) {
    && |s.numbers| == n && Inv(s)
    && s.waiting == {} && s.downlink == [] && s.delivered == []
    && |s.queue| == 1 && s.queue[0].origin == Some(0) && Matches(Sequence(1), s.queue[0].msg)
  }

  /** A request that times out after its reply was sent; then the worker queues the reply. */
  lemma LateReply() returns (steps: seq<Step>)
    ensures Run(steps).Some? && OnlyStaleReply(Run(steps).value, 1)
  {
    hide Inv, Matches, CarriesNumber, Sendable, Receivable, Consumed, SetAll, BackAll;
    hide NumberRead, Parsed, NumberFields, EncodeAll, Run;
    var fields := NumberFields(1);
    NumberFieldsFit(1);
    NumberFieldsQueue(1);
    ExactBody(fields);
    BodyNumber(fields, SLACK, 1);
    BodyNumber(fields, [], 1);
    BodyParses(fields, []);
    var body := WireBody(fields, []);
    assert body != [];
    EmptyRun();
    steps := [];
    RunOneMore(steps, Request(fields, SLACK));
    steps := steps + [Request(fields, SLACK)];
    RunOneMore(steps, Timeout(0));
    steps := steps + [Timeout(0)];
    RunOneMore(steps, Reply(0, body));
    steps := steps + [Reply(0, body)];
    RunOneMore(steps, Work);
    steps := steps + [Work];
    RunKeeps(steps);
  }

  /** What can be sent with slack bytes can be received with and without them. */
  lemma ExactBody(fields: seq<Node>)
    requires Sendable(Sent(fields, SLACK)) && CarriesNumber(fields, 1)
    ensures Receivable(Sent(fields, SLACK)) && Receivable(Sent(fields, []))
    ensures WireBody(fields, []) != []
  {
    hide WellFormedBody;
    CanBeReceived(Sent(fields, SLACK));
  }

  lemma EmptyRun()
    ensures Run([]) == Some(INIT)
  {
  }

  /** Any number of further requests may pass by it. */
  lemma {:induction false} StaleReplyWaits(n: nat) returns (steps: seq<Step>)
    requires n > 0
    ensures Run(steps).Some? && OnlyStaleReply(Run(steps).value, n)
  {
    hide Inv, Matches, CarriesNumber, Sendable, NumberFields, Run, WireBody;
    if n == 1 {
      steps := LateReply();
    } else {
      steps := StaleReplyWaits(n - 1);
      var s := Run(steps).value;
      CounterPositive(s);
      var fields := NumberFields(s.counter);
      NumberFieldsFit(s.counter);
      RunOneMore(steps, Request(fields, SLACK));
      steps := steps + [Request(fields, SLACK)];
      RunOneMore(steps, Timeout(n - 1));
      steps := steps + [Timeout(n - 1)];
      RunKeeps(steps);
    }
  }

  lemma CounterPositive(s: State)
    requires Inv(s)
    ensures s.counter > 0 && s.counter == SeqAt(|s.numbers|)
  {
    SeqDistinctExactly(|s.numbers|, |s.numbers|);
  }

  /** A run of 2^31 requests in which the last one is handed the reply to the first. */
  lemma StaleReplyServed() returns (steps: seq<Step>)
    ensures Run(steps).Some? && |Run(steps).value.numbers| == CYCLE + 1
    ensures var d := Run(steps).value.delivered;
            |d| == 1 && d[0].request == Some(CYCLE) && d[0].item.origin == Some(0)
  {
    hide Inv, Matches, CarriesNumber, Sendable, NumberFields, Run, WireBody, SeqAt;
    steps := StaleReplyWaits(CYCLE);
    var s := Run(steps).value;
    CounterPositive(s);
    SeqDistinctExactly(0, CYCLE);
    assert SeqAt(0) == 1 by { FirstNumber(); }
    var fields := NumberFields(s.counter);
    NumberFieldsFit(s.counter);
    RunOneMore(steps, Request(fields, SLACK));
    steps := steps + [Request(fields, SLACK)];
    FirstUnique(Messages(s.queue), Sequence(1), 0);
    RunOneMore(steps, Scan(CYCLE));
    steps := steps + [Scan(CYCLE)];
  }

  lemma FirstNumber()
    ensures SeqAt(0) == 1
  {
  }

  /** Every request of the run was handed its own reply, or none. */
  ghost predicate Correlated(steps: seq<Step>) {
    Run(steps).Some? ==>
      forall i :: 0 <= i < |Run(steps).value.delivered| && Run(steps).value.delivered[i].request.Some? ==>
        Run(steps).value.delivered[i].item.origin == Run(steps).value.delivered[i].request
  }

  ghost predicate AtMost(steps: seq<Step>, n: nat) {
    Run(steps).Some? && |Run(steps).value.numbers| <= n
  }

  /** All runs of at most n requests are safe if and only if n is at most 2^31 - 1. */
  lemma CorrelationExactly(n: nat)
    ensures (forall steps :: AtMost(steps, n) ==> Correlated(steps)) <==> n <= CYCLE
  {
    hide Run;
    if n <= CYCLE {
      forall steps | AtMost(steps, n) ensures Correlated(steps) {
        var d := Run(steps).value.delivered;
        forall i | 0 <= i < |d| && d[i].request.Some? ensures d[i].item.origin == d[i].request {
          RepliesCorrelate(steps, i);
        }
      }
    } else {
      var steps := StaleReplyServed();
      assert AtMost(steps, n);
      assert Run(steps).value.delivered[0].item.origin != Run(steps).value.delivered[0].request;
      assert !Correlated(steps);
    }
  }
}
