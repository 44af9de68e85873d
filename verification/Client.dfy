/**
 The parts of HtspClient.cpp that number requests and, while no worker runs, wait for a reply by
 reading messages themselves and putting back what belongs to others.
 */
module Client {
  import opened Words
  import opened HtsMessage
  import opened RoundTrip
  import opened Parser
  import opened Framing
  import opened MsgQueue

  // ----- sequence numbers

  /** How many sequence numbers there are: 1 to 2^31 - 1. */
  const CYCLE: int := 2147483647

  class SequenceCounter {
    var nextSeqNum: U32

    constructor ()
      ensures nextSeqNum == 1
    {
      nextSeqNum := 1;
    }

    /** `HTSPNextSeqNum`. */
    method HTSPNextSeqNum() returns (res: U32)
      modifies this
      ensures res == old(nextSeqNum) && nextSeqNum == Successor(old(nextSeqNum))
    {
      res := nextSeqNum;
      nextSeqNum := Wrap32(nextSeqNum + 1);
      if nextSeqNum > 2147483647 {
        nextSeqNum := 1;
      }
    }
  }

  function Successor(n: U32): U32 {
    if Wrap32(n + 1) > 2147483647 then 1 else Wrap32(n + 1)
  }

  /** The counter after i calls, and so the result of call i. */
  function SeqAt(i: nat): U32 {
    if i == 0 then 1 else Successor(SeqAt(i - 1))
  }

  lemma ModStep(i: nat)
    ensures (i + 1) % CYCLE == if i % CYCLE == CYCLE - 1 then 0 else i % CYCLE + 1
  {
    var q, r := i / CYCLE, i % CYCLE;
    assert i + 1 == CYCLE * q + (r + 1);
    if r == CYCLE - 1 {
      assert i + 1 == CYCLE * (q + 1);
    }
  }

  /** The numbers are 1 to 2^31 - 1, over and over. */
  lemma {:induction false} SeqClosedForm(i: nat)
    ensures SeqAt(i) == 1 + i % 0x7FFF_FFFF
  {
    if i > 0 {
      SeqClosedForm(i - 1);
      ModStep(i - 1);
    }
  }

  lemma ModEqual(i: nat, j: nat)
    requires i <= j
    ensures i % CYCLE == j % CYCLE <==> (j - i) % CYCLE == 0
  {
    var a, r, b, s := i / CYCLE, i % CYCLE, j / CYCLE, j % CYCLE;
    assert j - i == CYCLE * (b - a) + (s - r);
    if s >= r {
      assert (j - i) % CYCLE == s - r;
    } else {
      assert j - i == CYCLE * (b - a - 1) + (CYCLE + s - r);
      assert (j - i) % CYCLE == CYCLE + s - r;
    }
  }

  /**
   In every reachable state the numbers are 1 to 2^31 - 1, and two calls get the same number if and
   only if the distance between them is a multiple of 2^31 - 1. Any window of that many consecutive
   calls is therefore pairwise distinct and free of 0, across the wraparound too.
   */
  lemma SeqDistinctExactly(i: nat, j: nat)
    requires i <= j
    ensures 1 <= SeqAt(i) <= CYCLE
    ensures SeqAt(i) == SeqAt(j) <==> (j - i) % CYCLE == 0
    ensures i < j < i + CYCLE ==> SeqAt(i) != SeqAt(j)
  {
    hide SeqAt;
    SeqClosedForm(i);
    SeqClosedForm(j);
    ModEqual(i, j);
  }

  /** The fields of a message carry a number: there is an integer under "seq" with those 32 bits. */
  ghost predicate CarriesNumber(fields: seq<Node>, n: U32) {
    exists i :: 0 <= i < |fields| && fields[i].name == SEQ && fields[i].body.IntBody?
                && fields[i].body.num % TWO_32 == n
  }

  /** A number other than 0 is still found under its name when the message has been parsed. */
  lemma NumberSurvives(fields: seq<Node>, n: U32)
    requires WellFormedBody(MapBody(fields)) && n != 0 && CarriesNumber(fields, n)
    ensures Matches(Sequence(n), Valid(SetAll(map[], BackAll(fields))))
  {
    var i :| 0 <= i < |fields| && fields[i].name == SEQ && fields[i].body.IntBody?
             && fields[i].body.num % TWO_32 == n;
    var before := SetAll(map[], ValueAll(fields));
    MapValue(fields, i);
    ContainsAfterwards(fields, SEQ);
    var j := BackKeySource(fields, SEQ);
  }

  /** And without the name there is no number in the parsed message either. */
  lemma NoNumberAppears(fields: seq<Node>)
    requires WellFormedBody(MapBody(fields)) && forall i :: 0 <= i < |fields| ==> fields[i].name != SEQ
    ensures !HasSequence(SetAll(map[], BackAll(fields)))
  {
    if HasSequence(SetAll(map[], BackAll(fields))) {
      var i := BackSource(fields, SEQ);
    }
  }

  // ----- waiting without the worker

  /** A message for the requester who waits for reply n, or for one who takes any. */
  predicate Wanted(msg: Message, n: U32, repeat: bool) {
    !repeat || Matches(Sequence(n), msg)
  }

  /**
   One turn of `ReadResult_Repeat` on the queue and the messages the network still brings: it is
   over, or the message went to the back of the queue.
   */
  datatype Turn = Over(result: Outcome, queue: seq<Message>, net: seq<Message>)
                | Again(queue: seq<Message>, net: seq<Message>)

  function OneTurn(queue: seq<Message>, net: seq<Message>, n: U32, repeat: bool): Turn {
    if queue == [] && net == [] then Over(Disconnected, queue, net)
    else
      var msg := if queue != [] then queue[0] else net[0];
      var queue', net' := if queue != [] then queue[1..] else [], if queue != [] then net else net[1..];
      if msg.Invalid? || Wanted(msg, n, repeat) then Over(Got(msg), queue', net')
      else Again(queue' + [msg], net')
  }

  /** The first f turns; None when they are not enough. */
  function Turns(queue: seq<Message>, net: seq<Message>, n: U32, repeat: bool, f: nat): Option<Turn>
    decreases f
  {
    if f == 0 then None
    else
      match OneTurn(queue, net, n, repeat)
      case Over(r, q, t) => Some(Over(r, q, t))
      case Again(q, t) => Turns(q, t, n, repeat, f - 1)
  }

  /** No turn loses or doubles a message. */
  lemma OneTurnConserves(queue: seq<Message>, net: seq<Message>, n: U32, repeat: bool)
    ensures var t := OneTurn(queue, net, n, repeat);
            multiset(queue) + multiset(net)
            == multiset(t.queue) + multiset(t.net)
             + multiset(if t.Over? && t.result.Got? then [t.result.msg] else [])
  {
    hide Wanted;
    if queue != [] {
      assert queue == [queue[0]] + queue[1..];
    } else if net != [] {
      assert net == [net[0]] + net[1..];
    }
  }

  /** Whether a requester who repeats has an end in sight. */
  predicate Ends(queue: seq<Message>, net: seq<Message>, n: U32) {
    FirstIndex(queue, Sequence(n)).Some?
    || (queue == [] && (net == [] || net[0].Invalid? || Matches(Sequence(n), net[0])))
  }

  lemma RotatedIndex(queue: seq<Message>, n: U32, k: nat)
    requires k > 0 && FirstIndex(queue, Sequence(n)) == Some(k)
    ensures FirstIndex(queue[1..] + [queue[0]], Sequence(n)) == Some(k - 1)
  {
    hide Matches;
    FirstUnique(queue[1..] + [queue[0]], Sequence(n), k - 1);
  }

  /**
   When a match is queued, the first one at position k, and nobody else touches the queue, the wait
   ends after k rotations with that match, and what was before it now stands at the back.
   */
  lemma {:induction false} EndsAfterRotations(queue: seq<Message>, net: seq<Message>, n: U32, k: nat)
    requires AllValid(queue) && FirstIndex(queue, Sequence(n)) == Some(k)
    ensures Turns(queue, net, n, true, k + 1)
         == Some(Over(Got(queue[k]), queue[k + 1..] + queue[..k], net))
    ensures k > 0 ==> Turns(queue, net, n, true, k) == None
    decreases k
  {
    hide FirstIndex, Matches;
    if k > 0 {
      var next := queue[1..] + [queue[0]];
      NotFirst(queue, n, k);
      assert OneTurn(queue, net, n, true) == Again(next, net);
      RotatedIndex(queue, n, k);
      EndsAfterRotations(next, net, n, k - 1);
      assert next[k..] + next[..k - 1] == queue[k + 1..] + queue[..k];
    } else {
      FoundFirst(queue, n);
      assert queue[1..] + queue[..0] == queue[1..];
    }
  }

  lemma NotFirst(queue: seq<Message>, n: U32, k: nat)
    requires k > 0 && FirstIndex(queue, Sequence(n)) == Some(k)
    ensures k < |queue| && !Matches(Sequence(n), queue[0])
  {
  }

  lemma FoundFirst(queue: seq<Message>, n: U32)
    requires FirstIndex(queue, Sequence(n)) == Some(0)
    ensures queue != [] && Matches(Sequence(n), queue[0])
  {
  }

  lemma Hopeless(queue: seq<Message>, n: U32)
    requires queue != [] && FirstIndex(queue, Sequence(n)).None?
    ensures !Matches(Sequence(n), queue[0])
    ensures FirstIndex(queue[1..] + [queue[0]], Sequence(n)).None?
  {
    hide Matches;
    var next := queue[1..] + [queue[0]];
    forall j | 0 <= j < |next| ensures !Matches(Sequence(n), next[j]) {
      assert next[j] == if j + 1 < |queue| then queue[j + 1] else queue[0];
    }
  }

  /** With a nonempty queue and no match in it, the same messages go round for ever. */
  lemma {:induction false} HopelessForever(queue: seq<Message>, net: seq<Message>, n: U32, f: nat)
    requires AllValid(queue) && queue != [] && FirstIndex(queue, Sequence(n)).None?
    ensures Turns(queue, net, n, true, f) == None
    decreases f
  {
    hide FirstIndex, Matches;
    if f > 0 {
      Hopeless(queue, n);
      HopelessForever(queue[1..] + [queue[0]], net, n, f - 1);
    }
  }

  /** The wait ends, after some number of turns, exactly in the cases of `Ends`. */
  lemma EndsExactly(queue: seq<Message>, net: seq<Message>, n: U32)
    requires AllValid(queue)
    ensures Ends(queue, net, n) <==> exists f: nat :: Turns(queue, net, n, true, f).Some?
  {
    hide FirstIndex, Matches;
    if Ends(queue, net, n) {
      if FirstIndex(queue, Sequence(n)).Some? {
        var k := FirstIndex(queue, Sequence(n)).value;
        EndsAfterRotations(queue, net, n, k);
        assert Turns(queue, net, n, true, k + 1).Some?;
      } else {
        assert Turns(queue, net, n, true, 1).Some?;
      }
    } else {
      forall f: nat ensures Turns(queue, net, n, true, f).None? {
        if queue != [] {
          HopelessForever(queue, net, n, f);
        } else if f > 0 {
          assert OneTurn(queue, net, n, true) == Again([net[0]], net[1..]);
          SingleHopeless(net[0], n);
          HopelessForever([net[0]], net[1..], n, f - 1);
        }
      }
    }
  }

  lemma SingleHopeless(msg: Message, n: U32)
    requires !Matches(Sequence(n), msg)
    ensures FirstIndex([msg], Sequence(n)).None?
  {
  }

  lemma {:induction false} MoreTurns(queue: seq<Message>, net: seq<Message>, n: U32, repeat: bool, f: nat, g: nat)
    requires Turns(queue, net, n, repeat, f).Some? && f <= g
    ensures Turns(queue, net, n, repeat, g) == Turns(queue, net, n, repeat, f)
    decreases f
  {
    hide OneTurn;
    var t := OneTurn(queue, net, n, repeat);
    if t.Again? {
      MoreTurns(t.queue, t.net, n, repeat, f - 1, g - 1);
    }
  }

  /** How the wait ends: what it returns, and what it leaves of the queue and the network. */
  function Ending(queue: seq<Message>, net: seq<Message>, n: U32, repeat: bool): (Outcome, seq<Message>, seq<Message>) {
    if queue == [] && net == [] then (Disconnected, [], [])
    else if queue == [] then (Got(net[0]), [], net[1..])
    else
      match if repeat then FirstIndex(queue, Sequence(n)) else Some(0)
      case Some(k) => (Got(queue[k]), queue[k + 1..] + queue[..k], net)
      case None => (Undefined, queue, net)
  }

  /** However many turns it takes, a wait that ends can only end in that way. */
  lemma EndsSo(queue: seq<Message>, net: seq<Message>, n: U32, repeat: bool, f: nat)
    requires AllValid(queue) && Turns(queue, net, n, repeat, f).Some?
    ensures var (r, q, t) := Ending(queue, net, n, repeat);
            r != Undefined && Turns(queue, net, n, repeat, f) == Some(Over(r, q, t))
  {
    hide FirstIndex, Matches;
    if queue == [] {
      if net != [] && OneTurn(queue, net, n, repeat).Again? {
        assert OneTurn(queue, net, n, repeat) == Again([net[0]], net[1..]);
        SingleHopeless(net[0], n);
        HopelessForever([net[0]], net[1..], n, f - 1);
      }
    } else if repeat {
      var k := FirstIndex(queue, Sequence(n));
      if k == None {
        HopelessForever(queue, net, n, f);
      } else {
        EndsAfterRotations(queue, net, n, k.value);
        if f <= k.value + 1 {
          MoreTurns(queue, net, n, repeat, f, k.value + 1);
        } else {
          MoreTurns(queue, net, n, repeat, k.value + 1, f);
        }
      }
    } else {
      assert queue[1..] + queue[..0] == queue[1..];
    }
  }

  class HtspClient {
    const queue: HtspMsgQueue

    /** The messages that reading the network will still give, before it disconnects. */
    var net: seq<Message>

    constructor (messages: seq<Message>)
      ensures fresh(queue) && queue.queue == [] && net == messages
    {
      queue := new HtspMsgQueue();
      net := messages;
    }

    /** `ReadMessage` while no worker runs: the queue comes first. */
    method ReadMessage() returns (r: Outcome)
      modifies this, queue
      ensures old(queue.queue) != [] ==>
                r == Got(old(queue.queue)[0]) && queue.queue == old(queue.queue)[1..] && net == old(net)
      ensures old(queue.queue) == [] && old(net) != [] ==>
                r == Got(old(net)[0]) && queue.queue == [] && net == old(net)[1..]
      ensures old(queue.queue) == [] && old(net) == [] ==>
                r == Disconnected && queue.queue == [] && net == []
    {
      var got, msg := queue.GetMsg();
      if got {
        return Got(msg);
      }
      if net == [] {
        return Disconnected;
      }
      r := Got(net[0]);
      net := net[1..];
    }

    /**
     `ReadResult_Repeat`, called where it ends. It does what the turns say, as many as are needed.
     */
    method ReadResultRepeat(iSequence: U32, repeat: bool) returns (r: Outcome, ghost f: nat)
      requires AllValid(queue.queue) && (repeat ==> Ends(queue.queue, net, iSequence))
      modifies this, queue
      ensures Turns(old(queue.queue), old(net), iSequence, repeat, f) == Some(Over(r, queue.queue, net))
      ensures (r, queue.queue, net) == Ending(old(queue.queue), old(net), iSequence, repeat)
      decreases var k := FirstIndex(queue.queue, Sequence(iSequence)); if k.Some? then k.value else 0
    {
      hide FirstIndex, Matches;
      ghost var k := FirstIndex(queue.queue, Sequence(iSequence));
      var m := ReadMessage();
      if m.Disconnected? || m.msg.Invalid? || Wanted(m.msg, iSequence, repeat) {
        EndsSo(old(queue.queue), old(net), iSequence, repeat, 1);
        return m, 1;
      }
      if k == Some(0) {
        FoundFirst(old(queue.queue), iSequence);
        assert false;
      }
      RotatedIndex(old(queue.queue), iSequence, k.value);
      queue.EnqueueMsg(m.msg);
      r, f := ReadResultRepeat(iSequence, repeat);
      f := f + 1;
      EndsSo(old(queue.queue), old(net), iSequence, repeat, f);
    }
  }
}
