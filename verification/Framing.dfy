/**
 Messages on a byte stream: what `TransmitMessage` puts on it and how `ReadMessageThen` cuts it up.
 The stream is the sequence of bytes that will still arrive before the connection ends.
 */
module Framing {
  import opened Words
  import opened HtsMessage
  import opened Encoding
  import opened Decoding
  import opened RoundTrip
  import opened Parser
  import opened Serialiser

  /** How one read ends: with a message, by throwing CDisconnectedException, or in undefined behaviour. */
  datatype Outcome = Got(msg: Message) | Disconnected | Undefined

  /** An encoded message and the bytes behind it that its announced length covers as well. */
  datatype Sent = Sent(fields: seq<Node>, slack: Bytes)

  /** What a reader can make sense of; an exact peer sends no slack. */
  ghost predicate Receivable(m: Sent) {
    WellFormedBody(MapBody(m.fields)) && SizeAll(m.fields) + |m.slack| < TWO_32 && |m.slack| <= 5
  }

  /**
   What `TransmitMessage` sends: the reported length exceeds the buffer by four, so the four bytes
   that happened to follow the buffer go out with it.
   */
  ghost predicate Sendable(m: Sent) {
    WellFormedBody(MapBody(m.fields)) && 8 + SizeAll(m.fields) < TWO_32 && |m.slack| == 4
  }

  lemma CanBeReceived(m: Sent)
    requires Sendable(m)
    ensures Receivable(m)
  {
  }

  function Frame(m: Sent): Bytes {
    Be32(Wrap32(SizeAll(m.fields) + |m.slack|)) + EncodeAll(m.fields) + m.slack
  }

  function Stream(ms: seq<Sent>): Bytes {
    if ms == [] then [] else Frame(ms[0]) + Stream(ms[1..])
  }

  // ----- the reader

  function Least(a: nat, b: nat): nat {
    if a < b then a else b
  }

  /** One `ReadMessageThen`: its outcome and the unread rest of the stream. */
  function ReadFrame(stream: Bytes): (Outcome, Bytes) {
    if |stream| < 4 then
      (Disconnected, stream)
    else
      var len := FromBe32(stream[..4]);
      var count := Least(len, |stream| - 4);
      var body, rest := stream[4..4 + count], stream[4 + count..];
      if count == 0 then
        (Got(Invalid), rest)
      else
        match Deserialize(body)
        case None => (Undefined, rest)
        case Some(root) => (Got(Valid(root)), rest)
  }

  /** n reads, one after the other. */
  function ReadFrames(stream: Bytes, n: nat): (seq<Outcome>, Bytes) {
    if n == 0 then
      ([], stream)
    else
      var (first, rest) := ReadFrame(stream);
      var (others, end) := ReadFrames(rest, n - 1);
      ([first] + others, end)
  }

  /**
   What the receiver gets of one message: its fields as they come back from the round trip, or an
   invalid message if the frame is empty.
   */
  function Received(m: Sent): Outcome {
    if m.fields == [] && m.slack == [] then Got(Invalid) else Got(Valid(SetAll(map[], BackAll(m.fields))))
  }

  function ReceivedAll(ms: seq<Sent>): (rs: seq<Outcome>)
    ensures |rs| == |ms|
  {
    if ms == [] then [] else [Received(ms[0])] + ReceivedAll(ms[1..])
  }

  lemma FrameParts(m: Sent, tail: Bytes)
    requires Receivable(m)
    ensures var s, len := Frame(m) + tail, SizeAll(m.fields) + |m.slack|;
            && |s| == 4 + len + |tail|
            && FromBe32(s[..4]) == len
            && s[4..4 + len] == EncodeAll(m.fields) + m.slack
            && s[4 + len..] == tail
  {
    hide EncodeAll, SizeAll, Be32, FromBe32;
    var len := SizeAll(m.fields) + |m.slack|;
    WordBytes(len, Be32(len));
    assert (Frame(m) + tail)[..4] == Be32(len);
  }

  /** One frame is read back whole, whatever its slack bytes are and whatever follows. */
  lemma FrameRead(m: Sent, tail: Bytes)
    requires Receivable(m)
    ensures ReadFrame(Frame(m) + tail) == (Received(m), tail)
  {
    hide EncodeAll, Frame, FromBe32, Deserialize, BackAll, SetAll;
    FrameParts(m, tail);
    DeserializeEncoded(m.fields, m.slack);
  }

  /**
   When the connection ends inside a frame, the message is made of what arrived, and is invalid if that
   is nothing; when it ends inside the length, there is no message.
   */
  lemma CutFrameRead(m: Sent, len: U32)
    requires Receivable(m)
    requires len >= SizeAll(m.fields) + |m.slack|
    ensures ReadFrame(Be32(len) + EncodeAll(m.fields) + m.slack) == (Received(m), [])
    ensures forall stream: Bytes :: |stream| < 4 ==> ReadFrame(stream) == (Disconnected, stream)
  {
    hide EncodeAll, Be32, FromBe32, Deserialize, BackAll, SetAll;
    var s := Be32(len) + EncodeAll(m.fields) + m.slack;
    WordBytes(len, Be32(len));
    var body := EncodeAll(m.fields) + m.slack;
    assert s == Be32(len) + body && s[..4] == Be32(len);
    assert s[4..4 + |body|] == body && s[4 + |body|..] == [];
    DeserializeEncoded(m.fields, m.slack);
  }

  /** Any run of frames is cut into the messages that were sent, in order, with nothing left over. */
  lemma {:induction false} StreamRead(ms: seq<Sent>, tail: Bytes)
    requires forall i :: 0 <= i < |ms| ==> Receivable(ms[i])
    ensures ReadFrames(Stream(ms) + tail, |ms|) == (ReceivedAll(ms), tail)
  {
    hide Frame, ReadFrame, Received;
    if ms == [] {
      assert Stream(ms) + tail == tail;
    } else {
      var rest := Stream(ms[1..]) + tail;
      assert Stream(ms) + tail == Frame(ms[0]) + rest;
      FrameRead(ms[0], rest);
      StreamRead(ms[1..], tail);
    }
  }

  /** The messages received read like the messages sent, on every path of nonempty names; empty frames are invalid. */
  lemma {:induction false} StreamReadings(ms: seq<Sent>, i: nat, path: seq<PathStep>)
    requires i < |ms| && Receivable(ms[i]) && NonemptyNames(path)
    ensures ReceivedAll(ms)[i].Got?
    ensures ReceivedAll(ms)[i].msg.Valid? <==> ms[i].fields != [] || ms[i].slack != []
    ensures ReceivedAll(ms)[i].msg.Valid? ==>
              Read(Follow(Some(Map(ReceivedAll(ms)[i].msg.root)), path))
              == Read(Follow(Some(Value(MapBody(ms[i].fields))), path))
  {
    if i == 0 {
      ReadingsSurvive(MapBody(ms[0].fields), path);
      assert BackTree(MapBody(ms[0].fields)) == Map(SetAll(map[], BackAll(ms[0].fields)));
    } else {
      StreamReadings(ms[1..], i - 1, path);
    }
  }

  // ----- the connection

  class Connection {
    var stream: Bytes

    /** `TransmitMessage`; the slack is the four bytes that lie behind the serialised buffer. */
    method TransmitMessage(m: Sent)
      requires 8 + SizeAll(m.fields) < TWO_32 && |m.slack| == 4
      modifies this
      ensures stream == old(stream) + Frame(m)
    {
      hide EncodeAll, SizeAll, Be32;
      var length, buf := SerializeMessage(m.fields);
      var written := buf[..] + m.slack;
      assert length == |written|;
      stream := stream + written;
    }

    /** `ReadMessageThen`, where the bytes are such that parsing is defined. */
    method ReadMessageThen() returns (r: Outcome)
      requires ReadFrame(stream).0 != Undefined
      modifies this
      ensures (r, stream) == ReadFrame(old(stream))
    {
      hide Deserialize, FromBe32, Be32;
      if |stream| < 4 {
        return Disconnected;
      }
      var len := FromBe32(stream[..4]);
      if len == 0 {
        stream := stream[4..];
        return Got(Invalid);
      }
      var count := Least(len, |stream| - 4);
      if count == 0 {
        stream := stream[4..];
        return Got(Invalid);
      }
      var body := stream[4..4 + count];
      var buffer := new byte[count](i requires 0 <= i < count => body[i]);
      assert buffer[..] == body;
      stream := stream[4 + count..];
      var msg := DeserializeMessage(buffer);
      r := Got(msg);
    }
  }
}
