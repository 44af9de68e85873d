/**
 The list of subscriptions in HtspClient.cpp: which streams a new subscription has, and how the worker
 hands each media packet to the queue of the stream it belongs to. A media queue is the sequence of all
 that was ever put into it, None while the pointer to it is null.
 */
module Subscriptions {
  import opened Words
  import opened HtsMessage
  import MsgQueue

  const STREAM: Bytes := Ascii("stream")
  const TYPE: Bytes := Ascii("type")
  const INDEX: Bytes := Ascii("index")

  type Packet = map<Bytes, Tree>
  type Queue = Option<seq<Packet>>

  datatype SubscriptionInfo =
    SubscriptionInfo(id: U32, audioIndex: U32, videoIndex: U32, audio: Queue, video: Queue)

  // ----- the streams of a new subscription

  function NewSubscription(id: U32): SubscriptionInfo {
    SubscriptionInfo(id, 0, 0, None, None)
  }

  function TypeOf(sub: Tree): Bytes {
    GetStr(GetData(GetMap(Some(sub)), TYPE))
  }

  function IndexOf(sub: Tree): U32 {
    GetU32(GetData(GetMap(Some(sub)), INDEX))
  }

  /** The entries of "streams" that are looked at, by kind. */
  predicate IsAudio(sub: Tree) {
    && sub.Map? && INDEX in sub.data
    && (TypeOf(sub) == Ascii("AC3") || TypeOf(sub) == Ascii("MPEG2AUDIO") || TypeOf(sub) == Ascii("AAC"))
  }

  predicate IsVideo(sub: Tree) {
    sub.Map? && INDEX in sub.data && (TypeOf(sub) == Ascii("MPEG2VIDEO") || TypeOf(sub) == Ascii("H264"))
  }

  lemma NamesSpelt()
    ensures Spelt(STREAM, "stream") && Spelt(TYPE, "type") && Spelt(INDEX, "index")
  {
  }

  /** What makes an entry of "streams" a stream of one kind, in terms of what it holds under which name. */
  lemma KindsExactly(sub: Tree)
    ensures IsAudio(sub)
       <==> sub.Map? && INDEX in sub.data && TYPE in sub.data && sub.data[TYPE].Str?
            && (|| Spelt(sub.data[TYPE].str, "AC3")
                || Spelt(sub.data[TYPE].str, "MPEG2AUDIO")
                || Spelt(sub.data[TYPE].str, "AAC"))
    ensures IsVideo(sub)
       <==> sub.Map? && INDEX in sub.data && TYPE in sub.data && sub.data[TYPE].Str?
            && (Spelt(sub.data[TYPE].str, "MPEG2VIDEO") || Spelt(sub.data[TYPE].str, "H264"))
    ensures sub.Map? && INDEX in sub.data && sub.data[INDEX].Int? ==>
              IndexOf(sub) == sub.data[INDEX].num % 0x1_0000_0000
  {
    hide Ascii, Spelt;
    KindsNamed();
    KindsSpelt(TypeOf(sub));
  }

  lemma KindsSpelt(name: Bytes)
    ensures Spelt(name, "AC3") <==> name == Ascii("AC3")
    ensures Spelt(name, "MPEG2AUDIO") <==> name == Ascii("MPEG2AUDIO")
    ensures Spelt(name, "AAC") <==> name == Ascii("AAC")
    ensures Spelt(name, "MPEG2VIDEO") <==> name == Ascii("MPEG2VIDEO")
    ensures Spelt(name, "H264") <==> name == Ascii("H264")
  {
    hide Ascii, Spelt;
    SpeltExactly(name, "AC3");
    SpeltExactly(name, "MPEG2AUDIO");
    SpeltExactly(name, "AAC");
    SpeltExactly(name, "MPEG2VIDEO");
    SpeltExactly(name, "H264");
  }

  function Noted(sii: SubscriptionInfo, sub: Tree): SubscriptionInfo {
    if IsAudio(sub) && sii.audioIndex == 0 then sii.(audio := Some([]), audioIndex := IndexOf(sub))
    else if IsVideo(sub) then sii.(video := Some([]), videoIndex := IndexOf(sub))
    else sii
  }

  function Discovered(sii: SubscriptionInfo, streams: seq<Tree>): SubscriptionInfo {
    if streams == [] then sii
    else Noted(Discovered(sii, streams[..|streams| - 1]), streams[|streams| - 1])
  }

  /** The loop over the streams of one "subscriptionStart" in `SubscribeChannelAsync`. */
  method ReadStreams(before: SubscriptionInfo, streams: seq<Tree>) returns (sii: SubscriptionInfo)
    ensures sii == Discovered(before, streams)
  {
    hide Ascii;
    sii := before;
    assert streams[..|streams|] == streams;
    for i := 0 to |streams|
      invariant sii == Discovered(before, streams[..i])
    {
      var sub := streams[i];
      assert streams[..i + 1][..i] == streams[..i];
      if !sub.Map? {
        continue;
      }
      var kind := GetStr(GetData(sub.data, TYPE));
      if kind == [] {
        KindsNamed();
        continue;
      }
      if INDEX !in sub.data {
        continue;
      }
      var index := GetU32(GetData(sub.data, INDEX));
      if (kind == Ascii("AC3") || kind == Ascii("MPEG2AUDIO") || kind == Ascii("AAC")) && sii.audioIndex == 0 {
        sii := sii.(audio := Some([]), audioIndex := index);
      } else if kind == Ascii("MPEG2VIDEO") || kind == Ascii("H264") {
        sii := sii.(video := Some([]), videoIndex := index);
      }
    }
  }

  lemma KindsNamed()
    ensures Ascii("AC3") != [] && Ascii("MPEG2AUDIO") != [] && Ascii("AAC") != []
    ensures Ascii("MPEG2VIDEO") != [] && Ascii("H264") != []
  {
  }

  lemma KindsDiffer(sub: Tree)
    ensures !(IsAudio(sub) && IsVideo(sub))
  {
    assert Ascii("H264")[0] == 72 && Ascii("AC3")[0] == 65 && Ascii("AAC")[0] == 65;
    assert Ascii("MPEG2VIDEO")[5] == 86 && Ascii("MPEG2AUDIO")[5] == 65;
  }

  /** The streams may be spread over several such messages. */
  lemma {:induction false} DiscoveredInTurn(sii: SubscriptionInfo, streams: seq<Tree>, more: seq<Tree>)
    ensures Discovered(Discovered(sii, streams), more) == Discovered(sii, streams + more)
  {
    hide Noted;
    if more == [] {
      assert streams + more == streams;
    } else {
      DiscoveredInTurn(sii, streams, more[..|more| - 1]);
      assert (streams + more)[..|streams + more| - 1] == streams + more[..|more| - 1];
    }
  }

  ghost predicate HasVideo(streams: seq<Tree>) {
    exists j :: 0 <= j < |streams| && IsVideo(streams[j])
  }

  ghost predicate HasAudio(streams: seq<Tree>) {
    exists j :: 0 <= j < |streams| && IsAudio(streams[j])
  }

  /** The last video stream of all. */
  ghost predicate LastVideo(streams: seq<Tree>, j: int) {
    0 <= j < |streams| && IsVideo(streams[j]) && forall k :: j < k < |streams| ==> !IsVideo(streams[k])
  }

  /** The first audio stream whose index is not 0. */
  ghost predicate FirstAudio(streams: seq<Tree>, j: int) {
    0 <= j < |streams| && IsAudio(streams[j]) && IndexOf(streams[j]) != 0
    && forall k :: 0 <= k < j && IsAudio(streams[k]) ==> IndexOf(streams[k]) == 0
  }

  /**
   A new subscription has a queue for each kind it has a stream of, and takes the packets of the last
   video stream and of the first audio stream with an index other than 0. Its other indices stay 0.
   */
  lemma DiscoveredExactly(id: U32, streams: seq<Tree>)
    ensures var s := Discovered(NewSubscription(id), streams);
            && s.id == id
            && s.video == (if HasVideo(streams) then Some([]) else None)
            && s.audio == (if HasAudio(streams) then Some([]) else None)
            && (!HasVideo(streams) ==> s.videoIndex == 0)
            && (forall j :: LastVideo(streams, j) ==> s.videoIndex == IndexOf(streams[j]))
            && (forall j :: FirstAudio(streams, j) ==> s.audioIndex == IndexOf(streams[j]))
            && (s.audioIndex != 0 ==> exists j :: FirstAudio(streams, j))
  {
    hide Discovered, HasVideo, HasAudio, LastVideo, FirstAudio;
    DiscoveredVideo(id, streams);
    DiscoveredAudio(id, streams);
  }

  lemma {:induction false} DiscoveredVideo(id: U32, streams: seq<Tree>)
    ensures var s := Discovered(NewSubscription(id), streams);
            && s.id == id
            && s.video == (if HasVideo(streams) then Some([]) else None)
            && (!HasVideo(streams) ==> s.videoIndex == 0)
            && (forall j :: LastVideo(streams, j) ==> s.videoIndex == IndexOf(streams[j]))
  {
    hide IsAudio, IsVideo, IndexOf;
    if streams != [] {
      var most, last := streams[..|streams| - 1], |streams| - 1;
      DiscoveredVideo(id, most);
      KindsDiffer(streams[last]);
      LastVideoAtEnd(most, streams[last]);
      hide LastVideo, HasVideo;
      assert most + [streams[last]] == streams;
    }
  }

  lemma LastVideoAtEnd(most: seq<Tree>, sub: Tree)
    ensures HasVideo(most + [sub]) <==> HasVideo(most) || IsVideo(sub)
    ensures IsVideo(sub) ==> forall j :: LastVideo(most + [sub], j) ==> j == |most|
    ensures !IsVideo(sub) ==>
              forall j :: LastVideo(most + [sub], j) ==> LastVideo(most, j) && (most + [sub])[j] == most[j]
  {
    hide IsVideo;
    var streams := most + [sub];
    assert forall j :: 0 <= j < |most| ==> streams[j] == most[j];
    assert streams[|most|] == sub;
  }

  lemma {:induction false} DiscoveredAudio(id: U32, streams: seq<Tree>)
    ensures var s := Discovered(NewSubscription(id), streams);
            && s.audio == (if HasAudio(streams) then Some([]) else None)
            && (forall j :: FirstAudio(streams, j) ==> s.audioIndex == IndexOf(streams[j]))
            && (s.audioIndex != 0 ==> exists j :: FirstAudio(streams, j))
  {
    hide IsAudio, IsVideo, IndexOf;
    if streams != [] {
      var most, last := streams[..|streams| - 1], |streams| - 1;
      DiscoveredAudio(id, most);
      assert forall j :: 0 <= j < last ==> streams[j] == most[j];
      assert forall j :: 0 <= j < last ==> (FirstAudio(streams, j) <==> FirstAudio(most, j));
      FirstAudioAtEnd(streams, Discovered(NewSubscription(id), most).audioIndex);
    }
  }

  /** Whether the last stream is the first audio stream with an index depends on what was found before it. */
  lemma FirstAudioAtEnd(streams: seq<Tree>, found: U32)
    requires streams != []
    requires var most := streams[..|streams| - 1];
             && (forall j :: FirstAudio(most, j) ==> found == IndexOf(most[j]))
             && (found != 0 ==> exists j :: FirstAudio(most, j))
    ensures FirstAudio(streams, |streams| - 1)
       <==> found == 0 && IsAudio(streams[|streams| - 1]) && IndexOf(streams[|streams| - 1]) != 0
  {
    hide IsAudio, IndexOf;
    var most, last := streams[..|streams| - 1], |streams| - 1;
    assert forall j :: 0 <= j < last ==> streams[j] == most[j];
    if found != 0 {
      var j :| FirstAudio(most, j);
      assert IsAudio(streams[j]) && IndexOf(streams[j]) != 0;
    } else {
      NoFirstAudio(most);
    }
  }

  lemma {:induction false} NoFirstAudio(streams: seq<Tree>)
    requires forall j :: FirstAudio(streams, j) ==> IndexOf(streams[j]) == 0
    ensures forall k :: 0 <= k < |streams| && IsAudio(streams[k]) ==> IndexOf(streams[k]) == 0
  {
    hide IsAudio, IndexOf;
    if streams != [] {
      var most, last := streams[..|streams| - 1], |streams| - 1;
      assert forall j :: 0 <= j < last ==> streams[j] == most[j];
      assert forall j :: FirstAudio(most, j) ==> FirstAudio(streams, j);
      NoFirstAudio(most);
      assert IsAudio(streams[last]) && IndexOf(streams[last]) != 0 ==> FirstAudio(streams, last);
    }
  }

  // ----- where a packet goes

  function Addressee(p: Packet): U32 {
    GetU32(GetData(p, MsgQueue.SUBSCRIPTION_ID))
  }

  function StreamOf(p: Packet): U32 {
    GetU32(GetData(p, STREAM))
  }

  /** The numbers a packet is sorted by, in terms of what it holds; 0 stands for a missing one. */
  lemma PacketNumbers(p: Packet)
    ensures var name := MsgQueue.SUBSCRIPTION_ID;
            Addressee(p) == if name in p && p[name].Int? then p[name].num % 0x1_0000_0000 else 0
    ensures StreamOf(p) == if STREAM in p && p[STREAM].Int? then p[STREAM].num % 0x1_0000_0000 else 0
  {
  }

  /**
   What a subscription does with a packet of its own: video is looked at first. None is a sample put
   into a queue that is null.
   */
  function Put(s: SubscriptionInfo, p: Packet): Option<SubscriptionInfo> {
    if StreamOf(p) == s.videoIndex then
      if s.video == None then None else Some(s.(video := Some(s.video.value + [p])))
    else if StreamOf(p) == s.audioIndex then
      if s.audio == None then None else Some(s.(audio := Some(s.audio.value + [p])))
    else
      Some(s)
  }

  /** The position of the first subscription with an id, |list| if there is none. */
  function Position(list: seq<SubscriptionInfo>, id: U32): (i: nat)
    ensures i <= |list| && (i < |list| ==> list[i].id == id)
    ensures forall j :: 0 <= j < i ==> list[j].id != id
  {
    if list == [] || list[0].id == id then 0
    else
      assert forall j :: 1 <= j < |list| ==> list[j] == list[1..][j - 1];
      1 + Position(list[1..], id)
  }

  function Dispatch(list: seq<SubscriptionInfo>, p: Packet): (r: Option<seq<SubscriptionInfo>>)
    ensures r.Some? ==> |r.value| == |list|
  {
    var i := Position(list, Addressee(p));
    if i == |list| then Some(list)
    else
      match Put(list[i], p)
      case None => None
      case Some(s) => Some(list[i := s])
  }

  function Without(list: seq<SubscriptionInfo>, id: U32): seq<SubscriptionInfo> {
    var i := Position(list, id);
    if i == |list| then list else MsgQueue.RemoveAt(list, i)
  }

  class SubscriptionList {
    var subscriptions: seq<SubscriptionInfo>

    /** `SubscribeChannelAsync` appends when the stream indices are known. */
    method Add(sii: SubscriptionInfo)
      modifies this
      ensures subscriptions == old(subscriptions) + [sii]
    {
      subscriptions := subscriptions + [sii];
    }

    /** The loop of `UnsubscribeAsync`, and whether an unsubscription is to be sent. */
    method Remove(subscriptionId: U32) returns (found: bool)
      modifies this
      ensures subscriptions == Without(old(subscriptions), subscriptionId)
      ensures found <==> exists i :: 0 <= i < |old(subscriptions)| && old(subscriptions)[i].id == subscriptionId
      ensures !found ==> subscriptions == old(subscriptions)
      ensures found ==> exists i :: 0 <= i < |old(subscriptions)| && old(subscriptions)[i].id == subscriptionId
                                    && (forall j :: 0 <= j < i ==> old(subscriptions)[j].id != subscriptionId)
                                    && subscriptions == old(subscriptions)[..i] + old(subscriptions)[i + 1..]
    {
      var it := 0;
      while it != |subscriptions|
        invariant 0 <= it <= |subscriptions| && subscriptions == old(subscriptions)
        invariant forall j :: 0 <= j < it ==> subscriptions[j].id != subscriptionId
      {
        if subscriptions[it].id == subscriptionId {
          subscriptions := MsgQueue.RemoveAt(subscriptions, it);
          return true;
        }
        it := it + 1;
      }
      return false;
    }

    /** The loop of `ParseMuxPacket`, which breaks at the first subscription with the packet's id. */
    method ParseMuxPacket(msg: Packet)
      requires Dispatch(subscriptions, msg).Some?
      modifies this
      ensures Some(subscriptions) == Dispatch(old(subscriptions), msg)
    {
      var index, subs := StreamOf(msg), Addressee(msg);
      var it := 0;
      while it != |subscriptions|
        invariant 0 <= it <= |subscriptions| && subscriptions == old(subscriptions)
        invariant forall j :: 0 <= j < it ==> subscriptions[j].id != subs
      {
        var s := subscriptions[it];
        if s.id == subs {
          if index == s.audioIndex || index == s.videoIndex {
            if index == s.videoIndex {
              s := s.(video := Some(s.video.value + [msg]));
            } else if index == s.audioIndex {
              s := s.(audio := Some(s.audio.value + [msg]));
            }
          }
          subscriptions := subscriptions[it := s];
          break;
        }
        it := it + 1;
      }
    }
  }

  // ----- packets that meet a null queue

  /** The kind of the packet's stream is one the subscription has a queue for, or no kind at all. */
  predicate Accepts(s: SubscriptionInfo, p: Packet) {
    if StreamOf(p) == s.videoIndex then s.video.Some?
    else StreamOf(p) == s.audioIndex ==> s.audio.Some?
  }

  /**
   A new subscription has a null queue in the way of a packet if and only if the packet's stream reads
   0, as it does when none is given, and the kind that is then looked up is missing.
   */
  lemma RejectedExactly(id: U32, streams: seq<Tree>, p: Packet)
    ensures var s := Discovered(NewSubscription(id), streams);
            Put(s, p) == None
            <==> StreamOf(p) == 0 && (s.video == None || (s.audio == None && s.videoIndex != 0))
  {
    hide LastVideo, Discovered, IsAudio, IsVideo, IndexOf, StreamOf;
    DiscoveredExactly(id, streams);
  }

  /** A subscription with one audio stream, and the packet without a stream that it cannot take. */
  lemma PacketWithoutStream()
    ensures var audio := Map(map[TYPE := Str(Ascii("AAC")), INDEX := Int(1)]);
            var p := map[MsgQueue.SUBSCRIPTION_ID := Int(7)];
            var s := Discovered(NewSubscription(7), [audio]);
            && s == SubscriptionInfo(7, 1, 0, Some([]), None)
            && Dispatch([s], p) == None
  {
    var audio := Map(map[TYPE := Str(Ascii("AAC")), INDEX := Int(1)]);
    var p := map[MsgQueue.SUBSCRIPTION_ID := Int(7)];
    assert |TYPE| != |INDEX| && |MsgQueue.SUBSCRIPTION_ID| != |STREAM|;
    assert IsAudio(audio) && IndexOf(audio) == 1;
    assert [audio][..0] == [];
    assert Discovered(NewSubscription(7), []) == NewSubscription(7);
    assert Addressee(p) == 7 && StreamOf(p) == 0;
  }

  // ----- demultiplexing

  datatype Op = Subscribe(sii: SubscriptionInfo) | Unsubscribe(id: U32) | Packet(packet: Packet)

  function Do(list: seq<SubscriptionInfo>, op: Op): Option<seq<SubscriptionInfo>> {
    match op
    case Subscribe(sii) => Some(list + [sii])
    case Unsubscribe(id) => Some(Without(list, id))
    case Packet(p) => Dispatch(list, p)
  }

  /** The list after a run, None if a packet met a null queue. */
  function After(list: seq<SubscriptionInfo>, ops: seq<Op>): Option<seq<SubscriptionInfo>>
    decreases |ops|
  {
    if ops == [] then Some(list)
    else
      match Do(list, ops[0])
      case None => None
      case Some(list') => After(list', ops[1..])
  }

  predicate IsPacketOf(op: Op, id: U32) {
    op.Packet? && Addressee(op.packet) == id
  }

  /** The packets of a run that carry an id and a stream, in order. */
  function Selected(ops: seq<Op>, id: U32, stream: U32): seq<Packet> {
    if ops == [] then []
    else
      (if IsPacketOf(ops[0], id) && StreamOf(ops[0].packet) == stream then [ops[0].packet] else [])
      + Selected(ops[1..], id, stream)
  }

  /** One more operation adds its packet at the end, if it is one that is selected. */
  lemma {:induction false} SelectedMore(ops: seq<Op>, op: Op, id: U32, stream: U32)
    ensures Selected(ops + [op], id, stream)
         == Selected(ops, id, stream)
          + if op.Packet? && Addressee(op.packet) == id && StreamOf(op.packet) == stream then [op.packet] else []
  {
    hide Addressee, StreamOf;
    if ops == [] {
      assert ops + [op] == [op] && [op][1..] == [];
    } else {
      var first := if IsPacketOf(ops[0], id) && StreamOf(ops[0].packet) == stream then [ops[0].packet] else [];
      var last := if IsPacketOf(op, id) && StreamOf(op.packet) == stream then [op.packet] else [];
      assert (ops + [op])[0] == ops[0] && (ops + [op])[1..] == ops[1..] + [op];
      SelectedMore(ops[1..], op, id, stream);
      assert Selected(ops, id, stream) == first + Selected(ops[1..], id, stream);
      assert Selected(ops + [op], id, stream) == first + (Selected(ops[1..], id, stream) + last);
    }
  }

  /** The run without the packets that carry an id. */
  function Others(ops: seq<Op>, id: U32): seq<Op> {
    if ops == [] then []
    else (if IsPacketOf(ops[0], id) then [] else [ops[0]]) + Others(ops[1..], id)
  }

  /** The operation neither ends the subscription nor begins another one with its id. */
  predicate Spares(op: Op, id: U32) {
    (op.Subscribe? ==> op.sii.id != id) && (op.Unsubscribe? ==> op.id != id)
  }

  ghost predicate Undisturbed(ops: seq<Op>, id: U32) {
    forall i :: 0 <= i < |ops| ==> Spares(ops[i], id)
  }

  /** No packet of the subscription meets a null queue of it. */
  ghost predicate Suits(s: SubscriptionInfo, ops: seq<Op>) {
    forall i :: 0 <= i < |ops| && IsPacketOf(ops[i], s.id) ==> Accepts(s, ops[i].packet)
  }

  ghost predicate Only(list: seq<SubscriptionInfo>, i: nat) {
    i < |list| && forall j :: 0 <= j < |list| && j != i ==> list[j].id != list[i].id
  }

  /** Two lists that differ at most in what one subscription has in its queues. */
  ghost predicate Alike(a: seq<SubscriptionInfo>, b: seq<SubscriptionInfo>, i: nat) {
    Only(a, i) && Only(b, i) && a[i].id == b[i].id && a == b[i := a[i]]
  }

  lemma PositionUnique(list: seq<SubscriptionInfo>, id: U32, i: nat)
    requires i <= |list| && (i < |list| ==> list[i].id == id) && forall j :: 0 <= j < i ==> list[j].id != id
    ensures Position(list, id) == i
  {
    hide Position;
  }

  lemma PositionAlike(a: seq<SubscriptionInfo>, b: seq<SubscriptionInfo>, id: U32, i: nat)
    requires Alike(a, b, i) && id != a[i].id
    ensures Position(a, id) == Position(b, id) != i
  {
    hide Position;
    assert forall j :: 0 <= j < |a| && j != i ==> a[j] == b[j];
    PositionUnique(b, id, Position(a, id));
  }

  lemma WithoutAlike(a: seq<SubscriptionInfo>, b: seq<SubscriptionInfo>, id: U32, i: nat) returns (k: nat)
    requires Alike(a, b, i) && id != a[i].id
    ensures Alike(Without(a, id), Without(b, id), k) && Without(a, id)[k] == a[i]
  {
    hide Position;
    PositionAlike(a, b, id, i);
    var p := Position(a, id);
    k := if p < i then i - 1 else i;
    if p < |a| {
      var a', b' := MsgQueue.RemoveAt(a, p), MsgQueue.RemoveAt(b, p);
      assert forall j :: 0 <= j < |a'| ==> a'[j] == a[if j < p then j else j + 1];
      assert forall j :: 0 <= j < |b'| ==> b'[j] == b[if j < p then j else j + 1];
      assert a' == b'[k := a'[k]];
    }
  }

  lemma DispatchAlike(a: seq<SubscriptionInfo>, b: seq<SubscriptionInfo>, p: Packet, i: nat)
    requires Alike(a, b, i) && Addressee(p) != a[i].id
    ensures Dispatch(a, p).Some? <==> Dispatch(b, p).Some?
    ensures Dispatch(a, p).Some? ==>
              Alike(Dispatch(a, p).value, Dispatch(b, p).value, i) && Dispatch(a, p).value[i] == a[i]
  {
    hide Addressee, Position, Put;
    PositionAlike(a, b, Addressee(p), i);
    var j := Position(a, Addressee(p));
    if j < |a| {
      assert a[j] == b[j];
      PutKeepsId(a[j], p);
    }
  }

  lemma PutKeepsId(s: SubscriptionInfo, p: Packet)
    ensures Put(s, p).Some? ==> Put(s, p).value.id == s.id
    ensures Put(s, p).Some? <==> Accepts(s, p)
  {
    hide StreamOf;
  }

  /** An operation that is not a packet of the subscription treats both lists alike. */
  lemma OtherOp(a: seq<SubscriptionInfo>, b: seq<SubscriptionInfo>, op: Op, i: nat) returns (k: nat)
    requires Alike(a, b, i) && Spares(op, a[i].id) && !IsPacketOf(op, a[i].id)
    ensures Do(a, op).Some? <==> Do(b, op).Some?
    ensures Do(a, op).Some? ==> Alike(Do(a, op).value, Do(b, op).value, k) && Do(a, op).value[k] == a[i]
  {
    hide Addressee, Without, Dispatch;
    k := i;
    match op {
      case Subscribe(sii) =>
      case Unsubscribe(id) => k := WithoutAlike(a, b, id, i);
      case Packet(p) => DispatchAlike(a, b, p, i);
    }
  }

  /** A packet of the subscription changes nothing else. */
  lemma OwnPacket(a: seq<SubscriptionInfo>, b: seq<SubscriptionInfo>, p: Packet, i: nat)
    requires Alike(a, b, i) && Addressee(p) == a[i].id
    ensures Dispatch(a, p).Some? <==> Accepts(a[i], p)
    ensures Dispatch(a, p).Some? ==>
              Alike(Dispatch(a, p).value, b, i) && Some(Dispatch(a, p).value[i]) == Put(a[i], p)
  {
    hide Addressee, Put, Accepts, Position;
    PositionUnique(a, a[i].id, i);
    PutKeepsId(a[i], p);
  }

  function Extended(queue: Queue, ps: seq<Packet>): Queue {
    if queue == None then None else Some(queue.value + ps)
  }

  /** A subscription at the end of a run on its own. */
  function Served(s: SubscriptionInfo, ops: seq<Op>): SubscriptionInfo {
    s.(video := Extended(s.video, Selected(ops, s.id, s.videoIndex)),
       audio := if s.audioIndex == s.videoIndex then s.audio
                else Extended(s.audio, Selected(ops, s.id, s.audioIndex)))
  }

  lemma ServedOwn(s: SubscriptionInfo, ops: seq<Op>)
    requires ops != [] && IsPacketOf(ops[0], s.id) && Put(s, ops[0].packet).Some?
    ensures Served(s, ops) == Served(Put(s, ops[0].packet).value, ops[1..])
  {
    hide Addressee, StreamOf;
    var video, audio := Selected(ops[1..], s.id, s.videoIndex), Selected(ops[1..], s.id, s.audioIndex);
    var p := [ops[0].packet];
    assert s.video.Some? ==> s.video.value + (p + video) == s.video.value + p + video;
    assert s.audio.Some? ==> s.audio.value + (p + audio) == s.audio.value + p + audio;
    assert [] + video == video && [] + audio == audio;
  }

  lemma ServedOther(s: SubscriptionInfo, ops: seq<Op>)
    requires ops != [] && !IsPacketOf(ops[0], s.id)
    ensures Served(s, ops) == Served(s, ops[1..])
  {
    hide Addressee, StreamOf;
    var video, audio := Selected(ops[1..], s.id, s.videoIndex), Selected(ops[1..], s.id, s.audioIndex);
    assert [] + video == video && [] + audio == audio;
  }

  lemma ServedNothing(s: SubscriptionInfo)
    ensures Served(s, []) == s
  {
    assert s.video.Some? ==> s.video.value + [] == s.video.value;
    assert s.audio.Some? ==> s.audio.value + [] == s.audio.value;
  }

  lemma SuitsFirst(s: SubscriptionInfo, ops: seq<Op>)
    requires ops != []
    ensures Suits(s, ops) <==> (IsPacketOf(ops[0], s.id) ==> Accepts(s, ops[0].packet)) && Suits(s, ops[1..])
  {
    hide IsPacketOf, Accepts;
    var rest := ops[1..];
    assert forall i :: 0 <= i < |ops| ==> i == 0 || ops[i] == rest[i - 1];
    assert forall i :: 0 <= i < |rest| ==> rest[i] == ops[i + 1];
  }

  lemma PutSuits(s: SubscriptionInfo, p: Packet, ops: seq<Op>)
    requires Put(s, p).Some?
    ensures Suits(Put(s, p).value, ops) <==> Suits(s, ops)
  {
    hide Addressee, StreamOf;
  }

  /** The theorem below for a list that is served and one that the packets of the subscription pass by. */
  lemma {:induction false} ServedBeside(a: seq<SubscriptionInfo>, b: seq<SubscriptionInfo>, ops: seq<Op>, i: nat)
      returns (k: nat)
    requires Alike(a, b, i) && Undisturbed(ops, a[i].id)
    ensures After(a, ops).Some? <==> Suits(a[i], ops) && After(b, Others(ops, a[i].id)).Some?
    ensures After(a, ops).Some? ==>
              Alike(After(a, ops).value, After(b, Others(ops, a[i].id)).value, k)
              && After(a, ops).value[k] == Served(a[i], ops)
    decreases |ops|
  {
    hide Addressee, StreamOf, Do, Put, Served, Suits, Alike, Accepts, Spares;
    AlikeParts(a, b, i);
    k := i;
    if ops == [] {
      ServedNothing(a[i]);
      assert Suits(a[i], ops) by { SuitsNothing(a[i]); }
    } else {
      var op, rest, s := ops[0], ops[1..], a[i];
      SuitsFirst(s, ops);
      assert Spares(op, s.id) && Undisturbed(rest, s.id);
      if IsPacketOf(op, s.id) {
        assert Others(ops, s.id) == Others(rest, s.id);
        OwnPacket(a, b, op.packet, i);
        assert Do(a, op) == Dispatch(a, op.packet) by { DoPacket(a, op); }
        if Accepts(s, op.packet) {
          ServedOwn(s, ops);
          PutSuits(s, op.packet, rest);
          AlikeParts(Dispatch(a, op.packet).value, b, i);
          k := ServedBeside(Dispatch(a, op.packet).value, b, rest, i);
        }
      } else {
        assert Others(ops, s.id)[0] == op && Others(ops, s.id)[1..] == Others(rest, s.id);
        ServedOther(s, ops);
        var j := OtherOp(a, b, op, i);
        if Do(a, op).Some? {
          k := ServedBeside(Do(a, op).value, Do(b, op).value, rest, j);
        }
      }
    }
  }

  lemma AlikeParts(a: seq<SubscriptionInfo>, b: seq<SubscriptionInfo>, i: nat)
    requires Alike(a, b, i)
    ensures i < |a| == |b| && a[i].id == b[i].id
  {
  }

  lemma SuitsNothing(s: SubscriptionInfo)
    ensures Suits(s, [])
  {
  }

  lemma DoPacket(list: seq<SubscriptionInfo>, op: Op)
    requires op.Packet?
    ensures Do(list, op) == Dispatch(list, op.packet)
  {
  }

  /**
   A run meets no null queue if and only if no packet of a given subscription meets one of its own and
   the run without these packets meets none. Then, whatever happens to other subscriptions in between,
   a subscription that is the only one with its id receives exactly the packets of its video and audio
   streams, each kind in order; if the two streams have the same index, everything counts as video.
   Nothing else in the list depends on its packets.
   */
  lemma Demultiplexed(list: seq<SubscriptionInfo>, ops: seq<Op>, i: nat) returns (k: nat)
    requires i < |list| && Only(list, i) && Undisturbed(ops, list[i].id)
    ensures After(list, ops).Some? <==> Suits(list[i], ops) && After(list, Others(ops, list[i].id)).Some?
    ensures After(list, ops).Some? ==>
              var end := After(list, ops).value;
              && k < |end| && Only(end, k) && end[k] == Served(list[i], ops)
              && Alike(end, After(list, Others(ops, list[i].id)).value, k)
  {
    hide After, Others, Suits, Served, Undisturbed;
    k := ServedBeside(list, list, ops, i);
  }

  /** Of two subscriptions with one id, the later one receives nothing as long as the first is there. */
  lemma SecondStarves(list: seq<SubscriptionInfo>, i: nat, j: nat, p: Packet)
    requires i < j < |list| && list[i].id == list[j].id
    ensures Dispatch(list, p).Some? ==> Dispatch(list, p).value[j] == list[j]
  {
  }

  /** Ending the only subscription with an id leaves none with it, and all others as they were. */
  lemma UnsubscribeExact(list: seq<SubscriptionInfo>, i: nat)
    requires Only(list, i)
    ensures Without(list, list[i].id) == MsgQueue.RemoveAt(list, i)
    ensures forall j :: 0 <= j < |Without(list, list[i].id)| ==> Without(list, list[i].id)[j].id != list[i].id
  {
  }
}
