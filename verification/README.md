# HTSP client: verified model

HtspClientWinRT speaks HTSP, the protocol of TVHeadend, to a server over a byte stream. This project models the three
cores of `HtspClientWinRT.Shared` on which everything else in the client stands, and proves what they are for.

**Messages** (`htsmessage.cpp`, `common.cpp`). A message is a tree of maps, lists, integers, strings and binaries,
written as nested type-length-value fields. Sizes, in-place writers and parsing constructors are separate families of
mutually recursive code; the proofs show that they agree byte for byte, for every tree, every depth and every order in
which an unordered map may be iterated.

- `Words`: bytes, 32-bit words, `htonl` and `ntohl`.
- `HtsMessage`: a `Node` is a tree with names and iteration orders as the encoder meets them; a `Tree` is what it holds.
- `IntCodec`, `Encoding`: the wire format as sequences; it is injective and self-delimiting.
- `Decoding`: the parsers as functions of buffer and offset, uint32 and int64 arithmetic included.
- `RoundTrip`, `Normalisation`: what parsing gives back for what was serialised.
- `Serialiser`, `Parser`: the writers on an array and the parsing constructors with their loops, proved against the above.
- `Framing`: messages on a stream, as `TransmitMessage` writes and `ReadMessageThen` cuts them.

**Hashing** (`sha1.c`). `Sha1Spec` is SHA-1 as FIPS 180-4 defines it (sections 4.1.1, 4.2.1, 5.1.1, 5.3.1, 6.1.2).
`Sha1Example` proves that it gives "abc" the published digest. `Sha1Transform` is the compression function, unrolled and
small; `Sha1` is the streaming context; `Login` is the message of `AuthenticateAsync`.

**Correlation** (`HtspMsgQueue.cpp`, `HtspClient.cpp`). `MsgQueue` is the shared deque, `Client` the sequence numbers and
the wait without a worker, `Correlation` the state machine of requests, server, worker and timeouts over the bytes that
travel, `CorrelationRuns` what its runs are for the worker, the deque and those who wait, `StaleReply` the proof that its
bound is exact, and `Subscriptions` the way of media packets to their streams. In `Correlation` requests go out as this client frames them, and a server message is any body on which parsing is defined,
under the one condition that a reply has the number of its request and that other messages have none;
`EncodedMayBeSent` shows that a server that sends exact frames is among those allowed.

## Where the code falls short of a plain claim

- A zero integer has no payload, and its parsing constructor then skips the name, so it comes back under the empty key.
  A name longer than 255 bytes does not fit its length byte, and no parser yields such a name. `RoundTripExact` proves
  that a message comes back unchanged if and only if its names fit and it has no zero integer under a nonempty key;
  `ReadingsSurvive` and `GettersAfterwards` prove that, when the names fit, the typed getters return what was stored in
  all cases.
- A container whose length ends inside its last child still takes that child whole (`OverrunTaken`), but the top-level
  loop wraps its unsigned length and reads behind the buffer (`TopLevelOverrun`).
- The top-level length field counts its own four bytes, and the reported length counts four more. A frame therefore
  carries four bytes that nobody wrote; they are arbitrary in the model, and `StreamRead` proves they do no harm, nor do
  any 0 to 5 bytes that a frame of a peer has behind its message. A frame of no bytes at all reads as an invalid message.
- The requests of one connection share 2^31 - 1 numbers. `CorrelationExactly` proves that runs of at most that many
  requests never mix up replies and that runs of more can.
- A message with both a number and a subscription event matches two keys, and who looks first gets it
  (`UnambiguousExactly`, `AmbiguousMessageIsStolen`). `SimulatedExactly` proves that runs over a set of messages give each
  requester what a private mailbox would if and only if no such message is in the set.
- A subscription has no queue for a kind of stream it has not found, but the index of that kind is 0. A packet whose
  stream reads 0, as it does when it names none, is then put into a queue that is null (`PacketWithoutStream`,
  `RejectedExactly`). `Demultiplexed` proves that a run meets no null queue if and only if no packet of a subscription
  selects a kind it lacks and the packets of the others meet none.
- `hts_sha1_update` adds position and length in 32 bits. A chunk whose length takes the sum to 2^32 or beyond wraps the
  guard and overruns the block buffer (`GuardExact`); the theorems about updates require that it does not.
- Without the worker, a requester rotates the queue for ever unless a match is queued or the queue is empty and the next
  message is a match or invalid, or the connection ends (`EndsExactly`).

## Model

| member | source | states |
|---|---|---|
| Words.Htonl | HtspClientWinRT.Shared/common.cpp:33-49 | stored natively, the result has the argument's bytes in memory, the most significant first, by place values |
| Words.Ntohl | HtspClientWinRT.Shared/common.cpp:51-67 | a word loaded natively from four wire bytes becomes the number they spell, the most significant first, by place values |
| Words.WordBytes | HtspClientWinRT.Shared/common.cpp:33-67 | words and four-byte strings determine each other in both byte orders |
| Words.PlaceValues | HtspClientWinRT.Shared/common.cpp:33-67 | what a native word and a length field mean, byte by byte |
| Words.Wrap32IsMod | HtspClientWinRT.Shared/htsmessage.cpp:54-56 | what the model keeps of a uint32_t sum is the sum modulo 2^32 |
| IntCodec.IntRoundTrip | HtspClientWinRT.Shared/htsmessage.cpp:506-546 | every int64, negative ones included, is written in at most eight bytes and read back; only 0 has no bytes |
| IntCodec.ReadPlaceValues | HtspClientWinRT.Shared/htsmessage.cpp:257-274 | an eight-byte payload is a two's complement number, least significant byte first |
| IntCodec.HighZero | HtspClientWinRT.Shared/htsmessage.cpp:264-274 | a shorter payload reads as with zero bytes behind it |
| IntCodec.ReencodeStrips | HtspClientWinRT.Shared/htsmessage.cpp:248-275 | re-encoding an integer that was read strips exactly the high-order zero bytes of the payload used |
| IntCodec.ReadModulo | HtspClientWinRT.Shared/htsmessage.cpp:257-274 | a payload of any length is read modulo 2^64 |
| Encoding.EncodeInjective | HtspClientWinRT.Shared/htsmessage.cpp:428-594 | two encodings followed by anything agree only if the nodes do, so a field tells where it ends |
| Encoding.EqualBytesEqualTrees | HtspClientWinRT.Shared/htsmessage.cpp:428-594 | fields with equal bytes have the same size, name and tree |
| Encoding.FieldLayout | HtspClientWinRT.Shared/htsmessage.cpp:443-594 | where in a field type code, name length, payload length, name and payload stand, with their values |
| Encoding.FieldPlaces | HtspClientWinRT.Shared/htsmessage.cpp:459-503 | fields follow each other in order with nothing in between |
| Decoding.WellFormedFieldsParse | HtspClientWinRT.Shared/htsmessage.cpp:48-82 | on any well-formed buffer each container loop ends with mlen 0, exactly at the end of its payload, taking at least 6 bytes per field |
| Decoding.TrailingBytesIgnored | HtspClientWinRT.Shared/htsmessage.cpp:352-395 | 0 to 5 bytes appended to a well-formed buffer do not change what Deserialize returns |
| Decoding.TopLevelOverrun | HtspClientWinRT.Shared/htsmessage.cpp:358-392 | a top-level field longer than the rest of the message wraps the length, and the loop reads behind the buffer |
| RoundTrip.ParseEncoded | HtspClientWinRT.Shared/htsmessage.cpp:172-325 | an encoded node found anywhere in a buffer parses to its tree with zero integers moved to the empty key, at every depth |
| RoundTrip.OverrunTaken | HtspClientWinRT.Shared/htsmessage.cpp:48-82 | a container whose length ends inside its last child takes that child whole and stops |
| RoundTrip.EncodedWellFormed | HtspClientWinRT.Shared/htsmessage.cpp:443-504 | what the serialiser writes is a well-formed buffer |
| RoundTrip.DeserializeEncoded | HtspClientWinRT.Shared/htsmessage.cpp:352-426 | serialise then parse, for any iteration orders and any 0 to 5 bytes behind the message |
| RoundTrip.RoundTripExact | HtspClientWinRT.Shared/htsmessage.cpp:352-426 | any message that setData and appendData can build and that fits its length field comes back unchanged if and only if its names fit their length bytes and no map in it has a zero integer under a nonempty key |
| RoundTrip.DeserializedNamesFit | HtspClientWinRT.Shared/htsmessage.cpp:352-395 | on any buffer, no name in a parsed message is longer than 255 bytes, at any depth |
| RoundTrip.ZeroLosesItsName | HtspClientWinRT.Shared/htsmessage.cpp:260-261 | the smallest message that does not come back unchanged |
| RoundTrip.ReadingsSurvive | HtspClientWinRT.Shared/htsmessage.cpp:97-138 | on every path of nonempty names and list positions the typed getters answer as before the round trip, zero integers included |
| RoundTrip.GettersAfterwards | HtspClientWinRT.Shared/htsmessage.cpp:97-138 | after the round trip getS64, getU32, getStr, getBin, getList and getMap return what was stored at every depth, and 0 or nothing for another kind |
| RoundTrip.ContainsAfterwards | HtspClientWinRT.Shared/htsmessage.cpp:92-95 | contains afterwards: true for exactly the nonempty keys that held something other than a zero integer |
| Normalisation.ListingSize | HtspClientWinRT.Shared/htsmessage.cpp:428-480 | the serialised size is the same for all iteration orders of a tree |
| Normalisation.ParsedCanBeListed | HtspClientWinRT.Shared/htsmessage.cpp:352-426 | a parsed message is again the value of a message that can be serialised |
| Normalisation.TwiceIsOnce | HtspClientWinRT.Shared/htsmessage.cpp:352-426 | serialising and parsing a second time, in any order, fits and changes nothing |
| Normalisation.FixedPointsExactly | HtspClientWinRT.Shared/htsmessage.cpp:352-426 | the fixed points, in whatever order they are listed, are exactly the messages whose names fit and that have no zero integer under a nonempty key |
| Serialiser.PCalcSize | HtspClientWinRT.Shared/htsmessage.cpp:433-475 | the summing loops compute the payload length of the encoding modulo 2^32 |
| Serialiser.IntSize | HtspClientWinRT.Shared/htsmessage.cpp:511-521 | the shifting loop counts the bytes of the minimal encoding |
| Serialiser.CalcSize | HtspClientWinRT.Shared/htsmessage.cpp:428-431 | the size is the length of the whole encoding modulo 2^32 |
| Serialiser.Serialize | HtspClientWinRT.Shared/htsmessage.cpp:443-594 | writes exactly the encoding of the node at the offset and no byte outside it |
| Serialiser.SerializeAll | HtspClientWinRT.Shared/htsmessage.cpp:459-503 | the loop over the children leaves their encodings one after the other |
| Serialiser.SerializeInt | HtspClientWinRT.Shared/htsmessage.cpp:540-545 | the byte loop writes the minimal little-endian bytes |
| Serialiser.SerializeMessage | HtspClientWinRT.Shared/htsmessage.cpp:397-426 | every byte of the allocated buffer is written: its own length in big-endian place values, then all fields; the reported length is four more |
| Parser.HtsMap.SetData | HtspClientWinRT.Shared/htsmessage.cpp:140-144 | stores the child under the name, replacing what was there, and changes nothing else |
| Parser.HtsMap.Parse | HtspClientWinRT.Shared/htsmessage.cpp:28-83 | name and data of the new map are what the field at the offset denotes; another type byte leaves it empty |
| Parser.HtsList.AppendData | HtspClientWinRT.Shared/htsmessage.cpp:241-245 | appends the child without its name |
| Parser.HtsList.Parse | HtspClientWinRT.Shared/htsmessage.cpp:172-227 | name and items of the new list are what the field at the offset denotes |
| Parser.HtsInt.Parse | HtspClientWinRT.Shared/htsmessage.cpp:248-275 | name and number are what the field denotes, the early return for an empty payload included |
| Parser.HtsStr.Parse | HtspClientWinRT.Shared/htsmessage.cpp:278-297 | name and string are what the field denotes |
| Parser.HtsBin.Parse | HtspClientWinRT.Shared/htsmessage.cpp:305-325 | name and contents are what the field denotes |
| Parser.ReadLe | HtspClientWinRT.Shared/htsmessage.cpp:271-274 | the shift loop reads up to eight bytes as a little-endian number without losing a bit |
| Parser.ParseChild | HtspClientWinRT.Shared/htsmessage.cpp:58-76 | the switch on the type byte yields the node the field denotes |
| Parser.DeserializeMessage | HtspClientWinRT.Shared/htsmessage.cpp:352-395 | the top-level loop yields the message the buffer denotes |
| Framing.FrameRead | HtspClientWinRT.Shared/HtspClient.cpp:1416-1473 | a frame is read whole and nothing behind it is touched, whatever 0 to 5 bytes it has behind its message; an empty frame reads as an invalid message |
| Framing.CutFrameRead | HtspClientWinRT.Shared/HtspClient.cpp:1416-1473 | when the connection ends inside a frame the message is what arrived, and inside the length there is none |
| Framing.StreamRead | HtspClientWinRT.Shared/HtspClient.cpp:1416-1473 | any run of frames, exact ones and this client's own, is cut into the messages that were sent, in order, with nothing left over |
| Framing.StreamReadings | HtspClientWinRT.Shared/HtspClient.cpp:1416-1473 | each message received is valid unless its frame was empty, and reads like the one sent on every path |
| Framing.Connection.TransmitMessage | HtspClientWinRT.Shared/HtspClient.cpp:1329-1368 | appends one frame to the stream |
| Framing.Connection.ReadMessageThen | HtspClientWinRT.Shared/HtspClient.cpp:1391-1483 | one read takes one frame off the stream and yields its message, or reports an empty frame or the end of the connection |
| Sha1Example.AbcDigest | HtspClientWinRT.Shared/sha1.c:82-193 | SHA-1 of "abc" is the published digest |
| Sha1Spec.ScheduleBits | HtspClientWinRT.Shared/sha1.c:85 | every later word of the schedule is the exclusive or of four earlier ones, its top bit moved to the bottom |
| Sha1Spec.HashBlocksAppend | HtspClientWinRT.Shared/sha1.c:155-180 | hashing two runs of blocks is hashing the second from where the first ended |
| Sha1Spec.PaddedSize | HtspClientWinRT.Shared/sha1.c:182-190 | a padded message is the shortest run of blocks with room for the one bit and the length, and ends with the length |
| Sha1Spec.PaddedLayout | HtspClientWinRT.Shared/sha1.c:186-189 | before the length stand the message, 0x80 and zeros |
| Sha1Spec.LeastZeros | HtspClientWinRT.Shared/sha1.c:186-189 | the number of padding zeros is the least that FIPS 180-4 section 5.1.1 allows |
| Sha1Transform.BswapLoads | HtspClientWinRT.Shared/sha1.c:35-40 | swapping a native load gives the big-endian word |
| Sha1Transform.BswapStores | HtspClientWinRT.Shared/sha1.c:35-40 | a swapped word stored natively has its octets in big-endian order |
| Sha1Transform.ChooseIsCh | HtspClientWinRT.Shared/sha1.c:87-88 | the expression of R0 and R1 is the function Ch of the standard |
| Sha1Transform.MajorityIsMaj | HtspClientWinRT.Shared/sha1.c:90 | the expression of R3 is the function Maj of the standard |
| Sha1Transform.MacroStep | HtspClientWinRT.Shared/sha1.c:87-91 | a macro in its present register roles is one step of the standard |
| Sha1Transform.Transform | HtspClientWinRT.Shared/sha1.c:95-144 | the unrolled code with rotating registers computes the compression of FIPS 180-4 section 6.1.2 |
| Sha1Transform.TransformSmall | HtspClientWinRT.Shared/sha1.c:105-123 | the CONFIG_SMALL loop computes the same |
| Sha1.Context.constructor | HtspClientWinRT.Shared/sha1.c:146-153 | a new context has absorbed nothing and satisfies the streaming invariant |
| Sha1.Context.Update | HtspClientWinRT.Shared/sha1.c:155-180 | absorbs the data and keeps the invariant: state is the fold over all complete blocks, the buffer starts with the tail |
| Sha1.Context.UpdateSmall | HtspClientWinRT.Shared/sha1.c:161-167 | the CONFIG_SMALL byte loop absorbs the same and keeps the same invariant |
| Sha1.GuardExact | HtspClientWinRT.Shared/sha1.c:158-169 | the uint32_t guard decides rightly if and only if the sum of position and length does not wrap |
| Sha1.LoopGuardFits | HtspClientWinRT.Shared/sha1.c:172-174 | the loop guard cannot wrap then |
| Sha1.FinalCount | HtspClientWinRT.Shared/sha1.c:42-52 | the swapped bit count is the 64-bit length block of the standard |
| Sha1.Final | HtspClientWinRT.Shared/sha1.c:182-193 | the digest is made of the padded message, its length taken modulo 2^64 |
| Sha1.DigestIsSha1 | HtspClientWinRT.Shared/sha1.c:182-193 | for messages under 2^61 bytes that is the SHA-1 digest |
| Sha1.HashChunks | HtspClientWinRT.Shared/sha1.c:146-193 | however a message is cut into updates, the result is the SHA-1 digest of the whole, as long as at each update position in the block plus length stays below 2^32 |
| Sha1.LoginDigest | HtspClientWinRT.Shared/HtspClient.cpp:212-218 | the login digest is the SHA-1 digest of the password followed by the challenge |
| Login.AuthenticateMap | HtspClientWinRT.Shared/HtspClient.cpp:178-228 | the login message has the method and the user name, and a digest exactly when there are a password and a challenge: the SHA-1 digest of the bytes of the password followed by those of the challenge |
| Login.ServerReadsDigest | HtspClientWinRT.Shared/HtspClient.cpp:215-237 | in whatever order the login message is serialised, the receiver reads the digest of password and challenge under its name |
| Login.OneDigest | HtspClientWinRT.Shared/HtspClient.cpp:215-228 | bytes have one digest, of 20 bytes |
| MsgQueue.HtspMsgQueue.EnqueueMsg | HtspClientWinRT.Shared/HtspMsgQueue.cpp:17-23 | appends the message |
| MsgQueue.HtspMsgQueue.FindFirst | HtspClientWinRT.Shared/HtspMsgQueue.cpp:75-100 | takes out the first message that satisfies the comparison and no other, or finds that there is none |
| MsgQueue.HtspMsgQueue.FindFirstSequence | HtspClientWinRT.Shared/HtspMsgQueue.cpp:135-160 | takes out the first reply to the number and no other message |
| MsgQueue.HtspMsgQueue.FindSubscriptionEvent | HtspClientWinRT.Shared/HtspClient.cpp:359-368 | the look-up of a subscriber is a find for its subscription id, on messages that have a root |
| MsgQueue.HtspMsgQueue.GetMsg | HtspClientWinRT.Shared/HtspMsgQueue.cpp:162-175 | takes the front message if there is one |
| MsgQueue.MatchesExactly | HtspClientWinRT.Shared/HtspMsgQueue.cpp:145 | which messages a number and a subscription id match, by what stands under seq, method and subscriptionId |
| MsgQueue.KeysSpelt | HtspClientWinRT.Shared/HtspMsgQueue.cpp:145 | the three names, letter by letter |
| MsgQueue.UnambiguousExactly | HtspClientWinRT.Shared/HtspMsgQueue.cpp:145 | a message can match two keys if and only if it is a subscription event with a number |
| MsgQueue.MailboxSimulation | HtspClientWinRT.Shared/HtspMsgQueue.cpp:17-160 | in any interleaving each requester gets what a private FIFO mailbox would give it |
| MsgQueue.AmbiguousMessageIsStolen | HtspClientWinRT.Shared/HtspMsgQueue.cpp:75-160 | for a message that matches two keys that is false |
| MsgQueue.SimulatedExactly | HtspClientWinRT.Shared/HtspMsgQueue.cpp:17-160 | all runs over a set of messages give each requester what a private mailbox would if and only if no message of the set is a subscription event with a number |
| MsgQueue.TakesCommute | HtspClientWinRT.Shared/HtspMsgQueue.cpp:75-160 | takes for different keys give the same messages and the same queue in either order |
| MsgQueue.RunConserves | HtspClientWinRT.Shared/HtspMsgQueue.cpp:17-199 | in every run what was enqueued is what was taken plus what is queued |
| MsgQueue.QueueIsSubsequence | HtspClientWinRT.Shared/HtspMsgQueue.cpp:17-199 | the deque is always the enqueue history with messages left out |
| Client.SequenceCounter.HTSPNextSeqNum | HtspClientWinRT.Shared/HtspClient.cpp:831-837 | returns the counter and moves it to its successor |
| Client.SeqClosedForm | HtspClientWinRT.Shared/HtspClient.cpp:831-837 | call i gets 1 + i mod (2^31 - 1) |
| Client.SeqDistinctExactly | HtspClientWinRT.Shared/HtspClient.cpp:831-837 | numbers are 1 to 2^31 - 1, and two calls get the same one exactly if their distance is a multiple of 2^31 - 1 |
| Client.NumberSurvives | HtspClientWinRT.Shared/HtspClient.cpp:1590-1594 | a request or reply with a nonzero number still matches that number after encoding and parsing |
| Client.OneTurnConserves | HtspClientWinRT.Shared/HtspClient.cpp:1564-1585 | no turn of the wait loses or doubles a message |
| Client.EndsAfterRotations | HtspClientWinRT.Shared/HtspClient.cpp:1564-1585 | with the first match at position k the wait ends after exactly k rotations, with that match and the rotated queue |
| Client.EndsExactly | HtspClientWinRT.Shared/HtspClient.cpp:1564-1585 | the wait ends if and only if a match is queued, or the queue is empty and the next message is a match, invalid or missing |
| Client.EndsSo | HtspClientWinRT.Shared/HtspClient.cpp:1564-1585 | a wait that ends returns the first match, the front message or what the network brings, and leaves queue and network accordingly |
| Client.HtspClient.ReadMessage | HtspClientWinRT.Shared/HtspClient.cpp:1495-1517 | without the worker the queue is read before the network |
| Client.HtspClient.ReadResultRepeat | HtspClientWinRT.Shared/HtspClient.cpp:1564-1585 | where it ends, it does the turns and leaves the result, the queue and the network that they end with |
| Correlation.StepKeeps | HtspClientWinRT.Shared/HtspClient.cpp:1229-1258 | every step of requester, server, worker and subscriber keeps the invariant, whatever parsable bodies the server sends |
| Correlation.EncodedMayBeSent | HtspClientWinRT.Shared/HtspClient.cpp:1416-1473 | the server may answer any request with any encoded fields that carry its number, and send any without one, with 0 to 5 bytes behind them |
| Correlation.SameNumber | HtspClientWinRT.Shared/HtspClient.cpp:1586-1646 | in every run a message handed to a request is a reply to a request with the same number |
| Correlation.RepliesCorrelate | HtspClientWinRT.Shared/HtspClient.cpp:1586-1646 | up to 2^31 - 1 requests, it is a reply to that very request |
| Correlation.HandedWhatWasReplied | HtspClientWinRT.Shared/HtspClient.cpp:1586-1646 | the server sent its body in answer to that request, and the message is what that body parses to |
| Correlation.HandedReadsAsWritten | HtspClientWinRT.Shared/HtspClient.cpp:1586-1646 | if that body was encoded from fields, the message reads as they do on every path |
| Correlation.HandedOutOnce | HtspClientWinRT.Shared/HtspMsgQueue.cpp:135-199 | no message is handed out twice, to anyone, in any run |
| Correlation.EveryMessageOnce | HtspClientWinRT.Shared/HtspClient.cpp:1229-1258 | in every run each message the server has sent is on its way, queued, handed out or dropped by the worker, in exactly one of these places and once |
| CorrelationRuns.WorkerRoutes | HtspClientWinRT.Shared/HtspClient.cpp:1229-1258 | the worker drops empty bodies and the eleven methods it deals with itself, and queues every other message as parsed |
| CorrelationRuns.StepsPossible | HtspClientWinRT.Shared/HtspClient.cpp:1213-1258 | in every run the worker can go on, queued messages can be taken, and who waits can scan or give up |
| CorrelationRuns.RunIsDequeRun | HtspClientWinRT.Shared/HtspMsgQueue.cpp:17-175 | queue and deliveries of every run are those of the deque under the same enqueues, finds and gets |
| CorrelationRuns.RunWaits | HtspClientWinRT.Shared/HtspClient.cpp:1586-1646 | a request waits from when it is made until it gives up or is handed a message, and is handed one at most |
| StaleReply.StaleReplyServed | HtspClientWinRT.Shared/HtspClient.cpp:831-837 | a run of 2^31 requests in which the last is handed the reply to the first, whose body is exactly what was encoded |
| StaleReply.CorrelationExactly | HtspClientWinRT.Shared/HtspClient.cpp:831-837 | all runs of at most n requests are safe if and only if n is at most 2^31 - 1 |
| Subscriptions.ReadStreams | HtspClientWinRT.Shared/HtspClient.cpp:421-465 | the loop over the streams of a start message notes each stream in turn |
| Subscriptions.DiscoveredInTurn | HtspClientWinRT.Shared/HtspClient.cpp:355-467 | streams spread over several start messages are noted like those of one |
| Subscriptions.DiscoveredExactly | HtspClientWinRT.Shared/HtspClient.cpp:346-465 | a queue exists for exactly the kinds of stream found; the indices are those of the last video stream and of the first audio stream with an index other than 0, and 0 otherwise |
| Subscriptions.SubscriptionList.Add | HtspClientWinRT.Shared/HtspClient.cpp:469-471 | appends the subscription |
| Subscriptions.SubscriptionList.Remove | HtspClientWinRT.Shared/HtspClient.cpp:494-516 | erases the first subscription with the id and nothing else, and says whether there was one |
| Subscriptions.SubscriptionList.ParseMuxPacket | HtspClientWinRT.Shared/HtspClient.cpp:838-892 | puts the packet into one queue of the first subscription with its id and changes nothing else, where that queue is not null |
| Subscriptions.KindsExactly | HtspClientWinRT.Shared/HtspClient.cpp:421-449 | which entries are audio and video streams, by what stands under type and index |
| Subscriptions.PacketNumbers | HtspClientWinRT.Shared/HtspClient.cpp:838-851 | the subscription and the stream of a packet, by what stands under their names |
| Subscriptions.RejectedExactly | HtspClientWinRT.Shared/HtspClient.cpp:851-885 | a packet meets a null queue of a new subscription if and only if its stream reads 0 and the kind then looked up was not found |
| Subscriptions.PacketWithoutStream | HtspClientWinRT.Shared/HtspClient.cpp:872-880 | an audio subscription and the packet without a stream that it cannot take |
| Subscriptions.Demultiplexed | HtspClientWinRT.Shared/HtspClient.cpp:838-892 | a run meets no null queue if and only if the packets of a subscription select no kind it lacks and the run without them meets none; then the only subscription with an id receives exactly the packets of its own streams, in order, and no other is touched by them |
| Subscriptions.SelectedMore | HtspClientWinRT.Shared/HtspClient.cpp:838-892 | the packets of a stream are those with its id and index, in order of arrival |
| Subscriptions.SecondStarves | HtspClientWinRT.Shared/HtspClient.cpp:848-888 | a second subscription with the same id receives nothing while the first is there |
| Subscriptions.UnsubscribeExact | HtspClientWinRT.Shared/HtspClient.cpp:494-516 | ending the only subscription with an id leaves none with it and all others as they were |

## Left out

- Trees are values. Reference counts, aliasing between messages and the renaming of a node that is stored in two maps are
  not captured; each map is iterated in one order while a message is serialised, and that order is arbitrary.
- Parser.HtsMap.SetData: does not show that the stored child takes the name it is stored under, because a tree in the
  model has no name of its own. Only the serialiser reads that name again, and there a `Node` carries it: its name is the
  key it is stored under.
- Parser.HtsList.AppendData: does not show that the child's own name is cleared, for the same reason.
- Parser preconditions: the parsing constructors are modelled for runs that stay inside the buffer, meet only the five
  known types and make progress; other inputs are undefined behaviour or endless loops in the source.
- Allocation failure, alignment of pointer casts and big-endian hosts; `endian64` is unused.
- Serialiser.Serialize: requires that the size of the encoding is below 2^32, because a larger one would not fit the buffer
  that was allocated for it.
- The four bytes behind the serialised buffer are arbitrary.
- Server messages on which parsing is undefined, and replies that carry another number than their request.
- What `PutSample` does on a null queue, with the lock of the subscriptions held.
- Locks are atomic steps, and so is the allocation of a number, although the counter is a plain field.
- Condition variables, timeouts and wakeups: a timeout is a step that may happen at any moment, and nothing is claimed to
  happen eventually while the worker runs.
- `ReadResult_Finish` (errors and access denial), the `sequence = false` form of `ReadResult`, which has no caller, and
  failed transmissions, which look like requests the server never answers.
- A read that is cancelled, and one that is given fewer bytes before the connection ends than it asked for by a timeout.
- The audio and video parameters and the source information of a subscription; only its indices and queues are kept.
- The times, key flag and buffer of a media sample, which are copied out of the packet, and the taking of samples from
  the media queues.
- Subscription ids, which a plain uint32 counter hands out; they are free in the model.
- The bodies of `ProcessEventMsg`, the `Make...FromMsg` functions and `DumpMessage`.
- `HtspFileStream`, `HtspSource`, `HtspQueue`, sockets, tasks, thread pool, shutdown and logging.
