# A verified model of the device's MQTT stack

The repository holds the firmware of a controller that talks MQTT through a GSM modem,
together with the libraries it draws on: libmosquitto with its uthash/utlist containers, the
Paho embedded MQTT codec, and the modem driver. This project models the parts of these that
are hard to get right and proves what they promise, for all inputs and all runs.

The models keep the form of the code. Pointer code is pointer code (`Elt` objects whose
`prev`, `next`, `hhPrev` and `hhNext` fields are rewritten in place), loops are loops, objects
that the C code updates are classes, buffers that it fills are arrays. Beside each stands a
short functional description; the code is proved to compute it, and the properties are proved
of it.

**Containers** (`Sequences`, `MergeSort`, `Elements`, `PointerSort`, `Utlist`, `HashBuckets`, `Uthash`,
`UthashRuns`). A uthash table threads every element on an application-order list and on a
bucket chain at once. Its object invariant is what HASH_FSCK checks, plus the tail pointer and
the placement of every element. Every macro keeps it, and a table driven by any history of
adds, deletes and replaces holds the survivors in insertion order. The bottom-up mergesort is
proved on sequences (it computes the one stable sort) and again on the raw pointers, once for
all three variants.

**Framing** (`Bytes`, `Varint`, `Frames`, `PacketIO`, `Link`). packet__read is described by a
machine that takes one byte at a time; a one-shot parser is the reference. The machine equals
the parser, the method equals the machine wherever a call begins and ends, and a connection
made of packet__write, a network and packet__read is a transparent channel of frames. Socket
calls are schedules of events, so every pattern of partial transfers, EAGAIN, EINTR and errors
is covered.

**QoS 1 and 2 sessions** (`OutFlow`, `OutFlowRuns`, `OutResend`, `OutOrder`, `OutAnswers`,
`OutSession`, `InFlow`, `InReplies`, `InSession`). Both directions are step functions over events; the classes prove that the handlers perform
the steps, and the run lemmas prove what every run keeps. In the outgoing direction a send
fails exactly for lack of a connection.

**Packets** (`PacketBuffer`, `Packets`, `Incoming`, `WireReaders`). Writers are methods whose precondition is
the C assertion they would trip; every send function reaches packet__queue with the buffer
filled exactly. PUBLISH is proved to survive the trip in both directions; CONNECT, SUBSCRIBE and
UNSUBSCRIBE, of both clients, are read back by readers written from the standard.

**Paho codec** (`PahoPacket`, `PahoSerialize`, `PahoDeserialize`, `PahoRead`). Serializers,
deserializers, and the blocking and non-blocking readers measured against the same reference
parser. An array stands for the memory from the caller's buffer on, of which buflen bytes are
the caller's, so that writes past buflen can be described and excluded.

**Modem** (`ModemInput`, `ModemDevice`, `ModemPower`). The interrupt/foreground double buffer
as a protocol under every interleaving, down to the answers the parser hands on; and the
power-up sequence over a wrapping 32-bit clock that may advance inside a call.

## What turned out not to hold

Where the code does not do what its documentation or the protocol asks for everywhere, the
model follows the code, and a lemma says exactly when it does.

- packet__read takes command byte 0 for "no command yet": a stream is read the same however it
  is cut exactly when no packet in it has command byte 0 (`Frames.CutsDoNotMatterIff`).
- A publish made offline becomes live without being charged, so the quota is too high until
  the next reconnect (`OutFlowRuns.PublishAccountedIff`, `ReconnectAccounts`).
- One message can overtake another: what is published offline waits for the CONNACK, and what
  is published between the reconnect and the CONNACK goes out before it
  (`OutOrder.PublishKeepsOrderIff`, `FirstPublishedInOrderIff`, `SecondOvertakesFirst`).
- handle__pubackcomp raises the quota before it looks the message up
  (`OutFlowRuns.AckAccountedIff`), and a CONNACK that raises the maximum charges messages that
  are still waiting (`NewMaximumAccountedIff`, `RaisedMaximumMiscounts`). One that lowers it
  lets confirmed messages behind the new maximum be published again (`NewMaximumForgetsIff`,
  `LoweredMaximumRepublishes`).
- handle__publish does not look for the identifier: a QoS 2 PUBLISH retransmitted before its
  PUBREL is held twice, and delivered twice if the broker sends PUBREL twice
  (`InFlow.RepeatedPubrelIff`, `RetransmissionDeliveredTwice`). A message whose PUBCOMP cannot
  be sent is dropped (`InFlow.LostIff`).
- The SUBSCRIBE length is a 32-bit sum that can wrap; then a write assertion fails
  (`Packets.SendTopics`, `SubscribeCanWrap`).
- MQTTPacket_len is one too large at four lengths and one too small from 2^28 on
  (`PahoPacket.PacketLenIsTrueLenOrOneMore`); an MQTTString with both forms set can be measured
  by one and written by the other (`StrlenIsWrittenIff`); CONNECT with a version other than 3
  or 4 declares 12 bytes too few (`PahoSerialize.ConnectLengthRightIff`). What this does to the
  buffer is `PahoSerialize.StaysInsideIff`.
- MQTTDeserialize_publish and MQTTDeserialize_ack return 1, documented as success, for
  malformed packets whose length takes one byte (`PahoDeserialize.SuccessMeansMessageIff`,
  `BadTopicReportsSuccess`, `AckSuccessIff`, `ShortAckReportsSuccess`); and the former reads an
  identifier beyond the packet's end (`MissingIdReportsSuccess`).
- MQTTPacket_read ignores the verdict on the length and so accepts some packets that are not
  there (`PahoRead.BlockingAcceptsMalformedIff`, `TruncatedLengthAccepted`). Both readers write
  up to five bytes before they compare with buflen (`PahoRead.StaysInsideIff`,
  `SmallBufferOverrun`, `NbStaysInsideIff`, `NbSmallBufferOverrun`), and readnb cannot report a packet of type 0
  (`PahoRead.BothReaders`).
- Bytes in the modem's second buffer reach the parser only with the next interrupt
  (`ModemInput.AdditWaitsForInterrupt`), and an overflow costs a whole buffer
  (`OverflowLosesBytes`).
- Modem::Init drives PWRKEY low although the description above the code asks for 1, so the
  first power-up has no falling edge on it (`ModemPower.FallingEdgeIff`, `FirstPowerUp`).

## Model

| member | source | states |
|---|---|---|
| `MergeSort.SortIsStable` | temp/mosquitto-master/deps/utlist.h:111-169 | For every total preorder and every list of distinct nodes, the bottom-up passes end in the stable sorted permutation: same multiset, ordered by cmp, ties in their original order |
| `MergeSort.StableSortIsUnique` | temp/mosquitto-master/deps/utlist.h:111-169 | There is only one such list, so the result is pinned down completely |
| `MergeSort.MergesHalve` | temp/mosquitto-master/deps/utlist.h:163-166 | Doubling insize halves nmerges, rounding up |
| `MergeSort.MergesFall` | temp/mosquitto-master/deps/utlist.h:163-166 | nmerges strictly falls on every pass that does not end the sort: the outer loop terminates |
| `MergeSort.MergeRanks` | temp/mosquitto-master/deps/utlist.h:136-157 | Merging two ranked runs, the first of which precedes the second in the input, gives a ranked run; this is where `<= 0` (and not `< 0`) matters |
| `MergeSort.PassKeepsRuns` | temp/mosquitto-master/deps/utlist.h:127-159 | A pass turns runs of length k into runs of length 2k, each over its own stretch of the input |
| `MergeSort.PassPermutes` | temp/mosquitto-master/deps/utlist.h:127-159 | A pass permutes the list |
| `PointerSort.Emit` | temp/mosquitto-master/deps/utlist.h:215-221 | Appending a node behind tail extends the list built so far, in both directions of links |
| `PointerSort.StepOver` | temp/mosquitto-master/deps/utlist.h:193-199 | The for-loop finds the start of the q-run and the true size of the p-run, also at the end of the list |
| `PointerSort.Choose` | temp/mosquitto-master/deps/utlist.h:202-214 | The four-way choice takes the node that Merge takes, and the cursors follow the old links although others have been overwritten |
| `PointerSort.MergeRuns` | temp/mosquitto-master/deps/utlist.h:200-222 | Relinking in place produces exactly the merge of the two runs |
| `PointerSort.MergeAll` | temp/mosquitto-master/deps/utlist.h:191-224 | The while-loop over p performs one whole pass and counts its merges |
| `PointerSort.MergePass` | temp/mosquitto-master/deps/utlist.h:187-226 | The same with the list ended by null and, in a DL list, the head pointing back to the tail |
| `PointerSort.SortList` | temp/mosquitto-master/deps/utlist.h:175-233 | The pointer loops compute the same list as the passes on sequences, with next, prev and tail right, for the LL, DL and uthash variants |
| `Utlist.Sort` | temp/mosquitto-master/deps/utlist.h:175-233 | DL_SORT2 leaves a well-formed DL list of the same nodes in stable sorted order |
| `Utlist.SortSingle` | temp/mosquitto-master/deps/utlist.h:111-169 | LL_SORT2 leaves a null-terminated list of the same nodes in stable sorted order |
| `Utlist.Append` | temp/mosquitto-master/deps/utlist.h:639-651 | DL_APPEND2: the list with the node at its end, with head.prev the new tail |
| `Utlist.Delete` | temp/mosquitto-master/deps/utlist.h:706-723 | DL_DELETE2: the list without that node, for the only, first, last and inner node |
| `Utlist.Concat` | temp/mosquitto-master/deps/utlist.h:688-701 | DL_CONCAT2: one list after the other, for either one empty |
| `Utlist.KeepOnly` | temp/mosquitto-master/deps/utlist.h:744-745 | DL_FOREACH_SAFE2 around DL_DELETE2 visits every element of the original list once, in order, and leaves those that are kept |
| `HashBuckets.Prepend` | temp/mosquitto-master/deps/uthash.h:857-876 | HASH_ADD_TO_BKT: the chain with the element in front, hh_prev and hh_next consistent, count one up |
| `HashBuckets.Unchain` | temp/mosquitto-master/deps/uthash.h:879-892 | HASH_DEL_IN_BKT: the chain without the element, count one down |
| `HashBuckets.Redistribute` | temp/mosquitto-master/deps/uthash.h:939-960 | The loops of HASH_EXPAND_BUCKETS move every element to the chain its hash selects among twice as many, count right, leave nonideal_items as the sum of the excesses, and leave every expand_mult at 0 up to the ideal length and beyond it at the lesser of count - ideal and ceil(count / ideal) |
| `HashBuckets.FindInBucket` | temp/mosquitto-master/deps/uthash.h:835-854 | HASH_FIND_IN_BKT returns an element of the chain with this hash value and key, and null only if there is none |
| `HashBuckets.CountsAddUp` | temp/mosquitto-master/deps/uthash.h:523-570 | Bucket counts sum to the number of elements |
| `HashBuckets.ExcessIsTheRest` | temp/mosquitto-master/deps/uthash.h:942-951 | nonideal_items is all items but those within the ideal length of their chain, and 0 exactly when no chain is longer |
| `Uthash.IdealLength` | temp/mosquitto-master/deps/uthash.h:936-938 | ideal_chain_maxlen, computed by shift and mask, is exactly ceil(num_items / new bucket count) |
| `Uthash.Table.Expand` | temp/mosquitto-master/deps/uthash.h:923-973 | Expansion keeps the elements and every one on its proper chain, doubles the buckets with num_buckets = 2^log2, sets ideal and nonideal counts exactly, and decides noexpand |
| `Uthash.Table.AddToTable` | temp/mosquitto-master/deps/uthash.h:345-353 | The element joins the bucket structure and num_items rises; the buckets double, with all counters as Expand leaves them, exactly when the chain has reached its threshold and expansion is allowed; otherwise no counter changes |
| `Uthash.LookupIsExact` | temp/mosquitto-master/deps/uthash.h:164-181 | Only the selected chain can hold a key, and comparing stored hash values never hides it |
| `Uthash.Table.Find` | temp/mosquitto-master/deps/uthash.h:164-181 | HASH_FIND returns the element with the key if the table has one, and null exactly otherwise |
| `Uthash.Table.MakeTable` | temp/mosquitto-master/deps/uthash.h:220-250 | HASH_MAKE_TABLE: 32 empty buckets without multipliers, counters zero, expansion allowed, and the tail at the first element |
| `Uthash.Table.Add` | temp/mosquitto-master/deps/uthash.h:404-423 | HASH_ADD: application order gets the element at its end, and the whole HASH_FSCK invariant is kept |
| `Uthash.FindPlace` | temp/mosquitto-master/deps/uthash.h:294-301 | HASH_AKBI_INNER_LOOP stops at the first element that compares greater |
| `Uthash.Table.AddInorder` | temp/mosquitto-master/deps/uthash.h:358-389 | HASH_ADD_INORDER: the element goes in front of the first that compares greater, invariant kept |
| `Uthash.InorderKeepsSorted` | temp/mosquitto-master/deps/uthash.h:358-389 | A sorted table stays sorted, and equals go behind equals |
| `Uthash.Table.Delete` | temp/mosquitto-master/deps/uthash.h:458-485 | HASH_DELETE: application order without the element, invariant kept, also for the last one |
| `Uthash.Table.Replace` | temp/mosquitto-master/deps/uthash.h:262-277 | HASH_REPLACE: whatever had the key is out, the new element is last, and the old one is returned |
| `Uthash.Table.Sort` | temp/mosquitto-master/deps/uthash.h:980-1062 | HASH_SRT: application order becomes its stable sort; no bucket changes, so every lookup answers as before |
| `Uthash.FsckHolds` | temp/mosquitto-master/deps/uthash.h:523-570 | The sums that HASH_FSCK compares agree in every valid table |
| `UthashRuns.HistoryLeavesSurvivors` | temp/mosquitto-master/deps/uthash.h:404-423 | After any history of adds, deletes and replaces, application order is the insertion order of the survivors |
| `UthashRuns.SurvivorIffLastWriter` | temp/mosquitto-master/deps/uthash.h:164-181 | An element survives exactly when some operation inserted it and no later one has its key |
| `UthashRuns.RunSplits` | temp/mosquitto-master/deps/uthash.h:404-423 | The same from any table: what the history does not touch, then its survivors |
| `UthashRuns.Execute` | temp/mosquitto-master/deps/uthash.h:404-485 | A table driven by any legal history ends valid, with exactly the list that the history describes |
| `UthashRuns.PerformAll` | temp/mosquitto-master/deps/uthash.h:358-485 | Histories that also add in order and sort: the table ends valid and holds exactly what the commands leave |
| `UthashRuns.HeldAfterIff` | temp/mosquitto-master/deps/uthash.h:164-181 | An element is held exactly when it was inserted, or there before, and no later command concerns its key |
| `UthashRuns.FindAfter` | temp/mosquitto-master/deps/uthash.h:164-181 | After any history of adds, ordered adds, replaces, deletes and sorts of an empty table HASH_FIND returns an element exactly when its key was added and not since deleted, and it is the last one added |
| `Varint.EncodeLength` | temp/mosquitto-master/lib/packet_datatypes.c:260-273 | Bytes written equal packet__varint_bytes for every 32-bit word |
| `Varint.VarintRoundTrip` | temp/mosquitto-master/lib/packet_datatypes.c:204-257 | Every word below 2^28 is read back from its encoding, whatever follows |
| `Varint.VarintCanonical` | temp/mosquitto-master/lib/packet_datatypes.c:204-234 | Everything packet__read_varint accepts is the one encoding of its value: overlong forms are refused |
| `Frames.OnByteBounded` | temp/mosquitto-master/lib/packet_mosq.c:430-468 | One length byte keeps remaining_length and remaining_mult within 28 bits, and the fifth is the one rejected |
| `Frames.LengthNeverOverflows` | temp/mosquitto-master/lib/packet_mosq.c:430-468 | On every byte stream the arithmetic stays within 32 bits and a rejection is always a fifth length byte |
| `Frames.CutsDoNotMatter` | temp/mosquitto-master/lib/packet_mosq.c:389-579 | The half that also holds in the middle of a packet: however EAGAIN cuts the rest, the same frames are handed over and the same state is left, if no packet has command byte 0 |
| `Frames.CutsDoNotMatterIff` | temp/mosquitto-master/lib/packet_mosq.c:389-579 | The calls of packet__read give the result of an uncut stream for every way of cutting it exactly when no packet in the stream has command byte 0 |
| `Frames.ZeroCommandIsCutSensitive` | temp/mosquitto-master/lib/packet_mosq.c:389-391 | The shortest instance of the other half: cut after a command byte 0, the next byte is taken for the command |
| `Frames.FeedIsParse` | temp/mosquitto-master/lib/packet_mosq.c:389-579 | The resumable parser delivers exactly the frames of a one-shot parse |
| `Frames.FramesRoundTrip` | temp/mosquitto-master/lib/packet_mosq.c:50-87 | Any sequence of frames is recovered from its bytes |
| `Frames.FramesNotRejected` | temp/mosquitto-master/lib/packet_mosq.c:389-579 | Fed its bytes, the reader delivers all of them and ends clean |
| `Frames.ArrivedPartIsPrefix` | temp/mosquitto-master/lib/packet_mosq.c:389-579 | Whatever part of the bytes has arrived yields a prefix of the frames |
| `PacketIO.Sender.NetWrite` | temp/mosquitto-master/lib/packet_mosq.c:263-267 | One call of net__write: some of the bytes go out, in order |
| `PacketIO.Sender.WriteCurrent` | temp/mosquitto-master/lib/packet_mosq.c:262-293 | The inner loop conserves sent bytes plus rest of the packet, and returns what the first answer of the socket that transfers nothing asks for: success for EAGAIN and EINTR, ConnLost exactly for ECONNRESET, Tls exactly for EPROTO, Errno exactly for any other |
| `PacketIO.Sender.WriteOne` | temp/mosquitto-master/lib/packet_mosq.c:259-345 | One packet and the promotion of the next conserve everything; a DISCONNECT is not followed by a promotion |
| `PacketIO.Sender.PacketWrite` | temp/mosquitto-master/lib/packet_mosq.c:226-353 | sent ++ rest of current ++ queue never changes; on every schedule the return code is decided by the first answer that transfers nothing, as for WriteCurrent; an uninterrupted schedule empties the queue with MOSQ_ERR_SUCCESS; the socket closes only behind a finished DISCONNECT |
| `PacketIO.Sender.PacketQueue` | temp/mosquitto-master/lib/packet_mosq.c:142-208 | The frame joins the end of everything accepted so far, whether or not it is written at once |
| `PacketIO.Sender.CleanupAll` | temp/mosquitto-master/lib/packet_mosq.c:105-128 | Nothing is left to send and the count is zero |
| `PacketIO.Receiver.ReadLength` | temp/mosquitto-master/lib/packet_mosq.c:430-468 | The length loop leaves the state that feeding its bytes one by one leaves, or rejects exactly when that does |
| `PacketIO.Receiver.ReadBody` | temp/mosquitto-master/lib/packet_mosq.c:519-556 | The payload loop does the same for chunks of any size; an interrupted call returns what the answer asks for: success for EAGAIN and EINTR, ConnLost exactly for ECONNRESET, Errno exactly for EPROTO and others, and after an end of file what the stale errno says |
| `PacketIO.Receiver.PacketRead` | temp/mosquitto-master/lib/packet_mosq.c:356-579 | Whatever bytes a call takes, fields and handed-over frame are those of the byte machine, from wherever the last call stopped; the return code is decided by the first answer that transfers nothing: an end of file is ConnLost before the body, and in it the stale errno decides |
| `PacketIO.Receiver.FailedRead` | temp/mosquitto-master/lib/packet_mosq.c:400-418 | The switch on errno after a read that failed: ECONNRESET, EAGAIN, EINTR and the others told apart |
| `Link.Connection.Queue` | temp/mosquitto-master/lib/packet_mosq.c:142-208 | A queued frame keeps the end-to-end invariant |
| `Link.Connection.Write` | temp/mosquitto-master/lib/packet_mosq.c:226-353 | So does every call of packet__write |
| `Link.Connection.Read` | temp/mosquitto-master/lib/packet_mosq.c:356-579 | So does every call of packet__read, and no call is rejected |
| `Link.ChannelIsTransparent` | temp/mosquitto-master/lib/packet_mosq.c:356-579 | On every run with any partial writes and reads the frames handed over are a prefix of those queued, and all of them once everything has been sent and read |
| `OutFlowRuns.ReleaseExtendsPrefix` | temp/mosquitto-master/lib/messages_mosq.c:192-220 | message__release_to_inflight makes the next k messages live, k exactly determined, and charges k |
| `OutFlowRuns.ReleaseSendsWaiting` | temp/mosquitto-master/lib/messages_mosq.c:192-220 | It publishes only messages that were waiting |
| `OutFlowRuns.ResetAt` | temp/mosquitto-master/lib/messages_mosq.c:163-189 | message__reconnect_reset message by message: quota is charged by position |
| `OutFlowRuns.StepKeeps` | temp/mosquitto-master/lib/messages_mosq.c:122-220 | Every publish, ack, PUBREC, loss, reconnect and CONNACK keeps the session invariant |
| `OutFlowRuns.QuotaAccounting` | temp/mosquitto-master/lib/messages_mosq.c:122-220 | On every run of a conforming broker: queue_len is the list length, live messages are a prefix, nothing waits while quota is left, and online quota + live = maximum |
| `OutFlowRuns.PublishAccountedIff` | temp/mosquitto-master/lib/actions.c:118-163 | Offline the last of these fails: a publish keeps it exactly when connected or out of quota |
| `OutFlowRuns.OfflinePublishMiscounts` | temp/mosquitto-master/lib/actions.c:118-163 | An instance: a new client that publishes before it is connected |
| `OutFlowRuns.ReconnectAccounts` | temp/mosquitto-master/lib/connect.c:158-228 | Every reconnect and CONNACK restores it |
| `OutFlowRuns.AckAccountedIff` | temp/mosquitto-master/lib/handle_pubackcomp.c:60-62 | The early increment is right exactly when the message is in flight or the quota is full anyway |
| `OutFlowRuns.UnknownAckMiscounts` | temp/mosquitto-master/lib/handle_pubackcomp.c:60-62 | An instance: one message in flight and a PUBACK for another identifier |
| `OutFlowRuns.NewMaximumAccountedIff` | temp/mosquitto-master/lib/handle_connack.c:108-113 | A new maximum balances exactly when min(maximum, queue) messages are live already |
| `OutFlowRuns.RaisedMaximumMiscounts` | temp/mosquitto-master/lib/handle_connack.c:108-113 | For instance it does not when the maximum rises from 1 to 2 with one message waiting |
| `OutFlowRuns.PubrecConfirms` | temp/mosquitto-master/lib/handle_pubrec.c:104-133 | An accepted PUBREC makes the message confirmed and is answered by PUBREL alone |
| `OutFlowRuns.StepKeepsConfirmed` | temp/mosquitto-master/lib/messages_mosq.c:140-189 | Every step but the one that ends the exchange keeps it confirmed and sends only PUBREL for it |
| `OutFlowRuns.NeverRepublished` | temp/mosquitto-master/lib/messages_mosq.c:140-189 | So on every run with a fixed maximum and any number of reconnects (section 4.3.3 of MQTT 3.1.1) |
| `OutFlowRuns.NewMaximumForgetsIff` | temp/mosquitto-master/lib/handle_connack.c:108-113 | Where a CONNACK changes the maximum, a confirmed message falls back to waiting exactly when it stands at or behind the new maximum |
| `OutFlowRuns.LoweredMaximumRepublishes` | temp/mosquitto-master/lib/handle_connack.c:108-113 | An instance: the maximum falls from 2 to 1 and the confirmed second message is published again |
| `OutResend.StepStatesOk` | temp/mosquitto-master/lib/messages_mosq.c:140-189 | Every message stays in a state of its QoS |
| `OutResend.ResendsInOrder` | temp/mosquitto-master/lib/messages_mosq.c:278-314 | After a reconnect and its CONNACK, whatever is published between the two, exactly one packet per message among the first min(maximum, queue) is resent, in list order: PUBREL where receipt is confirmed, PUBLISH with dup otherwise (section 4.4 of MQTT 3.1.1) |
| `OutOrder.ReleasePublishes` | temp/mosquitto-master/lib/messages_mosq.c:192-220 | A release publishes exactly the messages it makes live, and nothing without a connection |
| `OutOrder.PublishKeepsOrderIff` | temp/mosquitto-master/lib/actions.c:118-163 | A publish overtakes an earlier message exactly when it finds a connection and quota while a message accepted offline still waits for the CONNACK |
| `OutOrder.StepKeepsOrder` | temp/mosquitto-master/lib/messages_mosq.c:122-220 | No other step of a run makes a message overtake |
| `OutOrder.FirstPublishedInOrderIff` | temp/mosquitto-master/lib/messages_mosq.c:122-220 | On every legal run messages are first published in the order in which they were accepted exactly when no publish overtakes |
| `OutOrder.SecondOvertakesFirst` | temp/mosquitto-master/lib/connect.c:193-205 | An instance: the first message is accepted offline, the second between reconnect and CONNACK |
| `OutSession.OutQueue.ReleaseToInflight` | temp/mosquitto-master/lib/messages_mosq.c:192-220 | The loop, with state set before the send, computes Release |
| `OutSession.OutQueue.ReconnectReset` | temp/mosquitto-master/lib/messages_mosq.c:163-189 | The loop computes Reset and recounts queue_len |
| `OutSession.OutQueue.Search` | temp/mosquitto-master/lib/messages_mosq.c:230-252 | First message with the mid, and whether its QoS agrees |
| `OutSession.OutQueue.MessageDelete` | temp/mosquitto-master/lib/messages_mosq.c:230-252 | Removal and queue_len, with the missing and wrong-QoS cases |
| `OutSession.OutQueue.RetryCheck` | temp/mosquitto-master/lib/messages_mosq.c:278-314 | What is resent, in order, and the dup flags |
| `OutSession.OutQueue.Publish` | temp/mosquitto-master/lib/actions.c:118-163 | mosquitto_publish_v5 from the queueing on is a Publish step |
| `OutSession.OutQueue.HandlePubackcomp` | temp/mosquitto-master/lib/handle_pubackcomp.c:41-163 | PUBACK and PUBCOMP are Ack steps, including those refused after the quota has been raised |
| `OutSession.OutQueue.HandlePubrec` | temp/mosquitto-master/lib/handle_pubrec.c:40-134 | PUBREC, accepted or refused, is a Pubrec step |
| `OutSession.OutQueue.ReconnectSocket` | temp/mosquitto-master/lib/connect.c:158-228 | mosquitto__reconnect is a Reconnect step |
| `OutSession.OutQueue.HandleConnack` | temp/mosquitto-master/lib/handle_connack.c:106-136 | handle__connack with a fixed maximum is a Connack step, of which OutAnswers says what a refusal and an acceptance do |
| `OutAnswers.RefusedConnackIsSilent` | temp/mosquitto-master/lib/handle_connack.c:118-136 | A refused CONNACK sends nothing, keeps every message and does not make the client active |
| `OutAnswers.RefusedRunsResendNothing` | temp/mosquitto-master/lib/handle_connack.c:118-136 | On every run without an accepted CONNACK a client that is not active stays so, and all it sends are first publishes |
| `OutAnswers.ActiveIff` | temp/mosquitto-master/lib/handle_connack.c:118-126 | On every run the client is active exactly when an accepted CONNACK has come since the connection last dropped, and connected exactly when a reconnect has succeeded since |
| `OutAnswers.SilentWithoutConnection` | temp/mosquitto-master/lib/messages_mosq.c:192-220 | Without a connection no packet is handed over |
| `OutAnswers.SendQuotaLaw` | temp/mosquitto-master/lib/messages_mosq.c:192-220 | In any state, legal or not: each first publish costs one unit, each acknowledgement or refused PUBREC puts one back up to the maximum, reconnect and CONNACK charge the whole list, and queue_len moves with the list |
| `OutAnswers.QuotaIsUsed` | temp/mosquitto-master/lib/handle_pubackcomp.c:60-163 | Quota that has come back is used at once: after a publish, a refused PUBREC or an acknowledgement, known or not, nothing waits while quota is left; one of the wrong kind releases nothing |
| `OutAnswers.UnknownPubrec` | temp/mosquitto-master/lib/handle_pubrec.c:104-133 | PUBREC for a message the client does not have is answered by PUBREL and changes nothing |
| `OutAnswers.KnownPubrec` | temp/mosquitto-master/lib/handle_pubrec.c:104-133 | Otherwise the first message of the identifier decides: of QoS 2 it is confirmed and answered, of QoS 1 neither |
| `OutAnswers.PubrelOnlyInAnswer` | temp/mosquitto-master/lib/handle_pubrec.c:104-133 | PUBREL goes out only in answer to an accepted PUBREC, or again for a confirmed message after an accepted CONNACK |
| `OutAnswers.UnfinishedIff` | temp/mosquitto-master/lib/messages_mosq.c:122-275 | On every legal run a message is held exactly when it was published, or held before, and not completed since: no event loses one and none brings one back |
| `InFlow.StepKeeps` | temp/mosquitto-master/lib/handle_publish.c:123-171 | Only unreleased QoS 2 messages are ever held, the quota bound holds, a reset discards none, and a refusal means the inbox is full |
| `InFlow.ExactDelivery` | temp/mosquitto-master/lib/handle_pubrel.c:107-137 | With successful sends, per mid: received = delivered, then still queued, in order, across any number of reconnects |
| `InFlow.LostIff` | temp/mosquitto-master/lib/handle_pubrel.c:107-137 | A message is lost exactly when its PUBREL arrives and PUBCOMP cannot be sent |
| `InFlow.PubrelAnswers` | temp/mosquitto-master/lib/handle_pubrel.c:107-137 | Every PUBREL gets PUBCOMP, and delivers the first held message of its mid if there is one |
| `InFlow.RepeatedPubrelIff` | temp/mosquitto-master/lib/handle_publish.c:158-166 | A repeated PUBREL delivers nothing exactly when the mid was not already held at the PUBLISH |
| `InFlow.OneHeldPerMid` | temp/mosquitto-master/lib/handle_publish.c:158-166 | If no mid is reused before its PUBREL, at most one message per mid is ever held |
| `InFlow.DeliveriesComeFromHeld` | temp/mosquitto-master/lib/handle_pubrel.c:107-137 | Without a PUBLISH of a mid, delivered plus held of that mid never grows, whatever sends fail |
| `InFlow.DeliveredAtMostOnce` | temp/mosquitto-master/lib/handle_pubrel.c:107-137 | If no mid is reused before its PUBREL, then from a PUBLISH to the next of the same mid the deliveries of that mid grow by exactly this message or not at all, on any run and whatever sends fail |
| `InFlow.RetransmissionDeliveredTwice` | temp/mosquitto-master/lib/handle_publish.c:158-166 | A PUBLISH retransmitted after a reconnect is delivered twice when the broker sends PUBREL twice |
| `InFlow.ReceiveQuotaBounds` | temp/mosquitto-master/lib/handle_publish.c:72-79 | On every run maximum - held <= quota <= maximum, so PUBLISH is refused only when at least maximum messages are held (section 4.9 of MQTT 5.0) |
| `InSession.InQueue.HandlePublish` | temp/mosquitto-master/lib/handle_publish.c:72-171 | handle__publish is a PublishIn step, whether or not the reply can be sent, with its error codes; what it answers and delivers is said in InReplies |
| `InReplies.TakenPublishAnswers` | temp/mosquitto-master/lib/handle_publish.c:123-171 | QoS 0 is delivered and not answered; QoS 1 is delivered and answered by one PUBACK of its identifier; QoS 2 is held and answered by one PUBREC of its identifier |
| `InReplies.UntakenIsSilent` | temp/mosquitto-master/lib/handle_publish.c:72-79 | A PUBLISH that is not taken changes, delivers and answers nothing; it is refused exactly when MQTT 5 quota is out |
| `InReplies.EachIsAnsweredOnce` | temp/mosquitto-master/lib/handle_publish.c:140-166 | On every run with successful sends, per identifier: PUBACKs = QoS 1 PUBLISHes taken, PUBRECs = QoS 2 PUBLISHes taken, PUBCOMPs = PUBRELs |
| `InReplies.DirectDeliveries` | temp/mosquitto-master/lib/handle_publish.c:123-157 | On every run, whatever sends fail, the application gets exactly the QoS 0 and QoS 1 messages taken, each once, in order, with their bodies and identifiers |
| `InReplies.QuotaLaw` | temp/mosquitto-master/lib/util_mosq.c:215-235 | The receive quota after each event, exactly, in every state of a run |
| `InSession.InQueue.HandlePubrel` | temp/mosquitto-master/lib/handle_pubrel.c:41-142 | handle__pubrel is a Pubrel step |
| `InSession.InQueue.MessageRemove` | temp/mosquitto-master/lib/messages_mosq.c:254-275 | The incoming branch of message__remove, with the missing and wrong-QoS cases |
| `InSession.InQueue.ReconnectReset` | temp/mosquitto-master/lib/messages_mosq.c:145-160 | The loop that deletes while it walks is a Reset step |
| `InSession.InQueue.TakeReceiveMaximum` | temp/mosquitto-master/lib/send_connect.c:71-79 | The Receive Maximum given to connect replaces maximum and quota |
| `PacketBuffer.Packet.LengthDigits` | temp/mosquitto-master/lib/packet_mosq.c:58-70 | The digit loop of packet__alloc computes the same encoding |
| `PacketBuffer.Packet.Alloc` | temp/mosquitto-master/lib/packet_mosq.c:50-87 | Header and length written, room for exactly the remaining length, refusal exactly above 268435455 |
| `PacketBuffer.Packet.WriteByte` | temp/mosquitto-master/lib/packet_datatypes.c:61-68 | One byte appended |
| `PacketBuffer.Packet.WriteBytes` | temp/mosquitto-master/lib/packet_datatypes.c:83-90 | The bytes appended |
| `PacketBuffer.Packet.WriteUint16` | temp/mosquitto-master/lib/packet_datatypes.c:169-173 | Two bytes, most significant first |
| `PacketBuffer.Packet.WriteString` | temp/mosquitto-master/lib/packet_datatypes.c:143-148 | Length and text |
| `PacketBuffer.Packet.WriteVarint` | temp/mosquitto-master/lib/packet_datatypes.c:237-257 | The encoding appended, five bytes and an error for words above 268435455 |
| `Packets.SendCommandWithMid` | temp/mosquitto-master/lib/send_mosq.c:121-164 | The packet is filled exactly: it is the frame of command and mid |
| `Packets.SendPuback` | temp/mosquitto-master/lib/send_mosq.c:70-80 | PUBACK byte for byte |
| `Packets.SendPubrec` | temp/mosquitto-master/lib/send_mosq.c:95-107 | PUBREC byte for byte |
| `Packets.SendPubrel` | temp/mosquitto-master/lib/send_mosq.c:109-118 | PUBREL byte for byte, with its reserved flag |
| `Packets.SendPubcomp` | temp/mosquitto-master/lib/send_mosq.c:82-92 | PUBCOMP byte for byte |
| `Packets.SendPublish` | temp/mosquitto-master/lib/send_publish.c:137-221 | The packet is filled exactly and is the frame of its fields; it fails exactly when too large |
| `Packets.MeasureTopics` | temp/mosquitto-master/lib/send_subscribe.c:51-61 | The first loop gives the length modulo 2^32 and refuses exactly overlong topics |
| `Packets.WriteTopics` | temp/mosquitto-master/lib/send_subscribe.c:85-88 | The second loop writes exactly that many bytes, or stops at the first topic that does not fit |
| `Packets.SendTopics` | temp/mosquitto-master/lib/send_subscribe.c:39-102 | SUBSCRIBE and UNSUBSCRIBE, for any number and size of topics: filled exactly when the total is at most 268435455; each of the three failures exactly characterized, the failed write assertion being that of a total from 2^32 on that wraps to an allocatable length |
| `Packets.SendSubscribe` | temp/mosquitto-master/lib/send_subscribe.c:39-102 | SUBSCRIBE: first byte 0x82, and one QoS byte behind every topic |
| `Packets.SendUnsubscribe` | temp/mosquitto-master/lib/send_unsubscribe.c:39-100 | UNSUBSCRIBE: first byte 0xA2, and no QoS byte |
| `WireReaders.SubscribeRoundTrip` | temp/mosquitto-master/lib/send_subscribe.c:74-88 | A reader written from sections 3.8 and 3.10 of MQTT 3.1.1 finds in the body the identifier and every topic, in order, each with the QoS given or with none |
| `PacketBuffer.Packet.TryString` | temp/mosquitto-master/lib/packet_datatypes.c:143-148 | The writer with its assertion as an outcome: it fails exactly when length and text do not fit |
| `Packets.SubscribeCanWrap` | temp/mosquitto-master/lib/send_subscribe.c:51-61 | 65536 topics of 65533 bytes total 2^32 + 2, announced as 2: an instance of the failed assertion |
| `Packets.MeasureConnect` | temp/mosquitto-master/lib/send_connect.c:84-138 | The computed length is that of the body, for every combination of will, user name and password |
| `Packets.SendConnect` | temp/mosquitto-master/lib/send_connect.c:52-202 | CONNECT is filled exactly, with the two error cases; what its body says is ConnectRoundTrip |
| `WireReaders.ConnectRoundTrip` | temp/mosquitto-master/lib/send_connect.c:145-202 | A reader of CONNECT written from section 3.1 of MQTT 3.1.1, with its own bit positions and field order, finds in the body the level, clean session, keep-alive, client identifier, will (topic, payload, QoS, retain where available), user name and password it was built from |
| `Incoming.InBuffer.ReadByte` | temp/mosquitto-master/lib/packet_datatypes.c:49-58 | Succeeds exactly when a byte is left |
| `Incoming.InBuffer.ReadUint16` | temp/mosquitto-master/lib/packet_datatypes.c:151-166 | Undoes the writer; fails without moving exactly when fewer than two bytes are left |
| `Incoming.InBuffer.ReadBytes` | temp/mosquitto-master/lib/packet_datatypes.c:71-80 | The same for a block |
| `Incoming.InBuffer.ReadString` | temp/mosquitto-master/lib/packet_datatypes.c:124-140 | Undoes the writer; malformed length and bad UTF-8 told apart |
| `Incoming.InBuffer.ReadVarint` | temp/mosquitto-master/lib/packet_datatypes.c:204-234 | Computes Decode: value, bytes used, and refusal of overlong and unfinished forms |
| `Incoming.HandlePublish` | temp/mosquitto-master/lib/handle_publish.c:56-115 | The cursor code parses the fields as specified, with every error case |
| `Incoming.PublishRoundTrip` | temp/mosquitto-master/lib/send_publish.c:137-221 | What send__real_publish encodes, handle__publish reads back: dup, qos, retain, mid, topic, payload |
| `Incoming.ParsedIsEncoding` | temp/mosquitto-master/lib/handle_publish.c:56-115 | Conversely, an accepted PUBLISH is the encoding of the fields read from it |
| `Incoming.TakeStringIff` | temp/mosquitto-master/lib/packet_datatypes.c:124-140 | A string is read exactly when the bytes start with its encoding and it is empty or valid UTF-8; malformed exactly when they start with none |
| `Incoming.RefusedIff` | temp/mosquitto-master/lib/handle_publish.c:72-115 | Which PUBLISH gets which error: malformed exactly when it ends inside topic or identifier, bad UTF-8 exactly when the topic is, protocol error exactly for an empty topic, identifier 0 or QoS 3 |
| `Incoming.PublishOverTheWire` | temp/mosquitto-master/lib/handle_publish.c:56-115 | From fields through one frame in a byte stream back to the fields |
| `PahoPacket.PacketLenIsTrueLenOrOneMore` | temp/SIM800MQTT-master/ext lib/MQTTPacket.c:84-98 | MQTTPacket_len is exact except one too large at 127, 16383, 2097150 and 2097151, and one too small above 268435455 |
| `PahoPacket.SizeCheckSoundIff` | temp/SIM800MQTT-master/ext lib/MQTTPacket.c:84-98 | So the size check protects the buffer exactly for lengths up to 268435455 |
| `PahoPacket.RefusedThoughItFitsIff` | temp/SIM800MQTT-master/ext lib/MQTTPacket.c:84-98 | The buffers refused although the packet fits, exactly |
| `PahoPacket.StrlenIsWrittenIff` | temp/SIM800MQTT-master/ext lib/MQTTPacket.c:194-251 | MQTTstrlen and writeMQTTString disagree exactly when both forms are set with different lengths |
| `PahoPacket.EncodeInto` | temp/SIM800MQTT-master/ext lib/MQTTPacket.c:29-45 | The digit loop writes the encoding, and nothing after it |
| `PahoPacket.WriteMqttString` | temp/SIM800MQTT-master/ext lib/MQTTPacket.c:194-206 | Length and text of the string, and nothing after it |
| `PahoPacket.DecodeFrom` | temp/SIM800MQTT-master/ext lib/MQTTPacket.c:54-81 | Value and return code of MQTTPacket_decode on every byte sequence, complete or not |
| `PahoPacket.DecodedLengthBound` | temp/SIM800MQTT-master/ext lib/MQTTPacket.c:54-81 | Whatever the bytes, the value stays below 2^28 |
| `PahoSerialize.SerializePublish` | temp/SIM800MQTT-master/ext lib/MQTTSerializePublish.c:55-91 | For any arguments: past the size check, header, declared length and body are in memory, rc is their length and no byte after them changes; otherwise BUFFER_TOO_SHORT and nothing changes |
| `PahoSerialize.PublishLengthRightIff` | temp/SIM800MQTT-master/ext lib/MQTTSerializePublish.c:31-39 | The declared length is the written one exactly when the two lengths of the topic agree |
| `PahoSerialize.WellFormedIsFrame` | temp/SIM800MQTT-master/ext lib/MQTTPacket.c:84-98 | Where declared and written length agree and MQTT allows them, what is written is the frame and lies inside buflen |
| `PahoSerialize.StaysInsideIff` | temp/SIM800MQTT-master/ext lib/MQTTPacket.c:84-98 | A serializer stays inside every buffer that passes its size check exactly when the body is not longer than declared, up to the byte by which MQTTPacket_len errs |
| `PahoSerialize.SerializeAck` | temp/SIM800MQTT-master/ext lib/MQTTSerializePublish.c:104-127 | The same for acknowledgements |
| `PahoSerialize.FiltersLength` | temp/SIM800MQTT-master/ext lib/MQTTSubscribeClient.c:28-36 | The measuring loop sums what MQTTstrlen says |
| `PahoSerialize.FiltersDeclaredRight` | temp/SIM800MQTT-master/ext lib/MQTTSubscribeClient.c:28-36 | It gives what the writing loop needs wherever the two lengths of every topic agree |
| `PahoSerialize.SerializeFilters` | temp/SIM800MQTT-master/ext lib/MQTTSubscribeClient.c:50-86 | The same for SUBSCRIBE and UNSUBSCRIBE with any number of filters |
| `WireReaders.PahoSubscribeRoundTrip` | temp/SIM800MQTT-master/ext lib/MQTTSubscribeClient.c:50-86 | The same reader finds in the Paho body the identifier and every filter, in order, each with its own QoS or with none |
| `PahoSerialize.SerializeConnect` | temp/SIM800MQTT-master/ext lib/MQTTConnectClient.c:58-121 | The same for CONNECT of any version with any will, user name and password |
| `PahoSerialize.ConnectLengthRightIff` | temp/SIM800MQTT-master/ext lib/MQTTConnectClient.c:27-48 | The declared length is the written one exactly for versions 3 and 4; otherwise it is 12 short |
| `WireReaders.PahoConnectRoundTrip` | temp/SIM800MQTT-master/ext lib/MQTTConnectClient.c:79-115 | The same reader of CONNECT recovers every option from the Paho body; a version other than 4 is written as 3.1, flags modulo their width |
| `WireReaders.FirstBytes` | temp/SIM800MQTT-master/ext lib/MQTTConnectClient.c:73-75 | Table 2.2 of MQTT 3.1.1: the first bytes of PUBACK, PUBREC, PUBREL with its reserved flag, PUBCOMP, SUBSCRIBE, UNSUBSCRIBE and CONNECT as the Paho codec builds them, and the dup bit |
| `PahoDeserialize.ReadLenString` | temp/SIM800MQTT-master/ext lib/MQTTPacket.c:215-234 | Succeeds exactly when length and text lie inside the packet |
| `PahoDeserialize.DeserializePublish` | temp/SIM800MQTT-master/ext lib/MQTTDeserializePublish.c:36-69 | On any memory: the fields and the return code of every packet seen, including missing identifiers and lengths that do not end |
| `PahoDeserialize.SeesWholePacket` | temp/SIM800MQTT-master/ext lib/MQTTDeserializePublish.c:36-69 | Where memory holds one whole packet that is the packet seen |
| `PahoDeserialize.SuccessMeansMessageIff` | temp/SIM800MQTT-master/ext lib/MQTTDeserializePublish.c:53-65 | On a whole packet, exactly when return code 1 does not mean success |
| `PahoDeserialize.RcOnWholePacket` | temp/SIM800MQTT-master/ext lib/MQTTDeserializePublish.c:36-69 | On a whole packet the return code is 0 exactly for another packet type, the number of length bytes for a bad topic, and else 1 |
| `PahoDeserialize.BodyReadIff` | temp/SIM800MQTT-master/ext lib/MQTTDeserializePublish.c:53-65 | The topic is bad exactly when the body starts with no string, the identifier missing exactly when it ends inside it; otherwise the body is topic, identifier and payload in order |
| `PahoDeserialize.BadTopicReportsSuccess` | temp/SIM800MQTT-master/ext lib/MQTTDeserializePublish.c:53-58 | A malformed PUBLISH of four bytes, and the return code 1 for it |
| `PahoDeserialize.MissingIdReportsSuccess` | temp/SIM800MQTT-master/ext lib/MQTTDeserializePublish.c:60-65 | A QoS 1 PUBLISH of five bytes that ends before its identifier, and the return code 1 for it |
| `PahoDeserialize.PublishRecoveredIff` | temp/SIM800MQTT-master/ext lib/MQTTDeserializePublish.c:36-69 | Deserializing a serialized PUBLISH recovers every field exactly when the flags fit their bit fields and the topic its 16-bit length |
| `PahoDeserialize.SerializedParses` | temp/SIM800MQTT-master/ext lib/MQTTSerializePublish.c:55-91 | What a serializer left in the buffer is read back as its frame, whatever else the buffer holds |
| `PahoDeserialize.PublishThroughBuffer` | temp/SIM800MQTT-master/ext lib/MQTTDeserializePublish.c:36-69 | Both run on one buffer return the message that went in |
| `PahoDeserialize.SameFrameAsMosquitto` | temp/SIM800MQTT-master/ext lib/MQTTSerializePublish.c:55-91 | The Paho codec and libmosquitto put the same frame on the wire for the same message |
| `PahoDeserialize.DeserializeAck` | temp/SIM800MQTT-master/ext lib/MQTTDeserializePublish.c:82-106 | On any memory: type, dup, identifier and return code |
| `PahoDeserialize.AckSuccessIff` | temp/SIM800MQTT-master/ext lib/MQTTDeserializePublish.c:95-103 | On a whole packet, return code 1 comes without an acknowledgement exactly when the body is shorter than two bytes and its length takes one |
| `PahoDeserialize.ShortAckReportsSuccess` | temp/SIM800MQTT-master/ext lib/MQTTDeserializePublish.c:95-103 | A PUBACK of three bytes, and the return code 1 for it |
| `PahoDeserialize.AckRecoveredIff` | temp/SIM800MQTT-master/ext lib/MQTTSerializePublish.c:104-127 | An acknowledgement is recovered exactly when type and dup fit their bit fields |
| `PahoRead.Read` | temp/SIM800MQTT-master/ext lib/MQTTPacket.c:290-316 | The blocking reader on every stream and buffer length: result, every byte it writes, and that it writes no other |
| `PahoRead.StaysInsideIff` | temp/SIM800MQTT-master/ext lib/MQTTPacket.c:304-308 | It stays inside buflen exactly when header byte and length do |
| `PahoRead.SmallBufferOverrun` | temp/SIM800MQTT-master/ext lib/MQTTPacket.c:304-308 | With buflen 2 and the length 16383 it writes a third byte |
| `PahoRead.BlockingFrameIsParse` | temp/SIM800MQTT-master/ext lib/MQTTPacket.c:290-316 | Where the stream starts with a whole packet, that is the packet read |
| `PahoRead.BlockingAcceptsMalformedIff` | temp/SIM800MQTT-master/ext lib/MQTTPacket.c:301-304 | Exactly when it reports a packet where there is none: the verdict of the length decoder is ignored |
| `PahoRead.ArrivedPartIsKept` | temp/SIM800MQTT-master/ext lib/MQTTPacket.c:304-316 | Of a packet cut anywhere after its length, the buffer gets exactly the part that arrived; of one that does not fit, header and length |
| `PahoRead.TruncatedLengthAccepted` | temp/SIM800MQTT-master/ext lib/MQTTPacket.c:301-304 | A PUBLISH cut after a continuation byte is reported as complete and empty |
| `PahoRead.Transport.DecodeNb` | temp/SIM800MQTT-master/ext lib/MQTTPacket.c:324-352 | The length across any number of calls |
| `PahoRead.Transport.ReadNb` | temp/SIM800MQTT-master/ext lib/MQTTPacket.c:362-411 | Each call keeps the tie between fields, buffer and bytes read and writes no byte beyond them; it answers call again until the last byte, then holds the frame and is in state 0; errors are transport errors, a fifth length byte or a packet too long |
| `PahoRead.NbStaysInsideIff` | temp/SIM800MQTT-master/ext lib/MQTTPacket.c:386-388 | It stays inside buflen exactly when what precedes the body does |
| `PahoRead.NbSmallBufferOverrun` | temp/SIM800MQTT-master/ext lib/MQTTPacket.c:386-388 | With buflen 2 and the length 16383 it writes a third byte |
| `PahoRead.ProgressIsIncomplete` | temp/SIM800MQTT-master/ext lib/MQTTPacket.c:362-411 | As long as the answer is "call again", the bytes read are not a whole packet |
| `PahoRead.ReadInRounds` | temp/SIM800MQTT-master/ext lib/MQTTPacket.c:362-411 | Over any chunking: it stops with the first packet of a type other than 0, or because the next does not fit; with buflen at least 5 it never writes past it |
| `PahoRead.BothReaders` | temp/SIM800MQTT-master/ext lib/MQTTPacket.c:290-316 | On the same stream both readers return the same type and leave the same bytes exactly when the first packet has a type other than 0; where the non-blocking one reports an error on a stream that starts with a packet, so does the blocking one |
| `ModemInput.StepConserves` | sources/common/Modem/Modem.cpp:88-105 | A step without overflow keeps consumed ++ buffer ++ main ++ addit, plus the byte received |
| `ModemInput.OverflowLosesBytes` | sources/common/Modem/Modem.cpp:240-262 | A step with overflow drops a stretch and loses at least one byte, but duplicates and reorders nothing; exactly which bytes are left in each of the three cases |
| `ModemInput.NothingLostIffNoOverflow` | sources/common/Modem/Modem.cpp:88-105 | On every interleaving of interrupts with the foreground, the pipeline is the received stream with bytes left out, and the whole stream exactly when no Append has failed |
| `ModemInput.OverflowNeedsBacklog` | sources/common/Modem/Modem.cpp:230-263 | No overflow while at most 2048 bytes are received and not yet taken |
| `ModemInput.AdditWaitsForInterrupt` | sources/common/Modem/Modem.cpp:242-249 | The foreground alone never empties addit: its bytes wait for the next interrupt |
| `ModemInput.DrainAppend` | sources/common/Modem/Modem.cpp:119-205 | The answers do not depend on where the stream is cut |
| `ModemInput.ScanIff` | sources/common/Modem/Modem.cpp:124-201 | An answer is found exactly where the first prompt, or first CR behind a line that is not empty, ends it, no +IPD header coming before; it is the text of the line without CR and LF, a prompt included |
| `ModemInput.AnswersArePrefix` | sources/common/Modem/Modem.cpp:119-205 | Without overflow, the answers handed on are a prefix of those in the received stream, and all of them when nothing waits |
| `ModemDevice.Buffer.Append` | sources/common/Modem/Modem.cpp:98-101 | All or nothing, by capacity |
| `ModemDevice.Buffer.RemoveFirst` | sources/common/Modem/Modem.cpp:150-150 | The rest moves to the front |
| `ModemDevice.InData.CallbackOnReceive` | sources/common/Modem/Modem.cpp:230-263 | The interrupt routine is a Receive step |
| `ModemDevice.InData.CopyMain` | sources/common/Modem/Modem.cpp:92-101 | The copy, or the clearing on overflow, is a foreground step |
| `ModemDevice.InData.FindAnswer` | sources/common/Modem/Modem.cpp:124-201 | The scanning loop finds what Scan finds |
| `ModemDevice.InData.ParseOne` | sources/common/Modem/Modem.cpp:119-205 | One turn of the do-loop is a foreground step |
| `ModemPower.ElapsedModulo` | sources/common/Hardware/Timer.cpp:26-29 | Across any wrap of the 32-bit counter the meter shows the true time modulo 2^32, never more, and the true time exactly below 2^32 |
| `ModemPower.NextState` | sources/common/Modem/Modem.cpp:300-387 | After any run, within 2^32 ms of the meter reset, the next state is decided by true time: WAIT_HI_GSM_PG without GSM_PG goes to IDLE exactly past 100 ms at the second reading and else stays, WAIT_5000_MS without GSM_STATUS exactly past 5000 ms; with the pin high the next state is entered; the three timed waits end exactly past 3000, 500 and 1250 ms |
| `ModemPower.WaitsUntil` | sources/common/Modem/Modem.cpp:328-382 | Over any series of calls a state is left for good by the first that finds its time over and by none before: the two waits for a pin give up exactly past 100 and 5000 ms |
| `ModemPower.MeterAndActs` | sources/common/Modem/Modem.cpp:300-387 | Whatever the clock: which reading restarts the meter, that a call which does not change the state changes nothing, and exactly what is driven on each way from one state to another; giving up and Modem::Reset drive nothing |
| `ModemPower.StepKeeps` | sources/common/Modem/Modem.cpp:300-387 | Every call of Update and every Reset keeps the record of what was driven, and when, since the last call in IDLE |
| `ModemPower.HardwareOkMeansPoweredUp` | sources/common/Modem/Modem.cpp:300-387 | On every run, in HARDWARE_IS_OK power was off > 3000 ms, then on > 500 ms before PWRKEY was driven low, then low > 1250 ms; GSM_PWR is low and PWRKEY high |
| `ModemPower.FallingEdgeIff` | sources/common/Modem/Modem.cpp:266-272 | Driving PWRKEY low is a falling edge exactly when it was high as the sequence began; on the first power-up it was not |
| `ModemPower.FirstPowerUp` | sources/common/Modem/Modem.cpp:300-387 | Six calls of Update reach HARDWARE_IS_OK: the first power-up, without the edge |
| `ModemPower.Driver.UpdateOnce` | sources/common/Modem/Modem.cpp:300-387 | Modem::Update is a step of the machine, which NextState, WaitsUntil and MeterAndActs pin down, with the levels on the pins |

## Left out

- Sockets, TLS, DNS, SOCKS and the select loop; they appear only as schedules of partial reads and writes.
- Broker branches, bridges and websockets; pthread locking (each handler is one atomic step); failed allocations, including uthash's rollback.
- MQTT 5 properties: the MQTT 5 session logic is modelled, the properties' bytes are not. The refused PUBREC, Receive Maximum and the quota check are.
- Topic and UTF-8 validation and the maximum packet size check of mosquitto_publish_v5; UTF-8 validity is a parameter of the readers. Packet identifiers are events' arguments, required fresh while in use.
- QoS 0 publishes do not enter the outgoing queue; a reply that cannot be sent is an event's argument in the incoming direction.
- HASH_SELECT, HASH_CLEAR, the Bloom filter and the hash functions themselves: the hash is an arbitrary function of the key. Bucket counts, item counts and run lengths are unbounded integers, and `hashv & (num_buckets - 1)` is written as a remainder, which agrees because the bucket count is a power of two.
- Uthash.Table.Add: requires that the key is absent, as uthash asks of its callers; Uthash.Table.Replace does not.
- Utlist.SortSingle: elements carry a prev field that LL lists do not have; nothing is said of it.
- OutSession.OutQueue.HandleConnack: the state disconnecting, in which an accepted CONNACK does not make the client active, and the callbacks are not modelled.
- PacketIO.Sender.PacketWrite: after DISCONNECT the C code leaves current_out_packet pointing at the freed packet and a mutex locked; the model keeps the finished packet there, with nothing left to send.
- PacketIO.Receiver.PacketRead: the payload received so far stands for payload[..pos]; after a rejected length the connection is given up, so the int8_t wrap of remaining_count on further calls is not modelled.
- PahoSerialize.SerializePublish: requires a topic that holds the bytes it counts and memory for what is written; lengths are unbounded integers, so an overflow of the C int in the length sums is not modelled, nor are negative string lengths.
- PahoSerialize.SerializeFilters: the same of its filters.
- PahoSerialize.SerializeConnect: the same of its strings.
- PahoDeserialize.DeserializePublish: memory past the bytes given reads as zero.
- PahoDeserialize.DeserializeAck: the same.
- PahoRead.Transport.ReadNb: requires that five bytes of memory exist from the buffer on, which is as far as it can write before it looks at buflen; buflen itself may be smaller.
- PahoRead.ReadInRounds: the same.
- PahoRead.BothReaders: the same.
- MQTTDeserialize_suback, MQTTDeserialize_unsuback, MQTTDeserialize_connack, MQTTPacket_equals and the string formatters of the Paho codec; send__simple_command and the ping timer of libmosquitto: they would only add easy members.
- The +IPD binary path of InData::Update. A nested Modem::Update from within SIM868::Update counts as the next step.
- ModemInput.DrainAppend: stops for good in front of a +IPD header, where the code enters its binary path.
- ModemInput.AnswersArePrefix: the same.
- ModemDevice.InData.FindAnswer: the same; and answers are values without their terminating zero, which does not fit when an answer ending in the prompt fills all 2048 bytes.
- ModemDevice.InData.ParseOne: the same.
- TimeMeterMS::Wait, IsFinished and Timer::DelayMS; what SIM868 and the MQTT layer above the modem do with the answers.
- Command-line clients, option parsing, display, clock, logging and the main loops.
