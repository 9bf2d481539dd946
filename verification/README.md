# A verified model of the MQTT client library in benchmarks/mosquitto-wasm

The project models the client side of the Mosquitto library and the two header-only
containers it uses, and proves that they keep their promises.

- **Delivery of messages** (`Delivery`, `FlowControl`, `Conservation`, `Receipts`,
  `ReceiveQuota`, `Replay`, `Effects`, `ConcreteRuns`, `Client`). The two message queues with their
  quotas form a transition system whose steps are publish, PUBACK, PUBREC, PUBREL, PUBCOMP,
  incoming PUBLISH, CONNACK, loss of the socket and reconnect; a handler that returns an
  error costs the connection. `Delivery` is that system on values; `Client` holds the same
  operations as loops and assignments on the fields of `struct mosquitto`, each proved to
  have the effect of its function, so that the theorems about runs apply to them. `Effects`
  and `Replay` say what each step does in terms of the queues and the log alone. The quota
  and identifier helpers of `util_mosq.c` are modelled as written.
- **Wire format** (`Wire`, `Utf8`, `Property`, `Packet`, `PublishPacket`, `Senders`,
  `Decoders`, `PropertyTable`, `Layouts`).
  For each field, property list and packet there is a writer and a reader, and a theorem
  that the reader accepts exactly what the writer produces. The packet cursor is a class
  whose methods are proved against these functions. The unsigned 32-bit counter of
  property__read_all is modelled with its wrap-around. `PropertyTable` and `Layouts` say
  which bytes these are, without the readers and writers.
- **Framing and output queue** (`Framing`, `OutQueue`). The socket is a schedule of partial
  transfers and errors; the resumable reader equals a one-shot parser, and the linked list
  of outgoing packets neither loses, repeats nor reorders a byte; both go on as long as the
  socket moves bytes.
- **uthash** (`HashArithmetic`, `HashTable`) and **utlist** (`MergeSort`, `UtList`).
  The hash index refines a map through every operation; the list macros, the relinking of
  the lists inside a hash table, and the merge sort work on linked nodes and refine
  operations on sequences.
- **Reconnect back-off** (`Backoff`), with its 32-bit product.

`dafny verify dfyconfig.toml` checks everything.

## Where the code does not do what it should

Each of these comes with a concrete counterexample or an exact condition.

- A CONNACK that lowers the receive maximum below the position of an acknowledged QoS 2
  message makes the client publish that message again (`FlowControl.ConnackSetsBackIff`,
  `ConcreteRuns.LoweredMaximumPublishesAgain`). One that raises it leaves messages waiting
  although there is quota (`FlowControl.ConnackFlowIff`,
  `ConcreteRuns.RaisedMaximumLeavesWaiting`).
- An acknowledgement for an unknown identifier raises the send quota
  (`FlowControl.StrayAckIff`).
- handle__publish does not look for a pending message with the same identifier, so a
  repeated PUBLISH leads to a stale delivery (`Conservation.PubrelDeliversNewestIff`,
  `Receipts.DistinctIff`, `ConcreteRuns.StaleDelivery`).
- A PUBREL for an identifier that is not pending raises the receive quota, and more messages
  may become pending than the receive maximum allows; so does a CONNECT that names a maximum
  below what is pending (`ReceiveQuota.StepCountedIff`,
  `ConcreteRuns.StrayPubrelExceedsMaximum`).
- packet__read loses its place in a packet with a zero command byte when it blocks after that
  byte, inside the length field or inside the body (`Framing.ResumesIff`,
  `Framing.ZeroCommandForgotten`).
- send__real_publish drops a property list of 2^28 bytes or more but still writes its
  length, so the packet does not fit its buffer (`PublishPacket.WriteBody`,
  `PublishPacket.DroppedMessage`).
- send__connect adds up strings of more than 65535 bytes in full and writes them with their
  length cast to 16 bits, so the packet does not fill its buffer (`Senders.SendConnect`).
- The 32-bit sum of the topic lengths in send__subscribe and send__unsubscribe may wrap
  (`Senders.SendSubscription`).
- packet__check_oversize leaves the command byte out of its sum, so a packet one byte longer
  than the broker's maximum packet size is sent (`Layouts.WithinMaximumIff`,
  `Layouts.OneByteTooLong`).
- A message that a raised maximum has left waiting below it is not sent by the replay after
  a reconnect when it is of QoS 2, while one of QoS 1 is (`Replay.OneEntryEachIff`).
- A reason string is let through as a will property, and a subscription identifier of zero
  anywhere (`PropertyTable.AllowedColumns`, `PropertyTable.RefusedValues`), although sections
  3.1.3.2 and 3.3.2.3.8 of MQTT v5.0 exclude them.
- handle__disconnect refuses the empty DISCONNECT that send__disconnect produces
  (`Decoders.DisconnectRoundTripIff`).
- With a large maximum the back-off product wraps, and unless the wrapped product is still
  over the maximum a delay is too short, down to zero (`Backoff.DelaysAsMeantIff`,
  `Backoff.LargeMaximumWraps`).

## Hypotheses of the run theorems

- `FlowControl.Legal`: calls of send__publish succeed while the socket is open; an
  acknowledgement that reaches the queue is for a message that has been sent, or, as
  `FlowControl.StrayAckIff` allows, for none while the quota is at its maximum; a CONNACK
  changes the receive maximum only where the two `Connack...Iff` lemmas allow it. Packets
  that are refused are allowed. Every clause can be checked from the session before the step.
- `Conservation` has no hypothesis on the steps at all.
- `Receipts.Fresh` and `ReceiveQuota.Allowed` are the exact conditions of
  `Receipts.DistinctIff` and `ReceiveQuota.StepCountedIff`; they speak of identifiers that
  are pending and of the maximum named, not of the quota.

## Model

| member | source | states |
|---|---|---|
| FlowControl.NeverBackwards | benchmarks/mosquitto-wasm/lib/messages_mosq.c:140-220 | QoS 2 never goes backwards (section 4.3.3 of MQTT v5.0), over any number of legal steps: once a message has passed its PUBREC, the rest of the run contains no call of send__publish for it, through disconnects, refused packets, offline publishes, reconnects and CONNACKs; the flow-control invariant holds at the end |
| FlowControl.AcknowledgedForGood | benchmarks/mosquitto-wasm/lib/messages_mosq.c:163-188 | the same for a run of a new client, cut at any point: a message past its PUBREC there is never published again and never set back |
| FlowControl.ConnectedFlow | benchmarks/mosquitto-wasm/lib/messages_mosq.c:192-220 | Section 4.9 of MQTT v5.0, at every step boundary of a run from a new client while connected: exactly the oldest `maximum - quota` messages are not Invalid, and a positive quota leaves none waiting |
| FlowControl.StepKeeps | benchmarks/mosquitto-wasm/lib/messages_mosq.c:140-220 | every legal step, also one whose packet is refused and costs the connection, keeps the invariant that ties list position, message state and quota, and publishes no acknowledged message |
| FlowControl.ReleaseFills | benchmarks/mosquitto-wasm/lib/messages_mosq.c:200-214 | with an open socket the release loop sends the oldest waiting messages until the quota or the list is used up, and nothing else changes |
| FlowControl.ReleaseGivesUp | benchmarks/mosquitto-wasm/lib/messages_mosq.c:207-211 | with a closed socket the loop marks exactly the first waiting message as sent, keeps the quota, and reports the failure, for every list and quota |
| FlowControl.ReleaseIsSilent | benchmarks/mosquitto-wasm/lib/messages_mosq.c:192-220 | the release loop never hands an acknowledged message to send__publish |
| FlowControl.CompleteKeeps | benchmarks/mosquitto-wasm/lib/handle_pubackcomp.c:137-158 | removing an acknowledged message and returning its quota unit leaves a state from which one release restores the invariant |
| FlowControl.AckKeeps | benchmarks/mosquitto-wasm/lib/handle_pubackcomp.c:41-162 | PUBACK and PUBCOMP, decodable or not, keep the invariant and publish no acknowledged message, although the quota is raised before decoding |
| FlowControl.StrayAckIff | benchmarks/mosquitto-wasm/lib/handle_pubackcomp.c:60-62 | a PUBACK or PUBCOMP for an unknown identifier keeps the invariant if and only if the quota is already at the maximum |
| FlowControl.ClosingKeeps | benchmarks/mosquitto-wasm/lib/loop.c:326-350 | closing the socket after an error keeps the invariant whatever has become of the quota |
| FlowControl.PubrecKeeps | benchmarks/mosquitto-wasm/lib/handle_pubrec.c:104-130 | PUBREC, accepted or rejected, keeps the invariant and publishes no acknowledged message; an unknown identifier or a QoS 1 message is tolerated |
| FlowControl.OfflinePublishKeeps | benchmarks/mosquitto-wasm/lib/actions.c:111-163 | publishing while disconnected marks messages beyond the in-flight prefix at most, none of them as acknowledged |
| FlowControl.RecountIsIdentity | benchmarks/mosquitto-wasm/lib/handle_connack.c:112-113 | the recount at CONNACK changes neither message states nor the quota when the maximum is unchanged |
| FlowControl.RetryIsSilent | benchmarks/mosquitto-wasm/lib/messages_mosq.c:288-310 | the replay sends PUBREL, never PUBLISH, for an acknowledged message |
| FlowControl.ReconnectKeeps | benchmarks/mosquitto-wasm/lib/messages_mosq.c:163-188 | the reset at reconnect sets back no acknowledged message: all of them sit below the maximum |
| FlowControl.ConnackSetsBackIff | benchmarks/mosquitto-wasm/lib/handle_connack.c:108-113 | for any session: a CONNACK with a receive maximum leaves every acknowledged message acknowledged if and only if none sits at or beyond that maximum |
| FlowControl.ConnackFlowIff | benchmarks/mosquitto-wasm/lib/handle_connack.c:108-113 | the invariant survives a changed receive maximum if and only if it is not raised while messages wait beyond the old one |
| ConcreteRuns.LoweredMaximumPublishesAgain | benchmarks/mosquitto-wasm/lib/handle_connack.c:108-113 | a run of a new client in which a CONNACK after a lost connection lowers the maximum, and a message that has passed its PUBREC is published again: the condition on CONNACK is needed |
| ConcreteRuns.RaisedMaximumLeavesWaiting | benchmarks/mosquitto-wasm/lib/handle_connack.c:108-113 | a run of a new client in which a CONNACK raises the maximum, and a message keeps waiting although there is quota |
| Conservation.StepConserves | benchmarks/mosquitto-wasm/lib/messages_mosq.c:122-189 | with no assumption on broker or network, every step keeps each message accounted for exactly once, both queues in publish order, and queue_len the length of its list |
| Conservation.OutgoingConserved | benchmarks/mosquitto-wasm/lib/handle_pubackcomp.c:137-158 | in every run from a new client, each message given to a QoS > 0 publish is either still queued, in publish order, or was reported complete exactly once, never both; queue_len is exact for both queues |
| Conservation.ReceiptsConserved | benchmarks/mosquitto-wasm/lib/handle_pubrel.c:109-136 | in every run, each stored incoming QoS 2 message is pending, was delivered once, or was dropped with its PUBCOMP unsent |
| Conservation.PubrelDeliversNewestIff | benchmarks/mosquitto-wasm/lib/handle_publish.c:158-166 | PUBREL delivers the message last stored for its identifier if and only if that is the only one pending for it |
| Receipts.PubrelDeliversStored | benchmarks/mosquitto-wasm/lib/handle_pubrel.c:109-136 | in every run of a new client that stores no message under a pending identifier: a stored message is delivered by the first PUBREL for its identifier, whatever steps come between, and its identifier is free afterwards |
| Receipts.PubrelDeliversNothing | benchmarks/mosquitto-wasm/lib/handle_pubrel.c:109-136 | a PUBREL for an identifier that is not pending, such as a repeated one, answers PUBCOMP and delivers nothing |
| Receipts.DistinctIff | benchmarks/mosquitto-wasm/lib/handle_publish.c:158-166 | pending identifiers stay distinct in a step if and only if it does not store a message under a pending one |
| Receipts.RunDistinct | benchmarks/mosquitto-wasm/lib/handle_publish.c:158-166 | so they stay distinct in every run without such a step |
| ConcreteRuns.StaleDelivery | benchmarks/mosquitto-wasm/lib/handle_publish.c:158-166 | a run of a new client in which a PUBLISH repeated before its PUBREL makes a later PUBREL deliver the old copy instead of the next message |
| Conservation.CopiesRemoved | benchmarks/mosquitto-wasm/lib/messages_mosq.c:223-276 | taking one message out of a queue changes the count of that message only |
| Conservation.OnlyQos2IsIdentity | benchmarks/mosquitto-wasm/lib/messages_mosq.c:146-160 | the deletion loop of the reset keeps a msgs_in queue that holds only QoS 2 messages as it is |
| ReceiveQuota.StepCountedIff | benchmarks/mosquitto-wasm/lib/send_mosq.c:70-107 | for MQTT v5.0: a step keeps the number of pending messages within the receive maximum, and the quota of a live connection equal to the room left, if and only if it is not a PUBREL for an identifier that is not pending (while others are) and not a CONNECT naming a maximum below what is pending |
| ReceiveQuota.PubrelCountedIff | benchmarks/mosquitto-wasm/lib/handle_pubrel.c:109-115 | the quota returned by PUBCOMP is right exactly when the PUBREL finds its message, nothing is pending, or the connection is lost |
| ReceiveQuota.ReconnectCountedIff | benchmarks/mosquitto-wasm/lib/send_connect.c:71-80 | a receive maximum named in CONNECT is kept exactly when no more messages than that are pending |
| ReceiveQuota.ConnackCounted | benchmarks/mosquitto-wasm/lib/handle_connack.c:112-113 | the recount at CONNACK makes the quota right again, whatever send__connect has set it to |
| ReceiveQuota.PendingWithinMaximum | benchmarks/mosquitto-wasm/lib/handle_publish.c:72-79 | in every run of such steps, with any number of reconnects that name a receive maximum, no more messages are pending than the maximum in force |
| ConcreteRuns.StrayPubrelExceedsMaximum | benchmarks/mosquitto-wasm/lib/send_mosq.c:82-93 | a run of a new client in which a PUBREL for an unknown identifier lets two messages be pending under a receive maximum of one |
| Replay.ReplaySendsAgain | benchmarks/mosquitto-wasm/lib/messages_mosq.c:163-188 | replay, after any run of a new client whatever: when a connection has been opened and accepted, every outgoing message below the maximum has been sent again, in queue order and marked as a duplicate, PUBREL for a QoS 2 message past its PUBREC and PUBLISH for every other one, except QoS 2 messages that have never been sent; messages beyond the maximum wait; nothing else is logged |
| Replay.OneEntryEachIff | benchmarks/mosquitto-wasm/lib/messages_mosq.c:173-182 | the replay adds exactly one entry for each message below the maximum if and only if none of them is a QoS 2 message that is still waiting; `ConcreteRuns.RaisedMaximumLeavesWaiting` is a run after which one is |
| Replay.LegalReplay | benchmarks/mosquitto-wasm/lib/messages_mosq.c:278-314 | in the runs of `FlowControl.NeverBackwards` there is exactly one entry for each message below the maximum, in queue order |
| Replay.OpeningReopens | benchmarks/mosquitto-wasm/lib/connect.c:158-228 | opening a connection: the state of each outgoing message, by position, QoS and former state; queue length and quota recounted; nothing is sent yet |
| Replay.AcceptingSends | benchmarks/mosquitto-wasm/lib/handle_connack.c:108-137 | accepting it: the client is active, and the replay goes through the queue as the reset has left it |
| Replay.RunShapes | benchmarks/mosquitto-wasm/lib/messages_mosq.c:140-220 | in every run a QoS 1 message is never in a state of QoS 2, or the other way round |
| Replay.ConnackRefused | benchmarks/mosquitto-wasm/lib/handle_connack.c:116-137 | any reason but 0 replays nothing, changes no state and costs the connection; 1 to 5 is a refusal, the rest a protocol error |
| Replay.NotOpened | benchmarks/mosquitto-wasm/lib/connect.c:158-228 | a reconnect that fails resets the queues in the same way, sends nothing and leaves no socket |
| Replay.PendingKept | benchmarks/mosquitto-wasm/lib/messages_mosq.c:145-161 | a reconnect keeps every pending incoming message, in order, and sets the receive quota by the maximum named or by what is pending |
| Replay.ConnackRecounts | benchmarks/mosquitto-wasm/lib/handle_connack.c:108-113 | CONNACK recounts both queues: lengths, quotas and the maximum it names |
| Effects.PubrecRejected | benchmarks/mosquitto-wasm/lib/handle_pubrec.c:104-121 | MQTT v5.0, reason 0x80 or above: the message leaves the queue, is reported complete, and no PUBREL is sent; only calls of send__publish follow |
| Effects.PubrecRejectedUnknown | benchmarks/mosquitto-wasm/lib/handle_pubrec.c:104-121 | the same reason for an unknown identifier completes nothing and removes nothing |
| Effects.PubrecAccepted | benchmarks/mosquitto-wasm/lib/handle_pubrec.c:122-130 | any other PUBREC: its message waits for PUBCOMP, exactly one PUBREL with its identifier is sent, and nothing else changes |
| Effects.PubrecAcceptedUnknown | benchmarks/mosquitto-wasm/lib/handle_pubrec.c:122-130 | for an unknown identifier PUBREL is sent all the same, and nothing else happens |
| Effects.AckCompletes | benchmarks/mosquitto-wasm/lib/handle_pubackcomp.c:137-158 | PUBACK and PUBCOMP: the first message with the identifier leaves the queue and is reported complete once; only calls of send__publish follow |
| Effects.AckUnknown | benchmarks/mosquitto-wasm/lib/handle_pubackcomp.c:137-158 | for an unknown identifier nothing is removed or reported |
| Effects.AckReleasesNext | benchmarks/mosquitto-wasm/lib/handle_pubackcomp.c:137-158 | in the runs of `FlowControl.NeverBackwards`: the oldest message beyond the maximum is sent, and it alone; if there is none, the quota goes up by one instead |
| Effects.AckMismatch | benchmarks/mosquitto-wasm/lib/handle_pubackcomp.c:137-158 | an identifier whose message has the other QoS: the connection is lost, the queue kept, and the quota has been raised |
| Effects.AckRefused | benchmarks/mosquitto-wasm/lib/handle_pubackcomp.c:47-62 | before CONNACK, with wrong flags or a wrong body: the connection is lost, and only the wrong body raises the quota |
| Effects.PubrecRefused | benchmarks/mosquitto-wasm/lib/handle_pubrec.c:49-91 | a PUBREC that is refused costs the connection and nothing else |
| Effects.PubrelRefused | benchmarks/mosquitto-wasm/lib/handle_pubrel.c:53-88 | a PUBREL that is refused costs the connection and nothing else |
| Effects.PublishesAtOnce | benchmarks/mosquitto-wasm/lib/actions.c:111-117 | QoS 0: exactly one call of send__publish, the next identifier, and nothing remembered |
| Effects.PublishesOrWaits | benchmarks/mosquitto-wasm/lib/actions.c:118-163 | QoS 1 and 2, in the runs of `FlowControl.NeverBackwards` while connected: the message is queued last and sent in the same call if and only if there is quota; the whole new session is stated |
| Effects.IncomingDelivered | benchmarks/mosquitto-wasm/lib/handle_publish.c:123-157 | an accepted QoS 0 or 1 PUBLISH is delivered in the same step, QoS 1 after PUBACK with its identifier; the whole new session is stated |
| Effects.IncomingStored | benchmarks/mosquitto-wasm/lib/handle_publish.c:158-166 | an accepted QoS 2 PUBLISH is answered by PUBREC and stored last, for one unit of quota; the whole new session is stated |
| Effects.IncomingRefused | benchmarks/mosquitto-wasm/lib/handle_publish.c:72-90 | every other PUBLISH costs the connection and nothing else: before CONNACK, without receive quota in MQTT v5.0, identifier 0, or QoS 3 |
| Effects.LowQosDelivered | benchmarks/mosquitto-wasm/lib/handle_publish.c:123-157 | over whole runs, with any broker: every accepted QoS 0 or 1 PUBLISH is delivered exactly once, in its own step, QoS 1 with exactly one PUBACK carrying its identifier, and there is no other such delivery and no other PUBACK |
| Effects.StepAddsLow | benchmarks/mosquitto-wasm/lib/handle_publish.c:123-157 | what each step adds to the deliveries of QoS 0 and 1 and to the PUBACKs |
| Effects.PubrelHandsOver | benchmarks/mosquitto-wasm/lib/handle_pubrel.c:109-136 | the pending message leaves its queue and is delivered, or dropped when PUBCOMP cannot be sent; one unit of quota comes back; the whole new session is stated |
| Effects.PubrelUnknown | benchmarks/mosquitto-wasm/lib/handle_pubrel.c:109-136 | an unknown identifier gets its PUBCOMP and raises the quota, and nothing else happens |
| ClientModel.Client.MidGenerate | benchmarks/mosquitto-wasm/lib/util_mosq.c:147-167 | the next identifier: 1 after 65535, otherwise one more; never zero |
| ClientModel.Client.IncrementSendQuota | benchmarks/mosquitto-wasm/lib/util_mosq.c:228-233 | the quota is raised below the maximum only; nothing else changes |
| ClientModel.Client.DecrementSendQuota | benchmarks/mosquitto-wasm/lib/util_mosq.c:243-248 | the quota is lowered above zero only; nothing else changes |
| ClientModel.Client.IncrementReceiveQuota | benchmarks/mosquitto-wasm/lib/util_mosq.c:221-226 | the same for the receive side |
| ClientModel.Client.DecrementReceiveQuota | benchmarks/mosquitto-wasm/lib/util_mosq.c:236-241 | the same for the receive side |
| ClientModel.Client.ReleaseToInflight | benchmarks/mosquitto-wasm/lib/messages_mosq.c:192-220 | the loop that updates list, quota and log in place has the effect of the function the theorems are about, for any number of sends that succeed |
| ClientModel.Client.Remove | benchmarks/mosquitto-wasm/lib/messages_mosq.c:223-276 | NotFound, Protocol or Success as the first message with the identifier decides; on success that message, and it alone, leaves its queue |
| ClientModel.Client.OutUpdate | benchmarks/mosquitto-wasm/lib/messages_mosq.c:323-343 | only the first message with the identifier changes, and only if its QoS fits |
| ClientModel.Client.ResetReceived | benchmarks/mosquitto-wasm/lib/messages_mosq.c:145-161 | the in-place deletion loop keeps exactly the QoS 2 messages, in order, and recounts quota and length |
| ClientModel.Client.ResetSent | benchmarks/mosquitto-wasm/lib/messages_mosq.c:164-188 | the in-place loop sets every message to its replay state, or to Invalid beyond the maximum, and recounts quota and length |
| ClientModel.Client.ReconnectReset | benchmarks/mosquitto-wasm/lib/messages_mosq.c:140-189 | both halves together equal the function on sessions |
| ClientModel.Client.RetryMessages | benchmarks/mosquitto-wasm/lib/messages_mosq.c:278-314 | the replay loop resends each message by its state, in queue order, with DUP set |
| ClientModel.Client.PublishMessage | benchmarks/mosquitto-wasm/lib/actions.c:111-163 | the new session is the one of the function the theorems are about, the identifier stays in range, and the result is an error exactly when the last thing done was a send__publish that failed |
| ClientModel.Client.HandlePubackComp | benchmarks/mosquitto-wasm/lib/handle_pubackcomp.c:41-162 | session and return code as in the transition system, including the quota raised before decoding |
| ClientModel.Client.HandlePubrec | benchmarks/mosquitto-wasm/lib/handle_pubrec.c:40-134 | session and return code as in the transition system, for accepted, rejected and unknown identifiers |
| ClientModel.Client.HandlePublish | benchmarks/mosquitto-wasm/lib/handle_publish.c:38-173 | session and return code as in the transition system, for each QoS and each refusal |
| ClientModel.Client.HandlePubrel | benchmarks/mosquitto-wasm/lib/handle_pubrel.c:41-142 | session and return code as in the transition system, with PUBCOMP sent or not |
| ClientModel.Client.HandleConnack | benchmarks/mosquitto-wasm/lib/handle_connack.c:59-137 | session and return code as in the transition system: recount, then state, then replay |
| ClientModel.Client.ReconnectClient | benchmarks/mosquitto-wasm/lib/connect.c:158-228 | the session of each outcome of mosquitto__reconnect |
| ClientModel.Client.QueueMessage | benchmarks/mosquitto-wasm/lib/actions.c:111-160 | the new message waits at the end of the queue under a fresh identifier |
| ClientModel.Client.RejectPublish | benchmarks/mosquitto-wasm/lib/handle_pubrec.c:106-121 | removal if there is something to remove, and in any case a returned quota unit and a release |
| ClientModel.Client.CloseOnError | benchmarks/mosquitto-wasm/lib/loop.c:326-350 | an error return costs the connection and nothing else |
| ClientModel.Client.ReadOne | benchmarks/mosquitto-wasm/lib/loop.c:371-383 | reading one packet takes the client through exactly one step of the transition system, for every kind of packet and every outcome |
| Wire.VarintExact | benchmarks/mosquitto-wasm/lib/packet_datatypes.c:204-257 | section 1.5.5 of MQTT v5.0: reading yields n if and only if n < 2^28 and the input starts with the shortest encoding of n; so values and accepted encodings are in bijection |
| Wire.VarintSize | benchmarks/mosquitto-wasm/lib/packet_datatypes.c:260-273 | packet__varint_bytes is the number of bytes written, for every 32-bit value |
| Wire.DigitsSound | benchmarks/mosquitto-wasm/lib/packet_datatypes.c:204-234 | whatever the digit loop accepts is a shortest encoding of what it returns |
| Wire.DigitsComplete | benchmarks/mosquitto-wasm/lib/packet_datatypes.c:204-234 | every shortest encoding that fits is accepted and gives its value back |
| Wire.Uint16Exact | benchmarks/mosquitto-wasm/lib/packet_datatypes.c:151-173 | reading inverts writing and accepts nothing else |
| Wire.Uint32Exact | benchmarks/mosquitto-wasm/lib/packet_datatypes.c:176-201 | reading inverts writing and accepts nothing else |
| Wire.BinaryExact | benchmarks/mosquitto-wasm/lib/packet_datatypes.c:93-121 | a length-prefixed field is read exactly when the input starts with its encoding |
| Wire.StringExact | benchmarks/mosquitto-wasm/lib/packet_datatypes.c:124-148 | the same for strings, which must also be valid UTF-8 |
| PacketModel.Packet.ReadByte | benchmarks/mosquitto-wasm/lib/packet_datatypes.c:49-58 | value and cursor, or a malformed packet, as the byte reader on the unread rest says |
| PacketModel.Packet.ReadBytes | benchmarks/mosquitto-wasm/lib/packet_datatypes.c:71-80 | the next `count` bytes, or a malformed packet exactly when fewer are left |
| PacketModel.Packet.ReadUint16 | benchmarks/mosquitto-wasm/lib/packet_datatypes.c:151-166 | agrees with the reader of `Wire.Uint16Exact` |
| PacketModel.Packet.ReadUint32 | benchmarks/mosquitto-wasm/lib/packet_datatypes.c:176-192 | agrees with the reader of `Wire.Uint32Exact` |
| PacketModel.Packet.ReadBinary | benchmarks/mosquitto-wasm/lib/packet_datatypes.c:93-121 | agrees with the reader of `Wire.BinaryExact` |
| PacketModel.Packet.ReadString | benchmarks/mosquitto-wasm/lib/packet_datatypes.c:124-140 | agrees with the reader of `Wire.StringExact`, by way of the loops of mosquitto_validate_utf8 |
| PacketModel.Packet.ReadVarint | benchmarks/mosquitto-wasm/lib/packet_datatypes.c:204-234 | the accumulating loop agrees with the reader of `Wire.VarintExact` and reports the canonical size |
| PacketModel.Packet.WriteByte | benchmarks/mosquitto-wasm/lib/packet_datatypes.c:61-68 | one byte is appended and the cursor stays inside the buffer |
| PacketModel.Packet.WriteBytes | benchmarks/mosquitto-wasm/lib/packet_datatypes.c:83-90 | the bytes are appended |
| PacketModel.Packet.WriteUint16 | benchmarks/mosquitto-wasm/lib/packet_datatypes.c:169-173 | appends the encoding `Wire.Uint16Exact` reads back |
| PacketModel.Packet.WriteUint32 | benchmarks/mosquitto-wasm/lib/packet_datatypes.c:195-201 | appends the encoding `Wire.Uint32Exact` reads back |
| PacketModel.Packet.WriteString | benchmarks/mosquitto-wasm/lib/packet_datatypes.c:143-148 | appends the encoding `Wire.BinaryExact` reads back |
| PacketModel.Packet.WriteVarint | benchmarks/mosquitto-wasm/lib/packet_datatypes.c:237-257 | appends the shortest encoding; reports failure exactly from 2^28 on |
| PacketModel.Packet.RemainingBytes | benchmarks/mosquitto-wasm/lib/packet_mosq.c:60-72 | the digits of packet__alloc are the shortest encoding, as many as packet__varint_bytes says |
| PacketModel.Packet.Alloc | benchmarks/mosquitto-wasm/lib/packet_mosq.c:50-87 | refused exactly from 2^28 on; otherwise the buffer starts with the fixed header and has room for exactly remaining_length bytes |
| Property.ReadAllExact | benchmarks/mosquitto-wasm/lib/property_mosq.c:152-194 | both round trips at once, for every body below 2^28 bytes: property__read_all returns a list and a rest if and only if the body is what property__write_all produces for that list, followed by that rest, and the list passes the checks; so it consumes exactly the declared bytes although the counter may wrap |
| Property.ReadLoopSound | benchmarks/mosquitto-wasm/lib/property_mosq.c:158-176 | the unguarded 32-bit counter never wraps on success: the declared length is the sum of the lengths of the properties read, and re-encoding gives back the bytes consumed |
| Property.ReadLoopComplete | benchmarks/mosquitto-wasm/lib/property_mosq.c:158-176 | every encodable list of matching total length is read back |
| Property.PropertyExact | benchmarks/mosquitto-wasm/lib/property_mosq.c:36-149 | a single property is read exactly when the input starts with its encoding |
| Property.ValueExact | benchmarks/mosquitto-wasm/lib/property_mosq.c:60-146 | the same for the value of each of the identifiers |
| Property.PairExact | benchmarks/mosquitto-wasm/lib/property_mosq.c:125-141 | the same for user properties, both strings |
| Property.PutLength | benchmarks/mosquitto-wasm/lib/property_mosq.c:264-331 | property__get_length is the number of bytes property__write produces |
| Property.PutAllLength | benchmarks/mosquitto-wasm/lib/property_mosq.c:334-347 | property__get_length_all is the number of bytes property__write_all produces after its length field |
| Property.RemainingLength | benchmarks/mosquitto-wasm/lib/property_mosq.c:350-357 | property__get_remaining_length is the number of bytes property__read_all consumes |
| Property.CheckAllMeaning | benchmarks/mosquitto-wasm/lib/property_mosq.c:927-978 | a list passes exactly when each property is allowed on the command with an allowed value and no identifier other than the user property occurs twice |
| Property.CheckProperties | benchmarks/mosquitto-wasm/lib/property_mosq.c:927-978 | the nested loops give the verdict of the first faulty property |
| Property.SumLengths | benchmarks/mosquitto-wasm/lib/property_mosq.c:334-347 | the summing loop gives the length that `Property.PutAllLength` relates to the bytes written |
| PacketModel.Packet.ReadProperty | benchmarks/mosquitto-wasm/lib/property_mosq.c:36-149 | the cursor reader agrees with the reader of `Property.PropertyExact`, and the caller's counter drops, modulo 2^32, by the encoded length |
| PacketModel.Packet.ReadProperties | benchmarks/mosquitto-wasm/lib/property_mosq.c:152-194 | the loop agrees with the reader of `Property.ReadAllExact`, and terminates for every input |
| PacketModel.Packet.WriteProperty | benchmarks/mosquitto-wasm/lib/property_mosq.c:360-423 | appends the encoding `Property.PropertyExact` reads back, within property__get_length bytes |
| PacketModel.Packet.WriteProperties | benchmarks/mosquitto-wasm/lib/property_mosq.c:426-444 | appends the encoding of the whole list, with or without its length field, within the precomputed space |
| PropertyTable.ReadsTable | benchmarks/mosquitto-wasm/lib/property_mosq.c:36-149 | the table of section 2.2.2.2 of MQTT v5.0 on bytes: property__read yields a property and a rest if and only if the input is one of the 27 identifiers in one byte, the bytes of a value of its type (one byte, two or four bytes by powers of 256, base-128 digits, a length and as many bytes, twice that for the pair), and the rest |
| PropertyTable.WritesTable | benchmarks/mosquitto-wasm/lib/property_mosq.c:360-423 | a property has such bytes if and only if it can be written, and then property__write writes them |
| PropertyTable.NoOtherRow | benchmarks/mosquitto-wasm/lib/property_mosq.c:143-145 | every other first byte is refused as malformed, whatever follows |
| PropertyTable.OneByteRows | benchmarks/mosquitto-wasm/lib/property_mosq.c:60-73 | the eight identifiers with a one-byte value |
| PropertyTable.TwoByteRows | benchmarks/mosquitto-wasm/lib/property_mosq.c:75-83 | the four identifiers with a two-byte value, most significant byte first |
| PropertyTable.FourByteRows | benchmarks/mosquitto-wasm/lib/property_mosq.c:85-93 | the four identifiers with a four-byte value, most significant byte first |
| PropertyTable.VarintRow | benchmarks/mosquitto-wasm/lib/property_mosq.c:95-100 | the subscription identifier, in one to four digits without a leading zero |
| PropertyTable.BinaryRows | benchmarks/mosquitto-wasm/lib/property_mosq.c:116-123 | the two identifiers with binary data |
| PropertyTable.StringRows | benchmarks/mosquitto-wasm/lib/property_mosq.c:102-114 | the seven identifiers with a string; one that is not valid UTF-8 has an error of its own |
| PropertyTable.PairRow | benchmarks/mosquitto-wasm/lib/property_mosq.c:125-141 | the user property, both strings |
| PropertyTable.ReadsListTable | benchmarks/mosquitto-wasm/lib/property_mosq.c:152-194 | property__read_all yields a list and a rest if and only if the body is a length in one to four digits, exactly that many bytes holding the properties one after the other, and the rest, and the list passes the checks |
| PropertyTable.WritesListTable | benchmarks/mosquitto-wasm/lib/property_mosq.c:426-444 | property__write_all writes such bytes, for every list whose properties can be written and are shorter than 2^28 bytes in all |
| PropertyTable.AllowedColumns | benchmarks/mosquitto-wasm/lib/property_mosq.c:447-538 | the table the other way round: for each packet type, and for the will, the identifiers allowed on it |
| PropertyTable.RefusedValues | benchmarks/mosquitto-wasm/lib/property_mosq.c:934-958 | the values refused on every packet: switches above one, and a maximum packet size, receive maximum or topic alias of zero; nothing else |
| PropertyTable.FirstFault | benchmarks/mosquitto-wasm/lib/property_mosq.c:927-978 | the first faulty property of a list decides the error, and which fault it has decides between protocol error and duplicate property |
| Utf8.ValidIff | benchmarks/mosquitto-wasm/lib/utf8_mosq.c:24-111 | a string is let through if and only if it is the encoding, in the shortest form, of a sequence of Unicode scalar values that are neither control characters nor noncharacters |
| Utf8.EncodingInjective | benchmarks/mosquitto-wasm/lib/utf8_mosq.c:24-111 | no string is the encoding of two such sequences |
| Utf8.Validate | benchmarks/mosquitto-wasm/lib/utf8_mosq.c:24-111 | the nested loops give that verdict and read no byte behind the terminating zero, although the test for missing bytes is an equation that lets some truncated sequences through |
| Utf8.ReadCodepoint | benchmarks/mosquitto-wasm/lib/utf8_mosq.c:33-110 | one turn of the loop: bytes missing, a wrong continuation byte or a code point that is not allowed |
| Layouts.PublishReads | benchmarks/mosquitto-wasm/lib/handle_publish.c:56-115 | handle__publish yields a message if and only if the body is, byte by byte, the PUBLISH of section 3.3 with that message, the command byte has its flags, and it passes the checks |
| Layouts.PublishWritten | benchmarks/mosquitto-wasm/lib/send_publish.c:196-218 | send__real_publish writes these bytes and no others |
| Layouts.AckReads | benchmarks/mosquitto-wasm/lib/handle_pubackcomp.c:64-117 | the handlers of PUBACK, PUBREC, PUBREL and PUBCOMP understand exactly these bodies: two bytes of identifier other than zero, then in MQTT v5.0 at most a reason code listed in the section of that packet and at most one list that passes the checks |
| Layouts.AckWritten | benchmarks/mosquitto-wasm/lib/send_mosq.c:121-163 | the bytes send__command_with_mid writes: a reason code of zero is left out when nothing follows it |
| Layouts.FrameReads | benchmarks/mosquitto-wasm/lib/packet_mosq.c:372-451 | a command byte, a remaining length in one to four digits and as many bytes are cut out of the stream, whatever follows |
| Layouts.FrameWritten | benchmarks/mosquitto-wasm/lib/packet_mosq.c:50-87 | packet__alloc and the write functions produce exactly these bytes |
| Layouts.FifthDigit | benchmarks/mosquitto-wasm/lib/packet_mosq.c:418-424 | a fourth length digit with its top bit set is rejected as soon as one more byte is there |
| Layouts.SubscriptionWritten | benchmarks/mosquitto-wasm/lib/send_subscribe.c:75-88 | SUBSCRIBE and UNSUBSCRIBE byte by byte: identifier, properties in MQTT v5.0, and each topic filter with its length and options |
| Layouts.ConnectWritten | benchmarks/mosquitto-wasm/lib/send_connect.c:145-202 | CONNECT byte by byte for the three versions: protocol name and level, flags, keep-alive, properties, client identifier, will, user name, password, in that order |
| Layouts.WithinMaximumIff | benchmarks/mosquitto-wasm/lib/packet_mosq.c:196-208 | packet__check_oversize refuses a packet if and only if it is more than one byte too long; so a packet it lets through is within the maximum unless remaining length and its digits come to exactly the maximum |
| Layouts.OneByteTooLong | benchmarks/mosquitto-wasm/lib/send_publish.c:176-178 | a message of which send__real_publish makes a packet of six bytes although the maximum is five |
| HashSpec.BucketIsRemainder | benchmarks/mosquitto-wasm/deps/uthash.h:438-441 | the bucket of a hash value is its remainder by the number of buckets |
| HashSpec.ExcessComplement | benchmarks/mosquitto-wasm/deps/uthash.h:946-947 | nonideal_items is the number of elements less what the buckets hold within the ideal length |
| Framing.Reader.ReadDigit | benchmarks/mosquitto-wasm/lib/packet_mosq.c:413-451 | one byte of the length field, or the reason why there is none |
| Framing.Reader.ReadCommand | benchmarks/mosquitto-wasm/lib/packet_mosq.c:372-401 | the command byte, if it has not been read yet, or the reason why there is none |
| Framing.Reader.ReadRest | benchmarks/mosquitto-wasm/lib/packet_mosq.c:402-539 | length and body: complete, malformed, or stopped by the last answer of net__read |
| OutQueue.Sender.WriteSome | benchmarks/mosquitto-wasm/lib/packet_mosq.c:248-276 | one call of net__write for the rest of the current packet: as many bytes as the socket takes, no more than are left, or the reason why none |
| OutQueue.Sender.WriteAll | benchmarks/mosquitto-wasm/lib/packet_mosq.c:244-328 | the loop over the packets: how far it gets and how much of the schedule it uses |
| OutQueue.Sender.AllWritten | benchmarks/mosquitto-wasm/lib/packet_mosq.c:244-328 | when nothing is left over, the bytes accepted are exactly those of all packets queued, and on_publish has been called for exactly the QoS 0 PUBLISH packets, in order |
| OutQueue.FirstBytes | benchmarks/mosquitto-wasm/lib/packet_mosq.c:279-300 | the command bytes that lead to on_publish, and those that end the connection |
| Framing.Reader.Pump | benchmarks/mosquitto-wasm/lib/loop.c:353-385 | chunk independence and progress: for every input and every schedule of partial reads, blocks, errors and ends of file in which no call stops inside a packet with a zero command byte, the packets handed on so far and the rejection of a fifth length byte are those of the one-shot parser on the whole stream; with non-zero packet starts no call does; and when every answer delivers a byte, enough calls read the whole stream |
| Framing.Reader.ReadPacket | benchmarks/mosquitto-wasm/lib/packet_mosq.c:339-562 | one call from any state between calls keeps what has been and will be handled, unless it stops inside a packet with a zero command byte; it completes a packet, or it has stopped because of the last answer of net__read, which decides the return code |
| Framing.Reader.ReadLength | benchmarks/mosquitto-wasm/lib/packet_mosq.c:413-451 | resuming the length field at any digit gives the same length or the same rejection, for any answers of net__read, and it stops short only because of the last one |
| Framing.Reader.ReadBody | benchmarks/mosquitto-wasm/lib/packet_mosq.c:502-539 | resuming the body at any byte gives the same packet, for any partial reads and errors, and it stops short only because of the last answer |
| Framing.ResumesIff | benchmarks/mosquitto-wasm/lib/packet_mosq.c:372-375 | at each place where packet__read can stop, after the command byte, inside the length field or inside the body, it goes on as the one-shot parser for every continuation if and only if the command byte is not zero |
| Framing.ZeroCommandForgotten | benchmarks/mosquitto-wasm/lib/packet_mosq.c:372-375 | a concrete reader on the bytes 0, 0 that blocks once: the one-shot parser finds a packet, the reader none |
| Framing.FramesOfStream | benchmarks/mosquitto-wasm/lib/packet_mosq.c:50-87 | for any list of packets as packet__alloc frames them, the parser finds exactly these, in order, and then continues with the rest |
| Framing.LengthOfVarint | benchmarks/mosquitto-wasm/lib/packet_mosq.c:413-451 | the length loop of packet__read inverts the digits loop of packet__alloc |
| OutQueue.PendingBytes | benchmarks/mosquitto-wasm/lib/packet_mosq.c:211-336 | between any two calls, bytes taken by the socket, then the unsent rest of the current packet, then the packets of the list, are all packets queued since the last cleanup, in order |
| OutQueue.Sender.Append | benchmarks/mosquitto-wasm/lib/packet_mosq.c:154-161 | the pointer updates keep list, tail and count consistent and add the packet at the end |
| OutQueue.Sender.Enqueue | benchmarks/mosquitto-wasm/lib/packet_mosq.c:142-162 | FIFO: one more packet is queued, no byte has moved |
| OutQueue.Sender.WriteCurrent | benchmarks/mosquitto-wasm/lib/packet_mosq.c:247-276 | for any partial writes, bytes leave the current packet in order and none is lost or repeated; it is finished, or the answer of net__write that ended the writing is named |
| OutQueue.Sender.Finish | benchmarks/mosquitto-wasm/lib/packet_mosq.c:278-319 | the finished packet is counted once, on_publish is called once if it is a QoS 0 PUBLISH, and the next packet becomes current |
| OutQueue.Sender.TakeNext | benchmarks/mosquitto-wasm/lib/packet_mosq.c:220-228 | the head of the list becomes current; list, tail and count stay consistent |
| OutQueue.Sender.Write | benchmarks/mosquitto-wasm/lib/packet_mosq.c:211-336 | byte conservation and progress: with an open socket packet__write ends with everything queued accepted, with a DISCONNECT as the last packet, or at the first answer that is not a positive number of bytes, would-block giving success and a lost connection the error; every answer before that has moved at least one byte, and the part of the schedule used is stated |
| OutQueue.Sender.Queue | benchmarks/mosquitto-wasm/lib/packet_mosq.c:142-193 | a queued packet is added to what will be sent; deferred, nothing is written yet, and otherwise as much is written as packet__write promises |
| OutQueue.Sender.CleanupAll | benchmarks/mosquitto-wasm/lib/packet_mosq.c:105-128 | nothing is left and the count is zero, although the tail pointer is not reset |
| OutQueue.BytesConcat | benchmarks/mosquitto-wasm/lib/packet_mosq.c:211-336 | the bytes of two queues in a row are the bytes of the first, then of the second |
| OutQueue.LinkedTail | benchmarks/mosquitto-wasm/lib/packet_mosq.c:221-228 | unlinking the head leaves a consistent list, also when it was the last |
| PublishPacket.DecodeExact | benchmarks/mosquitto-wasm/lib/handle_publish.c:56-115 | end to end: handle__publish accepts a body and command byte if and only if they are what send__real_publish builds from an acceptable message, and then decodes that very message, for v3.1.1 and v5.0 |
| PublishPacket.EndToEnd | benchmarks/mosquitto-wasm/lib/send_publish.c:137-220 | the bytes of one PUBLISH, followed by anything, are cut out by packet__read and decode to the message sent |
| PublishPacket.ExactFillIff | benchmarks/mosquitto-wasm/lib/send_publish.c:147-175 | the precomputed length equals the bytes written if and only if a v5.0 property list is shorter than 2^28 bytes |
| PublishPacket.DroppedMessage | benchmarks/mosquitto-wasm/lib/send_publish.c:167-171 | a message that passes every check of mosquitto_publish_v5 and has a longer list |
| PublishPacket.SendPublish | benchmarks/mosquitto-wasm/lib/send_publish.c:137-220 | oversize, payload size or success by the precomputed length alone; on success the writes stay inside the buffer if and only if the list is shorter than 2^28 bytes, and then the cursor ends at its end and it holds exactly the packet |
| PublishPacket.SumSizes | benchmarks/mosquitto-wasm/lib/send_publish.c:147-175 | the accumulated sizes are the ones `PublishPacket.ExactFillIff` speaks of, with the list dropped exactly from 2^28 bytes on |
| PublishPacket.WriteBody | benchmarks/mosquitto-wasm/lib/send_publish.c:196-218 | the writes run out of room if and only if the two lengths of `PublishPacket.ExactFillIff` differ, which includes the dropped list; otherwise they append exactly the body that `PublishPacket.DecodeExact` takes apart |
| PublishPacket.BodyLength | benchmarks/mosquitto-wasm/lib/send_publish.c:147-175 | the body has the precomputed length |
| PublishPacket.PutAllConcat | benchmarks/mosquitto-wasm/lib/send_publish.c:207-213 | writing property lists one after the other is writing their concatenation |
| PublishPacket.CommandExact | benchmarks/mosquitto-wasm/lib/handle_publish.c:58-62 | the flag bits give dup, QoS and retain back |
| PublishPacket.DecodePublish | benchmarks/mosquitto-wasm/lib/handle_publish.c:56-115 | the cursor-moving decoder agrees with the function of `PublishPacket.DecodeExact` on every body, including every refusal |
| Senders.SendConnect | benchmarks/mosquitto-wasm/lib/send_connect.c:37-204 | refusals by version and options; otherwise no write leaves the buffer, and the cursor ends at its end, with the buffer holding exactly the CONNECT, if and only if every string fits its 16-bit length field |
| Senders.TruncatedFits | benchmarks/mosquitto-wasm/lib/send_connect.c:183-202 | what is left of the strings when their lengths are cast to 16 bits can be sent, and is shorter than what was added up unless every string fits |
| Senders.SumConnect | benchmarks/mosquitto-wasm/lib/send_connect.c:71-138 | headerlen plus payloadlen, in every branch, is the number of bytes `Senders.WriteConnect` writes |
| Senders.WriteConnect | benchmarks/mosquitto-wasm/lib/send_connect.c:145-202 | the write calls, given the strings as cast, append exactly the bytes `Decoders.ConnectRoundTrip` takes apart |
| Decoders.ConnectRoundTrip | benchmarks/mosquitto-wasm/lib/send_connect.c:145-202 | a reader following section 3.1 of MQTT v5.0 gets back every field of every CONNECT, for all three versions |
| Decoders.FlagBits | benchmarks/mosquitto-wasm/lib/send_connect.c:158-171 | the connect flags, bit by bit, for every combination of options |
| Decoders.WillReads | benchmarks/mosquitto-wasm/lib/send_connect.c:188-195 | the will fields come back from the payload |
| Senders.SendSubscription | benchmarks/mosquitto-wasm/lib/send_subscribe.c:39-102 | exact fill for SUBSCRIBE, and for UNSUBSCRIBE without the options byte: refused exactly when a topic is too long or the 32-bit sum too large, and the writes stay inside the buffer if and only if the sum has not wrapped |
| Senders.SumTopics | benchmarks/mosquitto-wasm/lib/send_subscribe.c:55-61 | the summing loop gives the bytes of the topic list modulo 2^32, or notices a topic that is too long |
| Senders.WriteTopics | benchmarks/mosquitto-wasm/lib/send_subscribe.c:85-88 | the writing loop appends exactly the topic list if and only if the buffer has room for it |
| Senders.TopicListLength | benchmarks/mosquitto-wasm/lib/send_unsubscribe.c:51-57 | the sum is the number of bytes of the list |
| Decoders.SubscriptionRoundTrip | benchmarks/mosquitto-wasm/lib/send_subscribe.c:75-88 | identifier, properties and every topic filter come back, whatever their number and sizes |
| Decoders.TopicsRoundTrip | benchmarks/mosquitto-wasm/lib/send_unsubscribe.c:85-87 | the topic filters come back in order |
| Senders.SendCommandWithMid | benchmarks/mosquitto-wasm/lib/send_mosq.c:121-163 | exact fill for PUBACK, PUBREC, PUBREL and PUBCOMP in every combination of reason and properties |
| Senders.SendDisconnect | benchmarks/mosquitto-wasm/lib/send_disconnect.c:37-84 | exact fill for DISCONNECT |
| Senders.AckRoundTrip | benchmarks/mosquitto-wasm/lib/handle_pubrec.c:56-91 | an acknowledgement built by send__command_with_mid is decoded to its identifier and reason by the handler of its kind |
| Senders.AckSound | benchmarks/mosquitto-wasm/lib/handle_pubackcomp.c:64-117 | whatever a handler accepts is an identifier, at most a reason code it allows, and at most one checked property list, with no byte left over |
| Decoders.DisconnectRoundTripIff | benchmarks/mosquitto-wasm/lib/handle_disconnect.c:50-58 | handle__disconnect understands a DISCONNECT of send__disconnect if and only if it carries a reason or properties |
| HashIndex.HashTable.Find | benchmarks/mosquitto-wasm/deps/uthash.h:164-174 | the element of a key is found exactly when the map has it, although only one chain is searched |
| HashIndex.HashTable.Add | benchmarks/mosquitto-wasm/deps/uthash.h:404-423 | the element is appended to the list, the map gains its key, and the invariant survives, with or without expansion (links: `UtList.List.AppendApplication`) |
| HashIndex.HashTable.AddInorder | benchmarks/mosquitto-wasm/deps/uthash.h:358-389 | the element is placed before the first greater one; the map gains its key (links: `UtList.List.InsertApplication`) |
| HashIndex.HashTable.InsertionPoint | benchmarks/mosquitto-wasm/deps/uthash.h:294-301 | the scanning loop stops at the first greater element |
| HashIndex.HashTable.AddToTable | benchmarks/mosquitto-wasm/deps/uthash.h:345-353 | the buckets represent the list again after the new element is chained in; the table doubles if and only if the chain has reached ten times its multiplier plus one and expansion has not been switched off, which happens at the second doubling in a row that leaves most elements beyond the ideal length |
| HashIndex.HashTable.Delete | benchmarks/mosquitto-wasm/deps/uthash.h:458-485 | the element leaves list, chain and map, and nothing else does; the last one takes the table with it (links: `UtList.List.DeleteApplication`) |
| HashIndex.HashTable.DeleteFromBucket | benchmarks/mosquitto-wasm/deps/uthash.h:879-892 | the chain without the element represents the list without it (links: `UtList.List.DeleteChain`) |
| HashIndex.HashTable.Replace | benchmarks/mosquitto-wasm/deps/uthash.h:262-270 | the map is updated at the key, the element replaced is returned, and the new one is last in the list |
| HashIndex.HashTable.ExpandBuckets | benchmarks/mosquitto-wasm/deps/uthash.h:923-973 | the doubled table holds exactly the same elements, each in its bucket; ideal_chain_maxlen, nonideal_items, every expand_mult (zero up to the ideal length, then next to the quotient), ineff_expands and noexpand are right |
| HashIndex.HashTable.MoveChain | benchmarks/mosquitto-wasm/deps/uthash.h:941-959 | dealing out one chain keeps contents and statistics right |
| HashIndex.HashTable.Sort | benchmarks/mosquitto-wasm/deps/uthash.h:980-1062 | the list becomes its stable sort; every lookup is unchanged, for any comparison function (links: `UtList.List.Sort`) |
| HashIndex.HashTable.SortPass | benchmarks/mosquitto-wasm/deps/uthash.h:990-1052 | one pass merges neighbouring runs over the whole list and counts the merges |
| HashIndex.MergeRuns | benchmarks/mosquitto-wasm/deps/uthash.h:1007-1047 | the inner loop merges two runs, the first one winning ties |
| HashIndex.HashTable.MakeTable | benchmarks/mosquitto-wasm/deps/uthash.h:220-250 | an empty table of 32 buckets represents the empty list, with expansion switched on |
| HashIndex.HashTable.CountsAddUp | benchmarks/mosquitto-wasm/deps/uthash.h:523-570 | the bucket counts add up to num_items, as HASH_FSCK checks |
| HashSpec.FoundInBucket | benchmarks/mosquitto-wasm/deps/uthash.h:164-174 | an element is in the table exactly when it is in the one chain its hash value selects |
| HashSpec.MapMeaning | benchmarks/mosquitto-wasm/deps/uthash.h:404-423 | the map of a list with distinct keys holds exactly its elements |
| HashSpec.ToMapWithout | benchmarks/mosquitto-wasm/deps/uthash.h:458-485 | removing an element from the list removes its key from the map |
| HashSpec.Rearranged | benchmarks/mosquitto-wasm/deps/uthash.h:980-1062 | a permutation of the list stands for the same map |
| HashSpec.UnionUpdate | benchmarks/mosquitto-wasm/deps/uthash.h:857-892 | changing one bucket changes contents, count and excess by exactly the difference of that bucket |
| HashSpec.MoveOne | benchmarks/mosquitto-wasm/deps/uthash.h:944-957 | moving one element keeps nonideal_items equal to the excess over all buckets and every expand_mult next to the quotient of its count by the ideal length |
| HashSpec.CountsSum | benchmarks/mosquitto-wasm/deps/uthash.h:523-570 | right bucket counts add up to the number of elements |
| HashSpec.InsertionKeepsSorted | benchmarks/mosquitto-wasm/deps/uthash.h:358-389 | in-order insertion keeps a sorted table sorted and puts the new element after its equals |
| HashArithmetic.MaskIsModulo | benchmarks/mosquitto-wasm/deps/uthash.h:438-441 | the mask by num_buckets - 1 and the shift by its logarithm are remainder and quotient |
| HashArithmetic.IdealIsCeiling | benchmarks/mosquitto-wasm/deps/uthash.h:936-938 | the shift-and-mask expression is num_items divided by the new bucket count, rounded up |
| HashArithmetic.SplitBits | benchmarks/mosquitto-wasm/deps/uthash.h:936-938 | shift and mask split every number into high and low bits |
| MergeSort.StableSort | benchmarks/mosquitto-wasm/deps/utlist.h:175-233 | for every total preorder, the result of the merge sort is a sorted, stable permutation of the list |
| MergeSort.SortFromCorrect | benchmarks/mosquitto-wasm/deps/utlist.h:184-231 | from ordered runs of any length the remaining passes reach an ordered list |
| MergeSort.SortFromMultiset | benchmarks/mosquitto-wasm/deps/utlist.h:184-231 | for any comparison function whatever, no element is lost or duplicated |
| MergeSort.PassDoubles | benchmarks/mosquitto-wasm/deps/utlist.h:187-226 | a pass turns ordered runs of length k into ordered runs of length 2k, keeping equal elements in their first order |
| MergeSort.MergeOrdered | benchmarks/mosquitto-wasm/deps/utlist.h:200-222 | merging two ordered runs gives one, the first run winning ties |
| MergeSort.Peel | benchmarks/mosquitto-wasm/deps/utlist.h:200-222 | what one turn of the merge loop leaves to be merged |
| MergeSort.PassStep | benchmarks/mosquitto-wasm/deps/utlist.h:187-226 | what one merge leaves to be done in the pass |
| UtList.List.Sort | benchmarks/mosquitto-wasm/deps/utlist.h:175-309 | the pointer algorithm, for DL_SORT2, for CDL_SORT2 on a circular list, and for the application list of HASH_SRT: the same nodes are relinked into the stable sort of `MergeSort.StableSort`, with next, prev, head and tail links correct |
| UtList.List.AppendApplication | benchmarks/mosquitto-wasm/deps/uthash.h:286-292 | the application list of a table: append, with next, prev and tail correct |
| UtList.List.InsertApplication | benchmarks/mosquitto-wasm/deps/uthash.h:372-384 | the application list: insertion before an element, also at the head, or at the end |
| UtList.List.DeleteApplication | benchmarks/mosquitto-wasm/deps/uthash.h:458-480 | the application list: removal of that one element, also the head, the tail and the last one left |
| UtList.List.PushChain | benchmarks/mosquitto-wasm/deps/uthash.h:861-866 | a bucket chain: the new element comes first, with hh_next and hh_prev correct |
| UtList.List.DeleteChain | benchmarks/mosquitto-wasm/deps/uthash.h:882-891 | a bucket chain: removal of that one element |
| UtList.List.UnlinkNode | benchmarks/mosquitto-wasm/deps/uthash.h:470-478 | both neighbours are pointed past an element, and all other links are kept |
| UtList.List.AppendCircular | benchmarks/mosquitto-wasm/deps/utlist.h:863-875 | acts as append, and the ring is closed again |
| UtList.List.DeleteCircular | benchmarks/mosquitto-wasm/deps/utlist.h:929-938 | acts as removal of that one element, and the ring is closed again |
| UtList.List.OnePass | benchmarks/mosquitto-wasm/deps/utlist.h:187-229 | one pass over the linked nodes, and whether it was the last one |
| UtList.List.MergeRuns | benchmarks/mosquitto-wasm/deps/utlist.h:200-222 | two runs of linked nodes are relinked onto the output list in merged order |
| UtList.List.Advance | benchmarks/mosquitto-wasm/deps/utlist.h:193-199 | the second run starts where the first has `insize` elements or the list ends |
| UtList.List.Emit | benchmarks/mosquitto-wasm/deps/utlist.h:215-221 | the element taken is linked behind the tail, and the nodes still waiting keep their links |
| UtList.List.Append | benchmarks/mosquitto-wasm/deps/utlist.h:639-651 | acts as append; head->prev is the tail, tail->next is null, next and prev are inverse |
| UtList.List.Prepend | benchmarks/mosquitto-wasm/deps/utlist.h:624-634 | acts as prepending, with the same links |
| UtList.List.AppendElem | benchmarks/mosquitto-wasm/deps/utlist.h:803-819 | acts as insertion after an element, or at the front without one |
| UtList.List.LowerBound | benchmarks/mosquitto-wasm/deps/utlist.h:672-683 | the last element of the leading stretch below `like`, or none |
| UtList.List.InsertInorder | benchmarks/mosquitto-wasm/deps/utlist.h:656-667 | acts as sorted insertion |
| UtList.List.Delete | benchmarks/mosquitto-wasm/deps/utlist.h:706-723 | acts as removal of that one element, at the head, inside and at the tail |
| UtList.List.Concat | benchmarks/mosquitto-wasm/deps/utlist.h:688-701 | acts as concatenation, either list possibly empty |
| UtList.InsertionKeepsSorted | benchmarks/mosquitto-wasm/deps/utlist.h:656-683 | sorted insertion keeps a sorted list sorted and puts the new element before its equals |
| Backoff.DelaysAsMeantIff | benchmarks/mosquitto-wasm/lib/loop.c:286-300 | every delay of every run of failures is the intended unbounded product, cut off at the maximum, if and only if the test against the maximum catches the first product over it (or, if that wraps to the maximum itself, the next one) |
| Backoff.DelaysRiseToMaximum | benchmarks/mosquitto-wasm/lib/loop.c:286-300 | under that condition the delays never fall, never exceed the maximum, and are at the maximum from some attempt on |
| Backoff.NeighboursDiffer | benchmarks/mosquitto-wasm/lib/loop.c:286-291 | two consecutive products are never equal modulo 2^32 |
| Backoff.WrappedButMeant | benchmarks/mosquitto-wasm/lib/loop.c:286-300 | concrete settings whose product wraps and whose delays are all as meant |
| Backoff.NeverWrapsIff | benchmarks/mosquitto-wasm/lib/loop.c:286-291 | no product of any run of failures wraps in 32 bits if and only if the first one over the maximum does not |
| Backoff.SmallMaximumFits | benchmarks/mosquitto-wasm/lib/loop.c:286-291 | a maximum below 2^30 is enough against wrapping, whatever the base delay and the flag |
| Backoff.LargeMaximumWraps | benchmarks/mosquitto-wasm/lib/loop.c:286-300 | concrete settings with a larger maximum under which the second attempt comes without any delay |
| Backoff.Counter | benchmarks/mosquitto-wasm/lib/loop.c:296-300 | the counter follows the number of failures until the maximum is passed |
| Backoff.Stuck | benchmarks/mosquitto-wasm/lib/loop.c:296-300 | once a computed delay is over the maximum, the counter stays |
| Backoff.Connection.NextDelay | benchmarks/mosquitto-wasm/lib/loop.c:286-300 | the delay slept, a product modulo 2^32 cut off at the maximum, and the new counter, for either flag |
| Backoff.Connection.FailRepeatedly | benchmarks/mosquitto-wasm/lib/loop.c:278-311 | the delays actually slept in a run of failures after the counter was reset, under the exact condition |

## Left out

- FlowControl.NeverBackwards: holds for runs that satisfy `FlowControl.Legal`; acknowledgements for messages that have not been sent, stray ones that raise the quota, and sends that fail on an open socket are outside it (they are inside `Conservation`).
- TLS, SOCKS, websockets and the opening of sockets: a socket is a schedule of partial transfers, blocks, errors and ends of file.
- Threads and mutexes: each handler or API call is one atomic step, and a callback does not call back into the library.
- Everything compiled for the broker, the memory limits and all out-of-memory paths.
- Argument checks of mosquitto_publish_v5 before the message exists (topic, payload size, maximum packet size): the Publish step starts after them.
- mosquitto_connect with a new host and mosquitto_disconnect: only reconnecting is a step; states other than those of `Delivery.ClientState` do not occur.
- Decoding and delivery are separate: the steps of `Delivery` take decoded fields, and `PublishPacket` and `Senders` relate these to bytes.
- Decoding errors of an acknowledgement are three cases in `Delivery.AckBody` (flags, body, decoded); the mqtt31 exemption from the flag check is one of the latter two.
- `Delivery.Message.serial` stands for the identity and contents of a message: topic and payload are not part of the delivery state.
- message__retry_check ignores the results of its sends, so the log of `Delivery.RetryLog` lists its calls as successful.
- The queues of `ClientModel.Client` are sequences that the methods reassign; that the DL macros implement these operations on linked nodes is proved in `UtList`.
- `client_generated` and the links of a property list: lists are sequences of values.
- PublishPacket.SendPublish: the three property lists together stay below 2^32 bytes, so their 32-bit sum does not wrap; a failing assertion of a write function is the result `fits == false`, and what happens after it is not modelled.
- Senders.SendConnect: client identifier and password are shorter than 2^28 bytes and each property list is shorter than 2^28 bytes, so the 32-bit sums do not wrap; the caller's properties and the added receive maximum are written as one list.
- Senders.SendSubscription: the property list is shorter than 2^28 bytes.
- Decoding of CONNACK, SUBACK, UNSUBACK and AUTH, and the PING packets: the same shapes as the packets that are modelled, without new difficulty.
- Framing.Reader.Pump: promises nothing once a call has stopped inside a packet with a zero command byte; `Framing.ResumesIff` shows that nothing can be promised then. The return code of handle__packet is not part of it.
- OutQueue.Sender.Write: after a DISCONNECT has been written the socket is closed, and nothing is claimed about packets queued behind it beyond their being kept in order.
- HashIndex.HashTable.ExpandBuckets: bucket and element counts are unbounded numbers, so their 32-bit overflow is not modelled; allocation always succeeds.
- Chains and the application-order list of `HashIndex.HashTable` are sequences. That the pointer updates of each operation act on linked nodes as these sequence operations do is proved separately, in `UtList`; that an element is in two lists at once is not modelled.
- Hash functions are an uninterpreted function of the key, and keys are integers; the Bloom filter, HASH_SELECT and the in-order replace are not modelled.
- LL_SORT2, whose assignments to next and the head are those of DL_SORT2 without the ones to prev; the other macros on circular lists.
- UtList.List.Sort: the run length is an unbounded number, not an int; elements are compared by an integer key of the node.
- Backoff.NeverWrapsIff: settings whose maximum does not exceed the base delay compute no product and are covered by `Backoff.DelaysAsMeantIff`.
- Only the delay of mosquitto_loop_forever is modelled: the classification of return codes and the sleep are not.
