# Energy-aware DTN routers: forwarding and admission policies

This project models three message routers for a delay-tolerant network
simulator, each extended with an energy gate and in-band delivery
acknowledgements:

- **Wave** (`E_WaveRouter.java`), epidemic forwarding with two windows:
  - an immunity window: a message received recently is refused again;
  - a custody window: a message received recently is shielded from eviction.
- **Life** (`E_LifeRouter.java`): a message is accepted, and kept in the
  buffer, only while the number of connected peers holding it lies in the
  window `countRange[0]..countRange[1]`.
- **FirstContact** (`E_FirstContactRouter.java`): a single copy is handed
  to the first contact. A message that has already passed through this host
  is refused. The sender's copy is deleted once a transfer completes.

The three routers share two mechanisms:

- **The energy gate.** A neighbour whose residual energy is below the
  threshold gets no message unless it is that message's destination.
- **Acknowledgements (Life and Wave).**
  - When a payload arrives at its destination, the destination sends a
    size −1 message back to the previous hop. Its id is
    `id<−>from<−>to`, where the separator is `<`, U+2212 MINUS SIGN, `>`.
  - The receiver of that acknowledgement records the key and deletes the
    payload named by the key's first field.
  - Keys spread from neighbour to neighbour through each router's
    `delivered` map.

How the model is built:

- **Routers.** Each router is a class. Its fields are what the Java
  router updates: the buffer, `delivered`, `recentMessages` and
  `custodyMessages`. Its methods carry `modifies` clauses.
- **The buffer** is a sequence of messages with distinct ids. Its order
  is the base layer's iteration order.
- **Neighbours.** Each connection is seen through a `Neighbour` snapshot:
  - the host at the other end;
  - whether that host's router is transferring;
  - its energy;
  - the ids it holds;
  - its `delivered` map.
- **Base-layer answers are parameters:**
  - `super.checkReceiving` and `super.receiveMessage`;
  - `isTransferring` and `canStartTransfer`;
  - whether `exchangeDeliverableMessages` started a transfer;
  - the ids being sent;
  - the simulation clock.
- **Base-layer calls are recorded.** Every call into the base layer is
  returned as an `Action`, in call order:
  - the candidate list given to `tryMessagesForConnected`;
  - `tryAllMessagesToAllConnections`;
  - each `deleteMessage(id, asDrop)`;
  - each acknowledgement sent.

  The model claims nothing about what the base layer then does, except
  that a deleted id leaves the buffer and that an arrival the base layer
  stores (`WaveRouter.MessageTransferred`) joins it.
- **Shared code.** Life and Wave have identical candidate loops. These
  are one method, `Selection.SelectOffers`, specified by two recursive
  functions:
  - `Pairs`, the candidate list, in connection-major then buffer order;
  - `Gossip`, the `delivered` map left behind.

  FirstContact's loop, which does not consult acknowledgements, is
  `Selection.CandidateList`. It is specified by the same `Pairs` under
  the other policy.

Notes on the code as written, which the model follows:

- The gossip step sets the local `delivered[key]` to the neighbour's
  counter plus one. It does not add to the local counter.
  - The list `msg_to_be_deleted` is filled but never used. Gossip
    therefore deletes nothing.
- The counter is a Java `int`, so `++cnt` wraps at 2^31 − 1 (`Messages.Inc32`).
- An acknowledgement id without a separator is not ignored. `split`
  returns the whole id, and the message with that id is deleted.
- An acknowledgement id made of separators only (for example `<−><−>`)
  splits into an empty array, and `parts[0]` raises an
  `ArrayIndexOutOfBoundsException`.
  - This happens after `delivered` has been written.
  - The model returns `Reply.IndexOutOfBounds` in this case.
- FirstContact builds its energy-gated candidate list and then discards
  it. It calls `tryAllMessagesToAllConnections` instead.
  - `FirstContactRouter.Update` returns the list it built. It also
    proves that no `TryMessagesForConnected` call is made.
- Wave does not keep custody entries a subset of the buffer.
  - `messageTransferred` adds an entry for every arrival.
  - `getNextMessageToRemove` purges only the expired entries of buffered
    messages.
  - The model states exactly which entries remain.
- The status codes are `RCV_OK` = 0, `DENIED_OLD` = −1 and
  `DENIED_POLICY` = −5. Only their being distinct, with `RCV_OK` = 0, is
  relied on.

## Model

| member | source | states |
|---|---|---|
| Messages.Inc32 | E_WaveRouter.java:183-184 | `++cnt` on a Java int: the result is one more than the counter modulo 2^32 |
| Messages.Inc32Determined | E_LifeRouter.java:166-167 | the 32-bit value one more than the counter modulo 2^32 is unique, so it is exactly `Inc32` |
| MessageBuffer.Without | E_WaveRouter.java:219 | deleting ids from the buffer: a message survives iff it was buffered and its id is not deleted; distinct ids are kept |
| MessageBuffer.WithoutTwice | E_LifeRouter.java:126-128 | deleting one set of ids and then another is deleting their union |
| MessageBuffer.WithoutAbsent | E_LifeRouter.java:126-128 | deleting ids that no buffered message has leaves the buffer as it is |
| MessageBuffer.DeletedNotHeld | E_FirstContactRouter.java:147 | after deleting an id no buffered message has it |
| AckKeys.AckKey | E_WaveRouter.java:228 | the key `id<−>from<−>to`: it starts with the id followed by a separator and has the length of its parts; `KeyRoundTrip` recovers the id |
| AckKeys.KeyOf | E_LifeRouter.java:162 | the key a message is known by in the candidate loop, built from its id and endpoint names as at the ack; `KeyRoundTrip` recovers its id |
| AckKeys.FirstSepFrom | E_WaveRouter.java:216 | the first position where a separator starts, with no separator before it |
| AckKeys.DropTrailingEmptyPrefix | E_WaveRouter.java:216 | dropping trailing empty fields empties the array iff all fields are empty, and otherwise keeps the first field |
| AckKeys.Split | E_LifeRouter.java:200 | `split("<−>")` with limit 0: the whole string without a separator, otherwise the fields with trailing empty ones dropped; `SplitHead` states when it is empty and what its first field is |
| AckKeys.FieldsAllEmpty | E_WaveRouter.java:216 | every field between separators is empty iff the string is made of separators only |
| AckKeys.SplitHead | E_WaveRouter.java:216-217 | `split` yields an empty array iff the string is one or more separators; otherwise `parts[0]` is the text before the first separator |
| AckKeys.FirstField | E_WaveRouter.java:216-217 | `parts[0]`: none exactly for separators-only strings, else a separator-free prefix of the id that ends at a separator or at the end |
| AckKeys.NoSepWholeField | E_LifeRouter.java:200-201 | an id without a separator names itself, so the whole id is deleted |
| AckKeys.KeyRoundTrip | E_LifeRouter.java:200-212 | the first field of the key built from `id`, `from` and `to` is `id` when `id` has no separator, unless `id` is empty and the whole key is separators only |
| AckKeys.EmptyKeyHasNoField | E_LifeRouter.java:200-201 | an empty id between empty host names gives a key of separators only, whose `parts[0]` throws |
| Selection.SelectOffers | E_WaveRouter.java:152-205 | the candidate loop produces exactly the gated candidate list in connection-major order and the gossiped `delivered` map |
| Selection.CandidateList | E_FirstContactRouter.java:86-124 | FirstContact's loop produces the gated list built without consulting acknowledgements |
| Selection.Pairs | E_LifeRouter.java:141-189 | the candidate list in connection-major then buffer order; `PairsMembership` states exactly which pairs it holds and `PairsBound` an upper bound on its length |
| Selection.PairsBound | E_WaveRouter.java:158-203 | the candidate list holds at most one pair per connection and buffered message |
| Selection.Gossip | E_LifeRouter.java:162-170 | the `delivered` map after the loop keeps every key it had; `GossipUntaught` and `GossipLastTeacher` state each value |
| Selection.RowMembership | E_WaveRouter.java:169-203 | over one connection a pair is offered iff some buffered message passes every filter |
| Selection.PairsSound | E_WaveRouter.java:158-205 | every pair in the candidate list comes from a connection and a buffered message that pass every filter |
| Selection.PairsComplete | E_WaveRouter.java:158-205 | every connection and buffered message that pass every filter give a pair in the candidate list |
| Selection.PairsMembership | E_LifeRouter.java:141-189 | a pair is in the candidate list iff its connection and message pass every filter: not transferring, not held, not known delivered (Life, Wave), energy gate |
| Selection.EnergyGateRespected | E_WaveRouter.java:190-193 | every offer goes to a non-transferring neighbour lacking the message, with energy at least the threshold or being the destination |
| Selection.DestinationNeverBlocked | E_FirstContactRouter.java:108-115 | a message whose destination is the neighbour is offered whatever the neighbour's energy |
| Selection.LearnedNotOffered | E_LifeRouter.java:164-170 | no message a neighbour knows delivered is offered to that neighbour |
| Selection.GossipRowValue | E_WaveRouter.java:179-187 | over one connection a taught key becomes the neighbour's counter plus one; every other entry is kept |
| Selection.GossipUntaught | E_LifeRouter.java:164-170 | a key no connection teaches keeps its local entry or stays absent |
| Selection.GossipLastTeacher | E_WaveRouter.java:181-184 | a taught key ends as the last teaching neighbour's counter plus one, overwriting the local value |
| WaveRouting.WaveRouter.constructor | E_WaveRouter.java:64-69 | the settings are taken as given; buffer and maps start empty |
| WaveRouting.WaveRouter.Copy | E_WaveRouter.java:75-82 | `replicate` copies immunity time, custody fraction and threshold, with fresh empty maps |
| WaveRouting.WaveRouter.CheckReceiving | E_WaveRouter.java:85-99 | DENIED_POLICY with `recentMessages` unchanged iff a recorded time plus immunity is after now; otherwise the expired record goes and the base answer is returned |
| WaveRouting.WaveRouter.GetNextMessageToRemove | E_WaveRouter.java:105-134 | none iff no message is evictable; otherwise the first evictable message with minimal receive time; exactly the expired custody entries of buffered messages are removed |
| WaveRouting.WaveRouter.Purged | E_WaveRouter.java:109-118 | the custody map the loop leaves; its properties are stated by `PurgedOnlyForgets` and `PurgedStep` |
| WaveRouting.WaveRouter.PurgedOnlyForgets | E_WaveRouter.java:109-118 | the loop only forgets: kept entries are unchanged, entries of non-buffered ids and unexpired entries stay, and an expired entry of a buffered id goes |
| WaveRouting.WaveRouter.PurgedStep | E_WaveRouter.java:110-114 | visiting one buffered message forgets at most its own custody entry, and only when that custody has expired |
| WaveRouting.WaveRouter.ImmuneUntilWindowEnds | E_WaveRouter.java:86-90 | after an arrival at `now`, the id is refused exactly before `now + immunityTime` |
| WaveRouting.WaveRouter.CustodyProtectsArrival | E_WaveRouter.java:110-117 | after an arrival at `now`, the message is evictable only after `now + immunityTime * custodyFraction` |
| WaveRouting.WaveRouter.TryOtherMessages | E_WaveRouter.java:152-206 | hands the gated candidate list to `tryMessagesForConnected` and leaves the gossiped `delivered`; the buffer is untouched |
| WaveRouting.WaveRouter.Update | E_WaveRouter.java:137-149 | the base update only when transferring or unable to start; direct delivery next; the candidate list only when direct delivery started nothing |
| WaveRouting.WaveRouter.ReceiveMessage | E_WaveRouter.java:209-238 | an ack records its key, deletes its first field's message without drop and answers 0 without the base; an accepted payload for this host sends one ack `id<−>from<−>to` back and records it |
| WaveRouting.WaveRouter.MessageTransferred | E_WaveRouter.java:244-250 | the arrival the base layer stores joins the buffer, replacing any copy with its id, and its immunity and custody both start now |
| WaveRouting.WaveRouter.Store | E_WaveRouter.java:245 | storing a message keeps ids distinct, appends it, and the buffer then holds it |
| WaveRouting.WaveRouter.TransferDone | E_WaveRouter.java:253-256 | only the transferred id's custody entry goes; the buffer keeps the message |
| LifeRouting.PeerCount | E_LifeRouter.java:75-87 | the peer count lies in `0..|connections|` |
| LifeRouting.PeerCountIsCardinality | E_LifeRouter.java:75-87 | the peer count is the number of connections whose other end holds the id |
| LifeRouting.Drops | E_LifeRouter.java:126-128 | one `deleteMessage(id, true)` per scheduled id, in order |
| LifeRouting.OutsideIds | E_LifeRouter.java:119-125 | the scheduled ids, at most one per buffered message; `OutsideIdsMembership` states exactly which |
| LifeRouting.OutsideIdsMembership | E_LifeRouter.java:119-125 | an id is scheduled iff it is buffered and its peer count is outside the window |
| LifeRouting.SweepKeepsExactlyWindow | E_LifeRouter.java:119-128 | after the sweep a message is buffered iff it was before and its peer count is inside the window |
| LifeRouting.DeleteStep | E_LifeRouter.java:126-128 | deleting one more scheduled id extends both the deletion and the list of drops by that id |
| LifeRouting.LifeRouter.constructor | E_LifeRouter.java:54-58 | the window and threshold are taken as given; buffer and `delivered` start empty |
| LifeRouting.LifeRouter.Copy | E_LifeRouter.java:64-68 | `replicate` copies the window, with a fresh `delivered` |
| LifeRouting.LifeRouter.GetPeerMessageCount | E_LifeRouter.java:75-87 | the counting loop computes the peer count, at most the number of connections |
| LifeRouting.LifeRouter.CheckReceiving | E_LifeRouter.java:90-100 | DENIED_POLICY iff the peer count is below `countRange[0]` or above `countRange[1]`, else the base answer; no state changes |
| LifeRouting.LifeRouter.TryOtherMessages | E_LifeRouter.java:135-190 | hands the gated candidate list on and leaves the gossiped `delivered`; the buffer is untouched |
| LifeRouting.LifeRouter.Update | E_LifeRouter.java:103-130 | the sweep runs only when not transferring, able to start and no direct delivery started; it then drops, with asDrop, exactly the messages whose count is outside the window |
| LifeRouting.LifeRouter.Sweep | E_LifeRouter.java:119-128 | the sweep deletes with asDrop exactly the buffered ids whose count is outside the window, in buffer order |
| LifeRouting.LifeRouter.ScheduleDrops | E_LifeRouter.java:119-125 | the first sweep loop lists, in buffer order, the ids whose count is outside the window |
| LifeRouting.LifeRouter.DeleteAll | E_LifeRouter.java:126-128 | the second sweep loop deletes every listed id with asDrop and nothing else |
| LifeRouting.LifeRouter.ReceiveMessage | E_LifeRouter.java:193-222 | an ack records its key, deletes its first field's message without drop and answers 0; an accepted payload for this host sends one ack back and records its key |
| FirstContactRouting.FirstContactRouter.constructor | E_FirstContactRouter.java:51-61 | both constructors: the threshold is taken as given and the buffer starts empty |
| FirstContactRouting.FirstContactRouter.CheckReceiving | E_FirstContactRouter.java:63-76 | a base refusal passes through; an accepted message becomes DENIED_OLD iff its hops contain this host |
| FirstContactRouting.FirstContactRouter.Update | E_FirstContactRouter.java:78-132 | nothing beyond the base update when transferring or unable to start; otherwise the list is built and dropped, direct delivery is tried, and all messages on all connections only if that started nothing; no candidate list is handed on |
| FirstContactRouting.FirstContactRouter.TransferDone | E_FirstContactRouter.java:144-148 | the transferred id is deleted without drop, so the sender no longer holds it, and nothing else changes |

## Left out

- `getRoutingInfo` of Wave is left out. It only formats the immunity records as text for diagnostics.
- Settings parsing and the static initialisers are left out. Immunity time, custody fraction, `countRange` and the battery threshold are constructor parameters.
- The threshold is a static field shared by all routers of a class. The model gives each router its own copy, and `Copy` copies it.
- The settings constructors leave the maps null; the model starts them empty. Null maps fail only when the prototype router is itself used.
- The `ActiveRouter` base layer is not part of this model. That covers `super.update`, `exchangeDeliverableMessages`, `tryMessagesForConnected`, `tryAllMessagesToAllConnections`, `isSending` and base admission.
  - Their answers are parameters and their calls are recorded as actions.
  - `super.update` may change the buffer. In the model it does not. In the simulator the routers run on, this is also where the base layer finishes transfers and calls the router's own `transferDone`. So FirstContact's buffer and Wave's `custodyMessages` can change inside `update`. That behaviour belongs to the simulator and not to the files modelled here; the model exposes `TransferDone` as a separate operation.
- WaveRouting.WaveRouter.MessageTransferred: whether the base layer stores the arrival is an input (`stored`), without modelling its rule for deciding. Life and FirstContact keep the base layer's `messageTransferred`, which is not part of this model, so no arrival is added to their buffers.
- LifeRouting.LifeRouter.Update: an acknowledgement can re-enter this router while `tryMessagesForConnected` or `exchangeDeliverableMessages` runs, shrinking the buffer and writing `delivered` before the sweep. The model does not capture this: its sweep runs over the buffer as it was at the start of the tick (Wave's `Update` likewise records only its own writes).
- A `SimError` from `deleteMessage` on an id that is not buffered is not modelled. The model's delete then leaves the buffer unchanged.
- Energy is read through the host's communication bus in the source. The model takes it as a number in the neighbour snapshot.
- A neighbour's router of another class would raise a `ClassCastException`. The model assumes all routers are of the same class.
- An acknowledgement is sent through a synchronous call into the previous hop's router. The model records it as `AckSent(to, sender, key)` and does not re-enter that router.
  - The acknowledgement message's hop list, size and creation time are not modelled.
- Simulation times and energies are IEEE doubles in the source. They are `real` here, so no claim is made about rounding.
- FirstContact's `delivered` field and `initDelivered` are left out. Neither is ever used.
- Hash-map iteration order is not modelled. The buffer's order is a given sequence, and so is the connections' order.
