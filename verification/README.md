# A model of the framework's timers, connections, digest and containers

This project models five components of the server framework in Dafny and proves what each of
them promises, over every input, every run and every interleaving.

**Timers** (`framework/timer_manager.cpp`, `framework/timer_manager.h`, the timer part of
`framework/application.cpp`). The manager keeps two arrays of circular intrusive lists, a cursor
into each, and a cached next expiry. `TimerQueues` is the simple thing it must agree with: a set
of pending timers, of which an earliest one fires next. `Wheels` is the wheel as a value with its
placement invariant, `WheelRuns` is `run_until` on that value and the refinement, and
`TimerManagers` is the class over the intrusive lists, whose methods are proved to take exactly
the steps of the value. Callbacks are adversaries: the callback of the `k`-th firing performs the
list of `set_expired`, `add_timer` and `del_timer` actions `plan(k)`. The theorems about runs hold for
all plans along which no add is accepted by mistake (see below). That `run_until` terminates on all of
them is part of every run function and loop here. `WheelWindows` gives a condition on the callbacks
alone: set a timer before adding it, to a time near the run.

**Connections** (`framework/tcp_data_handler.cpp`, `framework/buffer.*`, `public/game_packet.h`,
the framing rule of `bench_client/client_connection.cpp`). `Framing` says what a stream of bytes
amounts to and that its fragmentation is invisible, for any `get_packet_info` whose answer is final once
it asks for no more bytes; `Buffers` is the four-pointer buffer;
`TcpDataHandlers` keeps, between any two calls, that the delivered packets, the left-over bytes and
the error are those of the stream received so far, that there is room for the next `recv`, and that
what the socket accepted followed by what is buffered is what the successful sends gave. The
sockets answer `recv` and `send` with arbitrary prefixes, retries and failures.

**Digest** (`public/md5.cpp`). The incremental MD5 context against a one-shot fold over the padded
message, as in sections 3.1 to 3.5 of RFC 1321, for an arbitrary block transform.

**Configuration** (`framework/unix_config.cpp`). `ConfigText` is the text form,
`ConfigRoundTrips` is about when it can be loaded back, and `UnixConfigs` is the chained hash table, for an arbitrary hash function, refining a map.

**Containers** (`public/lru_map_container.h`, `framework/circular_queue.h`). The LRU list against
time stamps of last use; the ring queue alone, and shared by one producer and one consumer whose
check, copy and advance steps interleave in any order under sequential consistency.

Encoded packets, digests and configuration lines are also described byte by byte or character by
character, with numbers and separators written out (`LaidOut`, `IsPadded`, `Stores`, `Spells`,
`PrintedAs`), and the functions that compute them are proved to agree.

Linked structures are modelled with their pointers. `Rings` describes circular lists by a pair of
successor and predecessor tables, and a `Mirror` predicate ties the tables to the objects.

Where the code and its comments differ, the model follows the code:

- `set_expired` is documented to return 0 on success, and returns -1 always.
- `buffer::adjust` is documented to move data past a quarter of the memory, and moves it past a half.
- `add_timer` narrows the interval to 32 bits. It accepts an idle timer exactly when the low 32 bits
  are in range, so a timer due in 2 to the 32 ticks and one is put into the slot of the next tick.
  An action on a known timer keeps the wheel right if and only if it is no such add
  (`ApplyReadyExactly`), and the theorems about runs ask just that of every action on the way
  (`RunFits`); timers that are not added may hold any expiry, and a run may span any time.
- `init` accepts 15 to 20 slot bits, whose slot count does not fit `m_step_slot_size`
  (`SlotSizeFits`: it fits exactly up to 14 bits).
- `cs_packet::encode` fails when the room is exactly the head, even for an empty body, because a
  stream over no space cannot tell its position.
- `update` of the digest compares a 32-bit index that can wrap; `GuardIsExact` says for which lengths
  the comparison is right, and `GuardOverruns` has one for which it is not.
- A dumped line is cut to 2047 characters, newline included. A cut line runs into the next one, so
  bindings survive dump and load if and only if they are words, all lines but the last fit whole, and
  the last fits but for its newline (`MapRoundTrip`). `OrderMatters` has two bindings that survive in
  one order and not in the other, and `AnyOrderRoundTrip` says when the order does not matter.
- `run_until` computes its fast-forward in 32 bits. A clock that falls back by 2 to the 31 ticks or more
  can make that jump forward; `ClockFitsExactly` says when it does not.

## Model

| member | source | states |
|---|---|---|
| `WheelArithmetic.Int32` | framework/timer_manager.cpp:86 | narrowing to a C++ `int` keeps the low 32 bits, and keeps values that fit |
| `WheelArithmetic.Int32Range` | framework/timer_manager.cpp:86-87 | the narrowed interval is in range exactly when the low 32 bits are |
| `WheelArithmetic.SlotSizeFits` | framework/timer_manager.h:149 | the 16-bit slot count is 2 to the bits exactly for up to 14 bits |
| `WheelArithmetic.CursorStep` | framework/timer_manager.cpp:141-156 | one step of a masked cursor, and that it wraps exactly when a turn ends |
| `WheelArithmetic.SlotForPlaces` | framework/timer_manager.cpp:86-98 | every accepted interval, up to the maximum S*S, goes to a slot the placement invariant allows, and never to the slot being drained |
| `WheelArithmetic.SlotForLow` | framework/timer_manager.cpp:94-98 | an interval below S goes to low slot (expired - start) mod S, not the current one |
| `WheelArithmetic.TurnsAhead` | framework/timer_manager.cpp:89-92 | the shifted interval counts the turns between now and the expiry, from 1 to S |
| `WheelArithmetic.SlotForHigh` | framework/timer_manager.cpp:89-92 | a longer interval goes to the high slot of its turn, one of the S turns after the current one |
| `WheelArithmetic.HighSlotRound` | framework/timer_manager.cpp:146-153 | the high slot under the cursor holds timers of the turn that begins, and of no other |
| `WheelArithmetic.OtherHighSlot` | framework/timer_manager.cpp:156 | timers of other high slots stay correctly placed when the high cursor moves |
| `WheelArithmetic.LowSlotOfTurn` | framework/timer_manager.cpp:151-153 | the slot computed by the cascade is the low slot of the timer's expiry |
| `WheelArithmetic.PlacedNextTick` | framework/timer_manager.cpp:141-142 | a timer outside the drained slot stays correctly placed over a tick |
| `WheelArithmetic.CurrentSlotExpiresNow` | framework/timer_manager.cpp:131-137 | a low timer is in the current slot exactly when it expires now |
| `WheelArithmetic.HighSlotExpiresLater` | framework/timer_manager.cpp:163-173 | a high timer does not expire before the next turn |
| `WheelArithmetic.LowSlotDelay` | framework/timer_manager.cpp:166-173 | a low slot's distance from the cursor is the delay of its timers |
| `WheelArithmetic.PlacedIsNear` | framework/timer_manager.cpp:86-87 | a correctly placed timer is due within S*S + S and not overdue |
| `Wheels.LinkKeepsInv` | framework/timer_manager.cpp:100 | linking a timer into a slot that is right for it keeps the wheel invariant |
| `Wheels.UnlinkKeepsInv` | framework/timer_manager.cpp:22-27 | unlinking keeps the invariant and takes one timer out of its own slot |
| `Wheels.AddPlaces` | framework/timer_manager.cpp:86-98 | the slot of an accepted timer is right for it and is not the current one |
| `Wheels.AddKeepsInv` | framework/timer_manager.cpp:83-105 | an add keeps the invariant and never touches the slot being drained |
| `Wheels.AcceptedIntervals` | framework/timer_manager.cpp:85-87 | 0 exactly for an idle timer with the low 32 bits of its interval in 1 to S*S, -1 exactly for a linked one, otherwise -2 |
| `Wheels.AddKeepsInvExactly` | framework/timer_manager.cpp:83-105 | an add of an idle timer keeps the invariant if and only if an accepted 32-bit interval is the true one |
| `Wheels.FarTimerMisplaced` | framework/timer_manager.cpp:86-98 | an accepted timer whose true interval is out of range is misplaced |
| `Wheels.AddTruncates` | framework/timer_manager.cpp:86-98 | a concrete misplaced timer: due in 2 to the 32 and one ticks, put into the next tick's slot |
| `Wheels.DelKeepsInv` | framework/timer_manager.cpp:107-113 | a deletion keeps the invariant and lengthens no slot |
| `Wheels.SetExpiredKeepsInv` | framework/timer_manager.h:41-46 | setting an expiry moves no timer and keeps the invariant: a linked timer's expiry is frozen |
| `Wheels.ApplyFrame` | framework/timer_manager.cpp:83-113 | no operation moves the clock or a cursor, and all keep the cached next expiry a lower bound |
| `Wheels.Cascade` | framework/timer_manager.cpp:146-155 | the cascade loop ends, empties its high slot, and loses no timer |
| `Wheels.HighHeadPlaced` | framework/timer_manager.cpp:149-153 | the timer moved down is put where it expires |
| `Wheels.MoveDownKeepsInv` | framework/timer_manager.cpp:147-155 | one round of the cascade keeps the placement invariant |
| `Wheels.CascadeKeepsInv` | framework/timer_manager.cpp:144-155 | the whole cascade keeps it |
| `Wheels.EmptyHighSlot` | framework/timer_manager.cpp:156 | with its slot emptied, the high cursor can move on: exactly the new turn was cascaded |
| `Wheels.AdvanceKeepsInv` | framework/timer_manager.cpp:141-158 | the end of a tick, with or without a wrap, keeps the wheel invariant |
| `Wheels.AdvanceFrame` | framework/timer_manager.cpp:141-158 | a tick moves the clock by one, keeps every pending timer and its expiry, and keeps the next-expiry bound |
| `TimerQueues.RunSettles` | framework/timer_manager.h:117-120 | a run ends at the later of its start and `now`, with nothing due before `now` left |
| `TimerQueues.RunOrdered` | framework/timer_manager.cpp:126-161 | firings come in nondecreasing order of expiry, all before `now` |
| `TimerQueues.RunConserves` | framework/timer_manager.cpp:126-161 | over a run with any callbacks, pending before plus added is fired plus deleted plus pending after: each add fires at most once |
| `TimerQueues.PendingStays` | framework/timer_manager.cpp:137 | a pending timer keeps its expiry through any callback that does not delete it |
| `TimerQueues.DueTimerFires` | framework/timer_manager.cpp:126-161 | a pending timer due before `now` fires at its expiry unless a callback deletes it |
| `TimerQueues.OnlyPendingFires` | framework/timer_manager.cpp:126-161 | a timer no callback adds fires at most once, and only if it was pending and due |
| `TimerQueues.QuietRun` | framework/timer_manager.cpp:115-161 | with callbacks that neither add nor delete, exactly the due timers fire, once each, at their expiry |
| `TimerQueues.RunAddedNothing` | framework/timer_manager.cpp:126-161 | a run in which no timer goes from idle to pending adds no expiry |
| `WheelRuns.ApplyReady` | framework/timer_manager.cpp:83-113 | every right action keeps the invariant and does not lengthen the slot being drained |
| `WheelRuns.ApplyReadyExactly` | framework/timer_manager.cpp:83-113 | an action on a known timer keeps the invariant if and only if it is no add accepted for a narrowed interval while the true one is out of range |
| `WheelRuns.PopReady` | framework/timer_manager.cpp:133-136 | the head of the current slot expires now, and removing it keeps the invariant |
| `WheelRuns.ApplyRefines` | framework/timer_manager.cpp:83-113 | each right operation of the wheel is the operation of the queue, whatever expiries idle timers hold |
| `WheelRuns.PopRefines` | framework/timer_manager.cpp:133-137 | the next timer to fire is an earliest pending one, fired at its expiry |
| `WheelRuns.Fire` | framework/timer_manager.cpp:133-139 | one firing, callback included, keeps the invariant and shortens the current slot: the inner loop ends |
| `WheelRuns.FireRefines` | framework/timer_manager.cpp:133-139 | one firing of the wheel is one firing of the queue |
| `WheelRuns.Run` | framework/timer_manager.cpp:127-161 | the loop ends, at the later of its start and `now`, with the invariant kept |
| `WheelRuns.RunRefines` | framework/timer_manager.cpp:126-161 | what the loop fires is a run of the queue, for all callbacks whose actions are right when they are reached |
| `WheelRuns.TickBeforeNext` | framework/timer_manager.cpp:118-124 | before the cached next expiry the current slot is empty and no cursor wraps |
| `WheelRuns.SkipByStaysInTurn` | framework/timer_manager.cpp:121-123 | the jump stays within the turn: its high-cursor increment is zero |
| `WheelRuns.JumpIsTicks` | framework/timer_manager.cpp:118-124 | running after the jump is running without it |
| `WheelRuns.ClockFitsExactly` | framework/timer_manager.cpp:118-124 | the narrowed skip does not overshoot max(curr, now) if and only if it does not jump forward on a clock that stands still or falls back, so never on a monotone one |
| `WheelRuns.SkipIsExact` | framework/timer_manager.cpp:118 | the narrowed skip is the true one when the clock moves forward, short of a turn, of the next expiry and of now |
| `WheelRuns.SkipFits` | framework/timer_manager.cpp:118-124 | the fast-forward stops one tick short of the next expiry or of `now`, whichever is first; it keeps the invariant, moves neither the high cursor nor a timer, and changes nothing that fires |
| `WheelRuns.ApplyLowers` | framework/timer_manager.cpp:102 | an add lowers the cached next expiry to the one it adds; no other action touches it |
| `WheelRuns.RunLowers` | framework/timer_manager.cpp:126-161 | over the loop the cached next expiry becomes the least of what it was and of the expiries that callbacks add |
| `WheelRuns.UpdateNextExact` | framework/timer_manager.cpp:163-175 | the recomputed next expiry is the earliest expiry of this turn, or the start of the next turn |
| `WheelRuns.UpdateNextRests` | framework/timer_manager.cpp:163-175 | after the recomputation the cached expiry is a lower bound that is not in the past |
| `WheelRuns.RunUntilCorrect` | framework/timer_manager.cpp:115-177 | all of `run_until`: the trace is that of the loop without the fast-forward and a run of the queue, and the wheel is left at rest at max(curr, now) |
| `WheelRuns.RunUntilNext` | framework/timer_manager.cpp:163-175 | a next expiry that is still ahead, the old one or the least that callbacks added, is kept; one in the past is replaced by the earliest expiry of this turn, or the start of the next turn |
| `WheelRuns.NextNotLowered` | framework/timer_manager.cpp:115-177 | a run lowers the next expiry only to one that a callback added, so a run without adds never lowers it |
| `WheelRuns.RunBeforeNext` | framework/timer_manager.cpp:118-177 | called at or before the next expiry, `run_until` fires nothing, keeps the next expiry and moves the clock to `now` |
| `WheelRuns.NextAfterRun` | framework/timer_manager.cpp:163-175 | afterwards the next expiry is in now to now + S and at or below every pending expiry |
| `WheelRuns.DueFires` | framework/timer_manager.cpp:115-161 | `run_until` fires a due timer at its expiry unless a callback deletes it |
| `WheelRuns.RunSplits` | framework/timer_manager.cpp:126-161 | stopping the loop on the way and resuming changes nothing |
| `WheelRuns.RunIgnoresNext` | framework/timer_manager.cpp:102 | what fires does not depend on the cached next expiry |
| `WheelRuns.RunUntilSplits` | framework/timer_manager.cpp:115-177 | calling `run_until` at `mid` and then at `now` fires what calling it at `now` fires |
| `WheelRuns.ApplyRests` | framework/timer_manager.cpp:83-113 | right operations between runs leave the wheel ready for the next run |
| `WheelWindows.PendingInWindow` | framework/timer_manager.cpp:86-87 | a pending timer is always near enough for 32 bits |
| `WheelWindows.ActionsInWindow` | framework/timer_manager.cpp:137 | actions that set a timer near the run before adding it are right in every state |
| `WheelWindows.RunInWindow` | framework/timer_manager.cpp:126-161 | callbacks of that kind make a whole run right, whatever expiries other timers hold |
| `WheelWindows.RunUntilInWindow` | framework/timer_manager.cpp:115-177 | so everything proved of `run_until` holds for them on a monotone clock |
| `Rings.AppendRing` | framework/timer_manager.cpp:13-21 | the four pointer writes of an insert before the head append exactly that cell to the circular list |
| `Rings.PrependRing` | public/lru_map_container.h:140-148 | the four pointer writes of an insert after the head put that cell in front of the list |
| `Rings.RemoveRing` | framework/timer_manager.cpp:22-27 | the pointer writes of a removal take exactly that cell out of the list |
| `Rings.HeadPrev` | framework/timer_manager.cpp:133-135 | a head's neighbours are the first and last members, or itself for an empty list |
| `BaseTimers.BaseTimer.constructor` | framework/timer_manager.h:28 | a new timer is unlinked with expiry 0 |
| `BaseTimers.BaseTimer.SetExpired` | framework/timer_manager.h:41-46 | refused while linked, else set; the answer is -1 either way |
| `BaseTimers.BaseTimer.IsRunning` | framework/timer_manager.h:49 | whether either link is set |
| `BaseTimers.BaseTimer.Insert` | framework/timer_manager.cpp:13-21 | the links after the insert |
| `BaseTimers.BaseTimer.Remove` | framework/timer_manager.cpp:22-27 | the neighbours point at each other and the timer at nothing |
| `BaseTimers.InsertCell` | framework/timer_manager.cpp:13-21 | the heap after an insert is what the link tables after an insert say |
| `BaseTimers.RemoveCell` | framework/timer_manager.cpp:22-27 | the same for a removal |
| `TimerManagers.LinkLists` | framework/timer_manager.cpp:100 | linking into one slot leaves every other slot's circular list as it was |
| `TimerManagers.UnlinkLists` | framework/timer_manager.cpp:107-113 | unlinking changes the list of the timer's own slot only |
| `TimerManagers.CellLinked` | framework/timer_manager.cpp:85 | a timer has both links or none, and has them exactly when it is in a slot |
| `TimerManagers.EmptyWheelRests` | framework/timer_manager.cpp:43-66 | the wheel set up by `init` satisfies the invariant |
| `TimerManagers.TimerManager.Init` | framework/timer_manager.cpp:38-70 | the error codes and the range 3 to 20 of bits, no change on error, and on success empty slots, the start time, and a next expiry one turn ahead |
| `TimerManagers.TimerManager.Fini` | framework/timer_manager.cpp:72-79 | no slots are left |
| `TimerManagers.TimerManager.GetCurrExpired` | framework/timer_manager.h:122 | the manager's own time |
| `TimerManagers.TimerManager.GetNextExpired` | framework/timer_manager.h:127 | the cached next expiry |
| `TimerManagers.TimerManager.SetExpired` | framework/timer_manager.h:41-46 | the pointer structure takes the step of the wheel's `SetExpired` |
| `TimerManagers.TimerManager.AddTimer` | framework/timer_manager.cpp:83-105 | the pointer structure takes the step of the wheel's `Add`, with its return code; -1 exactly without slots, without timer or for a linked timer; a success lowers the next expiry to the added one if that is earlier |
| `TimerManagers.TimerManager.DelTimer` | framework/timer_manager.cpp:107-113 | the pointer structure takes the step of the wheel's `Del` |
| `TimerManagers.TimerManager.LinkTimer` | framework/timer_manager.cpp:100 | inserting before a slot's head appends to that slot and keeps all lists well formed |
| `TimerManagers.TimerManager.UnlinkTimer` | framework/timer_manager.cpp:22-27 | removing a linked timer keeps all lists well formed |
| `TimerManagers.TimerManager.First` | framework/timer_manager.cpp:133-135 | the head's successor is the slot's first timer, or the slot is empty |
| `TimerManagers.TimerManager.OnTimeout` | framework/timer_manager.cpp:137 | a callback takes the steps of its actions on the wheel |
| `TimerManagers.TimerManager.DrainSlot` | framework/timer_manager.cpp:133-139 | the inner loop empties the current slot and fires what the wheel's run fires |
| `TimerManagers.TimerManager.CascadeHighSlot` | framework/timer_manager.cpp:146-155 | the loop over the pointers is the wheel's cascade |
| `TimerManagers.TimerManager.EndTick` | framework/timer_manager.cpp:141-158 | the end of a round is the wheel's advance |
| `TimerManagers.TimerManager.FastForward` | framework/timer_manager.cpp:118-124 | the fast-forward on the fields is the wheel's skip |
| `TimerManagers.TimerManager.UpdateNextExpired` | framework/timer_manager.cpp:163-175 | the search over the low slots is the wheel's recomputation |
| `TimerManagers.TimerManager.RunUntil` | framework/timer_manager.cpp:115-177 | the method leaves the wheel, and fires the trace, of the verified `WheelRuns.RunUntil`, the lists stay well formed, and the next expiry is kept or looked up as `RunUntilNext` says |
| `Applications.SleepIsBounded` | framework/application.cpp:200-203 | the wait after a run is in 2 to S + 2: never an unbounded block |
| `Applications.WakeUpFires` | framework/application.cpp:199-203 | nothing is due before the wake-up's target, and the run at wake-up fires every timer that was waiting for it |
| `Applications.Application.RunTimers` | framework/application.cpp:200-203 | one iteration runs the timers and sleeps until exactly two ticks after the next expiry, which was kept or looked up as `RunUntilNext` says |
| `Buffers.Buffer.Init` | framework/buffer.cpp:27-36 | the error codes, no change on error, an empty buffer of that size on success |
| `Buffers.Buffer.Fini` | framework/buffer.cpp:38-45 | an empty buffer without memory |
| `Buffers.Buffer.Resize` | framework/buffer.cpp:47-68 | moved or in place, the live bytes stay, the pointers stay ordered, and the free space is the new size less what is used; the error cases change nothing |
| `Buffers.Buffer.Adjust` | framework/buffer.cpp:70-79 | past a half, compaction moves the live bytes to the front and frees the space before them; otherwise nothing moves |
| `Buffers.Buffer.PushData` | framework/buffer.h:63-68 | the written bytes join the end of the live ones; out-of-range counts are refused |
| `Buffers.Buffer.PopData` | framework/buffer.h:73-79 | the oldest bytes leave, free space does not shrink, and an emptied buffer has all its space free |
| `Buffers.Buffer.Fill` | framework/buffer.h:57 | writing into the free space changes no live byte |
| `Buffers.Buffer.Clear` | framework/buffer.h:84 | nothing is live |
| `Framing.PacketSize` | bench_client/client_connection.cpp:63-81 | four bytes for an incomplete head, otherwise the number that the first two bytes spell |
| `Framing.ClientInfoStable` | bench_client/client_connection.cpp:63-81 | the client's answer is final once it asks for no more bytes |
| `Framing.RestWaits` | framework/tcp_data_handler.cpp:127-149 | what is left over after extraction is shorter than the size it is told to wait for |
| `Framing.ExtractConserves` | framework/tcp_data_handler.cpp:111-151 | packets and rest are the data in order, every packet but the last was accepted, a refused packet stays at the front of the rest, and the error is that of the refused packet, of the framing rule, or 3 for a size out of 1 to 4194304 |
| `Framing.ExtractInParts` | framework/tcp_data_handler.cpp:111-151 | for any final answers, parsing a stream at once is parsing a part and then the rest, malformed streams, refused heads and refused packets included |
| `Framing.FeedAllIsFeed` | framework/tcp_data_handler.cpp:105-172 | feeding any chunks is feeding their concatenation |
| `Framing.FragmentationIsInvisible` | framework/tcp_data_handler.cpp:105-172 | for any `get_packet_info` with final answers, packets, left-over bytes and error depend only on the stream, not on how it was cut |
| `Framing.FramedStream` | framework/tcp_data_handler.cpp:111-151 | a concatenation of framed packets comes apart into exactly those packets, with nothing left |
| `CsPackets.Bytes16Value` | public/game_packet.h:192-193 | a 16-bit field written and read back is the value modulo 2 to the 16 |
| `CsPackets.Bytes32Value` | public/game_packet.h:198 | the same for 32 bits |
| `CsPackets.BytesSpell` | public/game_packet.h:192-202 | the bytes written are the low bytes of the number by division and remainder, high byte first |
| `CsPackets.PlusByLowBits` | public/game_packet.h:152-161 | the head has 4 bytes when the two low bits of the type are 2, otherwise 12 |
| `CsPackets.WireIsLaidOut` | public/game_packet.h:189-202 | byte by byte: length, type, for all but notifications code, reserved field and sequence number at bytes 4, 6 and 8, and then the body |
| `CsPackets.WireFields` | public/game_packet.h:189-202 | every field of a head is found at its place with its value |
| `CsPackets.RoundTrip` | public/game_packet.h:174-235 | decoding an encoded packet gives it back exactly when its type fits 16 bits; otherwise it is rejected |
| `CsPackets.DecodeReads` | public/game_packet.h:205-235 | a packet is accepted exactly when it is long enough for the head of its type, of that very type and its body parses; the fields found are those laid out byte by byte |
| `CsPackets.WireIsFramed` | public/game_packet.h:189-193 | an encoded packet is one packet of the framing rule |
| `CsPackets.CsPacket.Encode` | public/game_packet.h:174-204 | exactly when it succeeds, in sizes alone: the head of 4 or 12 bytes and the body fit with the head short of the room, and are under 65535; then the bytes are laid out as `WireIsLaidOut` says; otherwise -1 |
| `CsPackets.CsPacket.DecodeFrom` | public/game_packet.h:205-235 | -1 exactly for a packet too short, of another type or with a body that does not parse; otherwise the size, fields and body are those laid out in the bytes; fields stay when size or type is refused, and a notification leaves the head fields alone |
| `CsPackets.PacketsSurviveFragmentation` | framework/tcp_data_handler.cpp:102-175 | end to end: encoded packets, concatenated and cut into any chunks, are delivered as they were, in order, with nothing left |
| `TcpDataHandlers.Socket.Recv` | framework/tcp_data_handler.cpp:107 | an arbitrary prefix of the stream; zero exactly at its end or without room |
| `TcpDataHandlers.Socket.Send` | framework/tcp_data_handler.cpp:182 | an arbitrary prefix is accepted, or an error that may be retryable |
| `TcpDataHandlers.Refused` | framework/tcp_data_handler.cpp:115-125 | an error answer, or a size out of range, ends the stream where it stands |
| `TcpDataHandlers.InputConserves` | framework/tcp_data_handler.cpp:102-175 | what was received is the delivered packets and then what is buffered, and the error is why parsing stopped; a refused packet is still buffered |
| `TcpDataHandlers.DeliversPackets` | framework/tcp_data_handler.cpp:102-175 | a connection that received encoded packets has handed over exactly those and holds nothing back |
| `TcpDataHandlers.TcpDataHandler.constructor` | framework/tcp_data_handler.cpp:20-29 | unconnected, sound, with empty buffers, read-all off and a write limit of 16777216 |
| `TcpDataHandlers.TcpDataHandler.OnRead` | framework/tcp_data_handler.cpp:102-175 | afterwards deliveries, left-over bytes and error are those of the whole received stream, no byte is lost, there is room for the next `recv`, at most half of the memory lies before the data, and each error has its cause: memory is short only when the packet under way does not fit; with read-all it goes on until the socket is dry, only past rounds that brought bytes; without read-all it makes exactly one `recv` and receives what that brings |
| `TcpDataHandlers.TcpDataHandler.ReadOnce` | framework/tcp_data_handler.cpp:107-170 | exactly one `recv` into all the free space, what it brought, and which error exactly when; a zero result means the peer closed since there was room |
| `TcpDataHandlers.TcpDataHandler.ExtractPackets` | framework/tcp_data_handler.cpp:111-151 | the inner loop ends with the parse of the whole stream and room for the packet under way |
| `TcpDataHandlers.TcpDataHandler.ExtractOne` | framework/tcp_data_handler.cpp:113-149 | one round either drops a delivered packet with bytes left, or ends with the parse of the whole stream |
| `TcpDataHandlers.TcpDataHandler.MakeRoom` | framework/tcp_data_handler.cpp:139-146 | the buffer grows exactly when the packet under way does not fit, by the size of that packet, and memory is reported short exactly when that growth fails; the buffered bytes stay |
| `TcpDataHandlers.TcpDataHandler.PopPacket` | framework/tcp_data_handler.cpp:135 | dropping a delivered packet leaves the rest to be parsed, and an emptied buffer has room |
| `TcpDataHandlers.TcpDataHandler.OnWrite` | framework/tcp_data_handler.cpp:177-207 | the socket gains exactly the front of the buffer that it takes, never more than the write limit, and the buffer loses just that; interest ends exactly when the buffer is empty without an error |
| `TcpDataHandlers.TcpDataHandler.EnsureSpace` | framework/tcp_data_handler.cpp:219-222 | exactly when there is room, how much, that memory is asked for exactly when room is short, and that no buffered byte changes |
| `TcpDataHandlers.TcpDataHandler.Send` | framework/tcp_data_handler.cpp:216-249 | exactly when it succeeds; a success appends its bytes to the accepted-plus-buffered stream, a failure contributes none; exactly when write interest is registered |
| `TcpDataHandlers.TcpDataHandler.SendPacket` | framework/tcp_data_handler.cpp:251-268 | the same for a packet's wire form, with its exact success condition in sizes; delayed, the socket gains nothing and the packet joins the buffer; otherwise the socket is offered the front of buffer and packet, and gains just what it takes |
| `TcpDataHandlers.TcpDataHandler.Init` | framework/tcp_data_handler.cpp:55-75 | which of 0, -1, -2 and -3 is answered, exactly, and on success a sound connection with empty buffers of the given size and nothing to write |
| `TcpDataHandlers.TcpDataHandler.Fini` | framework/tcp_data_handler.cpp:79-100 | disconnected with empty buffers, whose memory is released exactly when asked |
| `TcpDataHandlers.TcpDataHandler.SetReadAllFlag` | framework/tcp_data_handler.h:114 | the flag, on a connection that stays sound |
| `TcpDataHandlers.TcpDataHandler.SetMaxWriteSize` | framework/tcp_data_handler.h:115-119 | not below 1024, on a connection that stays sound |
| `Md5Digests.WordRoundTrip` | public/md5.cpp:140-159 | a word encoded low byte first decodes to itself |
| `Md5Digests.WordsRoundTrip` | public/md5.cpp:140-159 | `decode` inverts `encode` |
| `Md5Digests.LittleEndianSpells` | public/md5.cpp:151-159 | each encoded word stands in four bytes of its own, low byte first, by division and remainder |
| `Md5Digests.Encode` | public/md5.cpp:151-159 | the loop writes the words low byte first |
| `Md5Digests.Decode` | public/md5.cpp:140-145 | the loop reads them back |
| `Md5Digests.FoldSplits` | public/md5.cpp:276-277 | the fold over blocks splits at any block boundary |
| `Md5Digests.NextBlock` | public/md5.cpp:276-277 | one transform per block of 64 bytes, in order, from the starting state |
| `Md5Digests.Padding` | public/md5.cpp:303-307 | the padding of RFC 1321 section 3.1 brings any length to 56 modulo 64 with 1 to 64 bytes |
| `Md5Digests.PaddingPrefix` | public/md5.cpp:315-317 | the prefix of the padding table that `finalize` takes is that padding |
| `Md5Digests.Padded` | public/md5.cpp:315-320 | the padded message is a whole number of blocks and starts with the message |
| `Md5Digests.PaddedIsPadded` | public/md5.cpp:303-320 | byte by byte: the message, a byte 128, zeros, and 8 times its length in the last eight bytes, low byte first, with 9 to 72 bytes added in all |
| `Md5Digests.OutputStores` | public/md5.cpp:323 | the words a, b, c and d in bytes 0, 4, 8 and 12, each low byte first |
| `Md5Digests.InitialBytes` | public/md5.cpp:130-134 | the initial words are the bytes 01 23 45 67 89 ab cd ef fe dc ba 98 76 54 32 10 of RFC 1321 section 3.3 |
| `Md5Digests.AddBitsIsAddition` | public/md5.cpp:259-262 | the two-word count with its carry is addition modulo 2 to the 64 |
| `Md5Digests.CountIndex` | public/md5.cpp:257 | the low count word tells how many bytes are buffered, whatever the total |
| `Md5Digests.CountAsBytes` | public/md5.cpp:310-312 | the encoded count is the length field of RFC 1321 section 3.2 |
| `Md5Digests.GuardIsExact` | public/md5.cpp:276 | the wrapping 32-bit loop guard stops the block loop at the last block exactly when the length fits |
| `Md5Digests.GuardOverruns` | public/md5.cpp:276 | a length at which the wrapped guard lets the loop go on past the last block |
| `Md5Digests.Md5.constructor` | public/md5.cpp:114-135 | the initial words of RFC 1321 section 3.3 and an empty message |
| `Md5Digests.Md5.Update` | public/md5.cpp:254-287 | the context afterwards is that of the concatenated message: chaining state, buffered tail and count |
| `Md5Digests.Md5.FillFirst` | public/md5.cpp:271-273 | the buffered bytes and the first part of the input make one block |
| `Md5Digests.Md5.Blocks` | public/md5.cpp:276-277 | the loop transforms every complete block of the input and stops less than a block short of its end |
| `Md5Digests.Md5.Finalize` | public/md5.cpp:301-333 | the digest holds the words a, b, c and d of the state folded over the padded message, each low byte first; nothing stays buffered or counted, and a second call changes nothing |
| `Md5Digests.Md5.FromText` | public/md5.cpp:114-119 | the one-step constructor stores the state folded from the initial words over the padded text, in the same byte order |
| `Md5Digests.SplitIsInvisible` | public/md5.cpp:254-287 | two contexts given the same message, however split, agree on state, count and buffered bytes |
| `ConfigText.SkipDelimiters` | framework/unix_config.cpp:198 | the first position that is no delimiter |
| `ConfigText.WordEnd` | framework/unix_config.cpp:201 | the first delimiter after a word |
| `ConfigText.CString` | framework/unix_config.cpp:226-228 | the string functions see a line up to its first NUL |
| `ConfigText.ParseIsExact` | framework/unix_config.cpp:191-213 | a line yields an entry exactly when it has the form delimiters, key, delimiters, value, and it is that entry |
| `ConfigText.ParseSpells` | framework/unix_config.cpp:191-213 | with the characters spelled out: a line binds a key to a value exactly when it is any of space, tab, return, equals sign and newline, the key, at least one of the five, the value, and then the end, a NUL or one of the five; no other character ends a word |
| `ConfigText.LoadLineSets` | framework/unix_config.cpp:191-213 | a line sets just the key it spells, unless key or value is over 2048 characters, and answers 0; any other line changes nothing and gives -1 |
| `ConfigText.LoadTextByLines` | framework/unix_config.cpp:221-231 | a text is its first line up to the newline and then the rest |
| `ConfigText.LoadSpelled` | framework/unix_config.cpp:191-234 | a line that spells a key and a value, alone or in front of more text, binds that key to that value |
| `ConfigText.LoadExample` | framework/unix_config.cpp:191-234 | `port = 80` binds `port` to `80`, and not when it is commented out |
| `ConfigText.DumpLinePrints` | framework/unix_config.cpp:253 | character by character: key, equals sign, value, newline, or the first 2047 of them |
| `ConfigText.DumpOfOne` | framework/unix_config.cpp:244-259 | the dump of a single binding is that line |
| `ConfigText.DumpLineParses` | framework/unix_config.cpp:253 | a printed entry of words that fits the line parses back to itself |
| `ConfigText.LinesUpToMeans` | framework/unix_config.cpp:221-231 | the line length that the round trips ask for, without recursion: no stretch without newlines is longer |
| `ConfigText.FirstLine` | framework/unix_config.cpp:221-231 | loading takes one line at a time, within the line buffer |
| `ConfigRoundTrips.LoadKeepsClean` | framework/unix_config.cpp:191-234 | loading binds words to words only |
| `ConfigRoundTrips.EntryFits` | framework/unix_config.cpp:191-213 | an entry of a line with at most 2046 characters fits the line it is dumped to |
| `ConfigRoundTrips.LoadDumped` | framework/unix_config.cpp:244-259 | loading dumped entries sets each of them, in order |
| `ConfigRoundTrips.CutLineJoins` | framework/unix_config.cpp:253-254 | a cut line has lost its newline and is one line with the next |
| `ConfigRoundTrips.LoadIsBounded` | framework/unix_config.cpp:215-234 | a text binds no more keys than it has lines |
| `ConfigRoundTrips.DumpedLines` | framework/unix_config.cpp:244-259 | a dump has no more lines than entries, and fewer when a line is cut that is not the last |
| `ConfigRoundTrips.LastLineSurvives` | framework/unix_config.cpp:253 | the last line gives its binding if and only if no more than its newline is cut |
| `ConfigRoundTrips.MapRoundTrip` | framework/unix_config.cpp:215-259 | bindings dumped in a given order load back if and only if they are words, all lines but the last fit whole, and the last fits but for its newline |
| `ConfigRoundTrips.AnyOrderRoundTrip` | framework/unix_config.cpp:215-259 | they load back in whatever order they are dumped if and only if they are words and every line fits whole, or but for its newline when there is just one |
| `ConfigRoundTrips.OrderMatters` | framework/unix_config.cpp:244-259 | two bindings that are lost when the long one is dumped first and survive when it is dumped last |
| `ConfigRoundTrips.TextRoundTrip` | framework/unix_config.cpp:191-259 | what was loaded from a text with lines of at most 2046 characters survives dump and load, in any dump order |
| `ConfigRoundTrips.DumpCanBeLoaded` | framework/unix_config.cpp:215-259 | dumped entries of which nothing but the last newline is cut can be loaded within the line buffer |
| `ConfigText.BindLooksUp` | framework/unix_config.cpp:73-79 | entries with distinct keys bind each key to its own value |
| `UnixConfigs.KeyFound` | framework/unix_config.cpp:53-68 | a key found in its bucket's chain has the value found there |
| `UnixConfigs.KeyMisses` | framework/unix_config.cpp:53-70 | a key not in its bucket's chain is not bound |
| `UnixConfigs.BucketChanged` | framework/unix_config.cpp:122-171 | changing one chain in one key leaves every other binding, in that bucket and elsewhere |
| `UnixConfigs.ReplaceRepresents` | framework/unix_config.cpp:144-159 | a node put in the place of the one with its key rebinds that key only |
| `UnixConfigs.PrependRepresents` | framework/unix_config.cpp:160-167 | a node with a new key at the front of its bucket adds that binding only |
| `UnixConfigs.RemoveRepresents` | framework/unix_config.cpp:88-109 | a node taken out removes its key's binding only |
| `UnixConfigs.NodeOnce` | framework/unix_config.cpp:44-71 | a node occurs once in its chain and in no other: chains are acyclic and disjoint |
| `UnixConfigs.ReplaceLinks` | framework/unix_config.cpp:146-156 | the pointer writes of a replacement, at the head or inside, give the chains with that node replaced |
| `UnixConfigs.PrependLinks` | framework/unix_config.cpp:162-165 | the pointer writes of a new head give the chains with that node in front |
| `UnixConfigs.UnlinkLinks` | framework/unix_config.cpp:92-102 | the pointer writes of a removal, at the head or inside, give the chains without that node |
| `UnixConfigs.AllEntriesEnumerate` | framework/unix_config.cpp:244-259 | the buckets in order list every binding exactly once |
| `UnixConfigs.UnixConfig.constructor` | framework/unix_config.cpp:33-37 | an empty table of 1024 buckets |
| `UnixConfigs.UnixConfig.GetNode` | framework/unix_config.cpp:44-71 | finds the node of a key exactly when it is bound, with its value and its predecessor |
| `UnixConfigs.UnixConfig.Get` | framework/unix_config.cpp:73-79 | the bound value, or the default |
| `UnixConfigs.UnixConfig.Set` | framework/unix_config.cpp:112-120 | the bindings with that key set; -1 and no change exactly for null arguments or ones over 2048 characters |
| `UnixConfigs.UnixConfig.SetSized` | framework/unix_config.cpp:122-171 | the same on sized strings |
| `UnixConfigs.UnixConfig.Remove` | framework/unix_config.cpp:88-109 | the bindings without that key |
| `UnixConfigs.UnixConfig.ParseLine` | framework/unix_config.cpp:191-213 | sets what the line spells, in the five separators and nothing else, and fails exactly when it spells nothing that can be set |
| `UnixConfigs.UnixConfig.Load` | framework/unix_config.cpp:215-234 | the bindings after every line of the text, the last without a newline included, within the line buffer; of a single line, what it spells |
| `UnixConfigs.UnixConfig.Dump` | framework/unix_config.cpp:244-259 | the printed lines of entries that list the bindings each once; for a single binding the very characters |
| `UnixConfigs.UnixConfig.Clear` | framework/unix_config.cpp:260-278 | nothing bound, and exactly the nodes of the chains freed, each once |
| `UnixConfigs.TableRoundTrip` | framework/unix_config.cpp:191-259 | a table loaded from a text is the same after its dump is loaded into an empty one, which the line buffer allows |
| `LruMaps.RunIsByRecency` | public/lru_map_container.h:49-108 | after any operations the order, which every container keeps as that of its history, lists the keys by the time of their last add or touch |
| `LruMaps.RecencyDetermines` | public/lru_map_container.h:49-94 | those times leave one order only |
| `LruMaps.EndsOfRun` | public/lru_map_container.h:116-126 | the last entry is the least recently used one and the first the most recently used one |
| `LruMaps.WithoutKeepsRecency` | public/lru_map_container.h:150-156 | taking an entry out keeps the relative order of the rest |
| `LruMaps.LinkedRinged` | public/lru_map_container.h:140-148 | inserting after the head puts the entry in front of the circular list |
| `LruMaps.UnlinkedRinged` | public/lru_map_container.h:150-156 | removing takes the entry out of the circular list |
| `LruMaps.InsertNode` | public/lru_map_container.h:140-148 | the heap after an insert is what the link tables say |
| `LruMaps.RemoveNode` | public/lru_map_container.h:150-156 | the heap after a removal is what the link tables say |
| `LruMaps.LruMap.constructor` | public/lru_map_container.h:42-47 | an empty container |
| `LruMaps.LruMap.Add` | public/lru_map_container.h:82-94 | a new entry goes in front with its value; a present key gives null and no change |
| `LruMaps.LruMap.Get` | public/lru_map_container.h:49-66 | the entry of the key or null, moved to the front exactly when asked |
| `LruMaps.LruMap.Remove` | public/lru_map_container.h:96-108 | the entry leaves list and map together |
| `LruMaps.LruMap.Clear` | public/lru_map_container.h:110-114 | nothing is left in either |
| `LruMaps.LruMap.LruTail` | public/lru_map_container.h:116-120 | the least recently used entry by the times of last use in the container's history, or null when it is empty |
| `LruMaps.LruMap.LruHead` | public/lru_map_container.h:122-126 | the most recently used entry by those times, or null |
| `LruMaps.LruMap.Size` | public/lru_map_container.h:36 | the map counts what the list holds |
| `CircularQueues.FullAndEmpty` | framework/circular_queue.h:59-64 | the index tests are about the number of items held, which is at most size - 1 |
| `CircularQueues.PushAppends` | framework/circular_queue.h:69-75 | a push in room appends its element |
| `CircularQueues.PopTakesFirst` | framework/circular_queue.h:80-86 | the element at `m_back` is the oldest, and a pop takes just that |
| `CircularQueues.CircularQueue.Init` | framework/circular_queue.h:25-34 | refused when initialised or under 4 slots, else an empty queue |
| `CircularQueues.CircularQueue.Fini` | framework/circular_queue.h:39-49 | the items are gone and the size is kept |
| `CircularQueues.CircularQueue.Push` | framework/circular_queue.h:69-75 | FIFO append, or -1 and no change exactly when full or without memory |
| `CircularQueues.CircularQueue.Pop` | framework/circular_queue.h:80-86 | the oldest item, or -1 and no change exactly when there is none |
| `CircularQueues.CircularQueue.Back` | framework/circular_queue.h:92-96 | the slot of the oldest item |
| `CircularQueues.StepKeepsInv` | framework/circular_queue.h:59-86 | every step of either side, at any point of the other's operation, keeps the shared invariant |
| `CircularQueues.Run` | framework/circular_queue.h:59-86 | so does every interleaving |
| `CircularQueues.SharedQueueIsSafe` | framework/circular_queue.h:59-86 | from `init` on, popped then held items are the pushed ones in order, at most size - 1 are held, the slot written is never the slot read, and what was read is the oldest item |
| `CircularQueues.ChecksAreExact` | framework/circular_queue.h:59-64 | a check refuses exactly when the queue is full, or empty, at that moment |
| `CircularQueues.UninterruptedSteps` | framework/circular_queue.h:69-86 | steps without interference are the sequential push and pop |

## Left out

- TimerManagers.TimerManager.Init: takes at most 14 slot bits or a refused value; for 15 to 20 bits the slot count does not fit its 16-bit field, as `SlotSizeFits` states.
- TimerManagers.TimerManager.AddTimer: the timer belongs to a registry of timers that the program can reach; the registry stands for the owners of the timers and has no counterpart in the source.
- TimerManagers.TimerManager.Fini: does not model what happens to timers still linked when the slots go away.
- WheelRuns.RunUntilCorrect: takes runs along which no add is accepted for a narrowed interval while the true one is out of range, and no fast-forward jumps on a clock that falls back; both conditions are exact (`ApplyReadyExactly`, `ClockFitsExactly`). 64-bit overflow of the clock is not modelled.
- WheelRuns.RunRefines: does not order firings of equal expiry among each other, which the source does not promise.
- Timer destruction inside callbacks, and callbacks that call `run_until` themselves.
- Shifts and masks of the timer wheel are written as division and remainder by the slot count.
- Memory allocation of slots, table nodes and list nodes is assumed to succeed; for buffers its answer is a parameter.
- Buffers.Buffer.Resize: growth in place is a new block of bytes at the same address, and a size of zero, with which `realloc` frees the block, is excluded; capacities are unbounded integers.
- TcpDataHandlers.TcpDataHandler.OnRead: an error event ends the connection's run; what `on_event` does then, including closing the connection inside a callback, is not modelled. `process_packet` is any function of the packets handed over so far.
- TcpDataHandlers.TcpDataHandler.Init: the variant that resolves a host name, socket options and the reactor itself are not modelled; whether the reactor accepts the handler is a parameter.
- Packet bodies are byte strings with an arbitrary acceptance test; the generated serialisation code is not part of this model.
- CsPackets.CsPacket.DecodeFrom: takes packets whose length field lies between the head and the data, as the framing rule and its callers provide.
- `ss_packet` and the other packet templates, which repeat the same scheme.
- `tcp_connection`, `udp_data_handler`, `udp_server`: the framing core again with other error handling.
- Md5Digests.Md5.Update: takes lengths for which the 32-bit loop index does not wrap, the exact condition of `GuardIsExact`.
- Md5Digests.Md5.Finalize: for an arbitrary block transform; the rounds of RFC 1321 section 3.4 and the hexadecimal output are left out.
- UnixConfigs.UnixConfig.Load: takes texts whose lines fit the 2048-byte line buffer, which the source does not check.
- UnixConfigs.UnixConfig.Dump: returns what is written; files, including `load` and `save` by name, and the numeric `get` are left out.
- UnixConfigs.UnixConfig.SetSized: takes strings without NUL characters, as both callers in the source pass.
- LruMaps.LruMap.Get: gives the entry's node; later writes of a caller through the returned value pointer are not modelled. `add` without a value is `add` of a default value.
- `lru_next`, which does not compile when used with a null argument, and the iterators.
- CircularQueues.CircularQueue.Push: not allowed after `fini` without a new `init`, when the source would write through a null pointer.
- CircularQueues.SharedQueueIsSafe: assumes sequential consistency; weaker memory orders, which `volatile` does not exclude, are not modelled.
- Sockets, epoll, signals, processes, files and logging: system calls and formatted output.
- The state-machine, object-pool, averaging and identifier helpers: only easy properties.
- `ring_mem_buffer` and the name-value store: their guarantees rest on callers and file operations outside the code.
