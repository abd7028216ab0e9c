# Verified model of the multipath VPN core

The program is a layer-2 VPN that spreads numbered frames over several TCP streams.
Groups of K frames are protected by one XOR parity frame, the far side decodes,
rebuilds what is missing and puts everything back in order. This project models
that core in Dafny and proves what it promises.

How the pieces fit together:

- **Sender.** `FecEncoder` is the in-place encoder, proved equal to a simple one.
  `SenderModes` runs it over path-count changes, frames and drops. `ParityGenuine`
  and `AcceptedParities` say when its parities protect the right payloads and which
  of them the decoder takes, `Boundaries` where its SUSPEND boundaries fall.
- **Receiver.** `GroupDecoder` is the simple decoder, `FecDecoder` the running one
  with recycled objects, proved equal to it (each live object's accumulator is the
  XOR of exactly the members in its mask, and no object is shared).
  `DecoderSoundness` and `RecoveryComplete` are its two directions: only genuine
  frames come out, and the missing one does come out. `Reorder` is the reorder buffer as a map,
  `ReorderRing` the growing ring, proved equal. `RxPath` and `RxWorker` put both
  behind one worker, `EndToEnd` joins them with the sender, `CorruptingLoss` and
  `SpoiledRuns` show its condition to be exact, `RxOwnership` counts buffers,
  `EpochBarrier` interleaves producers, worker and epoch changes.
- **Mode fence.** `FenceProtocol` and `FenceRuns`: SUSPEND and RESUME controls on
  several FIFO streams; `StretchedWindow` is the run that needs their proviso.
- **Retirement.** `GroupWork` says what one input does to the pending groups,
  `Retirement` that forgetting old groups is invisible. `RetirementLimits` and
  `BeyondWindow` are the runs that need its conditions, `RetirementOnce` drops the
  second where nothing is repeated, `RetiredGroups` is what holds without them, and
  `SenderRetirement` applies it to everything a sender emits.
- **Streams.** `Framing`, `StreamWriter`, `TailPadding`, `FrameScanning`: records
  on a byte stream, written in place, padded at the tail, read in any chunks.
- **Port.** `Dispatch` transfers ownership of batches, `FairShare`, `PathRanking`
  and `Scheduler` choose the path. Each has its own view of a backend: its queue and
  accounting in the one, its scheduling fields in the other.
- **Server.** `ResumeTokens` and `AddressPool`.

`Division`, `Wire` and `Xor` hold the arithmetic, byte and XOR facts they share.

Code that works in place is a class or a method with loops, proved against a
specification function or relation; the promises are lemmas about that
specification, over all inputs, runs or reachable states.

## Where the code does not keep a promise

Each of these is stated exactly, with a concrete run and a condition that is
necessary and sufficient where one exists:

- A batch that was numbered but dropped before the encoder saw it (the last backend
  had just gone) does harm in two ways. Inside an open group it makes the parity
  cover the wrong payloads (`ParityGenuine.GenuineIffNoOpenGroup`). If that group
  does not start at 1 modulo K the receiver throws the parity away
  (`AcceptedParities.WrongButRejected`); if two or more of its numbers were dropped
  nothing is ever rebuilt with it. If exactly one was, the receiver rebuilds that frame
  with another payload (`EndToEnd.LossInsideGroupCorrupts`). So what comes out stays
  genuine if and only if no group starting at 1 modulo K is completed with exactly one
  of its numbers dropped: of a drop in `CorruptingLoss.OutputSafeIff` and
  `AcceptedParities.WholeGroupDropIff`, of a whole run in `SpoiledRuns.RunSafeIff`.
  Between groups it shifts the groups of an armed encoder, and the receiver throws
  their parities away (`ParityGenuine.LossBetweenGroupsMisaligns`). It is harmless,
  later parities being genuine and accepted, if and only if no group is open and an
  armed encoder is left at a group start (`ParityGenuine.LossHarmlessIff`).
- After such a shift a SUSPEND can name a number in the middle of a group as the
  receiver counts them (`Boundaries.MisalignedSuspend`): it names a group start if and
  only if no group is open or the open one starts at 1 modulo K
  (`Boundaries.SuspendsAtStartIff`). The receiver then retires a group of which frames
  are still to come (`SenderRetirement.RetiredGroupStillDelivers`,
  `RetiredGroups.RetiresWholeIff`). Nothing that is delivered depends on it: no such
  group has a parity the receiver accepts (`Boundaries.BoundariesDivideNoGroup`,
  `SenderRetirement.InvisibleOnSenderRuns`).
- A RESUME that jumps over a SUSPEND stretches the old window. It covers an encoded
  group if and only if a parity was emitted in between
  (`FenceProtocol.WindowSafeIff`, `StretchedWindow.SkippedSuspendStretches`).
- Forgetting retired groups can be seen when a decoder is full
  (`RetirementLimits.FullDecoderDiffers`), or when a frame beyond the reorder window is
  repeated later (`BeyondWindow.BeyondWindowDiffers`). The second needs a network that
  repeats frames, as the end-to-end theorem allows; the port itself queues each batch on
  one backend, and where nothing arrives twice the window does not matter
  (`RetirementOnce.InvisibleWithoutRepeats`). With room and within the window it is
  never seen, as long as the numbers stay ordered and no parity comes for a group that a
  SUSPEND boundary divides, which no sender emits (`Retirement.RetirementInvisible`,
  `SenderRetirement.InvisibleOnSenderRuns`).
- Ordering by signed 32-bit difference holds up to number 2^32 - 65536 and fails one
  number later (`Reorder.WrapBreaksOrder`). The reorder ring itself stays sound for all
  numbers, if and only if 2^32 - 1 is not delivered with frames waiting behind it
  (`Reorder.InsertSoundIff`, `Reorder.ExpireSoundIff`); after that it refuses frames it
  should deliver (`ReorderRing.TopNumberRefused`).
- A client that never received its first token is refused after a restart until the
  session ends (`ResumeTokens.LostFirstResponse`); every other holder is accepted.
- The decoder's `lost` counter never counts anything, because the guards in front of
  it cannot fire (`GroupDecoder.RecoverOne`, `GroupDecoder.StepValid`), although its
  name and the statistics suggest otherwise. Likewise one branch of the bucket choice
  cannot be reached (`Framing.PadBucket`).

## Model

| member | source | states |
|---|---|---|
| FecControl.ClampGroup | fec.go:73-82 | the group size used is the configured one if it lies in 2..64, otherwise the nearest bound |
| FecControl.GroupStart | fec_control.go:58-69 | the group of a number is the aligned block of K numbers that contains it |
| FecControl.GroupStartUnique | fec_control.go:58-69 | no other aligned block contains the number |
| FecControl.NextGroupStart | fec_control.go:70-85 | the first group start at or after a number; 0 exactly when none is left below 2^32 |
| FecControl.ParseMode | fec_control.go:34-54 | a payload that parses is a valid control: generation and boundary are not zero |
| FecControl.ModeRoundTrip | fec_control.go:23-54 | every valid SUSPEND or RESUME control survives encoding and parsing |
| FecControl.ModeParseExact | fec_control.go:34-54 | a payload is accepted only if it is byte for byte the encoding of what it parses to |
| FecControl.RxFence.Apply | fec_control.go:114-142 | the packed 64-bit window follows the window rules: only newer generations count, SUSPEND opens, RESUME closes or stretches |
| FecControl.RxFence.Reset | fec_control.go:154-158 | an epoch change leaves no window and generation 0 |
| FecParity.OpenSeal | fec.go:251-274 | what was sealed under a sequence number opens to the same text (AEAD as an authenticated identity) |
| FecParity.BodyUnique | fec.go:251-274 | an accumulator that is the XOR of the members, cut to the longest one, is the parity body |
| FecParity.ParityRoundTrip | fec.go:251-274 | header, member lengths and sealed XOR body of a parity frame are all read back as written, for every group of 2..64 payloads |
| FecParity.ParityHeaderExact | rx_actor.go:271-283 | a parity header is accepted only if it is byte for byte kind, group start and K |
| FecEncoder.FecEncoder.constructor | fec.go:106-118 | a new encoder is multipath and armed, with no open group and no control |
| FecEncoder.FecEncoder.PublishModeControl | fec.go:122-131 | a new generation with the boundary; nothing happens without a boundary, and generation 0 is skipped on wrap |
| FecEncoder.FecEncoder.SetPhysicalPathCount | fec.go:144-192 | only the change between one path and several acts: the open group is given up, SUSPEND names its start, RESUME names the next complete group |
| FecEncoder.FecEncoder.Add | fec.go:197-234 | the in-place encoder with its reused accumulator is the encoder that keeps the payloads and builds the parity from scratch |
| FecEncoder.FecEncoder.Accumulate | fec.go:213-230 | the accumulator stays the zero-padded XOR of exactly the open group's payloads |
| FecEncoder.FecEncoder.Reset | fec.go:244-249 | clearing only the touched part of the accumulator clears it completely |
| FecEncoder.FecEncoder.BuildParity | fec.go:251-274 | the frame built from accumulator and lengths is the parity of the group's payloads |
| SenderModes.ModeMachine | fec.go:122-234 | over every run of path-count changes, frames and numbered batches dropped before the encoder: parity starts strictly increase, the first group after RESUME starts at the announced boundary if and only if the frame with that number was not dropped, and no group starting in [SUSPEND boundary, RESUME boundary) ever gets a parity |
| SenderModes.PathsKeeps | fec.go:144-192 | a path-count change keeps the mode invariant, SUSPEND and RESUME included |
| SenderModes.SendKeeps | fec.go:197-234 | a data frame keeps the mode invariant, whether it is skipped, joins a group or completes one |
| SenderModes.LoseKeeps | client.go:396-400 | so does a numbered batch the encoder never sees |
| ParityGenuine.RunGenuine | fec.go:197-274 | in runs that lose numbered frames only between groups, every parity covers exactly the payloads numbered start .. start+K-1 |
| ParityGenuine.LossInsideGroupBreaks | client.go:396-400 | dropping a numbered batch while a group is open leads to a parity over the wrong payloads |
| ParityGenuine.GenuineIffNoOpenGroup | client.go:396-400 | dropping a numbered batch before the encoder sees it keeps every later parity covering the right payloads if and only if no group is open |
| ParityGenuine.AcceptedIffAligned | rx_actor.go:271-283 | the receiver accepts a parity's header if and only if the group starts at 1 modulo K |
| ParityGenuine.LossMisaligns | fec.go:207-213 | dropping a batch between groups while the encoder is armed and away from a group start leads to a parity the receiver throws away |
| ParityGenuine.LossHarmlessIff | client.go:396-400 | after a dropped batch every parity of every later run without loss covers the right payloads and is accepted, if and only if no group was open and an armed encoder is left at a group start |
| ParityGenuine.SafeRunsProtect | fec.go:197-274 | in runs whose drops meet that condition every parity starts at 1 modulo K, covers exactly its payloads and is accepted |
| ParityGenuine.LossBetweenGroupsMisaligns | client.go:402-411 | the concrete case K = 2: after dropping frame 3 the next group starts at 4, and its parity is rejected |
| AcceptedParities.RunSealed | fec.go:197-234 | over every run, whatever is dropped: a parity covers exactly the first K frames from its start on that were not dropped, and the open group holds all of them so far |
| AcceptedParities.RunTrusted | fec.go:197-274 | in runs whose every drop leaves an open group that starts at 1 modulo K without exactly one dropped number, no parity the receiver takes has exactly one number of its group dropped |
| AcceptedParities.WholeGroupDropIff | client.go:396-400 | for an open group without a dropped number a drop is safe if and only if it takes two or more numbers and two are left in the group |
| AcceptedParities.WrongButRejected | client.go:396-400 | the concrete case K = 2: a drop inside a group starting at 4 makes a parity over the wrong payloads, which the receiver throws away |
| Boundaries.SuspendsAtStartIff | fec.go:165-177 | a SUSPEND names a group start, 1 modulo K, if and only if no group was open or the open one starts there |
| Boundaries.SafeRunsAnnounceStarts | fec.go:144-192 | in runs whose drops are harmless every SUSPEND names a group start |
| Boundaries.MisalignedSuspend | fec.go:165-177 | the concrete case K = 3: after a drop between groups SUSPEND names 5, in the middle of group 4 |
| Boundaries.BoundariesDivideNoGroup | fec.go:144-234 | over every run, whatever is dropped: no SUSPEND boundary falls inside a group whose parity the receiver accepts, and every parity covers K numbers already given out |
| GroupDecoder.RecoverOne | fec.go:783-786 | with the parity here and one member absent recovery always succeeds: the length guards never fire |
| GroupDecoder.StepValid | fec.go:501-550 | after any input whatever: at most 512 live groups, every live group still waits for something, and the lost counter stays 0 |
| GroupDecoder.MakeRoomValid | fec.go:687-725 | a full decoder makes room by giving up exactly one group, the first in creation order that is still live; with room nothing goes |
| DecoderSoundness.StepGenuine | rx_actor.go:197-333 | whatever the state, an input of a genuine run keeps every live group genuine and yields only genuine frames; a parity of a group of which two numbers were never sent may hold anything |
| DecoderSoundness.DecoderSound | fec.go:501-550 | over every run, with duplicates, eviction, forgotten finished groups and recreated groups, every frame recovered is the one that was sent, whatever the parities of groups that lack two numbers for ever hold |
| FecDecoder.FecGroup.Init | fec.go:687-725 | a recycled object stores the empty group, whatever it held before |
| FecDecoder.FecGroup.Absorb | fec.go:541-549 | after XORing one payload in, mask and accumulator store the group with that member |
| FecDecoder.FecDecoder.constructor | fec.go:311-328 | the empty decoder with its own ring, fence and free list |
| FecDecoder.FecDecoder.PruneGroupOrder | fec.go:727-747 | trimming and compacting the creation queue drops only records of groups that are gone, up to the first live one |
| FecDecoder.FecDecoder.Release | fec.go:847-866 | a released object goes to the free list once and is never live there |
| FecDecoder.FecDecoder.NewGroup | fec.go:687-725 | eviction, recycling and creation act as the simple decoder does; live groups and spares never share an object |
| FecDecoder.FecDecoder.EvictOldest | fec.go:692-705 | the group given up is the oldest one still live |
| FecDecoder.FecDecoder.CountMissing | fec.go:816-826 | the number of offsets below K without a bit in the mask |
| FecDecoder.FecDecoder.Finish | fec.go:834-845 | the group ends, is remembered as done and its object is recycled |
| FecDecoder.FecDecoder.Scan | rx_actor.go:239-249 | the scan that stops at the second absent member still tells none, one and several apart and names the one |
| FecDecoder.FecDecoder.RebuildFromAcc | rx_actor.go:258-264 | parity XOR accumulator is the absent member, byte for byte and to its length |
| FecDecoder.FecDecoder.TryRecover | rx_actor.go:235-268 | the object's verdict and its effect are those of the simple decoder |
| FecDecoder.FecDecoder.DropRange | fec.go:413-429 | exactly the groups in the range are forgotten, none is marked done |
| FecDecoder.FecDecoder.MaybeRetire | fec.go:431-455 | retirement happens exactly when delivery has reached the boundary, and drops exactly the groups below it |
| FecDecoder.FecDecoder.HandleMode | rx_actor.go:155-168 | an accepted control moves the fence, raises the cleanup boundary and drops the window's groups |
| FecDecoder.FecDecoder.OnData | rx_actor.go:197-233 | a data frame acts on the pending groups as in the simple decoder, for every mask, accumulator and recycled object |
| FecDecoder.FecDecoder.ReadLengths | rx_actor.go:284-304 | the loop over the length fields reads all K lengths and their maximum, or rejects the frame |
| FecDecoder.FecDecoder.OnParity | rx_actor.go:271-333 | a parity frame acts as in the simple decoder, rejected headers, duplicates and failed opens included |
| FecDecoder.FecDecoder.OnControl | rx_actor.go:170-195 | a control payload is a parity, a mode control or a protocol error, and acts accordingly |
| FecDecoder.FecDecoder.Reset | rx_actor.go:142-153 | an epoch change forgets groups, done ring, fence and boundaries and keeps the counters |
| RecoveryComplete.RecoveryIsComplete | fec.go:501-550 | for every K: K-1 members and the parity, in any order and with any repetition, rebuild the missing payload with its exact bytes and length, if the group is not taken away meanwhile |
| RecoveryComplete.OwnTrafficRecovers | fec.go:611-685 | with no control in force, the group's own traffic alone is enough: nothing else is assumed |
| RecoveryComplete.OwnTrafficIsKept | fec.go:760-813 | the group's own traffic never makes the decoder forget it before it has recovered |
| RecoveryComplete.StepBeside | fec.go:611-725 | with no control in force and at most 512 groups in play, an input about one group leaves every other one pending as it was |
| RecoveryComplete.MixedTrafficRecovers | fec.go:501-550 | with no control in force and at most 512 groups in play, K-1 members and the parity rebuild the missing payload whatever traffic of the other groups comes in between |
| Reorder.InsertValid | buffer.go:282-325 | every insertion keeps the buffer sound: nothing due stays behind, nothing lies outside the window, the gap flag is set exactly when something waits; a frame comes back exactly when it is late, out of reach or a duplicate |
| Reorder.InsertEffect | buffer.go:282-325 | a held frame joins the map, a due frame leaves together with everything consecutive behind it, anything else changes nothing |
| Reorder.ExpireEffect | buffer.go:550-569 | for ordered numbers a timeout moves exactly to the smallest buffered number, counts exactly the absent ones, loses no buffered frame and always delivers something |
| Reorder.Fitting | buffer.go:297-302 | the window for a distance; 65535 fits only a window that is already at its maximum |
| Reorder.WrapBreaksOrder | buffer.go:287-293 | one number past 2^32 - 65536 the signed comparison delivers an ancient frame after the newest: the bound of the ordering claims is exact |
| Reorder.ValidIsSound | buffer.go:282-325 | every state the ordering claims speak of is sound in the sense of the ring, which holds for numbers of any size |
| Reorder.InsertSoundIff | buffer.go:282-325 | for every 32-bit number: the buffer stays inside its window around the circle, with nothing due left behind and the gap flag right, if and only if the insertion does not deliver 2^32 - 1 with a frame waiting behind it |
| Reorder.ExpireSoundIff | buffer.go:550-569 | so it does over a timeout, under the same condition |
| Reorder.InsertConserves | buffer.go:282-325 | an inserted frame is afterwards held, delivered or released, exactly once |
| ReorderRing.RehashStep | buffer.go:329-362 | rehashing a slot never collides: its new slot is still empty |
| ReorderRing.SlotIffStored | buffer.go:304-315 | the slot of a number in the window, taken around the 32-bit circle, is occupied exactly when that very number is stored: the conflict branch cannot be reached |
| ReorderRing.TopNumberClashes | buffer.go:283-315 | number 2^32 - 1 is the exception: delivered with a frame waiting behind it, it resets the expected number; the map delivers a later frame whose slot is taken |
| ReorderRing.TopNumberRefused | buffer.go:283-315 | the ring refuses that very frame: the same four insertions give it back |
| ReorderRing.ReorderBuffer.constructor | buffer.go:140-156 | an empty ring of 2048 slots is the empty map |
| ReorderRing.ReorderBuffer.GrowWindow | buffer.go:329-362 | growth doubles until the distance fits and keeps every frame, or fails at 65536 |
| ReorderRing.ReorderBuffer.Rehash | buffer.go:345-361 | every stored frame is in its slot of the new ring |
| ReorderRing.ReorderBuffer.RefreshGap | buffer.go:396-411 | the gap flag is set exactly when something is buffered and the expected slot is empty |
| ReorderRing.ReorderBuffer.Drain | buffer.go:364-392 | the ring's drain delivers the map's consecutive run, wraps the expected number and terminates on the buffered count, for numbers of any size |
| ReorderRing.ReorderBuffer.Insert | buffer.go:282-325 | for every 32-bit number inserting into the ring is inserting into the map: same state, same deliveries, same release; the ring is valid again unless 2^32 - 1 was delivered with frames waiting, and then it refuses a frame whose slot is taken |
| ReorderRing.ReorderBuffer.ExpireGap | rx_actor.go:109-130 | the slot scan finds the nearest buffered number around the circle; skipped frames are counted exactly |
| ReorderRing.ReorderBuffer.FirstOccupied | rx_actor.go:115-121 | the first occupied slot after the expected one holds the nearest buffered number |
| ReorderRing.ReorderBuffer.Reset | rx_actor.go:92-98 | an epoch change releases every buffered and every pending frame once |
| ReorderRing.ReorderBuffer.ReleaseRing | buffer.go:429-440 | every frame in the ring is released exactly once |
| RxPath.ProcessInv | rx_batch.go:194-258 | a batch of genuine frames and controls keeps everything held, ready and handed over genuine and in strictly increasing order |
| RxPath.ExpireInv | rx_actor.go:109-130 | so does the gap timer |
| RxWorker.RxSessionWorker.InsertPair | rx_batch.go:179-192 | original and recovered frame are inserted lower number first, a duplicate is released |
| RxWorker.RxSessionWorker.OnControlFrame | rx_batch.go:217-239 | a control frame, whatever it holds, goes to the decoder; what it rebuilds is inserted and handed over |
| RxWorker.RxSessionWorker.Process | rx_batch.go:194-258 | the index loops over any batch are the frame-by-frame receive path, protocol errors included, as long as no frame finds the numbers used up with frames waiting |
| RxWorker.BelowTopTakes | rx_batch.go:194-258 | no frame does so in a batch whose groups all end below 2^32 - 1 |
| RxWorker.RxSessionWorker.GapTimer | rx_actor.go:109-130 | a due gap is given up and what it held back is handed over, even when that uses up the numbers |
| RxWorker.RxSessionWorker.Reset | rx_batch.go:194-204 | a reset barrier empties decoder and reorder buffer and releases every frame held |
| EndToEnd.EndToEndSafety | rx_batch.go:179-259 | for every sender run in which no parity the receiver takes has exactly one number of its group dropped, every loss, repetition and interleaving of what was sent, and every choice of batches the delivery queue drops: each frame output at number n is the payload numbered n, and the numbers strictly increase |
| EndToEnd.LossInsideGroupCorrupts | client.go:396-400 | a drop inside a group really makes the receiver rebuild a frame with another frame's payload |
| CorruptingLoss.OutputSafeIff | client.go:396-400 | in every state of every run: after a dropped batch no later run without loss makes the receiver output a wrong frame, if and only if no open group starting at 1 modulo K is left with exactly one number dropped |
| CorruptingLoss.SafeNowIff | client.go:396-411 | the same of any moment: the receiver stays safe over all later runs without loss if and only if the open group is not one the receiver will take with exactly one number dropped |
| CorruptingLoss.SpoiledComesOut | rx_actor.go:235-268 | for every K and every such state: completing the group makes the receiver, from frames that were sent, rebuild the dropped one with a wrong payload and hand it over |
| CorruptingLoss.SafeOutputs | rx_batch.go:179-259 | without such a parity everything that comes out is genuine, whatever the other parities cover |
| SpoiledRuns.RunSafeIff | client.go:389-411 | of a whole run: every run with the same events and any payloads outputs only genuine frames, if and only if no parity the receiver takes has exactly one number of its group dropped |
| RxOwnership.ProcessConserves | rx_batch.go:194-270 | every buffer of a batch, and every rebuilt one, ends in exactly one of ring, pending chain, delivery queue or pool, also at a protocol error |
| RxOwnership.ExpireConservesOwned | rx_actor.go:109-130 | the gap timer neither creates nor loses a buffer |
| RxOwnership.LowerFirstIsSafe | rx_batch.go:179-192 | inserting the lower number first never makes the higher one late or a duplicate |
| RxOwnership.PairKeepsBoth | rx_batch.go:179-192 | a frame and the one rebuilt with its help, both acceptable on their own, are both kept when inserted as the worker does |
| RxOwnership.HigherFirstLosesLower | rx_batch.go:179-192 | the other order loses the lower frame when nothing was expected yet |
| EpochBarrier.BarrierHolds | rx_batch.go:96-111 | for every interleaving of pushes, flushes, advances and processing: once an advance has returned no frame of an older producer is inserted, and after a reset none is held |
| EpochBarrier.BumpAloneIsNotABarrier | rx_batch.go:96-109 | without the queued barrier an old batch already past its test would go on inserting |
| EpochBarrier.RunConserves | rx_batch.go:286-315 | every pushed buffer stays accounted for exactly once, stale generations and resets included |
| FenceProtocol.WindowSafeIff | fec_control.go:114-142 | the window from a SUSPEND to a later RESUME covers an encoded group if and only if a parity was emitted between the two |
| FenceProtocol.BypassIsSafe | fec_control.go:161-170 | a frame dispatched under a generation the fence has seen is bypassed only if its group has no parity and will never get one |
| FenceProtocol.ApplyKeepsWindow | fec_control.go:114-142 | applying a published control keeps the window that of one SUSPEND and its own RESUME, unless a SUSPEND is skipped |
| FenceProtocol.ControlSparesOpen | fec_control.go:114-170 | while a group is open the current control is a RESUME, and applying it, whatever window was held before, bypasses no number from the group's start on |
| FenceRuns.FenceSafety | client.go:389-429 | over every run of path changes, dispatches, drops before and after the encoder, and deliveries on any number of streams in which no SUSPEND is skipped while a window is held, no bypassed frame belongs to a group that has or will get a parity |
| FenceRuns.FenceBeforeData | client.go:624-655 | over every run, skipped SUSPENDs included: on every stream each data frame follows a control at least as new as the one current at its dispatch |
| StretchedWindow.SkippedSuspendStretches | fec_control.go:124-140 | without the proviso: a run of the whole protocol over three streams, one path change per dispatched batch, in which a RESUME overtakes the SUSPEND before it and the receiver lets through a frame of an encoded group |
| Retirement.RetirementInvisible | fec.go:393-468 | a decoder that retires groups and one that never does deliver the same frames in the same order, wherever the SUSPEND boundaries fall, over every run in which neither is full, no frame is beyond the window and no parity comes for a group that a boundary divides |
| Retirement.StepSame | fec.go:501-550 | one input or timeout keeps the two receivers in step; they may differ only in groups whose members are all delivered or waiting, and in groups that a boundary divides, which have no parity |
| Retirement.UncoveredIsLive | fec.go:431-455 | a group a recovery could still matter to, neither covered nor divided by a boundary, is neither retired nor remembered as done |
| Retirement.SessionData | rx_batch.go:241-256 | the session's receive path is such a receiver for data frames |
| Retirement.SessionControl | rx_batch.go:217-239 | and for control frames |
| RetiredGroups.RetiredForGood | fec.go:431-455 | over every run of ordered numbers, with any boundaries, full decoders and frames beyond the window: a retired number is behind the delivery then and after every continuation, and its frame, arrived or rebuilt, is released with nothing delivered |
| RetiredGroups.DroppedIsCovered | fec.go:413-455 | a pending group that retiring drops has every member below the boundary delivered, given up or waiting at that moment, and all of them unless the boundary divides the group |
| RetiredGroups.StepBehind | fec.go:393-468 | every event keeps the retirement boundary behind the delivery, and only adds to what is retired and covered |
| RetiredGroups.RetiresWholeIff | fec.go:431-455 | every run that suspends at a boundary retires groups only when all their members are delivered, given up or waiting, if and only if the boundary is a group start |
| SenderRetirement.InvisibleOnSenderRuns | fec.go:393-468 | retirement is invisible on everything a sender emits, in any order and with any losses, boundaries inside groups included, with room and within the window |
| SenderRetirement.InvisibleOnPlainRuns | client.go:624-698 | and without regard to the window when no frame or parity comes twice, as when each batch is queued on one backend |
| SenderRetirement.RetiredGroupStillDelivers | fec.go:431-455 | a real run with K = 3 in which group 4 is retired at boundary 5 and its frame 6 is still delivered afterwards |
| RetirementOnce.InvisibleWithoutRepeats | fec.go:393-468 | a decoder that retires and one that never does deliver the same frames in the same order, frames beyond the window included, when neither is full and nothing arrives twice |
| RetirementOnce.StepOnce | fec.go:501-550 | one new input or a timeout keeps the two receivers in step; each finished group is accounted for by the frames and the parity that came |
| RetirementLimits.FullDecoderDiffers | fec.go:687-725 | room is needed: a run within the window in which the full decoder that never retires gives up a group and so loses a frame the other delivers |
| BeyondWindow.BeyondWindowDiffers | fec.go:749-757 | the window is needed once a frame is repeated: a run with room in which a frame comes twice, first beyond the window, its group is forgotten as finished on one side only, and the outputs differ |
| Framing.DecodeEncode | frame.go:503-538 | every list of records within the limit is decoded to exactly its payloads and numbers, and decoding goes on with what follows |
| Framing.ParseExact | frame.go:509-538 | what is read as a record is byte for byte the encoding of a record within the limit |
| Framing.FramesRoundTrip | stream_padding.go:24-57 | frames written, sealed, decoded and opened come back as they were; number 0 is never sealed |
| Framing.ParseStable | frame.go:503-538 | more bytes never change a verdict already reached |
| Framing.PadBucket | frame.go:346-372 | the padded record is the smallest bucket above it, cut to the limit; nothing is added at or above the limit |
| StreamWriter.StreamBuffer.Reserve | frame.go:392-403 | growth at least doubles and keeps the contents |
| StreamWriter.StreamBuffer.AppendFrame | frame.go:380-430 | the bytes written in place are the old contents and one encoded record |
| StreamWriter.StreamBuffer.AppendBatch | stream_padding.go:77-94 | the whole batch, in order, and the position of its last record |
| StreamWriter.StreamBuffer.PadTail | stream_padding.go:136-157 | the padding field of the last record counts exactly the cover bytes appended |
| FrameScanning.ByteReader.Read | frame.go:579-581 | any split of the stream into reads, with an error possible at each |
| FrameScanning.FrameScanner.BufferedFrameReady | frame.go:487-501 | true exactly when a complete record is buffered |
| FrameScanning.FrameScanner.Compact | frame.go:542-549 | moving the rest to the front keeps it |
| FrameScanning.FrameScanner.Grow | frame.go:551-577 | room for the whole announced record, contents kept |
| FrameScanning.FrameScanner.ReadFrame | frame.go:503-586 | the next record of the stream however it is split, nothing lost on a read error, and no read at all when a record is ready |
| FrameScanning.ReceiveAll | frame.go:503-586 | a stream of records is returned whole and in order, for every split; after an early end the rest is still there |
| TailPadding.AlignedTarget | stream_padding.go:105-118 | the least length from n on whose ciphertext fills whole segments, if one TLS record can hold it, else n |
| TailPadding.Budget | stream_padding.go:120-129 | the largest padding within 10 percent and 512 bytes |
| TailPadding.TailPad | stream_padding.go:136-157 | padding is added only up to the least aligned length, within budget and within the record limit |
| TailPadding.PadsWhenAffordable | stream_padding.go:136-157 | a batch of fresh records is padded exactly when the least aligned length fits a record and the budget |
| TailPadding.PaddingInvisible | stream_padding.go:136-157 | padding the last record leaves what the reader decodes unchanged, whatever follows |
| Dispatch.Backend.CompleteQueuedBytes | adaptive_multipath.go:81-118 | the counter goes down by the bytes and never below zero |
| Dispatch.Backend.TrySend | client.go:624-669 | success queues the batch behind the control it needs, failure restores everything; queuedBytes stays what is queued and held |
| Dispatch.Backend.Take | client.go:2130-2155 | the writer takes the oldest queued batch, if any, and holds it; queuedBytes still counts it |
| Dispatch.Backend.Finish | client.go:2161-2173 | everything held is on the wire, in order, and no longer counted |
| Dispatch.TryAll | client.go:671-681 | the preferred backend if it has room, else the first in the list that has, else none; no backend is changed unless it takes the batch |
| Dispatch.AsyncPort.NextSeq | client.go:137-148 | numbers are handed out once, in order, and stop at 2^32 - 1 |
| Dispatch.AsyncPort.SendToAny | client.go:617-698 | one backend owns the whole batch, or every payload is released once, whatever the writers do meanwhile |
| Dispatch.AsyncPort.SendFrameTo | client.go:722-742 | a parity frame is queued or released |
| Dispatch.AsyncPort.DispatchOwnedBatch | client.go:389-429 | without backends the batch is dropped unseen by the encoder; otherwise the encoder learns the number of backends and takes every frame, and batch and parities are each queued once or released once |
| Dispatch.EncodeBatch | client.go:405-409 | the parities are those of feeding the frames to the encoder one by one |
| Dispatch.SinglePath | client.go:414-418 | over a single path no parity is ever built, so that none has to be given up |
| FairShare.ServiceIsPerByte | adaptive_multipath.go:184-192 | at the common rate the charge is 40 ns per byte |
| FairShare.DebtsStayClose | adaptive_multipath.go:558-630 | in every state of every run, active-set changes and the clearing of all paths included, debts are nonnegative and differ by at most 40 ns per byte of largest queue and batch plus 150000 ns |
| FairShare.EqualShares | adaptive_multipath.go:558-630 | two paths that stay active are charged equal bytes up to a fixed slack, however long that lasts |
| PathRanking.MinRtt | adaptive_multipath.go:415-449 | the smallest round-trip time among measured paths with room, or the bootstrap value when there is none below 2^32 - 1 |
| PathRanking.SomeEligible | adaptive_multipath.go:446-523 | there is a candidate if and only if some path with room is unmeasured or measured below 2^32 - 1: otherwise, and only then, the fallback picker decides |
| PathRanking.LowestScore | client.go:467-480 | the first path with the lowest score of round trip and queue penalty; none exactly when every score is at the cap |
| PathRanking.Rank | adaptive_multipath.go:525-535 | the in-place insertion sort ranks the candidates and loses none |
| PathRanking.ActiveTarget | adaptive_multipath.go:333-350 | two, three or four paths share exactly when pressure or demand reaches the threshold and that many are eligible |
| PathRanking.ActiveTargetMonotone | adaptive_multipath.go:333-350 | more pressure, demand or paths never means a smaller active set |
| PathRanking.StickySlack | adaptive_multipath.go:371-380 | a sixteenth of the round trip, forced into 500..5000 microseconds |
| Scheduler.Collect | adaptive_multipath.go:473-519 | exactly the eligible paths become candidates, every other path leaves the active set |
| Scheduler.FindEpoch | adaptive_multipath.go:573-586 | the least debt among members that were active, zero if none was |
| Scheduler.Activate | adaptive_multipath.go:587-599 | members are active, newcomers join at the epoch, the other candidates are cleared |
| Scheduler.LeastDebt | adaptive_multipath.go:604-609 | the least debt among the members |
| Scheduler.Rebase | adaptive_multipath.go:610-615 | all members' debts go down by the same amount |
| Scheduler.ChooseBest | adaptive_multipath.go:617-625 | the lowest score wins, among equals the shorter round trip |
| Scheduler.Share | adaptive_multipath.go:558-630 | the loops together are one fair decision: join, rebase, choose, charge |
| Scheduler.AsyncPort.PickSingle | adaptive_multipath.go:541-553 | the current path whenever it is a candidate within its tolerance, else the best one |
| Scheduler.AsyncPort.StaysLoyal | adaptive_multipath.go:541-553 | so a path used alone is kept as long as it is nearly as good as every eligible one |
| Scheduler.AsyncPort.PickBackend | client.go:467-506 | the fallback: the best score, unless the current path is in the list, has room and is within its hysteresis, which is then kept; the first path when nobody scores |
| Scheduler.AsyncPort.Pick | adaptive_multipath.go:389-630 | the members are the best eligible paths, as many as the load calls for, and the debts change as one fair decision; without a path with room the first one is taken alone; when all paths with room are out of measure every path is cleared and the fallback takes the first |
| ResumeTokens.ClientSession.AcceptResumeToken | server.go:626-639 | accepts exactly current and pending, promotes pending when presented, and never changes the token on offer |
| ResumeTokens.ClientSession.EnsurePendingResumeToken | server.go:641-653 | an unacknowledged pending token is never replaced |
| ResumeTokens.NoLockout | server.go:1534-1564 | over every run of losses, client restarts, session ends and failures a well-formed token in the client's hands is the live session's current or pending one, and a request is accepted exactly when its token is well-formed; memory and disk agree |
| ResumeTokens.OneTokenPerEpoch | server.go:655-660 | all responses within one session epoch carry the same token, for ever |
| ResumeTokens.LostFirstResponse | server.go:1628-1647 | the limit of the promise: a client whose very first response was lost holds no token and is refused after a restart |
| AddressPool.IncrementIP | client.go:2452-2459 | the byte loop adds one with carry and wraps to zero at the end of the space |
| AddressPool.Allocate | server.go:2122-2139 | the requested address if it is free, else the least free one not ending in 0 or 255; fails only if every such address is taken |
| AddressPool.GatewayInsideIff | server.go:1109-1110 | the gateway, the address after the pool's base, lies inside the pool if and only if the pool has a second address |
| AddressPool.LeaseTable.constructor | server.go:1092-1110 | only the gateway is in use |
| AddressPool.LeaseTable.AssignIPs | server.go:2140-2150 | both addresses or neither: an IPv6 failure gives the IPv4 address back |
| AddressPool.LeaseTable.Open | server.go:1586-1647 | the used sets stay exactly gateway plus live leases, all distinct, every lease inside its pool, on success and on every failure |
| AddressPool.LeaseTable.Destroy | server.go:2062-2074 | exactly the session's two addresses become free |

## Left out

- The lock-based (non-actor) form of decoder and reorder buffer, used with one configured connection: same operations on the same fields, one lock per call.
- Membership masks are sets of offsets, not 64-bit words; K never exceeds 64, so no bit is lost.
- AEAD internals, key derivation, salts and nonces: sealing appends a tag that is a function of number, length and text.
- Wall-clock time: gap deadlines, retry pauses, coalescing and keep-alive timers become choices of the run.
- Buffer pools: a pool is the multiset of buffers released to it.
- The delivery goroutine: which batches its queue had room for is a choice (`Output` in `EndToEnd`).
- Close and shutdown races of workers, ports and connections.
- Rate estimates (EWMA), observational ETAs and counters for the web interface.
- EndToEnd.EndToEndSafety: numbers up to 2^32 - 65536, and no parity that the receiver takes with exactly one number of its group dropped; both limits are exact, see `Reorder.WrapBreaksOrder`, `CorruptingLoss.SafeNowIff` and `SpoiledRuns.RunSafeIff`.
- Reorder.InsertValid: the order of delivery is claimed for numbers up to 2^32 - 65536, where it ends (`Reorder.WrapBreaksOrder`); soundness of the buffer for all numbers is `Reorder.InsertSoundIff`.
- Reorder.InsertEffect: the same limit, for the same reason.
- RxWorker.RxSessionWorker.Process: each insertion must find the buffer sound, that is, 2^32 - 1 not yet delivered with frames waiting; from there on ring and map differ (`ReorderRing.TopNumberClashes`, `ReorderRing.TopNumberRefused`).
- RxWorker.RxSessionWorker.InsertPair: the same limit, for the same reason.
- RxWorker.RxSessionWorker.OnControlFrame: the same limit, for the same reason.
- RxWorker.RxSessionWorker.GapTimer: the same limit, for the same reason.
- Retirement.RetirementInvisible: asks that neither decoder is full and no frame lies beyond the reorder window; each condition is needed, see `RetirementLimits.FullDecoderDiffers` and `BeyondWindow.BeyondWindowDiffers`, the second only where frames are repeated (`RetirementOnce.InvisibleWithoutRepeats`), and what holds without them is `RetiredGroups.RetiredForGood`. That no parity comes for a group divided by a boundary is met by every sender (`Boundaries.BoundariesDivideNoGroup`).
- RetirementLimits.FullDecoderDiffers: a run of inputs to the receiver, not tied to a run of the sender.
- BeyondWindow.BeyondWindowDiffers: a run of inputs to the receiver, not tied to a run of the sender.
- RetiredGroups.RetiresWholeIff: its witness for a boundary inside a group is a run of inputs to the receiver; `SenderRetirement.RetiredGroupStillDelivers` is one that a sender makes.
- FenceRuns.FenceSafety: carries the proviso that no SUSPEND is skipped while an older window is held, which is needed (`StretchedWindow.SkippedSuspendStretches`), and fewer than 2^64 - 1 controls and parities.
- Scheduler.AsyncPort.Pick: round-trip times, rates and queue lengths are read once per decision.
- FairShare.DebtsStayClose: queue and batch sizes up to 2^34 bytes, below which the 64-bit product in the service time does not wrap.
- ResumeTokens.NoLockout: assumes one handshake outstanding at a time, and that receiving and storing a response is one step.
- AddressPool.Allocate: a pool that is the whole address space (a prefix of length 0) is excluded; addresses are numbers rather than strings, requests stand for client wishes and remembered MAC bindings alike, and the lease table takes any gateway.
- The striping picker of the older interface, the round-robin choice of the parity path and the retained raw-slice interfaces: they would add easy members only.
- TLS, certificates, proxies, TAP and routing, configuration, web interface, bans and limits.
