# A Dafny model of NearObject

This project models the parts of the NearObject framework and its UWB driver stack that carry
its recursion, its concurrency and its arithmetic, and proves what they keep over every input
and every run. `dafny verify dfyconfig.toml` checks all of it.

Each part has a module of specification functions and laws. Where the program changes things
in place there is a second module, named `...Codec` or `...Object`, with the same operations as
loops and classes, proved against the functions. Protocols between threads are state machines
whose steps are critical sections, notifications and wakeups; the classes take those steps.

- `Bytes`, `TlvBer`, `TlvBerGrammar`, `TlvBerCodec`, `TlvBerBuilder`: BER-TLV trees after
  sections 8.1.2 and 8.1.3 of ITU-T X.690 with the tag limits of section 5.2.2 of ISO/IEC 7816-4;
  printer, parser, the language the parser accepts, and builder.
- `TlvSerialize`, `TlvSerializeCodec`: sets of enumerators as bit maps.
- `TaggedChildren`, `SecureRangingInfo`, `StaticRangingInfo`, `UwbRegulatoryInformation`,
  `UwbSessionData`, `UwbCapability`, `UwbCapabilityOctets`: the FiRa data objects over TLV.
- `TaskQueue`, `NearObjectSession`: the task queue, and the session that posts its membership
  changes to it; the session module runs the queue module's steps.
- `EventQueue`, `AppConfig`, `FiraDevice`, `SimulatorSessions`, `SimulatorHistory`: the simulator
  driver's event queue, its parameter sets, its session table, and that table told from the calls.
- `DdiPacking`, `DdiParameterTypes`, `DdiPackingCodec`: driver records packed behind one another,
  and their types by name.
- `SessionCache`, `CallbackRegistry`, `DeviceCallbacks`: the device's weak session cache and the
  connector's callback tokens.

Where the code does not do what it is for, the model follows the code, and a lemma says exactly
when it does:

- A length octet of 80 is read as zero (`TlvBer.LoneLengthOctet`; `TlvBer.CanonicalIff`), and a
  content of 2^32 octets or more is printed but refused by the parser (`TlvBer.RoundTripIff`).
- Setting a builder's tag appends to what an earlier call, refused or not, left there
  (`TlvBerBuilder.SetTagIff`), and building moves the children out
  (`TlvBerBuilder.BuildTwiceIff`).
- A three-octet tag's number is put together with a shift by eight, not by the seven of section
  8.1.2.4.2 of X.690 (`TlvBer.TagNumberIff`). Encoding uses the tag octets, so nothing depends
  on it.
- Bits that do not fit the octets of a bit map are cut off, and eight octets are read as 0,
  although eight can be written (`TlvSerialize.ValuesRoundTripIff`).
- A cancel is undone by a later plain stop, such as the destructor's (`TaskQueue.CancelFinalIff`).
- Adding near objects compares by value with the list only, so equal objects in one call are all
  added (`NearObjectSession.AddKeepsDistinct`); removing compares references.
- The simulator never makes a session Active, so it never refuses a parameter
  (`SimulatorSessions.NothingIsRefused`).
- Creating a session over a live one leaves two (`SessionCache.UniqueIff`).
- Deregistering a session callback never removes it (`CallbackRegistry.SessionDeregisteredIff`),
  and may remove others (`CallbackRegistry.DeregisteredAfter`).
- A short static vector leaves the octets of an earlier one behind it
  (`StaticRangingInfo.LastAloneIff`).
- The channel and the scheduled mode go to the driver in four octets, where the code's own table
  of sizes says one (`DdiParameterTypes.StatedSizeIff`).
- A list decoder copies a record of destination addresses without its addresses, and the one for
  commands drops the address mode (`DdiPacking.ListRoundTripIff`).

## Model

| member | source | states |
|---|---|---|
| `TlvBerGrammar.TagAccepted` | lib/shared/tlv/include/tlv/TlvBer.hxx:230-283 | every class, type and number is accepted: 0 to 1E in one octet, 1F to 7F in a second one, and 80 to FF with a last one of 00 to 7F in two; with those fields, in exactly those octets, whatever follows |
| `TlvBerGrammar.TagsAreThese` | lib/shared/tlv/include/tlv/TlvBer.hxx:230-283 | and no other octets are accepted as a tag |
| `TlvBer.TagNumberIff` | lib/shared/tlv/include/tlv/TlvBer.hxx:265-279 | the number of a longer accepted tag is the one section 8.1.2.4.2 of X.690 gives it if and only if the tag has two octets or the second of three is 80 |
| `TlvBer.TagNumberOff` | lib/shared/tlv/include/tlv/TlvBer.hxx:265-279 | a concrete tag, 1F 81 00, whose number 128 is read as 256 |
| `TlvBer.LengthFields` | lib/shared/tlv/include/tlv/TlvBer.hxx:309-346 | an accepted length is its only octet, or is written in the octets behind the first, as many as that one says |
| `TlvBerGrammar.LengthAccepted` | lib/shared/tlv/include/tlv/TlvBer.hxx:309-346 | every length field that is true is accepted: one octet below 80, or 80 to 84 with as many octets behind it, leading zeros or not |
| `TlvBerGrammar.LengthsAreThese` | lib/shared/tlv/include/tlv/TlvBer.hxx:309-346 | and no other octets are accepted as a length |
| `TlvBer.LengthPrefixFree` | lib/shared/tlv/TlvBer.cxx:255-287 | no printed length field is the beginning of another, up to 2^64 |
| `TlvBer.LengthRoundTrip` | lib/shared/tlv/TlvBer.cxx:255-287 | a length written and read back is itself if and only if it is below 2^32; a longer one is written in a form the reader refuses |
| `TlvBer.LengthShortest` | lib/shared/tlv/TlvBer.cxx:255-287 | no accepted length field is shorter than the one the printer writes, and one of equal size is the same octets unless it is the lone octet 80 |
| `TlvBer.RoundTrip` | lib/shared/tlv/TlvBer.cxx:121-220 | parsing the print of any well-formed tree, whatever follows it, gives the tree and consumes exactly the print |
| `TlvBer.RoundTripAll` | lib/shared/tlv/TlvBer.cxx:147-171 | the same for every list of siblings inside a constructed value |
| `TlvBer.RoundTripIff` | lib/shared/tlv/TlvBer.cxx:121-220 | the exact condition: the content must be shorter than 2^32, else the parser refuses what the printer wrote |
| `TlvBerGrammar.ParseIff` | lib/shared/tlv/TlvBer.cxx:147-220 | the parser accepts exactly the spellings of well-formed trees, with whatever true length fields at every depth, reads the tree that is spelled, and consumes exactly what spells it |
| `TlvBerGrammar.SpelledIsParsed` | lib/shared/tlv/TlvBer.cxx:147-220 | one half of it: any tree, any depth, any true length fields, whatever follows |
| `TlvBerGrammar.ParsedIsSpelled` | lib/shared/tlv/TlvBer.cxx:147-220 | the other half: from arbitrary octets, with the length fields that spell them |
| `TlvBer.SiblingsUnique` | lib/shared/tlv/TlvBer.cxx:121-171 | two sibling lists, shorter than 2^64 octets, with the same octets are the same list |
| `TlvBer.PrefixFree` | lib/shared/tlv/TlvBer.cxx:121-220 | no printed tree is the beginning of another, at any size below 2^64, the ones the parser refuses included |
| `TlvBer.DecodedIsWellFormed` | lib/shared/tlv/TlvBer.cxx:173-220 | whatever the parser accepts from arbitrary octets is a well-formed tree whose print is no longer than what was consumed |
| `TlvBer.Reparse` | lib/shared/tlv/TlvBer.cxx:121-220 | printing what was parsed from arbitrary octets and parsing that gives the same tree |
| `TlvBer.DecodePrefix` | lib/shared/tlv/TlvBer.cxx:173-220 | octets behind a successful parse change nothing |
| `TlvBer.TruncationRefused` | lib/shared/tlv/TlvBer.cxx:173-220 | no proper beginning of a printed tree is accepted |
| `TlvBer.CanonicalIff` | lib/shared/tlv/TlvBer.cxx:121-220 | printing gives back exactly the octets parsed if and only if every length field in them, at every depth, is the shortest one |
| `TlvBer.LoneLengthOctet` | lib/shared/tlv/include/tlv/TlvBer.hxx:309-346 | a concrete input whose length octet 80 (the indefinite form of section 8.1.3.6 of X.690) is read as length zero and printed as 00 |
| `TlvBerCodec.GetLengthEncoding` | lib/shared/tlv/TlvBer.cxx:255-287 | the loop yields the shortest definite length field |
| `TlvBerCodec.ToBytes` | lib/shared/tlv/TlvBer.cxx:121-145 | the recursive printer computes the specified print |
| `TlvBerCodec.ParseLength` | lib/shared/tlv/include/tlv/TlvBer.hxx:309-346 | the loop over length octets computes the specified reader, with its failures |
| `TlvBerCodec.Parse` | lib/shared/tlv/TlvBer.cxx:173-220 | the recursive-descent parser succeeds exactly on what the specification accepts, with its tree and its size |
| `TlvBerCodec.ParseConstructedValue` | lib/shared/tlv/TlvBer.cxx:147-171 | the sibling loop, which may overrun the length before it fails, computes the specified list |
| `TlvBerBuilder.Builder.SetTag` | lib/shared/tlv/TlvBer.cxx:229-253 | the effect on every field, for well-formed and malformed tags, on fields that may already be in use |
| `TlvBerBuilder.Builder.SetValue` | lib/shared/tlv/TlvBer.cxx:302-307 | replaces the value and nothing else |
| `TlvBerBuilder.Builder.AddTlv` | lib/shared/tlv/TlvBer.cxx:309-314 | appends the child and changes nothing else |
| `TlvBerBuilder.Builder.Reset` | lib/shared/tlv/TlvBer.cxx:328-333 | clears every field, the tag included |
| `TlvBerBuilder.Builder.Build` | lib/shared/tlv/TlvBer.cxx:335-353 | refuses a constructed tag with a value and a primitive tag with children, and otherwise returns the fields; the children of a constructed tree are moved out of the builder |
| `TlvBerBuilder.BuiltIff` | lib/shared/tlv/TlvBer.cxx:335-353 | when a build is refused, and what it leaves in the builder |
| `TlvBerBuilder.BuildTwiceIff` | lib/shared/tlv/TlvBer.cxx:27-32 | building again gives the same tree if and only if the build was refused, the tag is primitive, or there were no children to move out |
| `TlvBerBuilder.SetTagOnce` | lib/shared/tlv/TlvBer.cxx:229-253 | a tag set on a builder without one is well formed if and only if the parser accepts the octets given, and then it is the tag they denote |
| `TlvBerBuilder.SetTagIff` | lib/shared/tlv/TlvBer.cxx:229-253 | on any builder, an accepted tag becomes the tag of the builder if and only if no octet of an earlier one, accepted or refused, is left in it |
| `TlvBerBuilder.SetTagTwice` | lib/shared/tlv/TlvBer.cxx:229-253 | a tag set on top of a complete one never gives a well-formed tree |
| `TlvBerBuilder.RefusedLeaves` | lib/shared/tlv/TlvBer.cxx:229-253 | what refused octets leave in any builder: as many of them as a longer accepted tag begins with, and no more, with class and type of the first |
| `TlvBerBuilder.RefusedTagStays` | lib/shared/tlv/TlvBer.cxx:229-253 | a concrete pair: after the refused 1F 80, setting 05 gives the well-formed tag 1F 80 05 |
| `TlvBerBuilder.BuildPrintParse` | lib/shared/tlv/TlvBer.cxx:335-353 | building from an accepted constructed tag and well-formed children, printing and parsing gives the same tree |
| `TlvBerBuilder.BuildPrintParseValue` | lib/shared/tlv/TlvBer.cxx:335-353 | the same for a primitive tag and a value |
| `Bytes.BigEndianOctets` | lib/shared/tlv/TlvSerialize.cxx:29-53 | writing a number in k octets keeps it modulo 256^k |
| `Bytes.LittleEndianOctets` | windows/devices/uwb/UwbCxAdapterDdiLrp.cxx:631-691 | the same for octets in host order |
| `TlvSerialize.TestWithBit` | lib/shared/tlv/include/tlv/TlvSerialize.hxx:100-110 | setting a bit of a mask sets that bit and leaves the others |
| `TlvSerialize.MaskHasOneBit` | lib/shared/tlv/TlvSerialize.cxx:9-16 | the mask of an index has that bit and no other |
| `TlvSerialize.MasksDiffer` | lib/shared/tlv/TlvSerialize.cxx:9-27 | different indexes have different masks |
| `TlvSerialize.NoMaskPast` | lib/shared/tlv/TlvSerialize.cxx:9-16 | there is a mask for an index if and only if it is below 64 |
| `TlvSerialize.MaskBits` | lib/shared/tlv/include/tlv/TlvSerialize.hxx:100-110 | a bit of the encoded mask is set if and only if one of the values has it |
| `TlvSerialize.KeysOfMask` | lib/shared/tlv/include/tlv/TlvSerialize.hxx:77-110 | for every list of values, in any order and with repetitions, the keys decoded from its mask are those values as a set |
| `TlvSerialize.TestCutOff` | lib/shared/tlv/include/tlv/TlvSerialize.hxx:31-40 | cutting a mask off at k bits keeps exactly the bits below k |
| `TlvSerialize.ValuesRoundTripIff` | lib/shared/tlv/include/tlv/TlvSerialize.hxx:49-110 | for every list, map and length: there is an encoding if and only if every value has a bit and at most eight octets are asked for, and decoding it gives the same set if and only if there are no values, or there are fewer than eight octets and the bit of every value fits in them |
| `TlvSerialize.CutOffLoses` | lib/shared/tlv/include/tlv/TlvSerialize.hxx:31-40 | a concrete value whose bit 9 is cut off by one octet |
| `TlvSerialize.DecodedDistinct` | lib/shared/tlv/include/tlv/TlvSerialize.hxx:77-89 | no key is decoded twice |
| `TlvSerializeCodec.GetBitIndexFromBitMask` | lib/shared/tlv/TlvSerialize.cxx:18-27 | the loop finds the index of a mask if and only if it is the mask of one bit of a word |
| `TlvSerializeCodec.ReadSizeTFromBytesBigEndian` | lib/shared/tlv/include/tlv/TlvSerialize.hxx:49-67 | the loop computes the big-endian number, or 0 for eight octets or more |
| `TlvSerializeCodec.GetBytesBigEndianFromBitMap` | lib/shared/tlv/TlvSerialize.cxx:29-53 | the loop yields that many octets, most significant first, of the value modulo 256^length; more than eight is an exception |
| `TlvSerializeCodec.EncodeValuesAsBytes` | lib/shared/tlv/include/tlv/TlvSerialize.hxx:100-110 | the loop computes the specified octets, or the exception for a value that has no bit or for more than eight octets |
| `TlvSerializeCodec.AssignValuesFromBytes` | lib/shared/tlv/include/tlv/TlvSerialize.hxx:77-89 | the loop computes the specified keys |
| `TaskQueue.StepKeepsInv` | lib/shared/notstd/task_queue.cxx:48-187 | every step of a poster, stopper or worker keeps the order of tasks and the absence of lost wakeups: a worker asleep has nothing to wake for, or some thread still owes a notify |
| `TaskQueue.ReachableInv` | lib/shared/notstd/task_queue.cxx:48-187 | the invariant holds after every interleaving |
| `TaskQueue.FirstInFirstOut` | lib/shared/notstd/task_queue.cxx:121-187 | in every run the tasks accepted are those posted before the first stop, and they are, in post order, what has run, what is running, the batch and the queue |
| `TaskQueue.ModeByHistory` | lib/shared/notstd/task_queue.cxx:48-101 | in every run the mode is the one that construction and the last stop, plain or cancel, have set |
| `TaskQueue.OwedAfter` | lib/shared/notstd/task_queue.cxx:48-65 | what each step leaves a thread to notify: a stop always, a post only when it is accepted into an empty queue, and each once |
| `TaskQueue.NotifiedOwesNothing` | lib/shared/notstd/task_queue.cxx:182-184 | a thread that has notified owes nothing until it posts or stops again |
| `TaskQueue.WorkDecreases` | lib/shared/notstd/task_queue.cxx:121-163 | a measure over phase, batch and queue falls with every step of the worker once a stop is pending |
| `TaskQueue.WorkIsBounded` | lib/shared/notstd/task_queue.cxx:48-187 | in any run from a pending stop, whatever others do, the worker takes at most as many steps as the measure, spurious wakeups included |
| `TaskQueue.NeverStuck` | lib/shared/notstd/task_queue.cxx:121-163 | after a stop until the worker has exited, and while it runs and something accepted has not been run, one of its steps, or a notify still owed, can be taken |
| `TaskQueue.AcceptedTasksRun` | lib/shared/notstd/task_queue.cxx:121-187 | in any run of a queue that is not stopped, however much others post meanwhile, the first n tasks accepted have all run after a number of steps of the worker fixed at the start |
| `TaskQueue.EventuallyRuns` | lib/shared/notstd/task_queue.cxx:121-187 | from every state of a running queue there is a run of the worker and of owed notifies that runs everything accepted |
| `TaskQueue.EventuallyExits` | lib/shared/notstd/task_queue.cxx:48-163 | there is a run without posts and stops at the end of which the worker has exited |
| `TaskQueue.OwnStepsBounded` | lib/shared/notstd/task_queue.cxx:121-163 | in every run, stopped or not, the worker takes no more steps than it has work for, and six more each time it is roused: with nothing to do it sleeps |
| `TaskQueue.AtExit` | lib/shared/notstd/task_queue.cxx:121-187 | at exit what has run is a prefix of what was accepted, and all of it if no cancel was asked for |
| `TaskQueue.CancelDrops` | lib/shared/notstd/task_queue.cxx:48-101 | for a cancel at any point of any run from the start: unless a plain stop comes later, what was in the queue then is in it at the end, and what has run or is running is the beginning of what the worker had taken by then |
| `TaskQueue.CancelAtExit` | lib/shared/notstd/task_queue.cxx:48-101 | so when the worker then exits, the tasks queued at the cancel never ran and all the others did |
| `TaskQueue.CancelHolds` | lib/shared/notstd/task_queue.cxx:48-101 | while no plain stop follows a cancel, nothing more is taken from the queue |
| `TaskQueue.CancelOverridden` | lib/shared/notstd/task_queue.cxx:48-101 | from every state with a pending cancel, a later plain stop lets the worker run everything that was accepted |
| `TaskQueue.CancelFinalIff` | lib/shared/notstd/task_queue.cxx:48-101 | what a pending cancel has left in the queue stays there in every run if and only if the worker has exited |
| `TaskQueueObject.Queue.Post` | lib/shared/notstd/task_queue.cxx:165-187 | the critical section refuses a post if and only if a stop is pending, else appends, and owes a notify if and only if the queue was empty |
| `TaskQueueObject.Queue.Stop` | lib/shared/notstd/task_queue.cxx:48-65 | a cancel sets Canceling and a plain stop Stopping, whatever the mode was, and a notify is owed |
| `TaskQueueObject.Queue.NotifyAll` | lib/shared/notstd/task_queue.cxx:182-184 | wakes the worker if it sleeps |
| `TaskQueueObject.Queue.LockAndTake` | lib/shared/notstd/task_queue.cxx:121-149 | sleeps, exits, or takes the whole queue as one batch |
| `TaskQueueObject.Queue.RunTasks` | lib/shared/notstd/task_queue.cxx:154-161 | runs the whole batch, one task after the other, in order and nothing else, whatever turns of posters and stoppers come in between; with them it is a run of the state machine |
| `NearObjectSession.StepKeepsInv` | lib/nearobject/NearObjectSession.cxx:37-190 | every step of adders, removers, ranging callers, the destructor and the worker keeps the journal, the alternation of ranging events and the order of delivery |
| `NearObjectSession.DeliveredJournal` | lib/nearobject/NearObjectSession.cxx:37-117 | in every interleaving what a client was told is a prefix of what was posted, replaying it gives the list as it was after that many changes, and once everything is delivered the current list, order included |
| `NearObjectSession.KeptPlaces` | lib/nearobject/NearObjectSession.cxx:98-111 | removing keeps the members at exactly the places where no object given is the same object, in their order |
| `NearObjectSession.RemovedPlaces` | lib/nearobject/NearObjectSession.cxx:98-117 | and announces those at all the other places, in their order |
| `NearObjectSession.PrunedPlaces` | lib/nearobject/NearObjectSession.cxx:68-75 | adding takes the objects at exactly the places where no member has the same value, in the order given |
| `NearObjectSession.RangingAlternates` | lib/nearobject/NearObjectSession.cxx:145-190 | in what a client was told there is a stop between any two starts of ranging, a start between any two stops, and a start before any stop |
| `NearObjectSession.FlagsByHistory` | lib/nearobject/NearObjectSession.cxx:20-48 | in every run ranging is on if and only if it is supported and the last call about it asked for it, the session closes if and only if its destructor ended it, and the callbacks are alive until they expire |
| `NearObjectSession.ToldNothingMore` | lib/nearobject/NearObjectSession.cxx:42-48 | once its callbacks have expired a client is told nothing more, in any run |
| `NearObjectSession.AfterDestruction` | lib/nearobject/NearObjectSession.cxx:20-23 | when the worker has exited, a client still alive has been told everything, with the end of the session last and ranging stopped |
| `NearObjectSession.PrunedIsNew` | lib/nearobject/NearObjectSession.cxx:68-72 | what is added is exactly what was given and is not equal in value to a member |
| `NearObjectSession.AddKeepsDistinct` | lib/nearobject/NearObjectSession.cxx:59-81 | after adding the members differ in value if and only if they did before and no two of the objects given are equal to each other and to no member |
| `NearObjectSession.DuplicatesInOneCall` | lib/nearobject/NearObjectSession.cxx:68-75 | two equal objects in one call are both added |
| `NearObjectSessionObject.SessionObject.ChangeByAdding` | lib/nearobject/NearObjectSession.cxx:59-75 | with the mutex taken, the loop prunes and the list is appended to: the step of the state machine |
| `NearObjectSessionObject.SessionObject.ChangeByRemoving` | lib/nearobject/NearObjectSession.cxx:89-111 | the stable partition keeps the others in order and sets aside exactly what it removed, in order: the step of the state machine |
| `NearObjectSessionObject.SessionObject.PostMembership` | lib/nearobject/NearObjectSession.cxx:77-80 | posts the event of that change and gives the mutex back |
| `NearObjectSessionObject.SessionObject.InvokeNext` | lib/nearobject/NearObjectSession.cxx:42-48 | when the worker starts a task the client is told if its callbacks are still alive |
| `NearObjectSessionObject.SessionObject.AddNearObjects` | lib/nearobject/NearObjectSession.cxx:59-81 | the two steps in a row; the event posted, replayed on the old list, gives the new one |
| `NearObjectSessionObject.SessionObject.RemoveNearObjects` | lib/nearobject/NearObjectSession.cxx:89-117 | likewise for removing |
| `NearObjectSessionObject.SessionObject.StartRanging` | lib/nearobject/NearObjectSession.cxx:145-175 | status for each of the three outcomes, and the steps taken: the event is posted for the first start only |
| `NearObjectSessionObject.SessionObject.StopRanging` | lib/nearobject/NearObjectSession.cxx:177-190 | the steps taken: nothing when not active, else the flag and the event |
| `NearObjectSessionObject.SessionObject.PostSessionEnded` | lib/nearobject/NearObjectSession.cxx:119-128 | posts the end of the session, from the destructor or from a caller |
| `EventQueue.StepKeepsInv` | windows/drivers/uwb/simulator/UwbSimulatorIoEventQueue.cxx:51-166 | every step of requesters, pushers, cancellation, stop and the thread keeps the pairing, the request count and the absence of lost wakeups |
| `EventQueue.PairedInOrder` | windows/drivers/uwb/simulator/UwbSimulatorIoEventQueue.cxx:51-166 | in every interleaving the notifications pushed are those handed over, in order, then the one held, then those queued; each pended request was completed once, canceled, is held or is queued; at most one is queued |
| `EventQueue.KthCompletion` | windows/drivers/uwb/simulator/UwbSimulatorIoEventQueue.cxx:51-166 | in every interleaving the k-th request completed got the k-th notification pushed, from its beginning and as much of it as fits; too small a buffer if and only if the fixed part does not fit, with no octets; overflow if and only if that fits and the whole does not, with as many octets as fit; success otherwise, with all |
| `EventQueue.EnqueueEffect` | windows/drivers/uwb/simulator/UwbSimulatorIoEventQueue.cxx:51-79 | a request is pended if and only if none is and the framework forwards it, and each refusal says which of the two it was |
| `EventQueue.NotifiesOwed` | windows/drivers/uwb/simulator/UwbSimulatorIoEventQueue.cxx:81-89 | in every run each push owes exactly one notify |
| `EventQueue.OnlyPushesMatter` | windows/drivers/uwb/simulator/UwbSimulatorIoEventQueue.cxx:95-138 | of two runs with the same pushes, whatever is requested, canceled or refused in either, the one with fewer completions handed over the beginning of what the other did: a canceled request consumes no notification |
| `EventQueue.ServedInTime` | windows/drivers/uwb/simulator/UwbSimulatorIoEventQueue.cxx:95-165 | in every run without cancellation, whatever is pushed, requested or asked to stop meanwhile, a waiting pair of request and notification is completed, as the next one, after at most four steps of the thread and its wakeups |
| `EventQueue.GetsServed` | windows/drivers/uwb/simulator/UwbSimulatorIoEventQueue.cxx:95-165 | and there is such a run, of the thread and one notify still owed |
| `EventQueue.OwnStepsBounded` | windows/drivers/uwb/simulator/UwbSimulatorIoEventQueue.cxx:95-165 | in every run the thread takes at most six steps, and six more each time it is roused: it never spins |
| `EventQueue.StopsInTime` | windows/drivers/uwb/simulator/UwbSimulatorIoEventQueue.cxx:99-123 | from every state with a stop requested, in every run without new requests, whatever is pushed or canceled: the thread takes at most six steps, has gone once it has taken all it can, and has gone if and only if no step of its own is left |
| `EventQueue.StopsEventually` | windows/drivers/uwb/simulator/UwbSimulatorIoEventQueue.cxx:99-123 | and there is such a run |
| `EventQueue.StopRequestedIff` | windows/drivers/uwb/simulator/UwbSimulatorIoEventQueue.cxx:99-123 | a stop is pending if and only if one was requested |
| `EventQueueObject.IoEventQueue.EnqueueRequest` | windows/drivers/uwb/simulator/UwbSimulatorIoEventQueue.cxx:51-79 | refuses a second pending request, reports a refused forward, else pends and wakes the thread |
| `EventQueueObject.IoEventQueue.PushNotification` | windows/drivers/uwb/simulator/UwbSimulatorIoEventQueue.cxx:81-89 | appends under the gate and owes a notify |
| `EventQueueObject.IoEventQueue.WaitForRequest` | windows/drivers/uwb/simulator/UwbSimulatorIoEventQueue.cxx:99-112 | goes on, sleeps, or exits on a stop request |
| `EventQueueObject.IoEventQueue.WaitForData` | windows/drivers/uwb/simulator/UwbSimulatorIoEventQueue.cxx:114-123 | goes on, sleeps, or exits on a stop request |
| `EventQueueObject.IoEventQueue.RetrieveNextRequest` | windows/drivers/uwb/simulator/UwbSimulatorIoEventQueue.cxx:125-138 | takes the oldest request and the oldest notification together, or neither |
| `EventQueueObject.IoEventQueue.CompleteRequest` | windows/drivers/uwb/simulator/UwbSimulatorIoEventQueue.cxx:140-164 | status and octets by the size of the buffer |
| `AppConfig.LookupUpdated` | windows/drivers/uwb/simulator/UwbSimulatorDdiCallbacks.cxx:269-289 | taking the old entry out and putting the new one in changes that type and no other, and keeps one entry per type |
| `AppConfig.LookupUpdatedAll` | windows/drivers/uwb/simulator/UwbSimulatorDdiCallbacks.cxx:264-293 | a list of changes gives each of its types its last value and leaves every other type alone |
| `AppConfig.Partition` | windows/drivers/uwb/simulator/UwbSimulatorDdiCallbacks.cxx:250-254 | the result is a permutation of the request with everything allowed in front of everything refused |
| `AppConfig.OneStatusEach` | windows/drivers/uwb/simulator/UwbSimulatorDdiCallbacks.cxx:256-293 | whatever order the partition chose, there is exactly one status per requested parameter, as a multiset of types, and it says accepted if and only if the type may change in that state |
| `AppConfig.SetEffect` | windows/drivers/uwb/simulator/UwbSimulatorDdiCallbacks.cxx:250-295 | refused and unmentioned types keep their entry, every accepted type ends up with a value requested for it, and there is one entry per type |
| `AppConfig.SelectedExactly` | windows/drivers/uwb/simulator/UwbSimulatorDdiCallbacks.cxx:315-319 | a query returns exactly the entries of the types asked for, once each, in order |
| `DdiParameterTypes.ChangeableByName` | lib/uwb/include/uwb/protocols/fira/FiraDevice.hxx:623-646 | by name, which parameters may change while a session is active |
| `SimulatorSessions.EffectKeepsAgreement` | windows/drivers/uwb/simulator/UwbSimulatorDdiCallbacks.cxx:103-226 | one call keeps the table and the notification history of its session in agreement |
| `SimulatorHistory.AsTheCallsTell` | windows/drivers/uwb/simulator/UwbSimulatorDdiCallbacks.cxx:103-442 | told from the calls alone, without the table: in every run all notifications, for all sessions together and in their order, are those of the openings, the closings and the stops that found a session open, with their reasons; and each call is answered as the calls before it say |
| `SimulatorHistory.StopsAreNotified` | windows/drivers/uwb/simulator/UwbSimulatorDdiCallbacks.cxx:424-442 | the Idle entries in the history of a session count the stops made while it was open |
| `SimulatorHistory.OpenSessionHolds` | windows/drivers/uwb/simulator/UwbSimulatorDdiCallbacks.cxx:181-442 | in every run an open session is what the calls since the one that opened it have made of a new session, Initialized, with no starts, no controlees and no parameters |
| `SimulatorSessions.ReachableInv` | windows/drivers/uwb/simulator/UwbSimulatorDdiCallbacks.cxx:103-226 | in every run each id has notification blocks Initialized, Idle*, Deinitialized; it is in the table if and only if its last block is open, in the state last notified; and the table has as many sessions as there are open blocks |
| `SimulatorSessions.NeverActive` | windows/drivers/uwb/simulator/UwbSimulatorDdiCallbacks.cxx:103-110 | a session in the table is Initialized or Idle: nothing sets Active |
| `SimulatorSessions.NothingIsRefused` | windows/drivers/uwb/simulator/UwbSimulatorDdiCallbacks.cxx:228-298 | so in every run setting parameters fails only for want of the device or the session, and refuses no parameter |
| `SimulatorSessions.SetThenGet` | windows/drivers/uwb/simulator/UwbSimulatorDdiCallbacks.cxx:228-322 | a get after a set finds, for a type asked for, a value requested for it if it was accepted and the old one otherwise |
| `SimulatorSessions.WhileOpen` | windows/drivers/uwb/simulator/UwbSimulatorDdiCallbacks.cxx:228-442 | over any calls that leave a session open, the counter is the number of starts modulo 2^32, the state Idle once stopped, the controlees those last added and not deleted since, and each parameter the value last allowed |
| `SimulatorSessions.Isolation` | windows/drivers/uwb/simulator/UwbSimulatorDdiCallbacks.cxx:70-101 | leaving out all calls for other sessions changes neither a session nor its notifications |
| `SimulatorSessionsObject.SimulatorSession.ChangeParameters` | windows/drivers/uwb/simulator/UwbSimulatorDdiCallbacks.cxx:264-293 | the loop applies every change and adds its status |
| `SimulatorSessionsObject.SimulatorDevice.Initialize` | windows/drivers/uwb/simulator/UwbSimulatorDdiCallbacks.cxx:181-205 | creates, or reports a duplicate, and notifies |
| `SimulatorSessionsObject.SimulatorDevice.Deinitialize` | windows/drivers/uwb/simulator/UwbSimulatorDdiCallbacks.cxx:207-226 | notifies and removes, or reports that there is no session |
| `SimulatorSessionsObject.SimulatorDevice.SetApplicationConfigurationParameters` | windows/drivers/uwb/simulator/UwbSimulatorDdiCallbacks.cxx:228-298 | changes the session found through its reference and no other, with the statuses |
| `SimulatorSessionsObject.SimulatorDevice.GetApplicationConfigurationParameters` | windows/drivers/uwb/simulator/UwbSimulatorDdiCallbacks.cxx:300-322 | the filtering loop computes the specified selection |
| `SimulatorSessionsObject.SimulatorDevice.UpdateMulticast` | windows/drivers/uwb/simulator/UwbSimulatorDdiCallbacks.cxx:363-403 | inserts, erases or refuses, on that session only |
| `SimulatorSessionsObject.SimulatorDevice.StartRangingOf` | windows/drivers/uwb/simulator/UwbSimulatorDdiCallbacks.cxx:405-422 | counts, with 32-bit wrap-around |
| `SimulatorSessionsObject.SimulatorDevice.StopRangingOf` | windows/drivers/uwb/simulator/UwbSimulatorDdiCallbacks.cxx:424-442 | sets Idle and notifies with the reason |
| `SimulatorSessionsObject.SimulatorDevice.GetSessionCount` | windows/drivers/uwb/simulator/UwbSimulatorDevice.cxx:326-331 | the number of sessions cut to 32 bits |
| `DdiPacking.ReportsOfMask` | windows/devices/uwb/UwbCxAdapterDdiLrp.cxx:654-664 | decoding the mask of a set of report flags gives the set |
| `DdiPacking.ValueOctets` | windows/devices/uwb/UwbCxAdapterDdiLrp.cxx:629-680 | what each value is on the wire: 0 or 1, a number in host order in the octets of its type, the sum of the report flags, addresses and vectors as they are |
| `DdiParameterTypes.KindsByName` | windows/devices/uwb/UwbCxAdapterDdiLrp.cxx:1490-1632 | by name: every type has the number of the driver header and is decoded as the type the decoder has for it |
| `DdiParameterTypes.StatedSizeIff` | lib/uwb/include/uwb/protocols/fira/FiraDevice.hxx:583-620 | a value has as many octets on the wire as the table of alternatives states if and only if it is neither the channel nor the scheduled mode, which have four |
| `DdiParameterTypes.UnknownIff` | windows/devices/uwb/UwbCxAdapterDdiLrp.cxx:1632-1635 | a number is unknown to the decoder if and only if it is none of the 46 types |
| `DdiPacking.OtherLengthKept` | windows/devices/uwb/UwbCxAdapterDdiLrp.cxx:1593-1615 | an address of another length than two or eight octets leaves the value as it began |
| `DdiPacking.RecordInBuffer` | windows/devices/uwb/UwbCxAdapterDdiLrp.cxx:629-691 | wherever an encoded record lies, its fields read as its size, type and length, each modulo 2^32, and its value starts behind them |
| `DdiPacking.RecordRoundTrip` | windows/devices/uwb/UwbCxAdapterDdiLrp.cxx:1482-1636 | decoding the record of every well-typed parameter but a set of addresses gives it back, whatever lies before and behind it |
| `DdiPacking.AddressesRoundTripIff` | windows/devices/uwb/UwbCxAdapterDdiLrp.cxx:1638-1671 | a set of addresses packed in any order is decoded to itself if and only if all have the length of the decoding mode |
| `DdiPacking.RecordAddresses` | windows/devices/uwb/UwbCxAdapterDdiLrp.cxx:1638-1671 | read from its record, wherever that lies, a set of addresses of one width comes back |
| `DdiPacking.WidthIff` | windows/devices/uwb/UwbCxAdapterDdiLrp.cxx:1696-1705 | addresses are read as short if and only if the list has no address mode or the last one is 0 |
| `DdiPacking.EncodedIsSizedIff` | windows/devices/uwb/UwbCxAdapterDdiLrp.cxx:684-689 | a record states its own size if and only if that is below 2^32 |
| `DdiPacking.WalkVisitsRecords` | windows/devices/uwb/UwbCxAdapterDdiLrp.cxx:706-715 | following the sizes visits exactly the records, in order, each at its start |
| `DdiPacking.WalkStaysInside` | windows/devices/uwb/UwbCxAdapterDdiLrp.cxx:731-764 | each record lies whole where the walk stops for it, the next stop is right behind it, and after the last one the walk stands at the end of the buffer, whose length is the header and the sizes |
| `DdiPacking.HeaderWords` | windows/devices/uwb/UwbCxAdapterDdiLrp.cxx:738-756 | the header of a packed list states the length of the whole buffer, the status or session id, and the number of records, each modulo 2^32 |
| `DdiPacking.ListDecoded` | windows/devices/uwb/UwbCxAdapterDdiLrp.cxx:1673-1708 | what becomes of every packed list: parameters in order, and behind them the last set of destinations as the empty set, whatever it held, if its octets are fewer than one address of the last mode given; otherwise the decoder reads behind its copy of one record |
| `DdiPacking.ListRoundTripIff` | windows/devices/uwb/UwbCxAdapterDdiLrp.cxx:1395-1430 | a packed list comes back, with its last set of destinations behind the rest, if and only if there is no such set, or it is empty and not at the end of the list; and, for a command, the list has no address mode, which is not handed on |
| `DdiPackingCodec.ReportMask` | windows/devices/uwb/UwbCxAdapterDdiLrp.cxx:658-660 | the loop over the set, in any order, computes the mask |
| `DdiPackingCodec.ReportsFromMask` | windows/devices/uwb/UwbCxAdapterDdiLrp.cxx:1565-1575 | the loop over the enumerators computes the set |
| `DdiPackingCodec.Pack` | windows/devices/uwb/UwbCxAdapterDdiLrp.cxx:731-764 | sizing, allocating and copying record by record fills the buffer with the specified octets |
| `DdiPackingCodec.ForEachRecord` | windows/devices/uwb/UwbCxAdapterDdiLrp.cxx:706-715 | the pointer loop takes the specified path |
| `DdiPackingCodec.ReadAddresses` | windows/devices/uwb/UwbCxAdapterDdiLrp.cxx:1646-1664 | the index loop collects the specified chunks |
| `SessionCache.StepKeepsInv` | lib/uwb/UwbDevice.cxx:14-82 | every step but an overwriting publication keeps what callers hold equal to what is cached |
| `SessionCache.OverwritingBreaks` | lib/uwb/UwbDevice.cxx:113-124 | publishing a created session while callers hold the cached one leaves two live sessions for one id |
| `SessionCache.UniqueIff` | lib/uwb/UwbDevice.cxx:14-124 | in every run there is never more than one live session for an id if and only if no creation overwrites a session still held |
| `SessionCache.OverwritingHappens` | lib/uwb/UwbDevice.cxx:113-124 | a concrete run in which it does: two creations of one id |
| `SessionCache.HeldIsCached` | lib/uwb/UwbDevice.cxx:14-82 | up to the first overwrite, any session a caller holds is the one a look-up finds |
| `SessionCache.ReturnsAsked` | lib/uwb/UwbDevice.cxx:14-55 | a call returns a session of the id it asked for, which is then cached |
| `SessionCache.LoserTakesWinners` | lib/uwb/UwbDevice.cxx:36-47 | of two callers that both resolved an id, the second drops its session for the first one's |
| `SessionCache.LookUpIff` | lib/uwb/UwbDevice.cxx:65-82 | a look-up finds a session if and only if it is cached for the id and a caller, or a call under way, holds it |
| `SessionCache.NeverResurrected` | lib/uwb/UwbDevice.cxx:65-82 | in every run a session that nobody holds any more, cached or not, is never handed to a caller again |
| `SessionCache.ExpiredIsNotFound` | lib/uwb/UwbDevice.cxx:14-31 | a concrete run in which a released session is in the cache and the call goes on to the driver |
| `SessionCache.CallsEnd` | lib/uwb/UwbDevice.cxx:14-124 | each step of a call brings its end nearer, there always is one, and no step of another call touches it |
| `SessionCache.AskedFor` | lib/uwb/UwbDevice.cxx:14-124 | in every run a call under way asks for the id it was started with |
| `SessionCache.ReferencesCounted` | lib/uwb/UwbDevice.cxx:14-124 | one reference more for the session a call returns and for one that is shared, one less for one that is released |
| `SessionCacheObject.UwbDevice.FindLocked` | lib/uwb/UwbDevice.cxx:65-82 | finds the cached session if and only if somebody holds it |
| `SessionCacheObject.UwbDevice.FindSession` | lib/uwb/UwbDevice.cxx:17-21 | a hit is a session somebody holds and ends the call, a miss leads to the driver |
| `SessionCacheObject.UwbDevice.RecheckAndCache` | lib/uwb/UwbDevice.cxx:36-54 | returns the session cached meanwhile, or else caches its own |
| `SessionCacheObject.UwbDevice.PublishCreated` | lib/uwb/UwbDevice.cxx:113-124 | overwrites the cache entry, and what that does to uniqueness |
| `CallbackRegistry.CalledOnceInOrder` | windows/devices/uwb/UwbConnector.cxx:772-801 | a dispatch calls exactly the live callbacks, each once, in registration order |
| `CallbackRegistry.KeptInOrder` | windows/devices/uwb/UwbConnector.cxx:772-801 | it keeps exactly the tokens whose callback is live and did not ask for removal, in order |
| `CallbackRegistry.DispatchedLists` | windows/devices/uwb/UwbConnector.cxx:812-825 | only the list of the session changes, and no entry is empty |
| `CallbackRegistry.ReachableInv` | windows/devices/uwb/UwbConnector.cxx:812-1119 | in every run of registrations, dispatches and deregistrations a list is exactly the tokens registered for its session that no visit dropped and no deregistration of another token took along, in order, each once, with no empty entry |
| `CallbackRegistry.VisitedUntilDropped` | windows/devices/uwb/UwbConnector.cxx:812-1119 | so a dispatch visits a token if and only if it was registered for that session and is not one of those; its own deregistration makes no difference |
| `CallbackRegistry.DeregisteredAfter` | windows/devices/uwb/UwbConnector.cxx:979-1004 | in any run, deregistering a token still listed changes nothing, deregistering one that is gone empties the list of its session, and other sessions keep theirs |
| `DeviceCallbacks.ListedUntilGone` | windows/devices/uwb/UwbConnector.cxx:772-1085 | in every run of registrations, dispatches and deregistrations a device vector is what was registered, in order and each once, without what was deregistered and what a visit dropped |
| `DeviceCallbacks.VisitedUntilGone` | windows/devices/uwb/UwbConnector.cxx:772-1085 | so a dispatch visits a token if and only if it was registered, not deregistered, and no visit has dropped it |
| `CallbackRegistry.ErasedIsWithout` | windows/devices/uwb/UwbConnector.cxx:1015-1032 | device deregistration takes out that token and no other |
| `CallbackRegistry.SessionDeregisteredIff` | windows/devices/uwb/UwbConnector.cxx:979-1004 | session deregistration takes out the token, and nothing else, if and only if the session has no tokens: a listed token stays, an unlisted one takes the whole entry with it |
| `CallbackRegistry.NotifiedFrame` | windows/devices/uwb/UwbConnector.cxx:827-911 | each notification is dispatched to the one list of its kind and session, a Deinitialized status also to the ended callbacks of its session, and none of the six other lists changes |
| `CallbackRegistryObject.InvokeCallbacks` | windows/devices/uwb/UwbConnector.cxx:772-801 | erasing while iterating leaves and calls what the specification says |
| `CallbackRegistryObject.SessionTokens.InvokeSession` | windows/devices/uwb/UwbConnector.cxx:812-825 | extract, dispatch, put back unless empty |
| `CallbackRegistryObject.SessionTokens.InsertToken` | windows/devices/uwb/UwbConnector.cxx:1107-1119 | appends to the list or makes one, and no entry becomes empty |
| `CallbackRegistryObject.SessionStatusCallbacks.OnSessionStatusChanged` | windows/devices/uwb/UwbConnector.cxx:834-843 | status callbacks first, then, for Deinitialized, the ended callbacks |
| `CallbackRegistryObject.SessionTokens.Deregister` | windows/devices/uwb/UwbConnector.cxx:979-1004 | erases from a copy and puts the entry back as it was, or leaves it out |
| `CallbackRegistryObject.DeviceTokens.Push` | windows/devices/uwb/UwbConnector.cxx:1066-1085 | appends the token: the step of the state machine |
| `CallbackRegistryObject.DeviceTokens.Invoke` | windows/devices/uwb/UwbConnector.cxx:772-801 | the dispatch as a step of the state machine, and which callbacks it calls |
| `CallbackRegistryObject.DeviceTokens.Deregister` | windows/devices/uwb/UwbConnector.cxx:1015-1032 | the search and erase as a step of the state machine |
| `TaggedChildren.SameLast` | lib/uwb/protocols/fira/SecureRangingInfo.cxx:48-86 | two lists with the same accepted children, one per tag, agree on what decides each tag |
| `TaggedChildren.PermutationIsSame` | lib/uwb/protocols/fira/SecureRangingInfo.cxx:48-86 | a permutation has the same accepted children |
| `TaggedChildren.InsertionIsSame` | lib/uwb/protocols/fira/SecureRangingInfo.cxx:48-86 | so has a list with an unknown child put in anywhere |
| `TaggedChildren.LastAt` | lib/uwb/protocols/fira/SecureRangingInfo.cxx:48-86 | the last accepted child of a tag is the one that decides |
| `SecureRangingInfo.FromDataObject` | lib/uwb/protocols/fira/SecureRangingInfo.cxx:37-95 | the loop reads what the last child of each tag says |
| `SecureRangingInfo.SyntaxErrorIff` | lib/uwb/protocols/fira/SecureRangingInfo.cxx:88-92 | a syntax error if and only if a required tag has no child |
| `SecureRangingInfo.OrderDoesNotMatter` | lib/uwb/protocols/fira/SecureRangingInfo.cxx:48-86 | order and unknown children do not matter |
| `SecureRangingInfo.SaysLast` | lib/uwb/protocols/fira/SecureRangingInfo.cxx:48-86 | each field is the value of the last child of its tag |
| `SecureRangingInfo.Layout` | lib/uwb/protocols/fira/SecureRangingInfo.cxx:12-35 | the octets of the object, tag by tag |
| `SecureRangingInfo.RoundTrip` | lib/uwb/protocols/fira/SecureRangingInfo.cxx:12-95 | every object is read back as it was |
| `SecureRangingInfo.WireRoundTrip` | lib/uwb/protocols/fira/SecureRangingInfo.cxx:12-95 | also through its octets, whatever follows |
| `StaticRangingInfo.FromDataObject` | lib/uwb/protocols/fira/StaticRangingInfo.cxx:57-112 | the loop reads the children, with the partial copy over the vector |
| `StaticRangingInfo.SyntaxErrorIff` | lib/uwb/protocols/fira/StaticRangingInfo.cxx:107-109 | a syntax error if and only if a required tag has no child with a value |
| `StaticRangingInfo.OrderDoesNotMatter` | lib/uwb/protocols/fira/StaticRangingInfo.cxx:66-105 | order and unknown or empty children do not matter |
| `StaticRangingInfo.LastAloneIff` | lib/uwb/protocols/fira/StaticRangingInfo.cxx:92-95 | a vector child is read as its own octets and zeros, whatever children are before it, if and only if for each octet it does not reach the last vector among them that reaches it has 0 there |
| `StaticRangingInfo.EarlierVectorShows` | lib/uwb/protocols/fira/StaticRangingInfo.cxx:92-95 | a concrete pair of children read as 9 2 3 4 5 6 |
| `StaticRangingInfo.VendorSaysLast` | lib/uwb/protocols/fira/StaticRangingInfo.cxx:87-91 | the vendor is the big-endian number of the last vendor child, cut to 16 bits, or 0 from eight octets on |
| `StaticRangingInfo.VectorSaysLast` | lib/uwb/protocols/fira/StaticRangingInfo.cxx:92-95 | each octet of the vector is the one of the last vector child long enough to reach it, or 0 |
| `StaticRangingInfo.Layout` | lib/uwb/protocols/fira/StaticRangingInfo.cxx:32-55 | the octets of the object, tag by tag |
| `StaticRangingInfo.RoundTrip` | lib/uwb/protocols/fira/StaticRangingInfo.cxx:32-112 | every valid object is read back as it was |
| `StaticRangingInfo.WireRoundTrip` | lib/uwb/protocols/fira/StaticRangingInfo.cxx:32-112 | also through its octets, whatever follows |
| `UwbRegulatoryInformation.FromDataObject` | lib/uwb/protocols/fira/UwbRegulatoryInformation.cxx:91-197 | the loop reads what the last child of each of twelve tags says |
| `UwbRegulatoryInformation.SyntaxErrorIff` | lib/uwb/protocols/fira/UwbRegulatoryInformation.cxx:192-194 | a syntax error if and only if a required tag has no child that can be decoded |
| `UwbRegulatoryInformation.OrderDoesNotMatter` | lib/uwb/protocols/fira/UwbRegulatoryInformation.cxx:100-190 | order and children that cannot be decoded do not matter |
| `UwbRegulatoryInformation.AcceptsIff` | lib/uwb/protocols/fira/UwbRegulatoryInformation.cxx:100-190 | which children are decoded |
| `UwbRegulatoryInformation.SaysLast` | lib/uwb/protocols/fira/UwbRegulatoryInformation.cxx:100-190 | source, outdoor flag, country and time are what the last child of their tag says |
| `UwbRegulatoryInformation.PowerSaysLast` | lib/uwb/protocols/fira/UwbRegulatoryInformation.cxx:100-190 | and so is the power of each channel |
| `UwbRegulatoryInformation.Layout` | lib/uwb/protocols/fira/UwbRegulatoryInformation.cxx:12-89 | the octets of the object are those of its fields |
| `UwbRegulatoryInformation.FirstFields` | lib/uwb/protocols/fira/UwbRegulatoryInformation.cxx:12-89 | which are source, outdoor flag, country and time |
| `UwbRegulatoryInformation.ChannelFields` | lib/uwb/protocols/fira/UwbRegulatoryInformation.cxx:12-89 | and a power for each channel, in their order |
| `UwbRegulatoryInformation.RoundTripIff` | lib/uwb/protocols/fira/UwbRegulatoryInformation.cxx:12-197 | an object is encoded and read back as it was if and only if it has a power for each of the eight channels |
| `UwbRegulatoryInformation.WireRoundTrip` | lib/uwb/protocols/fira/UwbRegulatoryInformation.cxx:12-197 | also through its octets, whatever follows |
| `UwbSessionData.FromDataObject` | lib/uwb/protocols/fira/UwbSessionData.cxx:72-157 | the loop reads the children and stops at the first nested failure |
| `UwbSessionData.SyntaxErrorIff` | lib/uwb/protocols/fira/UwbSessionData.cxx:90-154 | a syntax error if and only if a required tag is not decoded or a nested decoder fails |
| `UwbSessionData.OrderDoesNotMatter` | lib/uwb/protocols/fira/UwbSessionData.cxx:90-150 | order and unknown children do not matter |
| `UwbSessionData.SaysLast` | lib/uwb/protocols/fira/UwbSessionData.cxx:90-150 | version, ids and flag are what the last child of their tag says |
| `UwbSessionData.NestedSaysLast` | lib/uwb/protocols/fira/UwbSessionData.cxx:90-150 | nested objects are what their own decoders make of the last child of their tag |
| `UwbSessionData.AbsentSaysNothing` | lib/uwb/protocols/fira/UwbSessionData.cxx:90-150 | what has no child stays absent |
| `UwbSessionData.NestedFailsIff` | lib/uwb/protocols/fira/UwbSessionData.cxx:90-150 | which nested decoder fails on which tag |
| `UwbSessionData.NoEncodingIff` | lib/uwb/protocols/fira/UwbSessionData.cxx:18-69 | there is no encoding if and only if there is regulatory information without a power for some channel |
| `UwbSessionData.BaseLayout` | lib/uwb/protocols/fira/UwbSessionData.cxx:18-50 | the octets of the children that are always written, tag by tag |
| `UwbSessionData.Layout` | lib/uwb/protocols/fira/UwbSessionData.cxx:18-69 | and of the object, with the optional ones behind them |
| `UwbSessionData.RoundTrip` | lib/uwb/protocols/fira/UwbSessionData.cxx:18-157 | every valid object is read back as it was, but for its configuration, which is what the configuration codec makes of it |
| `UwbSessionData.WireRoundTrip` | lib/uwb/protocols/fira/UwbSessionData.cxx:18-157 | also through its octets, whatever follows |
| `UwbCapability.FromOobDataObject` | lib/uwb/protocols/fira/UwbCapability.cxx:250-397 | the loop reads the children and stops at the first error |
| `UwbCapability.FailsIff` | lib/uwb/protocols/fira/UwbCapability.cxx:256-263 | decoding fails if and only if the tag is wrong, or a child has a tag that is not one octet or a known tag with a value of the wrong length |
| `UwbCapabilityOctets.ErrorByChild` | lib/uwb/protocols/fira/UwbCapability.cxx:256-394 | the outer tag first, then the first child that is wrong decides which error it is; there is none if and only if no child is wrong |
| `UwbCapabilityOctets.BitsByFeature` | lib/uwb/protocols/fira/UwbCapability.cxx:15-145 | feature by feature: the tag and the bit that stand for it, and no others do |
| `UwbCapabilityOctets.WrittenBits` | lib/uwb/protocols/fira/UwbCapability.cxx:132-237 | in the octets of a set a bit is on if and only if it stands for a feature of the set, the figure-of-merit flag apart, which is bit 3 beside the angles |
| `UwbCapabilityOctets.WrittenNumbers` | lib/uwb/protocols/fira/UwbCapability.cxx:155-247 | the two numbers and the four flags, octet by octet |
| `UwbCapabilityOctets.Layout` | lib/uwb/protocols/fira/UwbCapability.cxx:155-247 | the object is its eighteen fields, tag by tag |
| `UwbCapabilityOctets.SaysLast` | lib/uwb/protocols/fira/UwbCapability.cxx:259-394 | numbers and flags are what the last child of their tag says |
| `UwbCapabilityOctets.ListSaysLast` | lib/uwb/protocols/fira/UwbCapability.cxx:259-394 | a feature is in a set if and only if its bit is on in the last child of the tag |
| `UwbCapabilityOctets.AbsentSaysDefault` | lib/uwb/protocols/fira/UwbCapability.cxx:250-394 | what has no child is as a capability begins: 0, the flags, and all features but four |
| `UwbCapability.OrderDoesNotMatter` | lib/uwb/protocols/fira/UwbCapability.cxx:259-394 | of objects without errors, order and unknown children do not matter |
| `UwbCapability.ListRoundTrip` | lib/uwb/protocols/fira/UwbCapability.cxx:132-145 | each set comes back as a set, the 35 bits in five octets included |
| `UwbCapability.FomRoundTrip` | lib/uwb/protocols/fira/UwbCapability.cxx:220-237 | the figure-of-merit flag survives in the octet it shares with the angles of arrival |
| `UwbCapability.RoundTripIff` | lib/uwb/protocols/fira/UwbCapability.cxx:155-447 | every capability whose features all have bits is decoded to an equal one, vectors compared as sets; one with a feature that has none has no encoding |
| `UwbCapability.WireRoundTrip` | lib/uwb/protocols/fira/UwbCapability.cxx:155-447 | also through its octets, whatever follows |

## Left out

- Big-endian hosts: only the little-endian branches are modelled.
- Windows driver framework, device control calls, handles, WinRT, logging, tracing, JSON and msgpack: a framework queue is a list of requests, and a refused forward or a cancellation is a choice of the environment.
- What a task, a callback or a resolver does: a task is a value that runs to its end, a callback answers with one of four outcomes, the driver's resolver makes a session of the id asked for or fails.
- Empty packaged tasks and null near objects: tasks are always valid and objects always present.
- `m_maximumQueueSize` of the event queue is stored by the code and never used; the model has no such field.
- Expiry of the simulated device in the middle of a call: it is a step between calls, and the table is kept for the statements about it.
- Random ranging measurements of the simulator, device reset and the reading of a session's state and counter: they touch neither the table nor the status notifications.
- The framework's own order of several pending requests per file: at most one is ever pending.
- DdiPacking.ListDecoded: copying a record of destinations reads the one octet of value its type declares; octets of padding behind it are not part of the model, and a read behind the copy or the buffer has no outcome.
- DdiPackingCodec.Pack: takes records that state their own size, which are all those shorter than 2^32 octets.
- UwbSessionData.RoundTrip: the configuration object is abstract; its own codec writes big-endian and reads in host order (lib/uwb/protocols/fira/UwbConfiguration.cxx:46-48 and 170-181), so no identity is claimed for it.
- Values of another type than their driver parameter calls for, and reading behind the end of a buffer: the first is not claimed to come back, the second has no outcome in the model.
- The straight-line assembly of the capability object: a function; its loops are those of the bit-map serializer. Its twelve vectors are one map keyed by tag.
- Reference counts inside shared sessions: a multiset of the references held stands for them.
- Callbacks that register or deregister while they are called: the list is locked meanwhile. What each visit finds is given, so a callback may change what later visits find.
- Starting and stopping the notification listener, including that a stopped listener is not started again.
- Threads are scheduled without fairness: progress is stated as a bound on the steps of every run, and a step that can always be taken.
- A post in the session's methods ends before its notification of the worker, which is a step of its own; the code still holds the session's mutex while it notifies.
- Version strings, Q9.7 angles, out-of-band conversions, command-line tools and the stubs for smart cards and secure elements would add only easy members.
