# HyClone: models and proofs

HyClone runs Haiku programs in Linux user space by re-implementing parts of the Haiku kernel.
This project models six of its components and proves what they promise. `dafny verify
dfyconfig.toml` checks everything.

| component | modules |
|---|---|
| user mutexes and user semaphores (`haiku_loader/loader_mutex.cpp`) | `UserMutexWord`, `UserMutexMachine`, `UserMutexTable`, `UserMutexEffects`, `UserMutexOwnership`, `UserMutexRuns`, `UserMutexUnits`, `UserMutexOwners`, `UserMutexCalls`, `UserMutexAlone`, `LoaderMutex` |
| `KMessage` (`hyclone_server/kmessage.cpp`) | `KMessageBytes`, `KMessageParser`, `KMessageFields`, `KMessageEdits`, `KMessages` |
| messaging areas (`hyclone_server/server_messaging.cpp`, `hsemaphore.cpp`) | `MessagingRing`, `MessagingChain`, `Benaphore` |
| reserved address ranges (`haiku_loader/loader_reservedrange.cpp`) | `IntervalSets`, `MappingSets`, `ReservedRanges` |
| areas and shared files (`hyclone_server/area.cpp`, `system.cpp`, `process.cpp`, `server_memory.cpp`) | `AreaTables`, `SharedFiles`, `AreaSystem` |
| id allocators (`hyclone_server/id_map.h`, `haiku_loader/loader_idmap.cpp`) | `IdMaps` |
| shared by several of them | `Collections`, `HaikuTypes` |

## How the model is built

**User mutexes.** A lock word is an int of which three bits matter: LOCKED (bit 0), WAITING
(bit 1, called Contended) and DISABLED (bit 2). The table lock serialises kernel sections, but
user space changes words at any time without it, so a section that touches a word more than
once is several steps, down to each turn of the compare-and-set loops of the semaphores
(`Section` says what is left of it). User space locks a mutex whose word is 0, unlocks in two
steps (it clears LOCKED and then unblocks if it saw WAITING), takes a unit of a semaphore whose
word is positive and gives one to a semaphore whose word is above -1. That code is not in the
repository; lines 305-315, 350-366 and 399-415 of loader_mutex.cpp show what it has to be
compatible with. A timeout is a wake-up that may happen at any time. `Usage` says which
addresses the process uses as mutexes and as semaphores; all other words may change
arbitrarily. The class `MutexTable` is the imperative code. Each call takes what other threads
do in user space before each of its later atomics, any number of events, and is proved to be
its step of the machine followed by the rest of its section among these events (`Finish`);
`CallSafe` says that this keeps the invariant of the runs. A blocking call is cut in two at its
wait (`Lock` and `Resume`, for instance). What the machine keeps is not its own bookkeeping: the
owners of a mutex are compared with the calls of the run that got and unlocked it
(`HoldersAreOwners`), the units of a semaphore with the calls that returned
(`SemaphoreConservation`), and the lemmas of `UserMutexAlone` say what each call makes of the
words, queues and threads when nobody interferes, without the functions of the machine's steps.

**KMessage.** The buffer is a sequence of bytes, words are little-endian, and padding and fresh
memory hold arbitrary bytes. `Encodes` ties the bytes to an ordered list of fields, each with
its name, type, element size and values; every call is stated as what it does to that list. An
allocation fails when a given function of its number says so. `Valid` holds after every call,
whether it failed or not, and so does `Parsable` after every call with a non-empty name, except
one: a `SetData` that adds a field of the wildcard type. Together with `RoundTrip` this is what
`_CheckBuffer` asserts for every sequence of calls.

**Messaging.** An area is an array of int32 words. The consumer (Haiku's registrar) is an
environment that pops the oldest command of the first area that has one. It works whenever the
service waits for the lock of an area: before the n-th lock of a call it takes `consumer(n)`
messages, or all there are. The service keeps two ghost sequences, everything ever sent and
everything the consumer has got, as it read it from the memory of the areas; its invariant says
that the chain holds exactly the rest, and every call says exactly what the consumer has got when
it ends (`GotAfter`), which areas it has dropped, and that another area is used exactly if no
place would continue the last ring (`Places`). What is registered with the system
is passed from call to call: it is exactly the areas of the chain (`IsTidy`).

**Reserved ranges.** The map of sets is an ordered sequence of ranges and one ordered sequence
of mappings for each. It is compared with two plain sets of addresses, the reserved and the
mapped ones.

**Areas.** `Area`, `System` and `Process` are objects that share areas as the source does.
A table of what each area holds is kept beside them, and `Maps` says what one address is mapped
to: protection, team, mapping, and file with offset. What the host answers (does a file open,
which entry is it) are parameters.

## Where the code does not do what one may expect

- `loader_unregister_reserved_range` forgets the right part of a mapping that overhangs the hole
  on both sides: the advance at line 91 has passed it. `RangeTable.Unregister` states exactly
  what is lost, and that nothing is lost if and only if there is no such mapping.
- `MessagingArea::CheckCommandSize` adds the command header in int32, so it also accepts the
  largest sizes (`CheckCommandSizeMeans`). `AllocateCommand` then stores a negative command size
  (`WrappingSendDamages` is the least such size sent into an empty area): the memory is no ring
  any more (`WrappedSizeDamages`), the ring refuses every later command (`DamagedRingRefuses`),
  and the copy of such a message runs past the area (`overruns` of `SendMessage`). The ring stays
  in order if and only if no such size is sent (`RingRunsAreSafe`). `SendMessage` has a second
  wrap of the same kind: it adds up the size of its data in int32.
- `KMessage::SetData` accepts the wildcard type `B_ANY_TYPE` for a new field, which the parser
  rejects (`SetWildcard` is such a message); a negative size for a new name leaves an empty field behind; and replacing a value
  stores its size through a null pointer (`FieldHeader::ElementAt` is called with its default
  `size`), so on a machine where that traps the call does not come back.
- `KMessage::_CheckBuffer` panics for an empty message that was never parsed, because 0 and -1
  both stand for "no field".
- `KMessage::Unset` keeps the flags of the last buffer, so a message that once was read-only
  takes one more field, into its first own buffer, and no second one.
- `OpenSharedFile` for a handle closes `file.HasHandle()`, which is 1, instead of the old
  handle (line 97 of server_memory.cpp).
- `server_hserver_call_share_area` does not check whether the area is shared already, and takes
  an offset that stands for "not shared"; in exactly these cases a reference count goes wrong
  (`ShareCounts`; `ShareTwice` is a system in which it did).
- Unmapping zero bytes inside an area splits the area in two (`EmptyHoleSplits`).
- `IdMap::NextId` of an id below -1 is the next number, in use or not.

## Model

| member | source | states |
|---|---|---|
| UserMutexRuns.MutualExclusion | haiku_loader/loader_mutex.cpp:162-244 | in every state of every run LOCKED is set exactly when one thread owns the mutex, never more than one does, and a notified waiter already owns it |
| UserMutexRuns.NoLostWakeUps | haiku_loader/loader_mutex.cpp:164-243 | in every state of every run a non-empty queue has WAITING set, and if LOCKED is clear some thread still has its unblock to run |
| UserMutexRuns.WaiterIsServed | haiku_loader/loader_mutex.cpp:262-283 | when waiters queue for a free mutex, an unblock can run and makes the thread that has waited longest the owner |
| UserMutexRuns.TableAgreement | haiku_loader/loader_mutex.cpp:35-125 | in every state of every run an un-notified waiter is in exactly one queue, once, on the live entry; a notified one is in none; with the table lock free the table holds exactly the non-empty queues |
| UserMutexRuns.WakeUpOutcome | haiku_loader/loader_mutex.cpp:187-203 | a notified waiter returns B_OK although its deadline passed; otherwise the entry it queued on is the live one and it leaves no trace |
| UserMutexUnits.SemaphoreConservation | haiku_loader/loader_mutex.cpp:341-425 | over every run, with units taken and given in user space at any time, the units in the word plus the acquires that have returned with a unit equal the initial value plus the releases that have returned; both are counted from the steps of the run; the word stays at least -1, and waiters mean -1 |
| UserMutexUnits.StepConserves | haiku_loader/loader_mutex.cpp:341-425 | every step that lets an acquire return, or notifies a waiter, takes one unit; every step that ends a release adds one; no other step changes the number of units |
| UserMutexOwners.HoldersAreOwners | haiku_loader/loader_mutex.cpp:162-339 | in every state of every run the holders of a mutex are exactly the threads that have got it (without a wait, by being notified, or in user space) and have not unlocked it since |
| UserMutexOwners.OneOwner | haiku_loader/loader_mutex.cpp:162-339 | of these threads there is one if LOCKED is set, and none otherwise |
| UserMutexMachine.RunsCover | haiku_loader/loader_mutex.cpp:246-425 | the runs cover every call when the table lock is free, every time-out, and every change of a word in user space, at any time, that the promise about mutexes and semaphores allows |
| UserMutexMachine.StartsCover | haiku_loader/loader_mutex.cpp:246-425 | they start from every assignment of words with free mutexes and the given semaphore counts |
| UserMutexAlone.LockAlone | haiku_loader/loader_mutex.cpp:246-260 | without interference: LOCKED is set; a free or DISABLED mutex is got, and WAITING stays exactly if it was set or somebody waits; else WAITING is set and the thread waits at the end of the queue |
| UserMutexAlone.UnblockAlone | haiku_loader/loader_mutex.cpp:262-283 | without interference, for every word, in the table or not: no waiters clears WAITING; UNBLOCK_ALL or DISABLED notifies all and empties the queue; a locked mutex stays as it is; else LOCKED is set for the first waiter, and WAITING stays exactly if more wait |
| UserMutexAlone.SwitchAlone | haiku_loader/loader_mutex.cpp:285-339 | without interference: `to` is locked or waited for, then LOCKED of `from` is cleared, and `from` is unblocked if it was contended and somebody waits |
| UserMutexAlone.SwitchToItself | haiku_loader/loader_mutex.cpp:285-339 | with `from` and `to` the same, the thread gets the mutex or queues for it and then unlocks it, so that it may itself be the waiter that is notified |
| UserMutexAlone.WakeAlone | haiku_loader/loader_mutex.cpp:187-204 | a notified waiter returns B_OK and changes nothing; one that timed out leaves the queue, the others keep their order, and WAITING is cleared with the last waiter of a mutex |
| UserMutexAlone.SemAcquireAlone | haiku_loader/loader_mutex.cpp:341-388 | without interference: a positive word loses one and the call returns B_OK; 0 becomes -1 and the thread waits at the end of the queue, as it does for a negative word |
| UserMutexAlone.SemReleaseAlone | haiku_loader/loader_mutex.cpp:390-425 | without interference: without waiters the word gains one, two if it was negative; else the first waiter is notified and the last one turns -1 into 0 |
| UserMutexAlone.UserAlone | haiku_loader/loader_mutex.cpp:305-315 | what user space does changes one word and no queue, and an unlock goes on with an unblock exactly if it saw WAITING |
| UserMutexWord.Flags | haiku_loader/loader_mutex.cpp:162-176 | the three flags are the three lowest bits of a word, negative words included |
| UserMutexRuns.SemWaiterIsServed | haiku_loader/loader_mutex.cpp:390-425 | while threads wait for a semaphore nobody takes or gives a unit without the kernel, and a release serves the one that has waited longest |
| UserMutexCalls.CallSafe | haiku_loader/loader_mutex.cpp:246-425 | a whole call keeps the invariant of the runs and ends with the table lock free, whatever other threads do to the words between its atomics |
| UserMutexCalls.CallTable | haiku_loader/loader_mutex.cpp:102-125 | a whole call keeps queues, waiters and table entries in agreement, even if nothing is promised about the words |
| UserMutexCalls.BatchesAreMet | haiku_loader/loader_mutex.cpp:246-425 | the events of each batch happen in order, each if user space gets to do it, and one step of the section follows each batch |
| UserMutexOwnership.HandOffAtMutex | haiku_loader/loader_mutex.cpp:207-244 | an unblock of a free mutex hands it to the first waiter |
| UserMutexTable.StepKeepsTable | haiku_loader/loader_mutex.cpp:102-125 | every step of every call keeps queues, waiters and table entries in agreement |
| UserMutexEffects.StepElsewhere | haiku_loader/loader_mutex.cpp:246-425 | a step changes no mutex or semaphore other than the one it is about |
| LoaderMutex.MutexTable.PrepareToLock | haiku_loader/loader_mutex.cpp:162-176 | acquires exactly if the word was not LOCKED or was DISABLED, and clears WAITING again, after others may have changed the word, if nobody waits |
| LoaderMutex.MutexTable.UnblockLocked | haiku_loader/loader_mutex.cpp:207-244 | hands over to one waiter or wakes all, as the machine's unblock does, with others in between its atomics |
| LoaderMutex.MutexTable.Lock | haiku_loader/loader_mutex.cpp:246-260 | the bad-address check, then the lock step of the machine and the rest of its section among what others do; the table stays in agreement |
| LoaderMutex.MutexTable.Resume | haiku_loader/loader_mutex.cpp:187-204 | after a wait: B_OK if notified, else the waiter is removed and the time-out reported, as the machine's wake step and the rest of its section |
| LoaderMutex.MutexTable.Unblock | haiku_loader/loader_mutex.cpp:262-283 | the unblock step of the machine and the rest of its section among what others do |
| LoaderMutex.MutexTable.SwitchLock | haiku_loader/loader_mutex.cpp:285-339 | prepare one mutex, unlock and unblock the other: the switch step of the machine and the rest of its section, up to four more atomics, among what others do |
| LoaderMutex.MutexTable.TakeUnit | haiku_loader/loader_mutex.cpp:354-366 | the compare-and-set loop ends as the machine does, however often others change the word: with a unit, the word one less than the positive one it found, or with the semaphore contended by -1 |
| LoaderMutex.MutexTable.SemAcquire | haiku_loader/loader_mutex.cpp:341-388 | the semaphore acquire step of the machine and the rest of its loop among what others do; a call that blocks is the last in the queue of a negative word, one that does not returns B_OK |
| LoaderMutex.MutexTable.GiveUnit | haiku_loader/loader_mutex.cpp:401-415 | the compare-and-set loop ends as the machine does: the word gains one unit, two if it was negative, however often others change it first |
| LoaderMutex.MutexTable.SemRelease | haiku_loader/loader_mutex.cpp:390-425 | the semaphore release step of the machine and the rest of its loop among what others do |
| LoaderMutex.MutexTable.RemoveWaiter | haiku_loader/loader_mutex.cpp:56-66 | the loop removes the waiter from the queue and keeps the order of the others |
| UserMutexCalls.SwitchFinishes | haiku_loader/loader_mutex.cpp:285-339 | the steps of a switch add up to its three parts, each with what others do before its atomics |
| UserMutexCalls.SemTryTurn | haiku_loader/loader_mutex.cpp:354-366 | one turn of the loop of sem_acquire: a unit is taken, or the value found is tried next |
| KMessageFields.RoundTrip | hyclone_server/kmessage.cpp:829-912 | the bytes of a built message parse again, with the same headers, if and only if every field has a proper type and a name |
| KMessageFields.ValuesCheck | hyclone_server/kmessage.cpp:864-880 | the parser's walk over the values of a field goes exactly along the values that were added |
| KMessageParser.AcceptedMeans | hyclone_server/kmessage.cpp:829-885 | in an accepted buffer the walk visits strictly increasing headers inside the content, and every name is non-empty and ends with NUL inside its header |
| KMessageParser.AcceptedExactly | hyclone_server/kmessage.cpp:819-885 | a buffer is accepted if and only if it has the magic number, its size is at least that of a header and inside the buffer, and fields follow one another from the header to the end of the content, each with header, name and every value inside the message and the last value inside the field |
| KMessageParser.StraysExactly | hyclone_server/kmessage.cpp:864-885 | the parser is led before the message if and only if the fields lead to one in which fewer values than it claims lead there |
| KMessageParser.EveryValueInside | hyclone_server/kmessage.cpp:864-880 | without negative sizes every value of an accepted field ends within the field |
| KMessageParser.WalkIncreases | hyclone_server/kmessage.cpp:113-116 | each header is at least a field header behind the one before |
| KMessageEdits.EncodesAppend | hyclone_server/kmessage.cpp:707-726 | bytes written behind a message add one field and change no other |
| KMessageEdits.MessageAppendFixed | hyclone_server/kmessage.cpp:742-758 | the writes for values of a fixed size extend the last field by exactly these values |
| KMessageEdits.MessageAppendVariable | hyclone_server/kmessage.cpp:761-778 | the writes for a value of any size extend the last field by exactly this value |
| KMessageEdits.MessageReplaceFirst | hyclone_server/kmessage.cpp:380-385 | overwriting the first value of a field changes that value and nothing else |
| KMessageEdits.ElementOfConcat | hyclone_server/kmessage.cpp:100-104 | the i-th fixed-size value is at i times the element size |
| KMessageBytes.Int32RoundTrip | hyclone_server/kmessage.cpp:716-720 | an int32 reads back as it was written |
| KMessageBytes.LittleEndian | hyclone_server/kmessage.cpp:819-826 | words are read with the lowest byte first and as two's complement numbers |
| KMessages.KMessage.AllocateSpace | hyclone_server/kmessage.cpp:914-968 | the content grows by the aligned size and keeps its bytes and the header's words about the delivery, or nothing changes; each error has its exact reason |
| KMessages.KMessage.AppendField | hyclone_server/kmessage.cpp:706-726 | adds one empty field at the end and makes it the last, or changes nothing and says why; what and the words about the delivery stay |
| KMessages.KMessage.AddFieldData | hyclone_server/kmessage.cpp:728-780 | the order of the checks; only the last field takes values; fixed-size values go in together, others one by one until there is no space; why there is none; the rest of the header stays |
| KMessages.KMessage.AddField | hyclone_server/kmessage.cpp:242-252 | B_BAD_VALUE for the wildcard type, B_NAME_IN_USE for a name in use, else one more field |
| KMessages.KMessage.AddData | hyclone_server/kmessage.cpp:313-335 | adds the value to the field of that name or to a new one; a field that is not the last, of another type or of another size is refused and nothing changes; any other failure is a read-only buffer, a buffer of somebody else that is too small, or an allocation that failed; the rest of the header stays |
| KMessages.KMessage.AddArray | hyclone_server/kmessage.cpp:337-360 | the same for several values; if space runs out a first part of them was added |
| KMessages.KMessage.SetData | hyclone_server/kmessage.cpp:362-397 | replaces only the first value of an existing fixed-size field, or adds the field, which stays empty exactly when a negative size is refused or space runs out; keeps the rest of the header, and the message parsable unless a new field has the wildcard type |
| KMessages.SetWildcard | hyclone_server/kmessage.cpp:362-397 | the message with one field of the wildcard type, with which SetData succeeds and _CheckBuffer panics |
| KMessages.KMessage.FindField | hyclone_server/kmessage.cpp:260-279 | the first field in insertion order with this name and type, B_NAME_NOT_FOUND if there is none |
| KMessages.KMessage.GetNextField | hyclone_server/kmessage.cpp:281-306 | from each header to the next, from any other offset inside to where the word there says, B_NAME_NOT_FOUND after the last, B_BAD_VALUE for an offset outside |
| KMessages.KMessage.AllFields | hyclone_server/kmessage.cpp:271-306 | the GetNextField loop meets every header of a built message or of an accepted buffer once, in order, and ends at the last field |
| KMessages.StartsLinked | hyclone_server/kmessage.cpp:281-306 | the walk from the first header visits each field of a built message once, in insertion order |
| KMessages.WalksLinked | hyclone_server/kmessage.cpp:281-306 | the same walk visits the headers of an accepted buffer |
| KMessages.KMessage.ElementAt | hyclone_server/kmessage.cpp:95-111 | the exact bytes of the value with this index |
| KMessages.KMessage.FindData | hyclone_server/kmessage.cpp:406-422 | the exact bytes of the index-th value that was added under this name and type, or the error |
| KMessages.CheckValuesOf | hyclone_server/kmessage.cpp:864-877 | the loop over values of variable size, negative sizes included, decides as the format says, and strays exactly when it is led before the message |
| KMessages.ParseContent | hyclone_server/kmessage.cpp:829-884 | the parser's loop accepts exactly the well-formed contents and finds the last field, and strays exactly when it is led before the content |
| KMessages.KMessage.InitFromBuffer | hyclone_server/kmessage.cpp:782-886 | B_OK exactly for well-formed buffers, the last field found, the clone made and its flags set; a negative size in the buffer is refused; it strays exactly when the buffer leads it outside its memory |
| KMessages.KMessage.CheckBuffer | hyclone_server/kmessage.cpp:901-912 | panics exactly if some field has no proper type or name, or the message is empty and was never parsed |
| KMessages.KMessage.SetToBuffer | hyclone_server/kmessage.cpp:154-196 | the argument checks; without a message in the buffer the new one has this what, no sender, target or reply, the caller's memory behind the header and the caller's ownership; a buffer that holds fields is taken over with exactly these fields, on an error the message is empty; it strays only if the buffer leads outside its memory |
| KMessages.KMessage.SetToWhat | hyclone_server/kmessage.cpp:145-152 | an empty message in the built-in buffer, with this what and no sender, target or reply |
| KMessages.KMessage.SetToConst | hyclone_server/kmessage.cpp:198-203 | the same for a constant buffer, which is parsed and is read-only unless it is cloned |
| KMessages.KMessage.SetToContentOf | hyclone_server/kmessage.cpp:154-203 | a message set to the content of another one has exactly its fields, and is refused exactly if one of them cannot be parsed |
| KMessages.KMessage.SetWhat | hyclone_server/kmessage.cpp:215-218 | the what word reads back, no field changes, and no other word of the header does |
| MessagingRing.CheckCommandSizeMeans | hyclone_server/server_messaging.cpp:119-125 | accepts exactly what fits into an empty area, and the sizes for which the sum wraps |
| MessagingRing.PlacedAppend | hyclone_server/server_messaging.cpp:165-219 | a command placed by the unrounded tests stays aligned, inside the area and apart from all others after rounding |
| MessagingRing.NoPlaceMeansNoRoom | hyclone_server/server_messaging.cpp:195-219 | if the search finds no place, no place would continue the ring |
| MessagingRing.PlaceMeansRoom | hyclone_server/server_messaging.cpp:165-219 | the search finds a place if and only if some command of this size would continue the ring |
| MessagingRing.WrapsOnlyIfNeeded | hyclone_server/server_messaging.cpp:195-219 | the place right behind the newest command is taken whenever it would continue the ring |
| MessagingRing.RingRunsAreSafe | hyclone_server/server_messaging.cpp:157-233 | over every run of allocations and pops: the commands are always aligned, between header and end, disjoint, and wrapped at most once, if and only if no data size above INT32_MAX - 12 is sent |
| MessagingRing.RingStepIsSafe | hyclone_server/server_messaging.cpp:157-233 | one allocation or pop keeps a ring in order if and only if it does not send such a size |
| MessagingRing.WrappingSendDamages | hyclone_server/server_messaging.cpp:119-163 | the least such size, sent into an empty area, is accepted and leaves a command of negative size |
| MessagingRing.WrappedSizeDamages | hyclone_server/server_messaging.cpp:157-233 | a size that wraps is always given a place, and afterwards the words of the area are no ring, whatever commands one looks for |
| MessagingRing.DamagedRingRefuses | hyclone_server/server_messaging.cpp:165-174 | behind such a command nothing is ever sent |
| MessagingRing.WalkVisitsTheRing | hyclone_server/server_messaging.cpp:221-230 | following the links from first_command visits command_count commands, wraps at most once and ends at last_command |
| MessagingRing.MessagingArea.CheckCommand | hyclone_server/server_messaging.cpp:251-273 | accepts an offset exactly if an aligned command of a sane size lies there, and rounds the size |
| MessagingRing.MessagingArea.FindPlace | hyclone_server/server_messaging.cpp:181-219 | finds the place after the newest command, or at the start, or none; the header is never found damaged |
| MessagingRing.MessagingArea.AllocateCommand | hyclone_server/server_messaging.cpp:157-233 | for every int32: appends a command of this size at that place and keeps all others, or changes no word, or, if the size wraps, damages the ring |
| MessagingRing.MessagingArea.Pop | hyclone_server/server_messaging.h:27-36 | the consumer's step: it gets the oldest command as it was written and leaves the others |
| MessagingRing.MessagingArea.WriteData | hyclone_server/server_messaging.cpp:352-357 | copying the message in changes the newest command only |
| MessagingChain.QueueTake | hyclone_server/server_messaging.cpp:385-398 | taking from the first area that has a command takes the oldest message of the chain |
| MessagingChain.WordsSay | hyclone_server/server_messaging.cpp:346-357 | the words of a message are its size, the number of targets, port and token of each target, and the message |
| MessagingChain.GotMeans | hyclone_server/server_messaging.h:27-52 | the consumer gets messages in the order in which they were sent, as many as it wants and there are |
| MessagingChain.WantedSplit | hyclone_server/server_messaging.cpp:382-403 | what the consumer wants before the locks of a call adds up over its locks |
| MessagingChain.MessagingService.DropEmptyAreas | hyclone_server/server_messaging.cpp:382-398 | only empty areas leave the front of the chain, the last stays; no message leaves the queue but those the consumer takes, which are exactly as many as it wants before these locks; the last area dropped is free for reuse, the others are unregistered |
| MessagingChain.MessagingService.AllocateCommand | hyclone_server/server_messaging.cpp:369-441 | for every int32: appends one message at the end of the queue, or damages the last area if the size wraps; another area is used, or B_NO_MEMORY returned if it cannot be created, exactly if no place continues what the last ring still holds after the consumer's steps; what the consumer has got, which areas stay and which are registered is stated exactly |
| MessagingChain.MessagingService.SendMessage | hyclone_server/server_messaging.cpp:328-367 | the status of every case, with the sizes as they wrap in int32, when the chain grows, and exactly when the copy runs past the area; otherwise, on B_OK, one message is appended whose words are read as size, targets (port, then token) and message, the consumer is signalled exactly if its area was empty, and no area stays locked; the consumer has got exactly what it took, and no area is leaked |
| MessagingChain.MessagingService.Take | hyclone_server/server_messaging.h:27-52 | the consumer receives what was sent, in the order it was sent, each message once: what it has got and what the chain holds is always what was sent |
| MessagingChain.MessagingService.RegisterService | hyclone_server/server_messaging.cpp:275-305 | the checks, and a chain of one fresh unlocked area, which is registered |
| MessagingChain.MessagingService.UnregisterService | hyclone_server/server_messaging.cpp:307-326 | only the registered team ends the service; every area of the chain is destroyed and unregistered, once, and the consumer keeps what it has got |
| Benaphore.MutualExclusion | hyclone_server/server_messaging.cpp:127-155 | in every interleaving at most one thread holds the area |
| Benaphore.OneRightToHold | hyclone_server/server_messaging.cpp:127-155 | lock_counter > 0 means exactly one of a holder, a semaphore unit, an unlocker about to release; 0 means none of them and nobody on the way |
| Benaphore.WaiterGoesOn | hyclone_server/hsemaphore.cpp:23-52 | a waiter of an area that nobody holds or is releasing can go on |
| Benaphore.Semaphore.Acquire | hyclone_server/hsemaphore.cpp:23-38 | takes the units if there are enough, else counts itself among the waiters |
| Benaphore.Semaphore.Wake | hyclone_server/hsemaphore.cpp:42-51 | after the wait: B_BAD_SEM_ID if the semaphore is gone, else the units are taken |
| Benaphore.AreaLock.CountIn | hyclone_server/server_messaging.cpp:127-133 | the first half of Lock is the machine's step: one more in the counter, and the lock if it was 0 |
| Benaphore.AreaLock.Arrive | hyclone_server/server_messaging.cpp:135-142 | the second half of Lock is the machine's step: a unit of the semaphore and the lock with it, or a wait |
| Benaphore.AreaLock.CountOut | hyclone_server/server_messaging.cpp:145-149 | the first half of Unlock is the machine's step: one less in the counter, and a release to follow if others are counted in |
| Benaphore.AreaLock.Leave | hyclone_server/server_messaging.cpp:149-154 | the second half of Unlock is the machine's step: one more unit in the semaphore |
| Benaphore.Semaphore.Release | hyclone_server/hsemaphore.cpp:134-139 | adds the units and leaves it to the waiters to take them |
| ReservedRanges.RangeTable.Register | haiku_loader/loader_reservedrange.cpp:43-56 | adds exactly its interval to the reserved addresses; the asserts about the neighbours hold |
| ReservedRanges.RangeTable.Unregister | haiku_loader/loader_reservedrange.cpp:58-118 | removes exactly its interval from the reserved addresses; from the mapped ones also what it forgets, which is nothing if and only if no mapping overhangs the hole on both sides |
| ReservedRanges.RangeTable.Map | haiku_loader/loader_reservedrange.cpp:120-171 | adds exactly its interval to the mapped addresses and keeps the mappings disjoint and apart by a gap |
| ReservedRanges.RangeTable.Unmap | haiku_loader/loader_reservedrange.cpp:173-219 | removes exactly its interval from the mapped addresses |
| ReservedRanges.RangeTable.MapThenUnmap | haiku_loader/loader_reservedrange.cpp:120-219 | mapping and unmapping the same interval restores the very same data |
| ReservedRanges.RepresentationIsCanonical | haiku_loader/loader_reservedrange.cpp:141-170 | ranges and the set of mapped addresses determine the data |
| ReservedRanges.UnregisterForgets | haiku_loader/loader_reservedrange.cpp:83-103 | a mapping of which the unregistered hole is the middle loses its right part |
| ReservedRanges.LossMeansOverhang | haiku_loader/loader_reservedrange.cpp:83-103 | something is lost if and only if some mapping begins before the hole and ends after it |
| ReservedRanges.RangeTable.IsInReservedRange | haiku_loader/loader_reservedrange.cpp:221-232 | the lookup agrees with a search over all ranges |
| ReservedRanges.RangeTable.Collides | haiku_loader/loader_reservedrange.cpp:234-294 | the two lookups agree with the linear scan that the debug build compares them with |
| ReservedRanges.RangeTable.LongestMappableFrom | haiku_loader/loader_reservedrange.cpp:296-340 | the greatest size up to the maximum that lies in the range and is not mapped |
| MappingSets.MapInto | haiku_loader/loader_reservedrange.cpp:131-170 | inserting with merging on both sides covers exactly the old addresses and the new interval |
| MappingSets.UnmapFrom | haiku_loader/loader_reservedrange.cpp:187-218 | the erase-and-reinsert loop covers exactly the old addresses without the interval |
| AreaSystem.Area.Split | hyclone_server/area.cpp:20-48 | the area becomes the first range and the others become new areas, all with the file offset of their first address |
| AreaSystem.System.SurvivingRanges | hyclone_server/area.cpp:632-661 | sorting the four addresses finds exactly the parts of the area before and after the hole |
| AreaTables.SurvivingCovers | hyclone_server/area.cpp:642-661 | an address of the area is in a surviving range if and only if it is outside the hole |
| AreaTables.EmptyHoleSplits | hyclone_server/area.cpp:632-661 | a hole of no bytes leaves every address in a surviving range, and yet makes two of them exactly if it lies inside the area |
| AreaTables.CutKeeps | hyclone_server/area.cpp:663-682 | cutting one area changes nothing at any address outside the hole |
| AreaTables.CutDisjoint | hyclone_server/area.cpp:663-682 | cutting one area keeps the areas disjoint |
| AreaTables.UnmappingEnds | hyclone_server/area.cpp:622-694 | after the loop and the unregistering an address is mapped to something exactly if it was and is outside the hole |
| AreaSystem.System.CutArea | hyclone_server/area.cpp:628-682 | one turn of the loop cuts the area and registers the second part with the system and the process |
| AreaSystem.System.CutAll | hyclone_server/area.cpp:626-683 | the loop ends although areas are added to the map it passes, and has passed all of them |
| AreaSystem.System.UnmapMemory | hyclone_server/area.cpp:622-697 | every address outside keeps protection, file and offset, none inside is mapped, disjoint areas stay disjoint, other processes' areas are untouched and the file counts stay right |
| AreaSystem.System.FindId | hyclone_server/system.cpp:226-233 | the cyclic search ends while fewer than INT_MAX areas exist, with the first unused id at or behind the cursor, or else the first of all, and the cursor behind it |
| AreaSystem.FirstUnusedIsNearest | hyclone_server/system.cpp:226-233 | that id is the unused one with the least distance from the cursor, counting cyclically |
| AreaSystem.System.RegisterArea | hyclone_server/system.cpp:224-247 | registers the area under the first unused id from the cursor on with one more reference to its file, all other areas and files unchanged and no host file touched; fails only if the file is not in the table |
| AreaSystem.System.RegisterNewArea | hyclone_server/system.cpp:207-222 | registers a new unshared area under the first unused id from the cursor on, all other areas unchanged |
| AreaSystem.System.UnregisterArea | hyclone_server/system.cpp:273-286 | removes the area and one reference to its file; with the last reference exactly the file's handle is closed, or the file removed if it was made for sharing |
| AreaSystem.Process.NextAreaId | hyclone_server/process.cpp:150-156 | the least id above the given one, -1 if there is none |
| AreaSystem.System.ShareArea | hyclone_server/area.cpp:85-167 | the status of every case and which host file it removes; an area that is shared refers to the opened file, and the counts stay right if and only if it was not shared before and the offset does not mean "not shared" |
| AreaSystem.ShareTwice | hyclone_server/area.cpp:85-125 | a system in which an area was shared twice, and the count of its file is wrong |
| AreaSystem.System.Fork | hyclone_server/process.cpp:250-275 | every area of the parent gets its own copy in the child, in the order of the ids, with the parent's address, size, protection and mapping and the child's team; a copy refers to the clone of the file, at the same offset, exactly if the area was a private mapping of a file that has a name by then and the clone can be made and opened, else to no file; nothing else changes and the counts stay right |
| AreaSystem.FilesTurn | hyclone_server/process.cpp:259-273 | each copy changes the table of files only by its clone, if it has one: a new file under the clone's name, or one more reference, with the new name if only that can be written |
| SharedFiles.MemoryService.OpenProcessFile | hyclone_server/server_memory.cpp:61-114 | fails exactly if no suitable handle or entry is found; else one more reference, a writable source replaces a read-only one, and exactly these handles are closed |
| SharedFiles.MemoryService.OpenNamedFile | hyclone_server/server_memory.cpp:116-168 | the same for a path |
| SharedFiles.OpenedMeans | hyclone_server/server_memory.cpp:89-113 | an opened file has one more reference; its source is the new one if it was not there, or was read-only and can now be written; a writable file stays writable, and no other file changes |
| SharedFiles.CountingMeans | hyclone_server/server_memory.cpp:170-260 | counting references up and down changes no source, no writable flag and no other file |
| SharedFiles.MemoryService.AcquireSharedFile | hyclone_server/server_memory.cpp:170-178 | one more reference for a file in the table |
| SharedFiles.MemoryService.ReleaseSharedFile | hyclone_server/server_memory.cpp:235-260 | one reference less; the last one takes the file out and closes its handle, or removes it from the shared-memory directory |
| SharedFiles.CountShared | hyclone_server/system.cpp:235-246 | registering a shared area keeps every count equal to the number of areas that refer to the file |
| SharedFiles.CountRemoved | hyclone_server/system.cpp:273-286 | unregistering keeps the counts right, and a file leaves the table exactly with its last area |
| SharedFiles.ShareCounts | hyclone_server/area.cpp:104-125 | sharing keeps the counts right if and only if the area was not shared and the offset is a real one |
| SharedFiles.SharedTwice | hyclone_server/area.cpp:104-125 | a file with one area and a count of two |
| IdMaps.SameAnswers | haiku_loader/loader_idmap.cpp:22-70 | for all sequences of adds and removals both allocators give out the same ids and hold the same items |
| IdMaps.AddIsLeast | hyclone_server/id_map.h:22-36 | add returns the least id not in use and moves no item |
| IdMaps.LoaderRemoves | haiku_loader/loader_idmap.cpp:50-70 | removal frees one id, whether or not the vector shrinks, and ignores ids not in use |
| IdMaps.IdMap.Add | hyclone_server/id_map.h:22-36 | the same for the server's class |
| IdMaps.IdMap.Remove | hyclone_server/id_map.h:68-72 | an id that was given out before is free and no other item moves, also if it was free already |
| IdMaps.IdMap.NextId | hyclone_server/id_map.h:48-61 | the least id in use above the given one, -1 if there is none; the next number below -1 |
| IdMaps.IdMap.IsValidId | hyclone_server/id_map.h:63-66 | exactly the ids in use |
| IdMaps.IdMap.Size | hyclone_server/id_map.h:74-77 | the number of ids in use |
| IdMaps.AllIds | hyclone_server/id_map.h:48-61 | the usual loop over NextId meets exactly the ids in use, in increasing order |
| IdMaps.LoaderIdMap.Get | haiku_loader/loader_idmap.cpp:40-48 | the item of an id in use, the null pointer otherwise |
| IdMaps.LoaderIdMap.Add | haiku_loader/loader_idmap.cpp:22-38 | the least unused id, no item moves |
| IdMaps.LoaderIdMap.Remove | haiku_loader/loader_idmap.cpp:50-70 | the id is free and no other item moves |

## Left out

- LoaderMutex.MutexTable.Lock: real time, flags that only select a clock, and B_USER_MUTEX_SHARED are not modelled.
- LoaderMutex.MutexTable.SemAcquire: a call that never ends because others change the word before every turn of its loop is not a call of the class; the machine has such runs.
- UserMutexUnits.SemaphoreConservation: the semaphore's word is an unbounded int.
- UserMutexRuns.MutualExclusion: mutexes that are DISABLED or unblocked with UNBLOCK_ALL are in the machine, but not in this claim.
- MessagingChain.MessagingService.SendMessage: what happens after a copy ran past its area is not modelled; a message is whole words, so that the bytes after the end of a message in its last word are those of the message; null pointers are not modelled.
- MessagingChain.MessagingService.UnregisterService: a destructor only takes its area out of the system's table; unmapping its memory is not modelled.
- MessagingRing.MessagingArea.Lock: a flag says that the service holds the area; the counter and the semaphore behind it are in Benaphore, for one area whose semaphore serves no other area and is not deleted; InitHeader on a reused area resets the counter, and its effect on threads that wait there is not modelled.
- KMessages.KMessage.GetNextField: fields are cursors given by offset; a cursor that belongs to another message is not modelled, nor are null names and null data.
- KMessages.KMessage.SetToBuffer: the buffer of the caller is copied into the model, so writes through to the caller's memory are not visible; it is taken to be aligned; a call that strays, because the buffer claims more memory than there is or leads the parser before it, promises nothing.
- KMessages.ParseContent: what it does after it strayed is not modelled; element bounds of fixed-size fields are not checked, as in the source.
- KMessages.KMessage.AddArray: the sizes must fit int32 and the field header int16, as the source assumes.
- ReservedRanges.RangeTable.Map: addresses are mathematical integers that do not wrap, and sizes are not zero.
- AreaSystem.System.UnmapMemory: requires ids for the new areas; addresses do not wrap, and a shared area lies within the offsets of its file.
- SharedFiles.MemoryService.ReleaseSharedFile: which paths are inside the shared-memory directory is a parameter; of the host handles only the order of closing is modelled, of the host files only their removal.
- AreaSystem.System.Fork: images, file descriptors and the rest of the process are left out; what the host answers when a clone is made and opened is a parameter.
- `server_hserver_call_set_memory_protection`: its loop over the changed ranges never runs for a single changed range, so there is no coverage to keep.
- `loader_next_reserved_range` and `loader_next_reserved_range_mapping`: they return 0 for an address before every entry.
- `IdMapIter`: its begin() does not skip a free first id.
- The typed `Add`, `Find`, `Get` and `Set` helpers of `KMessage` and `KMessageField::AddElement`, which only call what is modelled.
- KMessage delivery, `Dump` and the send and receive half that is compiled out.
- Ports, threads, app-load notification, node monitor, VFS, packagefs, path resolution and the server-call plumbing: they would add mostly easy members or depend on code that is not in the repository.
