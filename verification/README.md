# libplctag core, modelled and verified

libplctag lets programs read and write the tags of industrial controllers. This project models its
protocol-independent core in Dafny and proves what that core has to keep: the codec of the tag
buffer, the table and the lifetimes of tags, the per-tag operation machine with its abort handshake
and its events, library start and stop, the generational handle table, and the vendored uthash.

Calls into protocol modules are abstract steps that may finish or drop an operation, and never start
one or take a completion back. Clocks, memory exhaustion, hash functions and comparison functions are parameters. Mutexes are
recursive and allocated memory is zeroed, as the source relies on. Threads are modelled as
interleavings of steps, each of them one access to shared state or one critical section.

| file | what it holds |
|---|---|
| `Status.dfy`, `Bits.dfy` | status codes; the C bit operators on naturals and the arithmetic behind each masking idiom |
| `ByteOrder.dfy` | validated byte permutations, little-endian bytes, signed and unsigned values |
| `StringLayout.dfy`, `TagBuffer.dfy` | string layouts and the field a string occupies; the tag buffer with its accessors |
| `HashTable.dfy` | the open-addressed tag table refined to a map |
| `Vector.dfy`, `RefCount.dfy` | the cleanup queue refined to a sequence; reference counts, cleanup thread and teardown |
| `TagRegistry.dfy`, `TagLifetime.dfy` | tag ids; lookups, creations and destructions racing on the table |
| `LibraryState.dfy` | initialize_modules and destroy_modules racing on one state word |
| `AbortHandshake.dfy`, `TagOperations.dfy`, `Events.dfy` | the abort handshake; in-flight and dirty flags, automatic reads and writes; event coalescing |
| `HandleTable.dfy`, `HandleRuns.dfy` | the generational handle table; whole runs against a plain map of live handles |
| `IntrusiveList.dfy`, `UtHash.dfy`, `UtHashSort.dfy`, `UtHashRuns.dfy` | linked lists over handles; the hash table; its merge sort; whole runs |

## What the code does not keep

Each of these is proved by the member named, as an exact condition wherever a promised property fails.

- A 2-byte count word above 32767 is read back as a negative length (`StringLayout.LengthOfField`).
- With zero termination and byte swapping together, a string of odd length loses its last character
  to the terminator (`StringLayout.CharsOfField`).
- Writing the same string again resizes the field whenever the total-length query leaves something
  out: the swap byte of an odd length, or the slack of a fixed field whose total length exceeds its
  parts (`StringLayout.SizeOfField`, `TagBuffer.Tag.SetStringAgain`).
- plc_tag_set_int64 reports out of bounds where its siblings report that there is no data
  (`TagBuffer.Tag.SetInt`).
- Removing key 0 from the tag table lowers the entry count by one exactly when the probe window of
  key 0 has a free slot (`HashTable.Table.Remove`).
- Expanding an empty tag table always ends in an out-of-memory result (`HashTable.Table.Expand`).
- When teardown finishes draining, an object can still be lost if and only if some thread is between
  its check of the running flag and its insertion; such a run exists from the very start
  (`RefCount.LossNeedsLateThread`, `RefCount.LossIsReachable`).
- The failure path of plc_tag_create drops a reference it no longer owns when another thread has
  already destroyed the tag, and a run ends in a decrement of a zero count
  (`TagLifetime.UncleanBreaksAccounts`, `TagLifetime.UncleanIsReachable`).
- Tag id 0xFFFFFFF is issued when the counter comes to it, and its tag can never be destroyed
  (`TagRegistry.LastIdStays`).
- A module that fails to start leaves the earlier ones running, so that the uninitialised state the
  library goes back to is true if and only if the first module was the one that failed
  (`LibraryState.FailedStartLeavesModules`, `LibraryState.FailedStartIsReachable`).
- handle_alloc documents HANDLE_INVALID as its failure value, but slot 0 in generation 0 has that
  very handle (`HandleTable.Handles.Alloc`).
- vector_set and vector_insert store inside their array if and only if the index is within one growth
  step of the capacity (`Vector.PointerVector.Set`, `Vector.PointerVector.Insert`).
- A read that fails to start returns the status of the abort that cleans up after it, not its own
  error (`TagOperations.TagOps.StartRead`).

A comment in the event dispatcher says that callbacks are called outside the API mutex, while the code
calls them inside it. The event model has no mutex, so none of its results depends on which is meant.

## Model

| member | source | states |
|---|---|---|
| `ByteOrder.CheckByteOrderStr` | src/libplctag/lib/lib.c:4437-4479 | a string is accepted if and only if its digits are a permutation of 0 to length-1; each length error has its own code |
| `ByteOrder.PermutesOnto` | src/libplctag/lib/lib.c:4450-4474 | an accepted order reaches every byte of the field |
| `ByteOrder.MasksKeepDigits` | src/libplctag/lib/lib.c:4163-4218 | the masks applied when an order is stored change no digit of an accepted string |
| `ByteOrder.BytesRoundTrip` | src/libplctag/lib/lib.c:2568-2587 | every value that fits is recovered from its little-endian bytes |
| `ByteOrder.FromBytesRoundTrip` | src/libplctag/lib/lib.c:2516-2531 | every byte string is recovered from its value |
| `ByteOrder.GatherDetermines` | src/libplctag/lib/lib.c:2568-2587 | what is seen through the permutation determines the bytes of the field |
| `ByteOrder.SignRoundTrip` | src/libplctag/lib/lib.c:2829-2841 | a value survives the casts to unsigned and back if and only if it is in the range of the type |
| `ByteOrder.LoadOfStored` | src/libplctag/lib/lib.c:2829-2841 | loading bytes stored through an order gives the stored value if and only if it is in the range of the type, for signed and unsigned types of any width |
| `ByteOrder.StoredBytes` | src/libplctag/lib/lib.c:2568-2587 | after a store, the byte at the k-th place of the order is value / 256^k mod 256 |
| `ByteOrder.LoadIsWeighted` | src/libplctag/lib/lib.c:2516-2531 | a load is the sum of the bytes weighted by 256^k at the k-th place of the order, taken as signed or unsigned |
| `StringLayout.NewSizeHolds` | src/libplctag/lib/lib.c:4666-4739 | the computed field size has room for count word, characters, terminator and the swap byte of an odd string |
| `StringLayout.FieldUnique` | src/libplctag/lib/lib.c:3684-3807 | a layout has exactly one field content for a string |
| `StringLayout.FieldIsLaidOut` | src/libplctag/lib/lib.c:3684-3807 | the field of a string byte by byte: each byte of the count word, each pair of characters straight or exchanged, an odd last character in place or moved up by one, the terminator, zeros to the end |
| `StringLayout.FirstZeroIs` | src/libplctag/lib/lib.c:4643-4654 | the scan for the terminator stops at the first zero byte |
| `StringLayout.LengthOfField` | src/libplctag/lib/lib.c:4609-4663 | the length query answers the length of the stored string if and only if a 2-byte count is at most 32767; otherwise the answer is negative |
| `StringLayout.CountedLength` | src/libplctag/lib/lib.c:4609-4663 | the length a count word of 1, 2 or 4 bytes gives, as a weighted sum of its bytes with the sign the source gives it |
| `StringLayout.CharsInField` | src/libplctag/lib/lib.c:3560-3585 | reading never indexes outside the field |
| `StringLayout.DecodedPairs` | src/libplctag/lib/lib.c:3560-3585 | the characters read are the pairs of bytes of the field, straight or exchanged, and its odd last one |
| `StringLayout.ReadableTo` | src/libplctag/lib/lib.c:3560-3585 | reading stays inside the buffer if and only if the partner of an odd last swapped character is inside |
| `StringLayout.CharsOfField` | src/libplctag/lib/lib.c:3560-3585 | the characters read are those stored if and only if the terminator did not hit the last of an odd swapped string |
| `StringLayout.SizeOfField` | src/libplctag/lib/lib.c:4585-4598 | the total-length query falls short of the field size by exactly the swap byte or the slack of a fixed field |
| `TagBuffer.Tag.SetBit` | src/libplctag/lib/lib.c:2428-2473 | for bit tags and for any bit offset of plain tags: the addressed bit of the addressed byte takes the value, as a number, and every other byte and bit is unchanged; the error cases change nothing |
| `TagBuffer.Tag.GetBit` | src/libplctag/lib/lib.c:2367-2406 | the addressed bit, as byte / 2^k mod 2, or the code of each error case |
| `TagBuffer.Tag.SetInt` | src/libplctag/lib/lib.c:2548-3096 | for 16, 32 and 64 bits: the byte at the k-th place of the order of that width is value / 256^k mod 256, nothing else changes, and each error case leaves the buffer alone |
| `TagBuffer.Tag.GetInt` | src/libplctag/lib/lib.c:2496-3045 | the weighted sum of the bytes at the places of the order of that width, signed or unsigned, or the sentinel of each error case |
| `TagBuffer.Tag.SetThenGetInt` | src/libplctag/lib/lib.c:2657-2853 | a value set is the value read back; on a bit tag it is read back as 0 or 1 |
| `TagBuffer.Tag.GetStringLength` | src/libplctag/lib/lib.c:4609-4663 | the length by count word, byte by byte for each of its widths, or by scanning for the terminator |
| `TagBuffer.Tag.ResizeBuffer` | src/libplctag/lib/lib.c:4742-4767 | the common prefix survives; failure changes nothing but the status |
| `TagBuffer.Tag.ResizeAtOffset` | src/libplctag/lib/lib.c:4770-4846 | for shrinking, growing and equal splits the head stays, the tail reappears intact at the new split and the size changes by exactly the difference; the buffer after a failure is stated exactly, including the moved tail of a failed shrink |
| `TagBuffer.Tag.WriteCount` | src/libplctag/lib/lib.c:3684-3763 | the field is zeroed and its count word, seen through the byte order, is the length |
| `TagBuffer.Tag.WriteChars` | src/libplctag/lib/lib.c:3765-3807 | characters, terminator and zero fill make exactly the field of the string, stated byte by byte; the bounds checks never fail |
| `TagBuffer.Tag.ReplaceField` | src/libplctag/lib/lib.c:3674-3807 | resize and rewrite of one field: outcome, buffer and status in every case |
| `TagBuffer.SetOutcome` | src/libplctag/lib/lib.c:3650-3763 | success if and only if the string is within the capacity, the held field is inside the buffer and measured, the size is kept or may change and memory is there, and the length fits the count word |
| `TagBuffer.Tag.SetString` | src/libplctag/lib/lib.c:3596-3826 | outcome, buffer and status for every input; on success the field is the string byte by byte, everything before it is unchanged, the old tail follows it intact, and the size changes by new minus old; every failure says what the buffer holds |
| `TagBuffer.Tag.GetString` | src/libplctag/lib/lib.c:3507-3593 | the code and the tag status of each case, exactly when it succeeds, and that the caller's buffer then holds the pairs of bytes of the field, straight or exchanged, cut to its length and zero filled |
| `TagBuffer.Tag.SetThenGetString` | src/libplctag/lib/lib.c:3507-3826 | a string set successfully is read back exactly, with its length, if and only if a 2-byte count is at most 32767 and no terminator hit the last character |
| `TagBuffer.Tag.SetStringAgain` | src/libplctag/lib/lib.c:3650-3715 | storing the string a field already holds changes the buffer if and only if the total-length query falls short |
| `HashTable.FoundInWindow` | src/utils/hashtable.c:268-299 | a non-zero key is in the map if and only if one of its ten probe slots carries it, holes or not; key 0 never is |
| `HashTable.ContentsAdd` | src/utils/hashtable.c:152-156 | filling a free slot in the window adds one mapping and keeps every key distinct and within reach |
| `HashTable.ContentsRemove` | src/utils/hashtable.c:229-232 | clearing a slot without a tombstone removes its mapping only |
| `HashTable.PlacedRemove` | src/utils/hashtable.c:229-232 | the remaining keys stay distinct and within ten probes of home |
| `HashTable.ContentsAppend` | src/utils/hashtable.c:354-368 | one more copied entry extends the map by that entry |
| `HashTable.Removal` | src/utils/hashtable.c:213-238 | what the search result says about the map to be shrunk |
| `HashTable.WindowRoom` | src/utils/hashtable.c:302-325 | a table with fewer entries than slots and fewer than ten has a free slot in every probe window |
| `HashTable.Table.constructor` | src/utils/hashtable.c:71-101 | a new table is the empty map |
| `HashTable.Table.FindKey` | src/utils/hashtable.c:268-299 | the search finds every live key and nothing else |
| `HashTable.Table.FindEmpty` | src/utils/hashtable.c:302-325 | a free slot of the window, or not found exactly when all ten are taken |
| `HashTable.Table.Get` | src/utils/hashtable.c:104-126 | the data mapped to the key, for every key |
| `HashTable.Table.Remove` | src/utils/hashtable.c:213-238 | the mapping is returned and gone, the rest is unchanged, and the entry count is exact except for the stated case of key 0 |
| `HashTable.Table.CopyEntries` | src/utils/hashtable.c:354-368 | when every entry found a slot the new array holds the same map |
| `HashTable.Table.Expand` | src/utils/hashtable.c:328-380 | the same map in a strictly larger table whose size is reached by doubling up to the cap, or out of memory if and only if an allocation was refused, and nothing changed; it terminates |
| `HashTable.Table.Put` | src/utils/hashtable.c:129-161 | one mapping more, or out of memory and the same map, if and only if an allocation was refused; success whenever the probe window has a free slot; the retry loop terminates |
| `HashTable.Run` | src/utils/hashtable.c:104-238 | over every run of gets, inserts and removes the table answers as a plain map does, its entry count is the size of the map, a present key is refused, an out-of-memory answer means that an allocation was refused, and an insertion into a table with fewer than ten entries and free slots succeeds |
| `Vector.PointerVector.constructor` | src/utils/vector.c:52-87 | a new vector is the empty sequence |
| `Vector.PointerVector.EnsureCapacity` | src/utils/vector.c:285-327 | one growth step, by half the size but at least one and at most the maximum increment, that keeps the contents, or no memory and nothing changed |
| `Vector.PointerVector.Set` | src/utils/vector.c:151-182 | the element is replaced, or the sequence is extended with a gap of NULLs; the store hits the array if and only if the index is within one growth step |
| `Vector.PointerVector.Insert` | src/utils/vector.c:104-148 | the element is inserted and everything from there on moves up; the exact result code, and when the store hits the array |
| `Vector.PointerVector.Remove` | src/utils/vector.c:205-236 | the element comes out and the rest closes up; out of bounds gives NULL and no change |
| `Vector.Drain` | src/utils/rc.c:407-424 | the drain loop returns every queued header, oldest first, and leaves the queue empty |
| `RefCount.ThreadStepConserves` | src/utils/rc.c:206-268 | a decrementing thread's steps keep every dead object in exactly one place |
| `RefCount.EnqueueConserves` | src/utils/rc.c:246-258 | so does its insertion, including the cases where it fails or finds no mutex or queue |
| `RefCount.QueueStepConserves` | src/utils/rc.c:300-322 | so do the steps of the cleanup thread and of teardown |
| `RefCount.PhasesStep` | src/utils/rc.c:388-440 | flag, queue, mutex, cleanup thread and teardown move through their phases together, and the queue is first in, first out |
| `RefCount.NothingLostStep` | src/utils/rc.c:388-440 | nothing is lost after a drain that no thread was late for |
| `RefCount.InvRun` | src/utils/rc.c:206-440 | all of this over every schedule |
| `RefCount.ZeroAbsorbing` | src/utils/rc.c:172-181 | a count that has reached zero stays zero over every schedule |
| `RefCount.CountsReferences` | src/utils/rc.c:156-192 | over every schedule the count of a live object is the number of references taken less the number dropped |
| `RefCount.DiesWhenAllDropped` | src/utils/rc.c:172-181 | an object dies at the very drop with which all references taken have been dropped |
| `RefCount.CleanupSafe` | src/utils/rc.c:206-322 | over every schedule an object is cleaned at most once, only with count zero and only after every reference taken has been dropped, and objects leave the queue in the order they entered, also after the queue is destroyed |
| `RefCount.CleanerCleans` | src/utils/rc.c:206-322 | undisturbed, a dropped object goes through the queue and is cleaned by the cleanup thread |
| `RefCount.ThreadCleans` | src/utils/rc.c:246-268 | when the queue cannot take it, the dropping thread cleans it itself |
| `RefCount.TeardownCleans` | src/utils/rc.c:388-440 | what the cleanup thread leaves in the queue is cleaned by teardown, which ends quiet and loses nothing |
| `RefCount.CleanedAfterTeardown` | src/utils/rc.c:388-440 | after teardown nothing is queued and every dead object was cleaned or lost once; cleaned exactly once if no thread was late for the drain |
| `RefCount.LateThreadLoses` | src/utils/rc.c:246-258 | a schedule from any drained state with a thread past the flag check on which its object is never cleaned |
| `RefCount.LossNeedsLateThread` | src/utils/rc.c:388-440 | when the drain ends, some schedule loses an object if and only if some thread is past the flag check |
| `RefCount.LossIsReachable` | src/utils/rc.c:206-440 | for any thread and object such a run exists from the initial state |
| `TagRegistry.MaskKeepsLow28` | src/libplctag/lib/lib.c:4515-4527 | the id mask is reduction modulo 2^28 |
| `TagRegistry.IncStep` | src/libplctag/lib/lib.c:4515-4527 | tag_id_inc is a step along the cycle that skips zero, from the middle of the cycle for an id that is not positive |
| `TagRegistry.IdsCycle` | src/libplctag/lib/lib.c:4515-4527 | k steps from id give ((id-1+k) mod (2^28-1))+1: one cycle over all ids |
| `TagRegistry.SameIdAfterTurns` | src/libplctag/lib/lib.c:4515-4527 | an id comes round only after whole turns |
| `TagRegistry.LastIdComesUp` | src/libplctag/lib/lib.c:4515-4527 | how far the counter has to move to stand at the last id of the cycle |
| `TagRegistry.Registry.FindFreeId` | src/libplctag/lib/lib.c:4536-4559 | the first unused id after the counter, or proof that fifty in a row were in use |
| `TagRegistry.Registry.AddTagLookup` | src/libplctag/lib/lib.c:4530-4575 | a positive id unused by any live tag, or the exact condition of each error with the table unchanged |
| `TagRegistry.Registry.Destroy` | src/libplctag/lib/lib.c:1689-1706 | which ids are accepted, and that exactly the named tag leaves the table |
| `TagRegistry.Run` | src/libplctag/lib/lib.c:4530-4575 | over every run of creates and destroys an id is free when it is issued and is issued again only after the counter has gone all the way round; a tag under the last id stays |
| `TagRegistry.LastIdStays` | src/libplctag/lib/lib.c:1689-1706 | from there a creation gets that id, plc_tag_destroy refuses it, and no run of creates and destroys removes the tag |
| `TagLifetime.TableStepAccounts` | src/libplctag/lib/lib.c:1701-1723 | adding to and removing from the table keeps every count equal to table membership plus owners |
| `TagLifetime.CountStepAccounts` | src/utils/rc.c:156-192 | so do the increments and decrements |
| `TagLifetime.ReachableIsAlive` | src/libplctag/lib/lib.c:4482-4512 | a tag in the table has a count of at least one |
| `TagLifetime.LookupFinds` | src/libplctag/lib/lib.c:4482-4512 | a lookup of a mapped id ends holding one more reference to its tag, or none if lookup_tag finds that the tag does not carry the id yet |
| `TagLifetime.NamedTagIsFound` | src/libplctag/lib/lib.c:1156-1188 | once its creation has stored the id in the tag, a lookup finds it |
| `TagLifetime.DestroyDrops` | src/libplctag/lib/lib.c:1701-1723 | a destroy of a mapped id takes exactly its tag out of the table and drops one reference |
| `TagLifetime.CountersStep` | src/libplctag/lib/lib.c:4482-4512 | no step increments or decrements a zero count |
| `TagLifetime.ZeroStays` | src/utils/rc.c:156-192 | over every run, clean or not, a count that has reached zero stays zero, and an increment or decrement that finds it there is refused and on record |
| `TagLifetime.InvRun` | src/libplctag/lib/lib.c:1701-1723 | the accounts hold over every run whose failing creations find their own tag in the table |
| `TagLifetime.LifetimesSafe` | src/libplctag/lib/lib.c:4482-4575 | over such runs lookup's increment always succeeds, no decrement finds zero, counts equal membership plus owners, and racing destroys take a tag out at most once |
| `TagLifetime.LifeOfATag` | src/libplctag/lib/lib.c:1701-1723 | a run in which a tag is created, found, destroyed while in use and freed by its last user |
| `TagLifetime.FailedCreation` | src/libplctag/lib/lib.c:1156-1188 | a creation that gets no id drops the only reference |
| `TagLifetime.UncleanBreaksAccounts` | src/libplctag/lib/lib.c:1156-1188 | the failure path of a creation keeps the accounts if and only if the id still names its own tag |
| `TagLifetime.UncleanIsReachable` | src/libplctag/lib/lib.c:1156-1188 | a run from the initial state on which a failing creation decrements a zero count |
| `LibraryState.ExclusiveStep` | src/libplctag/lib/init.c:146-300 | every step keeps at most one thread inside start or teardown, with the two busy states held exactly while one is inside |
| `LibraryState.ModulesStep` | src/libplctag/lib/init.c:245-293 | without a failed start the running modules are exactly those the thread inside has got to |
| `LibraryState.RunExclusive` | src/libplctag/lib/init.c:146-300 | both over every run of any number of threads |
| `LibraryState.ModulesNeverTwice` | src/libplctag/lib/init.c:146-300 | no module is started while up or stopped while down, and RUNNING means all are up |
| `LibraryState.FailedStartLeavesModules` | src/libplctag/lib/init.c:250-288 | after a failed start exactly the modules started before are up, which matches the uninitialised state if and only if there were none |
| `LibraryState.FailedStartIsReachable` | src/libplctag/lib/init.c:198-293 | a run from the initial state that ends uninitialised with the reference-count module up |
| `LibraryState.OkMeansWasRunning` | src/libplctag/lib/init.c:198-300 | initialize_modules returns OK only if the state was RUNNING at some moment of the call |
| `LibraryState.ErrorMeansOwnStartFailed` | src/libplctag/lib/init.c:198-300 | it returns an error only if a module failed in the caller's own start |
| `LibraryState.Latecomers` | src/libplctag/lib/init.c:198-245 | whoever sees RUNNING returns OK at once, whoever finds the library uninitialised starts it, all others try again, and a stop that does not find it running gives up |
| `LibraryState.StartsAndStops` | src/libplctag/lib/init.c:146-300 | undisturbed, a start brings every module up and ends RUNNING, and a stop brings every module down again |
| `AbortHandshake.MutexStep` | src/libplctag/lib/lib.c:670-757 | the API mutex is held by exactly the thread whose position says so |
| `AbortHandshake.OthersSecured` | src/libplctag/lib/lib.c:278-295 | no step of another thread takes back what a position of the handshake has secured |
| `AbortHandshake.SelfSecured` | src/libplctag/lib/lib.c:670-757 | every position reached has secured what it claims about its target |
| `AbortHandshake.InvRun` | src/libplctag/lib/lib.c:670-757 | both over every schedule of aborters, starters, tickler and protocol |
| `AbortHandshake.AbortedIsGone` | src/libplctag/lib/lib.c:670-757 | when an abort returns, the operation in flight at its request is no longer in flight, whoever served it |
| `AbortHandshake.TicklerServes` | src/libplctag/lib/lib.c:278-295 | a tickle that finds a request clears the operation in flight and the request |
| `AbortHandshake.TicklerStarts` | src/libplctag/lib/lib.c:278-341 | without a request it leaves the operation in flight alone, and may start one when there is none |
| `AbortHandshake.AborterServes` | src/libplctag/lib/lib.c:670-757 | an undisturbed abort serves its own request |
| `AbortHandshake.AborterSkips` | src/libplctag/lib/lib.c:693-752 | an abort whose request was served meanwhile leaves the operation in flight alone |
| `AbortHandshake.StarterStarts` | src/libplctag/lib/lib.c:1763-1817 | a start with nothing in flight puts a new operation in flight |
| `AbortHandshake.StarterIsBusy` | src/libplctag/lib/lib.c:1775-1780 | while an operation is in flight a further start changes nothing |
| `AbortHandshake.OperationRuns` | src/libplctag/lib/lib.c:570-605 | left alone, an operation is completed by the protocol and makes way for the next one |
| `AbortHandshake.FailedStartAborts` | src/libplctag/lib/lib.c:1799-1817 | a start that fails aborts its own operation under the mutex it already holds |
| `Events.CreatedFirstConcat` | src/libplctag/lib/lib.c:404-476 | a batch of calls keeps CREATED before every abort and completion |
| `Events.CallsCount` | src/libplctag/lib/lib.c:404-476 | a dispatch calls back once for each pending event and for no other |
| `Events.CreatedLeads` | src/libplctag/lib/lib.c:404-476 | a pending CREATED is the first call of its batch |
| `Events.CallsCarryStatus` | src/libplctag/lib/lib.c:404-476 | every call of a batch is for an event that was pending, with the status it was pending with |
| `Events.CallsOrdered` | src/libplctag/lib/lib.c:404-476 | the calls of a batch stand in the order of their slots |
| `Events.TagEvents.Raise` | src/libplctag/lib/tag.h:184-274 | for every event exactly which flags become pending, which completions are enabled or used up, and nothing without a callback |
| `Events.TagEvents.Collect` | src/libplctag/lib/lib.c:404-476 | every call is for an event that was pending, with its status; CREATED comes first, a start before its completion, an abort before completions, DESTROYED last; every flag is cleared |
| `Events.TagEvents.Dispatch` | src/libplctag/lib/lib.c:404-476 | the batch delivered, with the same statement about statuses and order, and the guarantees about all calls so far kept |
| `Events.TagEvents.Register` | src/libplctag/lib/lib.c:1435-1477 | a second registration is refused |
| `Events.TagEvents.Unregister` | src/libplctag/lib/lib.c:1480-1507 | removing a missing callback is refused; pending events stay |
| `Events.Run` | src/libplctag/lib/tag.h:184-274 | over every sequence of raises, dispatches and registrations the calls are exactly those due by the operations themselves, each with the status of the raise that made it due last; CREATED is delivered at most once and before any abort or completion, and completions delivered never exceed starts raised |
| `TagOperations.Reschedule` | src/libplctag/lib/lib.c:353-385 | for every delay and period the next read lands in [now, now+period) and stays congruent to the last one |
| `TagOperations.TagOps.TickleWrite` | src/libplctag/lib/lib.c:298-341 | exactly when an automatic write starts, that it is then in flight unless the protocol dropped it, and what happens to dirty and its deadline otherwise |
| `TagOperations.TagOps.TickleRead` | src/libplctag/lib/lib.c:344-393 | an automatic read starts if and only if it is due, nothing is in flight and the tag is clean; it is then in flight unless the protocol dropped it, and its times do not drift |
| `TagOperations.TagOps.Tickle` | src/libplctag/lib/lib.c:271-401 | the whole tickle: a pending abort is served alone, otherwise exactly when a write starts and, on a clean idle tag, exactly when a read starts, with what is then in flight |
| `TagOperations.TagOps.ProtocolTickle` | src/libplctag/lib/lib.c:570-605 | completion flags are consumed, an operation stays in flight if and only if it was neither finished nor dropped, none starts, and the write deadline is kept unless a finished write is reported |
| `TagOperations.TagOps.ServeAbort` | src/libplctag/lib/lib.c:693-752 | a requested abort clears both in-flight flags and marks what was in flight as complete, so that its waiter wakes; an absent one changes nothing; the status returned by each |
| `TagOperations.TagOps.StartRead` | src/libplctag/lib/lib.c:1763-1817 | a read starts if and only if it is not cached, nothing is in flight and the tag is clean; it stays in flight if and only if it is pending and not dropped; the return code in every case, including the abort's code after a failed start |
| `TagOperations.TagOps.StartWrite` | src/libplctag/lib/lib.c:1960-2010 | a write starts if and only if nothing is in flight, and stays in flight if and only if it is pending and not dropped; the return code in every case |
| `TagOperations.TagOps.WaitOver` | src/libplctag/lib/lib.c:1865-1870 | the end of a synchronous wait clears its own in-flight and completion flags only |
| `TagOperations.Run` | src/libplctag/lib/lib.c:271-605 | over every run read and write are never both in flight, no read starts on a dirty tag, dirty is cleared only by starting a write, and read times do not drift |
| `TagOperations.WriteStartsWithinDelay` | src/libplctag/lib/lib.c:298-341 | two tickles at least the write delay apart start the write of a dirty tag, whatever protocol tickles, reads, explicit writes, waits, modifications and further tickles come between, unless an abort is requested, a finished write is reported or an explicit write is still in flight at the end |
| `TagOperations.TicklerSleep` | src/libplctag/lib/lib.c:607-651 | the sleep is between 10 and 100 ms, never passes a deadline unless at the floor, and is no shorter than a deadline or the elapsed time demands |
| `HandleTable.MakeRoundTrip` | src/utils/handle_system.h:62-67 | packing loses nothing if and only if the index fits 48 bits |
| `HandleTable.SameHandleAfter` | src/utils/handle_system.c:288-302 | two generations of a slot share a handle if and only if a multiple of 65536 destructions lies between |
| `HandleTable.Handles.Grow` | src/utils/handle_system.c:109-139 | doubling keeps every live handle and adds empty slots |
| `HandleTable.Handles.LowestFree` | src/utils/handle_system.c:122-123 | the scan from the hint finds the lowest free slot |
| `HandleTable.Handles.Alloc` | src/utils/handle_system.c:80-160 | success if and only if the header is there and a slot is free or can be made; the lowest free slot is taken, the active count is exact, other slots are unchanged, and when the result is HANDLE_INVALID |
| `HandleTable.Handles.Acquire` | src/utils/handle_system.c:163-213 | only current handles are accepted, and which of the two refusals the others get; the generation argument for destroyed handles |
| `HandleTable.Handles.Release` | src/utils/handle_system.c:216-240 | one reference of the named object and nothing else |
| `HandleTable.Handles.BeginDestroy` | src/utils/handle_system.c:256-269 | marking accepts only current handles |
| `HandleTable.Handles.FinishDestroy` | src/utils/handle_system.c:279-302 | drained or timed out, the slot is free, its old handle is dead, and every slot below the hint is still occupied |
| `HandleRuns.Run` | src/utils/handle_system.c:80-302 | over every run from an empty table each operation's own answer is that of a plain map from live handles to reference count and destroy mark: an allocation with memory issues a handle, a new handle is not live, acquire is refused as not found for a handle that is not live and as freed for a marked one, marking and destroying succeed if and only if the handle is live; the active count is the number of live handles |
| `HandleRuns.DeadForAWholeTurn` | src/utils/handle_system.c:288-302 | over every run, once a destroy has answered OK no operation recognises the handle and no allocation issues it before its slot has been destroyed 65536 times |
| `IntrusiveList.AppendLinked` | src/contrib/cli/uthash.h:267-273 | appending keeps the list linked both ways |
| `IntrusiveList.PushLinked` | src/contrib/cli/uthash.h:747-759 | so does pushing at the head of a chain |
| `IntrusiveList.UnlinkLinked` | src/contrib/cli/uthash.h:762-769 | so does unlinking any element |
| `UtHash.BktIsRemainder` | src/contrib/cli/uthash.h:418-419 | masking by a power of two picks the remainder bucket |
| `UtHash.IdealIsCeiling` | src/contrib/cli/uthash.h:811-812 | the shift and mask formula is the ceiling of items over buckets |
| `UtHash.MultiplierCovers` | src/contrib/cli/uthash.h:820-825 | what expand_mult comes to for a chain: zero within the ideal length, otherwise the least covering multiple or one for each item too many |
| `UtHash.MoveOne` | src/contrib/cli/uthash.h:814-832 | moving one item to its new chain keeps both halves of a doubling in progress |
| `UtHash.Table.constructor` | src/contrib/cli/uthash.h:210-235 | the empty table is sound |
| `UtHash.Table.MoveAll` | src/contrib/cli/uthash.h:814-832 | all items are in twice as many chains, with the excess over the ideal length counted exactly |
| `UtHash.Table.ExpandBuckets` | src/contrib/cli/uthash.h:800-844 | a doubling keeps chains, counts and items, and its statistics and every expand_mult are exact |
| `UtHash.Table.AddToTable` | src/contrib/cli/uthash.h:747-759 | the item joins its chain; the buckets double if and only if that brings the chain to its threshold and expansion is allowed |
| `UtHash.Table.Add` | src/contrib/cli/uthash.h:384-404 | what HASH_FSCK checks is kept, and the item is last in the application order |
| `UtHash.Table.Find` | src/contrib/cli/uthash.h:727-744 | an item with the key if and only if there is one; the only one when keys are distinct |
| `UtHash.Table.UnlinkFromBucket` | src/contrib/cli/uthash.h:762-769 | exactly this item leaves the chains |
| `UtHash.Table.Delete` | src/contrib/cli/uthash.h:435-457 | what HASH_FSCK checks is kept, and exactly this item leaves both structures |
| `UtHashRuns.Run` | src/contrib/cli/uthash.h:494-537 | over every run of finds, additions and deletions the table answers as a plain dictionary does and stays sound |
| `UtHashSort.MergeKeeps` | src/contrib/cli/uthash.h:875-908 | a merge is a permutation of its two runs |
| `UtHashSort.MergeSorted` | src/contrib/cli/uthash.h:875-908 | merging two stably sorted runs gives one |
| `UtHashSort.PassDoublesRuns` | src/contrib/cli/uthash.h:860-918 | a pass over sorted runs of one length leaves sorted runs of twice that length |
| `UtHashSort.MergeRuns` | src/contrib/cli/uthash.h:875-908 | the relinking loop builds exactly the merge of the two runs |
| `UtHashSort.SkipRun` | src/contrib/cli/uthash.h:867-873 | the walk to the second run counts the first |
| `UtHashSort.SortPass` | src/contrib/cli/uthash.h:860-911 | one pass of relinking computes the pass on sequences, linked both ways, and says whether it was the last |
| `UtHashSort.Sort` | src/contrib/cli/uthash.h:851-921 | for every list and every comparison function the relinked list is exactly the doubling passes, linked both ways with the right head and tail; it terminates |
| `UtHashSort.StableSort` | src/contrib/cli/uthash.h:851-921 | for every list and every total preorder those passes are a stably sorted permutation |
| `UtHashSort.SortTable` | src/contrib/cli/uthash.h:851-921 | sorting a table keeps what HASH_FSCK checks and sorts its application order stably |

## Left out

- Protocol modules, sockets, platform code, logging, attribute parsing, examples and the rest of the command line client.
- Fixed-width overflow of sizes, offsets, counters and times: these are unbounded integers, and so are the bucket count and run length of uthash; value widths, masks, generations and tag ids are exact.
- Freshness of the read cache: whether a read is served from it is a parameter of StartRead.
- The wait loop of plc_tag_create and all liveness that depends on thread scheduling.
- String layouts with 8-byte count words, and uncounted layouts with a count word or swapped bytes.
- Float accessors, 8-bit and raw byte accessors, attributes and size setters: they would add only easy members.
- HASH_SELECT, in-order adds, HASH_REPLACE, the bloom filter, the non-fatal out-of-memory mode and the hash functions of uthash.
- Callbacks that call back into the library while events are being dispatched.
- The weak compare-and-set of compilers without C11 atomics.
- Items of uthash are numbers and their link fields are maps, not heap objects, so the model has no aliasing between an item's own fields and its links.
- TagBuffer.Tag.SetInt: one loop over the bytes stands for the unrolled stores of each width, and the tag id lookup around each accessor is not repeated.
- TagBuffer.Tag.SetString: demands a non-negative offset and, for a variable field, a count word inside the buffer, because the source reads that word before it checks any bound.
- TagBuffer.Tag.GetString: demands a non-negative offset and a count word inside the buffer, for the same reason.
- HashTable.Table.Put: covers fresh non-zero keys with data, as the library uses it; a duplicate put would leave two live slots for one key.
- TagRegistry.Run: the registry keeps a plain map where the library has the hash table; `HashTable.Run` shows that the table answers as the map does.
- AbortHandshake.AbortedIsGone: the two in-flight flags are one slot with numbered operations, since they are never both set.
- TagOperations.TagOps.StartRead: says nothing about when the cache is valid.
- HandleTable.Handles.Acquire: is one atomic step; races with an unlocked growth are not modelled, nor is the object's own mutex, held from acquire to release, so that runs have more interleavings than the source allows.
- HandleTable.Handles.FinishDestroy: begins after the bounded polling for other users, whose length is not modelled, and does not cover overlapping destroys of one handle.
- HandleTable.Handles.Alloc: does not model the mutex that the source leaves locked when growth fails, and treats more slots than a 48-bit index can name as a failed allocation.
