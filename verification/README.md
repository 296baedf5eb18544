# A model of the Proxy-Wasm host core

This project models the host-side core of the Proxy-Wasm runtime and proves what it keeps. Each Dafny
module stands for one component:

| module | component |
|---|---|
| `Leb128` | the bounded LEB128 reader of `BytecodeUtil`, against the grammar of unsigned integers in section 5.2.2 of the WebAssembly Core Specification |
| `Sections` | a Wasm file as a list of sections (sections 5.5.2 and 5.5.3), and the search for a custom section |
| `StrippedSource` | the dropping of precompiled sections, and when it is idempotent |
| `StrippingLaws` | which sections of a file make it to the stripped one, position by position |
| `AbiVersions` | the ABI version announced by the exports (section 5.5.10), and when stripping leaves it alone |
| `FunctionNames` | the index of function names in the `name` section |
| `Words`, `Pairs` | the serialized form of header pairs, its printer and its parser |
| `SharedQueue`, `SharedData` | the two stores shared between VMs, as state machines over their locked steps |
| `LocalCache` | the thread-local cache of VMs, its chunked sweep, and the eviction of failed VMs |
| `Shutdown` | the deferred shutdown of a `WasmBase` over its three sets of root contexts, with re-entrant calls |
| `ShutdownRuns` | what becomes of every root context over a whole run, and exactly which runs keep to it |
| `CallContext` | the attribution of host calls to contexts in nested calls into VMs |
| `Environ` | the two WASI calls that hand a VM its environment |
| `Bytes` | byte strings and what the modules share about them |

Code that walks a buffer, mutates an object or fills memory is imperative here as well. A method's
contract ties it to a function of its inputs or of the old state; the lemmas state what that function
means. Byte strings stand for `std::string` and `std::string_view`, and cursors are indices into them.
Every mutex-protected body is one atomic step, so that a run is any interleaving of steps. What the
environment decides is a parameter: which weak references have expired, what a clone factory returns,
what a VM does in a call, how a hash table is ordered, which byte order applies.

Some loops carry a predicate in a form kept folded (a quantifier over a single value). It means the same
as the predicate inside it and only keeps the verifier from unfolding it at every step.

## What the proofs found

- `parseVarint` takes every encoding of at most five bytes of a value below 2^30 and refuses all larger
  values, although it is used for `u32` fields: a valid Wasm module with such a number is refused.
- `checkWasmHeader` lets inputs shorter than a header pass; the walks then find an empty module.
- `getStrippedSource` is described as returning the source without custom sections. It keeps those
  before the first precompiled one. It bounds a section's name by the end of the file. A section whose
  name runs over its end, without `precompiled_` in the part inside, can therefore be readable in a file
  and no longer be in the stripped one. For every other section, and only for those, stripping a file
  around it is idempotent (`IdempotentExactlyIf`; a short file on which it is not: `StrippingTwiceCanFail`).
- `getAbiVersion` lets an export entry's kind and index lie behind the end of the section. The version
  survives stripping for all files around an export section exactly if the section's entries do not
  dangle (`SurvivesExactlyIf`).
- `SharedData::set` accepts a number read earlier exactly if the key is gone by then or was last stored a
  multiple of 2^32 - 1 numbers later (`AcceptedExactlyIf`). So an update is lost exactly if the key is
  gone, or was stored again and the numbers have come around (`UpdateLostExactlyIf`, with a run:
  `UpdateLostAfterWraparound`); none is while the key is there and at most 2^32 - 1 numbers have been
  issued since it was stored (`NoLostUpdates`).
- `finishShutdown` calls `onDelete` once per context exactly if no deletion starts a second
  `finishShutdown` inside the first (`FinishedOnceExactlyIf`). Two contexts that get `done()` in the same
  call into the VM are enough: the first has `onDelete` called twice, and the outer loop is left with an
  iterator to an erased element (`DoneTogetherDeletesTwice`). Which calls and which whole runs are free of
  this can be told from the contexts that wait and the `done()` calls made, without following the nested
  calls (`VmCallOnceExactlyIf`, `ShutDownOnceExactlyIf`, `SoundExactlyIfQuiet`).
- A context that is shut down while an older one of the same plugin still waits for `done()` destroys the
  older one without `onDelete` (`LostExactlyIf`, `RestartedPluginLosesContext`).
- When a broken VM that is still held elsewhere fails again, the cache entry of its healthy replacement
  is erased (`SecondFailureEvictsReplacement`).

## Model

| member | source | states |
|---|---|---|
| `Leb128.ParseVarint` | src/bytecode_util.cc:247-275 | reads exactly one integer at the front of the bytes between cursor and end, never past it, and moves the cursor over what it took |
| `Leb128.ReadsTheGrammar` | src/bytecode_util.cc:247-275 | the prefix it takes is the only one that is a u30 by the grammar, with the grammar's value; if it takes none, no prefix is one |
| `Leb128.TakesExactlyBelowTwoTo30` | src/bytecode_util.cc:258-271 | every u32 and every encoding of at most five bytes is taken whole, padding included, if its value is below 2^30, and refused otherwise |
| `Leb128.ReadMeaning` | src/bytecode_util.cc:252-274 | between two cursors: at most five bytes, a value below 2^30, inside the bounds; and a refusal means that no prefix is an encoding |
| `Leb128.ReadIgnoresTheRest` | src/bytecode_util.cc:247-275 | the bytes after an integer do not change how it is read |
| `Leb128.EncodedIsRead` | src/bytecode_util.cc:247-275 | the shortest encoding of every number that fits is read as that number, whatever follows |
| `Sections.ReadSectionHeader` | src/bytecode_util.cc:109-117 | the cursor is on a complete section and gets its id, content and end, or the rest of the file does not begin with one |
| `Sections.ReadName` | src/bytecode_util.cc:121-125 | a length-prefixed name and what follows it, inside the given end, or nothing |
| `Sections.WalkIsExact` | src/bytecode_util.cc:107-136 | the sections walked over are well formed and with the rest are the input, byte for byte |
| `Sections.WalkInvertsFlatten` | src/bytecode_util.cc:107-136 | a list of well-formed sections is found again by the walk: every input has exactly one section structure |
| `Sections.GetCustomSection` | src/bytecode_util.cc:99-138 | terminates on every input with the answer of the search over the sections |
| `Sections.SearchMeaning` | src/bytecode_util.cc:118-135 | the content found is that of the first custom section with the name, from behind the name to the section's end, and every such section is found |
| `Sections.SearchFindsNothing` | src/bytecode_util.cc:118-137 | success without a result means exactly that the file is readable and all custom sections have other, readable names |
| `Sections.HeaderMeaning` | src/bytecode_util.cc:25-29 | which files pass: those too short for a header, and those that begin with "\\0asm" |
| `Sections.SectionsBeginBehindHeader` | src/bytecode_util.cc:107-109 | the sections are the bytes from the ninth on, and there are none in a file of eight bytes or fewer |
| `Sections.ListedMeaning` | src/bytecode_util.cc:109-137 | a module is its listed sections and a rest, which is empty exactly if the module is readable to its end |
| `Sections.WrittenIsWellFormed` | src/bytecode_util.cc:113-117 | what is written with an id and a length before its content is a section with that id and that content |
| `Sections.WrittenCustomSectionIsFound` | src/bytecode_util.cc:118-129 | a custom section that is written with a name and a content is found under that name with that content |
| `StrippedSource.GetStrippedSource` | src/bytecode_util.cc:197-245 | succeeds exactly on files whose walk does, and then returns the header, everything before the first precompiled section and the later non-custom sections; says what the output string holds after a failure, and covers one that is not empty on entry |
| `StrippedSource.FailureLeavesAPrefix` | src/bytecode_util.cc:206-239 | what a failed call leaves is the beginning of what stripping keeps, behind what the string held before |
| `StrippedSource.CheckName` | src/bytecode_util.cc:216-223 | the name check, with the name bounded by the end of the file |
| `StrippedSource.StrippingKeepsTheModule` | src/bytecode_util.cc:197-245 | the output is a module again, with the header and the sequence of non-custom sections of the input |
| `StrippedSource.StrippedFromTheFirst` | src/bytecode_util.cc:223-237 | where the output departs from the input: a common part up to the first precompiled section, then only non-custom sections, and fewer bytes in all |
| `StrippedSource.NothingToStrip` | src/bytecode_util.cc:240-243 | a file without a precompiled section is copied |
| `StrippingLaws.ContainsMeaning` | src/bytecode_util.cc:223 | the name is searched at every position |
| `StrippingLaws.PrecompiledMeaning` | src/bytecode_util.cc:216-223 | a section counts as precompiled exactly if it has id 0 and "precompiled_" at some position of its name, read on into what follows |
| `StrippingLaws.WrittenPrecompiledSection` | src/bytecode_util.cc:216-223 | so does every custom section written with such a name |
| `StrippingLaws.NonCustomMeaning` | src/bytecode_util.cc:232-238 | the non-custom part of a module is exactly its sections with another id than 0, in order |
| `StrippingLaws.StrippedMeaning` | src/bytecode_util.cc:223-237 | stripping keeps exactly the sections before the first precompiled one and the ones with another id than 0 behind it, in order |
| `StrippingLaws.StrippableMeaning` | src/bytecode_util.cc:206-221 | the walk gets to the end exactly if all bytes are in complete sections and all names of custom ones can be read |
| `StrippingLaws.AppendageMeaning` | src/bytecode_util.cc:206-239 | what is appended to output begun earlier, up to where the walk stops |
| `StrippingLaws.BegunMeaning` | src/bytecode_util.cc:206-239 | what is written to empty output, up to where the walk stops |
| `StrippingLaws.FileParts` | src/bytecode_util.cc:204-205 | a file is its header of at most eight bytes and its sections |
| `StrippingLaws.StrippedFileMeaning` | src/bytecode_util.cc:197-245 | the bytes of the output: the header and the kept sections one after the other |
| `StrippedSource.IdempotentExactlyIf` | src/bytecode_util.cc:219-231 | for every custom section: all strippable files in which only its name is not inside its section strip idempotently, exactly if the name does not run over the section without being precompiled already |
| `StrippedSource.IdempotentWithoutOverruns` | src/bytecode_util.cc:219-231 | stripping is idempotent on every strippable file without such a section |
| `StrippedSource.OverrunBreaksStripping` | src/bytecode_util.cc:219-231 | around every such section there is a file, with all other names inside, that strips once but not twice |
| `StrippedSource.IdempotentWithNamesInside` | src/bytecode_util.cc:219-231 | it is for every readable file whose custom sections have their names inside themselves |
| `StrippedSource.StrippingTwiceCanFail` | src/bytecode_util.cc:219-221 | a file that can be stripped once but not twice |
| `AbiVersions.GetAbiVersion` | src/bytecode_util.cc:31-97 | for every file, success and version are those of its first export section; without one, Unknown |
| `AbiVersions.ScanExports` | src/bytecode_util.cc:50-92 | the answer for one export section and what follows it, where an entry's kind and index may lie behind the section |
| `AbiVersions.WellFormedExports` | src/bytecode_util.cc:58-92 | for an export section with all its entries inside it: the version of the first announcing entry, whatever follows |
| `AbiVersions.FirstAnnouncedMeaning` | src/bytecode_util.cc:71-86 | that is the first function export with one of the three names, and Unknown exactly if there is none |
| `AbiVersions.VersionMeaning` | src/bytecode_util.cc:74-85 | which of the three names stands for which version |
| `AbiVersions.AnnouncesMeaning` | src/bytecode_util.cc:71-85 | an entry announces a version exactly if it exports a function under one of them |
| `AbiVersions.AbiMeaning` | src/bytecode_util.cc:41-96 | the first section with id 7 decides; without one the version is Unknown, and the call succeeds exactly if the file is readable to its end |
| `AbiVersions.ExportsDecided` | src/bytecode_util.cc:50-92 | for every export section: entries are passed over until all are, or until one announces a version or cannot be read |
| `AbiVersions.WrittenExportsAnnounce` | src/bytecode_util.cc:50-92 | an export section that is written with a list of entries announces the version of the first that announces one |
| `AbiVersions.WithoutDangling` | src/bytecode_util.cc:58-91 | if the entries do not dangle, what follows the section does not matter |
| `AbiVersions.WhenDangling` | src/bytecode_util.cc:67-90 | if they do, the walk fails at the end of the file and succeeds before a custom section |
| `AbiVersions.AbiSurvives` | src/bytecode_util.cc:31-97 | stripping keeps the version of a file whose first export section does not dangle |
| `AbiVersions.AbiLost` | src/bytecode_util.cc:67-90 | a dangling export section before a precompiled section loses its version |
| `AbiVersions.DanglingSection` | src/bytecode_util.cc:67-71 | there are such sections |
| `AbiVersions.SurvivesExactlyIf` | src/bytecode_util.cc:31-97 | so the condition is exact for every export section |
| `FunctionNames.GetFunctionNameIndex` | src/bytecode_util.cc:140-195 | success and the map it leaves, on every file and also after a failure |
| `FunctionNames.WalkSubsections` | src/bytecode_util.cc:146-192 | the same for the content of the name section, whose entries may run past their subsection as long as they then fill it |
| `FunctionNames.SubsectionsMerge` | src/bytecode_util.cc:149-191 | it succeeds exactly on a well-formed section, in which the entries fill their subsection, and inserts all names in order |
| `FunctionNames.FirstNameWins` | src/bytecode_util.cc:185 | a function has the name it had before, else that of its first entry, else none |
| `FunctionNames.WrittenPartsAreRead` | src/bytecode_util.cc:149-191 | a name section that is written with any subsections is read as all their function names |
| `FunctionNames.NameSectionIsIndexed` | src/bytecode_util.cc:140-195 | the first custom section called "name" is what is indexed |
| `FunctionNames.WithoutNameSection` | src/bytecode_util.cc:142-146 | without one the map stays, and the call succeeds exactly if the search does |
| `FunctionNames.FailureKeepsNames` | src/bytecode_util.cc:150-154 | a subsection that cannot be read fails the call, with the names before it in the map |
| `FunctionNames.FailureKeepsEntries` | src/bytecode_util.cc:166-175 | so does an entry that cannot be read |
| `Words.WireOrderIsUsed` | include/proxy-wasm/word.h:24-32 | what the host writes after htowasm, and what it reads before wasmtoh, is the word in the wire order of that host and VM |
| `Words.WasmOrderIsLittle` | include/proxy-wasm/word.h:24-32 | a VM with Wasm byte order finds the same bytes on every host, the lowest first |
| `Words.NumberOfWord` | include/proxy-wasm/word.h:24-32 | a number below 2^32 survives as a word in either byte order |
| `Words.WordOfNumber` | include/proxy-wasm/word.h:24-32 | every four bytes are the word of a number below 2^32 |
| `Words.WordBytes` | include/proxy-wasm/word.h:24-32 | the four bytes of a word by their values, in either order |
| `Words.OthersKeepTheNumber` | include/proxy-wasm/word.h:26-31 | numbers are converted only on a big-endian host for a VM with Wasm byte order |
| `Pairs.PairsSize` | src/pairs_util.cc:30-38 | the length of the encoding, in either byte order |
| `Pairs.MarshalPairs` | src/pairs_util.cc:40-102 | succeeds exactly if the buffer is there and has that size, and then holds the encoding; a failure leaves a part of the encoding in front of the old content |
| `Pairs.ToPairs` | src/pairs_util.cc:104-188 | the decoded list, or an empty one, on every view including a null one |
| `Pairs.DecodeMeaning` | src/pairs_util.cc:104-188 | decoding and encoding are inverse to each other, within the two limits, in both directions |
| `Pairs.RoundTrip` | src/pairs_util.cc:40-188 | a list within both limits comes back from its encoding, embedded NULs included, and any other one comes back empty |
| `Pairs.AcceptedIsCanonical` | src/pairs_util.cc:104-188 | a list that is not empty encodes to the bytes it was read from, and has their size |
| `Pairs.EncodeIsInjective` | src/pairs_util.cc:40-102 | within the limits no two lists have the same encoding |
| `Pairs.EncodedSize` | src/pairs_util.cc:30-38 | the sizes of the table and of the bodies |
| `Pairs.Layout` | src/pairs_util.cc:48-99 | where in the buffer the number of pairs, the lengths, the names, the values and the NULs are |
| `Pairs.LimitsMeaning` | include/proxy-wasm/limits.h:35-41 | the limits are 1024 pairs and an encoding of 1 MiB |
| `Pairs.OthersGiveNothing` | src/pairs_util.cc:105-185 | a null view, and whatever is not the encoding of a list within the limits, gives an empty list |
| `SharedQueue.NextTokenIsUnique` | src/shared_queue.cc:54-67 | the specification of the next token determines it |
| `SharedQueue.NextTokenExactlyIf` | src/shared_queue.cc:54-67 | there is a next token exactly if not all 2^32 - 1 are in use |
| `SharedQueue.SharedQueue.constructor` | src/shared_queue.h:45-61 | a new store is consistent |
| `SharedQueue.SharedQueue.NextQueueToken` | src/shared_queue.cc:54-67 | the first nonzero free token in ring order, within the number of queues plus two tries |
| `SharedQueue.SharedQueue.RegisterQueue` | src/shared_queue.cc:69-96 | the new state; a known key keeps its token and its items |
| `SharedQueue.SharedQueue.ResolveQueue` | src/shared_queue.cc:98-106 | the token of a live queue, and 0 exactly if there is none |
| `SharedQueue.SharedQueue.Enqueue` | src/shared_queue.cc:122-152 | the new state, the result, and whom to notify as read under the lock |
| `SharedQueue.SharedQueue.Dequeue` | src/shared_queue.cc:108-120 | the new state, and the first item or the reason why there is none |
| `SharedQueue.SharedQueue.DeleteByVmId` | src/shared_queue.cc:39-52 | the new state: the VM's keys and their queues are gone, nothing else |
| `SharedQueue.StepKeepsValid` | src/shared_queue.cc:39-138 | every step keeps keys and tokens one to one, 0 unused, and each VM's keys its own |
| `SharedQueue.RunStaysValid` | src/shared_queue.cc:39-138 | so does every run |
| `SharedQueue.DeleteIsExact` | src/shared_queue.cc:39-52 | what deletion removes and what it leaves, key by key |
| `SharedQueue.Fifo` | src/shared_queue.cc:69-138 | what a living queue held and got is what it gave and holds, in order, over any interleaving |
| `SharedQueue.FifoFromCreation` | src/shared_queue.cc:69-138 | from its creation on, what it got is what it gave and holds |
| `SharedQueue.TokenStaysWithKey` | src/shared_queue.cc:69-106 | while a queue lives its key resolves to the same token |
| `SharedQueue.NotifiesLatest` | src/shared_queue.cc:89-93 | a living queue notifies whoever registered it last |
| `SharedQueue.NotReissuedWithinARound` | src/shared_queue.cc:54-67 | a token that was issued, its queue deleted or not, is not issued again until the allocator has gone around the whole ring |
| `SharedQueue.RegisterMeaning` | src/shared_queue.cc:69-96 | what a registration changes, field by field, and that nothing else does |
| `SharedQueue.ResolveMeaning` | src/shared_queue.cc:98-106 | the key's token or 0 |
| `SharedQueue.EnqueueMeaning` | src/shared_queue.cc:122-152 | the item goes to the end, the registered context is named, and an unknown token changes nothing |
| `SharedQueue.DequeueMeaning` | src/shared_queue.cc:108-120 | the first item is taken, and an unknown token and an empty queue answer differently |
| `SharedQueue.LivingQueueAnswers` | src/shared_queue.cc:69-152 | from its first registration on: every enqueue succeeds and names the latest registration, every dequeue gives the next item sent, or Empty when all are received |
| `SharedData.SharedData.constructor` | src/shared_data.h:46-48 | the initial state |
| `SharedData.SharedData.NextCas` | src/shared_data.h:36-43 | issues the counter's value and advances it around 0 |
| `SharedData.SharedData.Get` | src/shared_data.cc:44-57 | the entry, or NotFound |
| `SharedData.SharedData.Keys` | src/shared_data.cc:59-73 | each key of the VM exactly once |
| `SharedData.SharedData.Set` | src/shared_data.cc:75-95 | the new state and the result |
| `SharedData.SharedData.Remove` | src/shared_data.cc:97-118 | the new state, the result and the removed entry |
| `SharedData.SharedData.DeleteByVmId` | src/shared_data.cc:39-42 | the VM's entries are gone, nothing else |
| `SharedData.IssuesInOrder` | src/shared_data.h:36-43 | the k-th number is 1 + k mod (2^32 - 1), never 0 |
| `SharedData.CounterIsIssue` | src/shared_data.h:36-43 | the counter after k numbers, counted from the first, is the k-th of that sequence |
| `SharedData.SameNumberExactlyIf` | src/shared_data.h:36-43 | two numbers are equal exactly if they were issued a multiple of 2^32 - 1 apart, so any 2^32 - 1 in a row are distinct |
| `SharedData.RunIsRecorded` | src/shared_data.cc:39-118 | in every reachable state the counter has the number due, and each entry holds what was stored in it last under the number issued for that |
| `SharedData.SetMeaning` | src/shared_data.cc:75-95 | which sets are refused and change nothing, and what the others store |
| `SharedData.RemoveMeaning` | src/shared_data.cc:97-118 | which removals are refused, and what the others give and leave |
| `SharedData.GetMeaning` | src/shared_data.cc:44-57 | the entry with its number, or NotFound |
| `SharedData.HistoryDecides` | src/shared_data.cc:39-118 | every answer in a run follows from the events before it: what was stored last and is still there, under which number |
| `SharedData.LiveNumbersDiffer` | src/shared_data.cc:75-95 | no two entries share a number unless 2^32 - 1 numbers lie between them |
| `SharedData.AcceptedExactlyIf` | src/shared_data.cc:85-93 | in every run, a set under a number read earlier answers Ok exactly if the entry is gone, or was last stored a multiple of 2^32 - 1 numbers after the value read; otherwise CasMismatch, and nothing changes |
| `SharedData.UntouchedExactlyIf` | src/shared_data.cc:85-93 | that distance is 0, with the entry there, exactly if nobody has stored or removed it in between |
| `SharedData.UpdateLostExactlyIf` | src/shared_data.cc:85-93 | so it answers Ok although the entry was touched exactly if the entry is gone, or was stored again and the numbers have come around |
| `SharedData.NoLostUpdates` | src/shared_data.cc:85-95 | as long as the entry is there and not more than 2^32 - 1 numbers have been issued since it was stored, it answers Ok exactly if nobody touched the entry, and then replaces what was read |
| `SharedData.NoLostUpdatesInShortRuns` | src/shared_data.cc:75-118 | the same for every run of fewer than 2^32 steps |
| `SharedData.UpdateLostAfterWraparound` | src/shared_data.h:36-43 | a run, with one number more, in which a set under a stale number answers Ok |
| `SharedData.RemovedEntryIsSetAgain` | src/shared_data.cc:91-93 | a nonzero number is ignored when the key is absent |
| `LocalCache.LocalWasms.CacheLocalWasm` | src/wasm.cc:58-61 | the entry and the queued key |
| `LocalCache.LocalWasms.RemoveStale` | src/wasm.cc:69-88 | one sweep, of at most 64 keys |
| `LocalCache.LocalWasms.GetThreadLocalWasm` | src/wasm.cc:570-581 | the live VM, or nothing after a sweep |
| `LocalCache.LocalWasms.GetOrCreateThreadLocalWasm` | src/wasm.cc:583-618 | the live VM, or the clone, cached with its callback, or the failure recorded in the base VM |
| `LocalCache.LocalWasms.AddFailCallback` | include/proxy-wasm/wasm_vm.h:320-322 | one more callback |
| `LocalCache.LocalWasms.Fail` | include/proxy-wasm/wasm_vm.h:313-319 | the failure is recorded, and a runtime error erases the entries of all callbacks |
| `LocalCache.StepsAreSafe` | src/wasm.cc:73-87 | a sweep erases only expired entries, and leaves every cached key in the queue |
| `LocalCache.SweepsCleanUp` | src/wasm.cc:69-88 | after as many sweeps as cover the queue, all entries expired at first are gone and all those alive at last remain |
| `LocalCache.RunStaysValid` | src/wasm.cc:58-88 | in every reachable state each cached key is queued, and its VM has the callback that erases it |
| `LocalCache.EntriesHaveNotFailed` | src/wasm.cc:608-616 | every entry is of a VM without a runtime error since it was cached |
| `LocalCache.LookupsFindSoundVms` | src/wasm.cc:570-594 | so is every VM that a lookup returns |
| `LocalCache.LiveEntriesRemoved` | src/wasm.cc:609-616 | which live entries a step removes: exactly those that a failing VM has callbacks for |
| `LocalCache.SecondFailureEvictsReplacement` | src/wasm.cc:609-616 | a broken VM that fails again evicts its replacement |
| `LocalCache.LookUpMeaning` | src/wasm.cc:570-581 | a live entry is found; otherwise the key's entry is gone and the first 64 queued keys, or fewer, are checked |
| `LocalCache.CreateMeaning` | src/wasm.cc:608-616 | the VM is cached, queued and given its callback, and nothing else changes |
| `LocalCache.FailMeaning` | include/proxy-wasm/wasm_vm.h:313-319 | a runtime error erases exactly the entries that the VM has callbacks for, another failure none |
| `LocalCache.CreatedInSteps` | src/wasm.cc:583-618 | the function is a lookup step and, if that finds nothing and the clone can be had, a creation step; otherwise the right failure and nothing more |
| `LocalCache.CreatedIsEvicted` | src/wasm.cc:608-616 | what it creates is in the cache, and a runtime error takes it out |
| `Shutdown.WasmBase.Start` | src/wasm.cc:420-433 | a new root unless the plugin has one, its onStart with the calls made in it, and the context returned: none if a new one refuses, which then stays a root |
| `Shutdown.WasmBase.Done` | src/wasm.cc:469-481 | the context moves on, an action is queued, and no onDelete is called |
| `Shutdown.WasmBase.DoAfterVmCallActions` | include/proxy-wasm/wasm.h:147-157 | carries out the queued actions until none is left |
| `Shutdown.WasmBase.FinishShutdown` | src/wasm.cc:483-489 | the new state, through all nested calls |
| `Shutdown.WasmBase.OnDelete` | src/context.cc:477-482 | the call, what the VM does in it, and the actions after it |
| `Shutdown.WasmBase.OnDone` | src/context.cc:462-468 | the same, with the answer |
| `Shutdown.WasmBase.CallVm` | src/context.cc:49-52 | a call into the VM with its done() calls and the actions after it |
| `Shutdown.WasmBase.StartShutdown` | src/wasm.cc:445-455 | the new state for one plugin |
| `Shutdown.WasmBase.StartShutdownAll` | src/wasm.cc:457-467 | the new state for all plugins, each shut down once |
| `Shutdown.DoneMeaning` | src/wasm.cc:469-481 | what done() changes, field by field |
| `Shutdown.ShutDownMeaning` | src/wasm.cc:445-455 | if onDone does not enter the VM or the VM answers true, onDelete follows and nothing waits; if it answers false, the context waits |
| `Shutdown.StartMeaning` | src/wasm.cc:421-428 | the plugin's root stays, or the new context is its root |
| `ShutdownRuns.RunConserves` | src/wasm.cc:445-489 | over every quiet run no context is gained, lost track of or duplicated, and those that had to wait were moved by done() as often as they were deleted |
| `ShutdownRuns.DeletedExactlyOnce` | src/wasm.cc:445-489 | in a quiet run a context that finishes at once is a root or has had onDelete exactly once; one that does not is a root, waits, was lost, or has had it exactly once after done() |
| `ShutdownRuns.SoundExactlyIfQuiet` | src/wasm.cc:445-489 | a run leaves no iterator dangling exactly if it is quiet, which a bookkeeping of roots and waiting contexts decides |
| `ShutdownRuns.LostExactlyIf` | src/wasm.cc:448-452 | when a context is destroyed without onDelete, from the state before: another one of its key is shut down, does not finish at once, and makes no done() call for it |
| `ShutdownRuns.LostAfterOnDone` | src/wasm.cc:448-452 | the same after any onDone, and never if none of the key waited |
| `Shutdown.FinishedOnceExactlyIf` | src/wasm.cc:483-489 | when finishShutdown makes each call once |
| `ShutdownRuns.VmCallOnceExactlyIf` | include/proxy-wasm/wasm.h:146-157 | when a call into the VM makes each call once, from the contexts that wait before it |
| `ShutdownRuns.ShutDownOnceExactlyIf` | src/wasm.cc:445-467 | the same for startShutdown |
| `ShutdownRuns.RunIsIdle` | src/wasm.cc:474-479 | between calls from outside no action is queued and no deletion is due |
| `Shutdown.UnquietFinish` | src/wasm.cc:483-489 | otherwise some context has onDelete called at least twice |
| `Shutdown.DoneTogetherDeletesTwice` | src/wasm.cc:474-488 | two done() calls in one call into the VM are enough |
| `Shutdown.RestartedPluginLosesContext` | src/wasm.cc:451 | a plugin restarted and shut down again before done() loses its older context |
| `CallContext.Thread.Call` | include/proxy-wasm/wasm_vm.h:362-375 | a call restores both variables, and leaves what its code means call by call, with no effective context at its start |
| `CallContext.Thread.Execute` | src/exports.cc:30-40 | the same for the rest of a call |
| `CallContext.Thread.SetEffectiveContext` | src/exports.cc:168-177 | sets it exactly if the VM of the context in effect has one with the truncated id |
| `CallContext.AttributedWithinVm` | src/exports.cc:30-40 | no host call is attributed to a context of another VM |
| `CallContext.CallIsLawful` | src/exports.cc:30-40 | in every call, at any depth, each host function is attributed to the context that its own call chose last, if that is registered at the moment, and otherwise to the caller; and a choice is granted exactly if the VM has a context with the truncated id |
| `CallContext.ChoiceHasEffect` | src/exports.cc:168-177 | so once a choice is granted, the host functions of that call go to the chosen context until it is gone or another is chosen |
| `CallContext.CallIsSeen` | include/proxy-wasm/wasm_vm.h:362-375 | every action of every call, at any depth, takes effect once, in order, on behalf of its own call |
| `CallContext.AttributedToItself` | include/proxy-wasm/wasm_vm.h:362-375 | the host functions of a call that chooses nothing go to its own context, whatever the calls around, before and inside it choose |
| `CallContext.InnerCallsAreInvisible` | include/proxy-wasm/wasm_vm.h:362-375 | inner calls that leave the contexts alone change nothing for the outer call |
| `Environ.SetMemory` | src/v8/v8.cc:479-490 | writes exactly the range, or nothing if it does not fit |
| `Environ.SetWord` | src/v8/v8.cc:507-519 | the same for a word |
| `Environ.EnvironGet` | src/exports.cc:780-803 | the memory it leaves, and success or fault |
| `Environ.EnvironSizesGet` | src/exports.cc:807-823 | the same for the sizes |
| `Environ.SucceedsExactlyIf` | src/exports.cc:784-797 | success exactly if both ranges fit, or there is nothing to write |
| `Environ.NothingElseWritten` | src/exports.cc:784-800 | writes only there, also when it fails |
| `Environ.StringsAreContiguous` | src/exports.cc:798 | each string begins where the one before ends, and the last ends with the reported size |
| `Environ.EachStringIsThere` | src/exports.cc:784-800 | pointer i has the address of string i, and the string with its NUL is there |
| `Environ.SizesReported` | src/exports.cc:807-822 | the words written are the count and the size |
| `Environ.EnvironmentArrives` | src/exports.cc:780-803 | with that much room in two separate ranges each variable is read back, and nothing else has changed |
| `Environ.TwoCallsDeliver` | src/exports.cc:780-823 | so a VM that makes the room it has read from the first call is delivered its environment by the second |
| `Environ.EntryMeaning` | src/exports.cc:789-794 | the string for a variable: name, "=", value, NUL |
| `Environ.FaultLeaves` | src/exports.cc:784-800 | a failed call has written the variables before the first that does not fit, and that one's pointer if the pointer fits |
| `Environ.SizesFault` | src/exports.cc:810-821 | when and with what written environ_sizes_get fails |
| `Environ.FitsMeaning` | src/v8/v8.cc:481-487 | what the host may write: not beyond 2^32 - 1 and not beyond the end of the memory |

## Left out

- The re-checks `pos + 1 > end` directly inside `while (pos < end)` in src/bytecode_util.cc, and the ones of the table in src/pairs_util.cc after its whole size has been checked, cannot fail and are not repeated in the model.
- C++ pointer overflow, integer widths of `size_t`, allocation failure and undefined behaviour; where an iterator would dangle the model records that and goes on as if the erase had done nothing.
- The engine bindings under src/v8, src/wamr, src/wasmedge, src/wasmtime and src/wavm: a VM is a byte array with the bounds checks of V8, and its code is a parameter.
- src/null and the null VM headers: dispatch by function name on native memory.
- Names are demangled by a function that is a parameter; the system's demangler is not modelled.
- Hashing, signatures and keys: VM and plugin keys are plain strings.
- The other host functions and callbacks of src/exports.cc and src/context.cc, which check their arguments and forward them.
- createWasm, canary runs and the table of base VMs; cloning and initialization of a VM are parameters of the lookup.
- The thread-local plugin cache: it uses the same sweep, and no claim about failed VMs is made for it.
- The order in which unordered containers are iterated is arbitrary: a parameter, a choice, or the order of a sequence; the queue and the data of the shared stores do not depend on it.
- The reference counting behind VM ids: deleteByVmId is a step that may happen at any time.
- What the function passed as call_on_thread does with a notification: it runs outside the lock, and may find the VM or the context gone.
- Destruction of a WasmBase while contexts still wait; calls of startShutdown from inside a VM call.
- LocalCache.LocalWasms.GetOrCreateThreadLocalWasm: other steps between its lookup and its caching are modelled in runs, where the two are separate events, not inside the method.
- Logging, clocks, random bytes, metrics and timers.
