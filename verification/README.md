# Verification of Proteus for Java

A Dafny model of how a Proteus call finds its handler, of the metrics taken on the way, and of the
comment text the code generator writes, with proofs about each.

- **The service map** (`JavaInt`, `Hashing`, `Sizing`, `ProbeTable`, `BiInt2ObjectMap`, `MapRuns`).
  An open-addressing hash table over two arrays: linear probing, deletion by backward shift,
  doubling, compaction. `ProbeTable` is the theory of the two arrays as sequences, `BiInt2ObjectMap`
  the class that overwrites them in place, and `MapRuns` compares whole runs with a finite map.
  `Working()` of the class says that the arrays hold exactly the abstract `contents`, that every
  stored key is reached from its home slot through occupied slots only, and that capacity is a
  power of two of at least eight; `Valid()` adds that a slot is free, and `Compactable()` that the
  size is at most one over the resize threshold.
- **The header** (`ProteusMetadata`): a big-endian codec written in place into a buffer.
- **Routing** (`RequestHandlingRSocket`, `GeneratedService`): registration histories, the lookup
  step of the request handlers, the generator's method classification and the generated dispatch.
- **Metrics** (`MetricsSubscriber`): calls of `onError`, `onComplete` and `cancel` as atomic steps
  in any interleaving, and the same methods in place for one thread.
- **Doc comments** (`Javadoc`, `Splitter`, `DocComment`): escape, split, print.

How the source is represented:

- Java `int` and `long` are bounded mathematical integers with explicit wrap-around; `&`, `|` and
  `^` are defined digit by digit on the unsigned representation. The generator's signed 32-bit
  multiplication is taken to wrap as well.
- A `float` load factor is a real. Multiplying it by a power of two is exact, so the threshold is
  the floor of a real product. The `double` quotient in `compact` is the exact quotient in the
  class; the lemmas `CompactedFits` and `CompactNeverEnlarges` hold for every quotient within 0.001
  of it, which covers the rounding of two `double` operations on any size an array can have.
- A null in the values array is `None`; stored values are never null. Keys of empty slots keep
  whatever they held.
- Exceptions are results: an illegal load factor, a negative array size in the constructor or in
  `compact` (raised after the threshold is changed), growth past the largest capacity (raised after
  the entry is stored), an index out of bounds in a buffer, and a cancellation without a
  subscription.
- A mapping function and a service's handler are pure functions; a consumer is the sequence of
  values it is handed. The clock is a parameter.
- Text is a sequence of characters, of which the generator's bytes are a subset. The printer
  concatenates, and puts the current indentation before each line.
- The probe loop that `put`, `get` and `remove` each spell out is one method, `Probe`; the
  four request handlers' common step is one method, `Handle`, over the four interactions.

Three places where the code does less than a reader might expect, each with its exact condition:

- After `compact` the size can exceed the resize threshold by one. `CompactOverThresholdIff` says
  when: the ideal capacity, `double` rounding included, is itself a power of two and was rounded
  down.
- A generated client sizes its header buffer with `computeLength()`, which leaves no room for
  metadata. `EncodeInAllocated` and `Call` say that the call goes through if and only if the
  metadata is empty. That `set` operations never extend a buffer is Netty's contract; Netty is not
  part of this model.
- A printed comment does not always tell what the comment was. A line that starts with a slash is
  printed like one that starts with a space and a slash (`SpaceBeforeSlashIsLost`).
  `ShownAsWrittenIff` says when lines are shown as written, and `PrintedAlikeIff` which comments
  are printed alike.

## Model

| member | source | states |
|---|---|---|
| Hashing.HashName | core/src/main/java/io/netifi/proteus/collections/Hashing.java:25-33 | the run-time loop computes FNV-1a (section 2 of draft-eastlake-fnv) over all characters |
| Hashing.HashWord | compiler/src/java_plugin/cpp/java_generator.cpp:36-45 | the generator's loop computes FNV-1a over the bytes before the first NUL, from any starting state |
| Hashing.StepIsFnv1a | core/src/main/java/io/netifi/proteus/collections/Hashing.java:28-31 | one round is exclusive-or with the character, then multiplication by 16777619 modulo 2^32 |
| Hashing.PublishedHashes | core/src/main/java/io/netifi/proteus/collections/Hashing.java:21-33 | the empty name and "a" have their published FNV-1a hashes |
| JavaInt.XorDigits | core/src/main/java/io/netifi/proteus/collections/Hashing.java:29 | `^` acts on each binary digit by itself, here and for `AndDigits` and `OrDigits` |
| JavaInt.WrapIsCongruent | core/src/main/java/io/netifi/proteus/collections/Hashing.java:30-45 | a narrowed result is the one int, or long, that is congruent to the mathematical one |
| Hashing.PrimeIsInvertible | core/src/main/java/io/netifi/proteus/collections/Hashing.java:21-30 | multiplying by the prime modulo 2^32 is undone by multiplying by its inverse |
| Hashing.StepInjectiveInState | core/src/main/java/io/netifi/proteus/collections/Hashing.java:28-31 | one round is a bijection of the 32-bit state |
| Hashing.StepInjectiveInChar | core/src/main/java/io/netifi/proteus/collections/Hashing.java:28-31 | one round separates every two characters |
| Hashing.FnvInjectiveInState | core/src/main/java/io/netifi/proteus/collections/Hashing.java:25-33 | hashing a fixed name from two states gives one result exactly when the states are equal |
| Hashing.OneCharacterDecidesTheId | core/src/main/java/io/netifi/proteus/collections/Hashing.java:25-33 | names of equal length that may differ in one position only have the same id exactly when they are the same name |
| Hashing.GeneratorAndRuntimeAgree | compiler/src/java_plugin/cpp/java_generator.cpp:40-45 | on NUL-free names of one-byte characters, ASCII among them, the two hashes are equal |
| Hashing.CompoundKeyRoundTrip | core/src/main/java/io/netifi/proteus/collections/Hashing.java:50-58 | both signed ints are recovered from a compound key, so packing is injective |
| Hashing.CompoundKeyOnto | core/src/main/java/io/netifi/proteus/collections/Hashing.java:50-58 | every long is the compound key of its two parts |
| Hashing.HashMasked | core/src/main/java/io/netifi/proteus/collections/Hashing.java:35-48 | the slot lies between zero and the mask, for every non-negative mask |
| Hashing.SlotIsRemainder | core/src/main/java/io/netifi/proteus/collections/Hashing.java:42-48 | for a power-of-two capacity the slot is the unsigned folded hash modulo the capacity |
| ProbeTable.HomeOfPair | core/src/main/java/io/netifi/proteus/collections/Hashing.java:42-58 | the home slot of a pair written out in its two ints: high and low half of 31 times the packed pair, exclusive-ored, modulo the capacity |
| Hashing.FoldSeparatesPartA | core/src/main/java/io/netifi/proteus/collections/Hashing.java:42-46 | before masking, keys that share their second part have the same folded hash exactly when they are equal |
| Hashing.DoublingKeepsOrShifts | core/src/main/java/io/netifi/proteus/collections/Hashing.java:42-48 | doubling the capacity leaves a key's home slot alone or moves it up by the old capacity |
| ProbeTable.NextIsSuccessor | core/src/main/java/io/netifi/proteus/collections/BiInt2ObjectMap.java:134 | increment-and-mask is the successor around the ring when the capacity is a power of two |
| Sizing.NextPowerOfTwoIsLeast | core/src/main/java/io/netifi/proteus/collections/BiInt2ObjectMap.java:65-67 | the least power of two at or above the argument for 8 to 2^30, and a negative number beyond |
| Sizing.ThresholdIs | core/src/main/java/io/netifi/proteus/collections/BiInt2ObjectMap.java:52 | the threshold is the whole part of capacity times load factor, a negative one towards zero |
| Sizing.LoadFactorsAreNearest | core/src/main/java/io/netifi/proteus/collections/BiInt2ObjectMap.java:30-62 | the two bounds and the default are the floats nearest to 0.1, 0.9 and 0.55 |
| Sizing.ThresholdBelowCapacity | core/src/main/java/io/netifi/proteus/collections/BiInt2ObjectMap.java:52 | for every legal load factor the threshold is below the capacity, so a table within it has a free slot |
| Sizing.DoublingRaisesThreshold | core/src/main/java/io/netifi/proteus/collections/BiInt2ObjectMap.java:144-146 | one doubling always makes room for at least one more entry under the threshold |
| Sizing.RoundIs | core/src/main/java/io/netifi/proteus/collections/BiInt2ObjectMap.java:107-110 | rounding is to the nearest integer, halves up |
| Sizing.IdealIsRound | core/src/main/java/io/netifi/proteus/collections/BiInt2ObjectMap.java:107-110 | the rounded quotient is the one integer i with (i - 1/2) loadFactor <= size < (i + 1/2) loadFactor |
| Sizing.CompactCapacityIs | core/src/main/java/io/netifi/proteus/collections/BiInt2ObjectMap.java:107-110 | compaction asks for the least power of two that is at least 8 and at least that integer narrowed to an int, or beyond 2^30 for the least int |
| Sizing.CompactedFits | core/src/main/java/io/netifi/proteus/collections/BiInt2ObjectMap.java:107-110 | after compaction a slot is free and the size is at most one over the threshold, rounding error included |
| Sizing.CompactNeverEnlarges | core/src/main/java/io/netifi/proteus/collections/BiInt2ObjectMap.java:107-110 | compaction does not enlarge a table that was within its threshold |
| Sizing.CompactStaysInRange | core/src/main/java/io/netifi/proteus/collections/BiInt2ObjectMap.java:107-110 | the capacity compaction asks for is one an array can have, even one entry over the threshold |
| Sizing.CompactOverThresholdIff | core/src/main/java/io/netifi/proteus/collections/BiInt2ObjectMap.java:107-110 | a compacted table is over its threshold exactly when the ideal capacity, rounding error included, is a power of two below the exact quotient |
| Sizing.CompactCapacityCases | core/src/main/java/io/netifi/proteus/collections/BiInt2ObjectMap.java:107-110 | the narrowed capacity is a power of two from 8 to 2^30 or the least int; for a table small enough it is the least power of two for the ideal capacity and has room |
| Sizing.NineEntriesExceed | core/src/main/java/io/netifi/proteus/collections/BiInt2ObjectMap.java:30 | with the default load factor nine entries compact to capacity sixteen with threshold eight |
| ProbeTable.EntryIsOnItsPath | core/src/main/java/io/netifi/proteus/collections/BiInt2ObjectMap.java:128-142 | a stored pair has a slot with its packed key and value, and no slot on the way there from its home is empty |
| ProbeTable.FreeSlot | core/src/main/java/io/netifi/proteus/collections/BiInt2ObjectMap.java:128-135 | fewer entries than slots leaves a null, by counting distinct keys |
| ProbeTable.ScanStep | core/src/main/java/io/netifi/proteus/collections/BiInt2ObjectMap.java:128-135 | each probe step gets strictly closer to a null, so a probe takes fewer steps than there are slots |
| ProbeTable.MissMeansAbsent | core/src/main/java/io/netifi/proteus/collections/BiInt2ObjectMap.java:165-173 | a probe that meets a null proves the key is nowhere in the table |
| ProbeTable.StoreTable | core/src/main/java/io/netifi/proteus/collections/BiInt2ObjectMap.java:137-142 | storing where the probe ended maps the key to the value, changes no other entry and keeps every key reachable |
| ProbeTable.ShouldMoveIffHoleOnPath | core/src/main/java/io/netifi/proteus/collections/BiInt2ObjectMap.java:300-301 | the three comparisons hold exactly when the hole lies cyclically between the key's home and its slot |
| ProbeTable.StartRemoval | core/src/main/java/io/netifi/proteus/collections/BiInt2ObjectMap.java:192-196 | nulling a found slot removes exactly that key and starts a chain with one hole |
| ProbeTable.ChainStay | core/src/main/java/io/netifi/proteus/collections/BiInt2ObjectMap.java:291-302 | an entry that fails the test may stay: the hole still interrupts only entries further on |
| ProbeTable.ChainMove | core/src/main/java/io/netifi/proteus/collections/BiInt2ObjectMap.java:302-306 | an entry that passes the test moves into the hole, and its old slot becomes the only hole |
| ProbeTable.MoveRepresents | core/src/main/java/io/netifi/proteus/collections/BiInt2ObjectMap.java:302-306 | a move loses and duplicates no entry |
| ProbeTable.ChainEnd | core/src/main/java/io/netifi/proteus/collections/BiInt2ObjectMap.java:292-295 | at the next null every stored key is reachable from its home again, wrap-around included |
| BiInt2ObjectMap.BiInt2ObjectMap.Create | core/src/main/java/io/netifi/proteus/collections/BiInt2ObjectMap.java:47-63 | succeeds with an empty map of that load factor and the least power-of-two capacity from 8, exactly for a load factor from 0.1 to 0.9 and a capacity up to 2^30, else the matching exception |
| BiInt2ObjectMap.BiInt2ObjectMap.Clear | core/src/main/java/io/netifi/proteus/collections/BiInt2ObjectMap.java:98-101 | empties the map, keeps capacity and threshold, and leaves a valid table though the keys are stale |
| BiInt2ObjectMap.BiInt2ObjectMap.Compact | core/src/main/java/io/netifi/proteus/collections/BiInt2ObjectMap.java:107-110 | keeps all entries; moves to the least power of two for the ideal capacity if that is at most 2^30; else moves to the capacity asked for, or fails with a negative array size and a negative threshold exactly when that is negative; never enlarges a table within its threshold |
| BiInt2ObjectMap.BiInt2ObjectMap.Probe | core/src/main/java/io/netifi/proteus/collections/BiInt2ObjectMap.java:165-171 | ends at the key's slot if and only if the key is stored, else at the null where it belongs |
| BiInt2ObjectMap.BiInt2ObjectMap.Put | core/src/main/java/io/netifi/proteus/collections/BiInt2ObjectMap.java:121-149 | maps the pair to the value and nothing else, returns the old value, doubles when over the threshold, fails exactly when over it at the largest capacity, keeps the size within the threshold or one over it if it was |
| BiInt2ObjectMap.BiInt2ObjectMap.Get | core/src/main/java/io/netifi/proteus/collections/BiInt2ObjectMap.java:159-174 | the stored value, or null exactly when the pair is absent |
| BiInt2ObjectMap.BiInt2ObjectMap.Remove | core/src/main/java/io/netifi/proteus/collections/BiInt2ObjectMap.java:184-204 | removes exactly the given pair, returns its value, and every remaining key stays reachable |
| BiInt2ObjectMap.BiInt2ObjectMap.ComputeIfAbsent | core/src/main/java/io/netifi/proteus/collections/BiInt2ObjectMap.java:216-227 | returns and keeps a stored value, else stores the computed one unless it is null; fails as put does |
| BiInt2ObjectMap.BiInt2ObjectMap.ForEach | core/src/main/java/io/netifi/proteus/collections/BiInt2ObjectMap.java:235-241 | hands over the value of each mapped pair exactly once |
| BiInt2ObjectMap.BiInt2ObjectMap.Rehash | core/src/main/java/io/netifi/proteus/collections/BiInt2ObjectMap.java:261-285 | keeps exactly the entries and re-establishes reachability under any new mask with as many slots as entries; a negative capacity fails after the threshold is changed |
| BiInt2ObjectMap.BiInt2ObjectMap.IncreaseCapacity | core/src/main/java/io/netifi/proteus/collections/BiInt2ObjectMap.java:311-318 | doubles capacity and threshold keeping every entry; refuses, changing no size, exactly when the doubled capacity overflows |
| BiInt2ObjectMap.BiInt2ObjectMap.PlaceEntry | core/src/main/java/io/netifi/proteus/collections/BiInt2ObjectMap.java:272-279 | the inner loop of rehash finds a null and adds exactly one entry |
| BiInt2ObjectMap.BiInt2ObjectMap.CompactChain | core/src/main/java/io/netifi/proteus/collections/BiInt2ObjectMap.java:288-309 | closes the hole in place: same entries, all reachable |
| MapRuns.Perform | core/src/main/java/io/netifi/proteus/collections/BiInt2ObjectMap.java:98-227 | each operation has the effect and the answer of the same operation on a finite map |
| MapRuns.Run | core/src/main/java/io/netifi/proteus/collections/BiInt2ObjectMap.java:98-227 | every run answers as a finite map does and leaves a table with that map's entries, a free slot and a size at most one over the threshold, not over it at all without compact; it stops early only above the threshold of the largest capacity |
| ProteusMetadata.HeaderRoundTrip | core/src/main/java/io/netifi/proteus/frames/ProteusMetadata.java:43-72 | version 1, all three ids, negative ones included, and the metadata are read back whatever bytes follow |
| ProteusMetadata.HeaderLayout | core/src/main/java/io/netifi/proteus/frames/ProteusMetadata.java:16-36 | bytes 0 and 1 hold the version, each following field has its most significant byte first, at 2, 6, 10 and 14, and the metadata follows |
| ProteusMetadata.FieldsRead | core/src/main/java/io/netifi/proteus/frames/ProteusMetadata.java:47-72 | what the id and metadata accessors read from any buffer, byte by byte, and exactly when they run past its end |
| ProteusMetadata.VersionRead | core/src/main/java/io/netifi/proteus/frames/ProteusMetadata.java:43-45 | the version is the first two bytes without the sign bit |
| ProteusMetadata.HeaderOnto | core/src/main/java/io/netifi/proteus/frames/ProteusMetadata.java:43-72 | a readable version-1 buffer starts with the header of the fields read from it |
| ProteusMetadata.ByteBuf.Set | core/src/main/java/io/netifi/proteus/frames/ProteusMetadata.java:19-35 | overwrites exactly the given range, or nothing when it does not fit |
| ProteusMetadata.Encode | core/src/main/java/io/netifi/proteus/frames/ProteusMetadata.java:16-41 | writes the whole fields that fit and no byte beyond; returns the header's length exactly when all of it fits and ends at or after the reader index; the metadata buffer is drained once written; buffers may share storage |
| ProteusMetadata.SetFields | core/src/main/java/io/netifi/proteus/frames/ProteusMetadata.java:17-33 | the five fixed fields land at the front in order, as far as they fit |
| ProteusMetadata.EncodeInAllocated | compiler/src/java_plugin/cpp/java_generator.cpp:638-640 | a buffer of computeLength() bytes is large enough if and only if there is no metadata |
| RequestHandlingRSocket.InForceIsLast | core/src/main/java/io/netifi/proteus/rs/RequestHandlingRSocket.java:22-37 | looking a pair up after any history of registrations gives the service registered last under it |
| RequestHandlingRSocket.FoundIff | core/src/main/java/io/netifi/proteus/rs/RequestHandlingRSocket.java:35-37 | not found if and only if no service was ever registered under the pair |
| RequestHandlingRSocket.FoundIsLast | core/src/main/java/io/netifi/proteus/rs/RequestHandlingRSocket.java:29-37 | the service found was registered under exactly that pair and not replaced since |
| RequestHandlingRSocket.ShortHeaderIsRefused | core/src/main/java/io/netifi/proteus/rs/RequestHandlingRSocket.java:40-114 | a payload is refused for its header exactly when that has fewer than ten bytes; a channel raises the error |
| RequestHandlingRSocket.RouteByBytes | core/src/main/java/io/netifi/proteus/rs/RequestHandlingRSocket.java:40-114 | the numbers in bytes 2 to 5 and 6 to 9 pick the last registration under them, or are named in the not-found answer exactly when there is none |
| RequestHandlingRSocket.RequestHandlingRSocket.Create | core/src/main/java/io/netifi/proteus/rs/RequestHandlingRSocket.java:19-27 | registers any number of services in order; it fails only with more than the largest map's threshold |
| RequestHandlingRSocket.RequestHandlingRSocket.AddService | core/src/main/java/io/netifi/proteus/rs/RequestHandlingRSocket.java:29-33 | extends the history by one registration, also when the largest map refuses to grow |
| RequestHandlingRSocket.RequestHandlingRSocket.GetService | core/src/main/java/io/netifi/proteus/rs/RequestHandlingRSocket.java:35-37 | the hash map lookup is the last registration under the pair |
| RequestHandlingRSocket.RequestHandlingRSocket.Handle | core/src/main/java/io/netifi/proteus/rs/RequestHandlingRSocket.java:40-114 | a payload goes to the last service registered under its header's ids, in the same interaction, or fails with service-not-found or a malformed header |
| GeneratedService.ServerLists | compiler/src/java_plugin/cpp/java_generator.cpp:898-920 | each server list holds exactly the methods the client sends in that interaction, in order |
| GeneratedService.InteractionFits | compiler/src/java_plugin/cpp/java_generator.cpp:565-698 | an interaction with many requests, many replies or no reply is used exactly for the methods declared so |
| GeneratedService.ListsPartition | compiler/src/java_plugin/cpp/java_generator.cpp:898-920 | drawing from the four lists in the methods' order of interactions gives back the methods: nothing lost, duplicated or reordered |
| GeneratedService.SentAsMembers | compiler/src/java_plugin/cpp/java_generator.cpp:565-698 | a method is in the list of an interaction exactly when the client sends it that way |
| GeneratedService.SwitchSelects | compiler/src/java_plugin/cpp/java_generator.cpp:940-968 | the switch selects a method with the given id, and falls to the default exactly when there is none |
| GeneratedService.DispatchRefuses | compiler/src/java_plugin/cpp/java_generator.cpp:922-1171 | a server answers not-implemented exactly without a method in the interaction, and fails exactly when it has one but the header is too short |
| GeneratedService.DispatchByBytes | compiler/src/java_plugin/cpp/java_generator.cpp:940-968 | otherwise the number in bytes 10 to 13 picks the method, and a call is unsupported exactly when no method has it |
| GeneratedService.ServerIsFound | compiler/src/java_plugin/cpp/java_generator.cpp:875-895 | a registered server is looked up under the ids that clients of its service send, unless replaced under them |
| GeneratedService.CallReachesItsMethod | compiler/src/java_plugin/cpp/java_generator.cpp:565-698 | a call encoded by a client reaches exactly the called method, once the server of its service is registered and not replaced |
| GeneratedService.CallReachesOnlyItsId | compiler/src/java_plugin/cpp/java_generator.cpp:922-1171 | whichever server holds the ids, a call invokes a method exactly when one has its id and interaction, and never another |
| GeneratedService.Call | compiler/src/java_plugin/cpp/java_generator.cpp:592-698 | from client to handler, once the server is registered and not replaced, the call reaches its method if and only if it carries no metadata |
| GeneratedService.ServeAndCall | compiler/src/java_plugin/cpp/java_generator.cpp:592-698 | register a server, any others under other ids, then call without metadata: the method is reached unless the largest map refuses to grow |
| MetricsSubscriber.StepConsistent | core/src/main/java/io/netifi/proteus/metrics/ProteusMetricsSubscriber.java:44-74 | every atomic step, onSubscribe's two included, keeps the invariant that ties flags, counters and timer to the calls' progress |
| MetricsSubscriber.Accounting | core/src/main/java/io/netifi/proteus/metrics/ProteusMetrics.java:18-37 | in every interleaving, calls before onSubscribe included, set flags = counter total + claimed calls, and counter total = timer samples + counted calls; all equal when settled |
| MetricsSubscriber.OncePerSubscriber | core/src/main/java/io/netifi/proteus/metrics/ProteusMetricsSubscriber.java:44-74 | a subscriber contributes at most one increment and one sample, and exactly one of each once settled if any call got past the flag |
| MetricsSubscriber.WinnersAreFinal | core/src/main/java/io/netifi/proteus/metrics/ProteusMetricsSubscriber.java:46-71 | whatever steps follow, the outcome of a compare-and-set stays, each counter counts the winners of its own signal, none decreases, and no sample or signal is lost |
| MetricsSubscriber.StartedSamplesAreSane | core/src/main/java/io/netifi/proteus/metrics/ProteusMetricsSubscriber.java:33-48 | once the start time is set, no negative duration is recorded |
| MetricsSubscriber.SampleDurations | core/src/main/java/io/netifi/proteus/metrics/ProteusMetricsSubscriber.java:33-71 | in every interleaving, a sample is the time that passed since the clock was first read for its subscriber, or the clock itself if it never was; no other step adds a sample |
| MetricsSubscriber.AloneCall | core/src/main/java/io/netifi/proteus/metrics/ProteusMetricsSubscriber.java:44-74 | a call that runs through without interference has the effect of the in-place method, before the subscription as after it |
| MetricsSubscriber.ProteusMetricsSubscriber.OnSubscribe | core/src/main/java/io/netifi/proteus/metrics/ProteusMetricsSubscriber.java:30-37 | only the first subscription is accepted, and starts the clock |
| MetricsSubscriber.ProteusMetricsSubscriber.OnError | core/src/main/java/io/netifi/proteus/metrics/ProteusMetricsSubscriber.java:45-51 | counts and times an error if nothing was counted before, and passes it on in any case |
| MetricsSubscriber.ProteusMetricsSubscriber.OnComplete | core/src/main/java/io/netifi/proteus/metrics/ProteusMetricsSubscriber.java:54-60 | counts and times a completion if nothing was counted before, and passes it on in any case |
| MetricsSubscriber.ProteusMetricsSubscriber.Cancel | core/src/main/java/io/netifi/proteus/metrics/ProteusMetricsSubscriber.java:68-74 | counts and times a cancellation if nothing was counted before; before any subscription it then fails |
| Javadoc.EscapeJavadoc | compiler/src/java_plugin/cpp/java_generator.cpp:158-214 | the loop computes the context-sensitive escape, the text standing after an asterisk |
| Javadoc.DecodeEscape | compiler/src/java_plugin/cpp/java_generator.cpp:158-214 | decoding the seven entities from left to right gives back every text |
| Javadoc.EscapeInjective | compiler/src/java_plugin/cpp/java_generator.cpp:158-214 | two texts have the same escape exactly when they are equal |
| Javadoc.NumericEntity | compiler/src/java_plugin/cpp/java_generator.cpp:166-204 | a numeric entity stands for the character whose code it spells |
| Javadoc.EscapeHasNoMarks | compiler/src/java_plugin/cpp/java_generator.cpp:166-182 | escaped text holds no comment start or end, and makes none with the character before it |
| Javadoc.EscapeIsInert | compiler/src/java_plugin/cpp/java_generator.cpp:183-204 | no at-sign, angle bracket or backslash survives, and every ampersand starts an entity |
| Javadoc.EscapeUnchangedIff | compiler/src/java_plugin/cpp/java_generator.cpp:158-214 | text is left alone exactly when nothing in it needs escaping |
| Splitter.SplitAtChar | compiler/src/java_plugin/cpp/java_generator.cpp:116-130 | the single-character path yields the non-empty pieces of the text |
| Splitter.SplitAtAny | compiler/src/java_plugin/cpp/java_generator.cpp:132-142 | the delimiter-set path yields the non-empty pieces of the text |
| Splitter.Split | compiler/src/java_plugin/cpp/java_generator.cpp:111-156 | both paths give the same tokens for every input |
| Splitter.JoinPieces | compiler/src/java_plugin/cpp/java_generator.cpp:111-143 | for a single delimiter, the pieces joined by it are the text |
| Splitter.PiecesAndCuts | compiler/src/java_plugin/cpp/java_generator.cpp:111-143 | for every delimiter set, pieces and the delimiters cut at, put back alternately, are the text, and no piece holds a delimiter |
| Splitter.TokensAreMaximalRuns | compiler/src/java_plugin/cpp/java_generator.cpp:111-143 | the tokens are, in order, exactly the runs without delimiters that cannot be extended, and cover every other character |
| Splitter.TokensAreTheText | compiler/src/java_plugin/cpp/java_generator.cpp:111-143 | tokens are non-empty, free of delimiters, and together are the text without its delimiters |
| DocComment.GetDocLines | compiler/src/java_plugin/cpp/java_generator.cpp:226-243 | the lines are the tokens of the escaped text; the loop over trailing empty lines removes nothing |
| DocComment.WriteDocCommentBody | compiler/src/java_plugin/cpp/java_generator.cpp:250-273 | prints the lines behind asterisks, with a space before a leading slash, and the optional tags |
| DocComment.WriteMethodDocComment | compiler/src/java_plugin/cpp/java_generator.cpp:282-300 | prints header, body and footer, and shows the lines of the leading comments, else of the trailing ones, else none |
| DocComment.WriteDocComment | compiler/src/java_plugin/cpp/java_generator.cpp:275-280 | prints header, body without tags, and footer |
| DocComment.CommentSafety | compiler/src/java_plugin/cpp/java_generator.cpp:158-300 | for any comment text the printed comment opens exactly once, at its start, and closes exactly once, at its end |
| DocComment.NoTagsOrEscapes | compiler/src/java_plugin/cpp/java_generator.cpp:183-204 | no at-sign and no backslash reaches the printed comment |
| DocComment.EscapePieces | compiler/src/java_plugin/cpp/java_generator.cpp:226-233 | the lines of the escaped comment are the escapes of the lines |
| DocComment.CommentIsShown | compiler/src/java_plugin/cpp/java_generator.cpp:250-300 | between the frame, printed line i is the indentation, an asterisk and HTML that decodes to line i of the comment, with a space before a leading slash |
| DocComment.PrintedAlikeIff | compiler/src/java_plugin/cpp/java_generator.cpp:250-300 | two comments are printed alike exactly when the same lines are shown |
| DocComment.ShownAsWrittenIff | compiler/src/java_plugin/cpp/java_generator.cpp:258-267 | the lines are shown as written exactly when no line starts with a slash, except at the very start of the comment |
| DocComment.SpaceBeforeSlashIsLost | compiler/src/java_plugin/cpp/java_generator.cpp:258-267 | two comments that differ by a space before a slash are printed alike |
| DocComment.DocLinesKeepTheText | compiler/src/java_plugin/cpp/java_generator.cpp:226-243 | decoded line by line, the lines are the non-empty lines of the comment in order |

## Left out

- BiInt2ObjectMap.BiInt2ObjectMap.Probe: requires a free slot, and so do `Put`, `Get`, `Remove` and `ComputeIfAbsent`; on a full table, which needs refused growth or a compaction of a far overfull one, the Java probe for an absent key never ends.
- BiInt2ObjectMap.BiInt2ObjectMap.Compact: requires that the narrowed capacity is negative or no smaller than the size, which is when the Java loop ends; the quotient is the exact one.
- GeneratedService.Call: the ids in one server list differ, since Java rejects a switch with equal case labels.
- A NaN load factor, null values, and mapping functions or consumers that change the map.
- `Operators.validate` beyond accepting one subscription; a null subscription.
- What a timer does with a negative duration, which a cancellation before `onSubscribe` can record.
- Memory effects weaker than interleaving of atomic steps.
- Generated text other than doc comments and the dispatch decisions: indentation, qualified names, return types, serializers.
- The printer of protobuf, message parsing, and everything in Reactor, RSocket, Netty and Micrometer.
- Which error a server reports after `SwitchTransform` has received the first payload of a channel.
- Name helpers (`MixedLower`, `ToAllUpperCase`, class and package names): no modelled property turns on them.
