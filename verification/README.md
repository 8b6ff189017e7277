# Verification of the key-value store

The store keeps a map in memory and, at each flush, writes it as a JSON file with an Adler-32 hash
file beside it. Snapshot 0 is the newest; older snapshots move up one slot per flush until they fall
out of the window. This project models the Rust and the C++ implementation and proves what their
snapshot files hold after any run, after any interrupted flush, and after any number of flushes on
damaged directories; what threads that share a store see; what survives the JSON encoding; and that
the checksum and the deep copies do what they are for.

## Layout

- `Values`, `Storage`: values, error codes, and a disk whose atomic changes (rename, write) go through
  up to a budget. A caller that stops at the first failing change leaves the same files as one that
  lost power before it, so one contract covers both.
- `Adler32`: the definition of RFC 1950 (section 2.2), the blocked computation in 32-bit words, damage
  detection, and the four bytes on disk.
- `Binary64`, `JsonCodec`, `CppCodec`: integers through IEEE 754 binary64, the tagged JSON encodings of
  both implementations, and each reading the other's files.
- `Timeline`: the rotating window on its own. `WindowOnTheLine` gives its content after any number of
  rotations in closed form; history, healing and settling are consequences.
- `Rotation`, `RustBackend`, `History`, `RustKvs`: the Rust backend and store on a disk, refined to a
  map and a row of flushed maps. `RustKvs.Kvs.ExecuteAll` is the refinement for whole runs, and
  `RustKvs.RunFromEmpty` composes it with the history of an empty directory.
- `CrashStates`, `SelfHealing`, `Reopening`: interrupted flushes, repeated flushes, the next process.
- `Recovery`: an interrupted flush followed by flushes that succeed.
- `FaultyRuns`: whole runs with any number of failures, crashes and restarts.
- `Linearisation`: threads over one Rust store, interleaved at lock, change, file change and unlock.
- `InstancePool`: the lookup / load / insert protocol of the instance builder under interleaving.
- `CppStore`, `ValueTree`: the C++ store and its value trees on the heap.
- `CppHealing`: C++ flushes on any disk, and what becomes of a snapshot that a crash has split.
- `CppThreads`: threads over one C++ store, interleaved at every lock, rename and write.
- `TextForm`: a text form that meets the assumptions about the JSON library.

## Assumptions

- The JSON library is the parameter `TextCodec`. `RoundTrips` says that printed text is valid UTF-8 and
  parses back to the printed tree; `PrintsFinite` says that printing fails exactly on trees with an
  infinity or a NaN. Two prints of one map may differ (hash map iteration order).
  `TextForm.AssumptionsCanBeMet` gives a library that meets both.
- The Rust checksum crate is not part of this model; it is taken to compute the RFC 1950 definition.
- A finite JSON number is its value, one of the numbers with a finite binary expansion; every binary64
  number and every integer is one. Typed access in C++ succeeds exactly on in-range integers.
- An I/O failure other than a missing file is `UnmappedError` in Rust and `PhysicalStorageFailure` in C++.
- A directory holds the files of one instance; file names keep instances apart.

## Findings

- The documentation of the Rust `snapshot_restore` (`src/rust/rust_kvs/src/kvs.rs:319`) names
  `KvsFileReadError` for a missing file; the code returns `FileNotFound`, and the model follows the code.
- Restoring at `id == snapshot_count` passes the range check and fails with `FileNotFound`
  (`RepliesFromHistory`); the C++ store keeps one snapshot more than it counts and can restore it
  (`CppHistory`).
- After a flush cut between the first rename of slot 0 and the write of its hash file, a Rust build with
  an optional load opens an empty map without an error, although the old snapshot is still on disk
  (`OptionalLoadAfterChanges`). The store can flush again if and only if the flush had made an even number
  of file changes (`AfterAnyCrash`); otherwise no later flush ever succeeds (`StuckForGood`). Where it can,
  a cut rotation leaves a hole that moves up with every flush: until it is out, the snapshots above it are
  neither counted nor restorable (`AfterCutAndFlushes`).
- The C++ store heals any disk (`CppStabilises`). A snapshot that a crash has split over two slots stays
  unreadable while it moves up, and is whole again in the last slot (`TornSnapshotHeals`).
- With a single slot, a cut between the two writes makes the only snapshot unreadable (`SingleSlotCut`).
- Two builds of one instance that overlap between lookup and insertion and both insert end with two data
  objects (`OverlapCanSplit`). Handles are shared if and only if this does not happen, which is if and
  only if every insertion finds its slot empty (`SharedIffNoRace`); the source does not look.
- Two C++ flushes are both kept if and only if neither moves the files of slot 0 up between the other's
  rotation and its hash write; otherwise slot 1 cannot be opened (`TwoFlushesKeptIffApart`), the first map
  may be gone (`OverlappingFlushesLoseOne`), and the current snapshot may be unreadable
  (`OverlappingFlushesMixPair`). The Rust store holds its lock throughout, and its flushes are atomic
  (`FlushesAreAtomic`).
- A C++ store whose file name prefix names no directory rotates before it finds out that it cannot write:
  every flush fails, and after as many flushes as there are snapshots only the newest old one is left, in
  the last slot (`FlushWithoutDirectory`).
- After a C++ flush cut between its two writes the current snapshot cannot be opened in either mode
  (`CutBetweenWrites`), whereas the Rust store opens an empty map there under the optional mode.
- The C++ store rejects every file the Rust store writes (`CppRejectsRustFiles`), and the Rust store
  loses the keys "t" and "v" of a file the C++ store writes (`RustReadsCppFiles`).

## Model

| member | source | states |
|---|---|---|
| Adler32.CalculateHashAdler32 | src/cpp/src/internal/kvs_helper.cpp:21-43 | the blocked 32-bit computation returns the RFC 1950 checksum of every byte string, and no addition wraps |
| Adler32.ClosedForm | src/cpp/src/internal/kvs_helper.cpp:21-43 | the checksum is two sums over the whole string, each byte counted once in the one and once per byte to the end in the other |
| Adler32.ReduceLate | src/cpp/src/internal/kvs_helper.cpp:34-40 | reducing once at the end of a block gives the same residues as reducing after every byte |
| Adler32.ShortBlockFits | src/cpp/src/internal/kvs_helper.cpp:32-38 | within a block of at most 5552 bytes both sums stay below 2^32 at every point of the loop |
| Adler32.BlockLengthIsTight | src/cpp/src/internal/kvs_helper.cpp:23-33 | a block length is safe for all blocks and all reduced starts if and only if it is at most 5552 |
| Adler32.PackingBits | src/cpp/src/internal/kvs_helper.cpp:42 | the shift-and-or of two 16-bit sums is the number the model returns |
| Adler32.ByteChangeDetected | src/cpp/src/internal/kvs_helper.cpp:21-43 | changing one byte of a string of any length changes the checksum |
| Adler32.SwapDetected | src/cpp/src/internal/kvs_helper.cpp:21-43 | exchanging two unequal bytes keeps the checksum if and only if their distance is a multiple of 65521 |
| Adler32.DamageIsRefused | src/cpp/src/internal/kvs_helper.cpp:78-93 | with the hash file of the original, neither reader accepts a text damaged in either way |
| Adler32.HashBytesRoundTrip | src/cpp/src/internal/kvs_helper.cpp:46-63 | parsing the four written bytes gives back every 32-bit checksum |
| Adler32.SplitOfParse | src/cpp/src/internal/kvs_helper.cpp:46-63 | splitting a parsed stream gives back its first four bytes, zero-padded |
| Adler32.WrittenBigEndian | src/cpp/src/internal/kvs_helper.cpp:55-63 | the four written bytes show the checksum, most significant byte first |
| Adler32.ReadBigEndian | src/cpp/src/internal/kvs_helper.cpp:46-53 | a stream is read as the number its first four bytes show, most significant first, zeros behind its end |
| Adler32.CheckHash | src/cpp/src/internal/kvs_helper.cpp:78-93 | the check succeeds if and only if the number that the zero-padded first four bytes show, most significant first, is the checksum of the text |
| Adler32.AcceptedHashFiles | src/rust/rust_kvs/src/json_backend.rs:298-309 | Rust accepts exactly the four written bytes; that is when C++ accepts and the length is 4 |
| Adler32.AcceptedNumbers | src/rust/rust_kvs/src/json_backend.rs:298-309 | the same in numbers: both readers compare the checksum with the big-endian number, Rust only over exactly four bytes |
| Binary64.RoundIsRepresentable | src/rust/rust_kvs/src/json_backend.rs:73-88 | the conversion to f64 gives an integer with at most 53 significant bits |
| Binary64.RoundIsNearest | src/rust/rust_kvs/src/json_backend.rs:73-88 | no binary64 integer is nearer to the converted integer, and ties go to the even neighbour |
| Binary64.SignedRoundIsNearest | src/rust/rust_kvs/src/json_backend.rs:73-88 | the same for all integers, the negative ones included |
| Binary64.ToIntSaturates | src/rust/rust_kvs/src/json_backend.rs:43-46 | a number is read as an integer cut off towards zero, saturating at the ends of the type, infinities included, and NaN as zero |
| Binary64.ThroughMonotoneAndStable | src/rust/rust_kvs/src/json_backend.rs:43-46 | out and back keeps order, and a second trip changes nothing, saturation included |
| Binary64.IntegerTypesThrough | src/rust/rust_kvs/src/json_backend.rs:43-46 | out and back is exact for i32, u32 and up to 2^53, within 512 for i64 and within 1024 for u64 |
| Binary64.BoundsAreReached | src/rust/rust_kvs/src/json_backend.rs:45-46 | integers at which the bounds 512, 1024 and 2^53 are met |
| JsonCodec.TagsAreDistinct | src/rust/rust_kvs/src/json_backend.rs:41-57 | the tag written for a type is read as that type |
| JsonCodec.WrittenForm | src/rust/rust_kvs/src/json_backend.rs:70-121 | the object written for each kind of value, member by member |
| JsonCodec.ReadByTag | src/rust/rust_kvs/src/json_backend.rs:38-57 | what each tag gives over a payload of its kind |
| JsonCodec.ReadOtherwise | src/rust/rust_kvs/src/json_backend.rs:52-66 | Null for a tree that is no object, for an unknown tag and for a payload of another kind; an object that is not read by a tag is a map without "t" and "v" |
| JsonCodec.RoundTrip | src/rust/rust_kvs/src/json_backend.rs:35-122 | decoding the encoding of any nested value gives that value with its 64-bit integers rounded, keys "t" and "v" included |
| JsonCodec.RoundedTwice | src/rust/rust_kvs/src/json_backend.rs:35-122 | a second round trip changes nothing |
| JsonCodec.RoundTripIsExact | src/rust/rust_kvs/src/json_backend.rs:35-122 | the value comes back unchanged if and only if each 64-bit integer has at most 53 significant bits or is its type's maximum; so for all integers within plus or minus 2^53 |
| JsonCodec.FiniteEncoding | src/rust/rust_kvs/src/json_backend.rs:338-340 | the encoded tree holds only finite numbers if and only if the value does, which decides whether save can print it |
| JsonCodec.FlatLosesTagKeys | src/rust/rust_kvs/src/json_backend.rs:38-60 | a flat file decodes to its map without the keys "t" and "v" |
| JsonCodec.FlatAndWrappedAgree | src/rust/rust_kvs/src/json_backend.rs:328-334 | flat and wrapped files decode alike if and only if the map has neither key |
| TextForm.AssumptionsCanBeMet | src/rust/rust_kvs/src/json_backend.rs:200-206 | some library prints exactly the finite trees and reads back every tree it printed, so both assumptions about the library can hold together |
| CppCodec.KvsValueToAny | src/cpp/src/internal/kvs_helper.cpp:280-391 | the converter never fails and returns the specified tree |
| CppCodec.CppWrittenForm | src/cpp/src/internal/kvs_helper.cpp:280-391 | the object written for each kind of value, member by member, integers exact |
| CppCodec.EncodingCarries | src/cpp/src/internal/kvs_helper.cpp:280-391 | that tree is tagged as the value at every level, with exact integers |
| CppCodec.AnyToKvsValue | src/cpp/src/internal/kvs_helper.cpp:98-277 | the converter returns the specified value, and InvalidValueType where there is none |
| CppCodec.LeafToKvsValue | src/cpp/src/internal/kvs_helper.cpp:113-200 | the eight branches for types without children agree with the specification |
| CppCodec.DecodesWhatIsCarried | src/cpp/src/internal/kvs_helper.cpp:98-277 | decoding succeeds with a value if and only if the tree is tagged as that value at every level |
| CppCodec.CppRoundTrip | src/cpp/src/internal/kvs_helper.cpp:98-391 | decoding what the encoder produced gives back every value exactly |
| CppCodec.ReadersAgree | src/rust/rust_kvs/src/json_backend.rs:35-66 | on every tree C++ accepts, Rust reads the same value up to rounding, and the same value for integers within plus or minus 2^53 |
| CppCodec.CppFileRoundTrip | src/cpp/src/kvs.cpp:89-135 | the C++ reader gets back every map that the C++ flush turned into a root object |
| CppCodec.CppRejectsRustFiles | src/cpp/src/kvs.cpp:103-121 | a file in the wrapped form is rejected with InvalidValueType |
| CppCodec.RootCarries | src/cpp/src/kvs.cpp:89-135 | a root is read as a map if and only if its members carry exactly that map |
| CppCodec.RootRefused | src/cpp/src/kvs.cpp:89-135 | it is refused, with InvalidValueType, if and only if some member carries no value |
| CppCodec.RustReadsCppFiles | src/cpp/src/kvs.cpp:558-590 | the Rust reader gets the C++ map without the keys "t" and "v", its 64-bit integers rounded |
| Timeline.WindowOnTheLine | src/rust/rust_kvs/src/json_backend.rs:216-254 | the content of every slot after any number of rotations and pushes, from any row |
| Timeline.LatestPushesStand | src/rust/rust_kvs/src/json_backend.rs:414-425 | slots that were pushed into hold the latest pushes, newest first |
| Timeline.OnlyPushesStand | src/rust/rust_kvs/src/json_backend.rs:414-425 | from an empty row nothing else is there |
| Timeline.OldEntriesMoveUp | src/rust/rust_kvs/src/json_backend.rs:216-254 | below the last slot, an old entry or hole moves up one slot per push |
| Timeline.LastSlotKeepsNewest | src/rust/rust_kvs/src/json_backend.rs:216-254 | the last slot holds the newest of the old entries that got there |
| Timeline.HoleMovesUp | src/rust/rust_kvs/src/json_backend.rs:216-254 | a single hole moves up one slot per push and disappears at the last slot |
| Timeline.SettlesWhenNothingIsAdded | src/rust/rust_kvs/src/json_backend.rs:216-254 | rotations without a push end in a fixed row that keeps the newest entry in the last slot |
| Storage.Disk.Rename | src/rust/rust_kvs/src/json_backend.rs:249-250 | an atomic rename, with the missing-source and the failing case |
| Storage.Disk.Write | src/rust/rust_kvs/src/json_backend.rs:343-355 | an atomic write, with the failing case |
| Rotation.BlockedByHighestHalf | src/rust/rust_kvs/src/json_backend.rs:230-240 | rotation is blocked at the highest slot with only one of its two files |
| Rotation.RotationShifts | src/rust/rust_kvs/src/json_backend.rs:216-254 | both file families shift up by one above the blocking slot; slots up to it and files above the window stay |
| Rotation.RotationPrefix | src/rust/rust_kvs/src/json_backend.rs:216-254 | after any prefix of the renames the two families have shifted from the same slot, or one snapshot is split |
| Rotation.FlushAdvances | src/rust/rust_kvs/src/json_backend.rs:414-425 | a flush shifts both families and puts the printed text and its hash into slot 0 |
| RustBackend.JsonBackend.SnapshotRotate | src/rust/rust_kvs/src/json_backend.rs:216-254 | performs the specified renames as far as the disk allows, and reports IntegrityCorrupted exactly when blocked |
| RustBackend.JsonBackend.MoveSnapshot | src/rust/rust_kvs/src/json_backend.rs:249-250 | renames the hash, then the json file of one slot as far as the disk allows |
| RustBackend.JsonBackend.Load | src/rust/rust_kvs/src/json_backend.rs:278-326 | the source's steps give the answer that LoadAnswers spells out |
| RustBackend.LoadsOnlyMatchingPairs | src/rust/rust_kvs/src/json_backend.rs:278-326 | a load succeeds if and only if the hash file is the text's four hash bytes and the text decodes to an object |
| RustBackend.LoadAnswers | src/rust/rust_kvs/src/json_backend.rs:278-326 | every answer of a load for any files, in terms of the files, the parsed tree and its members: FileNotFound, the UTF-8 error, ValidationFailed, JsonParserError exactly for text that does not parse or a root that stands for no map, and the map otherwise |
| RustBackend.JsonBackend.Save | src/rust/rust_kvs/src/json_backend.rs:328-358 | writes text then hash as far as the disk allows, nothing if the map cannot be printed |
| RustBackend.JsonBackend.Flush | src/rust/rust_kvs/src/json_backend.rs:414-425 | rotates then saves as far as the disk allows, with the exact outcome |
| RustBackend.JsonBackend.SnapshotCount | src/rust/rust_kvs/src/json_backend.rs:427-441 | counts the leading slots that have a json file |
| RustBackend.JsonBackend.SnapshotRestore | src/rust/rust_kvs/src/json_backend.rs:447-462 | refuses slot 0 and slots above the count, and loads otherwise |
| RustBackend.RestoreAnswers | src/rust/rust_kvs/src/json_backend.rs:447-462 | for any files: InvalidSnapshotId for 0, above the limit or behind a missing json file, and the load otherwise |
| History.LoadsTheEntry | src/rust/rust_kvs/src/json_backend.rs:402-406 | loading gives the map a slot stands for, or FileNotFound |
| History.CountsTheRow | src/rust/rust_kvs/src/json_backend.rs:427-441 | the count is the number of leading maps of the row |
| History.FlushKeepsRepresentation | src/rust/rust_kvs/src/json_backend.rs:414-425 | a flush takes files that stand for a row to files that stand for the advanced row, a failing print included |
| History.RowAfterRun | src/rust/rust_kvs/src/kvs.rs:276-286 | after any run the row is the initial one advanced by the flushed maps in order |
| History.RunKeepsHistory | src/rust/rust_kvs/src/kvs.rs:276-286 | after any run from an empty directory with printable maps, slot k holds the k-th newest flushed map and no other slot is filled |
| History.RepliesFromHistory | src/rust/rust_kvs/src/json_backend.rs:427-462 | then the count is min(flushes, max) and restoring k gives the k-th newest map or the exact error |
| History.LastTouchDecides | src/rust/rust_kvs/src/kvs.rs:57-330 | after any run, what is at a key is what the last set, removal, reset or successful restore that touched it left there |
| History.LookupAnswers | src/rust/rust_kvs/src/kvs.rs:125-135 | in any run, a lookup answers with what is in memory, else with the default, else with KeyNotFound; an untouched key has its initial value |
| RustKvs.Kvs.constructor | src/rust/rust_kvs/src/kvs.rs:47-49 | a store over files that stand for a row |
| RustKvs.Kvs.SetValue | src/rust/rust_kvs/src/kvs.rs:238-242 | inserts or replaces one entry |
| RustKvs.Kvs.RemoveKey | src/rust/rust_kvs/src/kvs.rs:253-261 | removes one entry, or KeyNotFound without a change |
| RustKvs.Kvs.Reset | src/rust/rust_kvs/src/kvs.rs:63-67 | empties the map |
| RustKvs.Kvs.ResetKey | src/rust/rust_kvs/src/kvs.rs:78-87 | removes one entry that has a default, or KeyDefaultNotFound without a change |
| RustKvs.Kvs.GetValue | src/rust/rust_kvs/src/kvs.rs:125-135 | the value, else the default, else KeyNotFound |
| RustKvs.Kvs.Flush | src/rust/rust_kvs/src/kvs.rs:276-286 | pushes the memory onto the row, keeps the memory, and does nothing when no snapshots are kept |
| RustKvs.Kvs.SnapshotCount | src/rust/rust_kvs/src/kvs.rs:292-294 | the number of leading maps of the row |
| RustKvs.Kvs.SnapshotRestore | src/rust/rust_kvs/src/kvs.rs:322-329 | the memory becomes the map of the slot; on any error it stays |
| RustKvs.Kvs.Execute | src/rust/rust_kvs/src/kvs.rs:57-330 | for each operation its effect on the memory and the row and its reply; together they are one operation of the abstract store |
| RustKvs.Kvs.ExecuteAll | src/rust/rust_kvs/src/kvs.rs:57-330 | any run refines the run of the abstract store: replies, memory and snapshots |
| RustKvs.RunFromEmpty | src/rust/rust_kvs/src/kvs.rs:57-330 | a new store on an empty directory, any run with printable flushed maps: slot k loads the k-th newest, no other file exists, the count is min(flushes, max), and a restore gives the k-th newest map or the exact error |
| CrashStates.PrefixIsCut | src/rust/rust_kvs/src/json_backend.rs:216-254 | the files after any prefix of a flush, slot by slot; a snapshot is torn or half written exactly after an odd number of changes |
| CrashStates.OldSnapshotsSurvive | src/rust/rust_kvs/src/json_backend.rs:216-254 | every old snapshot below the last slot is whole in its slot or the next; at most one is split over the two |
| CrashStates.SlotsAtCut | src/rust/rust_kvs/src/json_backend.rs:216-254 | every slot is empty, whole, half-present, or the last slot with a mixed pair |
| CrashStates.LoadsOnlyFlushedMaps | src/rust/rust_kvs/src/json_backend.rs:278-326 | a load that succeeds after a cut gives a flushed map; a mixed pair is refused unless the checksums collide |
| CrashStates.FlushableAfterCrash | src/rust/rust_kvs/src/json_backend.rs:230-240 | the store can rotate again if and only if no snapshot is torn or half written |
| CrashStates.AfterAnyCrash | src/rust/rust_kvs/src/json_backend.rs:414-425 | for every number p of completed file changes: what loads, where each old snapshot is, a torn one included, and that the store can flush again if and only if p is even |
| CrashStates.SingleSlotCut | src/rust/rust_kvs/src/json_backend.rs:328-358 | with one slot, a cut between the writes makes the snapshot unreadable unless the checksums collide |
| SelfHealing.FlushManyAdvances | src/rust/rust_kvs/src/json_backend.rs:414-425 | from any disk without half-present slots below the last, both families advance by the printed texts, an unprintable map giving an empty slot, and the disk stays without half-present slots there |
| SelfHealing.FlushAll | src/rust/rust_kvs/src/json_backend.rs:414-425 | flush calls on a disk that does not fail leave the files of the specified flushes and answer as specified |
| SelfHealing.FlushManyAnswers | src/rust/rust_kvs/src/json_backend.rs:414-425 | each of these flushes answers Ok, or JsonGeneratorError if its map cannot be printed |
| SelfHealing.Stabilises | src/rust/rust_kvs/src/json_backend.rs:414-425 | after k flushes the first min(k, max) slots hold the last k maps, whatever was there |
| SelfHealing.HoleGrowsOut | src/rust/rust_kvs/src/json_backend.rs:216-254 | a hole at slot h has moved up k slots after k flushes and is gone after max - 1 - h |
| SelfHealing.BlockedFlush | src/rust/rust_kvs/src/json_backend.rs:237-240 | a blocked flush only makes the renames above the blocking slot and fails with IntegrityCorrupted |
| SelfHealing.RotateManyAdvances | src/rust/rust_kvs/src/json_backend.rs:216-254 | the files after any number of failing attempts, which stay blocked at the same slot |
| SelfHealing.FailingFlushesRotate | src/rust/rust_kvs/src/json_backend.rs:414-425 | repeated flushes on a blocked disk leave the files of as many rotations |
| SelfHealing.FailingFlushesAnswer | src/rust/rust_kvs/src/json_backend.rs:237-240 | each of them answers IntegrityCorrupted |
| SelfHealing.FailuresSettle | src/rust/rust_kvs/src/json_backend.rs:216-254 | after max - 2 - j failing flushes the slots between are empty, slots up to j and files above the window are as before, and a further flush changes no file |
| SelfHealing.FailuresKeepNewest | src/rust/rust_kvs/src/json_backend.rs:216-254 | after these flushes the last slot holds the newest snapshot that lay above the half-present slot, both files from one place |
| Reopening.OpensLastFlush | src/rust/rust_kvs/src/kvs_builder.rs:258-268 | a later build starts with the last flushed map, or empty, or with FileNotFound, by load mode |
| Reopening.ReopenedMapIsExact | src/rust/rust_kvs/src/kvs_builder.rs:258-268 | on files that stand for a row, a later build starts with the flushed map itself if and only if its integers survive binary64 |
| Reopening.OptionalLoadAfterCrash | src/rust/rust_kvs/src/kvs_builder.rs:260-266 | what an optional load finds after a flush cut anywhere, the silent empty map included |
| Reopening.OptionalLoadAfterChanges | src/rust/rust_kvs/src/kvs_builder.rs:260-266 | the same by the number p of completed file changes: the silent empty map appears if and only if p lies from the last rename of slot 0's hash file up to the write of the new json file |
| Recovery.EvenCutIsRow | src/rust/rust_kvs/src/json_backend.rs:216-254 | a cut between two snapshots leaves files that stand for the shifted row, or for the advanced one if the new snapshot is written |
| Recovery.FlushManyKeepsRow | src/rust/rust_kvs/src/json_backend.rs:414-425 | any number of flushes takes files for a row to files for the row advanced by all their maps |
| Recovery.AfterCutAndFlushes | src/rust/rust_kvs/src/json_backend.rs:216-254 | for every even cut of a rotation of a full row and any number of later flushes: which map stands in each slot, the hole included, and the count |
| FaultyRuns.RunKeepsOnlyFlushed | src/rust/rust_kvs/src/json_backend.rs:216-358 | in any run with failures, crashes and restarts, every json file is a text of a flushed map and every hash file the hash of one |
| FaultyRuns.OnlyFlushedMapsComeBack | src/rust/rust_kvs/src/json_backend.rs:278-326 | so every restore that succeeds gives a flushed map, and so does every opening, unless its mode lets it start empty |
| FaultyRuns.StuckForGood | src/rust/rust_kvs/src/json_backend.rs:230-240 | once a half-present slot lies below the last one, no flush of the rest of the run succeeds, restarts included |
| FaultyRuns.CarryOut | src/rust/rust_kvs/src/json_backend.rs:414-462 | each event is what the backend does: a flush of which so many changes go through, a restore, or the load of a build, with its effect on files and memory and its answer |
| Linearisation.FinishIsFlush | src/rust/rust_kvs/src/json_backend.rs:414-425 | a flush run piece by piece to its end leaves the files of the specified flush |
| Linearisation.FinishAnswers | src/rust/rust_kvs/src/json_backend.rs:414-425 | and it ends with IntegrityCorrupted if rotation is blocked, JsonGeneratorError if the map cannot be printed, and Ok otherwise |
| Linearisation.NextKeepsInv | src/rust/rust_kvs/src/kvs.rs:238-286 | every event of every thread keeps the invariant of lock, memory and files |
| Linearisation.FlushesAreAtomic | src/rust/rust_kvs/src/kvs.rs:276-286 | in every interleaving the files stand for the maps found at the flushes' lock acquisitions, in lock order, whenever the lock is free |
| Linearisation.OneThreadInside | src/rust/rust_kvs/src/kvs.rs:276-286 | two threads are never both inside |
| InstancePool.Chosen | src/rust/rust_kvs/src/kvs_builder.rs:234-239 | parameters filled in from defaults agree with every option that was set |
| InstancePool.KvsBuilder.constructor | src/rust/rust_kvs/src/kvs_builder.rs:88-95 | a builder with only the instance ID set |
| InstancePool.KvsBuilder.SetDefaults | src/rust/rust_kvs/src/kvs_builder.rs:112-116 | sets this option and no other |
| InstancePool.KvsBuilder.SetKvsLoad | src/rust/rust_kvs/src/kvs_builder.rs:125-129 | sets this option and no other |
| InstancePool.KvsBuilder.SetBackend | src/rust/rust_kvs/src/kvs_builder.rs:139-143 | sets this option and no other |
| InstancePool.KvsBuilder.CompareParameters | src/rust/rust_kvs/src/kvs_builder.rs:146-171 | true if and only if the instance ID is the same and each option is unset or equal, field by field |
| InstancePool.LoadFile | src/rust/rust_kvs/src/kvs_builder.rs:243-271 | a load under each mode: ignored, tolerant of FileNotFound only, or strict |
| InstancePool.KvsBuilder.Build | src/rust/rust_kvs/src/kvs_builder.rs:189-297 | in terms of the fields: InvalidInstanceId from 10 on; a filled slot shared or InstanceParametersMismatch; else the first failing load's error, defaults first; else a new instance with the values filled in, each file's map in its place |
| InstancePool.NextKeepsInv | src/rust/rust_kvs/src/kvs_builder.rs:189-297 | every interleaving keeps the pool invariant, never empties a slot, and changes the pool only by inserting |
| InstancePool.LookupAlone | src/rust/rust_kvs/src/kvs_builder.rs:195-231 | the lookup event in each case, field by field |
| InstancePool.LoadAndInsertAlone | src/rust/rust_kvs/src/kvs_builder.rs:233-296 | the load and insertion events that nothing interrupts: no trace if a load fails, else the new instance in its slot and in the handle |
| InstancePool.HandlesAgree | src/rust/rust_kvs/src/kvs_builder.rs:189-297 | every handle of every run has each option its builder set, field by field, and slot i holds instance i or none |
| InstancePool.SharedIffNoRace | src/rust/rust_kvs/src/kvs_builder.rs:276-296 | over every run: all handles of an instance share one data object if and only if no two builds of it that both insert overlap, and if and only if every insertion finds the slot empty |
| InstancePool.NoOverlapShares | src/rust/rust_kvs/src/kvs_builder.rs:195-296 | without overlap between lookup and insertion all handles of an instance share one data object |
| InstancePool.OverlapCanSplit | src/rust/rust_kvs/src/kvs_builder.rs:195-296 | a run with overlap that ends with two data objects for one instance |
| CppStore.CppRotationShifts | src/cpp/src/kvs.cpp:658-716 | each family shifts by one over all slots, whatever the other one looks like |
| CppStore.CppFlushAdvances | src/cpp/src/kvs.cpp:554-613 | a completed flush pushes the text and its hash, each onto its family |
| CppStore.CppFlushKeepsRepresentation | src/cpp/src/kvs.cpp:554-613 | files that stand for a row become files that stand for the advanced row |
| CppStore.OpensTheEntry | src/cpp/src/kvs.cpp:138-215 | opening a slot gives exactly the map it stands for; if there is none, KvsFileReadError in the required and an empty map in the optional mode |
| CppStore.OpenAnswers | src/cpp/src/kvs.cpp:138-215 | every answer of an opening for any files, slot and mode: the exact error, KvsHashFileReadError in both modes, and success with a map if and only if the text's members carry it |
| CppStore.CppHistory | src/cpp/src/kvs.cpp:616-763 | after n flushes the count is min(n, max), and restoring k gives the k-th newest map exactly for 1 <= k <= min(n - 1, max) |
| CppStore.RunFromEmpty | src/cpp/src/kvs.cpp:554-763 | a new store on an empty directory, flushed with any printable maps: the count is min(n, max), and a restore gives the k-th newest map or the exact error |
| CppStore.OverlappingFlushesLoseOne | src/cpp/src/kvs.cpp:587-609 | one interleaving: both flushes rotate before the first writes, no trace of the first map is left, and slot 1 is a hole |
| CppStore.OverlappingFlushesMixPair | src/cpp/src/kvs.cpp:529-541 | another: the second text ends beside the first hash, and slot 0 is refused with ValidationFailed unless the checksums are the same |
| CppStore.FlushesWithoutDirectoryDrain | src/cpp/src/kvs.cpp:658-716 | after max rotations to which nothing is added the slots 0..max-1 are empty, and of each family the newest file is in slot max |
| CppStore.FlushWithoutDirectory | src/cpp/src/kvs.cpp:554-613 | repeated flushes of a store without a directory all answer PhysicalStorageFailure, and after max of them only the newest old files are left, in the last slot |
| CppStore.CutBetweenWrites | src/cpp/src/kvs.cpp:529-541 | a flush cut between its writes leaves the new text without a hash file in slot 0, which then answers KvsHashFileReadError in both modes |
| CppStore.Kvs.constructor | src/cpp/src/kvs.cpp:251-253 | a store with the compiled-in snapshot limit |
| CppStore.Kvs.SetValue | src/cpp/src/kvs.cpp:433-448 | inserts or replaces one entry, or MutexLockFailed without a change |
| CppStore.Kvs.SnapshotCount | src/cpp/src/kvs.cpp:616-649 | counts the leading slots below the limit that have a json file; PhysicalStorageFailure if an existence test on the way fails |
| CppStore.Kvs.MoveUp | src/cpp/src/kvs.cpp:674-699 | renames one file, ignoring a missing source |
| CppStore.Kvs.RotateRound | src/cpp/src/kvs.cpp:667-703 | moves the hash, then the json file of one slot |
| CppStore.Kvs.SnapshotRotate | src/cpp/src/kvs.cpp:658-716 | performs the specified renames as far as the disk allows, none without the lock |
| CppStore.Kvs.WriteJsonData | src/cpp/src/kvs.cpp:516-551 | writes text then hash as far as the disk allows, and nothing if the prefix names no directory or it cannot be created |
| CppStore.Kvs.ConvertMap | src/cpp/src/kvs.cpp:564-578 | builds the root object of the map |
| CppStore.Kvs.Flush | src/cpp/src/kvs.cpp:554-613 | undisturbed: a failure before rotation leaves every file; otherwise it rotates, then writes the map, a missing directory being found out only in between |
| CppStore.Kvs.SnapshotRestore | src/cpp/src/kvs.cpp:719-763 | the memory becomes the opened map; on any error, a failing count included, it stays |
| CppStore.Kvs.Open | src/cpp/src/kvs.cpp:138-215 | the result of opening a file pair in either mode, each error included |
| CppThreads.FinishIsFlush | src/cpp/src/kvs.cpp:554-613 | a flush run change by change to its end leaves the files of the undisturbed flush |
| CppThreads.NextKeepsInv | src/cpp/src/kvs.cpp:554-716 | every event of every thread keeps the invariant of files and flushes under way, provided slot 0 is not taken while another flush writes |
| CppThreads.FlushesApartKeepHistory | src/cpp/src/kvs.cpp:554-716 | any number of flushes of which none takes slot 0 while another writes leave files that stand for the row advanced by all their maps, in order of rotation |
| CppThreads.TwoFlushesKeptIffApart | src/cpp/src/kvs.cpp:587-609 | over every interleaving of two flushes and any other changes of the map: the files stand for the row advanced by both maps if and only if neither took slot 0 between the other's rotation and its hash write; otherwise slot 1 does not open |
| CppThreads.RotatedMapsWereTaken | src/cpp/src/kvs.cpp:559-585 | every map that is rotated in was in memory at some flush's first lock |
| CppThreads.OneFlushIsAtomic | src/cpp/src/kvs.cpp:554-613 | a single flush among any number of threads that change the map puts the map of its first lock into slot 0 |
| CppThreads.OverlapHappens | src/cpp/src/kvs.cpp:587-609 | for every limit of at least 2, a run of two flushes that overlap and end with files that do not stand for both maps |
| CppHealing.CppFlushManyAdvances | src/cpp/src/kvs.cpp:554-716 | from any disk, any number of flushes advances each family by what they wrote |
| CppHealing.CppStabilises | src/cpp/src/kvs.cpp:554-716 | from any disk at all, after k flushes the first min(k, max + 1) slots hold the last k texts with their hashes |
| CppHealing.TornAtIsPrefix | src/cpp/src/kvs.cpp:667-703 | a rotation cut between the two renames of slot i leaves the files that are called torn at i |
| CppHealing.TornSnapshotHeals | src/cpp/src/kvs.cpp:667-703 | the snapshot torn at slot i keeps its hash file one slot ahead while it moves up, neither slot opening, and is whole again once its json file is in the last slot |
| ValueTree.Node.FromScalar | src/cpp/src/kvsvalue.hpp:85-93 | a leaf that stands for its value |
| ValueTree.Node.FromArray | src/cpp/src/kvsvalue.cpp:18-28 | an array of new copies of the pointed-to trees |
| ValueTree.Node.Copy | src/cpp/src/kvsvalue.cpp:65-96 | a structurally equal tree made of new nodes only, for every acyclic tree |
| ValueTree.Node.TakeContents | src/cpp/src/kvsvalue.cpp:103-105 | the exchange of contents with a tree this node is not part of |
| ValueTree.Node.Assign | src/cpp/src/kvsvalue.cpp:99-108 | the target stands for the source's old value, with only new nodes below it, even when one tree contains the other |
| ValueTree.CopyItems | src/cpp/src/kvsvalue.cpp:71-77 | new, pairwise disjoint copies of all array children |
| ValueTree.CopyFields | src/cpp/src/kvsvalue.cpp:83-88 | new, pairwise disjoint copies of all object children |
| ValueTree.Untouched | src/cpp/src/kvsvalue.cpp:65-108 | writes outside a tree never show in it |
| ValueTree.CopyThenOverwrite | src/cpp/src/kvsvalue.cpp:65-108 | overwriting the source after a copy leaves the copy's value |

## Left out

- JSON text: printing and parsing are parameters with a round-trip assumption, not modelled.
- Torn file contents: a write is atomic, so a file cut in the middle of its bytes does not occur; nor do data syncing, path joining and file name extension checks. Whether the C++ store has or can create its directory is a parameter.
- Floating point beyond integers: other numbers are opaque, and the two zeros are one number.
- Machine width of indices and snapshot IDs: they are unbounded naturals.
- Lock failure: a poisoned Rust lock is not modelled; a failed C++ lock attempt is a parameter of the operation.
- Several directories or instances on one disk: their file names differ, and the model has one disk for each.
- RustKvs.Kvs.Flush: on a disk on which no change fails; failing changes are in RustBackend.JsonBackend.Flush for one flush and in FaultyRuns for whole runs.
- RustKvs.Kvs.Execute: as RustKvs.Kvs.Flush.
- RustKvs.Kvs.ExecuteAll: as RustKvs.Kvs.Flush.
- RustKvs.Kvs.constructor: over files that stand for a row, on a disk on which no change fails; other files are in CrashStates, SelfHealing and FaultyRuns.
- Linearisation.NextKeepsInv: no rename or write fails there; any change of the map under the lock is one kind of event, so single setters are not told apart there; a zero snapshot limit, for which flush does not lock, is left to RustKvs.Kvs.Flush.
- InstancePool.KvsBuilder.Build: the two loads are parameters, so it does not say which files they read; Reopening.OpensLastFlush connects them to the files.
- CppThreads.NextKeepsInv: no rename or write fails there; failing file changes are in CppStore.Kvs.Flush, which no other thread disturbs.
- CppThreads.TwoFlushesKeptIffApart: for limits of at least 2; the compiled-in one is 3.
- ValueTree.Node.FromArray: the constructors from objects, from plain vectors and by move would only repeat it.
- `get_all_keys`, `key_exists`, `is_value_default`, `get_value_as` and `get_default_value`: single lookups that would only add easy members.
- The C++ operations `remove_key`, `reset_key`, `reset` and `get_value`: they repeat the Rust ones on the same kind of map; a C++ flush meets them only as changes of the map by others.
- The command line tool, the mock store, the serialisation traits, logging, and the C++ builder and open function.
