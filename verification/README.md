# Caliptra software: verified models of its stateful core

A Dafny model of six parts of the Caliptra root-of-trust software, with proofs about each of them.
`dafny verify dfyconfig.toml` checks the whole project.

* **Firmware builder** (`builder/src/lib.rs`). The planner that partitions firmware ids into cargo runs
  (`FwIds`, `Planner`, `PlanOptimality`, `PlanOrder`), the uncached build that executes the plan (`UncachedBuild`), the build
  cache as a state machine over the steps of any number of concurrent calls (`BuildCache`, `BuildReplies`), and the ELF-to-ROM
  conversion with its self-describing digest (`RomImage`).
* **UDS/FE fuse flows** (`common/src/uds_fe_programming.rs`). `program` and `zeroize` driving a direct access
  interface (DAI) that is busy for a finite, unknown number of polls after each command (`OtpMap`,
  `OtpController`, `UdsFeFlow`, `FlowSequences`).
* **OTP layout generator** (`hw-model/build.rs`), and its agreement with the flows' address arithmetic (`OtpLayout`, `LayoutOutput`).
* **Mailbox client** (`api/src/soc_mgr.rs`, `api/src/mailbox.rs`, `api/src/checksum.rs`): checksum, word FIFO,
  responses, and the lock/execute/poll protocol (`Checksum`, `MailboxWire`, `MailboxResponse`, `Mailbox`, `SocManager`).
* **Parsing and slicing** (`common/src/x509.rs`, `common/src/verifier.rs`): `Der`, `FipsSlice`.
* **Counter-mode KDF** (`drivers/src/cmac_kdf.rs`): section 4.1 of NIST SP 800-108 (`CmacKdf`).

`Common`, `Orders` and `Sums` hold shared definitions: machine words, derived orders and sorting, sums over maps.

## How to read the model

Code that updates state is imperative here too: methods with loops and invariants, and classes for the fuse
controller and the mailbox registers. Each method is tied to a function of its inputs or of the old state, and the
theorems are about that function. Three modelling decisions matter everywhere.

* *Arithmetic.* The firmware is compiled with the release profile, so 32-bit sums wrap; every address, slice end and
  timeout decrement that could wrap is written with an explicit modulus.
* *Nondeterminism.* The enumeration order of a hash map, the contents of the shared target directory, how long the DAI
  stays busy and whether a fuse clears are arbitrary. Statuses of the microcontroller, cargo's output, the random seed
  and the outcome of a build are parameters.
* *Hardware.* `OtpController.Dai` and `Mailbox.Registers` are assumptions, stated as contracts. The DAI ignores writes while busy;
  a zeroize command may leave a fuse uncleared but never un-clears one; digest and marker rows are 64 bits wide whatever
  the row width of the seed; the digest command fills in the partition's digest; the UDS base is 8-aligned, as
  64-bit rows need. Reading LOCK as 0 acquires it unless the reads are filtered; DATAIN and DATAOUT are the ends of a FIFO;
  only the owner's write of EXECUTE has an effect.

## Where a promise holds only under a condition

* *The cache returns the built bytes.* True exactly for ids whose build succeeded; after a failed build later callers get
  `Ok` with the empty placeholder (`BuildReplies.RepliesFollowBuild`, `BuildCache.FailedBuildServesEmptyBytes`).
* *Ok from zeroize means the seed is cleared.* True exactly when the end of the seed's address range does not wrap;
  a wrapped range is empty and no seed row is visited (`UdsFeFlow.OkMeansSeedClearedIffRangeFits`).
* *At most `MAX_WAIT_CYCLES` delays.* True exactly when that constant is positive; at zero the decrement wraps
  (`SocManager.DelayBoundIffPositive`).
* *`get_tbs` returns the TBS encoding.* True exactly when the carry of the two-byte length is not lost (`Der.GetTbsResult`).
* *The UDS in-progress flag is cleared.* Only on success: both `?` exits of `program` leave it set (`UdsFeFlow.Program`).

Two comments in the source disagree with the code, and the model follows the code: duplicates handed to
`build_firmware_elfs_uncached` are an error and not filtered out, and an FE seed has 8 bytes, not 32.

## Model

| member | source | states |
|---|---|---|
| `FwIds.FirmwareTypeOrder` | builder/src/lib.rs:87-97 | the order derived for the two firmware variants is a total order |
| `FwIds.FwIdOrder` | builder/src/lib.rs:108-121 | the order derived for ids (crate, binary, type) is a total order, so equal ids are the only ties |
| `FwIds.InvocationPreorder` | builder/src/lib.rs:338-345 | the sort comparator is antisymmetric and transitive on all invocations, and ties have equal id lists |
| `Orders.SortBy` | builder/src/lib.rs:338-345 | stands for the unstable sort: a permutation of the input, in the comparator's order |
| `Orders.SortedPermutationsAgree` | builder/src/lib.rs:337-345 | two sorted permutations of one multiset are equal when ties are equal, so an unstable sort is deterministic |
| `Planner.CargoInvocations` | builder/src/lib.rs:294-348 | succeeds exactly on duplicate-free input, with the sorted greedy rounds (their order and contents: `PlanOrder.PlanIsOrdered`, `PlanOrder.TakenAreFirsts`); otherwise reports the first id that repeats an earlier one |
| `Planner.GreedyRounds` | builder/src/lib.rs:305-347 | the loop over rounds terminates and its result is the multiset of all rounds' invocations, sorted, for any hash-map order |
| `Planner.RetainPass` | builder/src/lib.rs:314-334 | one `retain` pass puts into each group's invocation, in order, the first id of every binary name, and keeps the rest in order |
| `Planner.IntoValues` | builder/src/lib.rs:335 | an arbitrary enumeration of the map's values, each exactly once |
| `Planner.BinCollides` | builder/src/lib.rs:320-324 | the collision test on the invocation under construction holds exactly when an earlier id of the group has the same binary name |
| `Planner.TakenOccurrences` | builder/src/lib.rs:314-334 | a round builds every (group, binary name) that occurs exactly once |
| `Planner.RetainedOccurrences` | builder/src/lib.rs:314-334 | a round lowers the multiplicity of every (group, binary name) that occurs by exactly one |
| `Planner.RoundsRunnable` | builder/src/lib.rs:320-330 | every invocation of every round is non-empty, of one group, and free of colliding binary names |
| `Planner.EquivalentRunnablesAreEqual` | builder/src/lib.rs:338-345 | on plan invocations the comparator only ties equal ones, although it skips the hardware revision |
| `Planner.PlanIsUnique` | builder/src/lib.rs:305-345 | an input has one plan only: the result does not depend on hash-map iteration order |
| `PlanOrder.ComparatorMeaning` | builder/src/lib.rs:338-345 | the comparator puts the run with more ids first, then the smaller crate name, feature list and id list, smaller meaning a proper prefix or less at the first difference |
| `PlanOrder.PlanIsOrdered` | builder/src/lib.rs:337-345 | any two runs of a plan are strictly in that order: the largest runs come first |
| `PlanOrder.TakenAreFirsts` | builder/src/lib.rs:314-334 | a run holds, in input order, exactly the ids of its group that no earlier remaining id of the same binary name precedes |
| `PlanOrder.RetainedAreRepeats` | builder/src/lib.rs:314-334 | the ids kept for the next round are exactly the others, in input order |
| `PlanOptimality.RoundsContent` | builder/src/lib.rs:305-336 | all rounds together hold every id exactly as often as the input does |
| `PlanOptimality.PlanIsValidPartition` | builder/src/lib.rs:294-348 | a plan is a partition of the input into non-empty collision-free runs |
| `PlanOptimality.RoundsSize` | builder/src/lib.rs:305-336 | the number of invocations is the sum over groups of the largest binary-name multiplicity in the group |
| `PlanOptimality.PartitionLowerBound` | builder/src/lib.rs:292-293 | no partition of the input into collision-free same-group runs has fewer runs than that sum |
| `PlanOptimality.PlanIsMinimal` | builder/src/lib.rs:292-348 | the plan attains that sum, so it has the minimum number of cargo invocations |
| `UncachedBuild.BuildElfs` | builder/src/lib.rs:200-290 | duplicates are refused; otherwise some plan is followed: either all runs succeed and each id, in input order, is paired with the file its own run wrote, or the first failing run is reported |
| `UncachedBuild.RunPlan` | builder/src/lib.rs:209-278 | runs the plan in order, stops at the first failing run, and collects for every id a file written by a run made for it |
| `UncachedBuild.RunOne` | builder/src/lib.rs:222-277 | whatever was in the target directory before the lock was taken, the files read back are those this cargo run wrote |
| `UncachedBuild.InInputOrder` | builder/src/lib.rs:279-289 | the lookup guarded by `expect` always succeeds, and results follow the input order |
| `UncachedBuild.RunIsUnique` | builder/src/lib.rs:279-289 | in a plan for distinct ids an id belongs to one run only |
| `UncachedBuild.RunFitsId` | builder/src/lib.rs:211-264 | an id's run is made with the id's own crate and, for a source id, its own features and hardware revision, and names its binary |
| `UncachedBuild.FeaturesIncludeRiscv` | builder/src/lib.rs:212-218 | the feature list is the joined features with `riscv` appended when missing, for every list except the one holding only an empty name |
| `UncachedBuild.BuildElf` | builder/src/lib.rs:186-193 | a single-id build succeeds exactly when its one run does and returns that run's file; exactly one result comes back |
| `BuildCache.StepKeepsInv` | builder/src/lib.rs:394-425 | every step of every call keeps the lock-ownership, data and history invariant |
| `BuildCache.BuiltAtMostOnce` | builder/src/lib.rs:394-425 | in every interleaving of any number of calls each id is built at most once, and never with a prebuilt directory |
| `BuildCache.RepliesAgree` | builder/src/lib.rs:374-425 | by the recorded outcome of the id's one build: every Ok reply carries its bytes, or the empty placeholder when that build failed; an error for a registered id means that its build failed; the registration error is returned exactly for unregistered ids |
| `BuildReplies.OutcomesAreScheduled` | builder/src/lib.rs:422-423 | what is recorded for an id is how the scheduled step of its building call ended, and nothing is recorded without such a step |
| `BuildReplies.BuildsOnce` | builder/src/lib.rs:394-423 | a schedule ends an id's build at one step only |
| `BuildReplies.RepliesFollowBuild` | builder/src/lib.rs:400-425 | in every interleaving a reply for a registered id follows that step: the building call returns the bytes or the error, every other call the bytes or, after a failure, Ok with the empty placeholder |
| `BuildCache.PrebuiltReplies` | builder/src/lib.rs:375-392 | with a prebuilt directory the reply is that directory's file, or the matching error |
| `BuildCache.NoDeadlock` | builder/src/lib.rs:400-424 | in every reachable state an unfinished call can step, or the call that holds the lock it waits for can |
| `BuildCache.RunsAreBounded` | builder/src/lib.rs:374-425 | no run takes more than seven steps per call |
| `BuildCache.StuckMeansFinished` | builder/src/lib.rs:374-425 | a reachable state in which nothing can move is one in which every call has returned |
| `BuildCache.FailedBuildServesEmptyBytes` | builder/src/lib.rs:422-424 | a reachable run in which the first caller's build fails and the second caller gets Ok with no bytes |
| `RomImage.Sha256WordReversed` | builder/src/sha256.rs:8-16 | the hashed message is the input's whole words, each with its bytes reversed |
| `RomImage.WordReversedByte` | builder/src/sha256.rs:11-14 | byte m of word q of the hashed message is byte 3 - m of word q of the image |
| `RomImage.WordReversedInvolution` | builder/src/sha256.rs:11-14 | on whole words the framing is its own inverse, so it loses nothing |
| `RomImage.LoadSegments` | builder/src/lib.rs:647-672 | succeeds exactly when every PT_LOAD segment is inside the file and every non-empty one inside the ROM; each byte is then that of the last segment covering it, or zero; otherwise the first bad segment is reported |
| `RomImage.RomInfoFields` | image/types/src/lib.rs:830-838 | the record's bytes are digest, revision, zero flags, little-endian version, zero reserve |
| `RomImage.DigestWord` | image/types/src/lib.rs:831-833 | each digest word can be read back from the record's bytes |
| `RomImage.FindRomInfo` | builder/src/lib.rs:675-676 | the address of the first symbol of that name, if there is one |
| `RomImage.Elf2Rom` | builder/src/lib.rs:640-692 | success exactly on convertible input; the image has 0x18000 bytes, is the loaded segments outside the record, and the record stands at the first symbol of its name and holds the digest of the final image before it; each failure names its cause, a symbol beyond the image being a panic |
| `OtpMap.FlowAddresses` | common/src/uds_fe_programming.rs:177-194 | the wrapped seed, digest and marker addresses are the words of one contiguous 176-byte region |
| `OtpMap.MaskedSelects` | common/src/uds_fe_programming.rs:254-258 | masking a wrapped address to 12 bits selects the fuse word that the region word occupies |
| `OtpMap.MaskInjective` | common/src/uds_fe_programming.rs:254-258 | the 12-bit mask is injective on the 176-byte region, for every base |
| `OtpMap.ZeroizeMarkerSafe` | common/src/uds_fe_programming.rs:364-368 | zeroizing a marker, successfully or not, keeps the crash-safety invariant of all partitions |
| `OtpMap.ZeroizeDataSafe` | common/src/uds_fe_programming.rs:370-396 | zeroizing a seed or digest row under a verified marker keeps the invariant of all partitions |
| `OtpMap.ProgramSafe` | common/src/uds_fe_programming.rs:232-279 | changes that leave every marker alone keep the crash-safety invariant |
| `OtpController.Dai.WriteCommand` | sw-emulator/lib/periph/src/dma/otp_fc.rs:168-269 | assumed effect of write, digest and zeroize commands, and that a busy DAI ignores them |
| `UdsFeFlow.WaitIdle` | common/src/uds_fe_programming.rs:219-223 | polling ends, with the DAI idle, whenever the DAI becomes idle after finitely many polls |
| `UdsFeFlow.ExecuteCommand` | common/src/uds_fe_programming.rs:341-350 | exactly one ADDRESS and one CMD write, both while idle, and the DAI idle afterwards |
| `UdsFeFlow.ProgramRow` | common/src/uds_fe_programming.rs:232-263 | one chunk, for either row width, extends the programmed prefix of the seed by that chunk and keeps every intermediate state crash-safe |
| `UdsFeFlow.ProgramFuses` | common/src/uds_fe_programming.rs:218-282 | the resulting fuses do not depend on the row width, and the register writes are exactly the specified sequence |
| `UdsFeFlow.Program` | common/src/uds_fe_programming.rs:202-304 | result, fuses, register writes and programming flags for every outcome; the UDS in-progress flag is set exactly after a failure |
| `UdsFeFlow.ProgramImageMeaning` | common/src/uds_fe_programming.rs:202-285 | after programming the seed words are the first random words in order, the digest is theirs, and no other fuse has changed |
| `FlowSequences.WideProgramSequence` | common/src/uds_fe_programming.rs:226-279 | with 64-bit rows the register writes are, for each pair of seed words in order, both data words, the masked address and command 0b10, then the seed's address and command 0b100 |
| `FlowSequences.NarrowProgramSequence` | common/src/uds_fe_programming.rs:226-279 | with 32-bit rows likewise, word by word |
| `UdsFeFlow.ZeroizeMarker` | common/src/uds_fe_programming.rs:364-368 | true exactly when both marker words read all ones, after a single command |
| `UdsFeFlow.ZeroizeSeed` | common/src/uds_fe_programming.rs:370-392 | every seed row gets a command even after a failure, and the verdict is whether all seed words read all ones; nothing happens if the range wraps |
| `UdsFeFlow.ZeroizeDigest` | common/src/uds_fe_programming.rs:394-396 | true exactly when both digest words read all ones; the seed's verdict is not disturbed |
| `UdsFeFlow.Zeroize` | common/src/uds_fe_programming.rs:311-410 | which failure is reported, read off the final fuses: marker before digest before seed, the seed only where its range fits; after a failed marker no further register is written; no fuse outside the partition changes |
| `UdsFeFlow.VerdictReports` | common/src/uds_fe_programming.rs:353-405 | each error is returned exactly in its case: marker not all ones; marker but not digest; marker and digest but, where the range fits, not the seed |
| `FlowSequences.ZeroizeSequence` | common/src/uds_fe_programming.rs:341-396 | the register writes are command 0b1000 on the marker, and nothing else if it does not clear; otherwise on every seed row in order, then on the digest |
| `UdsFeFlow.OkIffAllCleared` | common/src/uds_fe_programming.rs:352-405 | where the range fits, Ok exactly when marker, every seed word and digest read all ones |
| `UdsFeFlow.OkMeansSeedClearedIffRangeFits` | common/src/uds_fe_programming.rs:370-374 | Ok implies a cleared seed, for all fuse contents, exactly when the end of the seed range does not wrap |
| `UdsFeFlow.ProgramWritesIdle` | common/src/uds_fe_programming.rs:232-279 | every register write of a programming run happens while the DAI is idle |
| `UdsFeFlow.ZeroizeWritesIdle` | common/src/uds_fe_programming.rs:341-350 | every register write of a zeroization happens while the DAI is idle |
| `UdsFeFlow.RunFlows` | common/src/uds_fe_programming.rs:202-410 | over any sequence of program and zeroize calls, cut off after any command, a partition with a zeroized seed or digest word has a zeroized and verified marker; no register is ever written while the DAI is busy |
| `OtpLayout.PlaceSound` | hw-model/build.rs:189-245 | items follow one another from the partition's start, the digest is the next 8-byte boundary, the marker follows, and all are inside the partition, whose size is the declared one if there is one |
| `OtpLayout.LayoutSound` | hw-model/build.rs:187-246 | every partition is placed that way and starts where the previous one ended |
| `OtpLayout.PartitionsTile` | hw-model/build.rs:187-250 | the partitions tile [0, total) without gap or overlap |
| `OtpLayout.ItemsDisjoint` | hw-model/build.rs:197-215 | any two items are disjoint, in order, and inside their own partitions |
| `OtpLayout.AgreesWithFlow` | hw-model/build.rs:176-252 | for an 8-aligned 64-byte UDS partition followed by four 8-byte FE partitions the generated seed, digest and marker offsets are the flow's addresses |
| `OtpLayout.EmitItems` | hw-model/build.rs:197-215 | the loop emits each item's constant and its aliases at the item's offset, or stops at the first size that does not parse |
| `OtpLayout.EmitPartition` | hw-model/build.rs:188-245 | the running offset after a partition is the layout's end, with the same panics in the same order |
| `OtpLayout.GenerateOffsets` | hw-model/build.rs:176-252 | the generated constants are those of the layout, in order, and the generator panics exactly where the layout has an error |
| `LayoutOutput.PlaceOutcome` | hw-model/build.rs:196-240 | one partition: each panic exactly in its case, in the order looked for, and otherwise the declared or the occupied size |
| `LayoutOutput.LayoutOutcome` | hw-model/build.rs:188-240 | the generator panics exactly at the first partition that cannot be placed |
| `LayoutOutput.ConstantsDescribeLayout` | hw-model/build.rs:188-246 | the generated constants are exactly each partition's start and size and, under the item's name and its aliases, the start of each item's interval |
| `LayoutOutput.ParsesDecimal` | hw-model/build.rs:254-261 | the decimal numeral of a 64-bit number parses to that number, a larger one does not parse |
| `LayoutOutput.OnlyNumeralsParse` | hw-model/build.rs:254-261 | nothing but digits after an optional sign parses |
| `LayoutOutput.ConstNameOf` | hw-model/build.rs:263-273 | letters become capitals, digits stay, everything else becomes an underscore |
| `Checksum.CalcChecksum` | api/src/checksum.rs:8-19 | the two wrapping loops compute the negated sum of command and data bytes modulo 2^32 |
| `Checksum.ChecksumLaw` | api/src/checksum.rs:4-6 | a checksum verifies exactly when it and all the bytes add up to zero modulo 2^32 |
| `Checksum.DetectsOneByte` | api/src/checksum.rs:8-19 | changing any one data byte changes the checksum, for data of any length |
| `MailboxWire.UnpackPack` | api/src/mailbox.rs:6085-6147 | packing bytes into words and unpacking them is the identity for every length |
| `MailboxWire.PackWord` | api/src/mailbox.rs:6134-6139 | word i of the FIFO holds bytes 4i to 4i+3, least significant first |
| `MailboxWire.PaddingIsZero` | api/src/mailbox.rs:6140-6145 | the unused bytes of the last word are zero |
| `MailboxResponse.PopulateChecksum` | api/src/mailbox.rs:364-368 | the first word becomes the checksum of the rest, which is unchanged |
| `MailboxResponse.PopulateResponse` | api/src/mailbox.rs:643-664 | writes the checksum of the partial response exactly when the partial length is valid and holds a header; otherwise nothing changes |
| `MailboxResponse.PopulateSeals` | api/src/mailbox.rs:643-664 | writing the checksum keeps the partial length, and what is then sent verifies |
| `MailboxResponse.PartialIsHeaderAndData` | api/src/mailbox.rs:333-352 | the partial bytes are the header followed by the data, and both views fail together |
| `MailboxResponse.VarSizeRoundTrip` | api/src/mailbox.rs:328-352 | a header that carries the data's length, then the data, then anything, is read back as exactly that data |
| `MailboxResponse.PreparedIsAccepted` | api/src/soc_mgr.rs:321-349 | a populated response of acceptable length and FIPS status passes all checks and comes back zero-padded |
| `MailboxResponse.AcceptOutcome` | api/src/soc_mgr.rs:321-349 | exactly when a response is refused for its length, its checksum or its FIPS status, in this order, and what is returned otherwise |
| `MailboxResponse.OneByteIsRejected` | api/src/soc_mgr.rs:334-340 | a message that differs from a populated one in exactly one position fails the checksum |
| `Mailbox.Registers.Lock` | sw-emulator/lib/periph/src/mailbox.rs:308-321 | assumed: reading LOCK as 0 acquires it, unless the reads are filtered |
| `Mailbox.Registers.SetExecute` | sw-emulator/lib/periph/src/mailbox.rs:367-400 | assumed: only the owner's write has an effect; lowering EXECUTE releases the mailbox |
| `Mailbox.WriteFifo` | api/src/mailbox.rs:6120-6147 | refuses an oversized buffer before any write; otherwise the length, then exactly the packed words, are written |
| `Mailbox.ReadFifo` | api/src/mailbox.rs:6085-6111 | reads ceil(dlen/4) words into the first dlen bytes and leaves the rest of the buffer alone; a short buffer is refused untouched |
| `Mailbox.Loopback` | api/src/mailbox.rs:6085-6147 | what is written to the FIFO is read back, and the FIFO is empty afterwards |
| `SocManager.StartMailboxExec` | api/src/soc_mgr.rs:224-247 | the exact accesses and outcome for every owner and payload; when EXECUTE rises the microcontroller finds the command and the whole payload; an oversized payload keeps the acquired lock |
| `SocManager.StartDiscipline` | api/src/soc_mgr.rs:229-246 | every write of a start happens under the lock, and EXECUTE rises once, last, exactly on success |
| `SocManager.StartSequence` | api/src/soc_mgr.rs:229-246 | event by event: without the lock nothing is written; with it the command once, then, unless the payload is oversized, its length once, words that unpack to the payload, and EXECUTE once and last |
| `SocManager.Poll` | api/src/soc_mgr.rs:253-261 | the loop ends, after exactly as many delays as the status stayed busy, or with a timeout at the limit |
| `SocManager.PolledOnce` | api/src/soc_mgr.rs:253-261 | the statuses determine the number of delays |
| `SocManager.DelayBoundIffPositive` | api/src/soc_mgr.rs:254-260 | at most `MAX_WAIT_CYCLES` delays for every microcontroller, exactly when that constant is positive |
| `SocManager.FinishMailboxExec` | api/src/soc_mgr.rs:249-289 | result, accesses, buffer and ownership for every status; the mailbox is released unless polling times out or the status is unknown |
| `SocManager.FinishSequence` | api/src/soc_mgr.rs:253-289 | event by event: a status read and a delay per busy poll, two more status reads, the response only if it is ready and fits, and EXECUTE lowered last unless the status is unknown |
| `SocManager.FinishOutcome` | api/src/soc_mgr.rs:253-289 | the answer for every status, and a timeout exactly after `MAX_WAIT_CYCLES` busy polls (2^32 of them if that is zero) |
| `SocManager.ReadResponse` | api/src/mailbox.rs:6069-6083 | the response length and bytes, or no FIFO read at all when the buffer is too small |
| `SocManager.MailboxExec` | api/src/soc_mgr.rs:213-221 | the accesses of the whole exchange; timeout, unknown status and oversized payload are exactly the outcomes that leave an acquired mailbox owned |
| `SocManager.ExchangeCounts` | api/src/soc_mgr.rs:213-289 | a started exchange makes at most the allowed delays and lowers EXECUTE exactly once on every failure, complete and data-ready path, including a too-small buffer, and never otherwise |
| `SocManager.SealedRequest` | api/src/soc_mgr.rs:308-314 | the request that is sent carries the checksum of its command and payload, and the payload is unchanged |
| `SocManager.MailboxExecReq` | api/src/soc_mgr.rs:294-350 | the microcontroller receives the request with its checksum, and the typed result is the acceptance of the response bytes, with every error path |
| `SocManager.PreparedResponseArrives` | api/src/soc_mgr.rs:294-350 | a populated response delivered through the FIFO in time is returned zero-padded |
| `SocManager.CorruptedResponseIsRefused` | api/src/soc_mgr.rs:334-340 | the same response with any one byte changed on the way is refused for its checksum |
| `Der.TwoByteLength` | common/src/x509.rs:184-187 | the bitwise or of the length bytes is their sum plus four, exactly 256 less when the carry meets an odd high byte |
| `Der.GetTbsResult` | common/src/x509.rs:162-192 | for outer and TBS lengths in any of the short, 0x81 and 0x82 forms of section 8.1.3 of ITU-T X.690 the result is the TBS encoding, except, if and only if the carry is lost, exactly 256 bytes short |
| `FipsSlice.RefinesConcatenation` | common/src/verifier.rs:62-98 | succeeds exactly when the range starts inside the image, fits and has no component boundary strictly inside, and is then that slice of the concatenation |
| `FipsSlice.WrappedRangeFails` | common/src/verifier.rs:73-91 | a range whose end wraps around 32 bits always fails |
| `CmacKdf.CmacKdf` | drivers/src/cmac_kdf.rs:41-85 | the output is K(1)..K(rounds) of the counter mode, then zeroes; over-long input, bad round counts and engine errors are reported in that order |
| `CmacKdf.PrfInputBytes` | drivers/src/cmac_kdf.rs:61-77 | the input of round i is the four-byte counter i, most significant byte first, the label and, with a context, a zero byte and the context |
| `CmacKdf.BigEndianValue` | drivers/src/cmac_kdf.rs:62-65 | the counter's bytes, most significant first, have the counter's value |
| `CmacKdf.OutputWord` | drivers/src/cmac_kdf.rs:79-82 | block i of the output is the MAC of round i + 1, and the words after the last round are zero |
| `CmacKdf.BlocksPrefix` | drivers/src/cmac_kdf.rs:59-83 | more rounds only extend the derived key |
| `CmacKdf.LabelIsFixedInput` | drivers/src/cmac_kdf.rs:31-34 | without a context the label is the whole fixed input: label, zero byte and context passed as one label give the same key |

## Left out

- Request and response structs, command codes and their byte-view matches in `api/src/mailbox.rs`: tables.
- Cryptographic engines: SHA-256, the fuse digest and CMAC are arbitrary functions; the key argument of the KDF is part of the CMAC function.
- ELF parsing, file system, network, git and process plumbing: the parser's segments and symbols, cargo's output and file access are parameters; that a cargo run which reports success has written every requested binary is assumed (`World.Honest`).
- BuildCache.Step: panics of a build thread and the mutex poisoning they cause are not modelled, nor are lock fairness and the error text.
- RomImage.Elf2Rom: does not model overflow of a 64-bit `offset + length`; such a segment cannot lie inside the file or the ROM, so it never leads to success.
- OtpLayout.Layout: does not model overflow of the running 64-bit offset, nor the text format of the generated constants (they are name/value pairs).
- OtpController.Dai: the status register is reduced to the configured idle bit, and the register addresses of the DMA accesses are not modelled. The software emulator's digest command, which accepts only the UDS base and moves the seed to a register, is not the one modelled.
- UdsFeFlow.RunFlows: the history holds the fuses after every command; power loss in the middle of one fuse command is not modelled.
- Mailbox.Registers: the microcontroller's response is fixed when EXECUTE rises, and interrupts and the unlock register are not modelled.
- SocManager.MailboxExecReq: the lengths and checksums that the error values carry as text are not modelled.
- Control-flow-integrity laundering, zeroization of stack copies and console output.
- The other functions of `common/src/x509.rs`, `common/src/verifier.rs`, `api/src/soc_mgr.rs` and the drivers: accessors, driver dispatch or single checks.
