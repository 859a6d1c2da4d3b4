# Persistent state of the engine-control firmware, verified

The firmware answers packets over a serial link. This project models the part of it that keeps state correct across
commands, power loss and time, and proves what that part promises:

- **Bytes, checksums, framing** (`Bytes`, `Crc`, `Framing`, `Payloads`, `Parity`, `KnownAnswers`): the byte codecs,
  built on the reflected CRC-32 (section 8 of RFC 1952) and the 16-bit frame check (section C.2 of RFC 1662, stored
  high byte first), each written as its bit recurrence. Error detection is proved from the recurrence: one step is
  injective because the reflected polynomial has its top bit set, so a window of differing bytes no wider than the
  register always changes the sum. A step of the 16-bit check also keeps parity, so no odd number of wrong bits goes
  unnoticed.
- **Versioned page store** (`StoredImage`, `Migration`, `ConfigStore`, `ImportMeaning`, `StoredPages`): RAM pages
  against generation-counted flash slots with two checksums, a decoded copy cached beside each raw image, migration on
  import.
- **Firmware update** (`BootAuth`, `FlashUpdate`, `FlashRuns`, `FlashAnswers`, `FlashRecovery`, `AuthRuns`): ordered
  blocks into a bounded buffer, sparse checkpoints that survive a reboot, verify, complete, and a timed health window
  that commits or rolls back between two banks. `BootAuth` and `FlashUpdate` hold the operations on the firmware's
  fields; the others prove what holds over every run of packets, clock readings and reboots.
- **Pin assignments** (`PinAssignments`, `PinPages`, `PinRuntime`): the validated set of pins kept as a cache of page 3.
- **Logs and nonces** (`LogStore`, `PageCrypto`, `NonceRuns`): a log cut into 256-byte blocks, and the nonce counter
  of encrypted reads, recorded in the last bytes of page 9.
- **Tick machines** (`Tcu`, `TcuRuns`, `RotationalIdle`, `TriggerModel`, `TriggerWaveform`).

Operations that update fields in the firmware are methods of classes. Each is proved equal to a function of the old
state, and the properties of runs are lemmas about those functions. Fields that change together are kept in one record
that the methods update statement by statement. Clocks are parameters in nanoseconds; ciphers, tags and signatures are
verdicts passed in. A branch the firmware cannot reach is kept and shown dead. What each answer means, and each table
and layout, is stated a second time without the functions the methods are proved equal to: the lemmas called
`...Exactly` and those of `KnownAnswers`.

## What turned out false, and when it holds

- *The active bank survives.* docs/UPDATE-LIFECYCLE.md asks for stored metadata with the last good bank. The code stores
  none: a reboot starts on bank A. `FlashRuns.RebootForgetsACommit` is a run that loses a commit, and
  `FlashRuns.BankChangesExactly` says exactly when the active bank changes.
- *Burned pin assignments survive a power cycle.* A boot replaces page 3, in RAM and in flash, by the default
  assignments. Assignments burned to page 3 survive a reboot if and only if they are the default ones
  (`PinRuntime.BurnedPinsSurviveExactly`), after every reboot RAM page 3 and its flash image decode to the defaults
  (`PinRuntime.RebootRestoresTheDefaults`), and `PinRuntime.RebootForgetsABurnedAssignment` is a run that loses one.
- *A page reaches flash only when it is burned.* A boot, and a read that persists the nonce counter, commit whatever the
  host has written to page 9, but for the record: `PageCrypto.NoncePageReachesFlashExactly`.
- *Three wrong responses lock the bootloader for a minute.* The lockout lives in fields that a reboot clears. Four
  failures with no entry between them are sure to take a minute if and only if no reboot lies between them
  (`AuthRuns.MinuteIsKeptExactly`); `AuthRuns.RebootForgetsTheLockout` is a run of 15 seconds for every placement of a
  reboot, and `AuthRuns.ResponseIsWeighedExactly` says exactly when a response counts.
- *Every log can be read back.* The block count is cut to 16 bits. `LogStore.DownloadIsComplete`: the download is the
  log if and only if the log is at most 65535 blocks long; of a log of 65536 blocks nothing is served
  (`LogStore.LongLogIsUnreadable`).
- *Nonces never repeat.* `NonceRuns.NoncesIncreaseExactly` is the exact condition over every run, with any host
  writes, damage, reboots and failed encryptions: between each two nonces that follow each other the counter does not
  wrap, and the record or seed found by the last reboot between them starts it above. So they strictly increase while
  the record in page 9 is left alone and no read takes the largest counter (`PageCrypto.NoncesIncrease`).
  `PageCrypto.OverflowRepeatsANonce` and `PageCrypto.OverwritingTheRecordRepeatsANonce` are runs that break either; a
  host that burns another page 9 leaves the next boot on a fresh nonce exactly when the last sixteen bytes of that
  page are a record less than a stride behind the last nonce used, or are no record and the seed is beyond it
  (`PageCrypto.BurnedPageIsFreshExactly`).
- *The window expires after 30 seconds.* Each packet drops the fraction of a millisecond it has waited.
  `FlashRuns.RollbackTiming` gives the exact condition and the bound of one millisecond a packet; a host that polls
  every half millisecond keeps the window open for ever (`FlashRuns.WindowNeedNotExpire`).
- *A packet or an image is read back.* Only up to 8192 payload bytes for a packet
  (`Framing.RecoveredExactlyUpToMaxPayload`), 65535 and a known format version for a stored image
  (`StoredImage.RecoveredExactly`) and 65535 for a page payload (`Payloads.PageRoundTrip`); in each case if and only if.
- *The check of a packet catches every corruption of two neighbouring bytes.* Across its seam with the last covered byte
  one pattern escapes and no other (`Framing.SeamCorruptionIsRejectedExactly`); it has an even number of bits, as
  `Parity.OddCorruptionIsRejected` demands.
- *A request the transmission unit takes is acknowledged.* Exactly when none of 5, 7 and 11 divides its counter and no
  tick bites it up to age 36: the link stays up, the receive stream is fresh from age 10 on and the transmit stream from
  age 14 on (`Tcu.AcknowledgedExactly`). In the firmware, which counts
  the samples up by one, a stale stream never spares a short request: it is acknowledged exactly when none of the 17
  samples after the one that starts it is stale (`TcuRuns.CountingAcknowledgedExactly`), and the sixth request after
  power-up is lost (`TcuRuns.SixthRequestIsLost`).

docs/UPDATE-LIFECYCLE.md says migrators run at startup and lists a PendingCommit step; the code migrates when an image
is imported and never enters PendingCommit (`FlashRuns.InvariantHolds` includes this).

## Model

| member | source | states |
|---|---|---|
| Crc.FeedInjective | src/config.rs:754-773 | feeding the same bytes from two different registers leaves two different registers, for both widths |
| Crc.DetectsBurst | src/protocol.rs:199-240 | two byte strings of one length that differ only inside a window no wider than the register have different sums, wherever the window is |
| KnownAnswers.CheckValue32 | src/config.rs:754-773 | the CRC-32 of the digits 1 to 9 is CBF43926 |
| KnownAnswers.CheckValue16 | src/protocol.rs:199-211 | the 16-bit sum of the digits 1 to 9 is 906E |
| KnownAnswers.PingOnTheWire | src/protocol.rs:199-211 | a Ping is the bytes 53 54 00 00 01 D7 45 |
| KnownAnswers.CommandsExactly | src/protocol.rs:103-186 | a command byte is known exactly if it is one of the listed codes |
| Framing.ToBytes | src/protocol.rs:199-211 | the pushes produce magic, length cut to 16 bits, command, payload and sum high byte first |
| Framing.RecoveredExactlyUpToMaxPayload | src/protocol.rs:213-240 | a packet is parsed back, with its exact length consumed, if and only if its payload has at most 8192 bytes |
| Framing.EncodeParsed | src/protocol.rs:213-240 | any packet parsed from bytes encodes to exactly the bytes consumed |
| Framing.RefusedExactly | src/protocol.rs:213-240 | what is waited for and each error of a parse exactly when: magic, length, check value, command |
| Framing.StrictPrefixIsIncomplete | src/protocol.rs:213-240 | every strict prefix of one encoded packet asks for more bytes and is never an error |
| Framing.StreamRoundTrip | src/protocol.rs:199-240 | parsing the concatenation of any packets, followed by an unfinished rest, gives exactly those packets and that rest |
| Framing.ParseAllConserves | src/protocol.rs:213-240 | for any stream, the packets recovered encode to what was consumed and nothing is lost |
| Framing.CorruptionIsRejected | src/protocol.rs:213-240 | any corruption of one byte from offset 4 on, or of two neighbouring bytes on one side of the sum, is refused |
| Framing.SeamCorruptionIsRejectedExactly | src/protocol.rs:213-240 | corruption across the last covered byte and the high byte of the sum fails the check unless it is 0x91 in the one and 0x85 in the other, and that pattern passes in every packet with a payload |
| Parity.OddCrc16 | src/protocol.rs:199-211 | the 16-bit sum of any bytes has their parity |
| Parity.OddCorruptionIsRejected | src/protocol.rs:213-240 | a packet that differs from a good one in an odd number of bits, wherever they lie from offset 4 on, fails the check |
| Payloads.EncodePage | src/protocol.rs:1826-1833 | the pushes produce the layout of a page payload |
| KnownAnswers.PageOnTheWire | src/protocol.rs:1826-1833 | the bytes of one page payload |
| KnownAnswers.LogBlockOnTheWire | src/protocol.rs:1966-1974 | the bytes of one log block answer |
| Payloads.PageRoundTrip | src/protocol.rs:1866-1888 | a page payload is read back if and only if it has at most 65535 bytes, else refused |
| Payloads.PageBytesOfDecoded | src/protocol.rs:1866-1888 | any page payload that decodes encodes to the bytes it came from |
| Payloads.PageCorruptionIsRejected | src/protocol.rs:1866-1888 | corruption in a window of up to four bytes on one side of the header, from offset 1 on, is refused |
| Payloads.LogBlockRoundTrip | src/transport.rs:2145-2164 | a log block answer is read back with index, total and data |
| Payloads.LogBlockBytesOfDecoded | src/protocol.rs:1966-1999 | any log block answer that decodes encodes to the bytes it came from |
| StoredImage.RecoveredExactly | src/config.rs:512-596 | the very header and payload are read back if and only if the payload has at most 65535 bytes and the format version is at most 1, and no other input gets even its payload back |
| StoredImage.EncodeDecoded | src/config.rs:512-596 | any bytes that decode are reproduced exactly by encoding the result |
| StoredImage.CorruptionIsRejected | src/config.rs:538-596 | corruption inside any window of up to four bytes, anywhere in an image, to anything else, makes decoding fail |
| StoredImage.WrongByteIsNamed | src/config.rs:538-596 | a single wrong byte is answered with the error of the field it lies in: magic, format version, length, payload sum, and the image sum for the rest |
| StoredImage.LongPayloadIsCut | src/config.rs:512-536 | of a payload longer than 65535 bytes the first 65535 are read back |
| KnownAnswers.ImageInFlash | src/config.rs:512-536 | the bytes of one stored image |
| Migration.MigrateToCurrent | src/config.rs:668-740 | the two loops end, missing-migrator and later length errors never occur, and the steps counted are target minus stored version |
| ImportMeaning.ForwardUpgrades | src/config.rs:611-652 | byte for byte what migration does: page 0 from schema 0 gets the magic STC2 and a version of at least 1, page 3 from format 0 has STP3 replaced by STIO and a version of at least 1, and nothing else changes |
| ImportMeaning.ImportOfAnyImage | src/config.rs:220-282 | how importing any encoded image turns out: the errors in their order, or the upgraded payload at the image's generation with the version steps counted |
| ImportMeaning.ImportedPinsReadTheSame | src/config.rs:634-652 | an imported legacy pin page decodes to the assignments it held |
| Migration.ForwardIsIdempotent | src/config.rs:611-652 | migrating what migration produced, from any version, changes nothing |
| ConfigStore.ConfigStore.NewZeroed | src/config.rs:188-202 | a new store is clean: every slot decodes to its zeroed page |
| ConfigStore.ConfigStore.ImportPersistedPageImage | src/config.rs:220-282 | an error changes nothing; success makes RAM, cached copy and raw image the same migrated payload at the imported generation |
| ConfigStore.ImportSucceedsExactly | src/config.rs:220-282 | an import succeeds exactly for the bytes that encoding some payload of the page's length, as that page and at known versions, produces |
| ConfigStore.ImportIsIdempotent | src/config.rs:220-282 | an import keeps length and generation, reports exactly the version differences as steps, and importing its result reports no migration |
| ConfigStore.ConfigStore.WritePage | src/config.rs:284-294 | a write changes that RAM page only, and only at its exact length |
| ConfigStore.ConfigStore.BurnPage | src/config.rs:296-316 | a burn changes that slot only, to the slot that holds the RAM page at the next generation |
| ConfigStore.BurnRaisesTheGeneration | src/config.rs:296-316 | a burn stores the RAM page one generation on, from 0 and up to the last, and counts one more erase |
| ConfigStore.BurnedIsRecoverable | src/config.rs:296-316 | what is burned decodes back to the RAM page and leaves the page clean |
| ConfigStore.ConfigStore.BurnAllDirty | src/config.rs:318-332 | exactly the dirty pages are burned, once each, their number is returned, and no page is dirty after |
| ConfigStore.ConfigStore.RestorePageFromFlash | src/config.rs:334-350 | a restore copies the cached payload, and fails without one |
| ConfigStore.ConfigStore.PageHeader | src/config.rs:352-363 | of a clean page the committed header is answered, of a dirty one the header its next burn commits |
| ConfigStore.StagedHeaderIsTruthful | src/config.rs:352-363 | a clean page's staged header is the committed one; a dirty page's is, field for field, the one the next burn commits |
| ConfigStore.ConfigStore.DamageFlash | src/config.rs:444-456 | replacing a raw image by bytes that do not decode keeps the cached copy the decode of the raw bytes |
| BootAuth.BootAuth.Try | src/transport.rs:2411-2469 | one attempt to enter the bootloader: lockout, rate limit, challenge, then tag, in that order |
| AuthRuns.FailuresAreSpaced | src/transport.rs:1432-1478 | over any run of packets and reboots, failures since power-up or the last entry come in threes, five seconds apart within a group and a minute between groups, and the fields say where the last one stands |
| AuthRuns.OutcomeIsAnswered | src/transport.rs:2411-2469 | the reply on the wire is the one of the outcome these results speak of |
| AuthRuns.EveryAttemptIsAnsweredExactly | src/transport.rs:2411-2469 | each of the six replies exactly when: locked out, too soon, wrong length, no tag to be had, no challenge or wrong tag, and otherwise accepted |
| AuthRuns.WaitIs | src/transport.rs:260-262 | the wait after a failure is a minute after every third one and five seconds after the others |
| AuthRuns.ResponseIsWeighedExactly | src/transport.rs:1442-1454 | a response is weighed exactly when five seconds have passed since the last failure of this power-up, or a minute if that was the third of its group, and otherwise locked out exactly after a third |
| AuthRuns.FourFailuresTakeAMinute | src/transport.rs:1432-1478 | any four failures with no reboot and no entry between them take at least a minute, whatever else is sent |
| AuthRuns.MinuteIsKeptExactly | src/transport.rs:1260-1264 | four failures with no entry between them are sure to take a minute if and only if no reboot lies in any gap |
| AuthRuns.RebootForgetsTheLockout | src/transport.rs:1260-1264 | for every placement of at least one reboot there is a run with four failures in 15 seconds |
| AuthRuns.PendingExactly | src/transport.rs:2405-2469 | a challenge is pending exactly when one was issued and no reboot, accepted completion, weighed response of the right length or lockout came since |
| AuthRuns.GrantedOnlyOnFreshChallenge | src/transport.rs:2411-2469 | entry is granted exactly for a matching response of the right length, sent when one is due, to a challenge that is still pending |
| FlashUpdate.FlashRuntime.constructor | src/transport.rs:1193-1305 | a power-up keeps only the store |
| FlashUpdate.FlashRuntime.HandlePacket | src/transport.rs:2007-2680 | a packet first ticks the health window and then has exactly the effect and the reply of its command |
| FlashUpdate.FlashRuntime.TickHealthWindow | src/transport.rs:1608-1627 | a tick takes the whole milliseconds of the gap off the window and moves the clock forward |
| FlashUpdate.FlashRuntime.ConfirmPendingUpdate | src/transport.rs:1592-1606 | a confirmation commits the pending bank of an open window and otherwise changes nothing |
| FlashUpdate.FlashRuntime.Resume | src/transport.rs:2470-2505 | a resume restores the checkpoint, and without one changes nothing |
| FlashUpdate.FlashRuntime.AcceptBlock | src/transport.rs:2506-2543 | a block is taken only as the next one and within the bounds, and withdraws a verification |
| FlashUpdate.FlashRuntime.Verify | src/transport.rs:2544-2635 | verification of the bytes received; one that fails leaves an earlier one standing |
| FlashUpdate.FlashRuntime.Complete | src/transport.rs:2636-2666 | completion of an unchanged verified image opens the window and clears transfer and checkpoint |
| FlashRuns.BlockAcceptedExactly | src/transport.rs:2506-2543 | a block is accepted if and only if the session is active and it is the number of blocks accepted so far followed by 1 to 1024 bytes that fit into 2 MiB; those are appended, and otherwise only the window ticks |
| FlashRuns.BlockRefusedExactly | src/transport.rs:2506-2543 | each refusal of a block exactly when |
| FlashRuns.VerifyAcceptedExactly | src/transport.rs:2544-2635 | a verification is accepted if and only if the session is active, the image not blank, and the payload one of six lengths whose CRC is the image's, tag matches and signature holds, with a signature if one is required |
| FlashRuns.VerifyRefusedExactly | src/transport.rs:2544-2635 | each refusal of a verification exactly when |
| FlashRuns.ResumeAcceptedExactly | src/transport.rs:2470-2505 | a resume is accepted if and only if the session is active and the payload names the checkpoint's session or none; the answer is the session, the number of blocks behind the checkpoint and their CRC |
| FlashAnswers.EveryBlockWasBrought | src/transport.rs:2506-2543 | in every reachable state each block held or checkpointed was brought by an acknowledged packet that carried the block's own number |
| FlashAnswers.AcknowledgedIsNumbered | src/transport.rs:2506-2543 | over every run an acknowledged block carries the number of blocks accepted before it |
| FlashAnswers.CheckpointExactly | src/transport.rs:1492-1511 | the checkpoint is the first block until there are eight and then the largest multiple of eight, with its number, sum and bytes |
| FlashAnswers.SessionBegins | src/transport.rs:1539-1551 | an entry starts an empty session with the next number and gives up the update |
| FlashAnswers.RefusedEntryKeeps | src/transport.rs:2411-2469 | an entry not granted leaves transfer, update and checkpoint |
| FlashAnswers.IdRepeatsExactly | src/transport.rs:1480-1486 | of the session numbers given out after one, that one comes back exactly every 4294967295th time |
| FlashAnswers.NewSessionIsNotTheCheckpointsExactly | src/transport.rs:1480-1486 | over every run a new session's number differs from the checkpoint's unless the numbers have gone all the way round, which takes as many events |
| FlashAnswers.CompleteAcceptedExactly | src/transport.rs:2636-2666 | a completion is accepted exactly in Verified; it opens a window of 30000 ms for the other bank with the image as candidate and clears session, checkpoint and challenge |
| FlashAnswers.TickMeaning | src/transport.rs:1608-1627 | a tick takes the whole milliseconds off an open window or rolls back to the active bank, counting the rollback |
| FlashAnswers.ConfirmAcceptedExactly | src/transport.rs:1592-1606 | a confirmation is accepted exactly in a window its tick has not used up, and makes the other bank active and last good |
| FlashAnswers.BootExactly | src/transport.rs:1193-1305 | what a boot starts with: bank 1, nothing in hand, and the session count of the checkpoint |
| FlashRuns.InvariantHolds | src/transport.rs:1480-1627 | in every reachable state, across reboots and resumes: the buffer is the accepted blocks, the checkpoint a block boundary at most seven behind with its own sum, the session active exactly in Receiving or Verified, active bank equal to last-good and A exactly for an even number of commits since power-up, a bank pending and time remaining exactly in HealthWindow |
| FlashRuns.CompletionNeedsOnlyVerified | src/transport.rs:2636-2661 | blocks times 1024 bounds the buffer, the block counter never saturates, and completion is accepted exactly in Verified, so both refusals of a changed image are unreachable |
| FlashRuns.ReplayAppends | src/transport.rs:2506-2543 | numbered blocks that fit, each sent at its own time, are appended, all of them and in order |
| FlashRuns.ReEntered | src/transport.rs:2405-2469 | after a power loss a host gets back into a session at any time, with or without authentication, and the checkpoint is kept |
| FlashRuns.ResumeRebuildsTheTransfer | src/transport.rs:1492-1537 | resuming with no id or the right one, before or after a power loss, is answered with the number and sum of the blocks kept, at most seven fewer, and sending the blocks from that number on rebuilds the identical buffer, counter and session |
| FlashRecovery.TryKeeps | src/transport.rs:1492-1537 | an attempt to recover, broken off by power loss before or after re-entry or anywhere among the blocks sent again, leaves a checkpoint of the same transfer in the same session |
| FlashRecovery.InterruptedRecoveryRebuildsTheTransfer | src/transport.rs:1492-1537 | after any number of such attempts, one that gets through rebuilds the identical buffer, counter and session |
| FlashRuns.VerifiedOrigin | src/transport.rs:2544-2635 | whatever is Verified was verified by a successful FlashVerify and has not been touched since |
| FlashRuns.WindowOrigin | src/transport.rs:1572-1581 | an open window was opened by a completion of a verified image and carries that image's sum and size |
| FlashRuns.CommitProvenance | src/transport.rs:1592-1606 | while powered, the active bank changes only at a confirmation inside an unexpired window whose candidate is the image of one transfer that passed every check of a FlashVerify after its last block |
| FlashRuns.BankChangesExactly | src/transport.rs:1539-1627 | the active bank changes exactly at an accepted confirmation or at a reboot while bank B is active |
| FlashRuns.RebootForgetsACommit | src/transport.rs:1193-1305 | a concrete run commits bank B and loses it at the next reboot |
| FlashRuns.RemainingIsWindowLessGaps | src/transport.rs:1608-1627 | the remaining time is 30000 less the whole-millisecond gaps since completion |
| FlashRuns.RollbackTiming | src/transport.rs:1608-1627 | a packet rolls back exactly when those gaps reach 30000: never before 30000 ms, always by 30000 ms plus one per packet |
| FlashRuns.FastPollingFreezesTheWindow | src/transport.rs:1608-1627 | packets less than a millisecond apart take nothing off an open window, however many there are |
| FlashRuns.WindowNeedNotExpire | src/transport.rs:1608-1627 | after any number of packets half a millisecond apart the window is open with all of its remaining time |
| PinAssignments.ValidateAssignmentSet | src/io.rs:235-295 | the loop stops at the first conflicting request with its error, or resolves all |
| PinAssignments.ValidateMeaning | src/io.rs:235-295 | validation accepts exactly the sets of admissible requests without two that share function, pin or exclusive resource, and resolves them in order |
| PinAssignments.ValidatePinExactly | src/board.rs:1830-1842 | a pin is accepted for a class exactly if the board has it, it is not reserved, offers the class and has a route for it; the errors likewise |
| PinAssignments.ResourceExactly | src/io.rs:393-397 | a pin takes the resource of its first route for the class, and none without one |
| PinAssignments.CheckRefusedExactly | src/io.rs:235-290 | which error a request is refused with, in the order of the tests |
| KnownAnswers.FunctionTable | src/io.rs:30-110 | code, class and fixed pin of each function |
| PinAssignments.ValidateIsIdempotent | src/io.rs:235-295 | validating the result again gives the same result |
| PinAssignments.ValidatedSetIsSafe | src/io.rs:235-295 | in a validated set functions, pins and exclusive resources are pairwise distinct and fixed functions sit on their fixed pins |
| PinPages.ApplyOverrides | src/io.rs:297-321 | the overrides are merged one by one and the whole is validated |
| PinPages.OverridesWin | src/io.rs:297-321 | untouched functions keep their pin, the last override of a function wins, and the order of the base is kept |
| PinPages.SerializeToPage | src/io.rs:323-347 | the pushed bytes are magic, version, count and entries, padded with zeros, or the page is too short |
| KnownAnswers.PinsInAPage | src/io.rs:323-347 | the bytes of a page with one assignment |
| PinPages.DeserializeFromPage | src/io.rs:349-391 | the moving offset reads exactly the counted entries, followed by zeros only, and validates them |
| PinPages.DecodesExactly | src/io.rs:349-389 | which bytes are a page, and of which requests: one of two magics, version 1, the number of entries, the entries, zeros; such a page decodes to what validating the requests gives, and anything else is refused |
| PinPages.ValidatedFits | src/io.rs:323-347 | a validated set has at most twelve entries and 78 bytes |
| PinPages.PageRoundTrip | src/io.rs:323-391 | every validated set serializes without overflow and is read back as the same list in the same order |
| PinPages.SerializeDecoded | src/io.rs:323-391 | serializing what a page decodes to gives that page back, under the current magic |
| PinPages.LegacyMagicReadsTheSame | src/io.rs:349-391 | a page under the old magic reads as under the new |
| PinRuntime.PinRuntime.constructor | src/transport.rs:1220-1234 | a boot puts the defaults in force, into RAM page 3 and into flash |
| PinRuntime.PinRuntime.PinAssign | src/transport.rs:2214-2247 | a pin-assign is refused whole or replaces assignments and page 3 together |
| PinRuntime.PinRuntime.WritePage | src/transport.rs:2336-2392 | a page write is refused, reloads the assignments, or puts the old page 3 back |
| PinRuntime.PinRuntime.BurnPage | src/transport.rs:2393-2404 | a burn commits the RAM page and leaves the assignments |
| PinRuntime.HandledAgrees | src/transport.rs:2214-2392 | every command keeps page 3 decoding to the assignments; a refused one changes nothing but, at most, the magic of page 3 |
| PinRuntime.WriteAcceptedExactly | src/transport.rs:2336-2392 | a write is acknowledged if and only if the page exists, the data has its length and, for page 3, decodes; then RAM holds it, slots are as before, and the answer says whether flash differs |
| PinRuntime.BurnAcceptedExactly | src/transport.rs:2393-2404 | a burn is acknowledged if and only if the page exists; then that slot alone changes, to the RAM page one generation on |
| PinRuntime.PinAssignStores | src/transport.rs:2214-2247 | an accepted pin-assign changes RAM page 3 alone, to the serialization of the new assignments |
| PinRuntime.RefusedExactly | src/transport.rs:2214-2404 | which commands are refused as malformed and which as a storage failure, and what a refusal keeps |
| PinRuntime.RunIsSafe | src/transport.rs:1315-1353 | after any run of commands and reboots the assignments are conflict-free and page 3 is their serialization, but for an old magic |
| PinRuntime.PinAssignMeaning | src/transport.rs:1315-1331 | a pin-assign is accepted exactly for a nonempty list whose merge has no conflict, and then gives every function its last override or its old pin |
| PinRuntime.BurnedPinPageReadsBack | src/transport.rs:2393-2404 | until the next boot the flash image of a burned page 3 decodes to the assignments in force |
| PinRuntime.RebootRestoresTheDefaults | src/transport.rs:1220-1234 | after any run a reboot leaves the default assignments in force, in RAM page 3 and in the image of flash page 3 |
| PinRuntime.BurnedPinsSurviveExactly | src/transport.rs:1220-1234 | after any run, assignments burned to page 3 survive a reboot if and only if they are the default ones |
| PinRuntime.RebootForgetsABurnedAssignment | src/transport.rs:1220-1234 | a run on a board of two pins in which an accepted and burned assignment is gone after the reboot |
| LogStore.LogStore.LogStart | src/transport.rs:2062-2080 | a start forgets the old session and records the header line |
| LogStore.LogStore.AppendLogBytes | src/transport.rs:1689-1703 | bytes are appended while logging and ignored otherwise, and bytes written is the total below 4 GiB |
| LogStore.LogStore.LogStop | src/transport.rs:2081-2102 | a stop turns the staged rest into a last block and keeps what was recorded |
| LogStore.LogStore.ResetLogbook | src/transport.rs:2121-2130 | a reset is refused while logging and otherwise forgets the session |
| LogStore.LogStore.ReadLogBlock | src/transport.rs:2145-2164 | a request of two bytes is answered with that block, and the answer that a counted block is unavailable never occurs |
| LogStore.ServedIsRecorded | src/transport.rs:1681-1732 | every index below the count is served with exactly that 256-byte slice of the recorded bytes, every other is refused |
| LogStore.CountExactly | src/transport.rs:1681-1687 | how many blocks of 256 bytes are announced for a record of any length, logging or not, with the cut to 16 bits |
| LogStore.ServedExactly | src/transport.rs:2145-2164 | which requests are served and with what: the index, the count and 256 recorded bytes from 256 times the index on |
| LogStore.DownloadIsComplete | src/transport.rs:1681-1732 | reading all blocks gives back the recorded bytes if and only if they take at most 65535 blocks |
| LogStore.CollectedIsRecorded | src/transport.rs:1721-1732 | however the log grows between reads, what a host that always asks for the block it has not filled has collected is the beginning of what is recorded |
| LogStore.CaughtUpExactly | src/transport.rs:1721-1732 | after a read of a log no longer than 65535 blocks the host holds all of it exactly when it asked for the last block, and always when it got a short one or was refused |
| LogStore.ReadsBringBlocks | src/transport.rs:1721-1732 | while reads but the last find their blocks full, n reads bring exactly the first n blocks |
| LogStore.LongLogIsUnreadable | src/transport.rs:1681-1687 | a stopped log of 65536 blocks counts as none, and every index is refused |
| PageCrypto.PersistedIsRead | src/transport.rs:328-378 | a counter persisted into page 9 is the one read back |
| PageCrypto.StrideIs1024 | src/transport.rs:1210-1219 | a boot resumes 1024 beyond the record, stores that, and stores again 1024 reads later |
| PageCrypto.PersistsExactly | src/transport.rs:1361-1387 | a read takes one number and stores the next exactly when it has come to the mark |
| PageCrypto.RecordExactly | src/transport.rs:328-346 | what counts as a record: the last 16 bytes of a page are STNC, version 1, three bytes not looked at and the counter |
| PageCrypto.PersistedExactly | src/transport.rs:328-346 | the record is sought in flash, and in RAM only if the slot holds no valid image |
| KnownAnswers.RecordInFlash | src/transport.rs:348-378 | the bytes of a record at the end of page 9 |
| PageCrypto.PageCrypto.constructor | src/transport.rs:1210-1219 | a boot resumes one stride above the record, or at the seed, and persists that at once |
| PageCrypto.PageCrypto.ReadPage | src/transport.rs:1361-1387 | a read emits the counter, advances it, and persists it when a stride has been used |
| PageCrypto.NoncesIncrease | src/transport.rs:1361-1387 | over any boots, reads, failed encryptions and host commands that leave the record alone, emitted nonces strictly increase as long as no read takes the largest counter |
| PageCrypto.NoncesIncreaseWithinBudget | src/transport.rs:1361-1387 | that is so whenever 1024 for each reboot and one for each read fit between the first counter and the largest |
| PageCrypto.OverflowExactly | src/crypto.rs:115-126 | with a working cipher and the record left alone, nonces strictly increase if and only if no read but the last takes the largest counter |
| NonceRuns.NoncesIncreaseExactly | src/transport.rs:1361-1387 | over every run, nonces strictly increase if and only if between each two in a row the counter, counted up by failed reads from the first or from what the last reboot found stored, stays above the first |
| PageCrypto.NoncePageReachesFlashExactly | src/transport.rs:348-378 | flash slot 9 takes the RAM page at a burn, and all of it but the record at every boot and every read that persists; damage apart, no other event touches it |
| PageCrypto.OverflowRepeatsANonce | src/transport.rs:1210-1219 | started on the largest counter the firmware repeats it after a reboot, though nothing touches the record |
| PageCrypto.RebootIsFreshExactly | src/transport.rs:1210-1219 | after any run, a reboot and a read use a fresh nonce exactly when the stored record is less than a stride behind the last nonce, or there is none and the seed is beyond it |
| PageCrypto.BurnedPageIsFreshExactly | src/transport.rs:328-346 | the same condition on the last sixteen bytes of whatever page the host writes and burns |
| PageCrypto.OverwritingTheRecordRepeatsANonce | src/transport.rs:328-346 | a host that burns page 9 without the record makes the next boot repeat the first nonce |
| Tcu.ExternalTcuRuntime.Tick | src/tcu.rs:69-145 | a tick has exactly the effect of its branch and reports the state it leaves |
| Tcu.ExternalTcuRuntime.StepActiveShift | src/tcu.rs:168-220 | one step of an active request, with its faults in their order |
| Tcu.TickMeaning | src/tcu.rs:69-239 | a request ages by two, keeps timer plus age at 36 or 70, and ends at the age of its fate with that fate or sooner by a lost link or stale stream, and only then do the outcome counters move |
| Tcu.TickReports | src/tcu.rs:69-239 | state code, gear, hold and fault after a tick that is offline or ends a request |
| Tcu.RestExactly | src/tcu.rs:88-109 | with no request running the hold counts down, and what is reported is cleared exactly when it ends or at the first tick after an offline one whose hold had ended |
| Tcu.StartsExactly | src/tcu.rs:88-97 | a request starts exactly at samples one above a multiple of 30 that find the link up and the unit free |
| TcuRuns.CalendarExactly | src/tcu.rs:241-251 | which samples are offline and on which each stream is stale |
| Tcu.AcknowledgedFate | src/tcu.rs:191-219 | the fate of a counter is an acknowledgement, at age 36, exactly when it is divisible by none of 5, 7 and 11, and no fate is later than 62 |
| Tcu.RequestsAreConserved | src/tcu.rs:69-220 | requests started are those acknowledged, those faulted while active, and the active one |
| Tcu.CountersWrap | src/tcu.rs:151-239 | the one-byte counters are the true counts modulo 256 |
| Tcu.EndsInTime | src/tcu.rs:69-220 | whatever the ticks bring, a request ends within 31 ticks |
| Tcu.ActiveTick | src/tcu.rs:168-220 | a tick ends a running request exactly when it bites or the request comes to the age of its fate, and a bite is never an acknowledgement |
| Tcu.RunsExactly | src/tcu.rs:69-220 | a request still runs exactly while no tick has bitten and the age of its fate is ahead |
| Tcu.EndsExactly | src/tcu.rs:69-220 | a request ends at the first tick that bites or at the age of its fate, and nowhere else, with result 5 or that of its fate |
| Tcu.AcknowledgedExactly | src/tcu.rs:168-220 | whatever the ticks bring, a request that has just started is acknowledged if and only if none of 5, 7 and 11 divides its counter and none of the 17 ticks up to age 36 bites |
| Tcu.LostWithTheLink | src/tcu.rs:78-88 | fed sample 240 right after 31, which the unit accepts, it loses the first request with the link |
| Tcu.HarmlessStaleness | src/tcu.rs:180-189 | fed samples 170, 171 and 172 right after 31, the unit lets the first request outlive the stale receive stream |
| TcuRuns.CountingAcknowledgedExactly | src/transport.rs:1769-1778 | with samples counted up by one, a request is acknowledged if and only if none of 5, 7 and 11 divides its counter and none of the next 17 samples is offline or stale |
| TcuRuns.NextRequest | src/tcu.rs:69-145 | a request that meets its fate is followed by the next, started by the first request sample after the hold |
| TcuRuns.EarlyRequestsStart | src/tcu.rs:69-145 | from power-up the link comes up with sample 12 and requests 1 to 5 start with samples 31, 61, 91, 121 and 151 |
| TcuRuns.SixthRequestIsLost | src/tcu.rs:169-239 | from power-up the sixth request starts with sample 211 and is lost with sample 217 to the stale transmit stream, though none of 5, 7 and 11 divides 6 |
| Tcu.UndisturbedMeetsItsFate | src/tcu.rs:168-220 | a request that nothing bites ends exactly at the age of its fate with that result and fault |
| RotationalIdle.RotationalIdleRuntime.Tick | src/rotational_idle.rs:72-129 | a tick has exactly the effect of its branch on the fields and the histogram array, and returns them |
| RotationalIdle.AlwaysOk | src/rotational_idle.rs:72-187 | active implies armed, gate code 0, timer below 900 and a cut of 22 to 53 percent, and the timeout slot of the histogram is the timeout count |
| RotationalIdle.CutIsModerate | src/rotational_idle.rs:151-166 | the cut stays within 22 and 53 percent, so its clamp to 18 and 60 never acts |
| RotationalIdle.ActiveTimeIsBounded | src/rotational_idle.rs:72-187 | 900 times the timeouts is at most the active time, which is at most 900 times the activations, and the fields are those counts until they saturate |
| RotationalIdle.ActivationIsEarned | src/rotational_idle.rs:103-112 | an activation comes only on the tenth of ten consecutive ticks on which no gate held |
| RotationalIdle.ActivatesExactly | src/rotational_idle.rs:114-120 | at rest the delay grows by two at each ungated tick and falls to 0 at a gated one, and the tick that brings it to 20 activates |
| RotationalIdle.GateExactly | src/rotational_idle.rs:72-101 | the code of the first gate that applies, and that none does exactly when enabled, unprotected, in sync, hot enough and at low demand |
| RotationalIdle.ActiveMeansSafe | src/rotational_idle.rs:72-129 | after any run, an active or cutting controller was found so by the last tick |
| RotationalIdle.GateStops | src/rotational_idle.rs:170-187 | a gated tick stops the controller at once and reports the gate |
| RotationalIdle.HistogramCounts | src/rotational_idle.rs:170-177 | every slot of the histogram counts the ticks that ended at that gate, until it saturates |
| RotationalIdle.CutExtremes | src/rotational_idle.rs:151-166 | the least and the largest cut of each slot of the schedule |
| RotationalIdle.CutFollows | src/rotational_idle.rs:151-166 | a hotter exhaust or a lower demand never cuts less |
| RotationalIdle.ScheduleExactly | src/rotational_idle.rs:147-168 | an active tick takes the slot that moves every five samples through six, and cuts two cylinders in slots 0 and 3 and three in the others |
| RotationalIdle.SyncGuardsCount | src/rotational_idle.rs:80-98 | the guard total is the sum of the losses of sync at the ticks gated for one, until it saturates |
| RotationalIdle.TimesOutExactly | src/rotational_idle.rs:122-130 | the controller is stopped with code 8 exactly by the ungated tick that finds it active for 900 centiseconds |
| TriggerModel.SanitizersMeetTheModel | src/trigger_model.rs:59-123 | the sanitizers keep exactly the layouts the wheel models accept and only return such layouts, so the fallbacks are never taken |
| TriggerModel.SanitizedExactly | src/trigger_runtime.rs:619-630 | what the sanitizers make of values the models do not take |
| TriggerModel.SelectExactly | src/trigger_runtime.rs:483-591 | which trigger type selects which preset and mode |
| TriggerModel.DistributorExactly | src/trigger_runtime.rs:608-617 | which cylinders a distributor is taken for |
| TriggerModel.WrittenTriggerIsRead | src/trigger_runtime.rs:71-95 | the configuration written into any page 0 at its offsets is the one read from it |
| TriggerModel.DefaultExactly | src/trigger_runtime.rs:57-69 | a page that holds no configuration selects what power-up started with |
| TriggerModel.ProfileExactly | src/trigger_runtime.rs:248-357 | the profile of each kind of decoder |
| TriggerModel.CatalogueProfiles | src/trigger_runtime.rs:316-343 | the profile of the catalogue presets by trigger type |
| TriggerModel.EveryPage0IsDrawable | src/trigger_runtime.rs:248-357 | from any page-0 bytes the profile has at most two secondary events and a gap, of ratio 1.45 to 512, exactly for the missing-tooth decoders and the one catalogue entry with one |
| TriggerWaveform.TriggerRuntime.ApplyPage0Payload | src/trigger_runtime.rs:159-169 | a page 0, too short ones included, selects its decoder and a profile that can be drawn |
| TriggerWaveform.TriggerRuntime.AdvanceState | src/trigger_runtime.rs:221-242 | the counter follows the samples, and each sample counts as locked or, every 173rd, as a loss |
| TriggerWaveform.TriggerRuntime.BuildWaveform | src/trigger_runtime.rs:359-480 | the loops draw exactly the intervals, pulses, secondary events, reference and gap ratio of the profile, without a write out of bounds |
| TriggerWaveform.TriggerRuntime.TriggerCapture | src/trigger_runtime.rs:175-199 | in any state and at any tick the capture shows the profile in force and is decodable |
| TriggerWaveform.WindowBounds | src/trigger_runtime.rs:654-662 | the window of a four-stroke cycle lies between 125130 and 153846 microseconds |
| TriggerWaveform.WindowIsTwoRevolutions | src/trigger_runtime.rs:654-662 | the window is two revolutions at 780 rpm and up to 179 more |
| TriggerWaveform.JitterEvensOut | src/trigger_runtime.rs:375-381 | any seven teeth in a row add up to seven base intervals |
| TriggerWaveform.EventCountExactly | src/trigger_runtime.rs:372-373 | at least 6 and at most 96 teeth are drawn, and otherwise as many as the profile has |
| TriggerWaveform.PositionIsNearest | src/trigger_runtime.rs:419-424 | a pulse is drawn at the sample nearest to its share of 126 |
| TriggerWaveform.GapIsStretched | src/trigger_runtime.rs:384-390 | the gap tooth is the interval times the ratio, to the nearest microsecond |
| TriggerWaveform.SamplesExactly | src/trigger_runtime.rs:414-450 | sample by sample which are set: two at each primary pulse, and three at that of each secondary tooth |
| TriggerWaveform.SecondaryIndexesAre | src/trigger_runtime.rs:425-433 | one secondary event falls in the middle, two on the thirds |
| TriggerWaveform.PositionsAdvance | src/trigger_runtime.rs:407-423 | pulse positions are nondecreasing and end at sample 126 |
| TriggerWaveform.SecondaryIndexesAdvance | src/trigger_runtime.rs:425-436 | secondary indexes are strictly increasing and in range, so sorting and deduplication change nothing |
| TriggerWaveform.PictureIsDecodable | src/trigger_runtime.rs:359-480 | for every selectable profile and tick the reference tooth of a gap profile is the unique longest interval, pulses advance to the end, and secondary events are distinct teeth in order |
| TriggerWaveform.EveryPage0IsDecodable | src/trigger_runtime.rs:359-480 | for any bytes of page 0 and any tick the picture is decodable, with the reference at the unique longest tooth for every missing-tooth decoder and the one catalogue entry with a gap |

## Left out

- AES-GCM, Ed25519, and the derivation of keys, challenges and tags: their checks arrive as verdicts.
- Decoding the packet payloads of PinAssign, WritePage and BurnPage: commands arrive decoded; the UTF-8 check of pin
  ids is reported as an unknown pin.
- The board, pin and preset tables: the board is any table of pins with unique ids of at most four bytes; of the
  presets only what the profile reads is kept.
- One object for the whole runtime: its fields are split into classes by the group of commands that uses them, and
  fields of one group are kept in a record updated in place.
- FlashPageSlot: a value replaced in the list of slots rather than an object updated in place.
- Incremental vectors: the bytes pushed are sequences extended in place; aliasing of vectors does not arise in the
  original.
- PageCrypto.OverflowExactly: supposes that no encryption fails and nothing touches the record;
  `NonceRuns.NoncesIncreaseExactly` supposes neither.
- TcuRuns.CountingAcknowledgedExactly: leaves out requests that the 32-bit sample counter wraps in the middle of.
- TriggerWaveform.TriggerRuntime.BuildWaveform: ratios and positions are exact rationals rounded half up and the gap
  ratio is a real number, because there is no 32-bit floating point to round them with.
- RotationalIdle.RotationalIdleRuntime.Tick: temperatures, demands and the cut are real numbers, so values that are
  not numbers and the rounding of 32-bit floats are not modelled.
- Angles, spacings, labels and preset names of the trigger displays.
- The log over a reboot: it is in memory only and starts empty.
- Logbook totals, elapsed times and the text of log lines: lines are any bytes.
- The reload of the trigger decoder after page 0 is written or burned:
  `TriggerWaveform.TriggerRuntime.ApplyPage0Payload` models the reload itself.
- Live data, tables, directories, diagnostics, network profiles and the control loops for fuel, ignition, idle, boost
  and knock.
