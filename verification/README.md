# Gate firmware: a Dafny model

A gate controller on an ESP32 opens a solenoid lock when a guest types a nine-key code. Its decision
logic is pure C99, with no clock, no I/O and no allocation of its own, and this project models that
logic function by function and proves what the rest of the firmware, its headers and its design
notes rely on. `dafny verify dfyconfig.toml` checks everything.

Code that changes state in place is a class or a method with loops (`AccessContext`, `UiContext`,
`GateController`, `Eeprom`, `SyncContext`, `TgContext`, `LockMachine`, `LockPin`, `KeypadMachine`, `Display`,
the record encoders, the CRC, the parsers' cursors). Each method is proved equal to a function of the
old state, and the theorems are lemmas about those functions over every input or every run.

## The five parts

- **Crash-safe storage** (`Bytes`, `Bits`, `Crc16`, `CrcReference`, `PersistRing`, `PersistCodes`, `PersistStore`,
  `RingSafety`, `RingFailedRead`, `RingCut`, `CodeSafety`). The EEPROM is 4096 bytes. A page write is acknowledged, lands without
  being reported, does nothing, or leaves arbitrary bytes; a reset rediscovers everything from the
  bytes. The ring refines a journal of attempts, over whole runs; code slots keep their previous
  record through any cut; CRC-16 is shown to be a bijection per step, so no change within two
  adjacent bytes passes.
- **The decision path** (`AccessCore`, `AccessTable`, `TableFrames`, `Ui`, `UiTiming`, `GateCtrl`,
  `EntryBuffer`, `GateRuns`, `App`, `GuessBound`, `GuessEdges`). The slot table, the lockout, the screen machine, the typed buffer and the
  persistence wiring. The main theorem bounds guessing over runs that include power cycles, lost
  saves and a clock trusted or not, and goes through all of them and the ring.
- **Code delivery** (`Text`, `SyncParse`, `SyncSoundness`, `SyncRefusals`, `MakeSyncFile`,
  `SyncLogic`, `SyncInstall`, `SyncTiming`, `TgProto`, `TgRefusals`, `MakeTgLine`, `TgClient`, `Delivery`). Two signed-text parsers, the two
  Python tools that print what they read, the replace-the-whole-set protocol and the replay counter.
  The MAC is an arbitrary function from the signed text to 64 lowercase hex characters, which may
  fail on the device; the salted hash is an arbitrary function of the typed string.
- **Timing on a wrapping clock** (`Clock32`, `LockLogic`, `LockDuty`, `LockRequests`, `LockDriver`,
  `KeypadLogic`, `KeypadTrace`, `KeypadRelease`).
  Real time is a natural number of milliseconds; the code sees it modulo 2^32.
- **Fast forms** (`Calendar`, `Oled`). The day arithmetic of the RTC driver against counting years
  and months, and the display flush that sends only differing pages against one that sends all.

## Where the code says less than its comments

The model follows the code; each point is a lemma below.

- A partial write is said never to yield a wrong record. It does not if what is left fails its CRC;
  `RingSafety.TornPageExactly` and `PersistCodes.TornHalfExactly` give the exact conditions, and
  `RingCut.CutInBodyExactly` says which real cuts fail it.
- Ring writes rotate over 64 slots, not the 128 pages the header mentions (`RingSafety.AckedSavesRotate`).
- If the boot read of the ring fails, the next save starts over at slot 0 and number 1, and is found
  again only if no other slot holds a number above 1 (`RingFailedRead.FailedReadExactly`); with the
  newest record in slot 0 that record itself is lost (`RingFailedRead.FailedReadLosesNewest`). A save
  at sequence number 2^32 - 1 is not found again (`RingSafety.AckedSaveIsFound`).
- A torn page loses a whole record whose write was not reported, even when its CRC fails
  (`RingSafety.TornPageExactly`).
- A lockout deadline is saved in 32 bits (`GuessEdges.DeadlineSurvivesExactly`); at exactly 2^32
  guessing has no bound (`GuessEdges.NoBoundAtTheDeadline`). Each lost save can buy one more guess
  (`GuessEdges.LostSavesBuyGuesses`).
- Only the last slot holding a hash decides (`AccessTable.EarlierMatchIsShadowed`).
- Ids over eight characters are stored truncated and looked up whole, so a repeated push is not
  idempotent (`AccessTable.RepushIsIdempotent`), a revoke by the id pushed finds nothing
  (`AccessTable.RevokeFindsExactly`), and one by the stored id leaves a second copy
  (`AccessTable.RevokeLeavesNoneExactly`, `AccessTable.LongIdSurvivesRevoke`).
- A zero-length window passes the validation of a set and is then reported as overflow
  (`SyncInstall.EmptyWindowOverflows`). An equal generation is applied again when nothing has synced
  since boot (`SyncInstall.RefusedAltersNothing`, `SyncInstall.AppliedExactlyWhen`).
- An entry in progress is disturbed by losing clock trust and by a clock that steps back into a
  lockout, and by nothing else (`EntryBuffer.InvSurvivesExactly`): typed keys then stay in the buffer
  (`EntryBuffer.TrustWithdrawnMidEntry`, `EntryBuffer.StepBackStrandsKeys`) or are overwritten by a
  refused key (`EntryBuffer.StepBackOverwrites`).
- A sync older than an hour is flagged as stale, except for an hour in every 2^32 ms (`SyncTiming.StaleExactly`).
- A notice whose deadline wraps to zero stays up, and so does any notice at a tick more than half a
  clock turn late (`UiTiming.NoticeEndsExactly`, `UiTiming.NoticeStaysUp`); entries and polls have the
  same late blind spot (`UiTiming.LateTickKeepsEntry`, `SyncTiming.OverdueForgotten`).
- The courier's overflow test lets some twenty-digit numbers at or above 2^64 through, wrapped
  (`TgProto.U64MissesOverflow`, `TgProto.U64IsExact`), counters and times alike: a signed line can be
  accepted with another window (`MakeTgLine.AddWithAnotherEnd`).
- A refused lock request need not mean a running pulse or cooldown: after a pulse nobody ticked, the
  first request is refused however late it comes (`LockRequests.UntickedPulseRefuses`), and so is one
  more than 2^31 ms after a cooldown that nobody ticked out (`LockRequests.OldDeadlineRefuses`).
  `LockRequests.AcceptedExactly` says when a request is accepted.
- A key's release is missed if it had been pending for some milliseconds and the next scan comes a
  clock turn after it began (`KeypadRelease.ReleaseAWholeTurnLater`); `KeypadRelease.ReleasedExactly`
  says when it is accepted.
- A pulse ends for good only if no stall exceeds 2^32 ms less one pulse length
  (`LockDuty.PulsesEndExactly`). The output keeps its duty bound through any stall
  (`LockDuty.OutputDutyBound`), but only driver calls write it to the pin: the coil is not protected
  when nothing drives the machine (`LockDriver.StalledPinStaysHigh`), and is energised for at most a
  pulse and one stall otherwise (`LockDriver.PinReleasedExactly`, `LockDriver.PinDutyBound`).
- A time of nineteen digits above INT64_MAX, or of twenty characters with its sign, is printed by the
  set tool and refused by the device (`MakeSyncFile.PrintedTime`).

## Model

| member | source | states |
|---|---|---|
| RingSafety.RingCrashSafety | firmware/components/persist_store/persist_store.c:60-119 | From a blank chip, after any run of fewer than 2^32 saves (acknowledged, landed but unreported, untouched, or torn into something that does not decode), resets and changes above the ring, a reset loads the last acknowledged state or a later attempted one that landed whole; nothing is loaded only if nothing was ever acknowledged |
| RingSafety.LoadsNeverGoBack | firmware/components/persist_store/persist_store.c:60-119 | Of two resets in one run, the later loads a record with the same number or a higher one, written by the same attempt or a later one |
| RingSafety.RunRefines | firmware/components/persist_store/persist_store.c:60-119 | Along every such run the 64 pages and the cursor refine an abstract journal: the cursor record, at most one unreported newer record, all else older |
| RingSafety.JournalIsSafe | firmware/components/persist_store/persist_store.c:101-119 | The journal never falls behind the last acknowledged save and only points at records that landed whole |
| RingSafety.TornPageExactly | firmware/components/persist_store/include/persist_ring.h:15-17 | A torn page leaves what a reset finds as it was if and only if: on an empty ring, it does not decode; over a whole but unreported record, it decodes to that very record; otherwise, it does not decode, or decodes to an older number, or to an equal one later in scan order |
| RingSafety.AckedSavesRotate | firmware/components/persist_store/include/persist_ring.h:13-14 | n acknowledged saves leave the cursor at slot (n-1) mod 64 with number n, so writes wear the 64 slots evenly (the header says 128 pages) |
| RingSafety.AckedSaveIsFound | firmware/components/persist_store/persist_ring.c:80-114 | An acknowledged save is what the next reset finds if and only if the sequence number was not at 2^32 - 1 |
| RingFailedRead.FailedReadExactly | firmware/components/persist_store/persist_store.c:76-84 | For every chip: after a failed boot read and one acknowledged save, the next good boot finds that save if and only if no slot but the first holds a number above 1 |
| RingFailedRead.FailedReadHidesSave | firmware/components/persist_store/persist_store.c:76-119 | When the newest record is beyond slot 0 and number 1, the next good boot loads that older record instead |
| RingFailedRead.FailedReadLosesNewest | firmware/components/persist_store/persist_store.c:76-119 | When it is in slot 0, the save overwrites that very record and the next good boot goes back to a lower number |
| RingFailedRead.BlindRunExactly | firmware/components/persist_store/persist_store.c:76-119 | The same for up to 64 saves after a failed boot read: the next good boot finds the last of k if and only if no slot from k on holds a number above k |
| RingFailedRead.FailedReadAfterSaves | firmware/components/persist_store/persist_store.c:76-119 | What the next good boot loads after n acknowledged saves, a failed read and one more: the new state for n up to 1; the one before the newest when n mod 64 is 1, both the newest and the new one being lost; otherwise the newest, the new one being lost |
| RingCut.CutInBodyExactly | firmware/components/persist_store/include/persist_ring.h:15-17 | A write cut inside the covered bytes over a valid old record leaves a valid page if and only if the CRC register agrees over the new and the old bytes written so far |
| RingCut.CutAfterBody | firmware/components/persist_store/persist_ring.c:60-78 | A cut between the two CRC bytes is valid if and only if the old page holds the second one; a cut after them leaves the new record |
| RingCut.SmallCutIsRejected | firmware/components/persist_store/persist_ring.c:34-78 | A cut whose bytes so far differ from the old page only within two neighbouring bytes never decodes |
| RingCut.RepeatedStateCutIsSafe | firmware/components/persist_store/persist_ring.c:46-78 | A save that repeats the state it overwrites, its number changed in the low two bytes, leaves the old page or one that does not decode, wherever it is cut |
| RingSafety.BootFindsFirstNewest | firmware/components/persist_store/persist_ring.c:80-106 | A boot finds the first slot that carries the highest number, whatever else the ring holds |
| PersistRing.FindLatest | firmware/components/persist_store/persist_ring.c:80-106 | The scan loop computes the specification scan |
| PersistRing.ScanIsLatest | firmware/components/persist_store/persist_ring.c:80-106 | The scan reports the first slot carrying the highest sequence number, or nothing when no slot is valid |
| PersistRing.LatestUnique | firmware/components/persist_store/persist_ring.c:80-106 | That description has only one solution |
| PersistRing.Encode | firmware/components/persist_store/persist_ring.c:46-58 | The buffer filled in place is exactly the record image, unused bytes 0xFF |
| PersistRing.DecodeExact | firmware/components/persist_store/persist_ring.c:60-78 | A slot decodes to a record if and only if its first twenty bytes are the ones encoding that record writes |
| PersistRing.DecodeImage | firmware/components/persist_store/persist_ring.c:46-78 | What is encoded is what is decoded |
| PersistRing.DecodeRejectsPair | firmware/components/persist_store/persist_ring.c:34-78 | Altering a valid record within one byte or two adjacent bytes of the covered region always makes it invalid |
| Crc16.Compute | firmware/components/persist_store/persist_ring.c:34-44 | The byte and bit loops compute the specification CRC |
| Crc16.Absorb | firmware/components/persist_store/persist_ring.c:38-41 | Eight rounds of the inner loop are one step of the specification |
| Crc16.RoundsInjective | firmware/components/persist_store/persist_ring.c:39-41 | Each round, hence each step, is a bijection of the 16-bit state |
| Crc16.FoldInjective | firmware/components/persist_store/persist_ring.c:34-44 | Two registers that differ still differ after any common input |
| Crc16.TwoStepsInjective | firmware/components/persist_store/persist_ring.c:34-44 | From one state, two input bytes reach a state no other two bytes reach |
| Crc16.CrcDetectsPair | firmware/components/persist_store/persist_ring.c:34-44 | Two inputs that differ only within two adjacent bytes have different CRCs |
| Crc16.CrcDetectsPairInPrefix | firmware/components/persist_store/persist_codes.c:34-44 | The same when only a covered prefix of a record is compared |
| CrcReference.RoundDivides | firmware/components/persist_store/persist_ring.c:39-41 | For every register: one round is the shift, and the exclusive-or with 0x1021 when the top bit was set |
| CrcReference.StartAndInput | firmware/components/persist_store/persist_ring.c:36-38 | The register starts at 0xFFFF and a byte comes in at its top |
| CrcReference.CheckValue | firmware/components/persist_store/persist_ring.c:34-44 | The CRC of the one digit 1 is 0xC782, stored low byte first |
| Bytes.LittleEndian | firmware/components/persist_store/persist_ring.c:20-26 | A stored word has its lowest byte first |
| Bytes.GetPut32 | firmware/components/persist_store/persist_ring.c:20-32 | A stored word reads back as itself |
| Bytes.PutGet32 | firmware/components/persist_store/persist_ring.c:20-32 | And four stored bytes are the ones reading them back would store |
| PersistCodes.Encode | firmware/components/persist_store/persist_codes.c:46-66 | The 64-byte buffer is exactly the record image; a free slot carries nothing of the code it held |
| PersistCodes.DecodeImage | firmware/components/persist_store/persist_codes.c:46-92 | What is encoded is decoded, up to the forced NUL of the id and the erased fields |
| PersistCodes.DecodeRejectsPair | firmware/components/persist_store/persist_codes.c:34-92 | Altering a valid code record within one byte or two adjacent bytes of the covered region always makes it invalid |
| PersistCodes.WriteHalfIsNotRead | firmware/components/persist_store/persist_codes.c:94-141 | For every slot image and every pair of generations, wrap included, the half chosen for writing is not the one a load returns |
| PersistCodes.CompletedSaveIsRead | firmware/components/persist_store/persist_codes.c:94-141 | A completed save is what the next load returns, for every pair of generations, and the record it replaces is still in the other half |
| PersistCodes.SlotReadExactly | firmware/components/persist_store/persist_codes.c:94-141 | A load finds nothing if and only if neither half decodes; else a half the other is not ahead of, the second if neither is ahead; the first save goes to the first half as generation 1 |
| PersistCodes.TornHalfKeepsRecord | firmware/components/persist_store/include/persist_codes.h:16-20 | Whatever a cut save leaves in the half, if it does not decode the load is unchanged |
| PersistCodes.TornHalfExactly | firmware/components/persist_store/include/persist_codes.h:16-20 | The load is unchanged if and only if what is left does not decode, decodes to the same record, or does not overtake the kept one |
| PersistCodes.TwoErasesClearBoth | firmware/components/persist_store/include/persist_codes.h:55-56 | Two completed saves of a freed slot leave neither half holding a code |
| PersistCodes.TextOfIdBytes | firmware/components/persist_store/persist_codes.c:46-66 | An id survives its fixed-width, NUL-padded field |
| PersistCodes.Apply | firmware/components/persist_store/persist_codes.c:143-158 | A decoded occupied record replaces exactly the slot of its own index, as a stored code; anything else changes nothing |
| PersistStore.Eeprom.constructor | firmware/components/persist_store/persist_store.c:18-20 | The driver starts with no cursor and nothing found, over a chip that kept its bytes |
| PersistStore.Eeprom.Init | firmware/components/persist_store/persist_store.c:60-91 | Eight chunk reads then the scan; a failed read leaves the cursor at none |
| PersistStore.Eeprom.Load | firmware/components/persist_store/persist_store.c:93-99 | Returns what the boot scan found, if anything |
| PersistStore.Eeprom.RawWrite | firmware/components/persist_store/persist_store.c:44-58 | One page write changes only its page and is reported as success only when acknowledged |
| PersistStore.Eeprom.Save | firmware/components/persist_store/persist_store.c:101-119 | Writes the record to the next slot; the cursor moves only if the write was acknowledged |
| PersistStore.Eeprom.CodesLoad | firmware/components/persist_store/persist_store.c:123-149 | Each readable, occupied record goes back to its own index, every other slot is untouched, and the result counts them |
| PersistStore.Eeprom.LoadOne | firmware/components/persist_store/persist_store.c:129-146 | One turn of the load loop |
| PersistStore.Eeprom.CodesSave | firmware/components/persist_store/persist_store.c:151-194 | Two page writes to the half not in use; out-of-range and transient slots and failed reads write nothing |
| CodeSafety.SaveThenLoad | firmware/components/persist_store/persist_store.c:123-194 | Saving RAM slot i and loading restores it in slot i as non-transient if and only if its window fits 32 bits; a freed slot loads nothing |
| CodeSafety.SavedCodeIsStored | firmware/components/persist_store/persist_store.c:151-194 | After a completed save the chip holds exactly that code for the slot, for every earlier image and generation |
| CodeSafety.SaveFrame | firmware/components/persist_store/persist_store.c:151-194 | A save, however its two writes end, changes neither what any other code slot nor what the ring loads |
| CodeSafety.CutSaveKeepsCode | firmware/components/persist_store/persist_store.c:165-193 | Wherever a save is cut, if the half being written does not decode the slot loads what it loaded before |
| CodeSafety.CutSaveExactly | firmware/components/persist_store/persist_store.c:165-193 | However its writes end, a save leaves the newer record of its slot as it was if and only if the half being written does not decode, decodes to the same record, or does not overtake the kept one |
| CodeSafety.UntouchedSaveKeepsCode | firmware/components/persist_store/persist_store.c:165-193 | A save whose first write changes nothing changes nothing the slot loads, whatever the half held |
| CodeSafety.TransientWritesNothing | firmware/components/persist_store/persist_store.c:158-163 | A transient slot is reported as saved and writes nothing |
| CodeSafety.SaveSucceedsExactly | firmware/components/persist_store/persist_store.c:151-194 | Success is reported if and only if the code is transient, or the slot could be read and both pages were acknowledged, when the chip holds the code; a failed first page leaves the second alone, an unreadable slot is not touched |
| CodeSafety.LoadChangesExactly | firmware/components/persist_store/persist_store.c:123-149 | A load changes exactly the slots whose read succeeds and finds a code |
| CodeSafety.LoadCountIsSize | firmware/components/persist_store/persist_store.c:123-149 | The number a load reports is the number of slots it restores |
| CodeSafety.TwoSavesErase | firmware/components/persist_store/persist_store.c:151-194 | Two completed saves of an emptied slot leave both halves decoding as unoccupied, with no trace of the code |
| CodeSafety.PairAfterSave | firmware/components/persist_store/persist_store.c:165-193 | A save keeps one half as it was and, when both pages are acknowledged, puts the record in the other |
| CodeSafety.RestoredCodeOf | firmware/components/persist_store/include/persist_codes.h:68-74 | A slot survives the 32-bit record exactly when its window fits it |
| GuessBound.GuessesAreBounded | firmware/components/access_core/access_core.c:217-281 | From a fresh device, over any run of keys, ticks, trust given and withdrawn, table and chip-code changes and power cycles without a grant, whatever becomes of each save, at most maxFailed * (floor(T / lockSeconds) + 1) submissions end as unknown in T seconds of trusted time, plus one for each save not acknowledged |
| GuessEdges.BoundIsTight | firmware/components/access_core/access_core.c:217-281 | For every policy and number of lost saves some run attains that bound |
| GuessEdges.LostSavesBuyGuesses | firmware/main/app_main.c:115-127 | Any number of lost saves, each followed by a power cycle, buys as many extra guesses |
| GuessEdges.NoBoundAtTheDeadline | firmware/main/app_main.c:115-127 | In the second where a lockout would end at exactly 2^32, any number of wrong codes can be tried with every save acknowledged |
| GuessBound.PowerCycleForgetsNothing | firmware/main/app_main.c:115-143 | At every moment of such a run with no save lost, a power cycle would restore exactly the counter and the deadline in force, and count the boot |
| GuessBound.RunKeepsInv | firmware/main/app_main.c:115-143 | The invariant behind them: the count in memory and each record the chip could restore are paid for in full lockouts or lost saves |
| GuessBound.CycleRestores | firmware/main/app_main.c:202-223 | A boot puts back the counter and deadline of the latest record that landed whole, or zeros on a blank chip, and counts itself |
| GuessBound.BootsAreCounted | firmware/main/app_main.c:202-223 | While no save is lost, the boot count is one for the first boot and one more for each power cycle, modulo 2^32 |
| GuessEdges.DeadlineSurvivesExactly | firmware/main/app_main.c:115-127 | A power cycle right after a save restores the count and the deadline modulo 2^32, so the deadline survives if and only if it is a 32-bit number |
| GuessEdges.LateLockoutForgotten | firmware/main/app_main.c:115-127 | A lockout in force whose deadline is 2^32 or later, and at most 2^32 s away, is over after a power cycle |
| GuessBound.EvaluateStaysFair | firmware/components/access_core/access_core.c:217-281 | One evaluation charges at most one wrong code, and one that does changes the counter or the deadline |
| GuessBound.SaveStaysFair | firmware/main/app_main.c:115-127 | A save keeps what the chip could restore paid for |
| GuessBound.CountIsBounded | firmware/components/access_core/access_core.c:217-228 | The tally implies the bound |
| GuessBound.KeyedAccess | firmware/components/gate_ctrl/gate_ctrl.c:33-87 | A key either leaves the counter alone or ends in one evaluation of one hashed string, and asks for a save exactly when counter or deadline changed |
| AccessTable.RunKeepsOk | firmware/components/access_core/access_core.c:93-201 | From an empty table, any run of upserts, transient upserts, revokes, purges and installs with ids of at most 8 characters keeps occupied ids present and distinct and transient windows at most 900 s |
| AccessTable.RevokeLeavesNone | firmware/components/access_core/access_core.c:175-186 | After any such run, a revoke leaves no slot with that id |
| AccessTable.UpsertKeepsDistinct | firmware/components/access_core/access_core.c:93-125 | For ids of any length: ids stay distinct if and only if the id fits, or nothing is stored, or the truncated id is not already taken |
| AccessTable.RevokeFindsExactly | firmware/components/access_core/access_core.c:175-186 | A revoke by the id a code was just pushed under finds it if and only if the id has at most 8 characters |
| AccessTable.RevokeLeavesNoneExactly | firmware/components/access_core/access_core.c:175-186 | For every table and id: a revoke leaves no code with the id if and only if no two slots hold it |
| AccessTable.MissedRevokeChangesNothing | firmware/components/access_core/access_core.c:175-186 | A revoke succeeds if and only if some code has the id, and otherwise leaves the table as it was |
| AccessTable.LongIdSurvivesRevoke | firmware/components/access_core/access_core.c:18-26 | Witness: an id of nine characters pushed twice leaves a second copy behind after a revoke of what is stored |
| AccessTable.RepushIsIdempotent | firmware/components/access_core/include/access_core.h:110-114 | Pushing a stored code again changes nothing and answers the same slot if and only if the id has at most 8 characters |
| AccessTable.GrantExactly | firmware/components/access_core/access_core.c:230-281 | The door opens if and only if the clock is trusted, no lockout is in force and the highest-index occupied slot with that hash has now in its window |
| AccessTable.EarlierMatchIsShadowed | firmware/components/access_core/access_core.c:253-257 | A code inside its window is refused when a later slot repeats its hash with a window not yet open |
| AccessTable.GrantClears | firmware/components/access_core/access_core.c:275-280 | A grant names the matched slot and clears the counter and the deadline, nothing else |
| AccessTable.OutsideWindowExactly | firmware/components/access_core/access_core.c:264-273 | Not-yet and expired are answered exactly for a last match outside its window, and no refusal other than unknown charges an attempt |
| AccessTable.UnknownExactly | firmware/components/access_core/access_core.c:240-262 | An attempt is charged if and only if no occupied slot holds the hash, on a trusted clock and outside a lockout |
| AccessTable.RefusedExactly | firmware/components/access_core/access_core.c:240-251 | No-clock is answered if and only if the clock is not trusted, lockout if and only if it is and a lockout stands in the way |
| AccessTable.CostExactly | firmware/components/access_core/access_core.c:217-281 | What each verdict leaves behind: unknown adds one to the count, up to 255, and sets the deadline at the maximum; any other refusal at most clears a lockout that is over |
| AccessTable.LockoutLastsExactly | firmware/components/access_core/access_core.c:48-62 | A wrong code locks out exactly when it brings the count to the maximum; every code is then answered with lockout until exactly lockout_seconds later, when counter and deadline clear |
| AccessTable.RevokeTransientExactly | firmware/components/access_core/access_core.c:144-157 | Ends every dev code and no guest code; a second call changes nothing |
| AccessTable.PurgeExactly | firmware/components/access_core/access_core.c:188-201 | Empties exactly the slots whose window closed before now, and leaves every other as it is |
| TableFrames.RevokeTouchesOneSlot | firmware/components/access_core/access_core.c:175-186 | For every table and id, slot by slot: a revoke empties the first slot holding the id and leaves every other as it was |
| TableFrames.UpsertTouchesOneSlot | firmware/components/access_core/access_core.c:93-142 | An upsert of either kind writes exactly the slot it reports, the first holder or else the first free one, and is refused if and only if the id or the window is empty or there is no such slot |
| TableFrames.DevCodeIsShort | firmware/components/access_core/access_core.c:133-142 | A dev code ends as asked or 900 s after it opens, whichever is first; no other slot changes |
| TableFrames.CountIsSize | firmware/components/access_core/access_core.c:144-201 | The number a clearing reports is the number of slots it marked |
| AccessCore.CtEqual | firmware/components/access_core/access_core.c:9-16 | The constant-time comparison is equality |
| AccessCore.FindFrom | firmware/components/access_core/access_core.c:18-26 | The first occupied slot at or after an index with that id |
| AccessCore.FreeFrom | firmware/components/access_core/access_core.c:105-110 | The first free slot at or after an index |
| AccessCore.LastMatch | firmware/components/access_core/access_core.c:253-257 | The highest occupied slot below n with that hash |
| AccessCore.ClearedWhere | firmware/components/access_core/access_core.c:144-201 | Exactly the marked slots below n are emptied |
| AccessCore.AccessContext.constructor | firmware/components/access_core/access_core.c:28-37 | An empty table under the given policy, clock untrusted |
| AccessCore.AccessContext.RestoreAttempts | firmware/components/access_core/access_core.c:39-46 | Sets the counter and the deadline and nothing else |
| AccessCore.AccessContext.Tick | firmware/components/access_core/access_core.c:53-62 | Lifts a lockout that has run out, and its counter with it |
| AccessCore.AccessContext.Find | firmware/components/access_core/access_core.c:18-26 | The loop finds the first slot with the id |
| AccessCore.AccessContext.FindFree | firmware/components/access_core/access_core.c:105-110 | The loop finds the first free slot |
| AccessCore.AccessContext.Upsert | firmware/components/access_core/access_core.c:93-125 | Insert or replace by id, or refuse without change |
| AccessCore.AccessContext.UpsertGuest | firmware/components/access_core/access_core.c:127-131 | The same for a stored code |
| AccessCore.AccessContext.UpsertTransient | firmware/components/access_core/access_core.c:133-142 | The same for a dev code, its window clamped to 900 s |
| AccessCore.AccessContext.Revoke | firmware/components/access_core/access_core.c:175-186 | The table after a revoke and whether a code was found; that exactly one slot changes is `TableFrames.RevokeTouchesOneSlot` |
| AccessCore.AccessContext.RevokeTransient | firmware/components/access_core/access_core.c:144-157 | Empties exactly the transient slots and counts them |
| AccessCore.AccessContext.PurgeExpired | firmware/components/access_core/access_core.c:188-201 | Empties exactly the expired slots and counts them |
| AccessCore.AccessContext.RegisterFailure | firmware/components/access_core/access_core.c:217-228 | Counts a failure, saturating at 255, and sets the deadline at the maximum |
| AccessCore.AccessContext.Match | firmware/components/access_core/access_core.c:253-257 | The full scan finds the last matching slot |
| AccessCore.AccessContext.Evaluate | firmware/components/access_core/access_core.c:230-281 | The whole decision: new state, verdict and matched slot |
| EntryBuffer.DoorOpensExactly | firmware/components/gate_ctrl/gate_ctrl.c:33-121 | In every orderly run the door opens for an event if and only if it is the ninth accepted key of an entry, the clock is trusted, and the highest slot holding the hash of those nine keys has the time in its window; the caller is told that slot's id |
| EntryBuffer.NinthKeySubmits | firmware/components/gate_ctrl/gate_ctrl.c:59-87 | A key submits if and only if it is accepted as the ninth; what is evaluated is the hash of the nine keys, and none of them stays in the buffer |
| EntryBuffer.BufferIsTheEntry | firmware/components/gate_ctrl/gate_ctrl.c:33-121 | In every orderly run the buffer is exactly the keys of the current entry followed by zeros, and a lockout in force leaves nothing typed |
| EntryBuffer.HashedIsLastNineKeys | firmware/components/gate_ctrl/gate_ctrl.c:33-87 | Every string that reaches the hash is exactly the last nine accepted keys |
| EntryBuffer.RunKeepsInv | firmware/components/gate_ctrl/gate_ctrl.c:33-121 | The invariant behind both, over keys, long presses, ticks, trust changes, table changes and reboots |
| EntryBuffer.KeyKeepsInv | firmware/components/gate_ctrl/gate_ctrl.c:59-87 | One key keeps it and hashes nothing or the last nine keys |
| EntryBuffer.QuietKeepsInv | firmware/components/gate_ctrl/gate_ctrl.c:89-121 | Every other event keeps it and hashes nothing |
| EntryBuffer.TrustWithdrawnMidEntry | firmware/components/ui/ui.c:43-54 | Withdrawing clock trust keeps the invariant if and only if no entry is open: the entry is dropped, the buffer is not |
| EntryBuffer.InvSurvivesExactly | firmware/components/gate_ctrl/gate_ctrl.c:59-121 | The invariant survives an event if and only if the event is orderly: an open entry meets neither a clock stepped back into a lockout nor a loss of trust |
| EntryBuffer.RunInvExactly | firmware/components/gate_ctrl/gate_ctrl.c:33-121 | Over a whole run it holds after every event if and only if the run is orderly |
| EntryBuffer.ForwardRunIsOrderly | firmware/components/gate_ctrl/gate_ctrl.c:33-121 | A run whose wall clock never steps back, with no NUL key and no trust withdrawn mid-entry, is orderly |
| EntryBuffer.StepBackBreaks | firmware/components/gate_ctrl/gate_ctrl.c:59-121 | What a key, a long press or a tick leaves after such a step back |
| EntryBuffer.StepBackStrandsKeys | firmware/components/ui/ui.c:148-151 | A tick then forgets the entry's length and leaves its keys in the buffer and its screen up |
| EntryBuffer.StepBackOverwrites | firmware/components/gate_ctrl/gate_ctrl.c:59-87 | A key then is refused and still overwrites the last one typed |
| GateRuns.LongPressClears | firmware/components/gate_ctrl/gate_ctrl.c:89-100 | After a long press the screen is dark, nothing is counted as typed and every byte of the buffer is NUL, unless the clock is trusted and a lockout in force, when nothing changes; it never touches the attempt counter |
| GateRuns.HashedAfterLongPress | firmware/components/gate_ctrl/gate_ctrl.c:89-100 | Over every orderly run: a string hashed after such a long press is the last nine keys accepted since it |
| GateRuns.NothingCarriesOver | firmware/components/gate_ctrl/gate_ctrl.c:33-87 | From any moment without an open entry, the entry holds only keys accepted since |
| GateRuns.NinthKeyShowsVerdict | firmware/components/gate_ctrl/gate_ctrl.c:56-87 | The ninth key shows the notice of its verdict, or a dark screen when it starts a lockout |
| GateRuns.TickLiftsExactly | firmware/components/gate_ctrl/gate_ctrl.c:102-121 | A tick lifts a lockout, and asks for a save, if and only if the clock is trusted and the deadline has passed |
| GateRuns.TrustLost | firmware/main/app_main.c:164-168 | Losing trust darkens the screen and leaves the typed keys in the buffer |
| GateRuns.UntrustedStep | firmware/main/app_main.c:315-322 | Without trust no event opens, submits, hashes or saves anything, and a key shows the no-clock notice |
| GateRuns.BootedExactly | firmware/main/app_main.c:202-223 | For every chip, policy and outcome of the reads: both trust flags are what the clock check said, screen dark, nothing typed, buffer NUL; counter and deadline are those of a good read, else zero; after a failed ring read the table is empty and the chip untouched |
| GateRuns.BootBegins | firmware/main/app_main.c:315-321 | Every run from a boot is a run of `EntryBuffer` that begins with the verdict on the clock |
| GateRuns.UntrustedBootRefuses | firmware/main/app_main.c:322 | After a boot without a trusted clock, over every run until it is declared good, no event opens the door, hashes anything or changes counter or deadline |
| GateCtrl.GateController.constructor | firmware/components/gate_ctrl/gate_ctrl.c:21-31 | Keeps the two contexts and starts with a wiped buffer |
| GateCtrl.GateController.Wipe | firmware/components/gate_ctrl/gate_ctrl.c:8-14 | Every byte of the buffer becomes zero |
| GateCtrl.GateController.Submit | firmware/components/gate_ctrl/gate_ctrl.c:33-57 | Hashes the typed C string, evaluates, wipes, shows the result, and reports whether to open and to persist |
| GateCtrl.GateController.OnKey | firmware/components/gate_ctrl/gate_ctrl.c:59-87 | One key: buffer, screen, and a submission when the entry is complete |
| GateCtrl.GateController.OnLongPress | firmware/components/gate_ctrl/gate_ctrl.c:89-100 | The gate after a long press; `GateRuns.LongPressClears` says what that clears |
| GateCtrl.GateController.Tick | firmware/components/gate_ctrl/gate_ctrl.c:102-121 | Lifts lockouts, abandons stale entries, and asks for a save exactly when counter or deadline changed |
| Ui.UiContext.constructor | firmware/components/ui/ui.c:33-41 | Dark, empty, clock untrusted |
| Ui.UiContext.GoIdle | firmware/components/ui/ui.c:25-31 | Back to dark |
| Ui.UiContext.SetClockTrusted | firmware/components/ui/ui.c:43-54 | Losing trust abandons the entry |
| Ui.UiContext.OnKey | firmware/components/ui/ui.c:56-85 | One key press: count it, or say why not |
| Ui.UiContext.OnLongPress | firmware/components/ui/ui.c:87-94 | The screen after a long press, and whether the buffer is to be wiped; what that means is `GateRuns.LongPressClears` |
| Ui.UiContext.OnResult | firmware/components/ui/ui.c:96-139 | The notice for a verdict |
| Ui.UiContext.Tick | firmware/components/ui/ui.c:141-167 | Timeouts of entry and notice |
| UiTiming.EntryAbandonedExactly | firmware/components/ui/ui.c:141-167 | On a trusted clock outside a lockout, at any time: an entry is abandoned by a tick if and only if the tick does not read the deadline, ten seconds after the last key, as less than half a clock turn ahead |
| UiTiming.EntryAbandonedInTime | firmware/components/ui/ui.c:141-167 | So, up to half a clock turn later, if and only if ten seconds of real time have passed |
| UiTiming.LateTickKeepsEntry | firmware/components/ui/ui.c:153-160 | A first tick half a turn and a millisecond after the deadline leaves the entry open |
| UiTiming.NoticeEndsExactly | firmware/components/ui/ui.c:163-165 | Outside a lockout, at any time: a notice ends at a tick if and only if its deadline did not wrap to zero and the tick does not read it as less than half a clock turn ahead |
| UiTiming.NoticeEndsInTime | firmware/components/ui/ui.c:163-165 | So, up to half a clock turn later, if and only if its time is up and its deadline is not zero |
| UiTiming.NoticeStaysUp | firmware/components/ui/ui.c:163-165 | Both failing inputs: a deadline of zero at any tick, and any deadline at a tick half a turn and a millisecond late |
| UiTiming.NoticeTellsVerdict | firmware/components/ui/ui.c:96-139 | Each verdict has its own notice; only unknown and lockout share one, and in a lockout they darken the screen |
| UiTiming.NoClockNoticeEndsExactly | firmware/components/ui/ui.c:61-68 | Without a trusted clock, lockout or not, a key shows the no-clock notice, starts no entry, and the notice ends by the same exact condition after 3000 ms |
| UiTiming.LockoutFreezesScreen | firmware/components/ui/ui.c:69-72 | In a lockout on a trusted clock keys change nothing and a tick only forgets how many keys were typed |
| App.Application.PersistAttempts | firmware/main/app_main.c:115-127 | Writes counter, deadline cast to 32 bits, and boot count to the ring |
| App.Application.Handle | firmware/main/app_main.c:129-143 | Saves exactly when the event asked for it |
| App.Application.BootPersist | firmware/main/app_main.c:202-223 | Restores counter and codes from a good ring read, then records the boot; a failed read restores nothing |
| App.Application.constructor | firmware/main/app_main.c:315-321 | The state after the boot sequence as a whole; what it amounts to is `GateRuns.BootedExactly` |
| SyncSoundness.AcceptedExactly | firmware/components/code_sync/sync_parse.c:149-243 | A body is accepted as a set if and only if it is version line, this gate, generation, at most 8 valid code lines in order, end line, the MAC of everything before it, and only line ends after |
| SyncSoundness.AcceptedIsSigned | firmware/components/code_sync/sync_parse.c:149-243 | Acceptance gives that shape, with the entries in order |
| SyncSoundness.SignedIsAccepted | firmware/components/code_sync/sync_parse.c:149-243 | And that shape is accepted |
| SyncSoundness.SignedIsRead | firmware/components/code_sync/sync_parse.c:149-243 | An authenticated body is read line by line, whatever its lines say |
| SyncSoundness.TruncatedMeansNoMarker | firmware/components/code_sync/sync_parse.c:225-243 | The final truncated return is unreachable: the answer always means there was no end marker |
| SyncRefusals.TruncatedExactly | firmware/components/code_sync/sync_parse.c:157-170 | Truncated is answered if and only if a body of the right size holds no end marker |
| SyncRefusals.BadMacExactly | firmware/components/code_sync/sync_parse.c:171-190 | Bad MAC if and only if the text up to the first marker cannot be signed, or what follows the word mac is not its MAC and line ends |
| SyncRefusals.OnlyAuthenticIsRead | firmware/components/code_sync/sync_parse.c:173-243 | Any other answer than format, truncated and bad MAC comes from the signed lines of an authentic body, and from nothing else |
| SyncRefusals.HeaderRefusals | firmware/components/code_sync/sync_parse.c:193-218 | Version is answered if and only if the first line names another one, wrong gate if and only if the second names another gate |
| SyncRefusals.FirstOddLineDecides | firmware/components/code_sync/sync_parse.c:225-243 | After a good header and up to eight good code lines the next line decides: end closes the set, no code line is a format error, a ninth is one too many, a bad one is a bad line |
| SyncSoundness.NeverRunsOff | firmware/components/code_sync/sync_parse.c:225-243 | With an end line ahead the code loop never runs off the end |
| SyncSoundness.RegionShape | firmware/components/code_sync/sync_parse.c:165-171 | The region up to the first marker ends in its only end line |
| SyncSoundness.FirstMarkerIsLast | firmware/components/code_sync/sync_parse.c:165-171 | In a signed text the first marker is the one at its end, whatever follows |
| SyncSoundness.CodesAccepted | firmware/components/code_sync/sync_parse.c:225-243 | What an accepted run of code lines must have looked like |
| SyncSoundness.StripsTo | firmware/components/code_sync/sync_parse.c:183-190 | Trailing line ends are stripped and nothing of the MAC |
| SyncParse.ParseI64 | firmware/components/code_sync/sync_parse.c:44-66 | The digit loop with its overflow guard computes the exact value or refuses |
| SyncParse.ParseCodeLine | firmware/components/code_sync/sync_parse.c:99-147 | The field loop and the four checks compute the entry or refuse |
| SyncParse.FindMarker | firmware/components/code_sync/sync_parse.c:165-171 | The search finds the first end marker |
| SyncParse.Strip | firmware/components/code_sync/sync_parse.c:183-190 | Strips all trailing line ends |
| SyncParse.NextLine | firmware/components/code_sync/sync_parse.c:80-90 | The line at the cursor and where the next one starts |
| SyncParse.TakeLine | firmware/components/code_sync/sync_parse.c:80-90 | The cursor walks the lines of the region one by one |
| SyncParse.ParseSet | firmware/components/code_sync/sync_parse.c:149-243 | The whole parser computes the specification: verdicts and contents |
| SyncParse.ParseRegion | firmware/components/code_sync/sync_parse.c:192-243 | The header lines in order |
| SyncParse.ParseCodes | firmware/components/code_sync/sync_parse.c:225-243 | The loop over code lines |
| SyncParse.PrefixTooBig | firmware/components/code_sync/sync_parse.c:56-61 | Refusing at the first overflow is refusing every longer number |
| MakeSyncFile.SetRoundTrip | tools/make_sync_file.py:48-64 | For a one-line gate id of at most 32 characters and backend ids, the printed body parses to exactly that generation and those entries in order if and only if the generation is in 0..INT64_MAX, there are at most 8 codes, and every window is upright with times above -10^18 and at most INT64_MAX |
| MakeSyncFile.PrintSet | tools/make_sync_file.py:48-64 | The loop, the join and the signature print that body; a bad id prints nothing |
| MakeSyncFile.PrintedTime | tools/make_sync_file.py:58 | A printed time is read back if and only if it fits nineteen characters and 64 bits |
| MakeSyncFile.CodeLineIsRead | tools/make_sync_file.py:58 | A printed code line is read back as its entry if and only if its window is good |
| MakeSyncFile.BodyFits | tools/make_sync_file.py:48-64 | Every good body fits the 2048 bytes the parser takes |
| MakeSyncFile.ReadMeansGood | tools/make_sync_file.py:48-64 | If the lines are read as any set, everything in them was good |
| SyncLogic.IdIsBackend | firmware/components/code_sync/sync_logic.c:48-65 | Exactly eight lowercase hex characters |
| SyncLogic.IdIsDev | firmware/components/access_core/access_core.c:159-173 | The console's own test answers yes for exactly the ids delivery refuses, so the two sets cannot overlap |
| SyncLogic.SyncContext.constructor | firmware/components/code_sync/sync_logic.c:5-13 | Holds the stored generation, nothing synced yet, a poll due now |
| SyncLogic.SyncContext.ScheduleNext | firmware/components/code_sync/sync_logic.c:23-26 | The next poll is a period away, modulo 2^32 |
| SyncLogic.SyncContext.NoteUnchanged | firmware/components/code_sync/sync_logic.c:38-46 | Counts as a successful sync |
| SyncLogic.SyncContext.Apply | firmware/components/code_sync/sync_logic.c:67-126 | Generation order, validation before any change, replacement of the guests, and the five outcomes; that the sync is noted and the next poll scheduled is `SyncTiming.AnswerIsNoted` |
| SyncLogic.SyncContext.AllValid | firmware/components/code_sync/sync_logic.c:88-98 | The validation loop checks every entry |
| SyncLogic.SyncContext.Clear | firmware/components/code_sync/sync_logic.c:100-109 | Exactly the guest slots are freed |
| SyncLogic.SyncContext.Fill | firmware/components/code_sync/sync_logic.c:111-119 | Entries are upserted in order and any refusal is remembered |
| SyncInstall.InstallIsHistoryFree | firmware/components/code_sync/sync_logic.c:67-126 | Two tables that agree on the transient slots answer alike and, once a set is in, hold the same codes in the same slots |
| SyncInstall.AppliedMeansExactlyTheSet | firmware/components/code_sync/sync_logic.c:99-125 | When transient ids are never backend ids, after applied the guests are exactly the set, the last entry winning for a repeated id, and transient slots are untouched |
| SyncInstall.AppliedExactlyWhen | firmware/components/code_sync/sync_logic.c:67-126 | Applied if and only if the set is acceptable and fits; overflowed if and only if acceptable and not fitting, a zero-length window counting as not fitting |
| SyncInstall.RefusedExactlyWhen | firmware/components/code_sync/sync_logic.c:67-98 | The exact conditions for unchanged, stale and bad entry |
| SyncInstall.OverflowedKeepsWhatFits | firmware/components/code_sync/sync_logic.c:111-125 | After an install that overflows the guests are exactly the entries that found room, in order, the last winning for a repeated id |
| SyncInstall.FittingIsFilled | firmware/components/code_sync/sync_logic.c:111-119 | Filling with a set is filling with its entries that fit, none of which is refused |
| SyncInstall.InstallLeavesNoTrace | firmware/components/code_sync/sync_logic.c:103-109 | A guest slot left free by a new set keeps neither id nor hash |
| SyncInstall.EmptyWindowOverflows | firmware/components/code_sync/sync_logic.c:91-119 | One code with an empty window sent to an empty table is reported as overflow |
| SyncInstall.FillFitsExactly | firmware/components/code_sync/sync_logic.c:111-119 | A validated set fits if and only if no window is empty and its distinct ids plus the transient codes are at most five |
| SyncInstall.RefusedAltersNothing | firmware/components/code_sync/sync_logic.c:70-97 | A refused or unchanged set alters no slot; an equal generation can alter one only when nothing has synced since boot |
| SyncInstall.GenerationNeverDecreases | firmware/components/code_sync/sync_client.c:154-163 | Over deliveries, failed polls and resets that reload flash, the held generation never goes down |
| SyncInstall.OldSetStaysOut | firmware/components/code_sync/sync_logic.c:80-85 | A captured older set can never touch the table again |
| SyncTiming.DueExactly | firmware/components/code_sync/sync_logic.c:15-36 | After a poll, answered or not, at any time: the next reads as due if and only if the time past fifteen minutes, modulo 2^32 ms, is under half a clock turn |
| SyncTiming.DueInTime | firmware/components/code_sync/sync_logic.c:15-36 | So, for half a clock turn from then, if and only if fifteen minutes of real time have passed |
| SyncTiming.OverdueForgotten | firmware/components/code_sync/sync_logic.c:15-21 | Half a clock turn after falling due, a poll not made reads as not due |
| SyncTiming.StaleExactly | firmware/components/code_sync/sync_logic.c:128-134 | A sync reads as stale if and only if the time since it, modulo 2^32 ms, exceeds an hour |
| SyncTiming.StaleForgets | firmware/components/code_sync/include/sync_logic.h:76-78 | So 2^32 ms after the last answer it reads as fresh again |
| SyncTiming.AnswerIsNoted | firmware/components/code_sync/sync_logic.c:67-134 | Through the whole install: after applied, overflowed or unchanged at real time t the next poll is due exactly from t + 15 min, for half a clock turn, and the sync is stale exactly after an hour, for a whole one |
| SyncTiming.AgainIsUnchanged | firmware/components/code_sync/sync_logic.c:77-80 | The same set delivered again at any later time is answered as unchanged and leaves the table as it is |
| SyncTiming.StartIsDue | firmware/components/code_sync/sync_logic.c:5-21 | At boot a poll is due at once, for half a clock turn, and the sync counts as stale |
| SyncInstall.LastFor | firmware/components/code_sync/sync_logic.c:111-119 | The last entry for an id |
| SyncInstall.FillGives | firmware/components/code_sync/sync_logic.c:111-119 | After a fill without refusal the guests are exactly the entries |
| TgProto.AcceptedExactly | firmware/components/tg_client/tg_proto.c:80-193 | A line is accepted as a message if and only if it is seven good fields, the MAC of exactly their join, one separator between, and at most 256 bytes |
| TgProto.AcceptedIsMonotone | firmware/components/tg_client/tg_proto.c:144-148 | A higher held counter only refuses more, and what it accepts is above it |
| TgRefusals.SignatureFirst | firmware/components/tg_client/tg_proto.c:113-193 | Version is answered for another version and bad MAC for a wrong one; every other answer about the fields means the signature was right |
| TgRefusals.ThenTheFields | firmware/components/tg_client/tg_proto.c:138-193 | For a signed line, exactly when each of replay, bad operation, bad id, bad digest, format, window and acceptance is answered; a revoke looks at nothing after the id |
| TgRefusals.OtherShapesAreRefused | firmware/components/tg_client/tg_proto.c:94-120 | Any line that is not eight fields within 256 characters is a format error |
| TgProto.U64IsExact | firmware/components/tg_client/tg_proto.c:46-64 | Below 2^64 the value is exact; a larger accepted value is always wrong |
| TgProto.U64MissesOverflow | firmware/components/tg_client/tg_proto.c:56-59 | 3 * 10^19 does not fit and is accepted as another number |
| TgProto.ReadDigit | firmware/components/tg_client/tg_proto.c:52-61 | One digit of the loop, with its wrapping overflow test, against the value of the whole number |
| TgProto.ParseU64 | firmware/components/tg_client/tg_proto.c:46-64 | The digit loop computes exactly what the overflow test lets through |
| TgProto.ParseI64 | firmware/components/tg_client/tg_proto.c:66-78 | Sign and range on top of it |
| TgProto.ParseLine | firmware/components/tg_client/tg_proto.c:80-193 | The whole parser computes the specification: verdicts in order and contents |
| TgProto.ReadFields | firmware/components/tg_client/tg_proto.c:138-192 | The checks after authentication, in order |
| MakeTgLine.CourierRoundTrip | tools/make_tg_line.py:89-130 | A request with a backend id, numbers that fit and an upright window is printed, within the device's limit; and any printed line is accepted as what was asked for if and only if its counter and times fit 64 bits and its counter is above the one held |
| MakeTgLine.PrintedLineReads | tools/make_tg_line.py:96-130 | What the device reads from every line the tool prints, whatever the numbers |
| MakeTgLine.ReadsItselfExactly | firmware/components/tg_client/tg_proto.c:46-78 | A printed number is read as itself if and only if it fits |
| MakeTgLine.AddWithAnotherEnd | firmware/components/tg_client/tg_proto.c:56-59 | A signed add with an end of 22 * 10^18 is printed and accepted with another end |
| MakeTgLine.LineFits | tools/make_tg_line.py:96-125 | A line whose numbers fit always fits the device's buffer |
| MakeTgLine.PrintedCounter | tools/make_tg_line.py:107 | How any printed counter reads back, and as itself below 2^64 |
| MakeTgLine.PrintedTime | tools/make_tg_line.py:107-108 | How any printed time reads back, and as itself within 64 bits |
| TgClient.CountersRise | firmware/components/tg_client/tg_client.c:241-328 | Accepted counters strictly increase over any run of batches and resets |
| TgClient.RedeliveryIsHarmless | firmware/components/tg_client/tg_client.c:241-328 | A batch delivered before, delivered again at any later point, changes neither table nor counter |
| TgClient.SeenBatchTakesNothing | firmware/components/tg_client/tg_client.c:241-328 | Any courier whose counter is at or above the one a batch led to takes nothing from it |
| TgClient.BatchRises | firmware/components/tg_client/tg_client.c:241-328 | Within a batch accepted counters rise and the held one is the last of them |
| TgClient.RefusedChangesNothing | firmware/components/tg_client/tg_client.c:297-311 | A refused or ignored update changes neither table nor counter |
| TableFrames.TakenExactly | firmware/components/tg_client/tg_client.c:293-320 | An update is taken if and only if it carries a text of fewer than 256 characters that is a signed line of seven good fields |
| TableFrames.CourierTouchesOneSlot | firmware/components/tg_client/tg_client.c:222-238 | A courier add writes one guest slot with what the line says, a revoke empties one, and every other slot is as it was |
| TgClient.UpdatesIsSize | firmware/components/tg_client/tg_client.c:264-281 | The number of updates consumed is the number of elements with an id |
| TgClient.OffsetIsHighest | firmware/components/tg_client/tg_poll.c:94-102 | The offset ends at the highest update id seen, accepted or not |
| TgClient.TgContext.constructor | firmware/components/tg_client/tg_client.c:411-450 | Starts from the stored counter and offset |
| TgClient.TgContext.Apply | firmware/components/tg_client/tg_client.c:222-238 | An add upserts, a revoke removes; nothing else in the table context changes |
| TgClient.TgContext.HandleBody | firmware/components/tg_client/tg_client.c:241-328 | The loop computes the specification of a batch and counts the updates it consumed |
| TgClient.TgContext.HandleOne | firmware/components/tg_client/tg_client.c:268-319 | One turn: consume, parse, apply, and only then move the counter |
| Delivery.PrintedSetIsInstalled | tools/make_sync_file.py:48-64 | A printed set delivered to its gate is installed as it stands |
| Delivery.SetCodeOpensInWindow | firmware/components/code_sync/sync_logic.c:99-125 | Once a set is in, a code on it opens the door exactly during its own window, provided no slot further up repeats its hash |
| Delivery.AbsentCodeIsUnknown | firmware/components/code_sync/sync_logic.c:99-101 | A code left out of the set is revoked: its hash is unknown |
| Delivery.PrintedLineIsApplied | tools/make_tg_line.py:96-130 | A printed courier line above the held counter lands in the table: an add stores the code, a revoke leaves none with the id |
| Text.ReadHex | firmware/components/code_sync/sync_parse.c:19-33 | Exactly 2n lowercase digits become n bytes |
| Text.HexRoundTrip | tools/make_sync_file.py:57 | A printed digest reads back |
| Text.HexIsUnique | firmware/components/code_sync/sync_parse.c:8-33 | And can be written only one way |
| Text.ValueOfDecimal | tools/make_sync_file.py:48 | A printed number denotes itself |
| Text.SplitFields | firmware/components/tg_client/tg_proto.c:98-116 | The splitting loop succeeds on exactly n fields and gives them |
| Text.JoinSplit | firmware/components/tg_client/tg_proto.c:98-116 | Splitting loses nothing |
| Text.SplitJoin | tools/make_tg_line.py:117 | Joining separator-free fields and splitting gives them back |
| LockDuty.OutputDutyBound | firmware/components/lock_driver/lock_logic.c:3-81 | For any requests, ticks and reads at nondecreasing real times, however long the driver stalls, the output reads on for at most one pulse length, at most 1000 ms, in every window of a pulse and a cooldown |
| LockDriver.PinDutyBound | firmware/components/lock_driver/lock_driver.c:58-80 | What the coil gets: with no stall above gap ms (at most 2^32 less a pulse), the pin is energised for at most one pulse length and one gap in every such window |
| LockDriver.PinReleasedExactly | firmware/components/lock_driver/lock_driver.c:58-80 | For every stall bound: the pin is released within a span of the start of its pulse if and only if the span is at least a pulse length and one stall |
| LockDriver.PinHasStart | firmware/components/lock_driver/lock_driver.c:58-80 | With stalls of at most gap, an energised pin belongs to a pulse that started less than a pulse length and one gap ago |
| LockDriver.StalledPinStaysHigh | firmware/components/lock_driver/lock_logic.c:76-80 | After one accepted request and no further driver call the pin stays energised at every later time |
| LockDriver.BusyPinStaysHigh | firmware/components/lock_driver/lock_driver.c:72-80 | A driver that ticks every millisecond and then stalls in the last one of a pulse leaves the pin energised for the whole stall |
| LockDriver.DriverRuns | firmware/components/lock_driver/lock_driver.c:58-80 | The driver's machine is the one whose runs are studied, and the pin holds what its last call wrote |
| LockDriver.LockPin.constructor | firmware/components/lock_driver/lock_driver.c:24-56 | A fresh machine and a released pin |
| LockDriver.LockPin.Open | firmware/components/lock_driver/lock_driver.c:58-70 | Requests, then writes the output of that moment to the pin |
| LockDriver.LockPin.Tick | firmware/components/lock_driver/lock_driver.c:72-80 | Ticks, then writes the output of that moment to the pin |
| LockDuty.AcceptedApart | firmware/components/lock_driver/lock_logic.c:27-69 | Two accepted requests are at least a pulse and 3000 ms of real time apart, whatever stalls or wraps happen |
| LockDuty.NextStartIsLate | firmware/components/lock_driver/lock_logic.c:27-69 | After a reading that finds the output on, the next pulse starts no earlier than the cooldown of the pulse that reading is in |
| LockDuty.OutputHasStart | firmware/components/lock_driver/lock_logic.c:71-81 | If no driver call, and no read, comes more than 2^32 ms less one pulse after the driver call before it, an output that reads on belongs to a pulse that really started less than a pulse length ago |
| LockDuty.PulsesEndExactly | firmware/components/lock_driver/include/lock_logic.h:9-17 | For every pulse length: that guarantee holds for a stall bound if and only if the bound is at most 2^32 ms less one pulse length |
| LockDuty.PulseComesBack | firmware/components/lock_driver/lock_logic.c:71-81 | For every pulse length, the run one millisecond beyond that bound in which the output reads on again |
| LockDuty.RunTracks | firmware/components/lock_driver/lock_logic.c:27-69 | The machine tracks the last accepted request in real time |
| LockDuty.CountersCount | firmware/components/lock_driver/lock_logic.c:27-46 | Every request is counted once, as a pulse or a refusal, modulo 2^32 |
| LockRequests.AcceptedExactly | firmware/components/lock_driver/include/lock_logic.h:56-58 | For every run and every time: a request is accepted if and only if nothing was accepted before, or some call since found that pulse over and a later call, or the request itself, finds its cooldown over |
| LockRequests.AcceptedInTime | firmware/components/lock_driver/include/lock_logic.h:56-58 | Up to half a clock turn after the cooldown: accepted if and only if nothing was accepted before, or the last pulse started at least pulse + 3000 ms ago and some call since came after that pulse ended |
| LockRequests.RequestExactly | firmware/components/lock_driver/lock_logic.c:27-46 | On the state: accepted exactly by an idle machine, or one in cooldown whose deadline reads as past |
| LockRequests.RequestInTime | firmware/components/lock_driver/lock_logic.c:27-46 | Up to half a clock turn after the cooldown: accepted if and only if the machine has left the pulse and pulse + 3000 ms have passed |
| LockRequests.RefusalMeansExactly | firmware/components/lock_driver/include/lock_logic.h:56-57 | A refusal means a running pulse or an unelapsed cooldown exactly when the cooldown has not elapsed, or the machine has left the pulse and its clock can still tell |
| LockRequests.PhaseExactly | firmware/components/lock_driver/lock_logic.c:48-69 | The phase is decided by what the calls since the last accepted request have seen |
| LockRequests.CooldownIsReal | firmware/components/lock_driver/lock_logic.c:60-64 | A cooldown never reads as over early, and reads as over for half a clock turn |
| LockRequests.StalledPulseRefusesFirst | firmware/components/lock_driver/lock_logic.c:32-40 | A machine still in its pulse refuses, however late |
| LockRequests.UntickedPulseRefuses | firmware/components/lock_driver/lock_logic.c:32-40 | So one request and no tick refuses the next request at any time |
| LockRequests.OldDeadlineRefuses | firmware/components/lock_driver/lock_logic.c:60-64 | A pulse ticked out in time, then half a clock turn and a millisecond of silence: refused, though accepted a millisecond earlier |
| LockLogic.PulseIsBounded | firmware/components/lock_driver/lock_logic.c:8-19 | Whatever is asked for, a pulse lasts 1 to 1000 ms: as asked, and 800 ms if nothing was |
| LockLogic.LockMachine.constructor | firmware/components/lock_driver/lock_logic.c:8-25 | Idle, the pulse length defaulted or capped |
| LockLogic.LockMachine.Tick | firmware/components/lock_driver/lock_logic.c:48-69 | One transition, against the wrapping clock |
| LockLogic.LockMachine.Request | firmware/components/lock_driver/lock_logic.c:27-46 | Ticks once, then starts a pulse or counts a refusal |
| LockLogic.LockMachine.OutputNow | firmware/components/lock_driver/lock_logic.c:71-81 | What the output should be now |
| Clock32.ElapsedExactly | firmware/components/lock_driver/lock_logic.c:3-6 | The 32-bit elapsed test is the real one until the clock has gone all the way round |
| Clock32.ElapsedIsReal | firmware/components/lock_driver/lock_logic.c:3-6 | A 32-bit span that long is always a real span that long |
| Clock32.ReachedAlways | firmware/components/lock_driver/lock_logic.c:60-64 | At any time a deadline reads as reached unless it is less than half a clock turn ahead, modulo 2^32 |
| Clock32.ReachedExactly | firmware/components/lock_driver/lock_logic.c:60-66 | A deadline less than half a turn away reads as reached exactly when it is, for half a turn after it |
| Clock32.NotReachedEarly | firmware/components/lock_driver/lock_logic.c:60-66 | And never early, however long it has been |
| KeypadTrace.AcceptedAtMostOneKey | firmware/components/keypad/keypad_logic.c:52-115 | Over every scan sequence the accepted bitmap has at most one bit |
| KeypadTrace.PressIsBacked | firmware/components/keypad/keypad_logic.c:71-101 | Every press is backed by an unbroken suffix of scans reading only that key and spanning at least 15 ms |
| KeypadTrace.LongPressFollowsPress | firmware/components/keypad/keypad_logic.c:103-112 | Every long press follows a press of its key with nothing reported between, at least 1500 ms later |
| KeypadTrace.CleanPressIsReported | firmware/components/keypad/keypad_logic.c:71-101 | From a released keypad, a steadily held key is reported at the first scan 15 ms or more after it was first read, and no later |
| KeypadTrace.GhostBlocksPresses | firmware/components/keypad/keypad_logic.c:60-69 | Once a scan has read more than one key, no press is reported until a scan reads none |
| KeypadRelease.ReleasedExactly | firmware/components/keypad/keypad_logic.c:71-101 | From any reached state, scans that read nothing leave the keypad free if and only if nothing was accepted before, or the debounce time since the first of them (or since nothing became the candidate) reads as over at one of them |
| KeypadRelease.ReleaseIsAccepted | firmware/components/keypad/keypad_logic.c:71-101 | In real time: scans that read nothing for 15 ms and up to 2^32 - 15 ms free the keypad from any reached state |
| KeypadRelease.FreshReleaseIsAccepted | firmware/components/keypad/keypad_logic.c:71-101 | And up to a whole clock turn when the release was not already pending |
| KeypadRelease.ReleaseAWholeTurnLater | firmware/components/keypad/keypad_logic.c:76-79 | Failing input beyond that: a release pending for 14 ms and then scanned exactly a clock turn after it began is not accepted |
| KeypadRelease.NotReleasedBeforeLongPress | firmware/components/keypad/keypad_logic.c:103-112 | Between a press and its long press no empty reading is steady for 15 ms |
| KeypadRelease.PressAfterRelease | firmware/components/keypad/keypad_logic.c:71-101 | After a release the next clean press is reported at the first scan 15 ms or more after it was first read, the same key included |
| KeypadRelease.SteadyIsAccepted | firmware/components/keypad/keypad_logic.c:71-101 | From any reached state a steady reading is accepted if and only if it was already, or the debounce time since it became the candidate reads as over at one of its scans |
| KeypadRelease.SteadyKeyIsReported | firmware/components/keypad/keypad_logic.c:71-101 | From any reached state not blocked, a key other than the accepted one is reported at the first scan at which it has been steady that long, whether or not another was held |
| KeypadRelease.HeldKeyLongPresses | firmware/components/keypad/keypad_logic.c:103-112 | A key pressed and kept down reports its long press at the first scan 1500 ms or more after the press, and nothing in between |
| KeypadRelease.SeveralKeysRelease | firmware/components/keypad/keypad_logic.c:60-69 | Several keys at once count as letting go: after 15 ms without an empty scan no key is held and no long press follows |
| KeypadLogic.KeyCharLayout | firmware/components/keypad/keypad_logic.c:4-6 | Digits in rows of three, letters down the right, the bottom row |
| KeypadTrace.EventsAre | firmware/components/keypad/keypad_logic.c:52-115 | The three things one scan can report |
| KeypadLogic.KeyCharInjective | firmware/components/keypad/keypad_logic.c:9-15 | No two keys share a character |
| KeypadLogic.KeypadMachine.constructor | firmware/components/keypad/keypad_logic.c:37-50 | Released, nothing pending |
| KeypadLogic.KeypadMachine.PopCount | firmware/components/keypad/keypad_logic.c:17-25 | Clearing the lowest bit until none is left counts them |
| KeypadLogic.KeypadMachine.LowestSetIndex | firmware/components/keypad/keypad_logic.c:27-35 | The lowest bit set |
| KeypadLogic.KeypadMachine.Update | firmware/components/keypad/keypad_logic.c:52-115 | One scan: ghosting, debounce, long press, and the events, whose meaning over runs is in `KeypadTrace` and `KeypadRelease` |
| KeypadLogic.KeypadMachine.Debounce | firmware/components/keypad/keypad_logic.c:71-101 | The debounce part; when it accepts a reading is `KeypadRelease.SteadyIsAccepted` |
| Calendar.DaysIsCount | firmware/components/rtc_ds3231/rtc_ds3231.c:30-38 | For every Gregorian date in any year the arithmetic, with C's truncating division and unsigned wrap, equals the sum of year and month lengths since 1970-01-01 |
| Calendar.GrowsByOne | firmware/components/rtc_ds3231/rtc_ds3231.c:30-38 | Zero at the epoch and one more for each following day |
| Calendar.DaysInjective | firmware/components/rtc_ds3231/rtc_ds3231.c:30-38 | No two dates share a day number, and day order is date order |
| Calendar.EraIsFloor | firmware/components/rtc_ds3231/rtc_ds3231.c:33 | Truncating after subtracting 399 is floor division, for negative years too |
| Calendar.DayOfYearFits | firmware/components/rtc_ds3231/rtc_ds3231.c:35 | For real months and days no unsigned step wraps |
| Oled.FlushIsRight | firmware/components/display_ssd1306/ssd1306.c:80-122 | A flush keeps a valid shadow equal to the panel; success means the panel is the frame; what was sent is exactly what differed, or everything |
| Oled.DirtyFlushIsFullFlush | firmware/components/display_ssd1306/ssd1306.c:99-122 | Sending only the differing pages leaves the same driver and panel as sending all |
| Oled.RunAgrees | firmware/components/display_ssd1306/ssd1306.c:99-127 | Over any run of flushes, failures at any page, invalidations and panel resets, a valid shadow equals panel memory |
| Oled.SuccessShowsFrame | firmware/components/display_ssd1306/ssd1306.c:99-122 | After any run, a flush that reports success leaves the panel showing its frame |
| Oled.FlushSucceedsExactly | firmware/components/display_ssd1306/ssd1306.c:99-122 | A flush reports success if and only if every page it has to send is acknowledged; otherwise it stops at the first that is not and the next flush sends everything |
| Oled.FindDirtyPages | firmware/components/display_ssd1306/oled_fb.c:178-190 | The loop finds exactly the pages that differ |
| Oled.Display.constructor | firmware/components/display_ssd1306/ssd1306.c:14-15 | The driver starts without a valid shadow |
| Oled.Display.FlushPage | firmware/components/display_ssd1306/ssd1306.c:80-97 | One page: sent, or failed with the page holding anything |
| Oled.Display.Flush | firmware/components/display_ssd1306/ssd1306.c:99-122 | The page loop with early exit, the shadow and its flag |
| Oled.Display.Invalidate | firmware/components/display_ssd1306/ssd1306.c:124-127 | Only the flag changes |

## Left out

- I2C, GPIO, NVS, HTTP, TLS, cJSON, FreeRTOS tasks and mutexes: foreign calls. The EEPROM and the panel are bytes with fallible writes, NVS is a value that follows the state, and one event is handled at a time.
- SHA-256 and HMAC: arbitrary deterministic functions. That different codes or texts get different ones is never used.
- The timing of the constant-time comparisons; only that they are equality. The two on MAC text are modelled as string equality.
- NULL arguments, and calls before the driver is initialised.
- 64-bit overflow of time sums such as `now + lockout_seconds` and `valid_from + 900`, and 32-bit overflow of `int` years within 400 of the ends of the range: times and years are unbounded integers.
- Bytes after the NUL inside an id field of the table: an id is the C string it holds.
- C strings given to the parsers contain no NUL; a body with one would be read up to it.
- What an output struct holds after a parse failure: a failure is only its error code.
- The 16-bit scan bitmap and the 8-bit page mask are sets of bit numbers, and the slot table is a sequence of five slots held in a field, so aliasing between slots is not expressible.
- A power cut between evaluating a code and saving the counter, and between installing a delivered code and saving its generation or counter: the runs reboot between handled events.
- Survival of network-delivered codes across a power cut: the delivery components never save them.
- The call to the lock driver from `handle`, the log lines, and the lock driver's GPIO set-up and wiring polarity: its pin is a level that energises or does not.
- `ui_render` and its remaining-time helpers, `ac_format_valid`, `ac_count`, the result texts, fonts and screen layout: short case splits.
- `oled_fb_pixel`, drawing, the panel's column offset and its power commands: the frame is given.
- `parse_when` in both tools: times arrive as epochs. Argument checks on the key and the salt of the courier tool, and text on stderr.
- Update ids pass through a double in `handle_body`; here they are 64-bit naturals.
- `persist_raw_read` and the code slots' reads succeed or fail as a whole; bytes read back changed are not modelled.
- BCD conversion and register access in the RTC driver, `net_link`, `net_retry`, `tg_poll` back-off, `wifi_prov`, `prov_http`, `prov_ap`, `prov_dns`, `prov_form`, `status_led_rgb`, `cred_check` and `dev_console`.
- RingSafety.RingCrashSafety: a torn page is taken not to decode, ring reads succeed, and there are fewer than 2^32 saves; the lemmas on each edge say what happens beyond.
- LockDriver.PinDutyBound: driver stalls of at most 2^32 ms less one pulse, beyond which a pulse can come back (`LockDuty.PulseComesBack`).
- RingFailedRead.FailedReadHidesSave: the newest record is beyond slot 0 with a number above 1; `RingFailedRead.FailedReadExactly` has no such condition.
- GuessBound.GuessesAreBounded: every boot reads the ring, a failed read starting again from a zero counter (`GateRuns.BootedExactly`), and no torn record decodes; what a trusted clock shows never steps back; the policy allows at least one failure and locks for at least one second; keys come before epoch 2^32 minus the lockout, without which `GuessEdges.NoBoundAtTheDeadline` shows there is no bound; fewer than 2^32 saves.
- KeypadRelease.ReleaseIsAccepted: the empty scans span at most 2^32 - 15 ms, or less than 2^32 ms in `KeypadRelease.FreshReleaseIsAccepted`; `KeypadRelease.ReleasedExactly` has no such condition.
- GateRuns.HashedAfterLongPress: the run is orderly, as for `EntryBuffer.BufferIsTheEntry`, and the long press does not fall into a lockout on a trusted clock, when it does nothing.
- CodeSafety.CutSaveKeepsCode: the half being written is taken not to decode; `CodeSafety.CutSaveExactly` is the exact form.
- EntryBuffer.BufferIsTheEntry: the run is orderly: keys are not NUL, the wall clock reads 1970 or later and does not step back into a lockout mid-entry, and trust is not withdrawn mid-entry. The same for `EntryBuffer.HashedIsLastNineKeys` and `EntryBuffer.DoorOpensExactly`; `EntryBuffer.RunInvExactly` shows the last two are exactly what the invariant needs.
- SyncInstall.AppliedMeansExactlyTheSet: transient ids are never backend ids, which the dev sessions ensure; `SyncLogic.IdIsDev` shows the two tests agree.
- Delivery.SetCodeOpensInWindow: no slot further up the table repeats the code's hash, which would decide in its place (`AccessTable.EarlierMatchIsShadowed`).
- MakeSyncFile.SetRoundTrip: the gate id is on one line and has at most 32 characters.
