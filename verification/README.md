# Verified models of the edge configuration store, its change feed and the decoder supervisor

This project models three parts of the repository and proves what they are for. `dafny verify dfyconfig.toml` checks
all of it.

**The slot store** (`edgeconf/core`). A file of 300-byte CRC-protected records behind a 64-byte header, used as a
key/value map that must survive power loss.

- `crc32.dfy` proves the table-driven loop against long division by the IEEE 802.3 polynomial, and that two messages
  differing only inside four consecutive bytes never share a CRC.
- `record_format.dfy` has the byte layout and what a disk that writes 512-byte sectors can leave of an interrupted slot
  write. A torn state-byte update is the old record, the new record, or fails its CRC, with no collision assumption.
- `slot_store.dfy` is the map a slot array stands for; `slot_io.dfy` lists each operation's disk writes one at a time, so
  that a crash can fall between or inside any two of them.
- `recovery.dfy`, `crash_safety.dfy` and `compaction.dfy` place crashes: at open and repair, inside a delete, inside a
  write, and inside a compaction, in order or not.
- `store_runs.dfy` has the operations as steps on the map; `crash_runs.dfy` has whole runs in which they finish, fail part-way
  and carry on, or crash and reopen.
- `crash_free.dfy` shows that runs without crashes refine a finite map with a budget of free slots, for every clock.
- `run_clocks.dfy` has conditions on a run's events alone under which it is explained, and a run within one second that ends
  with a stale value; `reopening.dfy` shows that every run leaves a header that open accepts.
- `config_file.dfy` is the imperative code: a class over the slot array and header. How the device answers a call, which slots
  it can read, which sectors of each write land and what is reported, is an input of that call; each method is proved to do
  what its operation plans for exactly those answers, and on a flawless device to be the operation of the runs.

**The change feed** (`edgeconf/patterns`). A text config file, updated under a lock by rename, watched by a daemon that
publishes one JSON delta per changed key.

- `config_text.dfy`, `config_lines.dfy` and `config_table.dfy` are the line parser, the fixed-buffer reader, the in-memory
  table and the printer: which lines are read and as what, a normal form, and exactly which updates read back.
- `json_delta.dfy`, `json_codec.dfy` and `json_standard.dfy` are the adapter's escaper and its substring-search decoder.
  Every delta is recovered byte for byte, and every payload is also what an independent reader written from RFC 8259
  (sections 4, 6 and 7) takes it for.
- `config_delta.dfy`, `watcher.dfy` and `watch_daemon.dfy` are the snapshot difference, the daemon as a state machine with
  any interleaving of writers and any number of subscribers, and the daemon's loop body.
- `updaters.dfy` and `config_update.dfy` are concurrent updaters that may die at any step, power loss at any moment, and
  one updater call with every file operation free to fail.
- `feed.dfy` puts updaters, daemon and subscribers together: what subscribers hold at every quiet moment, and that an
  undisturbed update reaches them all.

**The decoder supervisor** (`autoscale`). `topics.dfy` shows that each tier of MQTT filters partitions a machine's points
(section 4.7 of MQTT 3.1.1). `decoder_ledger.dfy` and `machine_runtime.dfy` are the crash counting, the backoff and the
process bookkeeping over whole runs.

`options.dfy`, `c_strings.dfy`, `numerals.dfy` and `config_limits.dfy` hold shared definitions.

## Where the code and its description differ

The models follow the code. These statements are proved of it.

- The write-verify step is described as confirming that the write reached the disk (`edgeconf/core/src/robust_cfg.c:221-249`).
  It compares stored CRC fields only, so it sees just the sector that holds them (`CrashSafety.VerifySeesOnlyTheCrcSector`).
  `CrashSafety.VerifyProvesLandingIff` says exactly when passing means the record landed; slot 1 of every file is a place where
  it does not (`CrashSafety.SlotOneHalfWritten`), and there an update can lose its key (`CrashSafety.HalfWriteLosesKey`;
  `CrashSafety.SlotOneLosesKey` is a store where it does). The crash results therefore take a record write that was reported
  done as done.
- Two live copies of a key are called harmless (`edgeconf/core/src/robust_cfg.c:512-516`). They are not when a copy that a write
  leaves behind is not older than the new record: `CrashSafety.StaleCopyResurfaces` gives a run with a clock step,
  `RunClocks.StaleRun` one within a single second from a new file, and `CrashSafety.ReadsBackIff` the exact
  condition. A delete cut off by a crash can also bring an older copy back: `Recovery.DeleteCutExposes`, and
  `Recovery.DeleteIsAtomicIff` and `CrashRuns.DeletePastFailuresIff` for exactly when it cannot.
- With no EMPTY slot an update is made in place and a crash can lose the key: `CrashSafety.InPlaceCanLose` gives the store, the
  write and the instant. No other key is at risk (`CrashSafety.InPlaceRisksOnlyItsKey`). `CrashSafety.WriteIsCrashAtomicIff` has
  the exact condition for both paths, which two mixtures of sectors decide (`SlotIo.UntearableIff`), and
  `CrashSafety.InPlaceInOneSector` a layout that meets it.
- Compaction has no sync between slots. `Compaction.UnorderedCompactionIff` says exactly which keys survive a power loss that
  keeps some rewrites and drops others; with one live copy per key they all do exactly when no dead slot stands in front of a
  live one (`Compaction.UniqueCompactionIff`). It also overwrites the records it could not read (`ConfigFile.CompactedPart`).
- An update ignores the result of its read (`edgeconf/patterns/src/config_io.c:209`). If the file exists but cannot be opened,
  every other key is dropped (`Updaters.UnreadFileIsWiped`); after a read that stops early, `Updaters.ShortReadKeepsIff` says
  exactly when the others survive the call.
- The daemon logs a failed send and advances its snapshot all the same, so nothing makes up for a lost delta
  (`ConfigDelta.LostDeltaIff`).
- `config_io.h` says the shared lock keeps a read from interleaving with an atomic write; the reader's own comment
  (`edgeconf/patterns/src/config_io.c:135-140`) says it does not. The results here use only the rename.
- An update whose key or value the parser cannot produce is accepted and not read back; `ConfigText.UpdateReadsBackIff` is the
  exact condition.

## Model

| member | source | states |
|---|---|---|
| Crc32.Engine.Init | edgeconf/core/src/robust_cfg.c:55-65 | the table loop leaves eight register steps of every index in its entry, and the flag set |
| Crc32.Engine.Compute | edgeconf/core/src/robust_cfg.c:67-76 | the table loop returns the shift-register CRC of the buffer, whether or not the table was filled before |
| Crc32.GeneratorBits | edgeconf/core/src/robust_cfg.c:57 | the constant 0xEDB88320 is the standard's generator, bit-reversed |
| Crc32.CrcIsReference | edgeconf/core/src/robust_cfg.c:55-76 | for every message the CRC's bits are the complemented remainder of dividing the complemented, zero-extended message by the generator |
| Crc32.DivisionStep | edgeconf/core/src/robust_cfg.c:60-61 | one register step subtracts the generator exactly when long division does |
| Crc32.ShiftsByTable | edgeconf/core/src/robust_cfg.c:58-62 | eight register steps equal one table entry combined with a byte move, for every register |
| Crc32.TableStep | edgeconf/core/src/robust_cfg.c:73-74 | the loop body feeds exactly one byte to the register |
| Crc32.FeedInjective | edgeconf/core/src/robust_cfg.c:72-75 | different registers fed the same bytes stay different |
| Crc32.BurstDetected | edgeconf/core/src/robust_cfg.c:67-76 | messages that differ only inside four consecutive bytes never share a CRC, whatever surrounds them |
| Crc32.BurstDetectedAt | edgeconf/core/src/robust_cfg.c:67-76 | the same for two whole messages and the position of the difference |
| Crc32.BitsDetermine | edgeconf/core/src/robust_cfg.c:67-76 | a register is determined by its bits, so the reference fixes the CRC |
| RecordFormat.DecodeEncode | edgeconf/core/src/robust_cfg_format.h:95-105 | a record written to its 300 bytes reads back as itself |
| RecordFormat.EncodeDecode | edgeconf/core/src/robust_cfg_format.h:95-105 | any 300 bytes read as a record write back as the same bytes |
| RecordFormat.TextOfPadded | edgeconf/core/src/robust_cfg.c:497-498 | a text copied into a zeroed field reads back as that text |
| RecordFormat.SealedIsGood | edgeconf/core/src/robust_cfg.c:163-166 | a record with a recomputed CRC passes its own check |
| RecordFormat.RecordCrcIsOfBytes | edgeconf/core/src/robust_cfg.c:163-166 | a slot passes its check exactly when its last four bytes are the CRC of its first 296 |
| RecordFormat.RecordDamage | edgeconf/core/src/robust_cfg.c:163-166 | a change inside four consecutive bytes of a good slot is always noticed |
| RecordFormat.HeaderDecodeEncode | edgeconf/core/src/robust_cfg_format.h:67-76 | a header written to its 64 bytes reads back as itself |
| RecordFormat.HeaderEncodeDecode | edgeconf/core/src/robust_cfg_format.h:67-76 | any 64 bytes read as a header write back as the same bytes |
| RecordFormat.HeaderCrcIsOfBytes | edgeconf/core/src/robust_cfg.c:157-161 | a header passes its check exactly when its last four bytes are the CRC of its first 60 |
| RecordFormat.CrcFieldInOneSector | edgeconf/core/src/robust_cfg_format.h:111-119 | no slot's CRC field straddles two 512-byte sectors |
| RecordFormat.TornCrcField | edgeconf/core/src/robust_cfg_format.h:95-119 | a torn slot's CRC field is the whole old one or the whole new one, according to its sector |
| RecordFormat.TornStateBody | edgeconf/core/src/robust_cfg.c:256-263 | a torn state update keeps one of the two record bodies whole |
| RecordFormat.TornStateUpdate | edgeconf/core/src/robust_cfg.c:256-263 | a torn state update is the old record, the new record, or fails its CRC, in either order of its sectors |
| SlotStore.NewestIsMaximal | edgeconf/core/src/robust_cfg.c:566-583 | a read settles on the live copy maximal in (timestamp, slot number), and on none exactly when no live record holds the key |
| SlotStore.SameHolders | edgeconf/core/src/robust_cfg.c:569-583 | slots that hold the key in neither of two stores do not affect its reading |
| SlotStore.NewRecordIs | edgeconf/core/src/robust_cfg.c:492-498 | a prepared record is live and carries the key, value and time it was made from |
| SlotIo.StateUpdateLands | edgeconf/core/src/robust_cfg.c:256-263 | every torn state update is one the crash model allows, without a CRC assumption |
| SlotIo.LandsSame | edgeconf/core/src/robust_cfg.c:745-749 | rewriting a slot with what it already holds cannot damage it |
| SlotIo.UntearableIff | edgeconf/core/src/robust_cfg.c:230-239 | no choice of landed sectors breaks a slot exactly when it lies in one sector or both half-landed mixtures are old, new or pass the CRC |
| SlotIo.CleanRun | edgeconf/core/src/robust_cfg.c:182-249 | when every reported success is real and none failed, a complete run of planned writes gives the planned disk |
| Recovery.PerformWholeSweep | edgeconf/core/src/robust_cfg.c:336-354 | a sweep whose writes all land rewrites exactly the slots its rule names |
| Recovery.SweepKeepsLookups | edgeconf/core/src/robust_cfg.c:335-354 | the open scan and repair, cut short anywhere with a torn last write, change no key's reading |
| Recovery.SweepIdempotent | edgeconf/core/src/robust_cfg.c:335-354 | a finished sweep leaves nothing for a second one to write |
| Recovery.OpenRecovers | edgeconf/core/src/robust_cfg.c:308-363 | opening over any slot contents keeps every reading, makes the header count the live records, leaves no CRC-bad VALID or DELETED slot, and writes nothing the second time |
| Recovery.RepairRecovers | edgeconf/core/src/robust_cfg.c:655-706 | repair over any slot contents keeps every reading, counts the live records, leaves no CORRUPT slot and no CRC-bad VALID slot, and is idempotent |
| Recovery.RepairFrees | edgeconf/core/src/robust_cfg.c:675-692 | repair turns exactly the CORRUPT slots and the CRC-bad VALID ones into EMPTY slots that pass their CRC |
| Recovery.OpenMarks | edgeconf/core/src/robust_cfg.c:341-350 | open turns exactly the CRC-bad VALID and DELETED slots into CORRUPT ones that pass their CRC and hold what they held |
| Recovery.DeleteMarks | edgeconf/core/src/robust_cfg.c:623-635 | a delete marks exactly the live copies of its key, keeping what they hold |
| Recovery.DeleteKeepsOthers | edgeconf/core/src/robust_cfg.c:623-635 | a delete, whole or cut short with torn writes, changes no other key |
| Recovery.DeleteRemoves | edgeconf/core/src/robust_cfg.c:623-635 | a delete whose state writes land leaves no copy of its key to resurface |
| Recovery.DeleteIsAtomicIff | edgeconf/core/src/robust_cfg.c:623-635 | a delete cut off between slots leaves its key as it was or gone, wherever the cut is, exactly when no later copy disagrees with the one read |
| Recovery.DeleteCutExposes | edgeconf/core/src/robust_cfg.c:623-635 | a concrete store in which a cut-off delete brings an older value back |
| CrashSafety.MomentHasShape | edgeconf/core/src/robust_cfg.c:500-540 | at every instant of a write the slots are untouched, have a torn new record, or have the new record and a torn retirement |
| CrashSafety.WriteIsCrashAtomic | edgeconf/core/src/robust_cfg.c:449-545 | stop a write at any instant, tear the disk write in progress, reopen: no other key changes, and the written key is old or new when it goes to an EMPTY slot and the copies it leaves behind are older; in any case it is old, new, or what those copies make it |
| CrashSafety.WriteIsCrashAtomicIff | edgeconf/core/src/robust_cfg.c:449-545 | every instant of a write reads as old or new exactly when the copies it leaves behind already read as one of the two, or they are older and, for an update in place, neither half-landed mixture of the slot fails the CRC |
| CrashSafety.Replaced | edgeconf/core/src/robust_cfg.c:500-532 | with the replaced copy gone and the new record in its slot, the key reads as the new value exactly when the other copies are older, and as they make it otherwise |
| CrashSafety.SurvivorsOlderWhen | edgeconf/core/src/robust_cfg.c:470-484 | one live copy per key, or a clock ahead of every copy, leaves only older copies behind |
| CrashSafety.InPlaceRisksOnlyItsKey | edgeconf/core/src/robust_cfg.c:519-532 | with no EMPTY slot only the written key is at risk, whatever the store holds, and it is left to its other copies when its torn record fails the CRC (`InPlaceCanLose` has such an instant) |
| CrashSafety.InPlaceCanLose | edgeconf/core/src/robust_cfg.c:519-532 | in a store of two taken slots, writing to the second key the value it has already, at another time, has an instant after which a reopened store has lost it |
| CrashSafety.OneSectorUntearable | edgeconf/core/src/robust_cfg.c:235-239 | a slot inside one sector is rewritten whole or not at all |
| CrashSafety.InPlaceInOneSector | edgeconf/core/src/robust_cfg.c:519-532 | so an update in place there is crash-atomic when the other copies are older |
| CrashSafety.PerformWrite | edgeconf/core/src/robust_cfg.c:492-540 | the planned writes of a write put the new record, retire the old one and store the count |
| CrashSafety.ReadsBackIff | edgeconf/core/src/robust_cfg.c:470-518 | a finished write is what a read settles on exactly when every live copy it left behind is older; otherwise the key reads as those copies make it |
| CrashSafety.WriteThenRead | edgeconf/core/src/robust_cfg.c:449-583 | one live copy per key, or a clock ahead of every copy, makes a finished write read back |
| CrashSafety.StaleCopyResurfaces | edgeconf/core/src/robust_cfg.c:512-518 | a concrete crash and clock step after which a value older than two writes is read |
| CrashSafety.StaleInSameSecond | edgeconf/core/src/robust_cfg.c:470-518 | a store, whatever its first slot holds, in which a write in the same second as two copies leaves the older copy to be read |
| CrashSafety.VerifySeesOnlyTheCrcSector | edgeconf/core/src/robust_cfg.c:241-246 | the read-back passes exactly when the sector of the CRC field landed or the field did not change |
| CrashSafety.VerifyProvesLandingIff | edgeconf/core/src/robust_cfg.c:221-249 | passing proves that the record landed exactly when nothing outside the CRC field's sector changes, or, with that field unchanged, when nothing changes |
| CrashSafety.VerifyAcceptsHalfWrite | edgeconf/core/src/robust_cfg.c:221-249 | in a slot of two sectors a half-landed record passes the read-back and is returned by no read |
| CrashSafety.HalfWriteLosesKey | edgeconf/core/src/robust_cfg.c:505-518 | an update that trusts it retires the old copy too, and the key is left to its other copies |
| CrashSafety.SlotOneHalfWritten | edgeconf/core/src/robust_cfg.c:221-249 | the second slot of every file is such a slot |
| CrashSafety.SlotOneLosesKey | edgeconf/core/src/robust_cfg.c:505-518 | in a store of two slots, one taken, an update that lands half in slot 1 is reported as done and its key is gone |
| Compaction.SourcesComplete | edgeconf/core/src/robust_cfg.c:730-737 | the collected records are exactly the live ones |
| Compaction.NewestMoves | edgeconf/core/src/robust_cfg.c:745-749 | after any number of whole slot rewrites a read settles on the same record as before |
| Compaction.CutShortKeepsLookup | edgeconf/core/src/robust_cfg.c:745-749 | with the slot in progress torn as well, every key keeps its reading |
| Compaction.PackRun | edgeconf/core/src/robust_cfg.c:745-757 | every in-order prefix of a compaction's writes is such a partly packed store |
| Compaction.CompactionIsCrashSafe | edgeconf/core/src/robust_cfg.c:708-763 | kill a compaction at any slot with its writes landing in order, tear that slot, reopen: every key reads as before, duplicates and equal timestamps included |
| Compaction.SettledSurvives | edgeconf/core/src/robust_cfg.c:745-750 | with the live records already in front, any subset of the rewrites in any order, torn or not, keeps every reading |
| Compaction.UnorderedCompactionIff | edgeconf/core/src/robust_cfg.c:745-750 | for any store and key: every choice of landed, dropped and torn rewrites keeps the reading exactly when its value stays in some slot throughout and every copy of another value is older than such a slot |
| Compaction.SettledIsKept | edgeconf/core/src/robust_cfg.c:745-750 | with the live records already in front that holds of every key |
| Compaction.UniqueCompactionIff | edgeconf/core/src/robust_cfg.c:745-750 | with one live copy per key it holds of every key exactly when no dead slot stands in front of a live one |
| Compaction.PackedKeepsLookup | edgeconf/core/src/robust_cfg.c:730-749 | a finished compaction keeps every reading |
| Compaction.CompactedIs | edgeconf/core/src/robust_cfg.c:739-757 | its writes leave the compacted slots and their number in the header |
| StoreRuns.ExecIsMapStep | edgeconf/core/src/robust_cfg.c:449-763 | any finished operation acts on the map as its name says, duplicates or not, when a write leaves only older copies behind |
| CrashRuns.SweepCut | edgeconf/core/src/robust_cfg.c:623-635 | a sweep whose writes land in order stops between two slots or inside one |
| CrashRuns.DeleteInOrder | edgeconf/core/src/robust_cfg.c:608-649 | a delete cut off in order, its last write torn, reads like a clean cut between two slots |
| CrashRuns.InterruptedKeepsOthers | edgeconf/core/src/robust_cfg.c:308-763 | an operation cut off or failing anywhere changes no key but its own |
| CrashRuns.RunKeepsOthers | edgeconf/core/src/robust_cfg.c:308-763 | after any run of finished, failed and crashed operations, with any clock, a key that none of them writes or deletes keeps its value |
| CrashRuns.RunInventsNothing | edgeconf/core/src/robust_cfg.c:308-763 | every live record after any such run was there at the start or is exactly what one of its writes passed in |
| CrashRuns.ReadsWereWritten | edgeconf/core/src/robust_cfg.c:547-583 | so every value read is one its key had in some slot at the start or was given by a write in the run |
| CrashRuns.DecidedKey | edgeconf/core/src/robust_cfg.c:449-649 | the conditions of `WriteIsCrashAtomicIff`, `DeleteIsAtomicIff` and `DeletePastFailuresIff`, or for an update in place that it has no other copies, leave an interrupted operation's key as before, as after, or, in place, missing |
| CrashRuns.DeletePastFailuresIff | edgeconf/core/src/robust_cfg.c:623-635 | a delete that goes on past failed state writes leaves its key as before or gone, whatever lands, exactly when the live copies of the key agree |
| CrashRuns.EventIsMapStep | edgeconf/core/src/robust_cfg.c:308-763 | an operation that met its condition takes effect when finished, its reply telling of the map it met, and does or does not when interrupted |
| CrashRuns.RunIsExplained | edgeconf/core/src/robust_cfg.c:308-763 | after any run whose operations each met their condition on the disk they found, the store is a map that some choice of the interrupted ones explains, and every reply given on the way tells of the map at that point |
| RunClocks.EventIsSingle | edgeconf/core/src/robust_cfg.c:449-763 | only an interrupted write to an EMPTY slot or an interrupted compaction can give a key a second live copy |
| RunClocks.SafeRunIsClear | edgeconf/core/src/robust_cfg.c:308-763 | a condition on the events alone: with any clock, operations may fail or crash anywhere, except that once a key may have a second copy its writes must come later than its earlier ones, an interrupted one must find an EMPTY slot, and a delete must finish |
| RunClocks.SafeRunIsExplained | edgeconf/core/src/robust_cfg.c:308-763 | so such runs are explained, with no condition on the disks in between |
| RunClocks.StaleRun | edgeconf/core/src/robust_cfg.c:470-518 | a run from a new file of four slots, every write in the same second, after which a finished write reads back as the value two writes before |
| Reopening.InstantHeader | edgeconf/core/src/robust_cfg.c:202-210 | at every instant of any operation the header differs from the one before in its count at most, and is sealed if that was |
| Reopening.ReopenAccepts | edgeconf/core/src/robust_cfg.c:308-363 | after any run from a new file, and at any instant of an operation cut off after it, open's header checks pass and find the capacity it was made with |
| Reopening.AcceptedIff | edgeconf/core/src/robust_cfg.c:319-341 | open accepts 64 bytes exactly when they begin with the magic and version 1 and end with the CRC of the first 60 |
| Reopening.NewHeaderBytes | edgeconf/core/src/robust_cfg.c:271-280 | the bytes of a new file's header: magic, version 1, zero flags, the capacity, zeros, and their CRC |
| Reopening.HeaderDamage | edgeconf/core/src/robust_cfg.c:326-331 | damage inside four consecutive bytes of an accepted header, or to its CRC field alone, is reported as corruption |
| Reopening.ChangedField | edgeconf/core/src/robust_cfg.c:326-331 | so is a changed capacity or count under the old CRC |
| CrashFree.WriteKeepsInv | edgeconf/core/src/robust_cfg.c:449-545 | a write keeps one live copy per key and an exact count, and spends one EMPTY slot or none |
| CrashFree.DeleteKeepsInv | edgeconf/core/src/robust_cfg.c:608-649 | a delete keeps the invariant and the number of EMPTY slots |
| CrashFree.CompactKeepsInv | edgeconf/core/src/robust_cfg.c:708-763 | compaction keeps the invariant and frees every slot not holding a live record |
| CrashFree.StepRefines | edgeconf/core/src/robust_cfg.c:449-763 | one operation keeps the invariant, replies as the map does, and moves map and slot budget as specified, for every clock value |
| CrashFree.CreatedIsEmpty | edgeconf/core/src/robust_cfg.c:269-298 | a created file is the empty map with every slot free |
| CrashFree.RunRefines | edgeconf/core/src/robust_cfg.c:449-763 | any series of operations refines the map with its budget: same contents, same replies, FULL included |
| CrashFree.NewStoreRefines | edgeconf/core/src/robust_cfg.c:269-763 | so does every series on a new store |
| CrashFree.CountsAdd | edgeconf/core/src/robust_cfg.c:534-540 | the header count is the number of VALID slots and of keys, and the four state counts add up to the capacity |
| CrashFree.BudgetAfterCompact | edgeconf/core/src/robust_cfg.c:500-518 | after compacting n live records exactly capacity - n writes succeed out of place, one slot each |
| CrashFree.WhenSpent | edgeconf/core/src/robust_cfg.c:486-490 | with no EMPTY slot a new key is refused and a known key is written in place |
| ConfigFile.File.Create | edgeconf/core/src/robust_cfg.c:269-298 | a new file holds a sealed header and EMPTY slots, capacity zero meaning the default |
| ConfigFile.File.WriteHeader | edgeconf/core/src/robust_cfg.c:202-210 | the header is written with its CRC recomputed, whole or not at all as the device answers (`RecordFormat.HeaderCrcIsOfBytes` says what the CRC is of) |
| ConfigFile.File.WriteRecordVerified | edgeconf/core/src/robust_cfg.c:230-249 | one slot write of the sealed record, landed as the device answers; OK exactly when the calls succeeded and the CRC field read back matches |
| ConfigFile.File.SetSlotState | edgeconf/core/src/robust_cfg.c:256-263 | one slot write of the same record with a new state and CRC, landed as the device answers, or none if the record cannot be read |
| ConfigFile.File.Read | edgeconf/core/src/robust_cfg.c:547-606 | for every set of readable slots: the newest live value among them, cut to the buffer, or NOT_FOUND, and ERR or CORRUPT exactly when the second read of the winner fails or fails its CRC; on a flawless device the store's own reading |
| ConfigFile.File.FindNewest | edgeconf/core/src/robust_cfg.c:566-583 | the scan finds the newest copy among the slots the device lets it read, neither more nor fewer |
| ConfigFile.AllReadable | edgeconf/core/src/robust_cfg.c:569-572 | when every slot can be read a pass sees the store itself |
| ConfigFile.FlawlessRun | edgeconf/core/src/robust_cfg.c:182-249 | on a device that does everything every write is done and reported done |
| ConfigFile.FlawlessExists | edgeconf/core/src/robust_cfg.c:172-192 | there is such a device for every capacity |
| ConfigFile.File.FindSlots | edgeconf/core/src/robust_cfg.c:467-484 | the single pass finds the first EMPTY slot and the last live slot of the key among exactly the slots it can read |
| ConfigFile.File.Write | edgeconf/core/src/robust_cfg.c:449-545 | performs a run of the writes planned from exactly the slots it can read, each landing as the device answers, and stops after the first unless it verified; FULL exactly when those have no target slot; on a flawless device, the operation and reply of the runs |
| ConfigFile.File.Delete | edgeconf/core/src/robust_cfg.c:608-649 | performs the retirement sweep over exactly the slots it can read, going on past failures, and counts down what it verified; on a flawless device, the operation and reply of the runs |
| ConfigFile.File.Repair | edgeconf/core/src/robust_cfg.c:655-706 | performs the repair sweep over exactly the slots it can read and stores their live count; on a flawless device, the operation of the runs |
| ConfigFile.File.ValidateAndScan | edgeconf/core/src/robust_cfg.c:308-363 | refuses an unreadable header, a bad magic, CRC or version in that order, writing nothing; otherwise performs the scan over exactly the slots it can read; on a flawless device, the operation of the runs |
| ConfigFile.File.Compact | edgeconf/core/src/robust_cfg.c:708-763 | rewrites every slot in order from the live records of exactly the slots it can read and stores their count; on a flawless device, the operation of the runs, and every key keeps its value |
| ConfigFile.File.CollectLive | edgeconf/core/src/robust_cfg.c:730-737 | copies the live records of exactly the slots it can read, in scan order |
| ConfigFile.InstantsOfWrite | edgeconf/core/src/robust_cfg.c:500-540 | every instant between two disk writes of a write is one the crash results cover |
| ConfigFile.InstantsInsideWrite | edgeconf/core/src/robust_cfg.c:500-540 | so is every instant inside one of them |
| ConfigFile.CleanDelete | edgeconf/core/src/robust_cfg.c:621-648 | a delete on a device that did all it reported, and reported no failure, is the delete of the crash-free runs |
| ConfigFile.InstantsOfDelete | edgeconf/core/src/robust_cfg.c:621-644 | every instant of a delete, on a device that may fail any of its writes, is one the runs cover |
| ConfigFile.InstantsOfPass | edgeconf/core/src/robust_cfg.c:308-763 | so is every instant of an open, a repair, and a compaction that the runs allow |
| ConfigFile.PartKeepsLookups | edgeconf/core/src/robust_cfg.c:335-354 | an open, repair or delete cut off anywhere that could not read some slots leaves those alone and keeps every reading but that of the key it deletes |
| ConfigFile.InstantsOfPart | edgeconf/core/src/robust_cfg.c:308-706 | every instant of the three methods' runs is covered by that |
| ConfigFile.CompactedPart | edgeconf/core/src/robust_cfg.c:730-757 | a compaction drops the records it could not read: each key then reads as it did from the others, and the count is of those |
| JsonDelta.DecodeEscaped | edgeconf/patterns/src/ipc_dbus.c:119-158 | decoding an escaped text up to its closing quote gives the text back |
| JsonDelta.EscapedQuotes | edgeconf/patterns/src/ipc_dbus.c:79-93 | every quote in an escaped text follows a backslash |
| JsonDelta.FindKey | edgeconf/patterns/src/ipc_dbus.c:111-117 | the search for the key field finds the payload's own, whatever the texts hold |
| JsonDelta.NoEarlyValue | edgeconf/patterns/src/ipc_dbus.c:111-117 | nothing in the key, nor across its ends, looks like the value field |
| JsonDelta.FindValue | edgeconf/patterns/src/ipc_dbus.c:111-117 | the search for the value field finds the payload's own |
| JsonDelta.FindDeleted | edgeconf/patterns/src/ipc_dbus.c:394-397 | the search for the deleted flag matches exactly when the flag is true |
| JsonDelta.RoundTrip | edgeconf/patterns/src/ipc_dbus.c:264-397 | every delta within the key and value limits is received with its key, value and flag unchanged |
| JsonDelta.NeverTruncated | edgeconf/patterns/src/ipc_dbus.c:47-49 | within those limits neither an escape buffer nor the payload buffer is ever too small |
| JsonCodec.JsonEscape | edgeconf/patterns/src/ipc_dbus.c:71-105 | writes the escaped text and a terminator, failing exactly when they do not fit |
| JsonCodec.JsonExtract | edgeconf/patterns/src/ipc_dbus.c:109-159 | writes the decoded field, failing exactly when it is absent, malformed or too long |
| JsonCodec.BuildPayload | edgeconf/patterns/src/ipc_dbus.c:264-282 | builds the payload in the fixed buffers and refuses exactly when one is too small |
| JsonCodec.ReadPayload | edgeconf/patterns/src/ipc_dbus.c:384-402 | hands the callback the decoded delta, or ignores the payload |
| JsonStandard.ReadEscaped | edgeconf/patterns/src/ipc_dbus.c:79-93 | a strict string reader of section 7 of RFC 8259 takes an escaped text for the text |
| JsonStandard.StandardReads | edgeconf/patterns/src/ipc_dbus.c:273-278 | a strict reader sees every payload as one object with version 2, the key, the value and the flag |
| ConfigText.LineIsNormal | edgeconf/patterns/src/config_io.c:55-87 | an accepted line gives a non-empty trimmed key and a trimmed value, both within their limits and free of separators |
| ConfigText.ParseIsNormal | edgeconf/patterns/src/config_io.c:125-164 | every file parses to at most 64 pairs with distinct keys in that form |
| ConfigText.LineRoundTrip | edgeconf/patterns/src/config_io.c:275-277 | a printed pair parses back to itself |
| ConfigText.LineFits | edgeconf/patterns/src/config_io.c:154-155 | a printed pair is one line buffer's worth: it is never split on reading |
| ConfigLines.LineForm | edgeconf/patterns/src/config_io.c:55-87 | white space around key and value does not matter: the line is read as exactly its normal pair while the key and what follows it fit the buffer |
| ConfigLines.RefusedIff | edgeconf/patterns/src/config_io.c:55-87 | a line is passed over exactly when it is blank or a comment, or has no equals sign, no key, or too long a key |
| ConfigLines.FileLine | edgeconf/patterns/src/config_io.c:154-159 | in a file such a line puts its pair in the table, whatever follows |
| ConfigLines.LastLine | edgeconf/patterns/src/config_io.c:154-159 | so does the last line without a newline |
| ConfigLines.RefusedLine | edgeconf/patterns/src/config_io.c:154-159 | a line that is passed over changes nothing |
| ConfigLines.ChunkIs | edgeconf/patterns/src/config_io.c:141-145 | one read takes the file up to its first newline or its end, and never more than the buffer |
| ConfigText.PrintThenParse | edgeconf/patterns/src/config_io.c:275-277 | a printed table parses back in order |
| ConfigText.TextNormalForm | edgeconf/patterns/src/config_io.c:154-159 | for every file, parsing, printing and parsing again changes nothing |
| ConfigText.GetAfterSet | edgeconf/patterns/src/config_io.c:92-120 | after a set the key reads as its new value and every other key as before |
| ConfigText.UpdateReadsBackIff | edgeconf/patterns/src/config_io.c:220-232 | an update survives print and parse exactly when its key and value are ones the parser can produce, and then no other key changes |
| ConfigTable.TrimInPlace | edgeconf/patterns/src/config_io.c:45-50 | trims a C string in its buffer |
| ConfigTable.ParseValueInto | edgeconf/patterns/src/config_io.c:77-85 | skips blanks, cuts to the buffer, then trims |
| ConfigTable.ParseLineInto | edgeconf/patterns/src/config_io.c:55-87 | fills both buffers with the parsed pair, or fails exactly when the line has none |
| ConfigTable.GetLine | edgeconf/patterns/src/config_io.c:154-155 | takes up to a newline or a full buffer |
| ConfigTable.Config.constructor | edgeconf/patterns/src/config_io.c:126 | a cleared table is empty |
| ConfigTable.Config.Lookup | edgeconf/patterns/src/config_io.c:92-98 | returns the value of the first pair with the key |
| ConfigTable.Config.Update | edgeconf/patterns/src/config_io.c:100-120 | updates in place or appends, and fails exactly when full |
| ConfigTable.Config.Read | edgeconf/patterns/src/config_io.c:125-164 | fills the table with what the file parses to, the last duplicate winning |
| ConfigTable.Config.Render | edgeconf/patterns/src/config_io.c:275-277 | produces the printed table |
| ConfigDelta.Diff | edgeconf/patterns/src/config_io.c:348-364 | collects the changed and new pairs in order, up to the limit |
| ConfigDelta.FindRemoved | edgeconf/patterns/src/config_io.c:328-343 | collects the pairs whose key is gone, up to the limit |
| ConfigDelta.DeltaSent | edgeconf/patterns/src/config_io.c:328-364 | a delta is sent exactly for a key whose reading changed, with its new or last known value |
| ConfigDelta.DeltasAdvance | edgeconf/patterns/src/robust_config.c:319-353 | applying a wake-up's deltas to the old map gives exactly the new map |
| ConfigDelta.ConvergesIff | edgeconf/patterns/src/robust_config.c:319-353 | any other view is brought up to date exactly when it already agrees on every key the daemon saw no change in |
| ConfigDelta.DeltasFit | edgeconf/patterns/src/robust_config.c:322-353 | deltas between parsed files always fit the wire format |
| ConfigDelta.LostDeltaIff | edgeconf/patterns/src/robust_config.c:322-358 | a subscriber that had the old snapshot has the new one exactly when every send of the wake-up succeeded |
| Watcher.TriggersIff | edgeconf/patterns/src/robust_config.c:296-303 | an event counts exactly when its name begins with the file's, so those of its temp and lock files do |
| Watcher.StepKeepsInv | edgeconf/patterns/src/robust_config.c:232-360 | every step of a writer, the daemon or a subscriber keeps the feed's invariant |
| Watcher.CaughtByPost | edgeconf/patterns/src/robust_config.c:322-333 | publishing moves a delta from the daemon to every inbox without changing what it leads to |
| Watcher.CaughtByHandling | edgeconf/patterns/src/robust_config.c:373-380 | so does handling a payload |
| Watcher.WatcherAgrees | edgeconf/patterns/src/robust_config.c:239-358 | in every interleaving, when the daemon waits with no event pending its snapshot is the file, and every subscriber that has read its inbox holds exactly the file's map |
| Watcher.SettlingEnds | edgeconf/patterns/src/robust_config.c:270-360 | without writers, daemon and subscribers cannot run forever |
| Watcher.SettledIsQuiet | edgeconf/patterns/src/robust_config.c:270-360 | and cannot stop with an event or a message unread |
| Watcher.SettledAgrees | edgeconf/patterns/src/robust_config.c:239-360 | so once writers stop every subscriber ends up holding the file's map |
| Watcher.DrainIs | edgeconf/patterns/src/robust_config.c:322-358 | an undisturbed wake-up posts its payloads in order to every inbox and then advances the snapshot |
| Watcher.WakeUpIs | edgeconf/patterns/src/robust_config.c:287-358 | a whole undisturbed wake-up of a polling daemon makes the file the snapshot and posts its difference to every inbox, or changes nothing but the event queue |
| Watcher.WriteIsPublished | edgeconf/patterns/src/robust_config.c:239-358 | a rename or a writer's close is always possible and always seen: the next wake-up posts the difference to the new file |
| Watcher.QuietRuns | edgeconf/patterns/src/robust_config.c:270-380 | from every poll a run of the daemon and its subscribers ends with no event and no message left |
| WatchDaemon.Daemon.constructor | edgeconf/patterns/src/robust_config.c:248-251 | the first snapshot is the parsed file, or empty |
| WatchDaemon.Daemon.IsTriggered | edgeconf/patterns/src/robust_config.c:296-303 | a batch triggers exactly when some event's name begins with the file's |
| WatchDaemon.Daemon.PublishPairs | edgeconf/patterns/src/robust_config.c:322-333 | every pair from a parsed file is offered to the channel once and in order, none refused for its size, whatever the channel answers |
| WatchDaemon.Daemon.PublishDifference | edgeconf/patterns/src/robust_config.c:319-353 | the payloads offered are exactly those of the snapshot difference, in order |
| WatchDaemon.Daemon.OnEvents | edgeconf/patterns/src/robust_config.c:296-358 | one pass offers exactly the difference to the re-read file and makes it the snapshot whatever the channel answers, or does nothing |
| WatchDaemon.PassIsWakeUp | edgeconf/patterns/src/robust_config.c:287-358 | an undisturbed wake-up of the state machine advances the snapshot as that pass does and posts to every inbox what it offers |
| WatchDaemon.AllCarried | edgeconf/patterns/src/robust_config.c:322-333 | a channel that accepts everything delivers everything offered |
| WatchDaemon.CarriedOf | edgeconf/patterns/src/robust_config.c:322-333 | of one pass's deltas the subscribers get those the channel accepted, in order |
| ConfigUpdate.ConfigPath.ReadConfig | edgeconf/patterns/src/config_io.c:125-164 | for every way the file operations may go the table is what the bytes read parse to; a missing or unopenable file fails with an empty table |
| ConfigUpdate.ConfigPath.WriteAtomic | edgeconf/patterns/src/config_io.c:237-323 | the call succeeds exactly when each of its steps does; the path then holds the printed table and is untouched otherwise |
| ConfigUpdate.ConfigPath.UpdateKey | edgeconf/patterns/src/config_io.c:169-232 | the call fails exactly when the table it read is full for the key, or has to be written and a step of that fails; a failed call leaves the file alone, a successful one performs the update on exactly what it read |
| Updaters.StepKeepsInv | edgeconf/patterns/src/config_io.c:169-323 | every step of every process, a read that fails or stops early, a death or a power loss keeps the updaters' invariant |
| Updaters.VisibleIsLog | edgeconf/patterns/src/config_io.c:197-230 | at every moment of every run the visible file is exactly what the logged updates, one after another, each on what it read, make of the initial file |
| Updaters.SuccessIsLogged | edgeconf/patterns/src/config_io.c:211-231 | a call returning 0 has just been logged, and only power loss ever shortens the log |
| Updaters.PowerLossIsClean | edgeconf/patterns/src/config_io.c:287-308 | power loss leaves a complete earlier or current file, with at least everything up to the last directory sync |
| Updaters.SyncMakesDurable | edgeconf/patterns/src/config_io.c:310-320 | once a directory sync has succeeded its update survives whatever follows |
| Updaters.LastWriteWins | edgeconf/patterns/src/config_io.c:220-227 | after a series of updates that each read the whole file every key reads as the last update to it, or as in the initial file |
| Updaters.ReaderSeesLastWrite | edgeconf/patterns/src/config_io.c:169-232 | so it does at every moment of every run whose logged updates read the whole file, in lock order |
| Updaters.UpdateCompletes | edgeconf/patterns/src/config_io.c:169-323 | whenever the lock is free a new caller can run through, and the file is then what its update makes of it, on stable storage if it changed |
| Updaters.ShortReadKeepsIff | edgeconf/patterns/src/config_io.c:206-227 | after a read that stopped early the other keys survive the call exactly if it writes nothing, the key being set or the table full, or the part read gives them the same values |
| Updaters.UnreadFileIsWiped | edgeconf/patterns/src/config_io.c:128-133 | an update that cannot open an existing file replaces it with its one pair |
| Feed.StepKeepsInv | edgeconf/patterns/src/robust_config.c:239-358 | every step of updaters, daemon and subscribers keeps both invariants and the daemon's file the updaters' file, across power loss and restart |
| Feed.SubscriberSeesLastWrite | edgeconf/patterns/src/config_io.c:169-323 | end to end: while the daemon waits with no event pending, a subscriber that has read its inbox gives every key the last update to it in lock order |
| Feed.SettledFeedAgrees | edgeconf/patterns/src/robust_config.c:239-360 | and that is where every run ends once updaters stop |
| Feed.UpdateReachesAll | edgeconf/patterns/src/config_io.c:169-323 | from every reachable poll with the lock free, an undisturbed update of a normal pair and a settling daemon leave every subscriber with the updated value and the others as before |
| Topics.AcceptedIsPlain | autoscale/adjust.py:56-58 | an accepted serial number is one plain MQTT level |
| Topics.AcceptedIff | autoscale/adjust.py:56-66 | a configuration is accepted exactly when its names are short and of the allowed characters, its limits positive, and its points at most 256 |
| Topics.DecimalInjective | autoscale/adjust.py:655-660 | different numbers have different numerals |
| Topics.HashMatches | autoscale/adjust.py:651-660 | a filter of plain levels and a final wildcard receives exactly the topics that begin with those levels |
| Topics.PointMatchesIff | autoscale/adjust.py:651-660 | a point reaches the filters that name its machine, module or unit, and no other |
| Topics.TiersPartition | autoscale/adjust.py:651-660 | in every tier each point of the machine is received by exactly one filter |
| Topics.MachinesOverlapIff | autoscale/adjust.py:651-660 | two machines' filters can receive the same message exactly when the machines share a serial number, whatever their tiers |
| Topics.TopicCount | autoscale/adjust.py:62-66 | a tier has 1, M or M times U filters, and never more than 256 |
| DecoderLedger.CrashKeepsInv | autoscale/adjust.py:391-397 | counting a crash keeps counts within the threshold, every process accounted for and every hold remembered |
| DecoderLedger.SpawnKeepsInv | autoscale/adjust.py:412-450 | a start the backoff allows, at any later time, keeps the invariant |
| DecoderLedger.TerminateKeepsInv | autoscale/adjust.py:375-389 | so does a termination |
| DecoderLedger.RecoverKeepsInv | autoscale/adjust.py:442-443 | so does clearing a healthy decoder's record: it was not held |
| DecoderLedger.AskKeepsInv | autoscale/adjust.py:417-419 | discarding an expired record is harmless even if the start then fails |
| DecoderLedger.RestartWaits | autoscale/adjust.py:391-433 | in any run, after a crash that reaches the threshold no start of the topic comes before more than the window has passed |
| DecoderLedger.CrashIsItsStreak | autoscale/adjust.py:391-397 | in any run, a crash's count is its place in a streak with no gap longer than the window and no recovery, and never exceeds the threshold |
| MachineRuntime.Runtime.SpawnDecoder | autoscale/adjust.py:366-373 | starts an untracked topic with a fresh process for that topic and records it; fails exactly when the system refuses |
| MachineRuntime.Runtime.TerminateDecoder | autoscale/adjust.py:375-389 | forgets a tracked decoder and ends its process, and does nothing for an untracked one |
| MachineRuntime.Runtime.MarkCrash | autoscale/adjust.py:391-397 | drops a dead decoder and counts its crash |
| MachineRuntime.Runtime.AskRestart | autoscale/adjust.py:412-433 | allows a start when there is no record, the record has expired or it is below the threshold, discarding an expired one |
| MachineRuntime.Runtime.CheckDecoder | autoscale/adjust.py:437-443 | asks the system whether the process has exited and reaps it exactly then, or clears the record of one up for longer than an interval |
| MachineRuntime.Runtime.ReapAll | autoscale/adjust.py:437-443 | every decoder whose process had exited is dropped and its crash counted; no other is dropped; every one up for longer than an interval has no failure record |
| MachineRuntime.Runtime.Reconcile | autoscale/adjust.py:435-450 | afterwards no tracked process had exited before, every exited one was counted, every desired live one is still the tracked one with its old failure record dropped; the active topics are exactly the desired ones not held by the backoff, each deferral decided within its window; false exactly when the system refused a start |
| MachineRuntime.Runtime.MeasureAndReconcile | autoscale/adjust.py:461-498 | after every interval the same holds of the chosen tier, at most 256 decoders are tracked and no point is read twice, and every point is read by a decoder that had not exited when no desired topic is held back and no start refused |
| MachineRuntime.Runtime.Close | autoscale/adjust.py:500-503 | nothing stays active, every process ever started has exited or been ended, and its books were closed exactly once |

## Left out

- SlotIo.Lands: a torn new record or compacted slot is taken to be old, new or CRC-failing; an accidental CRC collision of a half-written record is not modelled. For state updates this is proved (`SlotIo.StateUpdateLands`).
- CrashSafety.WriteIsCrashAtomic: takes a record write that was reported done as done, because the code's own check cannot tell (see above).
- CrashRuns.RunIsExplained: an interrupted compaction's rewrites land in order unless every key meets the condition of `Compaction.UnorderedCompactionIff`, because otherwise it is false.
- CrashRuns.RunKeepsOthers: in runs of several operations every slot can be read. What one operation does when some cannot is in `ConfigFile.PartKeepsLookups` and `ConfigFile.CompactedPart`; for a write it is the contract of `ConfigFile.File.Write` alone.
- ConfigFile.File.Create: a creation whose writes fail or that a crash cuts off is not modelled.
- ConfigFile.File.ValidateAndScan: the header's capacity is the number of slots in the file.
- ConfigFile.File.WriteRecordVerified: the read-back sees what is on the medium. One served from the page cache would pass with no sector landed.
- A torn header: the 64 bytes lie in one sector and are taken to land whole or not at all; open fails outright on a bad header CRC.
- The lock retry loop and its timeout, and several handles in one process.
- Byte order: the format is native-endian; the model has the little-endian layout.
- Key fields without a terminator, which only foreign files hold, are read as their full width.
- ConfigUpdate.ConfigPath.WriteAtomic: a flush that succeeds means that everything was printed, here and in `updaters.dfy`; the code ignores the results of its print calls (`edgeconf/patterns/src/config_io.c:275-277`).
- Encoding of text: config text and payloads are sequences of characters with a NUL terminator; UTF-8 validity, which the bus library insists on, is not modelled.
- The bus itself: connecting, owning the name, and match rules. Published signals reach every subscriber in order.
- Watcher.WatcherAgrees: reads of an existing file and sends succeed (`ConfigDelta.LostDeltaIff` covers a failed send), and the kernel's event queue does not overflow. Subscribers join with the daemon's snapshot; `ConfigDelta.ConvergesIff` covers any other start.
- Dry-run mode, the watchdog ping, poll timeouts and signals in the daemon's loop.
- Path buffers, directory creation and the lock file's own open; `flock` is an abstract lock that the kernel drops when its holder dies.
- Topics.Check: compares the port with `all` for ASCII letters only; reading configurations from dictionaries and YAML is not modelled.
- MachineRuntime.Runtime.Reconcile: decoders are visited in any order, where the code sorts the topics it starts; metrics, logging, the lock and the child's command line are not modelled.
- MachineRuntime.Runtime.MeasureAndReconcile: the measured byte delta is an input; the dry-run branch is not modelled.
- `runtime/`, `autoscale/decoder.py`, `autoscale/plc_config.py`, the eBPF program, the metrics server, `edgeconf/core/src/cli.c`, `edgeconf/patterns/src/watchdog.c`, loggers and command lines.
