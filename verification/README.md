# EnerOS build, flash and inspection tooling: a verified model

EnerOS ships host-side tooling that writes and inspects its disk images, gates its source
tree, and talks to the system as an independent protocol peer. This project models the parts
of that tooling with the most state, arithmetic and branching, and proves what they promise.

| files | what they model |
|---|---|
| Bytes | bytes, fixed-width encodings, option and result types |
| Extents, Readback | the populated extents of an image; full and extent-manifest digests; the PASS decision |
| FlashWrite, FlashSafety, FlashCommand | the sparse writer with its resume journal under power cuts; the `flash write` command |
| Calendar, DateStrings | `civil_from_days`, timestamps, date strings and the allowlist expiry test |
| FatVolume, FatChain, FatReader, EspFault | FAT16 geometry, cluster chains, extraction of the boot application; the ESP bit-flip fault |
| IsoDirectory | the inspector's and the fault injector's ISO 9660 walks |
| SourceText, TreeLine, DependencyTree | text cut into lines and joined; the closure gate: parsing a depth-prefixed listing and rebuilding dependency paths |
| ModuleGraph, ModDeclText, OrphanBatch, BatchRollback, BatchSeparate | the orphan gate and its rollback |
| CfgTracker, CfgSource, CfgExact, CfgFault, CfgSame, CfgReliable, CfgGate | the mock-leak line scanner, the source it reads, when it is exact, and the gate's own reading of attributes |
| Modbus, Mqtt | stream reassembly and register map of the Modbus slave; MQTT framing |
| Crc32, CrcBurst, BootControl, BootRecord | the bitwise CRC-32, the bursts it detects, and the boot-control record it protects |

`dafny verify dfyconfig.toml` checks the whole project with Dafny 4.11.

## How to read it

Code that updates things step by step is a `method` (in a `class` where the source changes an
object or a file in place), proved equal to a specification function; the theorems are lemmas
about that function. Computations that the source writes as expressions are functions.

Three modelling choices matter:

- **SHA-256** is a parameter `h` from byte strings to 32 bytes. Such a function cannot be
  injective, so no result assumes that. Each result that compares digests asks only that `h`
  has no collision within the finite set of byte strings hashed in that comparison
  (`Readback.CollisionFree`).
- **Power cuts** are a parameter of every writer call: the supply fails at a chosen durable
  step. A media write can be torn, leaving any subset of its bytes; a journal write can leave
  the old file or one that no longer parses; the removal of the journal can fail silently.
- **Machine integers** are unbounded unless the source's width decides something: the `u64`
  and `u32` fields of the extent manifest (a count beyond `u32` is encoded as zero, as in the
  source), truncating division in the date formula, the overflow of the depth parser, and the
  32-bit CRC register are explicit.

## Where the code does not keep a promise

- *Resuming a half-written target* (xtask/src/flasher.rs:445-447). Power lost after the first
  media write and before the first journal write leaves a target that is no longer blank and
  has no journal to vouch for it, and every later command refuses it:
  `FlashCommand.StrandedAfterFirstWrite`. The exact condition under which a rerun succeeds is
  `FlashCommand.RerunPassesExactly`.
- *Rollback of an orphan batch* (xtask/src/gate.rs:415-419). Snapshots are restored first to
  last, so two candidates declared in the same file lose a declaration:
  `BatchRollback.SharedDeclarationIsLost`, with the gate's own line tests. The exact condition
  on what the batch recorded is `BatchRollback.RollbackExact`. On the starting tree, for
  candidates that are declared in one file each and do not declare each other, it is that no
  two share that file: `BatchSeparate.RollbackFromStart`.
- *Stripping `mod <name>;`* (xtask/src/gate.rs:502-509). The substring test also takes
  `mod foobar;` and `mod foo; // bar;` for declarations of `bar`:
  `ModDeclText.OtherNamesAreStrippedToo`. It takes a line with a declaration prefix exactly
  when the text before the first semicolon ends with the name or the name and a semicolon
  occur behind it: `ModDeclText.TakenExactly`.
- *Stripping leaves the rest of the file alone* (xtask/src/gate.rs:521). Rejoining the lines
  drops the final line end: `mod a;` stripped from the two lines `mod a;` and `mod b;` leaves
  `mod b;` without its line end, `BatchRollback.FinalLineEndIsLost`. The rest is as it was if
  and only if no line is left, or the file ends without a line end in a line that is kept:
  `OrphanBatch.StripExactly`.
- *cfg protection* (xtask/src/gate.rs:1219-1244). A block that closes on the line that opens
  it, two attributes on one block, and an item on the line of its attribute each defeat the
  scanner: `CfgTracker.OneLineBlockReported`, `CfgTracker.StackedAttributeLost`,
  `CfgTracker.InlineItemHidesCall`. An attribute on code without a brace protects the next block
  instead: `CfgTracker.DanglingAttributeHidesCall`. `CfgSource.WellAttributed` is a check of
  the shape of the source, piece by piece, and it is exact for the attributes as the gate reads
  them (`CfgGate.GateReliable`), as for any notion of protection that holds for one attribute
  and not for another (`CfgReliable.ReliableExactly`). If it holds, the scan finds exactly the
  unprotected calls, however they and the attributes are placed. If it fails, then the text up
  to the first offending piece, followed by at most two plain lines, can hold a call that is
  wrongly reported or wrongly passed over. If the offending piece has a call site of its own,
  as all but some inline items do, the whole source as it stands can:
  `CfgReliable.AlwaysExactly`.
- *Expiry by string comparison* (xtask/src/closure.rs:237). It is date order to the end of
  year 9999 and no further: `DateStrings.OrderHorizon`. For any two days it is date order if
  and only if the earlier year is at most the later one cut to as many digits:
  `DateStrings.DayStringOrder`.
- *Modbus frames that announce fewer than two bytes* end the handler with an exception:
  `Modbus.EmptyFrameCrashes`. `Modbus.CrashExactly` says exactly when.

## Model

| member | source | states |
|---|---|---|
| Extents.CanonicalUnique | xtask/src/flasher.rs:776-803 | at most one extent list is sorted, covers every non-zero byte, starts and ends each extent on a non-zero byte, has no inner zero run of 4096, and keeps neighbours 4096 apart |
| Extents.ScanCanonical | xtask/src/flasher.rs:776-803 | the one-pass reference meets that specification on every prefix of every image |
| Extents.CollectRuns | xtask/src/flasher.rs:777-790 | the first pass finds exactly the maximal runs of non-zero bytes |
| Extents.PopulatedExtents | xtask/src/flasher.rs:776-803 | the two-pass loop returns the canonical list, hence the one the one-pass reference gives |
| Readback.ExtentManifestDigest | xtask/src/flasher.rs:808-821 | the streaming digest is the hash of length, count and one 48-byte entry an extent |
| Readback.ManifestBytesInjective | xtask/src/flasher.rs:808-821 | equal manifests list the same extents over images of equal length, even when the count field overflows to zero |
| Readback.ManifestDigestDetermines | xtask/src/flasher.rs:805-821 | equal manifest digests imply byte-equal images, zero regions included |
| Readback.ReadbackExact | xtask/src/flasher.rs:936-958 | for a token issued for an image, a readback passes under either policy if and only if it is that image |
| Readback.SampleLosesNothing | xtask/src/flasher.rs:371-375 | policies "sample" and "full" accept exactly the same readbacks |
| FlashWrite.Station.WriteOneExtent | xtask/src/flasher.rs:915-927 | media write then journal write of one extent, with the disk left by a power cut at either |
| FlashWrite.Station.WriteExtents | xtask/src/flasher.rs:903-928 | the loop over the extents, its skips and its interrupt limit, equals the fold of its specification |
| FlashWrite.Station.WriteSparseWithJournal | xtask/src/flasher.rs:861-934 | disk and outcome of one call, for every journal file, limit and power cut |
| FlashSafety.WriteKeeps | xtask/src/flasher.rs:917-920 | a media write, whole or torn, keeps every byte blank-or-image and every extent already held |
| FlashSafety.SkipsExactlyRecorded | xtask/src/flasher.rs:898-909 | the skipped offsets are those of the journaled prefix and no others |
| FlashSafety.CallSafe | xtask/src/flasher.rs:861-934 | every call keeps: journal a prefix of the extent list, journaled extents on the medium, every byte zero or the image's; completion leaves the image; refusal exactly on an unparsable journal, disk untouched |
| FlashSafety.RunSafe | xtask/src/flasher.rs:861-934 | that invariant holds after any number of calls, each cut anywhere |
| FlashSafety.CallProgress | xtask/src/flasher.rs:897-933 | an uncut call adds exactly min(limit, remaining) extents, reports whether it resumed, and leaves a journal exactly when work remains |
| FlashSafety.BatchProgress | xtask/src/flasher.rs:905-928 | after c calls of limit k the journal lists exactly c * k extents while that is below the total |
| FlashSafety.CompletesOnTime | xtask/src/flasher.rs:929-933 | a job of n extents completes in ceil(n/k) calls and not before; only the first call is not a resume |
| FlashCommand.VerifyJournalExtents | xtask/src/flasher.rs:846-858 | accepts exactly the journals whose every record digest matches a readable range of the medium; an empty range is readable anywhere |
| FlashCommand.CommandWrite | xtask/src/flasher.rs:434-536 | the whole decision sequence changes the disk and reports as its specification says, for every disk, fault and power cut |
| FlashCommand.NoFalsePass | xtask/src/flasher.rs:434-536 | for any medium, any journal however forged and any image file, PASS implies that the medium equals the authorized image |
| FlashCommand.ForeignJournalRefused | xtask/src/flasher.rs:873-886 | a journal of another job, or one that does not parse, leads to an error with the disk unchanged |
| FlashCommand.CommandSafe | xtask/src/flasher.rs:441-495 | a command that injects no corruption keeps the writer's invariant |
| FlashCommand.CampaignSafe | xtask/src/flasher.rs:405-537 | so does any sequence of commands on a freshly authorized target, each interrupted or cut anywhere |
| FlashCommand.SafeJournalVerifies | xtask/src/flasher.rs:846-858 | every journal an honest run leaves is borne out by its medium |
| FlashCommand.CorruptionDetected | xtask/src/flasher.rs:1213-1227 | injected corruption is never reported as PASS, under either policy, from any honest state |
| FlashCommand.AdmittedProgress | xtask/src/flasher.rs:473-536 | what an undisturbed admitted command reports and leaves, with and without the interrupt fault |
| FlashCommand.InterruptThenResume | xtask/src/flasher.rs:474-495 | the interrupt fault leaves one journaled extent and no success report; the rerun completes and reports a resume |
| FlashCommand.RerunPassesExactly | xtask/src/flasher.rs:445-472 | from every honest state an undisturbed rerun passes if and only if the journal lists an extent or the medium is blank under a journal that parses |
| FlashCommand.StrandedAfterFirstWrite | xtask/src/flasher.rs:465-472 | a power cut between first media write and first journal write makes every later command fail |
| Calendar.EpochIsDayZero | xtask/src/flasher.rs:1458-1459 | day 0 is 1970-01-01 |
| Calendar.YearBracket | xtask/src/flasher.rs:1467-1468 | the closed form for the year of the era finds the year whose span contains the day |
| Calendar.YearStartStep | xtask/src/flasher.rs:1470 | a March-based year has 366 days exactly when the February in it is in a leap year |
| Calendar.CivilFollowsCalendar | xtask/src/gate.rs:939-950 | for every integer day the result is a valid Gregorian date and the next day's result is its calendar successor |
| DateStrings.CivilOrder | xtask/src/flasher.rs:1459-1484 | dates are ordered as their day numbers, in both directions |
| DateStrings.FourDigitYears | xtask/src/closure.rs:252-262 | exactly the days -719528 to 2932896 have years 0 to 9999 |
| DateStrings.DateStringOrder | xtask/src/closure.rs:245-263 | for those days string order of the formatted dates is day order |
| DateStrings.DayStringOrder | xtask/src/closure.rs:245-263 | for any two days from year 0 on, string order is day order if and only if the earlier year is at most the later year cut to as many digits; otherwise it is reversed |
| DateStrings.FiveDigitYearBreaksOrder | xtask/src/closure.rs:262 | from 9999-12-31 to the next day the string order is reversed |
| DateStrings.OrderHorizon | xtask/src/closure.rs:262 | string order is day order for all days up to n if and only if n is at most 9999-12-31 |
| DateStrings.EpochTimestamp | xtask/src/flasher.rs:1796-1797 | the timestamp of unix time zero, character by character |
| DateStrings.TimestampOrder | xtask/src/flasher.rs:1448-1456 | to the end of year 9999, timestamps sort as strings exactly by time |
| DateStrings.AllowlistedUntilExpiry | xtask/src/closure.rs:232-240 | for any entries, dated or not, and any clock: a feature is exempt exactly while a matching, owned entry's text sorts behind today's, which for dated entries of four-digit years means that the day is still to come |
| FatVolume.GeometrySound | xtask/src/artifact_inspector.rs:694-776 | on every accepted volume boot sector, two equal FATs, root directory and clusters 2 to count + 1 lie inside it, one behind the other and disjoint |
| FatChain.CountGuardNeverFires | xtask/src/artifact_inspector.rs:830-836 | a set of existing clusters never exceeds the cluster count |
| FatChain.ChainIsRead | xtask/src/artifact_inspector.rs:816-883 | a cycle-free, in-range, terminated chain is read cluster by cluster in order; with a size exactly when it has ceil(size/cluster) clusters, giving exactly that many bytes |
| FatChain.NoChainNoRead | xtask/src/artifact_inspector.rs:829-874 | where no such chain exists, reading fails |
| FatChain.FollowChain | xtask/src/artifact_inspector.rs:826-874 | the loop with its visited set and count guard finds the chain and its contents, and terminates on every FAT content |
| FatChain.ReadFatChain | xtask/src/artifact_inspector.rs:816-883 | the same with the size check |
| FatReader.FindFatEntry | xtask/src/artifact_inspector.rs:778-814 | the lookup loop agrees with its specification on every directory |
| FatReader.FindEntryExact | xtask/src/artifact_inspector.rs:778-814 | a lookup succeeds if and only if exactly one slot before the end marker has the name, with the right type, zero high word and a data cluster; it returns that slot |
| FatReader.ExtractBootApplication | xtask/src/artifact_inspector.rs:675-692 | root, EFI, BOOT, BOOTAA64.EFI resolved in turn, every error included |
| FatReader.ExtractedSize | xtask/src/artifact_inspector.rs:683-691 | an extracted application has exactly the non-zero size its entry states |
| EspFault.InjectEspFault | xtask/src/fault_factory.rs:398-455 | flips one bit of the image in place, at the computed position of the ESP; refuses, and changes nothing, exactly when there is no such position in the whole image |
| EspFault.FaultPositionInCluster | xtask/src/fault_factory.rs:415-449 | on an accepted volume the injector's own geometry gives byte 256 of the cluster as the reader locates it |
| EspFault.FaultMeetsReader | xtask/src/fault_factory.rs:398-455 | after the fault the reader still succeeds and returns the application with only the low bit of byte 256 changed, or unchanged when it has at most 256 bytes |
| IsoDirectory.IsoFind | xtask/src/artifact_inspector.rs:905-952 | the inspector's walk, total on every directory |
| IsoDirectory.FindIsoEntry | xtask/src/fault_factory.rs:582-631 | the injector's walk, total on every directory |
| IsoDirectory.InspectExactly | xtask/src/artifact_inspector.rs:905-984 | the inspector finds an entry if and only if the directory can be read, every record in it is well formed and exactly one has the name and type; that one is the result |
| IsoDirectory.NextSector | xtask/src/artifact_inspector.rs:914-919 | the zero-length skip strictly advances, to a sector boundary |
| IsoDirectory.RecordsAgree | xtask/src/artifact_inspector.rs:954-984 | a record the inspector accepts has the same extent and flag for the injector |
| IsoDirectory.WalkersAgree | xtask/src/fault_factory.rs:582-655 | whenever the inspector finds an entry the injector finds the same extent, if and only if the directory has at most 64 KiB |
| IsoDirectory.SameFile | xtask/src/fault_factory.rs:512-534 | from the volume descriptor down, the injector strikes the file that the inspector verifies |
| IsoDirectory.InstallerFaultSeen | xtask/src/fault_factory.rs:535-542 | a flip inside the file and outside descriptor and directories leaves every lookup and changes exactly that byte |
| TreeLine.LineRoundTrip | xtask/src/closure.rs:100-138 | parsing a printed line returns its depth, package and features, with or without the repeat mark |
| DependencyTree.GateListing | xtask/src/closure.rs:177-214 | the depth-stack loop over the printed text equals the fold over its lines that parse |
| DependencyTree.CheckFeatures | xtask/src/closure.rs:199-206 | the findings of one line, in feature order |
| DependencyTree.StackAscends | xtask/src/closure.rs:184-195 | on any listing the stack depths stay strictly increasing |
| DependencyTree.TreeRead | xtask/src/closure.rs:184-206 | reading a subtree's listing reports its findings under their true paths and returns the stack to the path it started on |
| DependencyTree.GateReportsTree | xtask/src/closure.rs:100-214 | gating the printed text of any tree, with lines that do not parse anywhere in between, reports exactly its denied features, each under the true root-to-node path, and reaches exactly its packages |
| ModuleGraph.PushTargets | xtask/src/gate.rs:321-336 | queues exactly the resolved, referenced or test-gated declarations |
| ModuleGraph.Reach | xtask/src/gate.rs:311-337 | the worklist terminates with the least set containing the entries and closed under followed declarations |
| ModuleGraph.LeastIsModuleTree | xtask/src/gate.rs:311-337 | that set holds exactly the files to which a chain of followed declarations leads from an entry |
| ModuleGraph.Orphans | xtask/src/gate.rs:338-357 | the candidates are exactly the files to which no such chain leads, not included and not exempt |
| ModDeclText.TakenExactly | xtask/src/gate.rs:502-509 | a line with a declaration prefix is taken for the declaration of a module if and only if the text before its first semicolon ends with the name, or the name and a semicolon occur behind it |
| ModDeclText.NotTakenWithoutSemicolon | xtask/src/gate.rs:502-509 | a line without a semicolon is taken for no declaration |
| ModDeclText.OtherNamesAreStrippedToo | xtask/src/gate.rs:496-522 | stripping `bar` also strips `mod foobar;` and `mod foo; // bar;` |
| OrphanBatch.StripModDecl | xtask/src/gate.rs:496-522 | the loop joins exactly the lines that neither declare the module nor are the path attribute right before it |
| OrphanBatch.StripLines | xtask/src/gate.rs:496-522 | the stripped text reads back as the kept lines, except that an empty last line behind others has become the line end before it |
| OrphanBatch.StripExactly | xtask/src/gate.rs:496-522 | stripping removes the dropped lines with their line ends and changes nothing else if and only if no line is left, or the text ends without a line end in a line that is kept |
| OrphanBatch.CutNothing | xtask/src/gate.rs:496-522 | the reference for that, the text without its dropped lines, is the text itself when no line is dropped |
| OrphanBatch.StripShrinks | xtask/src/gate.rs:392-395 | stripping a text that declares the module always changes it, by making it shorter |
| OrphanBatch.Crate.TakeOut | xtask/src/gate.rs:374-405 | tree, snapshots and freed files after taking the candidates out one by one |
| OrphanBatch.Crate.RollBack | xtask/src/gate.rs:415-419 | writes the snapshots back first to last |
| OrphanBatch.Crate.Confirm | xtask/src/gate.rs:372-426 | the whole transaction, with the confirmed list in order |
| BatchRollback.RollbackExact | xtask/src/gate.rs:372-426 | a failed check restores the whole tree if and only if no declaring file is touched by a later candidate and every file deleted without a snapshot is rewritten by one |
| BatchRollback.SharedDeclarationIsLost | xtask/src/gate.rs:415-419 | two candidates declared in one file: the rollback loses a declaration |
| BatchRollback.FinalLineEndIsLost | xtask/src/gate.rs:521 | a file of two declarations, stripped of the first by the gate's own line tests, loses the final line end |
| BatchSeparate.RollbackFromStart | xtask/src/gate.rs:372-426 | candidates declared in one file each, none of which is a candidate: a failed check restores the whole tree if and only if no two are declared in the same file |
| BatchSeparate.SeparateTransaction | xtask/src/gate.rs:372-426 | candidates with distinct declaring files that are not candidates: failure restores the whole tree, success removes exactly the candidates and their declarations |
| CfgTracker.ScanLines | xtask/src/gate.rs:1212-1258 | the violations of a whole file |
| CfgTracker.CodeLine | xtask/src/gate.rs:1234-1255 | on any stack of open blocks, a line of code opens its blocks under the pending attribute, closes the top ones, and is reported exactly when no block that stays open protects it |
| CfgTracker.OneLineBlockReported | xtask/src/gate.rs:1234-1247 | a call in a protected block that closes on its own line is reported |
| CfgTracker.InlineItemHidesCall | xtask/src/gate.rs:1222-1229 | a whole item on the line of its attribute hides the call that follows it |
| CfgTracker.StackedAttributeLost | xtask/src/gate.rs:1221-1222 | of two attributes on one block the first is lost |
| CfgExact.PieceExact | xtask/src/gate.rs:1219-1255 | a piece of source that the scanner understands is reported exactly and leaves every guard on the block of its attribute or inside it |
| CfgExact.ScanExact | xtask/src/gate.rs:1212-1258 | on every well-attributed source exactly the calls that no attribute protects are reported, at their lines, for all attributes, protecting attributes and calls |
| CfgFault.Fault | xtask/src/gate.rs:1219-1255 | each way in which a piece is not understood is shown by one protecting attribute and one call: at the piece's own call site if it has one, else after at most two plain lines |
| CfgSame.SameExact | xtask/src/gate.rs:1219-1255 | whether the scan is exact depends only on which lines hold calls and which hold protecting attributes, not on the words |
| CfgReliable.ReliableExactly | xtask/src/gate.rs:1212-1258 | for any fixed notion of protection that accepts one possible attribute and rejects another: a source, broken off anywhere and continued by plain lines, is always scanned exactly if and only if it is well-attributed |
| CfgReliable.AlwaysExactly | xtask/src/gate.rs:1212-1258 | the same for the whole source and no continuation, where each inline item has a call site or opens one block under one attribute |
| CfgGate.AttributeTexts | xtask/src/gate.rs:74-81 | exactly the non-empty trimmed texts without a closing bracket are read from some attribute line |
| CfgGate.GateDistinguishes | xtask/src/gate.rs:74-89 | with the gate's own tests `#[cfg(test)]` protects and `#[cfg(unix)]` does not |
| CfgGate.GateReliable | xtask/src/gate.rs:74-89 | both exact conditions, for the attributes the gate reads and the ones it takes for protection |
| CfgTracker.DanglingAttributeHidesCall | xtask/src/gate.rs:1238-1244 | an attribute on brace-free code protects the next block, at any depth and distance |
| Modbus.ReplyEchoes | evidence/47/modbus_slave47.py:86-87 | every reply is a well-formed frame with the request's transaction and unit ids and a correct length field |
| Modbus.ChunkingIrrelevant | evidence/47/modbus_slave47.py:33-49 | every way of cutting a stream into receives leaves the same connection state |
| Modbus.DrainAnswersFrames | evidence/47/modbus_slave47.py:40-88 | exactly the frames of the stream are answered, in order |
| Modbus.CrashExactly | evidence/47/modbus_slave47.py:48-52 | the handler ends with an exception exactly when a complete header announces fewer than two bytes |
| Modbus.EmptyFrameCrashes | evidence/47/modbus_slave47.py:48-52 | seven zero bytes, a header that announces nothing, end the handler |
| Modbus.OnlyControlChanges | evidence/47/modbus_slave47.py:68-73 | over any frames only register 0x0200 changes, and it holds the last accepted write |
| Modbus.SessionReply | evidence/47/modbus_slave47.py:54-86 | a read of 0x0200 returns the last accepted write, other reads the initial value, a write is echoed, everything else gets its exception code |
| Modbus.SessionDeterminedByStream | evidence/47/modbus_slave47.py:32-88 | replies and final registers are functions of the byte stream alone |
| Modbus.Slave.ServeBuffer | evidence/47/modbus_slave47.py:40-88 | the inner loop serves the buffer and updates the register map in place |
| Modbus.Slave.HandleConnection | evidence/47/modbus_slave47.py:32-93 | one connection to its end of stream or exception |
| Mqtt.EncodeVarint | evidence/50/ops_mgmt_client.py:24-33 | the loop gives the base-128 digits with continuation bits |
| Mqtt.VarintRoundTrip | evidence/50/ops_mgmt_client.py:24-49 | for every n and suffix, decoding the encoding returns n and leaves the suffix |
| Mqtt.Socket.ReadLength | evidence/50/ops_mgmt_client.py:41-49 | the byte-wise loop decodes the remaining length or meets the end of the stream |
| Mqtt.Socket.ReadPacket | evidence/50/ops_mgmt_client.py:36-56 | reads exactly the packet at the head of the stream whatever sizes the receives have |
| Mqtt.PublishRoundTrip | evidence/50/ops_mgmt_client.py:59-77 | an encoded PUBLISH is read and parsed back unchanged, with the packet id exactly when QoS > 0, leaving the rest of the stream |
| Mqtt.ExchangePublish | evidence/50/ops_mgmt_client.py:36-77 | the same over a socket, for all receive sizes |
| Crc32.ComputeCrc | tools/reset-bootctrl.py:19-29 | the nested loops compute the complemented register |
| Crc32.UnstepDifference | tools/reset-bootctrl.py:28 | undoing a shift moves the difference of two registers up one bit while it stays below the top |
| Crc32.WindowInjective | evidence/42/ab_build.py:33-39 | at most four bytes are determined by what they do to the register |
| Crc32.CloseDifferencesDetected | tools/reset-bootctrl.py:19-29 | two messages of any equal length that differ only within four consecutive bytes have different CRCs |
| CrcBurst.FiveBytesInjective | tools/reset-bootctrl.py:19-29 | five bytes that agree before bit s of the first and from bit s of the last are determined by what they do to the register |
| CrcBurst.BitBurstDetected | tools/reset-bootctrl.py:19-29 | two messages of any equal length whose differing bits lie within 32 consecutive ones, starting at any bit, have different CRCs |
| BootControl.ValidIffResidue | tools/reset-bootctrl.py:37-39 | a record's checksum is right if and only if the register over the whole record ends in one fixed value |
| BootControl.DamageDetected | tools/reset-bootctrl.py:37-39 | damage within any four consecutive bytes of a valid record, checksum field and border included, is detected |
| BootControl.BitDamageDetected | tools/reset-bootctrl.py:37-39 | so is damage within any 32 consecutive bits of a valid record |
| BootRecord.BuildRecord | evidence/42/ab_build.py:78-100 | every field reads back from its offset, all other bytes are zero, the checksum is right |
| BootRecord.PutAllReads | evidence/42/ab_build.py:80-98 | disjoint fields read back what was written and nothing else changes |
| BootRecord.ResetRecordExact | tools/reset-bootctrl.py:34-39 | a reset record is valid, has sequence zero, and keeps every other byte before the checksum |
| BootRecord.ResetKeepsLayout | tools/reset-bootctrl.py:35-39 | a reset changes the sequence field of a laid-out record and no other field |
| BootRecord.ResetOfBuilt | evidence/42/ab_build.py:78-100 | resetting a built record gives the layout of the same fields with sequence number zero |
| BootRecord.Image.ResetBootControl | tools/reset-bootctrl.py:31-44 | both copies rewritten in place, or a short file refused untouched |
| BootRecord.ResetExact | tools/reset-bootctrl.py:31-44 | after a reset both copies are the same reset record and the rest of the disk is untouched |
| BootRecord.ResetIdempotent | tools/reset-bootctrl.py:31-44 | resetting twice is resetting once |

The date formula occurs three times, in xtask/src/flasher.rs:1459-1484, xtask/src/gate.rs:939-950
and inlined in xtask/src/closure.rs:252-261, with the same expressions; `Calendar.CivilFromDays`
is the model of all three, so they agree.

## Left out

- Signatures, key loading, token and birth-record JSON, and the hexadecimal form of digests: thin wrappers; digests are compared as bytes.
- `parse_gpt` and `validate_raw_image`: they live in a crate that is not part of this model; the validated sector size is a parameter of the command.
- The schema and target-path strings of a journal: written by the tool and compared by nothing.
- A torn media write that would extend a short file: the model gives it the length of the whole write.
- FlashCommand.CommandWrite: starts after path canonicalisation and the equality of image paths, which are file-system matters.
- FatReader.ExtractBootApplication: takes the ESP as a byte string; cutting it out of the disk image by partition range is not modelled.
- EspFault.InjectEspFault: the partition range is a parameter, and a sector size of zero is refused where the source divides by it and aborts; the other artifact mutations each flip one byte at a fixed or decoded offset and would only add easy members.
- The volume-id string and the El Torito catalog of an installer ISO: flat field checks.
- UTF-8 validity of MQTT topics, Unicode whitespace in listings: topics are bytes, whitespace is ASCII.
- TreeLine.LineRoundTrip: covers package names that do not start with a digit and feature names without blanks, commas or closing parentheses, as cargo prints them.
- Text heuristics of the gates (references to a module, deny patterns, recognition of calls): given as data or as parameters of the model.
- Carriage returns: lines end with a line feed only.
- CfgExact.ScanExact: a source is given as pieces with their brace counts; braces inside strings and comments, which the scanner counts as well, are not told apart, and an attributed line that closes a block and then opens another, such as `fn a() {} fn b() {`, is no piece.
- OrphanBatch.Crate.TakeOut: the directory order in which declaring files are searched is a parameter, and write errors, which the source ignores, do not occur.
- Sockets, timing, transcripts, the OS error branch of the Modbus handler: input and output only.
- Report gates, evidence chains, catalog and verdict checks, CI and fuzz drivers: long but flat, each settled by reading one branch.
