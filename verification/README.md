# Proofs about budyk

budyk is a monitoring daemon. It samples a host's metrics, stores them in fixed-size ring
files on disk, folds fine samples into coarse ones, answers queries while it writes, picks
how often to sample from what it sees, and runs rules in Lua over the samples. This project
models the parts of it whose correctness is hard to see and proves what they promise, for
every input, every run and every reachable state.

- **The rings** (`RingFile`, `RingOpen`, `RingCheck`, `RingLevels`, `RingRuns`, `RingWalk`,
  `RingAlone`, `RingConvert`): a ring is a list of slots plus the indices, behind a header
  checked byte for byte. `append` is cut into its steps: the begun mark, the slot write
  (which may tear or fail), the header's index, the index in memory. So is a query: the
  index it starts from, each read of its binary search, each read of its walk and the look
  at the begun mark after it. A crash may fall between any two of them. All of it is held to
  a plain append-only log: what a walk returns for index *l* is the record appended as *l*,
  it has every record still there or the newest of them, and recovery after a crash at any
  step counts every record written. The exceptions to both are stated as an if and only if.
  Run alone, the same steps give the answer the query's loops are proved to give.
- **Queries** (`RingQuery`, `QueryAll`, `QueryMeaning`): binary search over a rotated ring
  with records that do not decode, even spreading, the dropping of folded records a finer
  ring still covers, thinning by time.
- **Fold windows** (`Aggregator`, `FoldMeaning`, `TierStore`): each finer sample is in
  exactly one folded record of the coarse log or in the open window, every field of a folded
  record is the right summary of its window, event counts add up, and every ring stays in
  time order.
- **Records** (`Crc`, `CrcCheck`, `Record`): the table-driven CRC-32C is the bit-by-bit one
  and the remainder of a polynomial division; damage within four bytes in a row is always
  found.
- **Patterns** (`LuaSpec`, `LuaMeaning`, `LuaMatch`, `LuaCaptures`, `LuaValues`, `LuaLib`,
  `LuaGmatch`): the counted, backtracking pattern matcher finds the first of all the ways to
  match, in the order of preference of section 6.4.1 of the Lua 5.4 Reference Manual, and
  charges exactly the work it counts. Which ways there are is said of the pattern's parts
  (classes, sets, repetitions, captures) and the subject's characters, not of the matcher's
  text. `find`, `match`, `gmatch` and `gsub` over it answer with the leftmost matches and
  their captures; on a harmless pattern, one that has no error and is not too long, they
  raise for the limit, for a capture left open or for a refused replacement, and for nothing
  else.
- **The scheduler** (`Scheduler`, `SchedulerMeaning`, `SchedulerClock`,
  `SchedulerEscalation`): a timed state machine. A clock stepped forward changes no
  decision, one stepped back none but about requests the step makes stale; an escalation
  begins and ends exactly when the history of anomalies says so.
- **Text** (`JsonText`, `JsonMeaning`, `JsonField`, `FieldMeaning`, `Base64Text`,
  `HeaderText`, `HeaderMeaning`, `HeaderReader`): UTF-8, JSON strings and RFC 2047 words
  over arbitrary bytes, there and back, the words through any mail reader.
- **Smaller machines**: the worker's queue (`Worker`), the file watcher against a kernel
  that may answer anything (`FileWatcher`), the top lists and the counters of the process
  and device collectors (`Detail`, `Counted`).
- **Shared**: samples and levels (`Sample`), lemmas of division (`Arith`), `Common`.

Source code that updates fields in place is a class here; each of its methods states its
whole new state through a function on values, and the lemmas are about those functions and
about runs of them. What the functions at the bottom compute is stated once more without
naming them, in the modules whose names end in `Meaning` and in `RingLevels`, `CrcCheck` and
`LuaValues`. A crash is the death of the process, not of the machine: what was written is on
disk. Atomics are sequentially consistent. Doubles are reals. Integers are unbounded except
where the width matters and is written out. I/O results, the clock and the kernel's answers
are parameters over which everything is proved.

`dafny verify dfyconfig.toml` checks the whole project.

## Where the code does not do what one would expect

Each of these is proved: an input that shows it, and the exact condition under which the
expected property holds.

- A ring of capacity 1 that is full and loses its process between the slot write and the
  header's index comes back one record short (`RingRuns.OneRecordRingLosesTheIndex`,
  `RingRuns.RecoveryCountsEveryWrite`).
- A new ring's header that is written short, on a disk that then refuses to empty the file
  again, is not blank and is refused at every later start (`RingOpen.OneByteLeft`,
  `RingOpen.RetryIff`).
- A query with an upper bound searches for where to start without looking at the begun mark.
  A read of a slot written over since can mislead it, so that it starts too low and leaves out
  records still in their slots (`RingWalk.SearchOvertaken`, `RingWalk.SearchMissesIff`).
- A walk gives up at the oldest record when an append has begun on its slot. If that append
  fails before it writes, the record is still there and missing from the answer
  (`RingWalk.FailedAppendHides`, `RingWalk.WalkMissesNothing`).
- On a ring out of time order, a query without an upper bound misses records that lie under
  a run of more than 1024 older ones (`RingQuery.BuriedIsMissed`, `RingQuery.UnboundedExact`).
- A pattern with a `)` and no other special character is searched for plainly, where as a
  pattern it is an error (`LuaLib.ParenFoundPlainly`, `LuaLib.PlainIsPattern`).
- A pattern that leaves a capture open, such as `(a`, is an error where it matches and no
  error where it does not (`LuaLib.UnclosedRaises`, `LuaLib.StrFind`).
- After the clock steps back, a request for a level that holds an older request takes its
  place even with an earlier deadline, and the level ends early
  (`SchedulerClock.StaleRequestDiffers`, `SchedulerClock.AskAfterBack`).
- ASCII text with a token that looks like an encoded word, such as an alert
  `budyk: =?UTF-8?B?QQ==?=`, is sent as it is and shown decoded
  (`HeaderReader.BudykLookalike`, `HeaderReader.ShownAsMeant`).
- A device name of 32 bytes or more is cut when kept and never found again, and the cut name
  may be another device's own, whose counters are then taken from the wrong entry
  (`Counted.LongNameLost`, `Counted.NameCollides`, `Counted.FoundIff`).
- Two entries of one process with the same CPU and memory compare equal, so what qsort makes
  of them is open (`Detail.TiedEntries`, `Detail.OneOrderIff`).

## Model

| member | source | states |
|---|---|---|
| `Rings.RingFile.Open` | src/storage/ring_file.cpp:124-133 | once its header is made or has passed the checks, a ring opens with the disk's slots and index, nothing under way |
| `RingOpen.OpenImpl` | src/storage/ring_file.cpp:53-134 | whatever the system calls answer: the file made, checked or refused with the code's error, and on success the ring of its slots and index |
| `RingOpen.HeaderIsBlank` | src/storage/ring_file.cpp:32-40 | the loop finds whether every byte is zero |
| `RingOpen.HeaderAccepted` | src/storage/ring_file.cpp:95-122 | a ring's header is accepted for its own tier, record size and capacity and no others, with the code of what differs first, and gives its index back |
| `RingOpen.HeaderLayoutIs` | src/storage/ring_file.cpp:17-30 | where the magic and the tier stand, and zeros |
| `RingOpen.NumbersAre` | src/storage/ring_file.cpp:17-30 | where the version, record size, capacity and index stand, each byte by byte, the least first |
| `RingOpen.ForeignRefused` | src/storage/ring_file.cpp:116-119 | bytes that do not begin as a ring, and a ring of another version, are refused as such |
| `RingOpen.RefusedUntouched` | src/storage/ring_file.cpp:53-134 | only a file that is made anew is changed |
| `RingOpen.OpensAgain` | src/storage/ring_file.cpp:53-134 | a ring opened once opens again, to read or to write, as the same ring |
| `RingOpen.NewIsNew` | src/storage/ring_file.cpp:76-133 | a ring made on an empty file starts the runs of appends, walks and crashes |
| `RingOpen.RetryIff` | src/storage/ring_file.cpp:102-108 | after a failed header write the next start opens the ring if and only if the file was emptied, nothing was written, or nothing but zeros was missing |
| `RingOpen.OneByteLeft` | src/storage/ring_file.cpp:102-108 | one byte written and not undone: the ring opens no more |
| `Rings.RingFile.Append` | src/storage/ring_file.cpp:187-210 | one call is the steps of the protocol in order, whole, failed or torn |
| `Rings.RingFile.AdvanceWriteIndex` | src/storage/ring_file.cpp:227-234 | all three indices move together, the slots stay |
| `RingChecks.CountUnindexed` | src/storage/ring_check.cpp:41-74 | the count is the length of the longest run of rising stamps after the index, not after now |
| `RingChecks.UnindexedIsLongest` | src/storage/ring_check.cpp:56-73 | exactly one length is that of the longest run |
| `RingChecks.Recover` | src/storage/tier_manager.cpp:279-284 | recovery indexes exactly the run and touches no slot |
| `RingChecks.RecoverTwice` | src/storage/ring_check.cpp:41-74 | whatever the ring holds, a second recovery at the same instant counts 0 |
| `RingLevels.FitsIff` | src/storage/ring_check.cpp:31-39 | a ring takes a level's records for its own if and only if store puts that level into a ring of that tier |
| `RingLevels.RecoveryCounts` | src/storage/ring_check.cpp:41-74 | recovery counts exactly the slots after the index whose own records go on rising past the newest stamp among the live ones, not after now |
| `RingLevels.EveryRingRecovers` | src/storage/tier_manager.cpp:374-384 | each ring of the manager, killed at any step of an append of a record store put there, recovers every completed slot write unless it loses its index |
| `RingRuns.WalkSeesTheLog` | src/storage/tier_manager.cpp:542-567 | in every interleaving of append's steps with a walk, each record taken for an index is the one appended under it, in the window, at most max, in write order |
| `RingRuns.StepKeepsTied` | src/storage/ring_file.cpp:187-210 | each writer's and each reader's step keeps the slots and the walk tied to the log |
| `RingRuns.OpenedIsTied` | src/storage/ring_file.cpp:53-134 | a ring opened on any slots is tied to the log its live slots spell |
| `RingWalk.WalkMissesNothing` | src/storage/tier_manager.cpp:501-567 | through any interleaving of the query's reads with append's steps and crashes, a finished walk has every record of its window that is still in its slot, or the newest max of them, if and only if no read misled its search while the window's newest is still there, and it did not give up at a record still there |
| `RingWalk.SearchMissesIff` | src/storage/tier_manager.cpp:520-528 | from the opening of a bounded query on, the walk starts below a record of the window still in its slot if and only if some read of the search showed a record after until in the slot of one that is not, and the window's newest record is still there |
| `RingWalk.MisleadingIsLapped` | src/storage/tier_manager.cpp:57-66 | such a read is of a slot written over since |
| `RingWalk.FailedAppendHides` | src/storage/tier_manager.cpp:542-567 | a run of a ring of two: an append begun and failed during the walk leaves the ring as it was and the oldest record out of the answer |
| `RingWalk.SearchOvertaken` | src/storage/tier_manager.cpp:57-66 | a run of a ring of five: the answer is empty while a record of the window is still in its slot |
| `RingAlone.AloneIsQuery` | src/storage/tier_manager.cpp:501-567 | on a ring nobody writes, the query's steps end in the newest max of the window on a ring in time order, and without an upper bound in the newest of it above where the walk gives up |
| `RingAlone.QueryProceeds` | src/storage/tier_manager.cpp:57-83 | whatever the writer does and whichever reads fail, each step of a query brings it nearer its end |
| `RingAlone.FailedReadPasses` | src/storage/tier_manager.cpp:542-548 | a slot that cannot be read is passed over |
| `RingRuns.RecoveryCountsEveryWrite` | src/storage/ring_check.cpp:41-74 | after a crash at any step of append recovery counts every completed slot write, if and only if the ring is not a full one of capacity 1 that died between slot and header |
| `RingRuns.OneRecordRingLosesTheIndex` | src/storage/ring_check.cpp:63-72 | the failing ring itself |
| `RingRuns.CrashKeepsSound` | src/storage/ring_file.cpp:227-234 | crash and recovery, unless the index is lost, leave a readable suffix of the written log |
| `RingRuns.RunsKeepSound` | src/storage/ring_file.cpp:187-234 | any run of appends, walks, crashes and recoveries in which no crash loses an index keeps the ring the newest part of the log |
| `RingRuns.NewRingIsSound` | src/storage/ring_file.cpp:53-134 | a new ring of blank slots starts such a run |
| `RingConvert.CopyWindow` | src/storage/ring_check.cpp:102-114 | the records to copy are the newest that both rings hold, the older ones counted as skipped |
| `RingConvert.CopyRecords` | src/storage/ring_check.cpp:111-132 | the copy holds exactly the records that decode, in order, none lapped |
| `RingConvert.ConvertRing` | src/storage/ring_check.cpp:76-151 | on success the new ring spells the decodable ones of the newest records, unindexed ones included; kept plus dropped is all survivors |
| `RingConvert.ReadsNoSlotTwice` | src/storage/ring_check.cpp:95-132 | no slot is read for two indices |
| `RingConvert.ConvertSeesTheLog` | src/storage/ring_check.cpp:76-151 | converting after a crash at any step of append that does not lose the index keeps what recovery would have kept |
| `RingQuery.TsFrom` | src/storage/tier_manager.cpp:77-83 | the stamp of the first record from k on that decodes |
| `RingQuery.LowerBound` | src/storage/tier_manager.cpp:57-66 | on a ring in time order with holes, the split point a linear scan finds |
| `RingQuery.SplitParts` | src/storage/tier_manager.cpp:53-56 | that point has only older records below it and no older one from it on |
| `RingQuery.AnyIn` | src/storage/tier_manager.cpp:69-73 | one search answers whether the ring holds a record in the interval |
| `RingQuery.WalkDown` | src/storage/tier_manager.cpp:541-567 | on any ring, the newest of the window above where the walk gives up |
| `RingQuery.QueryRing` | src/storage/tier_manager.cpp:501-570 | on a ring in time order exactly the newest max records of the window, oldest first |
| `RingQuery.CutAtLongRun` | src/storage/tier_manager.cpp:539-560 | the walk never passes a run of more than 1024 older records |
| `RingQuery.CutIsLongRun` | src/storage/tier_manager.cpp:539-560 | it gives up only at such a run or past the live records |
| `RingQuery.UnboundedExact` | src/storage/tier_manager.cpp:501-570 | without an upper bound, on a ring in any order, the answer is complete if and only if, above every run of more than 1024 older records with one of the window under it, there are max records of the window |
| `RingQuery.BuriedIsMissed` | src/storage/tier_manager.cpp:539-560 | a ring of 1026 records whose one record of the window is not returned |
| `RingQuery.SoundIsOrdered` | src/storage/tier_manager.cpp:511-514 | a ring only append wrote, through any crashes, is in time order |
| `QueryMeaning.AnswerIs` | src/storage/tier_manager.cpp:541-567 | what comes back is, slot by slot, the newest max records stamped from since to until (0 is no end), as stored but for the level asked for |
| `QueryAll.PickStep` | src/storage/tier_manager.cpp:486-488 | the spread's indices strictly rise, so its guard against a repeat never fires |
| `QueryAll.PickEnds` | src/storage/tier_manager.cpp:484-488 | both ends are picked, nothing outside them, and everything when all fit |
| `QueryAll.PickIs` | src/storage/tier_manager.cpp:484-488 | the k-th pick lies k of take - 1 equal steps from the first, rounded down |
| `QueryAll.PickSpacing` | src/storage/tier_manager.cpp:484-488 | so neighbours lie floor or ceiling of (count - 1) / (take - 1) apart |
| `QueryAll.ReadPicks` | src/storage/tier_manager.cpp:483-498 | the loop returns the picked records that decode and are of the window |
| `QueryAll.QuerySpread` | src/storage/tier_manager.cpp:466-499 | on a ring in time order the spread that linear scans would give |
| `QueryAll.NothingOutside` | src/storage/tier_manager.cpp:473-477 | the two searches bound the window exactly |
| `QueryAll.SpreadWhole` | src/storage/tier_manager.cpp:479-498 | a window no larger than max comes back whole |
| `QueryMeaning.SpreadIs` | src/storage/tier_manager.cpp:466-499 | a ring in time order gives the records asked for among at most max slots spread evenly between the two ends of the window |
| `QueryAll.IsCovered` | src/storage/tier_manager.cpp:110-119 | the shortcut through memory plus the searches answer as a scan of every ring does |
| `QueryAll.DropCovered` | src/storage/tier_manager.cpp:97-121 | a folded record goes exactly when a finer ring still holds a record of its window |
| `QueryAll.Collect` | src/storage/tier_manager.cpp:415-439 | every ring's share, each folded record only where it stands in for finer ones |
| `QueryAll.ReadCustoms` | src/storage/tier_manager.cpp:418-422 | the custom rings' shares in turn, under the levels' current ids |
| `QueryMeaning.UncoveredIs` | src/storage/tier_manager.cpp:97-121 | a record goes if and only if it is folded, folding is on, and a slot of a finer ring has a record stamped within the window that ends at its stamp |
| `QueryMeaning.CollectedIs` | src/storage/tier_manager.cpp:415-439 | level 3's share, each custom level's in turn under its own id, and of levels 2 and 1 what stays: level 1 is held against tier 2 as well |
| `QueryAll.Thin` | src/storage/tier_manager.cpp:444-459 | the loop keeps exactly the last record of each slice, in order |
| `QueryAll.ThinKeepsNewest` | src/storage/tier_manager.cpp:444-459 | one record a slice, at most max, the newest of all among them |
| `QueryAll.EverySlicePicked` | src/storage/tier_manager.cpp:444-459 | each slice with records is represented by its newest |
| `QueryAll.PicksAreNewest` | src/storage/tier_manager.cpp:444-459 | of each of max equal parts of the time from the first record to the last that has records, the newest is kept, and no other record |
| `QueryAll.Query` | src/storage/tier_manager.cpp:410-464 | at most max records in time order: the collected ones, or of each of max equal parts of their time the newest; -1 for max 0 |
| `Aggregator.TierAggregator.Add` | src/storage/tier_aggregator.cpp:62-172 | the accumulators take the sample in, group by group |
| `Aggregator.TierAggregator.Fold` | src/storage/tier_aggregator.cpp:178-264 | the record of the window, and a new window |
| `Aggregator.TierAggregator.Reset` | src/storage/tier_aggregator.cpp:23-60 | an empty window |
| `Aggregator.FoldIsBatch` | src/storage/tier_aggregator.cpp:62-264 | every field is its mean, extreme, sum or last value over the samples that have its group |
| `Aggregator.MeanBetween` | src/storage/tier_aggregator.cpp:182-230 | a mean lies between its contributors' extremes |
| `Aggregator.FoldFlags` | src/storage/tier_aggregator.cpp:178-264 | groups and present flags of any sample, synced of all that read the clock, the last stamp |
| `FoldMeaning.FieldIs` | src/storage/tier_aggregator.cpp:62-258 | field by field as named: the mean, the mean to the nearest whole number, the largest or the last reading of the samples that have its group |
| `FoldMeaning.EveryFieldIs` | src/storage/tier_aggregator.cpp:178-264 | every field is one of these or one of the five below |
| `FoldMeaning.RoundIsNearest` | src/storage/tier_aggregator.cpp:12-14 | a mean is rounded to the nearest whole number, halves up |
| `FoldMeaning.ThermalIs` | src/storage/tier_aggregator.cpp:118-125 | the hottest of the samples that have a reading |
| `FoldMeaning.EntropyIs` | src/storage/tier_aggregator.cpp:126-129 | the least entropy |
| `FoldMeaning.OffsetIs` | src/storage/tier_aggregator.cpp:164-167 | the clock's offset furthest from 0 on either side |
| `FoldMeaning.MaxErrorIs` | src/storage/tier_aggregator.cpp:168 | its largest error |
| `FoldMeaning.EventsAre` | src/storage/tier_aggregator.cpp:130-134 | all file events, up to 32 bits |
| `TierStore.EverySampleOnce` | src/storage/tier_manager.cpp:342-360 | with the writes made, the finer samples cut into windows, in order: of each but the open one the log has the folded record, and no other folded record |
| `TierStore.LogIs` | src/storage/tier_manager.cpp:291-372 | writes failing or not, the log is the direct samples and the record of every window written, both in order, and nothing else |
| `TierStore.WindowsInSpan` | src/storage/tier_manager.cpp:346-351 | whatever the clock does, a window spans less than its length |
| `TierStore.FoldedWindow` | src/storage/tier_manager.cpp:342-360 | with rising stamps each sample lies in the window that ends at the stamp of its record in the log |
| `TierStore.LogRises` | src/storage/tier_manager.cpp:299-315 | each ring's log strictly rises across direct and folded records, failed writes or not |
| `TierStore.RecordEvents` | src/storage/tier_aggregator.cpp:178-264 | a folded record counts its window's file events, up to 32 bits |
| `TierStore.EventsConserved` | src/storage/tier_manager.cpp:342-360 | with the writes made, the log's folded records and the open window count the file events of all finer samples, or fewer: all of them if and only if no window holds more than 32 bits do |
| `TierStore.RingsFollow` | src/storage/tier_manager.cpp:291-316 | each coarse ring sees its own operations, whatever the others do |
| `TierStore.StoreKeepsOrder` | src/storage/tier_manager.cpp:291-316 | over every run of store, failed writes or not, every ring's log strictly rises |
| `TierStore.StoreFoldsOnce` | src/storage/tier_manager.cpp:291-372 | over every run of store whose writes succeed, each finer sample is folded once into the L2 log and once into the L1 log, within the record's span |
| `TierStore.StoreConservesEvents` | src/storage/tier_manager.cpp:291-372 | the same of both coarse rings over every run of store whose writes succeed |
| `TierStore.EachInItsRing` | src/storage/tier_manager.cpp:291-316 | over every run of store on new rings, writes failing or not, each ring holds, but for folded records, exactly the samples of its level whose write succeeded, in order |
| `TierStore.WindowsTakeMost` | src/storage/tier_manager.cpp:342-354 | while only finer samples come, a window is ended by none that still fits its length |
| `TierStore.StoreLeavesOpen` | src/storage/tier_manager.cpp:291-316 | which windows a stored sample ends and which it joins, by its level |
| `TierStore.FoldRcIs` | src/storage/tier_manager.cpp:299-315 | the code store returns for a folded record that could not be written, and only then |
| `TierStore.TierManager.Store` | src/storage/tier_manager.cpp:291-316 | the fold windows first, then the sample's own ring; -1 when not open, unknown levels refused, and for each part that failed the code the source returns |
| `TierStore.TierManager.FeedL2` | src/storage/tier_manager.cpp:342-354 | a sample outside the open window ends it, then joins |
| `TierStore.TierManager.FlushL2` | src/storage/tier_manager.cpp:356-360 | the open window is written or lost, and gone either way |
| `TierStore.TierManager.Close` | src/storage/tier_manager.cpp:362-372 | both open windows are written |
| `Crc.MakeTable` | src/storage/codec.cpp:24-34 | entry i is eight shifts of i |
| `Crc.TableStepIsFeed` | src/storage/codec.cpp:43-45 | the table's step is the byte's eight bits sent one by one |
| `Crc.Crc32c` | src/storage/codec.cpp:40-47 | the loop computes the bit-by-bit CRC-32C (section 12.1 of RFC 3720) |
| `Crc.RegisterIsRemainder` | src/storage/codec.cpp:13-34 | the register is the remainder of long division by the polynomial |
| `Crc.ChecksumIsDivision` | src/storage/codec.cpp:40-47 | the checksum is that remainder with its first 32 places and itself inverted |
| `Crc.ChecksumJoin` | src/storage/codec.cpp:71-72 | checksums chain over concatenation through the seed |
| `Crc.BurstDetected` | src/storage/codec.cpp:40-47 | messages that differ within 32 bits in a row have equal registers only when equal |
| `Crc.FourBytesDetected` | src/storage/codec.cpp:40-47 | the same of four bytes in a row, at any place, after any data |
| `Crc.PolyLast` | src/storage/codec.cpp:18 | the polynomial has its constant term, on which detection rests |
| `CrcCheck.PolyTerms` | src/storage/codec.cpp:18 | the number divided by has exactly the powers of CRC-32C's polynomial (section 12.1 of RFC 3720) |
| `CrcCheck.SentInOrder` | src/storage/codec.cpp:40-47 | the bytes are divided in order, the lowest bit of each first |
| `Record.RecordEncode` | src/storage/codec.cpp:53-77 | the buffer holds the framed record and nothing past it changes; each error leaves what the code and the encoder have written by then |
| `Record.RecordDecode` | src/storage/codec.cpp:79-100 | decoding over any payload decoder, the errors in the code's order |
| `Record.LayoutIs` | src/storage/codec.cpp:53-77 | byte for byte: the stamp, least byte first, the level, the flag, the checksum of all the rest, the payload |
| `Record.RecordRoundTrip` | src/storage/codec.cpp:53-100 | an encoded record is read back, or refused for its payload or its level, as those say |
| `Record.DamageDetected` | src/storage/codec.cpp:85-89 | a record changed within four bytes in a row, of the checksum or of the rest, passes only when unchanged |
| `Record.OneByteRejected` | src/storage/codec.cpp:79-100 | every record that differs from an encoded one in one byte is refused as damaged |
| `LuaSpec.AllIsDerives` | src/rules/lua_pattern.c:347-447 | the ordered list of ways to match holds exactly the ways the declarative relation allows, for every pattern |
| `LuaSpec.GreedyTakesMost` | src/rules/lua_pattern.c:282-294 | a greedy item takes the most repetitions after which the rest matches |
| `LuaSpec.LazyTakesFewest` | src/rules/lua_pattern.c:297-307 | a lazy item takes the fewest |
| `LuaSpec.DerivesInRange` | src/rules/lua_pattern.c:347-447 | a match ends between its start and the end of the subject, its captures inside |
| `LuaSpec.BalanceIsShortest` | src/rules/lua_pattern.c:257-279 | `%bxy` ends where the x it starts with is first closed by as many y |
| `LuaSpec.EndsInShape` | src/rules/lua_pattern.c:310-332 | every way to match ends with the same captures open: those the pattern does not close |
| `LuaMeaning.LetterIs` | src/rules/lua_pattern.c:196-213 | after `%` a class letter accepts exactly the characters of its kind (section 6.4.1) |
| `LuaMeaning.CapitalIs` | src/rules/lua_pattern.c:212 | and its capital exactly the others |
| `LuaMeaning.OtherIsItself` | src/rules/lua_pattern.c:210 | any other character after `%` accepts itself alone |
| `LuaMeaning.ClassAccepts` | src/rules/lua_pattern.c:216-254 | a class or set in a pattern, however written, accepts exactly the characters it names, or with `^` exactly the others |
| `LuaMeaning.ClassEnds` | src/rules/lua_pattern.c:170-193 | and ends where its text ends |
| `LuaMeaning.BorderIs` | src/rules/lua_pattern.c:380-393 | `%f` holds where the character before is outside the set and the one at hand inside, a zero standing at either end |
| `LuaMeaning.BackRefIs` | src/rules/lua_pattern.c:335-344 | a back-reference holds where the text of its closed capture stands again |
| `LuaMeaning.ToCloseIs` | src/rules/lua_pattern.c:162-167 | a closing parenthesis closes the last capture still open |
| `LuaMeaning.TextIsMeant` | src/rules/lua_pattern.c:347-447 | the ways to match the text of any list of pattern parts are exactly those the parts mean, part by part, of the subject's characters |
| `LuaCaptures.GetOneCapture` | src/rules/lua_pattern.c:483-500 | a capture, a position, the whole match for the first of none, or the error |
| `LuaCaptures.PushCaptures` | src/rules/lua_pattern.c:516-523 | the loop pushes all captures, or raises exactly when one is open |
| `LuaCaptures.OpenIffLeft` | src/rules/lua_pattern.c:494-495 | a match has an open capture exactly when the pattern leaves one open, whatever the subject |
| `LuaCaptures.AddS` | src/rules/lua_pattern.c:661-688 | the loop makes the replacement text with its escapes expanded, or raises |
| `LuaCaptures.TextRefusedIff` | src/rules/lua_pattern.c:661-688 | a replacement text is refused exactly when it does not fit the pattern, on every subject and match |
| `LuaCaptures.DoubledIsText` | src/rules/lua_pattern.c:670-671 | any text with its `%` doubled is put as it is |
| `LuaValues.PushedIs` | src/rules/lua_pattern.c:483-523 | the values pushed are the captures' characters, or positions counted from 1, or the whole match where there are none |
| `LuaValues.DecimalIs` | src/rules/lua_pattern.c:483-500 | a position is put as its decimal digits without a leading zero |
| `LuaValues.ReplacementIs` | src/rules/lua_pattern.c:661-688 | a replacement text puts, part by part, its characters, `%`, the match and the captures it numbers; an error exactly where one it names is missing or open |
| `LuaCaptures.AddValue` | src/rules/lua_pattern.c:696-729 | what a text, a function of the captures or a table indexed by the first says of a match |
| `LuaMatch.MatchState.Count` | src/rules/lua_pattern.c:128-135 | charged plus waiting is all work counted, less than a chunk waits; raises exactly when a full chunk passes the limit |
| `LuaMatch.MatchState.CountFlush` | src/rules/lua_pattern.c:142-146 | nothing waits; raises exactly when all that was counted passes the limit |
| `LuaMatch.MatchState.FindClassEnd` | src/rules/lua_pattern.c:170-193 | the end of a class; none only for one that is malformed or past the limit |
| `LuaMatch.MatchState.MatchBracketClass` | src/rules/lua_pattern.c:216-236 | membership in a set with ranges, classes and complement |
| `LuaMatch.MatchState.MatchBalance` | src/rules/lua_pattern.c:257-279 | the end of the shortest balanced text; raises only past the limit |
| `LuaMatch.MatchState.MaxExpand` | src/rules/lua_pattern.c:282-294 | the first way in greedy order; where the rest is safe it raises only past the limit |
| `LuaMatch.MatchState.MinExpand` | src/rules/lua_pattern.c:297-307 | the first way in lazy order; where the rest is safe it raises only past the limit |
| `LuaMatch.MatchState.StartCapture` | src/rules/lua_pattern.c:310-321 | the rest with one more capture; the captures as they were on failure; raises only for a 33rd capture, for the rest or past the limit |
| `LuaMatch.MatchState.EndCapture` | src/rules/lua_pattern.c:324-332 | the rest with the last open capture closed; open again on failure; raises only with none open, for the rest or past the limit |
| `LuaMatch.MatchState.MatchCapture` | src/rules/lua_pattern.c:335-344 | a back-reference matches its capture's text again; raises only when there is no such closed capture or past the limit |
| `LuaMatch.MatchState.Match` | src/rules/lua_pattern.c:347-447 | ends on every input; unless it raises, the first of all ways to match or none, depth restored, captures restored on failure; on a well formed pattern within the depth it raises only when the work passes the limit |
| `LuaLib.MemFind` | src/rules/lua_pattern.c:451-473 | the first occurrence from init on, or none; raises only past the limit |
| `LuaLib.FindPattern` | src/rules/lua_pattern.c:555-604 | the leftmost match, the preferred one there, its captures and all work charged; raised past the limit and at a match that leaves a capture open, and on a harmless pattern for nothing else |
| `LuaLib.StrFind` | src/rules/lua_pattern.c:555-604 | `find` and `match`: plain on request or without special characters, by pattern otherwise; the first occurrence, or the leftmost match and its captures; and on a harmless pattern exactly when it raises |
| `LuaLib.UnclosedRaises` | src/rules/lua_pattern.c:494-495 | `(a` has no error to match by, matches `a`, and so is raised however high the limit |
| `LuaLib.FindPlain` | src/rules/lua_pattern.c:565-577 | the plain branch: the first occurrence, raising exactly past the limit |
| `LuaLib.PlainFindsPattern` | src/rules/lua_pattern.c:527-577 | without special characters and `)` the plain answer is the very match the pattern search gives |
| `LuaLib.PlainIsPattern` | src/rules/lua_pattern.c:527-535 | for a pattern without special characters the plain search is the pattern search if and only if it has no `)` |
| `LuaLib.ParenFoundPlainly` | src/rules/lua_pattern.c:527-535 | `)` is found plainly in itself, where as a pattern it has no match |
| `LuaLib.GsubRound` | src/rules/lua_pattern.c:752-764 | a round replaces the preferred new match at its place by what the replacement says, or there is none; on a harmless pattern it raises only past the limit or for a refused replacement |
| `LuaLib.GsubLoop` | src/rules/lua_pattern.c:732-774 | ends on every subject and pattern; rounds left to right, each lawful; on a harmless pattern it raises only past the limit or for a refused replacement |
| `LuaLib.Gsub` | src/rules/lua_pattern.c:732-774 | the text of the rounds and the rest of the subject; all work charged; on a harmless pattern it raises only past the limit or for a refused replacement |
| `LuaLib.GsubIdentity` | src/rules/lua_pattern.c:732-774 | replacing every match by `%0` rebuilds the subject |
| `LuaLib.NonePassedOver` | src/rules/lua_pattern.c:752-764 | every position dealt with lies in a replaced match, or a round copied it when there was no match but the empty one that ends where the last ended |
| `LuaLib.RefusedTextIff` | src/rules/lua_pattern.c:661-729 | a text is refused at a place exactly when there is a new match there and the text does not fit the pattern |
| `LuaGmatch.GmatchNext` | src/rules/lua_pattern.c:626-641 | each call yields the next match and its captures, or the end; when it raises |
| `LuaGmatch.CutsAreMatches` | src/rules/lua_pattern.c:752-764 | what gsub has replaced and what is left are all the matches there are |
| `LuaGmatch.MatchesFit` | src/rules/lua_pattern.c:738 | at most one match for each position and the end, so the default number of replacements is no limit |
| `LuaGmatch.GsubReplacesGmatch` | src/rules/lua_pattern.c:626-774 | gsub without an anchor and a smaller number replaces exactly the matches gmatch yields, in order |
| `Scheduler.Object.Tick` | src/scheduler/scheduler.cpp:21-83 | the whole new state, and the level selected in it |
| `Scheduler.Object.StepBack` | src/scheduler/scheduler.cpp:34-47 | a step back moves every held instant as far, none before 0 |
| `Scheduler.Object.NoteAnomaly` | src/scheduler/scheduler.cpp:49-75 | the run of anomalies, the escalation and its end |
| `Scheduler.Object.Ask` | src/scheduler/scheduler.cpp:137-152 | a request stands, is replaced or is refused |
| `Scheduler.Object.ClockSteppedForward` | src/scheduler/scheduler.cpp:154-169 | every live instant moves forward, wrapping at 2^64 |
| `Scheduler.SelectIsBest` | src/scheduler/scheduler.cpp:85-129 | the selected level is active and no active one beats it by priority, ties going to the shorter interval |
| `SchedulerMeaning.AnomalyIs` | src/scheduler/scheduler.cpp:256-276 | critical, elevated, normal or as before, by the three readings, their presence and their thresholds |
| `SchedulerMeaning.ReadingRaises` | src/scheduler/scheduler.cpp:21-83 | outside on-demand mode a tick with a present reading over a threshold selects a level of at least L2's priority |
| `SchedulerMeaning.SelectedIs` | src/scheduler/scheduler.cpp:85-129 | the level selected may be chosen by the rules of its mode, timers and requests, and none that may has a higher priority or, at the same, a shorter interval |
| `SchedulerMeaning.IntervalIs` | src/scheduler/scheduler.cpp:186-194 | each level's interval |
| `SchedulerMeaning.GraceAfterClient` | src/scheduler/scheduler.cpp:85-129 | a tick that saw a client holds L3 for the grace period, to the nanosecond |
| `SchedulerMeaning.HysteresisAfterAnomaly` | src/scheduler/scheduler.cpp:49-75 | an anomalous tick holds L2 for the hysteresis after it |
| `SchedulerMeaning.AskedIs` | src/scheduler/scheduler.cpp:137-152 | what a request changes, and that it changes nothing else |
| `SchedulerMeaning.WrapsAre` | src/scheduler/scheduler.cpp:154-169 | differences and sums of instants are modulo 2^64 |
| `SchedulerMeaning.KnownIs` | src/scheduler/scheduler.cpp:137-152 | the levels a request may be for |
| `SchedulerClock.RunsKeepOrder` | src/scheduler/scheduler.cpp:21-83 | in every state reached from the start, through any clock steps and requests, escalated implies in a run implies start, last anomaly and last tick in order |
| `SchedulerClock.NoWrap` | src/scheduler/scheduler.cpp:49-75 | the unguarded unsigned difference never wraps |
| `SchedulerClock.StepForwardUnseen` | src/scheduler/scheduler.cpp:154-169 | a step forward, then any run shifted as far, further steps forward included, selects the same levels tick for tick |
| `SchedulerClock.StepBackUnseen` | src/scheduler/scheduler.cpp:34-47 | a tick on a clock stepped back is a tick with no time passed: same level, same time left of everything |
| `SchedulerClock.OnwardAfterBack` | src/scheduler/scheduler.cpp:21-83 | after it the levels go on as if it had not happened, through ticks, further clock steps and requests that both clocks judge alike |
| `SchedulerClock.AskAfterBack` | src/scheduler/scheduler.cpp:137-152 | whatever is asked, the two runs stay together if and only if no request is held, both clocks find the held one stale or neither, or the new deadline is no earlier |
| `SchedulerClock.StaleRequestDiffers` | src/scheduler/scheduler.cpp:137-152 | a step back of 50 and a request, after which the levels selected differ |
| `SchedulerEscalation.AlarmFollowsHistory` | src/scheduler/scheduler.cpp:49-75 | after any history of ticks the alarm is escalated exactly when the history says so |
| `SchedulerEscalation.EscalatesAsHeld` | src/scheduler/scheduler.cpp:21-83 | over whole runs without a step back, steps forward moving what was observed along: the anomaly held over escalate_after, and no normal tick since came a grace period after the last anomalous one |
| `SchedulerEscalation.OnDemandNever` | src/scheduler/scheduler.cpp:49-75 | in on-demand mode nothing escalates |
| `JsonText.LenIsEncoding` | src/core/json_text.cpp:45-63 | utf8_len accepts only encodings of scalar values past ASCII (section 4 of RFC 3629) |
| `JsonText.EncodingHasLen` | src/core/json_text.cpp:45-63 | and every one of them, whatever follows |
| `JsonText.Utf8Sanitize` | src/core/json_text.cpp:67-84 | the loop sanitizes unit by unit |
| `JsonText.SanitizeIsWellFormed` | src/core/json_text.cpp:67-84 | whatever goes in, UTF-8 comes out |
| `JsonText.SanitizeIsIdentity` | src/core/json_text.cpp:67-84 | text is left as it is if and only if it is UTF-8; sanitizing twice is sanitizing once |
| `JsonText.JsonEscape` | src/core/json_text.cpp:86-123 | the loop escapes unit by unit |
| `JsonText.EscapeIsText` | src/core/json_text.cpp:86-123 | what is escaped is UTF-8 without control characters (section 7 of RFC 8259) |
| `JsonText.JsonUnescape` | src/core/json_text.cpp:125-171 | the loop unescapes step by step, surrogate pairs included |
| `JsonText.ReadUnicode` | src/core/json_text.cpp:143-166 | a \u escape, a pair of them, or U+FFFD for half a pair |
| `JsonText.RoundTrip` | src/core/json_text.cpp:86-171 | unescaping what was escaped gives the text sanitized, for every byte string |
| `JsonText.RoundTripExact` | src/core/json_text.cpp:86-171 | and the text itself if and only if it is UTF-8 |
| `JsonMeaning.EncodeSpells` | src/core/json_text.cpp:45-63 | the bytes of every character say its code, six bits a byte (section 3 of RFC 3629) |
| `JsonMeaning.SanitizeIs` | src/core/json_text.cpp:67-84 | a character at the front is kept, a byte that begins none becomes U+FFFD |
| `JsonMeaning.PairReads` | src/core/json_text.cpp:143-166 | the escaped halves of every character past U+FFFF are read as it |
| `JsonMeaning.StringReads` | src/core/json_text.cpp:125-171 | every JSON string (section 7 of RFC 8259), characters, short escapes, codes, pairs and lone halves, is read as the characters it stands for |
| `JsonText.ScanStops` | src/web/json.cpp:394-401 | the closing quote found after escaped text is the one that closes it |
| `JsonField.FindColon` | src/web/json.cpp:360-383 | the search ends at the colon of the first key that stands where a key stands |
| `JsonField.ReadValue` | src/web/json.cpp:384-402 | the quoted text after the colon, or none |
| `JsonField.JsonGetString` | src/web/json.cpp:360-404 | both together, unescaped |
| `JsonField.MemberFound` | src/web/json.cpp:360-404 | in every object of string members, whatever their bytes, a plain key finds the first member of that name, sanitized, and nothing that only looks like one |
| `FieldMeaning.SpacedFound` | src/web/json.cpp:360-404 | with any whitespace between its parts and anything after it, an object's first member is found by its key and read as it was meant |
| `FieldMeaning.BlankIs` | src/web/json.cpp:360-388 | the whitespace skipped is that of section 2 of RFC 8259 and no other |
| `JsonField.PasswordArrives` | src/tui/tui.cpp:231 | every password in the login body is read as its bytes sanitized |
| `Base64Text.GroupRoundTrip` | src/rules/alert.cpp:339-348 | a group of up to three bytes is read back from its four characters |
| `HeaderText.HeaderValue` | src/rules/alert.cpp:305-312 | control characters become blanks, everything else stays |
| `HeaderText.MakeHeader` | src/rules/alert.cpp:314-353 | ASCII as it is, other text as words of the sanitized text |
| `HeaderText.EncodeWord` | src/rules/alert.cpp:338-349 | the loop makes the word of its bytes in base64 |
| `Base64Text.Base64RoundTrip` | src/rules/alert.cpp:339-348 | base64 (section 4 of RFC 4648) read back is the bytes |
| `Base64Text.AlphabetIs` | src/rules/alert.cpp:328-330 | the characters of table 1 of RFC 4648 |
| `Base64Text.GroupIsNumber` | src/rules/alert.cpp:339-348 | four characters are the number of their three bytes |
| `Base64Text.ShortGroupIs` | src/rules/alert.cpp:339-348 | one or two bytes as if zeros followed, with `=` for what those alone fill |
| `HeaderText.HeaderIsPrintable` | src/rules/alert.cpp:314-353 | a header is one line of printable ASCII, whatever the text |
| `HeaderMeaning.ValueIs` | src/rules/alert.cpp:305-312 | every control character becomes a blank, nothing else changes |
| `HeaderMeaning.WordIsFull` | src/rules/alert.cpp:321-337 | a word carries as many whole characters as fit in 45 bytes |
| `HeaderReader.TextIsRead` | src/rules/alert.cpp:321-352 | every reader shows text that is not ASCII as it was, sanitized, from words of at most 75 characters and no part of a character (RFC 2047) |
| `HeaderReader.ShownAsMeant` | src/rules/alert.cpp:314-353 | a reader shows the text meant if and only if it is not ASCII or no blank-delimited token of it is an encoded word to that reader |
| `HeaderReader.LookalikeMisread` | src/rules/alert.cpp:320-353 | after an alert's prefix every word sent as text is shown decoded |
| `HeaderReader.BudykLookalike` | src/rules/alert.cpp:357 | `budyk: =?UTF-8?B?QQ==?=` is shown as `budyk: A` |
| `HeaderReader.Utf8Reader` | src/rules/alert.cpp:321-352 | a reader of UTF-8 words in base64, in capitals or not, is one of the readers claimed about |
| `HeaderText.BodyLines` | src/rules/alert.cpp:427-437 | the loop makes every line end CR LF |
| `HeaderText.LinesArePairs` | src/rules/alert.cpp:421-437 | no bare CR or LF is left |
| `HeaderText.LinesIff` | src/rules/alert.cpp:421-437 | a body is left as it is if and only if its line ends are right; twice is once |
| `HeaderMeaning.LinesAreKept` | src/rules/alert.cpp:421-437 | what is sent is the body's own lines, each but the last ended by CR LF |
| `Workers.Worker.Post` | src/rules/worker.cpp:17-48 | a job is queued or counted as dropped |
| `Workers.Worker.TakeOrQuit` | src/rules/worker.cpp:106-118 | the oldest job, or the end with what is left dropped |
| `Workers.Worker.Finish` | src/rules/worker.cpp:120-124 | a job counted as completed |
| `Workers.Worker.StopBegin` | src/rules/worker.cpp:62-69 | whether there is a thread to wait for |
| `Workers.Worker.Raise` | src/rules/worker.cpp:71-77 | stopping is set, and cancel when jobs are left |
| `Workers.StepKeepsSound` | src/rules/worker.cpp:17-127 | each step of each thread keeps the counts, the order, the flags and the wake-up |
| `Workers.RunsKeepSound` | src/rules/worker.cpp:17-127 | and so does every interleaving |
| `Workers.EveryJobCounted` | src/rules/worker.cpp:17-127 | posts are completed, dropped, queued or running; the queue is bounded; jobs begin in post order |
| `Workers.NoneBeginsAfterStop` | src/rules/worker.cpp:108-117 | once stopping is set no job begins |
| `Workers.StoppedIsEmpty` | src/rules/worker.cpp:61-83 | when stop returns nothing is queued or running and every post is completed or dropped |
| `Workers.IdleMeansDone` | src/rules/worker.cpp:55-59 | an idle worker has run every job accepted |
| `Workers.StopProceeds` | src/rules/worker.cpp:70-79 | some thread can always take a stop one step nearer its end |
| `Workers.NothingHoldsTheJoinBack` | src/rules/worker.cpp:102-127 | no step takes it back, and every one of the worker's takes it on |
| `Workers.PostIs` | src/rules/worker.cpp:17-48 | a job is refused if and only if the worker is stopping, its queue is full, or there is no thread and none can be made |
| `Workers.WorkProceeds` | src/rules/worker.cpp:102-127 | while jobs are queued and nobody stops the worker, its thread can take one or is in one |
| `FileWatcher.BoundKeeps` | src/security/file_watcher.cpp:94-98 | binding keeps the two maps inverses |
| `FileWatcher.UnboundKeeps` | src/security/file_watcher.cpp:100-115 | so does unbinding, and the id goes exactly with its last path |
| `FileWatcher.Watcher.Add` | src/security/file_watcher.cpp:70-87 | bound, waiting or refused, as the kernel answers; a path accepted is wanted |
| `FileWatcher.Watcher.Remove` | src/security/file_watcher.cpp:89-92 | the path is wanted no more |
| `FileWatcher.Watcher.Lose` | src/security/file_watcher.cpp:117-120 | a lost path waits |
| `FileWatcher.Watcher.RetryPending` | src/security/file_watcher.cpp:122-130 | the paths that exist again are bound and reported as created, the others wait on |
| `FileWatcher.Watcher.Shutdown` | src/security/file_watcher.cpp:132-141 | no watch is left behind |
| `FileWatcher.Batch.Emit` | src/security/file_watcher.cpp:58-68 | no change is reported twice |
| `FileWatcher.Watcher.PathChanged` | src/security/file_watcher.cpp:218-235 | a path is lost exactly when its file is gone or, asked again, another |
| `FileWatcher.Watcher.HandleEvent` | src/security/file_watcher.cpp:210-235 | every path of the event's watch is reported, those lost wait |
| `FileWatcher.Watcher.CheckAll` | src/security/file_watcher.cpp:248-260 | after an overflow every bound path is reported and checked |
| `FileWatcher.Watcher.Poll` | src/security/file_watcher.cpp:177-267 | whatever the kernel reports: maps inverse, each wanted path bound or waiting, no live id without a path, no change twice or unasked for, none told of or possibly dropped left unreported |
| `Detail.Offer` | src/collector/detail.c:73-82 | the list in place is the list with the offer inserted after all that are not smaller, cut at ten |
| `Detail.TopsRanked` | src/collector/detail.c:73-82 | after any offers, at place k stands the offer that exactly k others are ahead of: the first ten in stable descending order |
| `Detail.FindProc` | src/collector/detail.c:60-69 | the search finds the first entry of the pid if it is the same process |
| `Detail.ListProcs` | src/collector/detail.c:140-148 | the loops list every process of either top list once, in the order of cmp_top |
| `Detail.OrderIs` | src/collector/detail.c:120-126 | CPU never rises down the list, among equals memory does not, among equals in both the pid does not fall |
| `Detail.Union` | src/collector/detail.c:140-147 | the union by pid has each pid once |
| `Detail.OneOrder` | src/collector/detail.c:120-126 | two lists of the same processes in that order are the same when no two compare equal |
| `Detail.OneOrderIff` | src/collector/detail.c:120-126 | every sort gives the same list if and only if no two different entries share CPU, memory and pid |
| `Detail.TiedEntries` | src/collector/detail.c:120-126 | two entries of one pid and the two lists a sort may leave |
| `Detail.ListIsDetermined` | src/collector/detail.c:140-148 | with each pid once in either top list the list of a read is the same whatever qsort does |
| `Counted.Search` | src/collector/detail.c:34-41 | the rotating search goes once round the list from the cursor and finds the first entry of the name, or none |
| `Counted.Counters.Add` | src/collector/detail.c:28-48 | the totals grow by what the device moved, and it is kept for the next read |
| `Counted.ReadAll` | src/collector/detail.c:28-48 | a read totals what a lookup by name of every device would |
| `Counted.TotalsAnyOrder` | src/collector/detail.c:31-41 | whatever order the devices come in |
| `Counted.FoundIff` | src/collector/detail.c:42-47 | the next read finds a device's own entry, wherever its search starts, if and only if the device is among the first 1024, its name is under 32 bytes, and no other kept name is the same after the cut |
| `Counted.OwnCounters` | src/collector/detail.c:28-48 | then the totals move by exactly what its own counters moved |
| `Counted.NothingLost` | src/collector/detail.c:28-48 | over any number of reads of devices that keep their names and whose counters do not fall, the totals move by what all counters moved from the first read to the last |
| `Counted.NameCollides` | src/collector/detail.c:34-44 | a longer name listed first that is cut to a device's own is found for it |
| `Counted.LongNameLost` | src/collector/detail.c:44 | a name of 32 bytes or more is never found again |

## Left out

- Platform collectors, `/proc` and sysctl reads: foreign calls with only bit masks around them.
- HTTP server, WebSocket hub, router, terminal UI, sockets, curl runs and exec: I/O.
- The Lua VM, its bindings and the configuration loader: thin layers over libraries.
- The field lists of `sample_encode` and `sample_decode`: the payload codec is a parameter of the record framing. What it writes, also when it fails, is given.
- RingOpen.OpenImpl: the refusal of a `RingFile` that is already open, and a ring so large that its file size passes 64 bits.
- `check_ring` and the file handling around `convert_ring`: a ring is its slots and indices.
- A power loss that reorders pages, weak memory ordering, rounding of doubles and the `long double` of thinning.
- 64-bit overflow of the write index, of the counted totals and of the span of 2^64 in thinning: these numbers are unbounded here.
- The rings of `TierStore` are logs: laps and slots are the subject of `RingRuns`.
- Read errors of `RingReader` other than a record that does not decode: they look the same to it.
- `query_all` beside a running writer: its reader does not look at the begun mark, so only rings at rest are claimed.
- The order `std::sort` leaves equal stamps in, and the order in which sets of paths are visited: the model fixes or leaves open one.
- The call of a replacement function and the lookup in a replacement table: any functions of the captures. Stack limits of the Lua VM.
- The FreeBSD half of the file watcher, and `init`'s error numbers.
- Two threads calling `stop` of the same worker at once: both would join the thread.
- HotBuffer, LoginLimiter, metric-set names, query strings, rule cooldowns and suggestions: they would only add easy members.
- RingRuns.RunsKeepSound: runs in which a crash loses an index are excluded; which crashes do is what `RingRuns.RecoveryCountsEveryWrite` says exactly.
- RingConvert.ConvertRing: a record that decodes is taken to encode again, and the sync and rename of the new file are left out.
- RingWalk.WalkMissesNothing: runs as for `RingRuns.RunsKeepSound`; reads that fail with an I/O error are excluded, since a record that cannot be read cannot be returned.
- JsonField.MemberFound: the body is an object of string members as the clients print it, without blanks; `FieldMeaning.SpacedFound` has blanks and any rest, for the first member; what the search does with other text is stated by `JsonField.JsonGetString`.
