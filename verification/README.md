# Verification of the IIoT/OEE stack's algorithmic cores

A Dafny 4.11 model of the cores of the stack whose correctness is not visible in one function body: the production
reflector, Node-RED flow surgery, canonical JSON, the development-seed anonymizer and its leak gate, the CPACK
configuration sync, the wiki link rewriter, the ordering of continuous aggregates, the machine simulator and the
calculation paths. `dafny verify dfyconfig.toml` checks the whole project.

## What is modelled

**Production reflector** (`services/analytics-sync/internal/mirror`). `MirrorDiff` holds the two map diffs and the
stray-write detector as loops that append, count and sort. `MirrorTable` is one keyed table of one pass: fingerprint diff,
row diff of the differing buckets, upsert, the two delete guards, statements that fail (and roll the table back) or that
succeed without changing a row. `MirrorPass` is the whole transaction over all tables: parents first, deletes children
first, read-back, commit or dry run, and the reflector's memory, in a class that changes a `Database` object.
`MirrorConvergence` says what one pass does for every production table, staging table and environment, `MirrorEnds` where
the rows of a whole pass end, in terms of the two databases and the two cuts alone. `MirrorRuns` is the
transition system of production writes, stray staging writes and passes, `MirrorAppendOnly` the stray-write detector over
such runs of an append-only table. `MirrorBags` covers tables without a key,
`MirrorSchedule` the endless loop and the lag invariant, `MirrorIdBlock` the two independent id minters.
A row is its bucket, its optional event time and its compared content. A row hash is that content and a bucket's
fingerprint is its row count and its rows: both hash functions are taken to be injective.

**JSON and Node-RED** (`customize/src/lib`). `Json` is the value type (an object is its own enumerable members, in order).
`StableJson` proves the canonical printer injective up to key order: a reader of JSON gets back what it prints.
`NodeRed`, `NodeRedFlow` and `NodeRedRemove` cover accepting a paste, re-iding it, finding its ends and removing nodes;
`NodeRedCopies` adds the members a copy inherits when the paste names a prototype.

**Seed anonymizer and leak gate** (`dev/seed`). `SeedTokens` reads the token file and searches by prefix index;
`SeedScrub` builds the pseudonym table and replaces leftmost-longest, up to an arbitrary per-character case folding.

**CPACK config sync** (`scripts/promotion/transplant/cpack-config-sync.py`). `ConfigIdentity` decides which staging
equipment is which target equipment; `ConfigReasons` is the reason catalogue, one function for each SQL statement;
`ConfigApply` is the transaction on a `Target` object.

**Smaller cores.** `WikiLinks` (`scripts/wiki-restructure.py`), `AggregateOrder` (`scripts/promotion/transplant/build.py`),
`Simulator` (`simulator/simulator.py`, the machine state only), `CalcPaths` (`customize/src/lib/calc-builder.ts`,
`derive-rules.ts`). `Ordering` holds strict total orders and sorting for all of them, `Positions`
rising positions in a list, `Trimming` and `Decimals` blanks around a text and decimal numerals, `Wrappers` the optional
value.

Where a program and its specification share a helper, a lemma beside it says what the helper computes without naming it: a
filter by the positions it keeps, a normal form by the relation it decides, a path by its text, a published record by its
metrics.

Every lemma spells out its own induction: Dafny's automatic induction is switched off throughout (`{:induction false}`).

## What turned out not to hold as written

Each of these is the code's behaviour, stated with its exact condition. Where the condition does not name an input, a lemma
beside it does.

- "An empty source deletes nothing" holds only above ten staging rows: when nothing fails, every table of ten rows or fewer
  is emptied (`EmptySourceKeepsRowsIff`, `EmptySourceDeletesTenRows`), and a table without a key has no such guard at all
  (`EmptySourceEmptiesBagIff`).
- A hot pass over a table without a key inserts again every production row between the two cuts: staging keeps the copies
  its own window does not show and gets production's besides; and a bucket delete that reports success in vain leaves the
  shown copies as well (`BagAfterPass`, `RowIsDoubled`, `MutedDeleteKeeps`). Staging ends with production's rows exactly
  when what is left of each row is what was not brought (`BagEqualIff`). The read-back notices it exactly when
  production's window shows a row that staging's does not, a delete in vain had something to delete, or an insert in vain
  something to insert (`BagReadBackIff`). When a statement fails, the table is rolled back, but the rows deleted until
  then stay in the count of deletes (`ReplaceBuckets`).
- The stray-write detector also counts what nobody wrote. Its memory is kept for ever, a hot pass cuts production and
  staging at the start of each side's own transaction, and a statement that reports success in vain is remembered as done.
  With nobody but the reflector writing on staging, in every window and whatever fails or is done in vain, what it counts
  of a mirror table is exactly: the rows staging does not have although production shows the very row last written, the
  rows between the two cuts, the keys visible again or still after a delete, and the rows that a lost write never replaced
  (`AlarmIsExactly`; without lost statements, `QuietAlarmIsExactly`). Each kind happens: `FalseAlarm` (full passes and
  production writes only), `HotFalseAlarm` (two passes over one row that nobody touches), `SilentDeleteAlarms` and
  `SilentWriteAlarms`. When no key that left staging comes back, only the rows between the cuts and lost statements are
  counted (`OnlyCutsAndLossesAlarm`): without losses a full pass counts none (`OnlyTheCutsAlarm`). With only the last pass
  in memory it would count those of them that are that pass's (`OnePassMemoryAlarm`). A stray change to a row the
  reflector never wrote is undone but not counted (`StrayAlarmIsExactly`); one to a row it wrote and production still
  shows never escapes while the memory is true (`HeldRowIsCaught`).
- Of an append-only table it counts, in such a run, exactly the lost inserts that never arrived and the keys whose row on
  staging lies before staging's cut while production's window shows the row the reflector tried to insert, equal or not
  (`AppendAlarmIsExactly`, `QuietAppendAlarm`): the insert for those does nothing, and every later hot pass tries it,
  remembers it and counts it again (`AppendAlarmRepeats`); a lost insert is counted by full passes too
  (`SilentInsertAlarms`). A stray change that leaves a row in staging's window is not counted at all
  (`AppendStrayAlarmIsExactly`).
- The divergent count of an append-only table is of staging's visible rows that production's window does not show as equal
  (`DivergenceIsStable`). That is the rows that differ or are extra exactly when staging's window shows all of those and
  production's shows every equal row that staging's shows, as in a full pass (`DivergentIsApartIff`); a hot pass can count
  an equal row (`EqualRowDiverges`) and overlook a differing one (`DifferingRowIsMissed`).
- A converged full pass means equal tables exactly when no append-only table diverges and no append-only insert was
  silently skipped: the read-back does not look at append-only tables (`ConvergedMeansEqualIff`, `LostInsertConverges`). A
  converged hot pass, which sets the time of the lag invariant too, means equal tables exactly when the rows that neither
  window shows are equal besides (`ConvergedPassMeansEqualIff`, `UnseenRowConverges`).
- An unhindered hot pass can remove a row that production has, exactly when staging's copy is inside the staging window and
  production's is outside its own (`HotPassDropsProductionRowIff`): production moved the row out of its window, or its clock
  is ahead by more than the time between the two transactions' beginnings, and then a row both sides share is enough
  (`HotPassDropsRow`). Equal sides stay equal exactly when staging's cut is not before production's (`EqualIsKeptIff`). An
  unhindered hot pass ends equal exactly when the rows outside the two windows are (`HotPassConvergesIff`).
- The lag invariant is green with no converged pass at all when the limit is a year or more (`LagIsOkIff`,
  `NeverConvergedIsGreen`).
- The id-block invariant protects a table exactly when the reflector may read the table's sequence on staging: a sequence it
  may not read looks like one never used (`SafeIffReadable`, `UnreadableCollision`). Without a start free of violations it
  protects none (`CollisionBelowTheBlock`).
- Re-iding loses every `__proto__` member outside free text, and nothing else (`ReidRoundTripsIff`, `PrototypeIsLost`). The
  copy inherits what the member held, so the analysis can find other ends than before: exactly when the pasted nodes, given
  those members, have other ends (`EndsAreKeptIff`, `PrototypeMakesAnExit`).
- Removing nodes follows containers one level deep: a node on a removed subflow's inner container stays, without its
  container, exactly when the paste has such a node (`ContainersStayIff`, `NestedNodeIsStranded`). Wires and links alone are
  scrubbed: subflow instances, groups and configuration references go on naming what was removed (`OtherReferencesStay`,
  `InstanceOutlivesItsSubflow`).
- A scrubbed text can fail the leak gate because of its own pseudonyms (`PseudonymCanLeak`), never because of kept text
  alone (`GateFindsOnlyPseudonyms`). It cannot when no token agrees with a lowered pseudonym where it could lie over it
  and over characters that the scan keeps in front of it (`NoClashNeverLeaks`). A clash in which the token ends inside the
  pseudonym is a leak (`FittingClashLeaks`), so on tables with no other kind the absence of clashes is the exact condition
  (`PassesIffNoClash`). The text of a token alone fails exactly when its pseudonym holds a token (`TokenLeaksIff`); and on
  every table, texts no longer than the square of the longest token decide the question for all texts
  (`SmallTextsDecide`).
- The config sync never clears the parent of a reason that became top level unless another column of the row changes
  (`TopLevelParentClearedIff`, `StaleParentStays`); and a wanted link that is present but inactive stays inactive
  (`VerifiedLinksEqualStaging`, `InactiveLinkStays`).
- A wiki link to a target above the tree is rewritten wrongly when its path comes back down through the name of the
  directory the script runs from (`RewrittenLinkResolvesIff`, `ReenteringLinkIsLost`); inside the tree there is no exception
  (`InsideLinksStayTrue`).
- Circular aggregate definitions make the ordering loop run for ever (`EndsIffAcyclic`, `CircleRunsForever`).
- The simulator's comments promise downtimes over 12 and over 10 minutes: the first holds only when one tick is longer than
  12 minutes, the second exactly when the interval is over 720 s or 720 modulo the interval is below 120
  (`DowntimeFloorIff`, `ShortStops`). The comment on prolonged faults speaks of three minutes at a 5 s tick; a fault there
  keeps at least sixty further publications, five minutes, stopped (`FaultLastsSixtyTicks`).
- A calculation path of another machine is read back as a third one exactly when that one's topic sits inside it
  (`SourceIsRecoveredIff`, `AdminTopicShadows`), and as the rule's own when the topic is empty or starts with a slash
  (`DescriptionInvertsPath`). No two inputs share a path all the same (`PathsAreDistinct`).
- A calculation input of the rule's own machine is tried with the number 0 when the machine has no counter number, which is
  never what the rule waits for (`SampleMatchesRule`). For another machine the two source files disagree: `calc-builder.ts`
  writes the full topic and tries the rule with the topic below the tenant prefix, `derive-rules.ts` puts the rule's own
  segment in front of every path. By the latter account such a sample is the metric the rule waits for only when the rule
  sits at the tenant prefix itself and the other machine outside it (`OtherSampleMatchesIff`, `MachineSampleIsMissed`).

## Model

| member | source | states |
|---|---|---|
| `MirrorDiff.DiffBuckets` | services/analytics-sync/internal/mirror/diff.go:12-26 | the result lists, sorted and once each, exactly the buckets on one side only or with different fingerprints, whatever order the maps are visited in |
| `MirrorDiff.DiffRows` | services/analytics-sync/internal/mirror/diff.go:42-69 | upserts, deletes and the divergent count are exactly the missing/different/extra keys of the mode, sorted |
| `MirrorDiff.StagingWrites` | services/analytics-sync/internal/mirror/diff.go:75-88 | counts exactly the upserts whose production hash is the one last written plus the deletes of keys deleted before |
| `MirrorDiff.OutsideDifferingBuckets` | services/analytics-sync/internal/mirror/diff.go:11-26 | a key with a row outside the differing buckets on either side has the same row on both sides |
| `MirrorDiff.BucketDiffIsWholeDiff` | services/analytics-sync/internal/mirror/diff.go:11-69 | the row diff restricted to differing buckets equals the row diff of the whole tables, also for keys that changed bucket |
| `MirrorDiff.NoBucketDiffersIffEqual` | services/analytics-sync/internal/mirror/diff.go:11-26 | no bucket differs if and only if the tables are equal |
| `MirrorTable.TotalRows` | services/analytics-sync/internal/mirror/pass.go:229-235 | summing the bucket counts gives the number of compared rows |
| `MirrorTable.Upsert` | services/analytics-sync/internal/mirror/pass.go:421-431 | writes production's rows of the listed keys and touches no other key; append-only never replaces a row |
| `MirrorTable.DeleteListed` | services/analytics-sync/internal/mirror/pass.go:476-491 | removes exactly the listed keys whose statement takes effect and returns their number |
| `MirrorTable.GuardDeletes` | services/analytics-sync/internal/mirror/pass.go:228-246 | refuses exactly when production shows no row while staging shows more than ten, or when there are more deletes than the limit |
| `MirrorTable.WriteDiff` | services/analytics-sync/internal/mirror/pass.go:213-246 | the table after the upserts is the staging table merged with production's compared rows; pending deletes and guard as specified |
| `MirrorTable.ReflectTable` | services/analytics-sync/internal/mirror/pass.go:144-247 | one table of a pass: outcome, rollback on a failing statement, counts and pending deletes match the table's specification |
| `MirrorPass.ReflectAll` | services/analytics-sync/internal/mirror/pass.go:144-247 | the loop over the tables leaves each planned table at its merged state and every other table as it was |
| `MirrorPass.DeleteAll` | services/analytics-sync/internal/mirror/pass.go:249-269 | the reversed loop brings each planned table to its final state, a failing delete rolling back that table's deletes only |
| `MirrorPass.Count` | services/analytics-sync/internal/mirror/pass.go:156-224 | the result's counters are the sums over the planned tables |
| `MirrorPass.ReadBackAll` | services/analytics-sync/internal/mirror/pass.go:285-302 | counts exactly the compared mirror tables whose visible rows still differ from production's |
| `MirrorPass.Remember` | services/analytics-sync/internal/mirror/pass.go:342-365 | the memory of each table is extended by what the pass wrote and deleted, or restarted past the cap |
| `MirrorPass.Reflector.Pass` | services/analytics-sync/internal/mirror/pass.go:72-317 | fails, skips or completes exactly as specified; unless it completes outside a dry run nothing changes; otherwise every row of every planned table ends where the two databases, the cuts, the limits and the failing statements put it, all other tables stay, every counter, `converged` and the kind are stated in the same terms, and the memory grows by what was written and deleted or restarts above 200000 rows |
| `MirrorPass.HeldTablesEnd` | services/analytics-sync/internal/mirror/pass.go:144-269 | what the transaction holds, row by row: production's row, gone, or as it was, by the rows a hot pass looks at on either side, the guards and the failing or ineffective statements |
| `MirrorPass.AccountsCount` | services/analytics-sync/internal/mirror/pass.go:48-61 | each counter of the result is a count of such rows or tables; the deletes are the rows that left staging |
| `MirrorPass.MemoryRecalls` | services/analytics-sync/internal/mirror/pass.go:342-365 | the memory of each planned table after a pass, row by row, and that of the others is kept |
| `MirrorPass.ConvergedIffAllEqual` | services/analytics-sync/internal/mirror/pass.go:285-314 | zero errors, guards and unconverged tables if and only if no planned table failed, was guarded or differs in its window |
| `MirrorPass.ConvergedMeansEqualIff` | services/analytics-sync/internal/mirror/pass.go:285-314 | after a converged full pass all planned tables equal production if and only if no append-only row diverges and no append-only insert was skipped without an error |
| `MirrorPass.ConvergedPassMeansEqualIff` | services/analytics-sync/internal/mirror/pass.go:285-314 | after any converged pass, hot or full, all planned tables equal production if and only if the rows neither window shows are equal, and no append-only row differs, is missing unseen or was lost |
| `MirrorPass.UnseenRowConverges` | services/analytics-sync/internal/mirror/pass.go:285-314 | a hot pass that converges while a row before both cuts differs |
| `MirrorPass.LostInsertConverges` | services/analytics-sync/internal/mirror/pass.go:292-294 | a pass over one append-only table whose insert is silently skipped converges without being equal |
| `MirrorEnds.WholeTableEnds` | services/analytics-sync/internal/mirror/pass.go:157-166 | without trouble and within the limits, a mirror table that is not hot ends as production's in a hot pass too, and every mirror table in a full pass |
| `MirrorEnds.HotTableEnds` | services/analytics-sync/internal/mirror/plan.go:155-157 | in a hot pass production's rows after its cut are on staging, other rows staging has after its own cut are gone, and no other row moves |
| `MirrorEnds.AppendTableEnds` | services/analytics-sync/internal/mirror/spec.go:11-13 | an append-only table keeps every row and gains exactly the compared ones it lacks |
| `MirrorEnds.TroubledTableStays` | services/analytics-sync/internal/mirror/pass.go:327-333 | a table that cannot be read on staging, or whose upsert fails when there is something to write, stays |
| `MirrorEnds.GuardedTableKeeps` | services/analytics-sync/internal/mirror/pass.go:236-245 | with more deletes than the limit, or no production row against more than ten, no row leaves |
| `MirrorConvergence.MirrorPassReplacesTheWindow` | services/analytics-sync/internal/mirror/pass.go:144-269 | an unhindered mirror pass replaces exactly the rows staging's window shows by those production's window shows |
| `MirrorConvergence.FullPassHeals` | services/analytics-sync/internal/mirror/config.go:5-8 | from any staging table a full pass leaves production's snapshot and the next pass finds no differing bucket |
| `MirrorConvergence.HotPassDropsProductionRowIff` | services/analytics-sync/internal/mirror/pass.go:157-166 | an unhindered hot pass removes a key production has exactly when the two windows disagree about it |
| `MirrorConvergence.HotPassDropsRow` | services/analytics-sync/internal/mirror/plan.go:155-157 | a row equal on both sides, between the two cuts, is removed |
| `MirrorConvergence.HotPassConvergesIff` | services/analytics-sync/internal/mirror/pass.go:157-166 | an unhindered hot pass ends with staging equal to production if and only if production's rows outside its window are staging's outside its own |
| `MirrorConvergence.ReadBackIsExact` | services/analytics-sync/internal/mirror/pass.go:285-302 | reading back only the buckets that differed decides equality of everything compared, also after silent statements |
| `MirrorConvergence.DeletesAreBounded` | services/analytics-sync/internal/mirror/config.go:30 | in every environment a pass removes at most the limit of rows of a table, and none on an empty answer with more than ten rows |
| `MirrorConvergence.LostRowsArePending` | services/analytics-sync/internal/mirror/pass.go:228-246 | every removed key went through the guards |
| `MirrorConvergence.EmptySourceKeepsRowsIff` | services/analytics-sync/internal/mirror/pass.go:236-245 | exactly when an empty answer leaves the table alone in an unhindered pass |
| `MirrorConvergence.EmptySourceDeletesTenRows` | services/analytics-sync/internal/mirror/pass.go:237-240 | every table of up to ten rows is emptied by an empty answer under the default limit |
| `MirrorConvergence.AppendOnlyAddsOnly` | services/analytics-sync/internal/mirror/diff.go:41-69 | append-only changes and removes nothing, adds only production rows, and when unhindered ends with every production key |
| `MirrorConvergence.DivergenceIsStable` | services/analytics-sync/internal/mirror/diff.go:49-64 | in every window and environment the divergent keys are staging's visible rows but for those production's window shows as equal, and a re-run finds the same ones |
| `MirrorConvergence.DivergentIsApartIff` | services/analytics-sync/internal/mirror/diff.go:38-64 | they are the rows that differ or are extra if and only if staging's window shows each of those and production's each equal row that staging's shows; a full pass always |
| `MirrorConvergence.EqualRowDiverges` | services/analytics-sync/internal/mirror/plan.go:155-157 | a row equal on both sides that a hot pass counts as divergent |
| `MirrorConvergence.DifferingRowIsMissed` | services/analytics-sync/internal/mirror/plan.go:155-157 | a differing row that a hot pass does not count |
| `MirrorRuns.PassIsNext` | services/analytics-sync/internal/mirror/pass.go:72-317 | a completed pass over the databases is one step of the run of every table with a plan, memory included |
| `MirrorRuns.HealsAfterAnyRun` | services/analytics-sync/internal/mirror/config.go:5-8 | after any interleaving of production writes, stray writes and passes, one clean full pass makes staging equal production, and further hot or full passes whose staging cut is not the earlier one keep it so whatever fails in them |
| `MirrorRuns.EqualIsKeptIff` | services/analytics-sync/internal/mirror/plan.go:155-157 | a pass leaves every pair of equal sides alone if and only if staging's cut is not before production's |
| `MirrorRuns.AppendOnlyRunsOnlyGrow` | services/analytics-sync/internal/mirror/diff.go:41-69 | over every run of append-only passes no staging row is changed or removed |
| `MirrorRuns.AlarmIsExactly` | services/analytics-sync/internal/mirror/diff.go:71-88 | over every run of a mirror table in which only the reflector writes on staging, with hot, failing, guarded and silently ineffective statements, the detector counts exactly the rows missing on staging that it last wrote, the rows between the two cuts, the deleted keys that show and the lost writes never taken; when it is zero, exactly |
| `MirrorRuns.QuietAlarmIsExactly` | services/analytics-sync/internal/mirror/diff.go:71-88 | the same when every statement that reports success has its effect: the rows brought back unchanged, the rows between the two cuts and the keys dropped again; when it is zero, exactly |
| `MirrorRuns.AlarmCountsBlamed` | services/analytics-sync/internal/mirror/diff.go:75-88 | in every mode, window and environment it counts the keys written before with the row production still has and the keys deleted before |
| `MirrorRuns.CutApartNeedsLaterCut` | services/analytics-sync/internal/mirror/plan.go:155-157 | rows lie between the cuts only when staging's cut is the later one, and never in a full pass |
| `MirrorRuns.OnlyCutsAndLossesAlarm` | services/analytics-sync/internal/mirror/diff.go:71-74 | over every such run from an empty memory in which no key that left staging returns it counts exactly the rows between the two cuts and lost writes and deletes |
| `MirrorRuns.OnlyTheCutsAlarm` | services/analytics-sync/internal/mirror/diff.go:71-74 | without lost statements that is the rows between the two cuts, and nothing in a full pass |
| `MirrorRuns.OnePassMemoryAlarm` | services/analytics-sync/internal/mirror/diff.go:71-74 | for a mirror table, with only the previous pass's effects in memory, it counts exactly the rows that pass wrote that lie between the cuts, and what that pass lost, whatever production did |
| `MirrorRuns.HotFalseAlarm` | services/analytics-sync/internal/mirror/plan.go:155-157 | a quiet run of one full pass after which a hot pass counts one |
| `MirrorRuns.StrayAlarmIsExactly` | services/analytics-sync/internal/mirror/diff.go:71-88 | from every state of a mirror table, a stray write takes the keys it touches out of the alarm and adds exactly those where staging's window does not show the row last written and still production's, or shows a deleted key |
| `MirrorRuns.HeldRowIsCaught` | services/analytics-sync/internal/mirror/diff.go:71-88 | while the memory is true every stray write to a row the reflector wrote and production still shows is caught |
| `MirrorRuns.FalseAlarm` | services/analytics-sync/internal/mirror/pass.go:342-365 | a quiet run of full passes and production writes after which it counts one |
| `MirrorRuns.SilentWriteAlarms` | services/analytics-sync/internal/mirror/pass.go:219-223 | a full pass writes a row in vain and the next one counts it |
| `MirrorRuns.SilentDeleteAlarms` | services/analytics-sync/internal/mirror/pass.go:285-286 | a full pass deletes a row in vain and the next one counts it |
| `MirrorAppendOnly.AppendAlarmIsExactly` | services/analytics-sync/internal/mirror/pass.go:193-200 | over every run of an append-only table in which only the reflector writes, lost inserts included, it counts exactly the lost inserts that never arrived and the keys whose staging row lies before staging's cut while production shows the row last tried for them |
| `MirrorAppendOnly.QuietAppendAlarm` | services/analytics-sync/internal/mirror/pass.go:193-200 | without lost inserts only the latter, and nothing in a full pass |
| `MirrorAppendOnly.SilentInsertAlarms` | services/analytics-sync/internal/mirror/pass.go:219-223 | a full pass inserts a row in vain and the next one counts it |
| `MirrorAppendOnly.AppendStrayAlarmIsExactly` | services/analytics-sync/internal/mirror/diff.go:75-88 | a stray write to an append-only table adds exactly the touched keys that staging's window no longer shows and whose last tried row production still shows |
| `MirrorAppendOnly.AppendAlarmRepeats` | services/analytics-sync/internal/mirror/plan.go:231-233 | two rows of one key on the two sides of the cut, for which every hot pass after the first counts one |
| `MirrorBags.ReplaceBuckets` | services/analytics-sync/internal/mirror/pass.go:493-538 | refuses above the limit; rolls the table back when a statement fails, keeping the count of rows deleted until then; otherwise, in every differing bucket, the rows staging's window shows give way to those production's window shows, with their multiplicity, unless the bucket's statement changes nothing |
| `MirrorBags.BagAfterPass` | services/analytics-sync/internal/mirror/pass.go:521-538 | for all windows and silently ineffective statements: staging keeps the copies its window does not show, and those a delete in vain left, and gets those production's window shows, in every bucket |
| `MirrorBags.BagEqualIff` | services/analytics-sync/internal/mirror/pass.go:521-538 | staging ends with production's rows as a multiset if and only if the copies left of each row are the ones not brought |
| `MirrorBags.BagReadBackIff` | services/analytics-sync/internal/mirror/pass.go:285-302 | the read-back finds no bucket that differs if and only if the table was neither refused nor rolled back, staging's window shows the rows production's shows, and no delete or insert in vain had rows |
| `MirrorBags.WindowsDecide` | services/analytics-sync/internal/mirror/pass.go:285-302 | without statements in vain the windows alone decide that |
| `MirrorBags.MutedDeleteKeeps` | services/analytics-sync/internal/mirror/pass.go:285-286 | a delete in vain leaves the old row beside the new one |
| `MirrorBags.RowIsDoubled` | services/analytics-sync/internal/mirror/plan.go:155-157 | a row between the cuts, of which staging has any number of copies, gets one more, and the limit does not stop it |
| `MirrorBags.BagConverges` | services/analytics-sync/internal/mirror/pass.go:493-538 | with one cut on both sides and every statement effective the compared rows become production's as a multiset |
| `MirrorBags.EmptySourceEmptiesBagIff` | services/analytics-sync/internal/mirror/pass.go:496-503 | an empty answer empties the table exactly when it holds no more rows than the limit, no statement fails and no delete is in vain |
| `MirrorSchedule.Loop.Wake` | services/analytics-sync/internal/mirror/run.go:17-69 | one wake-up appends the entry that the history so far determines and keeps the stored times equal to the history's latest |
| `MirrorSchedule.Loop.RunForever` | services/analytics-sync/internal/mirror/run.go:12-71 | after any number of wake-ups the history is the one the cadence rules determine |
| `MirrorSchedule.HotPassFollowsFullPass` | services/analytics-sync/internal/mirror/run.go:22-46 | every hot pass starts less than the full cadence after a completed full pass |
| `MirrorSchedule.FullIff` | services/analytics-sync/internal/mirror/run.go:22 | a pass is full if and only if no full pass completed less than the full cadence before it |
| `MirrorSchedule.CheckedIff` | services/analytics-sync/internal/mirror/run.go:59-68 | the invariants are recorded after a pass if and only if recording is on, the pass did not fail and the cadence has passed since they were |
| `MirrorSchedule.UnfinishedFullPassIsRetried` | services/analytics-sync/internal/mirror/run.go:22-46 | a failed or skipped full pass makes the next pass full |
| `MirrorSchedule.LatestNeverMovesBack` | services/analytics-sync/internal/mirror/run.go:39-46 | the stored times never move back |
| `MirrorSchedule.FailedPassNeverBeats` | services/analytics-sync/internal/mirror/run.go:26-58 | a pass beats if and only if it did not fail; all beat exactly when none failed |
| `MirrorSchedule.LagIsOkIff` | services/analytics-sync/internal/mirror/invariant.go:116-123 | the lag invariant is green exactly when a pass converged within the limit, or the limit is a year and none ever did |
| `MirrorSchedule.NeverConvergedIsGreen` | services/analytics-sync/internal/mirror/invariant.go:116-123 | one failed pass and a limit of a year leave it green |
| `MirrorIdBlock.IdBlock` | services/analytics-sync/internal/mirror/invariant.go:158-195 | returns, in reading order, one violation with its value for each staging sequence at or above the block and then for each production sequence unset or below it |
| `MirrorIdBlock.Mr4IsIdBlock` | services/analytics-sync/internal/mirror/invariant.go:138-147 | the list is empty if and only if the invariant is zero, for the rows the query answers, an unreadable sequence having no value |
| `MirrorIdBlock.RunsStayBounded` | services/analytics-sync/internal/mirror/invariant.go:158-159 | over every run of mints each side's new ids lie above its start and at most at its last value |
| `MirrorIdBlock.Mr4ZeroIff` | services/analytics-sync/internal/mirror/invariant.go:57-58 | from a start without violations it stays zero if and only if every id staging minted from a readable sequence lies below the block |
| `MirrorIdBlock.NoIdMintedTwice` | services/analytics-sync/internal/mirror/invariant.go:57-58 | while it is zero, at both ends of any run, no id of a table with a readable staging sequence was minted on both sides |
| `MirrorIdBlock.SafeIffReadable` | services/analytics-sync/internal/mirror/invariant.go:138-147 | for a table every such run is free of collisions if and only if the reflector may read its staging sequence |
| `MirrorIdBlock.UnreadableCollision` | services/analytics-sync/internal/mirror/invariant.go:138-147 | an unreadable staging sequence mints past the block, the invariant stays zero and both sides mint the same id |
| `MirrorIdBlock.CollisionBelowTheBlock` | services/analytics-sync/internal/mirror/invariant.go:158-159 | without a clean start both sides can mint the same id |
| `StableJson.NormDecidesSame` | customize/src/lib/node-red-customizations.ts:9-19 | normal forms are equal if and only if the values are equal up to key order at every depth, array order counting |
| `StableJson.KeyBeforeIff` | customize/src/lib/node-red-customizations.ts:12-16 | the order of printed keys is that of array indexes by number and then of UTF-16 code units |
| `StableJson.TextReadsBack` | customize/src/lib/node-red-customizations.ts:20 | a reader of RFC 8259 JSON without blanks returns the printed value, and what follows it |
| `StableJson.StableTextReadsBack` | customize/src/lib/node-red-customizations.ts:8-21 | the printed text is JSON of a value that is equal up to key order, with the keys of every object in that order |
| `StableJson.TextIsPrefixCode` | customize/src/lib/node-red-customizations.ts:20 | a printed value can be recovered from the front of any text in which a comma, a closing bracket or nothing follows it |
| `StableJson.StableTextIsCanonical` | customize/src/lib/node-red-customizations.ts:3-21 | two values print the same if and only if they are equal up to key order |
| `NodeRed.MapIds` | customize/src/lib/node-red-import.ts:157-158 | the map takes every id to an id minted for it, in order when the ids are distinct |
| `NodeRed.ReidNodes` | customize/src/lib/node-red-import.ts:156-182 | every copy is its node, member by member in order, without prototype members: `func`, `info`, `name`, `label` and `template` as they were, a subflow type with its id renamed, and everywhere else, at every path, each id renamed and everything else of the same make; when the minted ids are new, no old id is left outside those five; when they are distinct too, an inverse map exists and re-iding the result with it gives the nodes back but for their prototype members |
| `NodeRed.SwapMovesAt` | customize/src/lib/node-red-import.ts:159-168 | at every path into a value the swapped value has the id's new name, or the same make: as many items, the same keys in order but for prototypes, the same literal |
| `NodeRed.SwapBack` | customize/src/lib/node-red-import.ts:159-168 | through arbitrary nesting, swapping forth and back is the identity up to prototype members |
| `NodeRed.DistinctMintsInvert` | customize/src/lib/node-red-import.ts:157-158 | distinct ids and distinct fresh ids give an invertible map |
| `NodeRed.ReidLeavesNoOldId` | customize/src/lib/node-red-import.ts:149-155 | every reference is rewritten: no old id remains in a node outside `func`, `info`, `name`, `label` and `template`, at any depth |
| `NodeRed.ReidRoundTripsIff` | customize/src/lib/node-red-import.ts:149-182 | re-iding back with the inverse map gives the original nodes if and only if no member outside those five is named `__proto__` |
| `NodeRedCopies.PrototypeIsLost` | customize/src/lib/node-red-import.ts:164 | a node whose prototype member does not come back |
| `NodeRedFlow.ParsePaste` | customize/src/lib/node-red-import.ts:16-43 | accepts exactly the pastes whose items are named nodes with distinct ids, and otherwise reports the first bad item with exactly the test it fails |
| `NodeRedFlow.UnwrappedIff` | customize/src/lib/node-red-import.ts:26-31 | the items of a paste are its own, those under `flows`, else those under `nodes`, else the object itself |
| `NodeRedFlow.NamedNodeIff` | customize/src/lib/node-red-import.ts:36-38 | a named node has an id and a type with a character that is no white space |
| `NodeRedFlow.AcceptedPasteHasDistinctIds` | customize/src/lib/node-red-import.ts:33-41 | an accepted paste is a list of nodes with pairwise distinct ids |
| `NodeRedFlow.Incoming` | customize/src/lib/node-red-import.ts:83-91 | the set holds exactly the targets of some wire |
| `NodeRedFlow.AnalyzeFlow` | customize/src/lib/node-red-import.ts:120-131 | entries and exits are exactly the positions, in order, of the nodes with a container, neither tab nor subflow, that no wire names and that are no comment, link in or inject; and of those, no link out, with an output that names nothing |
| `NodeRedFlow.EntryIff` | customize/src/lib/node-red-import.ts:128 | the analysis of entries by properties is that statement about members |
| `NodeRedFlow.ExitIff` | customize/src/lib/node-red-import.ts:129-131 | and so is that of exits |
| `NodeRedCopies.CopyReadsAs` | customize/src/lib/node-red-import.ts:164-177 | a copy, with the members it inherits, reads like the re-iding of the node with those members |
| `NodeRedCopies.WiredIntoIsKept` | customize/src/lib/node-red-import.ts:149-182 | a copy is wired into if and only if the node is, counting inherited wires |
| `NodeRedCopies.ReidKeepsEnds` | customize/src/lib/node-red-import.ts:128-131 | the analysis finds the ends of the copies where the nodes, given their prototypes' members, have them |
| `NodeRedCopies.EndsAreKeptIff` | customize/src/lib/node-red-import.ts:46-50 | the ends stay where they were if and only if those members change none; without prototype members they always do |
| `NodeRedCopies.PrototypeMakesAnExit` | customize/src/lib/node-red-import.ts:177 | a node that is no exit and whose copy is one |
| `NodeRedRemove.CollectGone` | customize/src/lib/node-red-import.ts:260-261 | the dropped ids and the ids of nodes on a dropped container |
| `NodeRedRemove.GoesIff` | customize/src/lib/node-red-import.ts:259-261 | an id goes if and only if it is dropped or a node with it has a dropped container |
| `NodeRedRemove.RemoveNodes` | customize/src/lib/node-red-import.ts:257-270 | the result is the nodes that are not dropped and sit on no dropped container, in order; each has its members in order and unchanged, but every output of its wires, and its links, without the targets that are gone: the others all stay, in order and with their copies; nothing left names what is gone |
| `NodeRedRemove.KeepIsWithout` | customize/src/lib/node-red-import.ts:266-267 | the filter leaves every target but the gone ones, as often as it was and in order |
| `NodeRedRemove.NothingDangles` | customize/src/lib/node-red-import.ts:257-270 | no remaining node is gone, sits on a dropped container, or has a wire or link to a gone id |
| `NodeRedRemove.OtherReferencesStay` | customize/src/lib/node-red-import.ts:264-269 | every member but wires and links keeps its value, also when it names a removed node |
| `NodeRedRemove.InstanceOutlivesItsSubflow` | customize/src/lib/node-red-import.ts:264-269 | removing a subflow leaves an instance whose type names it |
| `NodeRedRemove.ContainersStayIff` | customize/src/lib/node-red-import.ts:259-261 | no remaining node sits on a removed container if and only if no pasted node sits, undropped, on a node of a dropped container |
| `NodeRedRemove.NestedNodeIsStranded` | customize/src/lib/node-red-import.ts:259-261 | three nested nodes of which the innermost stays and its container goes |
| `NodeRedRemove.RemovalComposes` | customize/src/lib/node-red-import.ts:258-270 | removing A and then B is removing both in one call |
| `NodeRedRemove.RemovalIsIdempotent` | customize/src/lib/node-red-import.ts:258-270 | removing again changes nothing |
| `SeedTokens.LoadTokens` | dev/seed/leakgate.py:34-41 | raises exactly on a line that is not blank and has no tab; otherwise the tokens are exactly the lowered values of four characters or more, a value being what lies between the outer white space behind the first tab; longest first |
| `SeedTokens.SplitTabIff` | dev/seed/leakgate.py:38 | the split gives the halves around the first tab, and there is none exactly without a tab |
| `SeedTokens.ReadsIff` | dev/seed/anonymize.py:98-104 | category and value of a line are the text before the first tab and the stripped text behind it |
| `Trimming.TrimIff` | dev/seed/leakgate.py:37-38 | what stripping leaves is the one core: blanks, the core, blanks, and none at its ends |
| `SeedTokens.TokenIndex.constructor` | dev/seed/leakgate.py:53-56 | the index holds every token under its prefix and nothing else |
| `SeedTokens.TokenIndex.Search` | dev/seed/leakgate.py:58-67 | answers true exactly when some token of four characters or more reads, character by character and up to case, somewhere in the string |
| `SeedScrub.BuildPairs` | dev/seed/anonymize.py:61-65 | the keys are exactly the gate's tokens, each with the pseudonym of the category and value of the first line that has it |
| `SeedScrub.Anonymizer.constructor` | dev/seed/anonymize.py:57-68 | the table and its alternatives, longest first |
| `SeedScrub.Anonymizer.Scrub` | dev/seed/anonymize.py:78-81 | the scan computes the replacement that the properties below speak of |
| `SeedScrub.FirstMatchIsLongest` | dev/seed/anonymize.py:67-68 | the first alternative that matches is the longest token starting there, and there is none only when no token starts there |
| `SeedScrub.LongestIsReplaced` | dev/seed/anonymize.py:78-81 | a position where tokens read, up to case, gives way to the pseudonym of the longest, marked; any other character is kept, unmarked; nothing gives nothing |
| `SeedScrub.UnmarkedIsKept` | dev/seed/anonymize.py:78-81 | text before the first pseudonym is the input's own |
| `SeedScrub.OccurrenceIsTouched` | dev/seed/anonymize.py:78-81 | every occurrence of a token in scrubbed text overlaps an inserted pseudonym |
| `SeedScrub.GateFindsOnlyPseudonyms` | dev/seed/leakgate.py:6-9 | gate and anonymizer have the same token set, and whatever the gate finds in scrubbed text overlaps a pseudonym |
| `SeedScrub.NoClashNeverLeaks` | dev/seed/anonymize.py:74-81 | when no token agrees with a lowered pseudonym where it could lie over it and over kept characters in front, every scrubbed text passes the gate |
| `SeedScrub.LeakIsClash` | dev/seed/anonymize.py:74-81 | every token found in scrubbed text agrees with the first pseudonym it touches, and no token starts in the kept characters before it |
| `SeedScrub.FittingClashLeaks` | dev/seed/anonymize.py:74-81 | when a token can end inside a pseudonym, every text that reads as its start and then the pseudonym's token fails the gate |
| `SeedScrub.PassesIffNoClash` | dev/seed/leakgate.py:6-9 | on tables in which every clash is of that kind, every text passes the gate if and only if there is no clash |
| `SeedScrub.TokenLeaksIff` | dev/seed/anonymize.py:74-81 | the text of one token fails the gate if and only if its lowered pseudonym holds a token |
| `SeedScrub.SmallTextsDecide` | dev/seed/leakgate.py:6-9 | some text fails the gate if and only if one of at most the square of the longest token does |
| `SeedScrub.PseudonymCanLeak` | dev/seed/anonymize.py:41-43 | a token contained in a readable prefix is still found after scrubbing |
| `ConfigIdentity.BuildPayload` | scripts/promotion/transplant/cpack-config-sync.py:96-108 | every equipment keeps its columns; every reference and every link carries the base topic of the equipment it names, and none when the snapshot has no such equipment |
| `ConfigIdentity.StatusOf` | scripts/promotion/transplant/cpack-config-sync.py:128-139 | each status holds exactly under its own condition, in the order of the cases: topics, then kind, then names up to outer spaces and case (two missing ones agree), then codes unless one is missing or empty |
| `ConfigIdentity.NameKeyIff` | scripts/promotion/transplant/cpack-config-sync.py:135 | the trimmed and lowered names are equal if and only if both are missing, or the parts between their outer spaces agree letter by letter but for case |
| `ConfigIdentity.PairStatusIff` | scripts/promotion/transplant/cpack-config-sync.py:134-138 | which status a matched pair gets, by kind, name and code |
| `ConfigIdentity.Verify` | scripts/promotion/transplant/cpack-config-sync.py:128-140 | the verified rows are exactly the pairs alone on their topic on both sides that have the same kind, names that agree up to outer spaces and case, and no two codes |
| `ConfigIdentity.VerifiedIsOneToOne` | scripts/promotion/transplant/cpack-config-sync.py:126-140 | verification is a one-to-one partial map |
| `ConfigReasons.SyncSettles` | scripts/promotion/transplant/cpack-config-sync.py:214-253 | only staging's codes end active, all of them that have a level, with its columns, each below the active row of its parent's code |
| `ConfigReasons.ActiveCodesIff` | scripts/promotion/transplant/cpack-config-sync.py:231-248 | a code ends active if and only if staging has it and it was active before or has a level |
| `ConfigReasons.ActiveCodesAreStagings` | db/init-f3/snapshot/00-packiot_analytics-schema.sql:9619 | since every extracted reason has a level, the active codes end equal to staging's |
| `ConfigReasons.LevelessStaysOut` | scripts/promotion/transplant/cpack-config-sync.py:231-248 | a reason with a null level, which the column does not allow, would be in neither insert |
| `ConfigReasons.SettledIsFixed` | scripts/promotion/transplant/cpack-config-sync.py:182 | every statement leaves a settled catalogue alone |
| `ConfigReasons.RewrittenIff` | scripts/promotion/transplant/cpack-config-sync.py:215-253 | which rows are rewritten, exactly; none is deleted, renamed or touched in another enterprise |
| `ConfigReasons.ExistingRowEnds` | scripts/promotion/transplant/cpack-config-sync.py:215-253 | every column of a row that was there after a sync: closed when its code is gone, else staging's columns, its parent's active row, and the stamp exactly when something changed |
| `ConfigReasons.NewRowEnds` | scripts/promotion/transplant/cpack-config-sync.py:231-253 | every column of a row that a sync adds |
| `ConfigReasons.TopLevelParentClearedIff` | scripts/promotion/transplant/cpack-config-sync.py:219-253 | a top-level reason keeps an old parent exactly when its other columns already agree |
| `ConfigReasons.StaleParentStays` | scripts/promotion/transplant/cpack-config-sync.py:219-230 | a catalogue in which a top-level reason keeps its old parent |
| `ConfigReasons.InsertedKeeps` | scripts/promotion/transplant/cpack-config-sync.py:231-248 | an insert adds only missing codes under fresh ids and keeps one active row per code |
| `ConfigReasons.InsertedCovers` | scripts/promotion/transplant/cpack-config-sync.py:231-248 | after the insert of its level every snapshot code with a level has an active row |
| `ConfigApply.Target.CleanReasons` | scripts/promotion/transplant/cpack-config-sync.py:215-230 | no row is added, removed or renamed; the active ones are those staging still has, with staging's columns, one per code |
| `ConfigApply.Target.InsertReasons` | scripts/promotion/transplant/cpack-config-sync.py:231-248 | every snapshot code of the step's levels is active, old rows are untouched, codes stay unique among active rows, and every new row is that of a missing code of the step, without a parent at level 1 and else below the active row of its parent's code |
| `ConfigApply.Target.SyncReasons` | scripts/promotion/transplant/cpack-config-sync.py:214-253 | the five statements in sequence compute the synced catalogue and keep its unique index |
| `ConfigApply.Target.Apply` | scripts/promotion/transplant/cpack-config-sync.py:167-279 | refuses another enterprise without a change; otherwise equipments, reasons and links reach the states below |
| `ConfigApply.RowOfIff` | scripts/promotion/transplant/cpack-config-sync.py:202-211 | the row an equipment is updated from is that of its verified pair |
| `ConfigApply.UnverifiedIsUntouched` | scripts/promotion/transplant/cpack-config-sync.py:201-211 | an equipment that failed identity keeps every column |
| `ConfigApply.VerifiedTakesStaging` | scripts/promotion/transplant/cpack-config-sync.py:201-211 | a verified one takes staging's values, keeps its identity columns and is stamped exactly when it changed |
| `ConfigApply.ReferencesFollowTheMatch` | scripts/promotion/transplant/cpack-config-sync.py:172-175 | references follow the verified match, null stays null, and an unmappable one keeps the target's value |
| `ConfigApply.VerificationSurvives` | scripts/promotion/transplant/cpack-config-sync.py:128-140 | an apply changes nothing that identity looks at |
| `ConfigApply.UnverifiedLinksAreUntouched` | scripts/promotion/transplant/cpack-config-sync.py:259-263 | links of equipments that failed identity keep their rows |
| `ConfigApply.VerifiedLinksEqualStaging` | scripts/promotion/transplant/cpack-config-sync.py:255-269 | a verified equipment ends linked to exactly the active reasons whose codes staging links it to; a link is inactive exactly when it was there and inactive |
| `ConfigApply.InactiveLinkStays` | scripts/promotion/transplant/cpack-config-sync.py:265-269 | a wanted link that is there and inactive stays inactive |
| `ConfigApply.SecondApplyChangesNothing` | scripts/promotion/transplant/cpack-config-sync.py:182 | a second apply at any later time can only verify the same pairs and changes no equipment, reason or link |
| `WikiLinks.SplitJoin` | scripts/wiki-restructure.py:72-73 | the text of a path splits into its segments again |
| `WikiLinks.RewritableIff` | scripts/wiki-restructure.py:64-69 | a link is touched if and only if it has no scheme, is no anchor and not absolute, and ends in .md before its fragment; any other stays as it is |
| `WikiLinks.NewPathMoves` | scripts/wiki-restructure.py:22-50 | the text of a moved path is its entry in the table of pages, or else the first folder that fits gives way to its new one |
| `WikiLinks.RelPathResolvesIff` | scripts/wiki-restructure.py:70-72 | a relative path resolves to its target if and only if the target does not re-enter the working directory from above or climb past the root |
| `WikiLinks.NewPathStays` | scripts/wiki-restructure.py:44-50 | moves keep paths inside the tree inside and never move a target above it |
| `WikiLinks.RewrittenLinkResolvesIff` | scripts/wiki-restructure.py:62-75 | the rewritten link leads from the page's new place to the moved target with its fragment exactly under that condition and without `#` in the target below the folder it shares with the page |
| `WikiLinks.ReenteringLinkIsLost` | scripts/wiki-restructure.py:70-72 | a link out of the tree that is rewritten to a page inside it |
| `WikiLinks.InsideLinksStayTrue` | scripts/wiki-restructure.py:2-7 | for targets inside the tree it always does, from whatever directory the script runs |
| `AggregateOrder.SweepPending` | scripts/promotion/transplant/build.py:228-231 | one pass over the pending copy, deleting what got its place |
| `AggregateOrder.CreationOrder` | scripts/promotion/transplant/build.py:226-231 | on acyclic definitions the loop ends with every aggregate once, after all it names, within one pass per aggregate |
| `AggregateOrder.SomeoneIsReady` | scripts/promotion/transplant/build.py:227-231 | without a cycle every pass shrinks the pending set |
| `AggregateOrder.CycleIsNeverPlaced` | scripts/promotion/transplant/build.py:227-231 | the aggregates on a cycle stay pending after any number of passes |
| `AggregateOrder.EndsIffAcyclic` | scripts/promotion/transplant/build.py:226-231 | the loop ends if and only if there is no cycle |
| `AggregateOrder.CircleRunsForever` | scripts/promotion/transplant/build.py:226-231 | two aggregates that name each other are pending after any number of passes |
| `Simulator.MachineState.constructor` | simulator/simulator.py:264-274 | the start state and the floor of the fault length |
| `Simulator.MachineState.Tick` | simulator/simulator.py:292-357 | when the machine switches and how its stop and stuck ticks go; its counters move by the whole part of the drawn speed over the interval and by the scrapped part; the published metrics, each kind at most once: state 6 and mode 1 or state 10 and mode 3, good parts, parts in and scrap with their movement and standing, and the speed |
| `Simulator.PublishedCountersAreSums` | simulator/simulator.py:326-348 | in every run each published counter of a kind is the sum of the increments published of it, parts in are good parts and scrap both as increment and as counter, no increment is negative, and both are published exactly when the state is running |
| `Simulator.RunningIsNotStuck` | simulator/simulator.py:271-274 | a running machine has no stuck ticks, a stopped one at most the profile's maximum |
| `Simulator.StopsLastLongEnough` | simulator/simulator.py:58-60 | every finished stop publishes at least the minimum number of stopped ticks |
| `Simulator.ShortestStop` | simulator/simulator.py:293-308 | and there is a run whose stop publishes exactly that many |
| `Simulator.DowntimeFloorIff` | simulator/simulator.py:58-60 | for which intervals every stop is longer than twelve, or than ten, minutes |
| `Simulator.ShortStops` | simulator/simulator.py:58-60 | two intervals at which a stop is not longer than twelve, and than ten, minutes |
| `Simulator.StuckHolds` | simulator/simulator.py:298-300 | stuck ticks keep the machine stopped, whatever is drawn, and count down one by one |
| `Simulator.FaultLastsSixtyTicks` | simulator/simulator.py:304-306 | a prolonged fault keeps at least sixty further publications stopped |
| `CalcPaths.CounterInIff` | customize/src/lib/calc-builder.ts:94-95 | the counter read out of a path is exactly the regular expression's group |
| `CalcPaths.InputPathIs` | customize/src/lib/calc-builder.ts:66-72 | the path of an input: relative with an open number for the rule's own machine, else the topic, the counter and the number in decimal digits; refused exactly without a number |
| `CalcPaths.SourceIsRecoveredIff` | customize/src/lib/calc-builder.ts:97 | reading a path back finds the machine it was written for if and only if no topic sits inside the path |
| `CalcPaths.AdminTopicShadows` | customize/src/lib/calc-builder.ts:97 | a topic that takes over every path of another machine |
| `CalcPaths.DescriptionInvertsPath` | customize/src/lib/calc-builder.ts:66-99 | a stored input of the rule's own machine reads as it, one of another machine as the machine it is found below, the right one exactly when no topic sits inside the path; it is refused exactly when another machine has no counter number |
| `CalcPaths.PathsAreDistinct` | customize/src/lib/calc-builder.ts:66-72 | no two inputs from other machines share a path |
| `CalcPaths.SampleMetricIs` | customize/src/lib/calc-builder.ts:117-120 | the metric of a sample: the topic behind the tenant prefix, the counter and the number, 0 when there is none |
| `CalcPaths.SampleMatchesRule` | customize/src/lib/calc-builder.ts:109-125 | a sample carries the metric that the rule waits for if and only if, for the rule's own machine or an unknown id, the machine has its counter number, and for another machine, its topic below the prefix is the rule's segment and then the whole topic |
| `CalcPaths.OtherSampleMatchesIff` | customize/src/lib/derive-rules.ts:55-99 | for a topic without placeholders that is only a rule at the prefix itself and a machine outside it |
| `CalcPaths.MachineSampleIsMissed` | customize/src/lib/derive-rules.ts:94-99 | a line and its machine under one prefix, whose sample is not what the rule waits for |

## Left out

- Hash functions, HMAC and fingerprint SQL: taken as injective (hashes) or as any non-empty string function (pseudonyms).
- Databases, snapshots, locks, savepoints, metrics and logging of the reflector: only the resulting state changes; a failing
  or silent statement is a parameter of the pass. Statement batching and key decoding are not modelled.
- MirrorPass.Reflector.Pass: leaves out keyless tables (`MirrorBags` has them on their own), foreign keys, self references,
  columns on one side only and the refresh of the resolved downtime events.
- MirrorRuns.HealsAfterAnyRun: follows one table; `PassIsNext` makes each of its passes one of all tables.
- MirrorSchedule.Loop.RunForever: the timer and the context are the list of wake-ups; clock readings within one wake-up are
  one start and one end time, and time does not run backwards.
- `ParseEnterprises`, configuration loading and the comparisons of the invariants MR1, MR2 and MR5: they restate `DiffBuckets`
  or count a list.
- `applyPlacement`, `attachToSpot`, `groupByContainer` and the findings, collisions and per-type counts of `analyzeFlow`:
  they would only add easy members. Of the members a `__proto__` value gives a copy, `z` and `wires` are modelled, the ones
  the analysis of ends reads; the others are not.
- Text of numbers in printed JSON is any non-empty string of number characters; `undefined`, sparse arrays, lone surrogates,
  escapes of surrogates and values outside JSON are not modelled.
- SeedScrub.Anonymizer.Scrub: the regular expression engine is the leftmost-longest scan, and case folding maps one character
  to one character. CSV reading, column classes, the e-mail and address patterns and column types are not modelled.
- ConfigIdentity.StatusOf: lower-casing is ASCII, and the base topic of an equipment is given.
- ConfigApply.Target.Apply: the ids new reasons get are fresh and ascending, gaps unspecified; the read-only difference report,
  the counts printed and the extraction are not modelled. The label, category and flag columns of a reason are one column.
- WikiLinks: finding links in Markdown, the file moves and the printed redirect map. Only the text of one link is rewritten.
- AggregateOrder: which definition names which aggregate is given as a relation; emitting the SQL is not modelled.
- Simulator.MachineState.Tick: topic names, time stamps and the current speed next to a counter; random draws are inputs.
- CalcPaths.SampleMatchesRule: the generator's resolveDerived is not part of this model; what a rule waits for is what
  `ruleInputs` lists, for counters without a brace in their name. Formula syntax, rule editing and `parseVarLines` are left out.
