# Verified models of the OMR core

This project models, in Dafny, the parts of the Eclipse OMR runtime core that keep state of their own, and proves what
they promise. `dafny verify dfyconfig.toml` checks everything.

| files | models |
|---|---|
| `CategorySums`, `CategoryForest`, `CategoryTables`, `CategoryLinks`, `CategoryCounters`, `CategoryReport`, `CategoryTotals` | the memory-category report: the registered tables and their look-up, three walks of the forest they unfold to, the code-to-slot mapping, the child and sibling lists threaded through the caller's buffer, the deep counters |
| `CpuLoad` | the system and process CPU-load samplers with their two saved records, status and counter |
| `MethodTable`, `MethodDictionary` | the method dictionary: insertion, batch retrieval with the RETRY protocol, name-buffer packing, byte accounting |
| `CasLoops` | the compare-and-swap loops, any number of threads interleaved on one cell |
| `SignalChain`, `SignalOverlap` | primary and secondary signal handlers above one operating-system disposition; deliveries that overlap |
| `ThreadList`, `ThreadBinding` | the VM's circular thread list, the child's walk after fork, nested binding of a thread |
| `TaggedTree` | AVL nodes whose child links are self-relative and tagged |
| `MachineIntegers`, `Options` | fixed-width integers, values that may be absent |

How the models are built:

- Code that updates a buffer, a list, a table or a record is a method on an `array` or a `class`, and its contract is a
  relation to the state before, or to a function on values about which the lemmas are proved. Pointers into a
  caller's buffer are slot numbers with `NIL` for NULL. Where the report borrows `liveBytesDeep` as a tail pointer, the
  casts between addresses and `int64_t` are modelled, for any buffer address.
- `uint32_t`, `int32_t`, `int64_t` and `uint64_t` arithmetic is written out with its wrap-around. Signed overflow, which
  the language leaves undefined, is taken as two's-complement wrap-around.
- Answers of the thread, port, hash-table and operating-system layers (whether an allocation, a monitor, a signal-mask
  call or a clock reading works, and what it yields) are parameters.
- Interleavings are step systems: a run is any sequence of enabled steps or any sequence of calls.
- CPU loads are real numbers; an IEEE division by zero keeps its outcome after the minimum with 1.0.

Findings that the proofs turn on:

- omrtiGetMemoryCategories relies on a category's parent having been recorded (omr/OMR_TI.cpp:602), by code. Codes
  repeat: the default walk visits one twice on 64-bit builds (port/common/omrmemcategories.c:240-248), harmlessly. But
  the look-up answers every unknown code with a category that also carries OMRMEM_CATEGORY_UNKNOWN. If an application
  registers that code with children, and a child is visited at or after an unregistered code below it, that child is
  recorded below the wrong slot; an unregistered direct child becomes its own parent, is reached from no root, and
  keeps an address in `liveBytesDeep`. `ParentsAreTrueUnlessConfused` and `OwnParentsComeFromUnknown` give the exact
  conditions on the tables, `UnknownIsItsOwnParent` and `UnknownIsLeftBehind` an input.
- "cpuload is in [0, 1]" (omr/OMR_TI.cpp:363) fails when CPU count times interval overflows `int64_t`, when the
  difference of the system counters does (a counter may start out negative), and for the process sampler when system
  time falls by more than user time grows. `SystemLoadIsAFraction` and `ProcessLoadIsAFraction` give the exact
  conditions; `SystemLoadCanBeNegative`, `OverflowingCountersGoNegative` and `ProcessLoadCanBeNegative` an input each.
- A one-shot secondary handler that the system itself has run (no primary installed) stays in its slot; if the primary
  user registers before the secondary user does again, it comes back into force and can run twice.
  `TransparentUnlessRevived` says exactly when, `SpentActionsCanRevive` gives a run.
- A registration that the system refuses has already overwritten the slot. From a coherent slot the secondary user is
  then told of it unless it repeats the stored action or the system answers for itself (`RefusedRegistrationsStick`);
  `SecondaryTransparency` says for whole runs, from what was last registered, last accepted and put into force, when it
  is told the truth; `AcceptedRegistrationsMend` how it recovers.
- omrsig_handler copies its slot and resets a one-shot action only later. If a second delivery copies in between, the
  handler runs twice for one registration, and a late reset throws out what has been registered since
  (`OnceUnlessOverlapping`, `StaysInTheSlot`, `OverlapsRunTwice`).
- omrsig_handler unblocks the signal under SA_NODEFER even if sa_mask contains it, which its comment
  (omrsigcompat/omrsig.cpp:134-137) rules out; `HandlerMaskIsPosix` says when this matters. The code is followed.
- An unbind whose language thread cannot be freed, or a bind whose failed link step cannot be cleaned up, puts the
  native attach count one off for good (`BoundExactlyWhileAttached`).
- getEntries is documented to return as many complete descriptions as fit (include_core/omragent.h:249). Once one does not
  fit, the code only counts: later descriptions that would have fitted are left behind (`AFittingDescriptionStaysBehind`);
  `AsManyAsFit` says exactly when the promise is kept.
- A report is documented to be walked to from its 0th entry (include_core/omragent.h:185). The library's own categories
  are two or three roots, which nothing links, so this holds only of registered tables that lose no category, or of a
  buffer that ends before the second root (`WalkedFromTheFirstWhen`).
- A report that does not fit returns OMR_ERROR_OUT_OF_NATIVE_MEMORY, where include_core/omragent.h:192 documents
  OMR_ERROR_OUT_OF_MEMORY. The code is followed.
- attachThread sets the thread-local slot even when it refuses the thread (omr/OMR_VM.cpp:101-105).

## Model

| member | source | states |
|---|---|---|
| MachineIntegers.Int64RoundTrip | omr/OMR_TI.cpp:661-670 | an unsigned 64-bit value survives being kept in an `int64_t` field |
| CategoryTables.SetCategories | port/common/omrportcontrol.c:189-265 | the tables hold the last entry registered under each code except 0x7FFFFFFF, and the library's own entries; refused if registered already or out of memory; valid if category 0 is among them |
| CategoryTables.LookUps | port/common/omrmemcategories.c:146-182 | a look-up finds the registered entry, one of the library's own, or the one that stands for all unknown codes; it carries the code asked for if and only if that is known or OMRMEM_CATEGORY_UNKNOWN |
| CategoryTables.RootsOfTheWalk | port/common/omrmemcategories.c:230-255 | the walk starts from category 0 alone or, without registration, from the library's two categories and on 64-bit builds the unused 32-bit regions, which are a child of the first too: 4 visits, or 2 |
| CategoryTables.WalksEndIffAcyclic | port/common/omrmemcategories.c:184-207 | the walk comes to an end if and only if no code on its way leads back to itself |
| CategoryTables.WalksAreWalkable | port/common/omrmemcategories.c:146-182 | no walk visits a code outside `uint32_t` or the code 0x7FFFFFFF, which is never stored and falls back |
| CategoryTables.RepeatIsFallback | port/common/omrmemcategories.c:146-182 | a code met again below itself is that of the registered UNKNOWN, met again through an unknown code |
| CategoryTables.ParentsAreTrueUnlessConfused | omr/OMR_TI.cpp:588-604 | for every walk that ends, all recorded parents are the true ones if and only if no direct child of a visited, registered UNKNOWN is visited at or after a fallback below that UNKNOWN |
| CategoryTables.OwnParentsComeFromUnknown | omr/OMR_TI.cpp:588-604 | a slot is recorded as its own parent if and only if the walk visits a registered UNKNOWN with an unknown code as direct child |
| CategoryTables.UnknownBelowUnknownIsConfused | port/common/omrmemcategories.c:146-182 | tables that meet both conditions |
| CategoryTables.UnknownIsItsOwnParent | omr/OMR_TI.cpp:588-604 | their third slot is its own parent, where slot 1 is the true one |
| CategoryForest.ParentsComeFirst | omr/OMR_TI.cpp:602-603 | depth first: every parent's slot precedes its children's |
| CategoryForest.ParentIsFound | omr/OMR_TI.cpp:592-604 | where no category's children carry its code too early, looking the parent's code up yields the slot of the true parent, for siblings anywhere in a walk |
| CategoryForest.SomeParentIsWrong | omr/OMR_TI.cpp:592-604 | where they do, some recorded parent is wrong |
| CategoryForest.RecordedParentsAreTrue | omr/OMR_TI.cpp:592-604 | for any forest whatever, repeated codes included: all recorded parents are true if and only if no child has its parent's code and only a last child has it below |
| CategoryForest.OwnParentsMean | omr/OMR_TI.cpp:588-604 | a slot is its own parent if and only if some category has a child with its own code |
| CategoryForest.IndexIsInBounds | omr/OMR_TI.cpp:568-574 | the index of a visited code is inside the mapping if and only if the code is not 0x7FFFFFFF or the mapping exceeds it; no `uint32_t` operation wraps |
| CategoryForest.IndexIsInjective | omr/OMR_TI.cpp:568-574 | two visited codes share an index only if they are equal |
| CategoryReport.MappingAdvances | omr/OMR_TI.cpp:588-589 | recording a visit keeps the mapping pointing every code at its last written slot |
| CategoryReport.Reporter.CountCallback | omr/OMR_TI.cpp:619-626 | the counting walk holds the number of visits so far, as an `int32_t` |
| CategoryReport.Reporter.CalculateSlotsCallback | omr/OMR_TI.cpp:631-649 | the sizing walk holds the largest language and OMR indices so far |
| CategoryReport.Reporter.GetMemoryCategoriesCallback | omr/OMR_TI.cpp:579-614 | the filling walk writes slot n for visit n with its parent slot; it stops, flagging overflow, exactly when the buffer is full and a visit remains |
| CategoryReport.Reporter.WalkChildren | port/common/omrmemcategories.c:184-207 | looking each child code up, the walk calls back for exactly the depth-first visits, and stops as soon as a callback says so |
| CategoryReport.Reporter.WalkOne | port/common/omrmemcategories.c:209-221 | one category and everything below it, under the same rule |
| CategoryReport.Reporter.Walk | port/common/omrmemcategories.c:230-255 | category 0 of registered tables, else the library's own categories in turn, under the same rule |
| CategoryLinks.PointerSurvivesTheCast | omr/OMR_TI.cpp:661-670 | a slot pointer stored in `liveBytesDeep` reads back as itself and is zero only if NULL |
| CategoryLinks.FirstChildStep | omr/OMR_TI.cpp:663-668 | a slot becomes a first child exactly when its parent has had no child yet |
| CategoryLinks.NextSiblingStep | omr/OMR_TI.cpp:663-668 | otherwise it becomes the next sibling of its parent's last child and of nothing else |
| CategoryLinks.AppendToParent | omr/OMR_TI.cpp:658-671 | one turn of the sibling pass, in place, reading the borrowed tail pointer |
| CategoryLinks.FillInChildAndSiblingCategories | omr/OMR_TI.cpp:651-672 | for any parents not after their children, a slot's own included, first-child and next-sibling links are theirs and each `liveBytesDeep` is left as a tail pointer; nothing else changes |
| CategoryCounters.ChainListsTheChildren | omr/OMR_TI.cpp:651-672 | following firstChild and then nextSibling lists exactly the slots whose parent is the given one, once each, in walk order, and ends |
| CategoryCounters.FillInCategoryDeepCounters | omr/OMR_TI.cpp:674-696 | from a slot that is not its own parent, the recursion leaves every slot of the subtree with its final deep counters, adds the totals to the parent, and changes nothing else |
| CategorySums.DeepIsSubtreeSum | omr/OMR_TI.cpp:674-696 | a deep counter is the wrapped sum of the shallow counters at and below its slot |
| CategorySums.RootsHoldTheReached | omr/OMR_TI.cpp:785-795 | the roots' deep counters sum to the shallow counters of all slots that lead up to a root |
| CategorySums.OwnParentsAreLost | omr/OMR_TI.cpp:785-795 | every slot leads up to a root if and only if none is its own parent |
| CategorySums.RootsHoldEverything | omr/OMR_TI.cpp:785-795 | in a forest the roots' deep counters sum to all shallow counters |
| CategoryReport.FillInAllDeepCounters | omr/OMR_TI.cpp:788-795 | starting at every root finalises exactly the slots that lead up to a root |
| CategoryReport.LinkAndSum | omr/OMR_TI.cpp:784-795 | both passes turn what any walk wrote into a report by the recorded parents, although `liveBytesDeep` held tail pointers in between |
| CategoryReport.CalculateMappingSize | omr/OMR_TI.cpp:753-762 | the mapping gets one slot more than each largest index |
| CategoryReport.Fill | omr/OMR_TI.cpp:764-783 | as many categories are written as fit, overflow is flagged exactly when some are left, the rest of the buffer is cleared |
| CategoryReport.GetMemoryCategories | omr/OMR_TI.cpp:698-826 | return code, written count, total and the whole buffer, for all tables whose walk ends, every `max_categories` and every combination of NULL arguments |
| CategoryReport.ReportedSumsAreSubtreeSums | omr/OMR_TI.cpp:674-696 | for all tables and truncations, where the recorded parents lead up to a root, deep bytes and allocations are the sums over the written categories at and below |
| CategoryReport.ReportedRootsHoldTheReached | omr/OMR_TI.cpp:788-795 | for all tables and truncations, the roots account exactly once for every written category that leads up to a root |
| CategoryReport.ReportedRootsHoldEverything | omr/OMR_TI.cpp:788-795 | if no direct child of the registered UNKNOWN is an unknown code, that is every written category |
| CategoryReport.CategoriesAreLeftBehind | omr/OMR_TI.cpp:788-795 | a complete report leaves a category unreached if and only if one is |
| CategoryReport.ReportedParentsAreTrue | omr/OMR_TI.cpp:592-604 | a complete report shows the true parents if and only if the tables are not confused |
| CategoryForest.RecordedParentIsTrue | omr/OMR_TI.cpp:592-604 | slot by slot: the recorded parent is true if and only if the category is a root or its parent's code has not come back since the parent |
| CategoryReport.ReportedParentIsTrue | omr/OMR_TI.cpp:592-604 | the same of every report, however truncated |
| CategoryReport.UnconfusedReportsAreTrue | omr/OMR_TI.cpp:592-604 | of tables that are not confused every truncated report does too, and everything in it leads up to a root |
| CategoryReport.WalkedFromTheFirstWhen | include_core/omragent.h:185-185 | every entry lies at or below the 0th if and only if, of registered tables, none is its own parent (in a complete report: no category is lost), and of the library's own, the buffer ends before the second root |
| CategoryReport.UnknownIsLeftBehind | omr/OMR_TI.cpp:784-795 | an input whose report keeps an address as a deep counter and counts the category's bytes nowhere |
| CategoryTotals.CompleteReportsHoldTreeTotals | omr/OMR_TI.cpp:698-826 | in a report that fits, of tables that are not confused, slot i names the i-th category of the walk and its deep counters are that category tree's totals |
| CpuLoad.IntervalIsModular | omr/OMR_TI.cpp:242-255 | the interval is the true difference, or off by exactly one turn of the 64-bit clock |
| CpuLoad.SystemLoadIsAFraction | omr/OMR_TI.cpp:349-367 | the system load lies in [0, 1] if and only if no CPU time passed, or the counters' difference fits `int64_t` exactly when the product of CPUs and interval is not negative |
| CpuLoad.SystemLoadCanBeNegative | omr/OMR_TI.cpp:360-364 | an input on which the product overflows |
| CpuLoad.OverflowingCountersGoNegative | omr/OMR_TI.cpp:360-364 | an input on which the difference does |
| CpuLoad.ProcessLoadIsAFraction | omr/OMR_TI.cpp:376-400 | for all records, the process load lies in [0, 1] if and only if system (as `int64_t`) plus user time is unchanged, grew beyond `int64_t`, or changed with the sign of the product of CPUs and interval |
| CpuLoad.ProcessLoadCanBeNegative | omr/OMR_TI.cpp:386-398 | an input on which system time falls |
| CpuLoad.LoadsMeasure | omr/OMR_TI.cpp:359-365 | the load times CPUs times interval is the CPU time used, or the load is 1, wherever these fit `int64_t` |
| CpuLoad.ErrorsMean | omr/OMR_TI.cpp:353-358 | the four verdicts on a pair of records: negative, below 1 ms, a counter gone down, or usable |
| CpuLoad.StepAnswers | omr/OMR_TI.cpp:403-477 | a load comes exactly with success and measures the interval since the interim record if usable, else the oldest; the first call asks for a retry; a failed measurement is recorded by its cause |
| CpuLoad.ClockSetBackIsIgnored | omr/OMR_TI.cpp:459-468 | up to three samples from before both records are only counted |
| CpuLoad.ClockSetBackIsBelieved | omr/OMR_TI.cpp:459-468 | the fourth becomes the oldest record |
| CpuLoad.CounterSetBack | omr/OMR_TI.cpp:440-456 | a counter below the interim record's replaces it; below both it replaces both and costs one call |
| CpuLoad.TooSoonAfterBoth | omr/OMR_TI.cpp:457-458 | a call too soon after both records asks for another and changes no record |
| CpuLoad.Sampler.GetCpuLoad | omr/OMR_TI.cpp:403-477 | every argument and availability check in order, none touching the sampler; then one step of it: records, status, counter, return code and stored load |
| CpuLoad.Sampler.Compute | omr/OMR_TI.cpp:433-470 | the two attempts, against the interim and then the oldest record |
| CpuLoad.BudgetCoversStep | omr/OMR_TI.cpp:433-470 | every sane sample lowers the number of failures still possible by at least the failure it returns |
| CpuLoad.RecoveryIsBounded | omr/OMR_TI.cpp:349-367 | from any supported state with counter 0 to 3, whatever was saved, a run of sane samples fails at most five times |
| CpuLoad.FiveFailuresHappen | omr/OMR_TI.cpp:446-468 | five is reached |
| CpuLoad.OnlyTheFirstCallRetries | omr/OMR_TI.cpp:426-431 | from a new sampler, a sane run asks for exactly one retry, on its first call |
| CpuLoad.WindowOfTwo | omr/OMR_TI.cpp:435-439 | over sane samples each load measures exactly the latest interval, and the two saved records are the latest two |
| CpuLoad.EarlyCallUsesTheOldest | omr/OMR_TI.cpp:445-448 | a call too soon after the last is answered over the longer interval and keeps both records |
| CpuLoad.EveryRunStaysValid | omr/OMR_TI.cpp:418-471 | in every run the counter stays within its maximum; the status records a port failure if and only if some measurement failed or one was recorded already, and then nothing changes any more |
| MethodTable.PackedTextIsRead | omr/OMR_MethodDictionary.cpp:285-298 | a string packed among others reads back as itself from its offset |
| MethodTable.RetryCountsWhatIsOwed | omr/OMR_MethodDictionary.cpp:222-254 | at RETRY, nameBytesRemaining is what the keys from firstRetryMethod on need, repeats included |
| MethodTable.EnoughIsEnough | omr/OMR_MethodDictionary.cpp:211-254 | with that much room nothing is refused and exactly the requested keys leave the table |
| MethodTable.SecondCallCompletes | omr/OMR_MethodDictionary.cpp:211-265 | a second call on the rest of the array with that many bytes succeeds and delivers every entry left behind at its first occurrence |
| MethodTable.RetryIffTooMuchIsNeeded | omr/OMR_MethodDictionary.cpp:211-257 | RETRY is answered if and only if the different methods asked for need more than the buffer, and firstRetryMethod is the first with which they do |
| MethodTable.DeliveredIffFits | omr/OMR_MethodDictionary.cpp:216-254 | a position is delivered if and only if it is its method's first and all methods up to it fit; it finds nothing if and only if the method was never there or was delivered before |
| MethodTable.OnlyDeliveredKeysLeave | omr/OMR_MethodDictionary.cpp:211-257 | a key leaves the table if and only if it was delivered; every other entry is unchanged |
| MethodTable.NothingFollowsTheFirstRetry | omr/OMR_MethodDictionary.cpp:222-254 | the positions delivered are exactly those before the first retry whose key is still in the table when reached |
| MethodTable.AsManyAsFit | include_core/omragent.h:246-250 | as many descriptions leave as a scan that passes over misfits would deliver, if and only if none left behind after the first misfit fits what is left |
| MethodTable.AFittingDescriptionStaysBehind | omr/OMR_MethodDictionary.cpp:222-254 | an input on which one does |
| MethodTable.InsertSlack | omr/OMR_MethodDictionary.cpp:147-175 | only re-inserting a present key raises the overcount, by what the old entry had been charged |
| MethodTable.FetchKeepsSlack | omr/OMR_MethodDictionary.cpp:226-246 | retrieval subtracts exactly the true size of what it removes |
| MethodTable.LedgerOfEveryRun | omr/OMR_MethodDictionary.cpp:147-246 | in every run, `_currentBytes` is the true size plus the overcharges of re-insertions, and `_maxBytes` the largest value it has had |
| MethodTable.EntriesOfEveryRun | omr/OMR_MethodDictionary.cpp:171-174 | `_maxEntries` is the size of the table when the byte count last rose above all before |
| MethodDictionary.Dictionary.EntryValueEquals | omr/OMR_MethodDictionary.cpp:374-387 | compares all property pointers |
| MethodDictionary.Dictionary.CleanupEntryStrings | omr/OMR_MethodDictionary.cpp:328-339 | clears every string slot of one entry and of no other |
| MethodDictionary.Dictionary.DupEntryStrings | omr/OMR_MethodDictionary.cpp:341-366 | fresh copies of the non-null strings, null slots untouched |
| MethodDictionary.Dictionary.StoreEntry | omr/OMR_MethodDictionary.cpp:147-166 | the entry holds the new strings; it counts as reused unless the key is new or both entries are all null |
| MethodDictionary.Dictionary.Insert | omr/OMR_MethodDictionary.cpp:140-188 | return codes, the table and the byte counts after an insertion, replacing or not |
| MethodDictionary.Dictionary.CountEntryNameBytesNeeded | omr/OMR_MethodDictionary.cpp:273-283 | the room the entry's strings take with their terminators |
| MethodDictionary.Dictionary.CopyEntryNameBytes | omr/OMR_MethodDictionary.cpp:285-298 | strings contiguous from the start position, offsets to match, the rest of the buffer untouched |
| MethodDictionary.DescriptionsDecode | omr/OMR_MethodDictionary.cpp:226-232 | every pointer of a retrieved description decodes to the string inserted for that key and property, null only for null |
| MethodDictionary.RegionsAreApart | omr/OMR_MethodDictionary.cpp:226-232 | the regions of any two delivered keys lie apart inside the name buffer, in array order, the second right after the first if nothing was delivered in between |
| MethodDictionary.Dictionary.FetchKey | omr/OMR_MethodDictionary.cpp:211-257 | one turn of the loop, in all four cases, without underflow of the byte count |
| MethodDictionary.Dictionary.GetEntries | omr/OMR_MethodDictionary.cpp:191-270 | return code, both output counts, the table left behind, every description and the whole name buffer; each reason code from the table alone: NONE, NOT_AVAILABLE or RETRY as the position is delivered, finds nothing, or is left behind |
| CasLoops.StepLinearizes | include_core/AtomicSupport.hpp:473-485 | every step is an atomic operation, a failed compare-and-swap included, or leaves cell and log alone |
| CasLoops.EveryRunLinearizes | include_core/AtomicSupport.hpp:340-438 | in every interleaving the cell and all results are those of an atomic execution in log order, each call took effect as one entry inside its own interval, and each entry is that of a call returned or about to return |
| CasLoops.RunsFromStartLinearize | include_core/AtomicSupport.hpp:390-501 | the same from an idle start, for any number of threads, with whole loads or, for a 64-bit cell on a 32-bit build, loads in two halves; the cell stays in its word |
| CasLoops.EntriesPerform | include_core/AtomicSupport.hpp:473-485 | each entry does to the word and answers what its operation is to: sums modulo the word size with the new value returned, AND, OR and store with the old, bit by bit |
| CasLoops.CallsPerform | include_core/AtomicSupport.hpp:473-485 | and so does each call, at a point inside its interval |
| CasLoops.WordSizes | include_core/AtomicSupport.hpp:340-438 | words of 32 and 64 bits |
| CasLoops.ClaimsAreSingle | include_core/AtomicSupport.hpp:473-485 | no entry belongs to two calls, returned or about to return |
| CasLoops.RealTimeOrderIsKept | include_core/AtomicSupport.hpp:473-485 | calls have log entries of their own, and one that returned before another began took effect before it |
| CasLoops.CounterIsExact | include_core/AtomicSupport.hpp:473-485 | in every run of adds and subtracts the cell is the initial value plus the signed total of the calls returned and about to return, modulo the word size; there are as many log entries as such calls; with all threads idle, exactly the calls made |
| CasLoops.TornReadIsHarmless | include_core/AtomicSupport.hpp:788-799 | getU64 through two half loads returns a value the cell held at that point and does not change it |
| CasLoops.JoiningHalves | include_core/AtomicSupport.hpp:618-630 | a word loaded in halves is the cell's if and only if the half loaded first is still the cell's |
| CasLoops.FailuresAreAmortised | include_core/AtomicSupport.hpp:473-485 | failed attempts of the loops plus outdated loads, halves included, never exceed N - 1 times the successes |
| CasLoops.CallsKeepCompleting | include_core/AtomicSupport.hpp:473-485 | with only c calls completed N threads cannot take more than (2N + 3) c + 2N(N + 1) steps with whole loads, or (3N + 2) c + N(3N + 1) with halves |
| CasLoops.BitOpsStayInWord | include_core/AtomicSupport.hpp:497-509 | AND and OR of words are words |
| SignalChain.RegistrationIsCoherent | omrsigcompat/omrsig.cpp:425-456 | after an accepted registration the disposition is the primary function plus the secondary's whitelisted flags, else the secondary; never a one-shot primary |
| SignalChain.SignalTable.SigactionInternal | omrsigcompat/omrsig.cpp:381-460 | return code, old action, both slots and the disposition, for every answer of the system; other signals and the mask unchanged |
| SignalChain.SignalTable.Store | omrsigcompat/omrsig.cpp:425-456 | slot and disposition after storing an action |
| SignalChain.SignalTable.OmrsigHandler | omrsigcompat/omrsig.cpp:111-195 | return code, whether and under which mask the handler runs, the slot afterwards, for any registrations the handler makes for its signal, accepted or refused; the thread's mask is restored whenever SIGNAL_HANDLED is returned |
| SignalChain.SignalTable.RunSecondary | omrsigcompat/omrsig.cpp:160-185 | a one-shot action is reset before its handler runs, whose registrations then stay |
| SignalChain.SignalTable.PrimarySignal | omrsigcompat/omrsig.cpp:197-218 | signal() emulation for the primary user |
| SignalChain.SignalTable.SignalInternal | omrsigcompat/omrsig.cpp:254-288 | signal() emulation for the secondary user |
| SignalChain.HandlerMaskIsPosix | omrsigcompat/omrsig.cpp:129-149 | the handler's mask is the POSIX one unless SA_NODEFER meets a signal already blocked or in sa_mask |
| SignalChain.ReRegistrationStays | omrsigcompat/omrsig.cpp:168-185 | the last secondary action a handler registers while it runs stays in the slot, in force if the last registration was accepted; only without one does the reset stand |
| SignalChain.OneShotLeavesTheDefault | omrsigcompat/omrsig.cpp:168-185 | a one-shot handler that registers nothing leaves SIG_DFL without SA_SIGINFO, other flags and the mask kept |
| SignalChain.SignalTable.DeliverTwice | omrsigcompat/omrsig.cpp:111-195 | after it has run, the next delivery answers that the default action is required |
| SignalChain.SecondaryTransparency | omrsigcompat/omrsig.cpp:381-460 | in any run in which no one-shot action is used up, refusals by either user included: the secondary user is told the truth if and only if its last accepted action is the one put into force by the last accepted registration, where the system answers for itself, else the last it registered at all; and which handler an arriving signal runs |
| SignalChain.TransparentUnlessRevived | omrsigcompat/omrsig.cpp:381-460 | in any run, deliveries and one-shot actions included, as long as nothing has been refused since its start or the secondary's last accepted registration: told the truth, and signals handled as due, if and only if no spent one-shot action has been revived |
| SignalChain.PlainOneShotLeavesTheDefault | omrsigcompat/omrsig.cpp:168-172 | the same of the plain table |
| SignalChain.ChainedOneShotLeavesTheDefault | omrsigcompat/omrsig.cpp:160-185 | of the slot, when the primary chains, where the reset puts into force what the slots then hold |
| SignalChain.SystemOneShotLeavesTheDefault | omrsigcompat/omrsig.cpp:168-172 | and of the disposition, when the system itself runs the handler |
| SignalChain.WhatThePrimaryIsTold | omrsigcompat/omrsig.cpp:400-423 | the primary user is told its own last registration, never as one-shot, except where the system answers for itself |
| SignalChain.HistoriesAgree | omrsigcompat/omrsig.cpp:381-460 | if nothing is refused, until a spent action is revived everything told and every handler run agree with the plain table |
| SignalChain.RegistrationsAloneAreTransparent | omrsigcompat/omrsig.cpp:381-460 | every interleaving of accepted primary and secondary registrations and queries is transparent to the secondary user |
| SignalChain.SpentActionsCanRevive | omrsigcompat/omrsig.cpp:438-446 | a run in which the secondary user is told of a spent action and its handler runs twice |
| SignalChain.OneShotsRunOnce | omrsigcompat/omrsig.cpp:168-172 | if nothing is refused and no spent action revived, each one-shot action runs at most as often as it was registered |
| SignalChain.ChainedOneShotsRunOnce | omrsigcompat/omrsig.cpp:111-195 | when all deliveries go through omrsig_handler one after another, each one-shot action runs at most as often as it was registered, refusals counted, and once less while it waits |
| SignalOverlap.NoDeliveryIsLost | omrsigcompat/omrsig.cpp:111-195 | in every interleaving of copies, entries and registrations, every copy is entered once or pending, and an entered one-shot action has left the slot for good |
| SignalOverlap.OnceUnlessOverlapping | omrsigcompat/omrsig.cpp:111-195 | once its deliveries have entered, a one-shot registration has run at most once if and only if no delivery copied it between another's copy and reset |
| SignalOverlap.StaysInTheSlot | omrsigcompat/omrsig.cpp:168-172 | in every interleaving, a registration is still in the slot if and only if no other followed and no delivery has entered a one-shot copy, its own or a stale one |
| SignalOverlap.OverlapsRunTwice | omrsigcompat/omrsig.cpp:111-195 | a run in which a handler runs twice and a re-registration is thrown out |
| SignalChain.RefusedRegistrationsStick | omrsigcompat/omrsig.cpp:425-456 | after a refused registration the secondary user is told the same as before if and only if it repeated the stored action or the system answers for itself |
| SignalChain.RefusalInARun | omrsigcompat/omrsig.cpp:425-456 | what the secondary user is told after a refusal, spent and revived actions included: the truth in exactly three cases |
| SignalChain.AcceptedRegistrationsMend | omrsigcompat/omrsig.cpp:425-456 | after an accepted secondary registration, in any run at all, that action is told and handled |
| ThreadList.LinksAreInverse | include_core/omrlinkedlist.h:54-76 | next and previous are inverse and stay inside the list |
| ThreadList.AddLast | include_core/omrlinkedlist.h:54-63 | the element joins the circle at its end |
| ThreadList.Remove | include_core/omrlinkedlist.h:65-76 | the circle without the element, its order kept, the root moved on if need be |
| ThreadList.CountWithout | omr/OMR_VM.cpp:117-122 | the count of a kind without one member |
| ThreadList.VM.CountersCoverTheList | omr/OMR_VM.cpp:86-129 | the two counters together count the list |
| ThreadList.VM.AttachThread | omr/OMR_VM.cpp:86-109 | refused exactly when a language thread meets a non-zero maximum; the list, both counters, the maximum and thread-local storage |
| ThreadList.VM.DetachThread | omr/OMR_VM.cpp:111-129 | the list without the thread, both counters, thread-local storage |
| ThreadList.VM.PostForkChild | omr/OMR_VM.cpp:195-228 | every thread but the current one is freed exactly once and not read afterwards; a circle of one with matching counts remains |
| ThreadBinding.Thread.FirstInit | omr/startup/omrvmstartup.cpp:195-237 | a record with count one, or none at all |
| ThreadBinding.Thread.LastFree | omr/startup/omrvmstartup.cpp:278-317 | the record goes unless the trace engine refuses |
| ThreadBinding.Thread.BindCurrentThread | glue/LanguageVMGlue.c:26-71 | native count, record and return code for every combination of failing steps |
| ThreadBinding.Thread.UnbindCurrentThread | glue/LanguageVMGlue.c:73-102 | the same for unbinding |
| ThreadBinding.BindAnswers | glue/LanguageVMGlue.c:26-71 | a bind succeeds if and only if the thread is bound or every step works; otherwise it changes nothing unless its cleanup fails |
| ThreadBinding.UnbindAnswers | glue/LanguageVMGlue.c:73-102 | the same for an unbind |
| ThreadBinding.UnbindUndoesBind | glue/LanguageVMGlue.c:26-102 | an unbind undoes the bind before it, nested or not |
| ThreadBinding.EveryRunIsAccounted | glue/LanguageVMGlue.c:26-102 | exact accounts of native count and `_attachCount` over every run, whichever steps fail |
| ThreadBinding.BoundExactlyWhileAttached | glue/LanguageVMGlue.c:26-102 | the thread is natively attached once more exactly while bound if and only if no cleanup step has failed; then `_attachCount` is binds minus unbinds |
| TaggedTree.ChildRoundTrip | include_core/omravldefines.h:40-49 | a stored child reads back exactly when it is not the field's own address; the balance bits never change |
| TaggedTree.BalanceRoundTrip | include_core/omravldefines.h:37-38 | setting the balance keeps the child |
| TaggedTree.NullRoundTrip | include_core/omravldefines.h:43-43 | clearing the child keeps the balance |
| TaggedTree.Relocation | include_core/omravldefines.h:33-49 | a tree of any size, copied as a block by any aligned displacement, decodes to the same shape and balances |
| TaggedTree.WriteElsewhere | include_core/omravldefines.h:40-49 | a write to any other word does not concern a tree |
| TaggedTree.TreeMemory.SetLeftChild | include_core/omravldefines.h:40-40 | the left subtree is replaced, balance and right subtree kept |
| TaggedTree.TreeMemory.SetRightChild | include_core/omravldefines.h:40-40 | the right subtree is replaced, balance and left subtree kept |
| TaggedTree.TreeMemory.StoreBalance | include_core/omravldefines.h:38-38 | the balance is replaced, both subtrees kept |

## Left out

- CategoryReport.GetMemoryCategories: does not model counters that other threads change during the walks; a category's counters are the values read when it is visited. Tables whose walk never ends are excluded (`WalksEndIffAcyclic`), and registered ones without a category 0, which the walk takes for granted.
- CategoryTables.SetCategories: keeps both registered arrays as one table, and leaves out resetting to no categories, which restores the state before.
- MethodDictionary.Dictionary.Insert: does not model a string allocation that fails half-way, after which the entry may keep the caller's own pointers and is not in the byte ledger; nor a caller that passes the strings already stored under the same key, which are freed before they are copied.
- MethodDictionary.Dictionary.GetEntries: does not model a hash-table removal that fails on an entry just found, which a map cannot do.
- MethodTable.LedgerOfEveryRun: does not model `size_t` wrap-around of `_currentBytes`, which needs 2^64 bytes of overcharges.
- MethodDictionary.Dictionary.CleanupEntryStrings: does not track freed string memory; strings are shared values of a garbage-collected heap.
- CasLoops.EveryRunLinearizes: does not model addDouble, the same loop with a floating-point addition, nor memory barriers; loads, compare-and-swaps and returns are sequentially consistent steps.
- SignalChain.SecondaryTransparency: takes each delivery as one step, after which come the registrations its handler made, and one-shot resets as accepted. It leaves out runs in which a one-shot action is used up after a refusal that no accepted registration has mended since; `TransparentUnlessRevived` covers those without such a refusal. AIX, z/OS, z/TPF and Windows builds are not modelled, nor the terminating effect of a default action.
- SignalChain.SignalTable.OmrsigHandler: leaves out registrations its handler makes for other signals, which are calls of their own, and copies its slot and resets it without a delivery in between; `SignalOverlap` takes these steps apart.
- SignalOverlap.OnceUnlessOverlapping: takes all registrations and resets as accepted.
- SignalChain.SignalTable.Lock: is an atomic section; the spin loop of SigMutex is not modelled.
- ThreadList.VM.PostForkChild: leaves out trace, agent, name and mutator cleanup; the current thread is assumed to be in the list, as the source asserts.
- ThreadBinding.Thread.FirstInit: leaves out names and the list itself; internal threads are never refused there.
- The CPU-load samplers leave out rounding of doubles.
- sigset, sigignore, bsd_signal and __sigactionset: the first two return or store without keeping the invariants above, the others add only easy members or other platforms.
- omr_attach_vmthread_to_vm, omr_detach_vmthread_from_vm, OMR_Runtime, OMR_Agent and OMR_TIMemorySize: thin layers over what is modelled.
- The AVL, hash-table and pool algorithms, the port library, tracing, CUDA, the compiler and the collectors.
