# pfuzzer: a verified model

pfuzzer is a libFuzzer fork that runs several external fuzzers over one shared corpus. This project models the
logic of the fork that does not depend on files, processes or clocks, and proves what it is meant to do:

- **Merging** (`CrashResistantMerge`, `ReusedCoverage`, `Merger`, `ControlFile`, `ControlLines`, `Selection`, `SetCoverBound`, `Text`). The merge runs
  in inner processes that may crash on any input; they leave an append-only control file, and the outer process
  restarts them. The main theorem is that the restarts, the crashes and the split records do not show in the result.
- **Corpora** (`GlobalCorpus`, `CorpusModel`, `CorpusRuns`, `InputCorpus`, `InputModel`,
  `RunOutcome`, `Ownership`, `Frequencies`, `RareFeatures`, `Random`).
  A slot table records the smallest input for each feature; inputs are evicted when they have lost all their slots.
  Both corpora share the ownership argument in `Ownership`; the entropic frequencies add a conservation law.
- **Scheduling** (`Scheduler`). Queues, workers, merge and creator threads as interleaved atomic steps.
- **Hashing** (`Sha1`, `Sha1Spec`). The in-place SHA-1 against FIPS 180-4.
- **Coverage** (`Regions`, `CounterScan`, `ValueBitMap`, `Features`, `FunctionCoverage`, `TracePC`). From counters in
  memory to feature numbers, and the per-function cache. `CoverageTarget` puts the feature collection behind the corpus.
- **Coverage texts** (`DataFlow`, `CoverageText`, `BlockCoverage`). The printer of the data-flow tracer and its parser.
- **Mutators** (`Mutators`, `MutationModel`). Splicing and rewriting bytes in place.

Code that updates objects, arrays or streams in place is modelled by classes and methods with loops. Each is proved
equal to a specification function on values, and the theorems are about that function or about runs of it.
`dafny verify dfyconfig.toml` checks everything.

## How to read it

- Raw outputs of the random engine are arbitrary (`raw: nat -> nat`, `draws`), so theorems hold for all choices.
- The target is an arbitrary function from an input to a crash or its features and PCs.
- `std::sort` with a comparator is any ordered permutation; the scores that order seeds are arbitrary reals.
- Fixed-width arithmetic is written out where it can matter: 32-bit update, byte and block counters, 16-bit
  frequencies, 64-bit digits and addresses, features cut to 32 bits. Sizes and indices are otherwise unbounded.
- `requires` clauses of methods are the source's own assertions and what indexing needs; all calls of one batch use one
  positive size.
- Some properties hold only under a condition, and then the condition is proved necessary as well: the wrap-around of
  the update counter (`CorpusModel.MergeInputInv`, reached in `CorpusRuns.CounterWraps`), the fake seed (`InputModel.FakeSeedIsMiscounted`), the stale
  function cache (`FunctionCoverage.ExactIff`, reached in `FunctionCoverage.StaleRun`), the page at the end of memory (`Regions.RegionsTile`), the size of a
  control file (`ControlFile.ParseWritten`), the length of a message (`Sha1Impl.CountedLength`), the number of seeds drawn
  from (`Random.CanBeDrawnIff`), the bits and the bound of rare features (`RareFeatures.AgreesIff`,
  `RareFeatures.BoundIsGreatestIff`), the reuse of known coverage (`ReusedCoverage.FeaturesAgreeIff`, `ReusedCoverage.PcsAgreeIff`).
- Code over comments: `InsertPartOf` takes its part from `From[0, FromSize)`, not `From[0, ToSize)` as its comment says;
  the crossing limit is a drawn value, not the size passed in. A merge is to add only inputs with new coverage, but one
  that reuses known coverage counts old files among the known ones as new.
- `RunOne` reports each feature once because `CollectFeatures` emits strictly increasing numbers
  (`Features.ReportedIncrease`), which is what the exactness of its match count rests on; `CoverageTarget` joins the two.

## Model

| member | source | states |
|---|---|---|
| CrashResistantMerge.Merge | FuzzerMerge.cpp:431-533 | The whole crash-resistant merge. For every target, every choice of crashing files and every unfinished control file left behind by earlier inner processes, the outer process succeeds and reports exactly what a single uninterrupted process would: the features and PCs of all non-crashing new files minus those known initially or shown by old ones, and for each such feature a kept file that shows it (a smallest one, given the size-sorted listing of the driver). The kept files are distinct new files, each for a new feature (in a set cover, a new slot) of its own; a set cover reports exactly the PCs that its kept files are first to show, and over whole records keeps at most k H(n) files if k new files show the n missing slots. More than ten million files make it fail, a complete control file leaves nothing to do, and neither do two empty corpora. When a finished control file of another number of files is given, the result is that of the files not known yet followed by all known ones, which all count as new; it fails if nothing is left to run. A plain merge from a fresh control file that no file crashes keeps exactly the new files that show a feature neither known nor shown by a file listed before |
| CrashResistantMerge.MergeLog | FuzzerMerge.cpp:516-533 | Reading a complete log back and merging it, behind it the files known before, meets the specification of either selection algorithm; without known files that is the one-shot specification |
| CrashResistantMerge.MergeIsOneShot | FuzzerMerge.cpp:139-194 | From complete logs, smallest-first selection yields the one-shot features and PCs, a kept file for each feature, and distinct new files each with a feature of its own, although each inner process wrote only what was new to that process; from two logs, the same but for the PCs, of which old files take nothing from those in the second log |
| CrashResistantMerge.CoverIsOneShot | FuzzerMerge.cpp:289-391 | From complete logs, set cover keeps distinct new files, each for a slot of its own, that show every feature slot any file shows, and reports the PCs they are first to show in their log |
| CrashResistantMerge.CoverIsNearlyMinimal | FuzzerMerge.cpp:323-389 | When the records tell all that the files do, as those of a set-cover merge do, the k H(n) bound holds of the files on disk: if no new file has two features in one slot, against every choice of new files that shows the missing slots |
| CrashResistantMerge.KeptOnDisk | FuzzerMerge.cpp:174-193 | No file is kept in vain: kept files are distinct files of the new corpus, each shows a new feature of its own, so there are no more of them than new features |
| CrashResistantMerge.PicksOnDisk | FuzzerMerge.cpp:365-388 | The picks of a set cover are distinct new files, each shows a slot of its own, and their coverage is what they are the first of all files to show |
| CrashResistantMerge.FeatureIsKept | FuzzerMerge.cpp:150-193 | A feature new to the merge is shown by some kept file; a smallest such file if new files are listed smallest first |
| CrashResistantMerge.RecordsTellAll | FuzzerMerge.cpp:204-271 | The union of all records of a faithful log is the union of what all finished files show, restarts notwithstanding |
| CrashResistantMerge.CompleteLog | FuzzerMerge.cpp:204-271 | A faithful log with a record for every file, read back, tells what the files do: each file's recorded features are its own, each feature it shows is told by it or by an earlier file, and its coverage is what no earlier file showed |
| CrashResistantMerge.CorporaTell | FuzzerMerge.cpp:139-148 | What the parsed files have together is what the files on disk show, for the first corpus and for all |
| CrashResistantMerge.CandidatesCov | FuzzerMerge.cpp:80-119 | The candidates' parsed coverage is what they show less what old files of the same log show |
| CrashResistantMerge.TwoLogs | FuzzerMerge.cpp:528 | Appending the files of a second complete log tells of both lists; each feature is still told within its own log |
| CrashResistantMerge.CompletedIsTruthful | FuzzerMerge.cpp:227-268 | The record an inner process writes is its file's features and PCs less what this process has already written; together with earlier records that loses nothing |
| CrashResistantMerge.RunFile | FuzzerMerge.cpp:214-269 | One file: STARTED is written before the target runs; a crash leaves exactly that and ends the process, otherwise FT and COV follow, with exactly the features and PCs that this process has not written yet (in a set cover all features), each once and ascending, and the process remembers them |
| CrashResistantMerge.InternalStep | FuzzerMerge.cpp:204-271 | An inner process extends a faithful control file to a faithful one; it exits with zero iff no file from the restart point on crashes, and has then recorded them all; a failing one has recorded those up to the first that crashes and started that one; each record it writes has the features and PCs of its file less those of the files before it in the same process |
| CrashResistantMerge.RunAttempts | FuzzerMerge.cpp:498-515 | As many attempts as there are unprocessed files always process every file; each record written is that of a process started at the first file or after the last crash before it |
| CrashResistantMerge.AttemptWritten | FuzzerMerge.cpp:214-269 | One more process, started where the last one crashed, leaves records that say what their process had not seen |
| CrashResistantMerge.UninterruptedKeeps | FuzzerMerge.cpp:174-193 | When each feature was recorded once, the kept files are exactly the new files that show something new in their turn, each once, whatever their order |
| CrashResistantMerge.WriteNewControlFile | FuzzerMerge.cpp:394-428 | Writes the header of the files of both corpora that are not known yet, old ones first, and counts each of them as an attempt |
| CrashResistantMerge.InspectControl | FuzzerMerge.cpp:441-489 | What the outer process makes of the control file it is given, in each case: empty or unusable, overrunning, to be continued with one attempt per file not started, complete for the files there are, or complete for others and to be reused |
| CrashResistantMerge.ParsedControl | FuzzerMerge.cpp:446-480 | A control file left by an unfinished merge parses to its number of files and its number of STARTED lines |
| CrashResistantMerge.ParsedIsSorted | FuzzerMerge.cpp:104-110 | Whatever text is parsed, each file's features come out sorted |
| CrashResistantMerge.Attempts | FuzzerMerge.cpp:495-533 | From a control file of any prefix of a log, running enough attempts and merging gives the specified result, or fails when there is no file or too many |
| CrashResistantMerge.KnownFiles | FuzzerMerge.cpp:446-474 | The known files taken from a finished control file tell what those files do |
| ReusedCoverage.FeaturesAgreeIff | FuzzerMerge.cpp:463-474 | Reused coverage gives the new features of a merge from scratch, for every target, if and only if every known file is in the new corpus and none is in the old one |
| ReusedCoverage.PcsAgreeIff | FuzzerMerge.cpp:463-474 | And the new PCs, if and only if nothing is known, or there is no old corpus and every known file is in the new one |
| ReusedCoverage.FeaturesDiffer | FuzzerMerge.cpp:527-528 | The failing input: a known file that a merge from scratch does not count as new, on a target where it alone shows a feature |
| ReusedCoverage.PcsDiffer | FuzzerMerge.cpp:527-528 | Likewise for PCs: a known file and an old one show the same PC |
| ReusedCoverage.GrownCorpus | FuzzerMerge.h:8-12 | Files added to a single corpus: reuse reports the features and PCs of a merge from scratch, keeps files of that corpus only and, for each new feature, one that shows it |
| Mergers.Merger.Parse | FuzzerMerge.cpp:52-128 | Accepts, rejects or overruns on every text exactly as the line-by-line specification ParseText, and then holds its files, first-corpus count, restart point and last failure |
| ControlLines.AcceptedIff | FuzzerMerge.cpp:52-128 | Which texts are accepted, told by their lines: both counts in range, a line for each name, and then only lines that start the next file or tell of the one started last; an overrun is the first line that starts a file too many; an accepted text tells its names and counts, the number of STARTED lines, and the last file started without FT |
| ControlLines.LinesTell | FuzzerMerge.cpp:80-119 | The same for the marker lines from any point on |
| ControlFile.ParseWritten | FuzzerMerge.cpp:52-128 | Round trip: a control file parses, to exactly what was written, iff it lists between one and ten million files; the restart point is the number of STARTED lines and the last failure the last file started without FT |
| ControlFile.HeaderThenRest | FuzzerMerge.cpp:52-78 | The printed header is read back: counts and names, whatever marker lines follow |
| ControlFile.LogThenRest | FuzzerMerge.cpp:80-119 | Reading the log of any sequence of records has the effect of those records, whatever follows |
| ControlFile.RecordThenRest | FuzzerMerge.cpp:80-119 | Reading a STARTED line, with or without its FT and COV lines, has the effect of one record |
| ControlFile.NamesKept | FuzzerMerge.cpp:52-128 | No marker line changes a file's name |
| Text.DecimalRoundTrip | FuzzerMerge.cpp:415-419 | Printing a number in decimal and reading the digits gives the number |
| Text.ExtractPrinted | FuzzerMerge.cpp:90-104 | Stream extraction of a printed number that fits its variable yields it and stops right after it |
| Text.ExtractSpaced | FuzzerMerge.cpp:104-112 | An extraction loop over a printed list of numbers yields the list |
| Mergers.Merger.Merge | FuzzerMerge.cpp:139-194 | New features and PCs are those of the new files minus those known; the stored files are the stripped candidates, smaller ones first and of equal ones those with more new features; the kept names are the greedy choice: each is kept for a new feature that no preferred candidate has, and each new feature has a kept candidate to which none is preferred |
| Mergers.GreedyPass | FuzzerMerge.cpp:174-193 | The loop over the sorted candidates computes the greedy choice and collects its features and PCs |
| Selection.GreedyCovers | FuzzerMerge.cpp:174-193 | Kept files show every feature of every candidate that was not known |
| Selection.GreedyAdds | FuzzerMerge.cpp:174-193 | Each kept file shows a feature that neither the known set nor an earlier kept file has |
| Selection.BestIsKept | FuzzerMerge.cpp:150-193 | For any order the comparator allows and any new feature, a candidate with the feature is kept to which no candidate with the feature is preferred: none is smaller, and none of equal size has more new features |
| Selection.LessIsPreferred | FuzzerMerge.cpp:167-172 | The comparator on stripped files prefers smaller files, then those that list more features not known |
| Selection.NewCountIs | FuzzerMerge.cpp:150-161 | For a list without repetitions that is the number of its features that are not known |
| Selection.NoneDominated | FuzzerMerge.cpp:167-187 | No kept file's new features are a proper subset of those of a candidate that is no larger |
| Selection.GreedyKeepsOwn | FuzzerMerge.cpp:174-193 | The kept names are those of distinct candidates, each with a new feature that no other is kept for and no preferred candidate has; together they have all new features |
| Selection.PicksOwnSlots | FuzzerMerge.cpp:323-389 | The picks of a greedy run are distinct, and each covers a slot that no other pick accounts for |
| Selection.GreedySubset | FuzzerMerge.cpp:174-193 | Only candidates are kept |
| Selection.StripKeepsNew | FuzzerMerge.cpp:150-161 | Subtracting the known features from the candidates leaves exactly their new ones |
| Mergers.Merger.SetCoverMerge | FuzzerMerge.cpp:280-391 | Set cover modulo 2^21: the picks are a greedy run that covers every slot of every candidate; as many new features as slots newly covered; within k H(n) of any k candidates that cover the n missing slots, if no file has two features in one slot; each pick adds more uncovered features than any other candidate, or as many and is smaller, or comes first among those |
| Selection.RunHasNoChoice | FuzzerMerge.cpp:326-361 | A greedy run is determined: by the number of uncovered features, then the size, then the place in the list |
| Mergers.CoverAll | FuzzerMerge.cpp:323-389 | The covering loop: the counter is the number of set bits, each round strictly raises it, no assertion fails, the break on zero gain is never taken, and on exit all slots are covered |
| Mergers.FindBest | FuzzerMerge.cpp:326-361 | One scan finds the candidate picked rather than any other, although exhausted files have been dropped, and says exactly which files are exhausted |
| Mergers.CoverFile | FuzzerMerge.cpp:365-376 | Marking the picked file sets exactly its slots and adds one feature for each bit newly set |
| Mergers.MarkExisting | FuzzerMerge.cpp:298-307 | The bit vector starts as the slots of the existing features, and the counter as their number |
| Selection.GreedyIsNearlyMinimal | FuzzerMerge.cpp:323-389 | A greedy run is within the harmonic factor of every choice of candidates that covers what was missing |
| Selection.GreedyRunBound | FuzzerMerge.cpp:323-389 | If k candidates have all n missing slots, and no candidate has two features in one slot, then a greedy run makes at most k H(n) picks |
| Selection.UncoveredGain | FuzzerMerge.cpp:332-337 | Counting features whose bit is clear is the number of slots gained, when a file's slots are distinct |
| Selection.SomethingLeft | FuzzerMerge.cpp:355-361 | While some slot is uncovered some candidate has a positive gain |
| SetCoverBound.GreedyBound | FuzzerMerge.cpp:323-389 | The set-cover theorem: maximal picks against any k parts covering n elements number at most k H(n) |
| SetCoverBound.Pigeonhole | FuzzerMerge.cpp:323-389 | If k parts cover a set, one of them has at least a k-th of it |
| GlobalCorpus.GlobalCorpusInfo.AddFeature | FuzzerFork.h:334-358 | Updates slots, counters and the loser's state in place exactly as the specification does, and says whether it did |
| GlobalCorpus.GlobalCorpusInfo.AddToCorpus | FuzzerFork.h:360-386 | Appends a live, unlocked seed that owns the given number of slots |
| GlobalCorpus.GlobalCorpusInfo.MergeInput | FuzzerFork.cpp:205-221 | The locked update for one candidate refines the batch specification and adds to the set of features exactly the slots that were never hit before |
| CorpusModel.MergeInputInv | FuzzerFork.cpp:205-221 | One batch of one positive size: counts equal slots owned, live iff positive, dead seeds counted, and each slot holds the least size and the first seed with it. All this survives if and only if the 32-bit update counter does not wrap within the batch |
| CorpusRuns.ReachableInv | FuzzerFork.cpp:200-223 | In every run of merges and job selections, in any order, at every batch boundary: the corpus is consistent with all that was merged, each seed standing for the batch it was added for, and each slot owned by the first seed with the least size; no seed was a first-phase pick twice; each seed counts how often it was handed out, and is locked iff it ever was |
| CorpusRuns.OwnerIsFirstSmallest | FuzzerFork.h:334-358 | In every reachable corpus a slot ever hit is owned by the seed added for the first of the smallest batches that hit it |
| CorpusRuns.BirthsAscend | FuzzerFork.cpp:205-221 | Every seed was added for a batch of its own, later seeds for later batches |
| CorpusRuns.CounterWraps | FuzzerFork.h:341-357 | The wrap-around is reached: after 2^31 - 1 ever smaller inputs with two features one more leaves a seed that claims 2^64 - 2^32 + 2 features for the two it owns |
| CorpusModel.AddFeatureAmid | FuzzerFork.h:334-358 | Amid a batch one call keeps the weaker invariant in which the next index already owns slots |
| CorpusModel.LiveSeedsCover | FuzzerFork.h:323-358 | Every slot ever hit is owned by a live seed |
| CorpusRuns.NeverRunsDry | FuzzerFork.h:388 | Once a seed lives, the live seeds never run out, whatever is merged and selected later |
| CorpusModel.OwnerHasFeatures | FuzzerFork.h:339-345 | The assertion that a slot's owner still has features to lose cannot fail |
| Ownership.TakeConsistent | FuzzerFork.h:334-358 | Moving one slot to the next index keeps counts equal to slots owned and their sum equal to the features added |
| Ownership.AppendConsistent | FuzzerFork.h:368-386 | Appending the pending seed keeps the table consistent iff it is given exactly the number of slots it owns |
| Ownership.OwnerExists | FuzzerFork.h:339-345 | The recorded owner of a slot exists and has a positive count |
| GlobalCorpus.GlobalCorpusInfo.GetJobSeeds | FuzzerFork.h:446-486 | Given a live seed (or no seeds wanted) it terminates; with the live seeds sorted by score, the first phase picks exactly the seeds drawn by the skewed draws that were unlocked, until it has those wanted or has spent three draws per live seed; only if it finds at most one are as many more drawn as were wanted, locked or not; selections and locks change accordingly and nothing else does |
| GlobalCorpus.GlobalCorpusInfo.DrawUnlocked | FuzzerFork.h:463-474 | The first phase: it goes on until it has the seeds wanted or has spent three draws per live seed; it picks exactly the seeds drawn that were unlocked, each once, at least one if none is locked |
| GlobalCorpus.GlobalCorpusInfo.DrawAny | FuzzerFork.h:475-483 | The second phase adds exactly the seeds that the next draws draw, as many as are wanted |
| GlobalCorpus.GlobalCorpusInfo.SortedLiveSeeds | FuzzerFork.h:457-462 | Exactly the live seeds, each once, ordered by score; as many as GetLiveInputsSize says when the dead are counted right |
| CorpusModel.AccountsAfterSelect | FuzzerFork.h:469-483 | One job's seeds keep the accounts: first-phase picks distinct, selections equal to the times a seed was handed out, locked iff ever handed out |
| CorpusModel.AccountsAfterMerge | FuzzerFork.h:334-386 | Merging inputs keeps those accounts |
| CorpusModel.SelectAllInv | FuzzerFork.h:469-483 | Handing out seeds disturbs neither the slots nor the counts |
| CorpusModel.SelectAllEffect | FuzzerFork.h:469-483 | Selecting seeds locks exactly those and raises total selections by their number |
| Random.Below | FuzzerRandom.h:30-34 | A draw below n, or zero for n = 0 |
| Random.SkewTowardsLast | FuzzerRandom.h:26-29 | The skewed index is in range |
| Random.SkewWeights | FuzzerRandom.h:26-29 | Index i of n is drawn for exactly 2i + 1 of the n^2 residues |
| Random.CanBeDrawnIff | FuzzerRandom.h:17-29 | The engine's outputs lie strictly between 0 and 2^31 - 1, so all indices into n can be drawn if and only if n is at most 46340; beyond that only 1 to 46340 are, and never the best seed of more than 46341 |
| InputCorpus.Corpus.RunOne | FuzzerLoop.cpp:508-559 | The in-place corpus after a run, and the result, are those of the specification: add, replace or leave |
| InputCorpus.Corpus.VisitFeatures | FuzzerLoop.cpp:519-533 | The callback over all features: the new features and the matches of the base input are counted as specified |
| InputCorpus.Corpus.AddFeature | FuzzerCorpus.h:418-444 | Slot arrays, the loser and the rare features are updated in place as specified |
| InputCorpus.Corpus.AddToCorpus | FuzzerCorpus.h:210-249 | Appends a fresh input with the sorted feature set |
| InputCorpus.Corpus.Replace | FuzzerCorpus.h:288-299 | Only the data of one input changes |
| InputCorpus.Corpus.AddRareFeature | FuzzerCorpus.h:364-416 | The eviction loop and the entry of a new rare feature, with every local list, as specified |
| InputCorpus.Corpus.EvictRound | FuzzerCorpus.h:370-401 | One round drops the most abundant rare feature from every local list |
| InputCorpus.Corpus.UpdateFeatureFrequency | FuzzerCorpus.h:447-466 | Global and local counts after one feature, as specified |
| InputModel.RunOneInv | FuzzerLoop.cpp:508-559 | A run keeps the corpus consistent, no assertion fails on the way, and reduction is sound: when it replaces data, the new data is strictly smaller and exhibits every feature the input stands for |
| RunOutcome.RunOutcome | FuzzerLoop.cpp:508-559 | Exactly when a run adds, replaces or leaves, and what it returns: data is added iff forced or some slot was never hit or, when shrinking, only by larger data; it then owns those slots and lists the first feature of each; otherwise the base input is replaced iff it may be reduced, lists features, shows only features that the data shows too, and is larger; nothing else happens to inputs and slots but the eviction of inputs that lose their last slot |
| RunOutcome.VisitAllTells | FuzzerLoop.cpp:519-533 | What the callback over all features does to slots, inputs and the list of new features, told without its steps |
| RunOutcome.RunCounts | FuzzerCorpus.h:418-470 | With entropic scheduling a run raises the global count of each slot by the features in it, up to 65535 and from zero if it was never hit before, and the last slot hit for the first time is the newest rare feature; without it the frequencies stay |
| FeatureSlots.SameSlotIff | FuzzerCorpus.h:418-420 | Two features share a slot iff they are a multiple of 2^21 apart |
| RunOutcome.MatchesAll | FuzzerLoop.cpp:549-552 | The match count reaches the number of listed features iff every one of them was reported |
| InputModel.ReachableInv | FuzzerLoop.cpp:508-559 | Every sequence of runs leaves a consistent corpus: the ValidateFeatureSet equality, sums, owners in range and fitting, no evicted owner, frequencies conserved |
| CoverageTarget.CollectedOnce | FuzzerTracePC.h:386-439 | Features collected by the tracer and cut to 32 bits are reported once, if their number fits |
| CoverageTarget.CollectedRunOneInv | FuzzerLoop.cpp:508-559 | For such a target a run keeps the corpus consistent and replaces soundly, with no hypothesis about repeated features |
| CoverageTarget.CollectedReachable | FuzzerLoop.cpp:508-559 | For such a target every sequence of runs leaves a consistent corpus with conserved frequencies, and the next run fails no assertion |
| InputModel.NextRunIsSafe | FuzzerLoop.cpp:519-533 | In every reachable corpus no assertion of the callback can fail, whatever runs next |
| InputModel.OwnersAlive | FuzzerCorpus.h:477-489 | A slot ever hit has an owner that is in the corpus, is not evicted, is no larger than the slot's size and counts exactly the slots it owns |
| InputModel.AddFeatureAmid | FuzzerCorpus.h:418-444 | Amid a batch one call keeps the weaker invariant in which the next index already owns slots |
| InputModel.MatchesCount | FuzzerLoop.cpp:526-529 | Since features are reported once, the match count is the size of the intersection with the input's set |
| InputModel.AllMatch | FuzzerLoop.cpp:549-552 | As many matches as listed features means every listed feature was reported |
| InputModel.ReplacedInv | FuzzerCorpus.h:288-299 | Replacing by smaller data that exhibits the set keeps the corpus consistent |
| InputModel.FrequenciesConserved | FuzzerCorpus.h:124-146 | In every reachable corpus, for every feature, local counts sum to at most the global count, which is at most 65535; local lists are sorted with positive counts; no feature is rare twice |
| InputModel.FakeSeedIsMiscounted | FuzzerLoop.cpp:860-863 | Adding an input outside a batch keeps the counts right iff it claims no features: the fake seed, which claims one, breaks the equality |
| Frequencies.UpdateConserves | FuzzerCorpus.h:447-466 | Counting one feature keeps local counts below the global one, which saturates |
| Frequencies.AddRareConserves | FuzzerCorpus.h:364-416 | Eviction and the entry of a feature keep conservation and keep rare features distinct |
| Frequencies.EvictOneConserves | FuzzerCorpus.h:370-401 | Evicting one rare feature drops all its local counts and keeps the rest |
| RareFeatures.RoundEvicts | FuzzerCorpus.h:363-392 | One round evicts the last of the most abundant rare features, from the list and from every input, and sets the bound to the greatest count before it |
| RareFeatures.EvictKeepsRarest | FuzzerCorpus.h:359-393 | The loop keeps at least as many rare features as are wanted, none of them more abundant than one evicted, and stops exactly when there are no more than that or the bound is low enough; only evicted features lose their local counts |
| RareFeatures.AddRareTells | FuzzerCorpus.h:358-412 | A new rare feature enters with all counts at zero, after the eviction above; all other counts stay |
| RareFeatures.UpdateTells | FuzzerCorpus.h:447-470 | The global count rises up to 65535; the local count and the bound follow exactly for rare features no more abundant than the bound |
| RareFeatures.AgreesIff | FuzzerCorpus.h:379-382 | A round clears the bit of the position instead of the feature: the bits agree with the list afterwards iff the two are equal |
| RareFeatures.BoundIsGreatestIff | FuzzerCorpus.h:390-392 | The bound is that of the most abundant remaining feature iff the evicted one does not come first and the greatest of the others comes before it |
| RareFeatures.FirstIsWorst | FuzzerCorpus.h:363-392 | The failing input: of two rare features the more abundant comes first; its bit stays set and the bound stays at its count |
| Frequencies.BumpEffect | FuzzerCorpus.h:124-146 | A local update raises one count by one; the 16-bit counter cannot wrap |
| Frequencies.BumpWellFormed | FuzzerCorpus.h:124-146 | The local list stays strictly sorted with positive counts |
| Frequencies.DropEffect | FuzzerCorpus.h:52-65 | Deleting a feature zeroes its count and no other |
| Scheduler.ReachableInv | FuzzerFork.cpp:497-595 | For every interleaving of main loop, workers and detached threads: before a stop, jobs queued, running, finished, in hand or being refilled number NumJobs; afterwards sentinels queued plus workers exited number those pushed; every job is in at most one place |
| Scheduler.StepInv | FuzzerFork.cpp:322-351 | Each atomic step keeps all of that |
| Scheduler.StepConserved | FuzzerFork.cpp:345-351 | No step loses or duplicates a job slot or a sentinel |
| Scheduler.PlacesAfter | FuzzerFork.cpp:345-351 | A step creates at most the next job, and leaves every other job in as many places as it was, except one dropped at a stop |
| Scheduler.MergedOnce | FuzzerFork.cpp:569-575 | No job is handed to a merge twice |
| Scheduler.NoJobLost | FuzzerFork.cpp:504-589 | In every interleaving every job created is in exactly one place, merges included, unless it was dropped at a stop |
| Scheduler.DroppedOnce | FuzzerFork.cpp:515-571 | Only one job can be dropped: the one in hand when the main loop stops without keeping it |
| Scheduler.KeptIsMerged | FuzzerFork.cpp:558-566 | A job that the main loop stops with and keeps has been merged when it joins the workers |
| Scheduler.MainPopsJobs | FuzzerFork.cpp:508-512 | The main loop never pops a sentinel: it only leaves through StopJobs |
| Scheduler.NoWorkerBlocks | FuzzerFork.cpp:345-351 | Once StopJobs is through, a worker still alive never waits on an empty queue |
| Scheduler.Progress | FuzzerFork.cpp:497-600 | No deadlock: while the main thread is not done, some thread can take a step |
| Scheduler.StepWork | FuzzerFork.cpp:582-590 | After a stop every step of a worker or of the main thread uses up a distance to the last sentinel; late pushes of creator threads cannot increase it |
| Scheduler.StopCompletes | FuzzerFork.cpp:596-600 | Every run after a stop is finite, with an explicit bound; when nothing can move, all workers have exited and been joined |
| Sha1Impl.ComputeSha1 | FuzzerSHA1.cpp:204-209 | Equals the FIPS 180-4 digest for every message below 2^32 bytes; for any length, the digest over the message padded with the counted length |
| Sha1Impl.Sha1Info.HashBlock | FuzzerSHA1.cpp:100-135 | One block: the sixteen-word buffer overwritten in place computes the hash of section 6.1.2 of FIPS 180-4 |
| Sha1Impl.Sha1Info.ScheduleWord | FuzzerSHA1.cpp:110-113 | Round i reads word i of the message schedule from the circular buffer (section 6.1.3) |
| Sha1Impl.WindowAdvances | FuzzerSHA1.cpp:110-113 | The circular window holds the last sixteen schedule words, and the in-place update is the recurrence |
| Sha1Impl.ChForm | FuzzerSHA1.cpp:114-116 | The rewritten Ch is that of section 4.1.1 |
| Sha1Impl.MajForm | FuzzerSHA1.cpp:118-119 | The rewritten Maj is that of section 4.1.1 |
| Sha1Impl.RoundForm | FuzzerSHA1.cpp:114-128 | One round of the source is one round of the standard |
| Sha1Impl.Sha1Info.AddUncounted | FuzzerSHA1.cpp:138-150 | Taking in a byte: bytes stored through ^3 are pending, full blocks are hashed |
| Sha1Impl.BlockLoaded | FuzzerSHA1.cpp:138-145 | Bytes stored through ^3 read back as big-endian words |
| Sha1Impl.Sha1Info.Write | FuzzerSHA1.cpp:152-159 | Any sequence of bytes is taken in and counted modulo 2^32 |
| Sha1Impl.Sha1Info.PadZeros | FuzzerSHA1.cpp:165-166 | The padding loop terminates after the number of zeros the standard asks for |
| Sha1Impl.Sha1Info.Pad | FuzzerSHA1.cpp:161-177 | Padding takes in exactly the bytes of section 5.1.1 for the counted length |
| Sha1Impl.LengthField | FuzzerSHA1.cpp:168-176 | The shifts cut the length in bits into its base-256 digits |
| Sha1Impl.PaddingIsMinimal | FuzzerSHA1.cpp:161-177 | The zeros of the padding are the fewest that complete whole blocks |
| Sha1Impl.CountedLength | FuzzerSHA1.cpp:152-155 | Of the messages below 2^61 bytes, for which the standard defines padding, the 32-bit byte counter pads exactly those below 2^32 bytes right |
| Sha1Impl.Sha1Info.Result | FuzzerSHA1.cpp:179-197 | The byte-swapped state is the digest in big-endian order |
| Regions.RegionsTile | FuzzerTracePC.cpp:42-72 | For all addresses and every power-of-two page size the regions of a module tile its counters, with whole aligned pages inside, if and only if rounding its start up to a page does not wrap around; if it does, they tile the space from address 0 |
| Regions.PagesCount | FuzzerTracePC.cpp:52-67 | The number of full pages written is the quotient the array was sized with |
| Regions.RoundDownIs | FuzzerUtil.h:101-112 | Masking with ~(PageSize - 1), bit by bit, rounds down to a multiple of the page size |
| Bits.AndHighBits | FuzzerUtil.h:101-112 | Clearing the low bits of a word is subtracting the remainder by a power of two |
| TracePCs.TracePC.HandleInline8bitCountersInit | FuzzerTracePC.cpp:42-72 | Registers the regions and their size, or nothing for an empty or repeated module. The regions tile the counters, and the assertions on size and bounds hold, iff the start is not within the last page of the address space; otherwise they begin at address 0 |
| TracePCs.TracePC.FillRegions | FuzzerTracePC.cpp:58-67 | The region array is filled exactly |
| TracePCs.TracePC.HandlePCsInit | FuzzerTracePC.cpp:74-81 | Appends the table unless it is the last one registered |
| CounterScan.ForEachNonZeroByte | FuzzerTracePC.h:331-356 | The word-at-a-time scan makes exactly the callbacks of the byte scan, in order, for every alignment and length |
| CounterScan.HitsAscend | FuzzerTracePC.h:331-356 | Every non-zero counter is reported once, in ascending order |
| CounterScan.Buckets | FuzzerTracePC.h:360-382 | The eight buckets split the non-zero counters into the documented intervals |
| ValueBitMaps.ValueBitMap.AddValue | FuzzerValueBitMap.h:33-41 | Sets exactly the bit of the value and says whether it was clear |
| ValueBitMaps.ValueBitMap.AddValueModPrime | FuzzerValueBitMap.h:44-46 | The same for the value modulo the prime |
| ValueBitMaps.ValueBitMap.Get | FuzzerValueBitMap.h:48-53 | Reads the bit of an index |
| ValueBitMaps.ValueBitMap.ForEach | FuzzerValueBitMap.h:59-65 | Calls back for exactly the set bits, in order |
| ValueBitMaps.SetBitsAscend | FuzzerValueBitMap.h:59-65 | Those are strictly ascending, and an index is among them iff its bit is set |
| TracePCs.TracePC.CollectFeatures | FuzzerTracePC.h:386-439 | The features reported are the specified ones cut to 32 bits; if the returned total fits in 32 bits they are strictly increasing and below it |
| Features.ReportedIncrease | FuzzerTracePC.h:386-439 | Counters, value profile and stack depth together report strictly increasing numbers below the total |
| Features.NumbersAreUnique | FuzzerTracePC.h:387-439 | No two sources (counter and bucket, profile bit, stack step) share a number, with or without UseCounters |
| Features.ReportedAreHit | FuzzerTracePC.h:386-439 | A number is reported iff a source with that number was hit |
| Features.StepMonotone | FuzzerTracePC.h:419-427 | Deeper stacks never get a smaller step |
| Features.StepShape | FuzzerTracePC.h:419-427 | From eight on the step is linear within each power of two, with eight steps for each |
| Features.StepBelowTotal | FuzzerTracePC.h:432-436 | The step of any stack offset lies below the room reserved for steps |
| TracePCs.TracePC.UpdateObservedPCs | FuzzerTracePC.cpp:163-203 | Adds exactly the blocks with a non-zero counter and one hit for each function entered, scanning the regions in place |
| TracePCs.TracePC.GetFuncFreqsUncoveredInfo | FuzzerTracePC.cpp:411-462 | Refreshes, for all functions of all tables, those whose hit count changed |
| TracePCs.TracePC.CoveredFunction | FuzzerTracePC.cpp:413-459 | The callback for one function: skip, or recount and store |
| FunctionCoverage.FunctionsFound | FuzzerTracePC.cpp:303-318 | The iteration finds every function of every table, with its bounds, and nothing else |
| FunctionCoverage.RefreshIsExact | FuzzerTracePC.cpp:411-462 | After a refresh each covered interesting function has exactly one entry, equal to a recomputation, although functions with an unchanged count were skipped |
| FunctionCoverage.ObservedInv | FuzzerTracePC.cpp:163-203 | An execution leaves every entry that counts as up to date exact |
| FunctionCoverage.ReachableInSync | FuzzerTracePC.cpp:411-462 | In every run of executions and refreshes in which blocks are only executed along with their function's entry, every refresh leaves the cache exact |
| FunctionCoverage.RefreshDescribes | FuzzerTracePC.cpp:412-470 | Every refresh of such a run leaves one entry for each interesting function that was ever entered, and no other: its address plus one, how many executions entered it, how many of its blocks any execution showed, and how many none did |
| FunctionCoverage.SyncDescribes | FuzzerTracePC.cpp:435-462 | In a cache in sync each covered interesting function has an entry with its hit count, its observed and its other blocks |
| FunctionCoverage.RunAccumulates | FuzzerTracePC.cpp:163-203 | The observed blocks of a run are those of its executions, the counts the number of executions that entered |
| FunctionCoverage.ExactIff | FuzzerTracePC.cpp:411-462 | From an exact cache, an execution and a refresh lead to an exact cache if and only if every cached function that was not entered shows no new block |
| FunctionCoverage.StaleRun | FuzzerTracePC.cpp:411-462 | The cache does go stale: a function entered, refreshed, and then seen only in its second block |
| FunctionCoverage.PutContents | FuzzerTracePC.cpp:445-456 | Storing an entry replaces the one with its id and leaves ids distinct |
| DataFlow.PrintCoverage | dataflow/DataFlow.cpp:135-154 | Prints one line for each function entered, numbered by position, with its executed blocks and its size |
| DataFlow.PrintDataFlow | dataflow/DataFlow.cpp:116-133 | Prints one line for each function that a byte of the input reached |
| DataFlow.PrintBinary | dataflow/DataFlow.cpp:107-114 | The low bits of a label as characters |
| DataFlow.FunctionsFit | dataflow/DataFlow.cpp:135-143 | The functions of any guard table lie within it |
| CoverageText.LabelBitsPerByte | dataflow/DataFlow.cpp:116-133 | A data-flow line has one character for each byte of the input, and says which bytes reached the function |
| BlockCoverages.BlockCoverage.AppendCoverage | FuzzerDataFlowTrace.cpp:42-82 | Accepts, rejects or overruns on every text exactly as specified, line by line, with the counters it has then |
| BlockCoverages.BlockCoverage.AddLine | FuzzerDataFlowTrace.cpp:44-79 | One line: data-flow, coverage, empty or other |
| BlockCoverages.BlockCoverage.AddNumbers | FuzzerDataFlowTrace.cpp:55-79 | The checks on the numbers of a coverage line, and the counters after it |
| CoverageText.CoverageLineRead | FuzzerDataFlowTrace.cpp:44-61 | A printed coverage line is read back as its function and its numbers |
| CoverageText.DataFlowLineRead | FuzzerDataFlowTrace.cpp:47-53 | A printed data-flow line is read back as its function |
| CoverageText.AddBlocksTallies | FuzzerDataFlowTrace.cpp:62-79 | Reading the line of an entered function turns its tally over the inputs so far into the tally with one more |
| CoverageText.ReportsRoundTrip | FuzzerDataFlowTrace.cpp:42-82 | Reading the reports of any sequence of inputs over one layout succeeds; a function is then known iff some input entered it, and each counter is the number of inputs that entered the function and executed the block, modulo 2^32 |
| Mutators.MutationDispatcher.CrossOver | FuzzerCrossOver.cpp:19-49 | Terminates although an exhausted side makes no progress; writes an interleaving of a prefix of each input, of length the sum of the prefixes and the least of the drawn limit and both sizes |
| MutationModel.InterleavesContents | FuzzerCrossOver.cpp:19-49 | An interleaving loses no byte and invents none |
| MutationModel.ExtendSecond | FuzzerCrossOver.cpp:34-41 | Copying the next part of one input to the end extends the interleaving |
| Mutators.MutationDispatcher.CopyPartOf | FuzzerMutate.cpp:317-328 | Overwrites a part, of at least one byte, in terms of the bytes before, also when both buffers are one; the draws say which part goes where |
| Mutators.MutationDispatcher.InsertPartOf | FuzzerMutate.cpp:332-354 | Inserts a part in terms of the bytes before, also when both buffers are one; fails iff there is no room |
| Mutators.Spliced | FuzzerMutate.cpp:345-352 | The two moves together are an insertion |
| Mutators.MutationDispatcher.Mutate_CopyPart | FuzzerMutate.cpp:356-365 | Overwrites data by, or inserts, at least one byte of the same buffer; fails iff the data is empty or oversized |
| Mutators.MutationDispatcher.Mutate_CrossOver | FuzzerMutate.cpp:440-468 | The result is a crossing, or an insertion or overwriting of at least one byte, of both units, neither empty nor oversized |
| Mutators.MutationDispatcher.Mutate_ChangeASCIIInteger | FuzzerMutate.cpp:367-399 | Replaces the first maximal run of digits from the drawn position on by digits that parse to a mutation of its 64-bit value, modulo 10^length; everything else stays |
| Mutators.MutationDispatcher.ParseDigits | FuzzerMutate.cpp:377-380 | The 64-bit value of the digits, wrapped |
| Mutators.MutationDispatcher.WriteDigits | FuzzerMutate.cpp:391-397 | The digits written from the right parse to the value modulo 10^length |
| MutationModel.NumberCons | FuzzerMutate.cpp:391-397 | A digit in front adds itself times a power of ten |
| Mutators.MutationDispatcher.MutateWithMask | FuzzerMutate.cpp:563-589 | Bytes that the mask does not mark stay; the marked ones, in order, are what MutateImpl leaves of them in the temporary buffer; zero is returned iff nothing is marked |
| Mutators.MutationDispatcher.MutateImpl | FuzzerMutate.cpp:541-560 | For arbitrary mutators that may draw from the engine themselves: at most a hundred are tried, each picked by the next draw and called on what the last one left; the first to succeed ends it and its result stands (made text with OnlyASCII), or a single blank after a hundred failures; the size returned is positive and at most the maximum |
| Mutators.MutationDispatcher.ToASCII | FuzzerUtil.cpp:59-71 | Every byte keeps its low seven bits if they are text and becomes a blank otherwise, and the result says whether anything changed |

## Left out

- Files, directories, processes, signals, command lines, symbolization and logging: calls into the platform.
- Control files that were neither written by this merge nor rejected: they are parsed and used, without a claim about the result.
- CrashResistantMerge.Merge: files listed in a control file have not changed since it was written.
- File names with newlines, and stream details beyond decimal extraction into unsigned variables (locales, hexadecimal).
- The order of the PCs on a COV line: they are written in ascending order.
- Mergers.Merger.Parse: stated for the files the merger starts from; the merge theorems use a fresh merger, as its callers do.
- GlobalCorpus.GlobalCorpusInfo.AddToCorpus: the file, path, PCs, functions and time of a seed are not modelled, nor the assertion that there are fewer than 2^32 - 1 seeds.
- GlobalCorpus.GlobalCorpusInfo.MergeInput: the frequencies, PCs, files and weights that ride along with a seed are not modelled.
- GlobalCorpus.GlobalCorpusInfo.GetJobSeeds: without a live seed the source indexes an empty vector when seeds are wanted; the model asks for one.
- Random.SkewTowardsLast: the double-precision square root is taken as the exact integer root.
- Floating-point energies, weights and scores: they only order candidates here.
- InputCorpus.Corpus.AddToCorpus: hashes, file names, times and the focus function are not modelled, nor is the set of hashes, which keeps those of evicted inputs.
- InputCorpus.Corpus.Replace: nor are they here, nor the mark that an input was reduced.
- InputCorpus.Corpus.AddRareFeature: the energy updates that follow an eviction are not modelled.
- Unique job ids: the code does not keep them unique.
- Scheduler.ReachableInv: a job's command, its merge and the creation of a job are single steps, and ids are fresh although the source re-reads its counter outside the lock.
- What detached threads still do with shared objects once the process is ending.
- Big-endian hosts, in the scan and in SHA-1.
- TracePCs.TracePC.UpdateObservedPCs: hit counts are unbounded, and printing of new PCs and functions is not modelled; the variant without a coverage record is the same loop.
- TracePCs.TracePC.GetFuncFreqsUncoveredInfo: whether a function's source file is interesting is an arbitrary fixed predicate on its address.
- FunctionCoverage.ReachableInSync: PC tables are told apart by number, so a table registered twice counts as two.
- BlockCoverages.BlockCoverage.AppendCoverage: a coverage line of a function without blocks writes outside a vector in the source; the model only says that it does, and printed texts never contain one.
- Mutators.MutationDispatcher.InsertPartOf: buffers are the same or disjoint, as in all its calls; partial overlap is not modelled.
- Mutators.MutationDispatcher.MutateImpl: a mutator depends on the buffer, the sizes and the engine, not on dictionaries and tables filled by the target; the record of the mutators used, kept for reports, is not a field.
- The other mutators, dictionaries and comparison tables: bounded edits of the same kind as those modelled.
