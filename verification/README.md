# Verified models of the core algorithms

This project models in Dafny the algorithms that carry the repository's tools, and proves what they are for
on all inputs, runs and reachable states.

| files | component |
|---|---|
| `WhoisGraph.dfy`, `WhoisTree.dfy` | the search for all identifiers of a Galera node: a tree of objects, changed in place, that is a reachability closure over a cyclic graph |
| `Translations.dfy`, `TranslationHistory.dfy` | the tables of translated identifiers and their compressed histories |
| `LogEvents.dfy`, `TimelineMerge.dfy`, `TimelineFold.dfy` | the timeline of one log: folding repeated events, merging two files and all files of one node |
| `TimelineDisplay.dfy`, `TransitionGrid.dfy` | the chronological table over all nodes and the aligned blocks of context changes in it |
| `HtmlEscaping.dfy`, `TabExpansion.dfy`, `ChunkSpacing.dfy`, `LineBreaks.dfy`, `Recombination.dfy`, `CaseFolding.dfy` | the Prettify engine, from a chunk of source to the page |
| `WeightedRoundRobin.dfy` | the weighted scheduler |
| `ConsistentHashing.dfy` | both rings, with a sorted list and with a tree map |
| `RateLimiting.dfy` | the token bucket and the sliding-window log |
| `DuplicateIndexes.dfy` | the search for redundant MongoDB indexes |
| `Ordering.dfy` | sorting of strings and lists without repetition, used by the ring, the table and the index search |
| `Numerals.dfy` | digits and the numbers they write, used by the ring and the character references |

Objects whose methods update their fields are classes with those fields; loops are loops with invariants.
Beside each stands a function or predicate over values that says what the state means (the picture of a whole
whois tree, the facts a history compresses, the reader of a page, the endless list of picks, the calls a bucket
has seen), and the lemmas prove the promises about it.

`dafny verify dfyconfig.toml` checks the project.

## Where the code falls short of its purpose

The model does what the code does; each of these is a lemma or an if-and-only-if below.

- A look-up in a history is meant to give the latest fact at an instant. It gives a later fact when the first
  one recorded is later than the instant and another is not (`LookupAsIntended`, `LookupOutOfOrder`).
- Compressing a history changes answers when facts share an instant (`TiedInstantsUnsound`), and when a repeat
  that arrives late moves its run back past another fact (`LateRepeatUnsound`); `CompressionExact` says when.
- The instant of a pair found again by a whois search is updated on a copy and lost (`AddKey`,
  `EarlierInstantKept`).
- Two files that overlap in one event only are merged with that event twice (`MergeWindows`,
  `BoundaryKeptTwice`). Where events share an instant, a file that ends within it hides the rest of it, and files
  that both have it may keep all of it twice (`MergeExact`, `EventLost`, `InstantKeptTwice`).
- A file that lies between two files merged before is dropped (`MergedPicksExact`, `GapStaysOpen`).
- A numeric reference is read from its second character on, so that most get another character than they mean
  (`ReferenceReadRight`, `FirstDigitIgnored`, `HexadecimalReadAsDecimal`); one of an ampersand can be unescaped
  again with what follows it (`ReferenceInContext`, `UnescapedAgain`).
- A `\r\n` with a style or tag between its two characters becomes two line breaks (`Recombine`,
  `CutLineEndBreaksTwice`).
- Adding a server that is in the ring already leaves its positions twice in the sorted list, so that after its
  removal a look-up can fail with a missing key (`NoKeyError`, `LookUpAfterAddingAgain`); colliding positions do
  the same (`NoKeyErrorOverRun`, `LookUpAfterCollision`), and let a removal move keys of other servers
  (`RemovalMoves`, `OthersKeyMoves`).
- An index on a field whose name only begins with the last field of another is reported as its duplicate; a sign
  in a field name can make unrelated indexes equal; a hashed, text or geographic field, and one that descends by
  a 64-bit integer, counts as ascending (`ReportIsRight`, `NameCutShort`, `SignInName`, `HashedReported`). For
  the last reason a duplicate can also be missed (`PrefixIsFound`, `EqualNotReported`).
- Any clock that runs back makes the sliding window accept too much, if it allows two or more (`ClockRunsBack`,
  `ApartBounded`); with a clock of whole seconds the limit holds for windows a second shorter only
  (`WholeSecondsBounded`, `WholeSecondsExceeded`).

## Model

| member | source | states |
|---|---|---|
| WhoisTree.Whois | resources/percona-toolkit/src/go/pt-galera-log-explainer/translate/whois.go:45-54 | On every translation database, cyclic or not, the search ends; the tree it returns stores exactly the pairs that can be reached from the one searched for, each held by one node only. Every pair but the first repeats a recorded fact about the value it hangs from, with the instant of the first unit that says so. Of the children of one value, node names take all that they lead to before addresses do, and these before hashes |
| WhoisTree.WhoisNode.GetValueData | resources/percona-toolkit/src/go/pt-galera-log-explainer/translate/whois.go:150-166 | Finds a pair exactly when a node at or below this one stores it, and then returns what is stored, in whatever order the maps are walked |
| WhoisTree.WhoisNode.ScanSubNodes | resources/percona-toolkit/src/go/pt-galera-log-explainer/translate/whois.go:155-163 | The inner loop: finds the pair below one value or establishes that no subnode of the value leads to it |
| WhoisTree.WhoisNode.AddKey | resources/percona-toolkit/src/go/pt-galera-log-explainer/translate/whois.go:138-148 | Stores a value exactly when the whole tree does not have the pair; of a pair stored already the later instant is kept if and only if the stored one is missing or not earlier, since the update acts on a copy |
| WhoisTree.EarlierInstantKept | resources/percona-toolkit/src/go/pt-galera-log-explainer/translate/whois.go:138-148 | A database with a fact at instant 5 about a name that the tree keeps with instant 1 |
| WhoisTree.WhoisNode.AddChildKey | resources/percona-toolkit/src/go/pt-galera-log-explainer/translate/whois.go:56-74 | For any type of child: the tree afterwards is the tree before if it had the pair, else the tree with the pair stored below the given value, in the child of its type, which is linked only once it holds something |
| WhoisTree.WhoisNode.StoreBelow | resources/percona-toolkit/src/go/pt-galera-log-explainer/translate/whois.go:70-73 | Delayed storage: an empty child is never linked, and the tree stays well formed |
| WhoisTree.WhoisNode.LinkIP | resources/percona-toolkit/src/go/pt-galera-log-explainer/translate/whois.go:190-202 | After a round for one address every hash and node name linked to it is in the tree, and nothing was added that is not a link |
| WhoisTree.WhoisNode.LinkUUID | resources/percona-toolkit/src/go/pt-galera-log-explainer/translate/whois.go:208-219 | The same for one hash: all its node names and its address |
| WhoisTree.WhoisNode.LinkNodeName | resources/percona-toolkit/src/go/pt-galera-log-explainer/translate/whois.go:225-245 | The same for one node name: all hashes and addresses that ever had it, and none for the reserved name |
| WhoisTree.WhoisNode.HangOwners | resources/percona-toolkit/src/go/pt-galera-log-explainer/translate/whois.go:231-244 | The two nested loops over a table: every key that ever had the name is in the tree |
| WhoisTree.WhoisNode.FilterDB | resources/percona-toolkit/src/go/pt-galera-log-explainer/translate/whois.go:189-248 | Every value of the node is answered, and the new nodes are leaves below this one |
| WhoisTree.WhoisNode.Filter | resources/percona-toolkit/src/go/pt-galera-log-explainer/translate/whois.go:168-187 | The recursion ends because each child brings a new pair of a finite universe; afterwards every new node is answered and nothing else has changed |
| WhoisTree.WhoisNode.FilterSubNodes | resources/percona-toolkit/src/go/pt-galera-log-explainer/translate/whois.go:178-186 | One value: its subnodes are visited once each, in the forced order of types; each is finished before the next one has its turn |
| WhoisTree.Picture.ChildsTurn | resources/percona-toolkit/src/go/pt-galera-log-explainer/translate/whois.go:178-186 | When the children that come before it are finished, all that comes before the next child, or before a node above it, is finished, and all that comes after is still a leaf |
| WhoisTree.Picture.SproutInTurn | resources/percona-toolkit/src/go/pt-galera-log-explainer/translate/whois.go:39-43 | New leaves below the node whose turn it is keep the order: what an earlier child or a node below it leads to never hangs below a later child |
| WhoisTree.Picture.StoreWellFormed | resources/percona-toolkit/src/go/pt-galera-log-explainer/translate/whois.go:56-74 | Storing a new pair keeps the tree a tree: one parent per node, ranks rising, every pair held once |
| WhoisTree.Picture.AllBelowRoot | resources/percona-toolkit/src/go/pt-galera-log-explainer/translate/whois.go:138-150 | Every node hangs below the root, so the test made at the root sees the whole tree |
| WhoisTree.Picture.StoredIsReachable | resources/percona-toolkit/src/go/pt-galera-log-explainer/translate/whois.go:168-248 | Soundness: what is stored can be reached through recorded links |
| WhoisTree.Picture.StoresExactlyReachable | resources/percona-toolkit/src/go/pt-galera-log-explainer/translate/whois.go:45-54 | A proven tree in which every value is answered stores exactly what can be reached |
| WhoisTree.Picture.SproutAddsKey | resources/percona-toolkit/src/go/pt-galera-log-explainer/translate/whois.go:66-73 | A new child always brings a pair of the universe that the tree did not have: the termination argument |
| WhoisTree.Picture.HeldOnce | resources/percona-toolkit/src/go/pt-galera-log-explainer/translate/whois.go:138-147 | Each pair appears once in the whole tree |
| WhoisGraph.ClosedHoldsReachable | resources/percona-toolkit/src/go/pt-galera-log-explainer/translate/whois.go:168-187 | A set with the start that is closed under links holds everything reachable |
| WhoisGraph.LinkedBack | resources/percona-toolkit/src/go/pt-galera-log-explainer/translate/whois.go:189-248 | Links can be followed back, except from the reserved node name |
| WhoisGraph.ReachableBack | resources/percona-toolkit/src/go/pt-galera-log-explainer/translate/whois.go:224-230 | Whois from any member of a cluster finds the same cluster: reachability is symmetric exactly where it does not end at the reserved name |
| WhoisGraph.NothingFromUnspecified | resources/percona-toolkit/src/go/pt-galera-log-explainer/translate/whois.go:226-230 | Nothing but itself is found from the reserved node name |
| Translations.Tables.AddHashToIP | resources/percona-toolkit/src/go/pt-galera-log-explainer/translate/translate.go:75-91 | The first address of a hash is kept for good, with the earliest instant seen; nothing else changes |
| Translations.Tables.AddHashToNodeName | resources/percona-toolkit/src/go/pt-galera-log-explainer/translate/translate.go:113-118 | The history of the hash takes one more fact, and nothing else changes; its last value is the whole name if that is shorter than ten, an address or without a dot, and otherwise all of the name before its first dot, known since the given instant or earlier |
| Translations.Tables.AddIPToNodeName | resources/percona-toolkit/src/go/pt-galera-log-explainer/translate/translate.go:120-125 | The history of the address takes one more fact, and nothing else changes; its last value is the name, cut before the first dot under the same conditions |
| Translations.Tables.AddIPToMethod | resources/percona-toolkit/src/go/pt-galera-log-explainer/translate/translate.go:127-131 | The history of methods takes one more fact, and nothing else changes |
| Translations.ShortNameStays | resources/percona-toolkit/src/go/pt-galera-log-explainer/utils/utils.go:134-145 | A shortened name is the whole name, or what is before its first dot if it is long, has one and is no address; shortening it again changes nothing |
| Translations.Tables.GetNodeNameFromHash | resources/percona-toolkit/src/go/pt-galera-log-explainer/translate/translate.go:161-166 | Answers with the look-up in the history of the hash, the empty name for an unknown one |
| Translations.UpsertToMap | resources/percona-toolkit/src/go/pt-galera-log-explainer/translate/translate.go:93-111 | The table after an upsert differs in the history of the key only, where a repeated value moves the last instant back instead of being appended |
| Translations.MostAppropriateValueFromTS | resources/percona-toolkit/src/go/pt-galera-log-explainer/translate/translate.go:143-159 | The loop computes the look-up that the lemmas of TranslationHistory are about |
| TranslationHistory.LookupIsLatest | resources/percona-toolkit/src/go/pt-galera-log-explainer/translate/translate.go:149-158 | On histories in any order: the first of the latest facts at or before the instant, provided the first fact recorded is not later; else that first fact |
| TranslationHistory.LookupAsIntended | resources/percona-toolkit/src/go/pt-galera-log-explainer/translate/translate.go:149-158 | The intended answer is given if and only if the first fact recorded is not later than the instant or no fact is at or before it |
| TranslationHistory.LookupOutOfOrder | resources/percona-toolkit/src/go/pt-galera-log-explainer/translate/translate.go:143-159 | A history that shows the intended answer is not always given |
| TranslationHistory.HistoryOfRun | resources/percona-toolkit/src/go/pt-galera-log-explainer/translate/translate.go:100-111 | After any run of upserts on any keys, the history of a key is the compression of that key's own facts |
| TranslationHistory.CompressedIsRuns | resources/percona-toolkit/src/go/pt-galera-log-explainer/translate/translate.go:93-111 | For facts in any order: a history has one unit for each run of facts that repeat a value, in order, with the value of the run and the least of its instants |
| TranslationHistory.CompressionExact | resources/percona-toolkit/src/go/pt-galera-log-explainer/translate/translate.go:93-159 | For facts in any order: the compressed history answers every query as the full list does if and only if, at the instant of each fact first recorded there, the run that began last says what that fact says, or what the first fact recorded says while that is still to come |
| TranslationHistory.ApartSound | resources/percona-toolkit/src/go/pt-galera-log-explainer/translate/translate.go:93-159 | For facts in any order: nothing is lost if between the instants of two facts of one run no fact says another value |
| TranslationHistory.RecordedInstantsDecide | resources/percona-toolkit/src/go/pt-galera-log-explainer/translate/translate.go:143-159 | Agreement on all queries is agreement at the recorded instants |
| TranslationHistory.LateRepeatUnsound | resources/percona-toolkit/src/go/pt-galera-log-explainer/translate/translate.go:107-110 | Four facts at four instants, of which a repeat arrives late: its run is moved back past another fact, and an answer changes |
| TranslationHistory.CompressedEnd | resources/percona-toolkit/src/go/pt-galera-log-explainer/translate/translate.go:100-111 | For facts in order of time: the last unit kept has the last value, and an earlier instant exactly when the last facts all repeat it |
| TranslationHistory.AnswersStep | resources/percona-toolkit/src/go/pt-galera-log-explainer/translate/translate.go:100-159 | For facts in order of time: one more fact keeps the histories in agreement exactly when it is harmless in the given sense |
| TranslationHistory.CompressionSound | resources/percona-toolkit/src/go/pt-galera-log-explainer/translate/translate.go:100-159 | The exact condition for facts in order of time, equal instants included: every repeat that opens a new instant is harmless |
| TranslationHistory.DistinctInstantsSound | resources/percona-toolkit/src/go/pt-galera-log-explainer/translate/translate.go:100-159 | Facts at strictly increasing instants lose nothing by compression |
| TranslationHistory.TiedInstantsUnsound | resources/percona-toolkit/src/go/pt-galera-log-explainer/translate/translate.go:100-159 | Facts that share an instant can make the compressed history disagree with the full list |
| LogEvents.LocalTimeline.Add | resources/percona-toolkit/src/go/pt-galera-log-explainer/types/timeline.go:25-38 | In place: a third event of a run replaces the second and is counted in the first; any other event is appended |
| LogEvents.LocalTimeline.AddAll | resources/percona-toolkit/src/go/pt-galera-log-explainer/types/timeline.go:25-38 | Adding a whole log event by event gives its run-length code, defined run by run |
| LogEvents.AddedToEncoded | resources/percona-toolkit/src/go/pt-galera-log-explainer/types/timeline.go:25-38 | Adding one event to the code of a log gives the code of the longer log |
| LogEvents.LastRunIs | resources/percona-toolkit/src/go/pt-galera-log-explainer/types/loginfo.go:80-86 | The runs that are folded are the longest stretches of mutually repeating events |
| LogEvents.EncodedCountsAll | resources/percona-toolkit/src/go/pt-galera-log-explainer/types/timeline.go:27-33 | The sum of one plus the repetition counts is the number of events added |
| LogEvents.ExpandedGivesLog | resources/percona-toolkit/src/go/pt-galera-log-explainer/types/timeline.go:27-33 | Writing the repetitions out gives the log back, up to regex and message |
| LogEvents.NoThreeAlike | resources/percona-toolkit/src/go/pt-galera-log-explainer/types/timeline.go:27-38 | No three neighbours of a timeline are duplicates of each other |
| TimelineMerge.GetFirstTime | resources/percona-toolkit/src/go/pt-galera-log-explainer/types/timeline.go:159-166 | The date of the first event dated by an error log, or the zero time |
| TimelineMerge.GetLastTime | resources/percona-toolkit/src/go/pt-galera-log-explainer/types/timeline.go:167-174 | The date of the last event dated by an error log, or the zero time |
| TimelineMerge.CutTimelineAt | resources/percona-toolkit/src/go/pt-galera-log-explainer/types/timeline.go:178-187 | What remains from the first event with a date after the given one on; all events before it have no date or none later |
| TimelineMerge.MergeTimeline | resources/percona-toolkit/src/go/pt-galera-log-explainer/types/timeline.go:92-157 | Computes the merge on all timelines, dated or not, empty or not; the result may be one of them, and no other timeline changes. Whenever one timeline goes on after the other, both the merge and, in place, the later timeline end with the later one's last event, whose context has the earlier one's addresses, names, hashes and conflicts before its own, so that the latest entry is its own if it has any, its own version unless it has none, and its own file |
| TimelineMerge.Join | resources/percona-toolkit/src/go/pt-galera-log-explainer/types/timeline.go:153-156 | The later timeline is completed in place and what is left of it follows the earlier one; the last context knows all that was known at the ends of both |
| TimelineMerge.MergedKnowsBoth | resources/percona-toolkit/src/go/pt-galera-log-explainer/types/logctx.go:168-176 | The same of the merge itself, whichever timeline is passed first |
| TimelineMerge.CutLeavesSome | resources/percona-toolkit/src/go/pt-galera-log-explainer/types/timeline.go:125-157 | The element written after a cut always exists |
| TimelineMerge.MergedWindows | resources/percona-toolkit/src/go/pt-galera-log-explainer/types/timeline.go:92-157 | What the merge of two windows of one ascending log is, case by case of their dates, events sharing an instant included |
| TimelineMerge.MergeExact | resources/percona-toolkit/src/go/pt-galera-log-explainer/types/timeline.go:92-157 | For any two windows of one log in ascending order, events sharing an instant included, whichever is passed first: the merge is the ordered union of their events up to the last context if and only if the window that starts later lies in the other, or starts after it ends, or reaches into one that does not end within an instant; of two that start at one instant, the one kept must have the other |
| TimelineMerge.MergeWindows | resources/percona-toolkit/src/go/pt-galera-log-explainer/types/timeline.go:92-157 | If no two events share an instant, the only exception is two windows that share exactly one boundary event; that event is kept twice |
| TimelineMerge.BoundaryKeptTwice | resources/percona-toolkit/src/go/pt-galera-log-explainer/types/timeline.go:142-156 | Two windows of a log of three events that touch in the second are merged into four events |
| TimelineMerge.EventLost | resources/percona-toolkit/src/go/pt-galera-log-explainer/types/timeline.go:142-156 | Input: a file that ends between two events of one instant hides the second of them |
| TimelineMerge.InstantKeptTwice | resources/percona-toolkit/src/go/pt-galera-log-explainer/types/timeline.go:142-156 | Input: two files that both have the two events of one instant at their boundary keep both twice |
| TimelineFold.Nodes.MergeByIdentifier | resources/percona-toolkit/src/go/pt-galera-log-explainer/types/timeline.go:43-52 | The file is merged into the timeline of its node, or becomes it; no other node gets another timeline |
| TimelineFold.MergedAlike | resources/percona-toolkit/src/go/pt-galera-log-explainer/types/timeline.go:92-157 | Which events are kept does not depend on contexts |
| TimelineFold.MergeOfPicks | resources/percona-toolkit/src/go/pt-galera-log-explainer/types/timeline.go:92-157 | What merging any two selections of events of one log keeps, gaps included |
| TimelineFold.MergedPicksExact | resources/percona-toolkit/src/go/pt-galera-log-explainer/types/timeline.go:92-157 | It is the events of both, each once and in order, if and only if the file that starts later fills no gap left in the other and does not touch it in its last event only; of two that start together, the one kept must have the other |
| TimelineFold.FoldOfFiles | resources/percona-toolkit/src/go/pt-galera-log-explainer/types/timeline.go:43-52 | What is left of all files of a node, in any order |
| TimelineFold.FoldIsUnion | resources/percona-toolkit/src/go/pt-galera-log-explainer/types/timeline.go:43-52 | If every file fits what was merged before it, that is the events of all files, each once and in order |
| TimelineFold.FoldKnowsAll | resources/percona-toolkit/src/go/pt-galera-log-explainer/types/timeline.go:43-52 | For any number of files in order of time: the timeline starts and ends where the first and the last file do, and its last context has the addresses, names, hashes and conflicts known at the ends of all files, one file after another, and the last version that any of them knew |
| TimelineFold.GapStaysOpen | resources/percona-toolkit/src/go/pt-galera-log-explainer/types/timeline.go:43-52 | Input: a file between two files merged before is dropped |
| TimelineDisplay.Timeline.IterateNode | resources/percona-toolkit/src/go/pt-galera-log-explainer/types/timeline.go:202-221 | Returns exactly the nodes whose next date is least and not past the sentinel |
| TimelineDisplay.Timeline.Dequeue | resources/percona-toolkit/src/go/pt-galera-log-explainer/types/timeline.go:223-229 | Drops the first event of one node, leaves an unknown or empty one alone, and changes no other |
| TimelineDisplay.Timeline.Display | resources/percona-toolkit/src/go/pt-galera-log-explainer/display/timelinecli.go:38-118 | The loop ends; columns are all nodes once, in order of name; each column followed by what is left is the timeline of its node; a column is emptied exactly when the sentinel hides none of its events; on chronological timelines rows go down in time and show all that is due at their date; above each row stands the block comparing the contexts just above and just below it, which shows each change of a node once, the older value above the newer one |
| TimelineDisplay.Timeline.PrintRow | resources/percona-toolkit/src/go/pt-galera-log-explainer/display/timelinecli.go:61-117 | One row takes the first event of each due node and nothing else, and updates the remembered contexts |
| TimelineDisplay.Timeline.TakeCells | resources/percona-toolkit/src/go/pt-galera-log-explainer/display/timelinecli.go:70-93 | The inner loop over the columns: each due node gives its first event and its contexts before and after it |
| TimelineDisplay.Timeline.InitKeysContext | resources/percona-toolkit/src/go/pt-galera-log-explainer/display/timelinecli.go:134-151 | The columns are all nodes once, sorted, and the contexts to start with are those of the first events |
| Ordering.SortStrings | resources/percona-toolkit/src/go/pt-galera-log-explainer/display/timelinecli.go:149-149 | Sorted, nothing lost |
| TimelineDisplay.PrintStep | resources/percona-toolkit/src/go/pt-galera-log-explainer/display/timelinecli.go:59-118 | What one more row keeps: conservation, no event past the sentinel, chronological order |
| TimelineDisplay.StepTable | resources/percona-toolkit/src/go/pt-galera-log-explainer/display/timelinecli.go:59-118 | Rows stay ordered by date, and a node missing from a row has nothing due at that date further down |
| TimelineDisplay.NothingDue | resources/percona-toolkit/src/go/pt-galera-log-explainer/types/timeline.go:202-221 | When no node is due, every node with events left is past the sentinel |
| TimelineDisplay.FollowStep | resources/percona-toolkit/src/go/pt-galera-log-explainer/display/timelinecli.go:81-104 | The contexts remembered from row to row show exactly the changes of the row, none of them twice |
| TimelineDisplay.ComparedShows | resources/percona-toolkit/src/go/pt-galera-log-explainer/display/timelinecli.go:95-104 | The remembered contexts, some of them many rows old, give the same block as the contexts just above the row |
| TransitionGrid.Transitions.FillEmptyTransition | resources/percona-toolkit/src/go/pt-galera-log-explainer/display/timelinecli.go:346-354 | Pads the tests of a column to the number of possible transitions |
| TransitionGrid.Transitions.Iterate | resources/percona-toolkit/src/go/pt-galera-log-explainer/display/timelinecli.go:322-332 | Resolves every test: one whose texts differ is found and shows the older text, its type in brackets, an arrow and the newer text, each closed by a tab; any other keeps what it shows, closed by tabs; and counts those found |
| TransitionGrid.Transitions.StackPrioritizeFound | resources/percona-toolkit/src/go/pt-galera-log-explainer/display/timelinecli.go:334-344 | At least `height` transitions are compiled if and only if there are that many tests, and the first `height` are the stack |
| TransitionGrid.Pivot | resources/percona-toolkit/src/go/pt-galera-log-explainer/display/timelinecli.go:334-339 | Where the count of found and remaining tests meets the height: the step at which it must, as it falls by at most one |
| TransitionGrid.StackShowsFound | resources/percona-toolkit/src/go/pt-galera-log-explainer/display/timelinecli.go:246-260 | A stack has exactly `height` entries, with every found transition once and in order |
| TransitionGrid.HeightFits | resources/percona-toolkit/src/go/pt-galera-log-explainer/display/timelinecli.go:286-312 | The height of the block never exceeds the tests of a column, so the indexing of the block is always in range |
| TransitionGrid.CompileStacks | resources/percona-toolkit/src/go/pt-galera-log-explainer/display/timelinecli.go:261-305 | After the three loops every column has its stack of one common height |
| TransitionGrid.TransitionSeparator | resources/percona-toolkit/src/go/pt-galera-log-explainer/display/timelinecli.go:261-320 | The block, read as a grid of cells, has one column for each node. Apart from placeholders the column shows what changed between the two contexts of the node, each change once: file path, last node name, last address and version, in that order, with the older value at the top and the newer one at the bottom. One column has no placeholder, so no block could be lower |
| TransitionGrid.SeparatorShowsChanges | resources/percona-toolkit/src/go/pt-galera-log-explainer/display/timelinecli.go:246-260 | The same of the string that is specified, for all nodes and contexts |
| TransitionGrid.SeparatorShowsChange | resources/percona-toolkit/src/go/pt-galera-log-explainer/display/timelinecli.go:301-320 | There is no separator if and only if no node has two contexts that differ in a test |
| TransitionGrid.SeparatorIgnoresStill | resources/percona-toolkit/src/go/pt-galera-log-explainer/display/timelinecli.go:261-320 | The block does not depend on the contexts of nodes in which nothing changed |
| TransitionGrid.CellsClose | resources/percona-toolkit/src/go/pt-galera-log-explainer/display/timelinecli.go:356-365 | Every summary row is closed by exactly one tab |
| TransitionGrid.BlockAligned | resources/percona-toolkit/src/go/pt-galera-log-explainer/display/timelinecli.go:253-260 | If no text compared has a tab, every row of the block has one cell per column, and the whole separator one cell per column and date for each of its rows |
| HtmlEscaping.HtmlToText | resources/percona-toolkit/util/NaturalDocs/JavaScript/GooglePrettify.js:263-292 | The loop over numeric references, with the string changing under it, ends and computes the unescaping that the lemmas are about |
| HtmlEscaping.ReplaceReference | resources/percona-toolkit/util/NaturalDocs/JavaScript/GooglePrettify.js:270-283 | The body of the loop: a reference that ends and can be read is replaced by its character, any other stays |
| HtmlEscaping.EscapingRoundTrip | resources/percona-toolkit/util/NaturalDocs/JavaScript/GooglePrettify.js:241-292 | Unescaping gives back every string after either escaping, entity-like text included |
| HtmlEscaping.UnescapeOfCoded | resources/percona-toolkit/util/NaturalDocs/JavaScript/GooglePrettify.js:263-292 | Unescaping gives back the characters of every text, whichever of its markup characters and hard spaces were written as entities, if ampersands were |
| HtmlEscaping.TextIsCoded | resources/percona-toolkit/util/NaturalDocs/JavaScript/GooglePrettify.js:241-253 | The replacements made one after another write each character on its own: ampersands first leaves no entity escaped twice |
| HtmlEscaping.EscapedHasNoMarkup | resources/percona-toolkit/util/NaturalDocs/JavaScript/GooglePrettify.js:241-253 | Escaped text has no bare angle bracket, nor an escaped attribute a quote |
| HtmlEscaping.ReferenceReplaced | resources/percona-toolkit/util/NaturalDocs/JavaScript/GooglePrettify.js:269-284 | In any text, its only numeric reference becomes the character that its text from the second character on stands for, and stays as it is if that is no number |
| HtmlEscaping.NamedEntity | resources/percona-toolkit/util/NaturalDocs/JavaScript/GooglePrettify.js:285-291 | Each of the six named entities gives its character wherever it stands first, and the rest is unescaped as if on its own |
| HtmlEscaping.ReferenceIsRead | resources/percona-toolkit/util/NaturalDocs/JavaScript/GooglePrettify.js:263-292 | The same of a whole text that is one reference, after all unescaping |
| HtmlEscaping.ReferenceInContext | resources/percona-toolkit/util/NaturalDocs/JavaScript/GooglePrettify.js:263-292 | In any text, the only reference gives its character in its place and the rest is unescaped as on its own, if and only if the character is no ampersand that what follows makes an entity of |
| HtmlEscaping.ReadRightInContext | resources/percona-toolkit/util/NaturalDocs/JavaScript/GooglePrettify.js:263-292 | The same of a reference that is read right, and the character it means |
| HtmlEscaping.UnescapedAgain | resources/percona-toolkit/util/NaturalDocs/JavaScript/GooglePrettify.js:269-291 | Input: an ampersand written as a reference before the rest of an entity is unescaped once more |
| HtmlEscaping.ReferenceReadRight | resources/percona-toolkit/util/NaturalDocs/JavaScript/GooglePrettify.js:272-283 | The number read is the one meant if and only if the reference is decimal, longer than one digit and starts with a nought, or hexadecimal with a single decimal digit after noughts |
| HtmlEscaping.FirstDigitIgnored | resources/percona-toolkit/util/NaturalDocs/JavaScript/GooglePrettify.js:272-283 | Input: the references of 65 and of 75 both give the character of 5 |
| HtmlEscaping.HexadecimalReadAsDecimal | resources/percona-toolkit/util/NaturalDocs/JavaScript/GooglePrettify.js:272-278 | Input: the hexadecimal reference of 65 gives the character of 41 |
| TabExpansion.TabExpander.Expand | resources/percona-toolkit/util/NaturalDocs/JavaScript/GooglePrettify.js:619-653 | One chunk is expanded from the column where the last one ended, and the new column is kept: all of the chunk but its tabs comes out in order and unchanged, and each tab as as many spaces as lead to the next multiple of the tab width; with a width of zero tabs are dropped |
| TabExpansion.PushSpaces | resources/percona-toolkit/util/NaturalDocs/JavaScript/GooglePrettify.js:636-640 | The buffer of sixteen spaces yields any number of spaces and nothing else |
| TabExpansion.ExpandedIsExpansion | resources/percona-toolkit/util/NaturalDocs/JavaScript/GooglePrettify.js:619-653 | The same of the text that is specified, for any column and width |
| TabExpansion.NoTabsUnchanged | resources/percona-toolkit/util/NaturalDocs/JavaScript/GooglePrettify.js:619-653 | A text without tabs comes out unchanged, whatever its column |
| TabExpansion.ExpandedConcat | resources/percona-toolkit/util/NaturalDocs/JavaScript/GooglePrettify.js:608-614 | Expanding chunk after chunk is expanding the whole text |
| TabExpansion.NoTabsLeft | resources/percona-toolkit/util/NaturalDocs/JavaScript/GooglePrettify.js:619-653 | No tab is left |
| TabExpansion.ColumnIsShown | resources/percona-toolkit/util/NaturalDocs/JavaScript/GooglePrettify.js:622-648 | The column kept is where the expanded text really ends |
| TabExpansion.TabReachesNextStop | resources/percona-toolkit/util/NaturalDocs/JavaScript/GooglePrettify.js:632-637 | A tab ends at the next multiple of the tab width, passing none |
| ChunkSpacing.PresentedIsSpaced | resources/percona-toolkit/util/NaturalDocs/JavaScript/GooglePrettify.js:1111-1115 | Both regular replacements only write some spaces of the escaped chunk as hard ones, never touching an entity; a space is hard if and only if it follows a plain space or a line end, or starts the chunk and the last chunk ended with one (in such a chunk also after the two other line terminators) |
| ChunkSpacing.SpacedNeverCollapses | resources/percona-toolkit/util/NaturalDocs/JavaScript/GooglePrettify.js:1085-1089 | No plain space is left after a line end or another plain space, nor at a start that follows one |
| ChunkSpacing.CollapseConcat | resources/percona-toolkit/util/NaturalDocs/JavaScript/GooglePrettify.js:1116-1118 | Remembering whether the last chunk ended with a space carries this from chunk to chunk |
| ChunkSpacing.HardConcat | resources/percona-toolkit/util/NaturalDocs/JavaScript/GooglePrettify.js:1106-1118 | The same for the other half of the property: chunk after chunk, no space is hard without need |
| ChunkSpacing.EndsAsLast | resources/percona-toolkit/util/NaturalDocs/JavaScript/GooglePrettify.js:1116-1118 | The test on the escaped chunk tells whether its last character is a space or a line end |
| LineBreaks.BrokenConcat | resources/percona-toolkit/util/NaturalDocs/JavaScript/GooglePrettify.js:1119-1122 | Chunks broken one by one are the whole broken, save that a line end cut in two is broken twice |
| LineBreaks.LineIsBroken | resources/percona-toolkit/util/NaturalDocs/JavaScript/GooglePrettify.js:1119-1122 | A line without line ends is kept, its end of one or of two characters becomes one line break, and the rest is broken as if on its own |
| LineBreaks.NoLineEndsLeft | resources/percona-toolkit/util/NaturalDocs/JavaScript/GooglePrettify.js:1119-1122 | Every line end becomes a line break |
| Recombination.Recombiner.Recombine | resources/percona-toolkit/util/NaturalDocs/JavaScript/GooglePrettify.js:1070-1166 | A strict reader accepts the page: every stretch of the source once and in order, under its own style, tags in order at their positions outside every span, no span inside another or left open. The text shown is the expanded source and keeps its white space, with no space hard that would not collapse; the text written is that text escaped and broken into lines, with exactly one line break more for each line end that a tag or style cuts in two |
| Recombination.CutLineEndBreaksTwice | resources/percona-toolkit/util/NaturalDocs/JavaScript/GooglePrettify.js:1119-1122 | Input: a line end with a style inside is written as long as two line breaks |
| Recombination.Recombiner.EmitTextUpTo | resources/percona-toolkit/util/NaturalDocs/JavaScript/GooglePrettify.js:1091-1125 | Emitting up to a position leaves the page readable, with the source written up to there |
| Recombination.Recombiner.EmitChunk | resources/percona-toolkit/util/NaturalDocs/JavaScript/GooglePrettify.js:1111-1123 | One chunk is expanded, escaped, spaced and broken, continuing the text shown |
| Recombination.Recombiner.EmitTag | resources/percona-toolkit/util/NaturalDocs/JavaScript/GooglePrettify.js:1144-1152 | A tag is written outside every span, as the next one, at its position |
| Recombination.ShowsMore | resources/percona-toolkit/util/NaturalDocs/JavaScript/GooglePrettify.js:1111-1123 | What one more chunk keeps of the text shown, the column, the trailing space and the line breaks |
| Recombination.BrokenFurther | resources/percona-toolkit/util/NaturalDocs/JavaScript/GooglePrettify.js:1119-1122 | One more chunk is one line break more exactly if it begins within a line end |
| Recombination.Job.ConsumeTag | resources/percona-toolkit/util/NaturalDocs/JavaScript/GooglePrettify.js:1130-1152 | A tag that is not after the next style has nothing else before it, and one style up to it |
| Recombination.Job.ConsumeDecoration | resources/percona-toolkit/util/NaturalDocs/JavaScript/GooglePrettify.js:1153-1156 | A style before the next tag has nothing else before it, and one style up to it |
| Recombination.LastStyleIs | resources/percona-toolkit/util/NaturalDocs/JavaScript/GooglePrettify.js:1153-1156 | The style that holds is that of the last decoration consumed |
| CaseFolding.CaseFoldRanges | resources/percona-toolkit/util/NaturalDocs/JavaScript/GooglePrettify.js:435-459 | The ranges printed denote exactly the set and the other case of each ASCII letter in it, ascending with a gap between neighbours |
| CaseFolding.Consolidate | resources/percona-toolkit/util/NaturalDocs/JavaScript/GooglePrettify.js:450-459 | Consolidating sorted ranges keeps what they denote and leaves them in normal form |
| CaseFolding.SortSorts | resources/percona-toolkit/util/NaturalDocs/JavaScript/GooglePrettify.js:449-449 | The comparator's order is reached |
| CaseFolding.ExpandedFolds | resources/percona-toolkit/util/NaturalDocs/JavaScript/GooglePrettify.js:435-444 | The ranges pushed for one range denote its characters and the other case of its letters |
| CaseFolding.NormalFormUnique | resources/percona-toolkit/util/NaturalDocs/JavaScript/GooglePrettify.js:447-459 | A set has one normal form only, so what is printed depends on nothing but the set |
| RoundRobin.WeightedRoundRobin.GetNextServer | resources/awesome-system-design/implementations/java/load_balancing_algorithms/WeightedRoundRobin.java:16-29 | Each call ends after at most one step per server and returns the next of one endless list of picks |
| RoundRobin.WeightedRoundRobin.Step | resources/awesome-system-design/implementations/python/load_balancing_algorithms/weighted_round_robin.py:10-14 | Moves on to the next server, and to the next level of weights after the last one |
| RoundRobin.MaxWeight | resources/awesome-system-design/implementations/java/load_balancing_algorithms/WeightedRoundRobin.java:31-33 | The largest weight, or 0 without weights |
| RoundRobin.LevelsRepeat | resources/awesome-system-design/implementations/python/load_balancing_algorithms/weighted_round_robin.py:11-14 | The levels start over after as many passes as the largest weight |
| RoundRobin.PicksRepeat | resources/awesome-system-design/implementations/python/load_balancing_algorithms/weighted_round_robin.py:9-16 | The picks start over with them |
| RoundRobin.CycleIsFair | resources/awesome-system-design/implementations/python/load_balancing_algorithms/weighted_round_robin.py:9-16 | One cycle picks each server as often as its weight; without positive weights only the largest count |
| RoundRobin.CycleLength | resources/awesome-system-design/implementations/python/load_balancing_algorithms/weighted_round_robin.py:9-16 | A cycle is as long as the shares together |
| RoundRobin.ExactlyFair | resources/awesome-system-design/implementations/java/load_balancing_algorithms/WeightedRoundRobin.java:16-29 | In every run, each consecutive block of as many calls as the shares add up to serves each server exactly its share |
| ConsistentHashing.HashRing.AddServer | resources/awesome-system-design/implementations/python/consistent_hashing/consistent-hashing.py:25-36 | Collisions or not, the server takes exactly the hashes of its own name, a hyphen and the numerals below the number of replicas, and keys move to it only; without collisions the ring stays the one its servers should have; the sorted list gets its positions again if it was there |
| ConsistentHashing.HashRing.AddServers | resources/awesome-system-design/implementations/python/consistent_hashing/consistent-hashing.py:17-19 | The loop of the constructor: new servers, each listed once, are none of them added again |
| ConsistentHashing.PointsArePositions | resources/awesome-system-design/implementations/python/consistent_hashing/consistent-hashing.py:31-36 | The positions of a server are the hashes of its name, a hyphen and a numeral without leading nought whose value is below the number of replicas, and no others |
| ConsistentHashing.NodeNameUnique | resources/awesome-system-design/implementations/python/consistent_hashing/consistent-hashing.py:31-36 | No two virtual nodes have one name, whatever hyphens and digits the names of servers have |
| ConsistentHashing.CollisionFreeExactly | resources/awesome-system-design/implementations/python/consistent_hashing/consistent-hashing.py:31-36 | There is no collision if and only if the hash tells the names of the virtual nodes apart |
| ConsistentHashing.InjectiveHash | resources/awesome-system-design/implementations/python/consistent_hashing/consistent-hashing.py:21-36 | With a hash that tells all strings apart no servers collide, so what is proved without collisions holds of all of them |
| Numerals.DigitIs | resources/percona-toolkit/util/NaturalDocs/JavaScript/GooglePrettify.js:274-279 | The digits of radix ten and sixteen, small or capital, stand for the numbers in order, and nothing else is a digit |
| Numerals.DecimalIs | resources/awesome-system-design/implementations/python/consistent_hashing/consistent-hashing.py:31-36 | A number is written as decimal digits without a leading nought, whose value it is |
| Numerals.DecimalOfValue | resources/awesome-system-design/implementations/python/consistent_hashing/consistent-hashing.py:31-36 | Every such numeral is the one its value is written as |
| ConsistentHashing.HashRing.RemoveServer | resources/awesome-system-design/implementations/python/consistent_hashing/consistent-hashing.py:38-47 | Collisions or not, every position to remove is in the list, and keys of other servers move if and only if a position of theirs is taken whose successor is not theirs; without collisions none move and the ring becomes that of one server less |
| ConsistentHashing.HashRing.GetServer | resources/awesome-system-design/implementations/python/consistent_hashing/consistent-hashing.py:49-62 | Collisions or not, answers from the first position of the list strictly after the hash, going round; that is the owner if every server added again is still there |
| ConsistentHashing.HashRing.ListStrict | resources/awesome-system-design/implementations/python/consistent_hashing/consistent-hashing.py:36-36 | Without collisions and servers added again the list is strictly ascending |
| ConsistentHashing.HashRing.NoKeyErrorOverRun | resources/awesome-system-design/implementations/python/consistent_hashing/consistent-hashing.py:25-62 | Over any run, collisions or not: no look-up fails if and only if of no position of a server that is there, or was added while it was there, the last change was a removal |
| ConsistentHashing.HashRing.NoKeyError | resources/awesome-system-design/implementations/python/consistent_hashing/consistent-hashing.py:61-62 | Over any run without collisions this means that every server that was ever added while it was there is there now |
| ConsistentHashing.HashRing.NoKeyErrorInList | resources/awesome-system-design/implementations/python/consistent_hashing/consistent-hashing.py:61-62 | Collisions or not: no look-up fails if and only if the list has only keys of the ring |
| ConsistentHashing.HashRing.ListHoldsRing | resources/awesome-system-design/implementations/python/consistent_hashing/consistent-hashing.py:35-47 | The keys of the ring are in the list; without collisions all else there is positions of servers added again |
| ConsistentHashing.LookUpAfterAddingAgain | resources/awesome-system-design/implementations/python/consistent_hashing/consistent-hashing.py:25-62 | Input: two servers, one of them added twice and removed once, leave a position at which a look-up fails |
| ConsistentHashing.LookUpAfterCollision | resources/awesome-system-design/implementations/python/consistent_hashing/consistent-hashing.py:25-62 | Input: of two servers that share a position, the second takes it away when it goes, and a look-up at it fails |
| ConsistentHashing.Bisect | resources/awesome-system-design/implementations/python/consistent_hashing/consistent-hashing.py:61-61 | The place after all keys up to the hash |
| ConsistentHashing.Insort | resources/awesome-system-design/implementations/python/consistent_hashing/consistent-hashing.py:36-36 | Keeps the list sorted and adds one position |
| ConsistentHashing.RemoveFirst | resources/awesome-system-design/implementations/python/consistent_hashing/consistent-hashing.py:47-47 | Keeps the list sorted and takes one position away |
| ConsistentHashing.TreeRing.AddServer | resources/awesome-system-design/implementations/java/consistent_hashing/ConsistentHashing.java:37-43 | The server takes exactly the hashes of its own name, a hyphen and the numerals below the number of replicas, collisions or not, and keys move to it only; with none it is the ring of one more server |
| ConsistentHashing.TreeRing.RemoveServer | resources/awesome-system-design/implementations/java/consistent_hashing/ConsistentHashing.java:45-52 | The ring without the positions of a server that was there; keys of other servers move if and only if a position of theirs is taken whose successor is not theirs, and without collisions none do |
| ConsistentHashing.TreeRing.GetServer | resources/awesome-system-design/implementations/java/consistent_hashing/ConsistentHashing.java:54-67 | Answers with the owner of the first position at or after the hash, going round; nothing exactly when the ring is empty |
| ConsistentHashing.CeilingKey | resources/awesome-system-design/implementations/java/consistent_hashing/ConsistentHashing.java:60-61 | The least key not below the hash |
| ConsistentHashing.RingUnique | resources/awesome-system-design/implementations/python/consistent_hashing/consistent-hashing.py:13-15 | The ring is a function of the current servers, whatever their history |
| ConsistentHashing.RingWith | resources/awesome-system-design/implementations/java/consistent_hashing/ConsistentHashing.java:37-43 | Adding the positions of a server to the ring of some servers gives the ring of one more |
| ConsistentHashing.RingWithout | resources/awesome-system-design/implementations/java/consistent_hashing/ConsistentHashing.java:45-52 | Removing them gives the ring of one less |
| ConsistentHashing.NextUnique | resources/awesome-system-design/implementations/java/consistent_hashing/ConsistentHashing.java:60-65 | A hash has one next position only |
| ConsistentHashing.AddingMovesOnlyToNew | resources/awesome-system-design/implementations/java/consistent_hashing/ConsistentHashing.java:37-67 | Adding a server to a ring leaves each key with its owner or moves it to the new server |
| ConsistentHashing.RemovingMoves | resources/awesome-system-design/implementations/python/consistent_hashing/consistent-hashing.py:38-62 | Without collisions, removing a server from the ring of some servers moves only keys it owned |
| ConsistentHashing.RemovalMoves | resources/awesome-system-design/implementations/java/consistent_hashing/ConsistentHashing.java:45-67 | For any ring and positions: taking them away moves keys of another server if and only if it takes one of its positions and the next position left is not its own |
| ConsistentHashing.OthersKeyMoves | resources/awesome-system-design/implementations/java/consistent_hashing/ConsistentHashing.java:45-67 | Input: taking away a position of one server on behalf of another moves a key |
| ConsistentHashing.AddRemoveRestores | resources/awesome-system-design/implementations/java/consistent_hashing/ConsistentHashing.java:37-52 | Adding and removing a server restores the ring if and only if none of its positions was taken from another |
| ConsistentHashing.OrderMatters | resources/awesome-system-design/implementations/java/consistent_hashing/ConsistentHashing.java:37-43 | Two servers may come in either order if and only if they have no position in common |
| RateLimiting.TokenBucket.AllowRequest | resources/awesome-system-design/implementations/python/rate_limiting/token_bucket.py:8-21 | A request is granted if and only if, counted from the creation and from every earlier call, it stays within a full bucket and what flows in meanwhile; holds of every clock and every request |
| RateLimiting.TokenBucket.Refill | resources/awesome-system-design/implementations/java/rate_limiting/TokenBucket.java:29-35 | Refilled at the rate up to the capacity, and the clock remembered |
| RateLimiting.HoldsAfter | resources/awesome-system-design/implementations/java/rate_limiting/TokenBucket.java:18-35 | The tokens kept stay the least of what is left counting from the creation or any call |
| RateLimiting.AllowsIffEnough | resources/awesome-system-design/implementations/java/rate_limiting/TokenBucket.java:21-23 | The comparison with the tokens decides the bound over the whole history |
| RateLimiting.StretchBounded | resources/awesome-system-design/implementations/python/rate_limiting/token_bucket.py:8-21 | No stretch of any run is granted more than the capacity and what flows in between its first and last call |
| RateLimiting.SlidingWindowLog.AllowRequest | resources/awesome-system-design/implementations/python/rate_limiting/sliding_window_log.py:10-21 | For every clock the request is accepted if and only if the log has room after the eviction; while the clock does not run back, what is left after it is exactly the accepted instants of the window that ends now; with a limit of one, accepted instants are a window apart whatever the clock does |
| RateLimiting.ClockRunsBack | resources/awesome-system-design/implementations/python/rate_limiting/sliding_window_log.py:10-21 | For every window, every step back of the clock and every limit of at least two there is a run that steps back only there and accepts more than the limit within one window |
| RateLimiting.ApartBounded | resources/awesome-system-design/implementations/python/rate_limiting/sliding_window_log.py:10-21 | With a limit of one no interval of the length of the window holds two, whatever the clock does |
| RateLimiting.LogMore | resources/awesome-system-design/implementations/java/rate_limiting/SlidingWindowLog.java:22-29 | What accepting one more request keeps |
| RateLimiting.WithinIsRecent | resources/awesome-system-design/implementations/java/rate_limiting/SlidingWindowLog.java:20-25 | An interval of the length of the window lies in the window of its last instant |
| RateLimiting.IntervalBounded | resources/awesome-system-design/implementations/python/rate_limiting/sliding_window_log.py:10-21 | No half-open interval of the length of the window holds more than the maximum of accepted instants, as the clock reads them, in any run |
| RateLimiting.WholeSecondsBounded | resources/awesome-system-design/implementations/java/rate_limiting/SlidingWindowLog.java:18-32 | With a clock of whole seconds the same holds in real time of intervals one second shorter |
| RateLimiting.WholeSecondsExceeded | resources/awesome-system-design/implementations/java/rate_limiting/SlidingWindowLog.java:18-32 | Input: with such a clock two requests are accepted in one real interval of the length of the window that allows one |
| DuplicateIndexes.BuildComparableKey | resources/percona-toolkit/src/go/pt-mongodb-index-check/indexes/duplicated.go:33-39 | The loop builds the comparable key |
| DuplicateIndexes.Sort | resources/percona-toolkit/src/go/pt-mongodb-index-check/indexes/duplicated.go:94-96 | Sorted by comparable key, nothing lost |
| DuplicateIndexes.FindDuplicated | resources/percona-toolkit/src/go/pt-mongodb-index-check/indexes/duplicated.go:88-116 | Of any two indexes of the collection the shorter key is reported as the duplicate of the longer if and only if it is a prefix of it; of two equal keys exactly one order is reported if no index is listed twice |
| DuplicateIndexes.PairsExact | resources/percona-toolkit/src/go/pt-mongodb-index-check/indexes/duplicated.go:98-113 | The half scan meets each pair of an earlier and a later position once |
| DuplicateIndexes.LosesNothing | resources/percona-toolkit/src/go/pt-mongodb-index-check/indexes/duplicated.go:94-113 | However equal keys were ordered, of two keys one of which is a prefix of the other exactly one order is reported |
| DuplicateIndexes.ReportedExactly | resources/percona-toolkit/src/go/pt-mongodb-index-check/indexes/duplicated.go:94-113 | Whatever the sort does with equal keys, the half scan settles every pair of indexes |
| DuplicateIndexes.ReportedOnce | resources/percona-toolkit/src/go/pt-mongodb-index-check/indexes/duplicated.go:94-113 | Of two different indexes with equal keys exactly one is reported as the duplicate of the other |
| Ordering.PrefixIsLess | resources/percona-toolkit/src/go/pt-mongodb-index-check/indexes/duplicated.go:94-100 | A proper prefix sorts before, which is why half a scan suffices |
| Ordering.FirstDifferenceDecides | resources/percona-toolkit/src/go/pt-mongodb-index-check/indexes/duplicated.go:94-100 | Two keys are ordered by the first characters in which they differ |
| DuplicateIndexes.FieldsPrefixIsKeyPrefix | resources/percona-toolkit/src/go/pt-mongodb-index-check/indexes/duplicated.go:33-54 | If the signed fields of an index are the first of another's, its key is a prefix |
| DuplicateIndexes.ReportIsRight | resources/percona-toolkit/src/go/pt-mongodb-index-check/indexes/duplicated.go:33-54 | For all names, directions and kinds: a reported index is a prefix of the other if and only if its names are as long as those of the first fields of the other and fields at one place are ordered alike |
| DuplicateIndexes.PrefixIsFound | resources/percona-toolkit/src/go/pt-mongodb-index-check/indexes/duplicated.go:33-54 | For all names, directions and kinds: an index that is a prefix of another has a key that is one if and only if no field descends by a 64-bit integer in one index only |
| DuplicateIndexes.OrdinaryNumbers | resources/percona-toolkit/src/go/pt-mongodb-index-check/indexes/duplicated.go:41-54 | On the two number types the code reads, prefixes are always found, and reports are right but for names |
| DuplicateIndexes.SignedFieldsAgree | resources/percona-toolkit/src/go/pt-mongodb-index-check/indexes/duplicated.go:33-54 | The signs and names agree if and only if the names align |
| DuplicateIndexes.HashedReported | resources/percona-toolkit/src/go/pt-mongodb-index-check/indexes/duplicated.go:41-53 | Input: an ascending and a hashed index on one field have one key, and one is reported |
| DuplicateIndexes.EqualNotReported | resources/percona-toolkit/src/go/pt-mongodb-index-check/indexes/duplicated.go:41-53 | Input: two equal descending indexes, one of them by a 64-bit integer, are not reported |
| DuplicateIndexes.KeyPrefixMeans | resources/percona-toolkit/src/go/pt-mongodb-index-check/indexes/duplicated.go:33-39 | The special case of names free of signs: only the last name can have been cut short |
| DuplicateIndexes.NameCutShort | resources/percona-toolkit/src/go/pt-mongodb-index-check/indexes/duplicated.go:33-39 | Input: an index on one field is reported as a prefix of one on a field whose name only begins alike |
| DuplicateIndexes.SignInName | resources/percona-toolkit/src/go/pt-mongodb-index-check/indexes/duplicated.go:33-54 | Input: a sign in a name makes the keys of two indexes without a common field equal, and one is reported |

## Left out

- WhoisTree.WhoisNode.Filter: the map of subnodes that copies of a value share is modelled as part of the values of the node, and the loop over the forced order of types is unrolled.
- WhoisTree.WhoisNode.AddKey: the update of the copy has no effect and is modelled as none.
- Translations.Tables.AddHashToNodeName: the test for an IPv4 address is a parameter, and the length of a name is counted in characters. Locks are left out, each method being one atomic step.
- TranslationHistory.CompressionSound: is the special case of facts in order of time; CompressionExact is about any order.
- TranslationHistory.CompressedEnd: is about facts in order of time; CompressedIsRuns says what is kept of facts in any order.
- TranslationHistory.AnswersStep: is about facts in order of time, where agreement is decided fact by fact; in other orders a later fact can repair an earlier disagreement, and CompressionExact decides.
- LogEvents.LocalTimeline.Add: an event's message is a fixed value, whereas displayers may read the translation tables when they are called; the aliasing of slices by `append` is not modelled.
- TimelineMerge.MergeTimeline: the spare capacity of a slice, into which `append` may write, is not modelled: two results that extend one timeline could share it.
- TimelineMerge.MergedKnowsBoth: contexts are modelled with the fields that merging and the display read or write; the state, transfers, member counts and other fields of a context, which neither changes, are left out.
- TimelineMerge.MergeExact: is about logs in which every event is dated; the method itself is modelled on all timelines.
- TimelineMerge.MergeWindows: is the special case of logs in which no two events share an instant.
- TimelineFold.FoldIsUnion: is about logs in which no two events share an instant, and is a sufficient condition: a later file can bring back what was lost or drop what was kept twice. How a file gets its node is a parameter.
- TimelineDisplay.Timeline.Display: a row is what is taken at one date, before verbosity hides cells or a whole line. Messages, colours, headers, footers, column widths and the removal of empty columns are presentation.
- TransitionGrid.Transitions.Iterate: painting is left out, the texts are kept.
- HtmlEscaping.HtmlToText: `parseInt` and `String.fromCharCode` are a parameter, arbitrary in the round trips; ReferenceReadRight takes the first as parsing digits and the second as any function of the code.
- TabExpansion.TabExpander.Expand: with a width of zero the original counts columns with a number that is none; the model keeps the column, which nothing then depends on.
- Recombination.Recombiner.Recombine: the tab width of the page is positive; positions and payloads, alternating in flat arrays, are modelled as pairs; pieces of the page are kept apart until they are joined; no style and the empty style, which the code never tells apart, are one.
- CaseFolding.CaseFoldRanges: takes the ranges of a character set; reading it from the text of a regular expression and printing it are left out.
- RoundRobin.WeightedRoundRobin.GetNextServer: servers and weights have the same positive length; with fewer weights the original fails on an index, with no servers on a division.
- ConsistentHashing.HashRing.AddServer: MD5 is an arbitrary function from strings to natural numbers; InjectiveHash and CollisionFreeExactly say what freedom from collisions asks of it.
- RateLimiting.TokenBucket.AllowRequest: floating-point numbers are reals and the clock is a parameter; so are the default of one token and the conversion from milliseconds.
- RateLimiting.SlidingWindowLog.AllowRequest: the instants are those that the clock reads.
- DuplicateIndexes.FindDuplicated: takes the indexes of a collection; reading them from the server, the namespace and copying the keys are left out. The library sort is modelled by an insertion sort, and what is proved about reports does not depend on how equal keys are ordered.
- DuplicateIndexes.KeyPrefixMeans: is the special case of field names without signs; ReportIsRight and PrefixIsFound are about all names.
- Library sorts and the walk over a map in unspecified order are modelled by an explicit sort and by choosing any remaining key.
- Regular expressions and log-line handlers, file reading, command lines, the SimplestInfo helpers and the merging of files by directory or pod name.
- The MongoDB, PostgreSQL and Kubernetes collectors, the Prettify lexer and everything that touches the browser's documents.
- The other limiters and load balancers, sqlcheck, the fingerprinter and the sanitiser, whose properties are weaker forms of those above or tables.
