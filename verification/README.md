# git-vista, verified

A Dafny model of the parts of git-vista where events, lanes, lines and records are merged,
dropped or rearranged, and proofs of what survives.

Seven areas are modelled. Each has a file of definitions (functions on values, with the
program's loops and mutable objects as methods and classes proved equal to them) and one or
more files of theorems about those functions.

| area | definitions | theorems |
|---|---|---|
| activity feed | `Activity.dfy`, `Feed.dfy`, `FeedAssembly.dfy` (the loops) | `FeedStages.dfy`, `FoldTheorems.dfy`, `FoldLaws.dfy`, `FetchFlow.dfy`, `FetchMoments.dfy`, `FeedFields.dfy`, `FeedResolution.dfy`, `FeedLaws.dfy` |
| commit-graph lanes | `Lanes.dfy`, `CommitGraph.dfy` (the mutable table and its loops) | `LaneTheorems.dfy` |
| conflict markers | `Markers.dfy` | `MarkerTheorems.dfy`, `MarkerLaws.dfy` |
| repository generation | `Generation.dfy` (class `GenerationInputs`) | `GenerationTheorems.dfy` |
| diff listings | `Diff.dfy` (folding into an array in place) | `DiffTheorems.dfy` |
| virtualized list | `Virtualize.dfy` | same file |
| seed reset | `Seed.dfy` | `SeedTheorems.dfy` |

`Basics.dfy` and `Sorting.dfy` stand for the standard-library operations the program calls:
options, trimming, prefixes, decimal numbers, stable sorting, filtering.

How things are represented: times and counts are unbounded integers; heights are reals;
strings are sequences of characters, except in `Generation.dfy`, where a string is its UTF-8
bytes because their number is written into the stream; Rust's string order is the order of code
points; a hash map is a map and a hash set a set; `retain`, `partition` and `iter().filter` are
`Filter`, and `sort_by_key` is the stable `Sort`.

## What the proofs found

- **A fetch of N refs reads "N refs updated" exactly when nothing is left near it that neither the
  journal nor the reflog speaks for.** `FetchMoments.FetchIsCountedIff` proves it for any journal
  and reflog around the fetch: a line of a remote branch, within five seconds, that the journal does
  not echo, or a line of HEAD that no branch and no journaled tip explains, and the feed no longer
  shows that one row (`FetchMoments.UnjournaledRefSpoilsTheCount` is such an input).
  `FetchFlow.OneFetchIsOneRow` says it of a whole feed with no other fetch in it.
- **The row never counts a ref twice, however late the batch is journaled.** The comment at
  activity.rs:1001-1006 fears 2N when the batch's moment drifts past the five seconds within which
  it absorbs git's lines. A line can join the row only within five seconds of it too, and there the
  batch absorbs it: `FetchMoments.DriftNeverDoubles`.
- **A scroll range can always slice the list exactly when no item is shorter than the viewport is
  negative** (`Virtualize.RangeIsUsableIff`). The doc at virtualize.rs:34-35 promises it
  unconditionally; a negative viewport height breaks it, a non-negative one never does.
- **A viewport of height zero at the top of the list shows nothing, yet overscan draws items.**
  `Virtualize.RangeIsWidenedOverlapIff` gives the exact condition under which the range is the
  visible items widened by the overscan: the viewport's bottom edge lies below the list's top, or
  there is no overscan. `Virtualize.FlatViewportStillDraws` is an input that misses it.
- **More lanes are held than lines of history cross exactly when some row lists twice, as an extra
  parent, a commit in the window that no earlier row lists** (`LaneTheorems.OccupiedIsLinesIff`).
  The lanes are then opened one per listing, and a column can stay blank:
  `LaneTheorems.RepeatedParentWastesAColumn` is a history of four commits that draws four columns
  for three lines. Other repeats are harmless, and lane exclusivity and inheritance hold with any.
- **A HEAD reflog line is absorbed by a journal event on any ref** with the same kind, tip and
  moment: the code asks of HEAD only that the reflog name be `HEAD` (activity.rs:517).
  `FeedStages.HeadMovementIsShownIff` says exactly which HEAD lines stay listed, and
  `FeedStages.AnotherBranchAbsorbsHead` is a rebase of HEAD that a journal line about another
  branch removes from the feed.
- **A seed that lists one branch at two tips is accepted, and no reset ever reaches it.** The parser
  refuses malformed lines but not this (`SeedTheorems.TwoTipsAreAccepted`), although seed.rs:31-33
  promises that a corrupt seed refuses to run. A reset leaves nothing to plan exactly when the seed
  names no branch at two tips (`SeedTheorems.ReplanningIsEmptyIff`).
- The "empty branch name" error of the seed parser can never occur: after trimming, a line with a
  separator has a name (`SeedTheorems.LineIsReadIff`).
- The blocks the marker parser can produce are exactly the canonical ones
  (`MarkerLaws.CanonicalIffParsed`): sides may hold opening markers, the last context may hold an
  opening that is never closed, nothing else varies.

## Model

| member | source | states |
|---|---|---|
| `FeedAssembly.AssembleFeed` | crates/git-vista-core/src/activity.rs:677-848 | the whole pipeline computes `Assembled`, about which the feed theorems are proved |
| `FeedAssembly.CoalesceReflog` | crates/git-vista-core/src/activity.rs:684-750 | the index loop over the reflog gives one event per line or whole rebase |
| `FeedAssembly.EndOfRebase` | crates/git-vista-core/src/activity.rs:699-710 | the inner loop stops at the last consecutive rebase line of the same ref |
| `FeedAssembly.FoldRefUpdateBursts` | crates/git-vista-core/src/activity.rs:1032-1055 | partitioning and grouping kind by kind computes `FoldBursts` |
| `FeedAssembly.FoldOneKindInto` | crates/git-vista-core/src/activity.rs:1071-1118 | the peeking loop appends one row per burst of the sorted group |
| `FeedAssembly.MeasureBurst` | crates/git-vista-core/src/activity.rs:1077-1089 | the inner loop takes exactly the burst, and knows whether the app made any of it |
| `FeedAssembly.AttachHints` | crates/git-vista-core/src/activity.rs:808-811 | every row gets the hint for the current branches |
| `FeedAssembly.ResolveBatches` | crates/git-vista-core/src/activity.rs:836-846 | every batch reference and unreadable capture is resolved, nothing else changes |
| `FeedStages.SpansJoinToTheReflog` | crates/git-vista-core/src/activity.rs:684-750 | the reflog is cut into pieces that join to it again, so every entry is merged into exactly one action or dropped as a self-checkout |
| `FeedStages.SpansAreActions` | crates/git-vista-core/src/activity.rs:698-711 | a piece of several lines holds only rebase lines of one ref |
| `FeedStages.RebasesAreWhole` | crates/git-vista-core/src/activity.rs:698-711 | no rebase is split between two events |
| `FeedStages.StepsAreCounted` | crates/git-vista-core/src/activity.rs:698-749 | a rebase of n > 1 lines is one event of "n steps", and the lines of all actions add up to the reflog |
| `FeedStages.EventsSayTheirLines` | crates/git-vista-core/src/activity.rs:712-749 | an action is told with its newest line's time, ref and new tip and its oldest line's old tip; a single line with the kind and words read from it |
| `FeedStages.CoalescingTelescopes` | crates/git-vista-core/src/activity.rs:684-750 | if a ref's lines lead without a break from its newest tip to its oldest, so do the events stage 1 leaves on it |
| `FeedStages.SelfCheckoutIff` | crates/git-vista-core/src/activity.rs:635-655 | a checkout line between two refs is dropped iff they are the same: the line is split at its last " to " |
| `FeedFields.MessageKinds` | crates/git-vista-core/src/activity.rs:560-633 | a message is of a kind iff, trimmed, it begins as that kind's do; no two kinds claim one |
| `FeedFields.MessageWords` | crates/git-vista-core/src/activity.rs:560-633 | commits, cherry-picks and reverts show their subject |
| `FeedFields.OtherWords` | crates/git-vista-core/src/activity.rs:560-633 | messages that are not cut short show whole |
| `FeedFields.CheckoutWords` | crates/git-vista-core/src/activity.rs:586-594 | a checkout shows where it went from and to |
| `FeedStages.NoMovementIsLost` | crates/git-vista-core/src/activity.rs:756-795 | for every stage-1 event the fold's input holds one of the same kind and new tip within seven seconds |
| `FeedStages.NoActionIsLost` | crates/git-vista-core/src/activity.rs:684-795 | for every logged action the fold's input holds an event of its kind and new tip within seven seconds of its newest line |
| `FeedStages.BranchMovementIsShownIff` | crates/git-vista-core/src/activity.rs:501-521 | a branch movement stays listed iff the journal lists none of its kind, tip and ref within five seconds, the ref named as its namespace is journaled |
| `FeedStages.HeadMovementIsShownIff` | crates/git-vista-core/src/activity.rs:752-789 | a HEAD movement stays listed iff no branch moved likewise within two seconds and no journal event, on any ref, within five |
| `FeedStages.AnotherBranchAbsorbsHead` | crates/git-vista-core/src/activity.rs:501-521 | a HEAD line that a journal event on another branch removes |
| `FeedStages.NothingIsMadeUp` | crates/git-vista-core/src/activity.rs:684-795 | whatever reaches the fold was a stage-1 event or a journal event |
| `FeedStages.OneMovementOneEvent` | crates/git-vista-core/src/activity.rs:752-789 | before the fold no HEAD event repeats a branch event and no reflog event repeats a journal event |
| `FoldTheorems.SameRowIffLinked` | crates/git-vista-core/src/activity.rs:1071-1089 | two events of a kind share a row iff a chain of gaps of at most five seconds links them |
| `FoldTheorems.BurstIsComponent` | crates/git-vista-core/src/activity.rs:1071-1089 | a burst holds exactly the events linked to its newest one, with their multiplicities |
| `FoldTheorems.FoldTellsComponents` | crates/git-vista-core/src/activity.rs:1090-1117 | a row is a lone event itself, or a count that is true, the newest time, and App iff any member is |
| `FoldTheorems.FoldTellsEveryEvent` | crates/git-vista-core/src/activity.rs:1071-1118 | the counts and the lone rows add up to the number of candidates |
| `FoldTheorems.CountIsLegible` | crates/git-vista-core/src/activity.rs:1101-1101 | two counted rows with the same words count the same number |
| `FoldLaws.FoldShape` | crates/git-vista-core/src/activity.rs:1032-1055 | the events that are no candidates come first, in order and unchanged, and nothing is left over at the end |
| `FeedFields.FoldIsExactly` | crates/git-vista-core/src/activity.rs:857-907 | the fold counts exactly the fetches, pulls and pushes that name something and move no local branch, each kind apart, and keeps every other event |
| `FeedFields.LocalMovesAreKept` | crates/git-vista-core/src/activity.rs:918-938 | a local branch's own movement, by the reflog or by a journaled name in the branch map, is never folded away |
| `FeedFields.JournaledBranchMoveIsARow` | crates/git-vista-core/src/activity.rs:677-848 | a journaled movement of a local branch is a row of the feed, whatever git logged beside it |
| `FeedFields.LoggedBranchMoveIsARow` | crates/git-vista-core/src/activity.rs:677-848 | a logged action on a local branch that the journal does not list is a row, with the branch's short name and the action's time and tips |
| `FoldLaws.EveryEventIsAccountedFor` | crates/git-vista-core/src/activity.rs:1032-1055 | every event is kept as it was or told of by exactly one row of its kind |
| `FoldLaws.FoldIgnoresOrder` | crates/git-vista-core/src/activity.rs:1032-1118 | every permutation of the input folds to the same multiset of rows |
| `FoldLaws.FoldOneKindIgnoresOrder` | crates/git-vista-core/src/activity.rs:1071-1118 | one kind's rows are the same list for every order of its events |
| `FoldLaws.FoldIsIdempotent` | crates/git-vista-core/src/activity.rs:905-907 | folding a fold changes nothing: counted rows have the admission's shape, lone ones stay more than five seconds apart |
| `FetchFlow.OneFetchIsOneRow` | crates/git-vista-core/src/activity.rs:677-848 | a fetch journaled at one moment shows as exactly one App row counting its refs iff the journal echoes every fetch line |
| `FetchMoments.FetchIsCountedIff` | crates/git-vista-core/src/activity.rs:677-848 | among any other events, a fetch journaled at one moment shows as one App row counting its refs, and as no other App row of that moment, iff every fetch line of a remote branch within five seconds is echoed and every one of HEAD is explained by a branch or a journaled tip |
| `FetchMoments.FetchLineIsListedIff` | crates/git-vista-core/src/activity.rs:752-789 | a fetch line of HEAD or a remote branch stays listed iff nothing in the journal or the reflog speaks for it |
| `FetchMoments.DriftNeverDoubles` | crates/git-vista-core/src/activity.rs:985-1010 | if every fetch line near the batch is one of its refs, the row counts N, however far the other lines are from it |
| `FetchMoments.UnjournaledRefSpoilsTheCount` | crates/git-vista-core/src/activity.rs:1071-1118 | two refs journaled, a third only logged at the same second: the row is not the batch's |
| `FetchMoments.FoldCountsMoment` | crates/git-vista-core/src/activity.rs:1071-1118 | the fold shows n events of one moment as one row of n iff nothing else of the kind is within five seconds |
| `FetchFlow.FetchEventsAreLines` | crates/git-vista-core/src/activity.rs:734-748 | stage 1's fetch events are exactly the fetch lines |
| `FetchFlow.FetchLineSurvives` | crates/git-vista-core/src/activity.rs:773-789 | a fetch line survives attribution iff no journal event names its ref and tip within the slack |
| `FetchFlow.MomentFoldsToOneRow` | crates/git-vista-core/src/activity.rs:1071-1117 | two or more App events of one moment fold to the one row that counts them |
| `FeedResolution.LateResolutionIsEarlyResolution` | crates/git-vista-core/src/activity.rs:818-846 | resolving captures on the truncated feed gives the feed that resolving the whole journal first gives |
| `FeedResolution.NothingLeavesAsAReference` | crates/git-vista-core/src/activity.rs:332-353 | no row leaves with a reference or an unreadable capture; a referrer gets a capture anchored under its own batch id, or none iff there is none |
| `FeedFields.ReferrerGetsTheFirstAnchor` | crates/git-vista-core/src/activity.rs:332-353 | a referrer gets the first capture the journal holds under its batch id, or none iff there is none |
| `FeedLaws.FeedIsNewestFirst` | crates/git-vista-core/src/activity.rs:813-816 | the feed is newest first and as long as the cap allows |
| `FeedLaws.CapLeavesOutTheOldest` | crates/git-vista-core/src/activity.rs:815-816 | kept rows and rows left out are together all rows, and none left out is newer than one kept |
| `FeedLaws.SameSecondKeepsOrder` | crates/git-vista-core/src/activity.rs:813-816 | events of one second keep their source order |
| `FeedLaws.HintsAreCurrent` | crates/git-vista-core/src/activity.rs:1129-1190 | every hint is good against the branches as they are now, and no foldable or counted row has one |
| `FeedFields.HintIffOffered` | crates/git-vista-core/src/activity.rs:1129-1190 | a row carries a hint iff a deleted branch's name is free, or its branch still stands at the move's result and was not created by it; and which hint |
| `FeedFields.NamesAreShort` | crates/git-vista-core/src/activity.rs:523-543 | a branch line shows the reflog's own short name, any other event its name unchanged |
| `CommitGraph.AssignLanes` | tools/commit-graph.py:62-126 | the loop over the mutable table computes `LaneOf` and the edge list |
| `CommitGraph.LaneTable.AllocLane` | tools/commit-graph.py:84-89 | takes the longest-free lane, or raises the mark when none is free |
| `CommitGraph.LaneTable.Take` | tools/commit-graph.py:93-109 | the row gets the oldest lane waiting for it, every other waiting lane ends and is freed, no other entry moves |
| `CommitGraph.LaneTable.Continue` | tools/commit-graph.py:113-121 | a root frees its lane; otherwise the lane goes to the end of the table, waiting for the first parent |
| `CommitGraph.LaneTable.OpenExtras` | tools/commit-graph.py:118-121 | lanes are opened, in order, for the extra parents in the window that were not tracked before |
| `CommitGraph.LaneTable.OpenLane` | tools/commit-graph.py:121-121 | opening a lane appends it to the table |
| `CommitGraph.IndexRows` | tools/commit-graph.py:80-80 | the index holds exactly the window's hashes, each at its last row |
| `CommitGraph.DrawEdges` | tools/commit-graph.py:123-126 | the edge loops list the parent edges in order |
| `CommitGraph.EdgesAreParentLinks` | tools/commit-graph.py:123-128 | an edge is drawn iff it joins a commit to a parent in the window, each end on its commit's lane |
| `CommitGraph.EdgesFollowParents` | tools/commit-graph.py:123-126 | a row's edges lead to its parents in the window, one per listing, in the order listed |
| `CommitGraph.EdgesAreByRow` | tools/commit-graph.py:123-126 | edges stand row by row |
| `Lanes.StepPartition` | tools/commit-graph.py:84-121 | a row keeps open and free lanes a partition of the lanes below the mark, and raises the mark only up to what is occupied right then |
| `Lanes.FreeListIsAQueue` | tools/commit-graph.py:84-121 | what a row gives back goes to the end of the free list, ended lanes before a root's own, and what it takes comes from the front |
| `Lanes.OpensFromTheFront` | tools/commit-graph.py:84-121 | extra parents get the longest-free lanes in the order listed, then lanes past the mark |
| `LaneTheorems.RunPartition` | tools/commit-graph.py:84-121 | after every row of every run open and free lanes partition the lanes below the mark |
| `LaneTheorems.FreeListIsInOrder` | tools/commit-graph.py:84-114 | after every row the free list is in the order in which its lanes were given back |
| `LaneTheorems.FirstParentLaneExclusive` | tools/commit-graph.py:91-116 | from a row to its first parent no row in between gets its lane; if the parent never comes, no later row does |
| `LaneTheorems.ExtraParentLaneExclusive` | tools/commit-graph.py:118-121 | from the row that opens it to the extra parent it leads to, no row gets that lane |
| `LaneTheorems.ChildLaneIsInherited` | tools/commit-graph.py:94-121 | a commit gets its earliest child's lane, or the lane that child opened for it, however many lanes converge later |
| `LaneTheorems.EarliestChildStartsTheLine` | tools/commit-graph.py:113-121 | right below its earliest child one lane heads for a commit, or one per listing if the child lists it as an extra parent |
| `LaneTheorems.TipTakesAFreeLane` | tools/commit-graph.py:106-107 | a tip takes a lane that no free lane has been free longer than, a new column only when none is free |
| `LaneTheorems.DemandIsMet` | tools/commit-graph.py:91-121 | in every topologically ordered history the number of lanes waiting for a commit is what the history alone demands |
| `LaneTheorems.OccupiedIsLinesIff` | tools/commit-graph.py:91-121 | the lanes occupied at every row are as many as the lines of history crossing it iff no row opens two lanes for one commit |
| `LaneTheorems.OccupiedIsLinesHere` | tools/commit-graph.py:91-121 | at any row of any topologically ordered history there are no fewer lanes than lines, and as many iff no lane still in use there was doubled |
| `LaneTheorems.MarkIsPeakOccupied` | tools/commit-graph.py:84-121 | for any list of commits, the high-water mark is the peak number of lanes occupied at once |
| `LaneTheorems.MarkIsPeak` | tools/commit-graph.py:84-121 | if no row opens two lanes for one commit, the high-water mark is the peak number of crossing lines so far |
| `LaneTheorems.ColumnsDrawnArePeak` | tools/commit-graph.py:222-224 | if no row opens two lanes for one commit, the columns drawn are the peak number of lines crossing any row, and none is blank |
| `LaneTheorems.RepeatedParentWastesAColumn` | tools/commit-graph.py:117-121 | a history with an extra parent listed twice that draws four columns, one of them blank, for three lines |
| `Markers.Parse` | crates/git-vista-conflicts/src/markers.rs:113-172 | the line loop computes `Parsed` |
| `Markers.ReadConflict` | crates/git-vista-conflicts/src/markers.rs:124-166 | the inner loop finds the closing marker and the three sides, or hands back every line it read |
| `Markers.Compose` | crates/git-vista-conflicts/src/markers.rs:198-220 | the block loop computes `Composed`, none if a conflict is open |
| `MarkerTheorems.ParseInvertsRender` | crates/git-vista-conflicts/src/markers.rs:113-187 | parsing a rendered canonical block list gives it back, for any marker labels, absent and empty bases kept apart |
| `MarkerTheorems.MarkerHasALabel` | crates/git-vista-conflicts/src/markers.rs:180-187 | a line is a marker iff it is the seven signs, nothing or a label set off by a space or a return, and perhaps a line end |
| `MarkerLaws.AnyConflictIsRead` | crates/git-vista-conflicts/src/markers.rs:124-166 | with any separators in any order: ours is all above the first, theirs all below middle markers, the base only what follows the last base marker |
| `MarkerLaws.HeadingIsText` | crates/git-vista-conflicts/src/markers.rs:182-187 | a row of ten equals signs in a side is text |
| `MarkerLaws.CanonicalIffParsed` | crates/git-vista-conflicts/src/markers.rs:113-187 | canonical block lists are exactly what parsing can produce |
| `MarkerLaws.SpansAreTheText` | crates/git-vista-conflicts/src/markers.rs:113-172 | the text is, in order, the contexts and one raw span per conflict, and a conflict's sides and base are drawn from its span |
| `MarkerLaws.CompositionInventsNothing` | crates/git-vista-conflicts/src/markers.rs:198-220 | a composed file is an in-order subsequence of the marker file |
| `MarkerLaws.ConflictIffClosed` | crates/git-vista-conflicts/src/markers.rs:108-166 | a choice is offered iff some opening marker is closed further down |
| `MarkerLaws.PlainTextIsUnchanged` | crates/git-vista-conflicts/src/markers.rs:108-172 | a text with no closed conflict composes to itself whatever was chosen |
| `MarkerLaws.ChoiceKeepsThatSide` | crates/git-vista-conflicts/src/markers.rs:198-220 | from the text of a conflict, each choice gives that side, both gives ours first, and no choice gives no file |
| `MarkerLaws.ComposesIffNothingOpen` | crates/git-vista-conflicts/src/markers.rs:198-236 | there is a file iff the list of open ordinals is empty, iff the vector reaches every conflict and holds a choice for it |
| `MarkerLaws.OpenIff` | crates/git-vista-conflicts/src/markers.rs:230-236 | the open ordinals are exactly those below the count with no choice |
| `MarkerLaws.CompositionSplits` | crates/git-vista-conflicts/src/markers.rs:198-228 | composing a concatenation splits at the conflict count |
| `MarkerLaws.OneChoiceChangesOneSpan` | crates/git-vista-conflicts/src/markers.rs:198-220 | changing one ordinal's choice changes that conflict's span and nothing else |
| `Generation.GenerationInputs.Set` | crates/git-vista-core/src/identity.rs:422-430 | the search loop overwrites the key's value where it stands, or appends it |
| `Generation.GenerationInputs.ByteStream` | crates/git-vista-core/src/identity.rs:438-448 | the loop writes the sorted fields' length-prefixed stream |
| `GenerationTheorems.StreamIffRecorded` | crates/git-vista-core/src/identity.rs:422-448 | two runs of calls give the same stream iff they recorded the same map |
| `GenerationTheorems.StreamListsTheRecord` | crates/git-vista-core/src/identity.rs:438-448 | read as key and value in turn, each after its length, the stream lists what was recorded, keys in ascending byte order |
| `GenerationTheorems.FieldsAreSpelled` | crates/git-vista-core/src/identity.rs:386-419 | under which keys the typed calls record, and how HEAD's two parts are joined |
| `GenerationTheorems.GenerationTellsStatesApart` | crates/git-vista-core/src/identity.rs:386-448 | two runs of the typed calls, in any order, give the same stream iff they leave HEAD, refs, index and working tree told the same |
| `GenerationTheorems.CallsRecordTheSnapshot` | crates/git-vista-core/src/identity.rs:386-430 | after any run of the typed calls the recorded fields are the state as last told, under its own keys and nothing else |
| `GenerationTheorems.EncodeInjective` | crates/git-vista-core/src/identity.rs:442-448 | different field lists never give the same bytes |
| `GenerationTheorems.BigEndianReadsBack` | crates/git-vista-core/src/identity.rs:444-446 | a length is written in eight bytes, most significant first, and reads back |
| `GenerationTheorems.FieldsRepresentRecord` | crates/git-vista-core/src/identity.rs:422-430 | the field list has each key once, with the value last recorded |
| `Diff.ParseNameStatusZ` | crates/git-vista-core/src/diff.rs:147-180 | the token loop computes `NameStatus`, stopping at a truncated record |
| `Diff.FoldNumstatZ` | crates/git-vista-core/src/diff.rs:187-215 | the token loop updates the file array in place to `Numstat` of what it held |
| `Diff.SetCountsAt` | crates/git-vista-core/src/diff.rs:210-213 | only the first file at the path changes, and only its counts |
| `DiffTheorems.ListingsRecombine` | crates/git-vista-core/src/diff.rs:132-215 | files rendered as both listings, the second in any order, come back exactly, renames and binary files included |
| `DiffTheorems.FoldingKeepsTheList` | crates/git-vista-core/src/diff.rs:187-215 | whatever bytes are folded, no path, no kind and no order changes |
| `DiffTheorems.CountParses` | crates/git-vista-core/src/diff.rs:211-212 | a printed 32-bit count reads back, and a dash reads as no count |
| `DiffTheorems.CountIsReadIff` | crates/git-vista-core/src/diff.rs:211-212 | a text is read as a count iff it is a 32-bit number's digits, after zeros and one plus sign if need be |
| `DiffTheorems.CutStatusIsDropped` | crates/git-vista-core/src/diff.rs:147-180 | a listing cut inside its last record gives the files of the whole records and no more |
| `DiffTheorems.CutCountsAreDropped` | crates/git-vista-core/src/diff.rs:187-215 | counts cut before the new path of a rename change nothing |
| `DiffTheorems.EmptyFieldsArePassedOver` | crates/git-vista-core/src/diff.rs:149-152 | empty fields are passed over wherever they stand |
| `DiffTheorems.OnlyTheFirstIsCounted` | crates/git-vista-core/src/diff.rs:210-213 | of several files at a path only the first takes the counts |
| `Virtualize.New` | crates/git-vista-core/src/virtualize.rs:80-89 | the running sum fills the table with every item's offset |
| `Virtualize.PartitionPoint` | crates/git-vista-core/src/virtualize.rs:147-153 | binary search finds what the linear scan finds |
| `Virtualize.VisibleEdges` | crates/git-vista-core/src/virtualize.rs:134-153 | both searches over the table agree with scans over the item edges |
| `Virtualize.VisibleRangeOf` | crates/git-vista-core/src/virtualize.rs:123-163 | the answered range is the linear scan's, for every viewport, scroll and overscan |
| `Virtualize.VisibleIffOverlaps` | crates/git-vista-core/src/virtualize.rs:138-153 | an item lies between the searches iff it reaches the clamped top and begins above the bottom |
| `Virtualize.ScrolledIsTop` | crates/git-vista-core/src/virtualize.rs:134-139 | the top edge is the scroll position, kept from above the list and from past the point where its end is in view |
| `Virtualize.RangeIsWidenedOverlap` | crates/git-vista-core/src/virtualize.rs:155-162 | where anything overlaps the viewport the range is the overlapping items widened by the overscan and clipped |
| `Virtualize.RangeIsWidenedOverlapIff` | crates/git-vista-core/src/virtualize.rs:138-162 | for a viewport of height zero or more, the range is that at every item iff its bottom edge is below the list's top or there is no overscan |
| `Virtualize.FlatViewportStillDraws` | crates/git-vista-core/src/virtualize.rs:138-162 | a zero-height viewport that overlaps nothing and still draws an item |
| `Virtualize.RangeCoversTheViewport` | crates/git-vista-core/src/virtualize.rs:109-163 | with a positive viewport and some items the range is not empty and leaves no part of the viewport blank |
| `Virtualize.RangeIsUsableIff` | crates/git-vista-core/src/virtualize.rs:31-40 | the range can slice the list at every scroll iff no item is shorter than the viewport is negative |
| `Seed.ParseSeed` | crates/git-vista-core/src/seed.rs:34-67 | the parser returns `Parsed`, first error first |
| `Seed.ReadLines` | crates/git-vista-core/src/seed.rs:40-54 | the line loop stops at the first malformed line |
| `SeedTheorems.SeedIsReadWholeOrRefused` | crates/git-vista-core/src/seed.rs:27-67 | a seed is read iff every non-blank line is well formed and the head is among them, and then no line is skipped |
| `SeedTheorems.LineIsReadIff` | crates/git-vista-core/src/seed.rs:41-49 | a line is read iff it is well formed; the empty-name error never occurs |
| `SeedTheorems.LineSays` | crates/git-vista-core/src/seed.rs:41-53 | a line with an id and a name gives that name and the id in lower case, or is refused for that id iff it is not forty hexadecimal digits |
| `SeedTheorems.SeedIdsAreCommits` | crates/git-vista-core/src/seed.rs:44-53 | every id of a seed that was read is forty lower-case hexadecimal digits |
| `SeedTheorems.ErrorsInOrder` | crates/git-vista-core/src/seed.rs:34-67 | an empty head is reported first, then the first bad line, then no branches, then a head not among them |
| `SeedTheorems.AnyLayoutIsRead` | crates/git-vista-core/src/seed.rs:39-54 | blank lines are skipped, white space around an entry is no part of it, and every entry is read |
| `SeedTheorems.SeedReadsBack` | crates/git-vista-core/src/seed.rs:27-67 | the two recorded files read back as the seed |
| `SeedTheorems.PlanHolds` | crates/git-vista-core/src/seed.rs:79-94 | a plan updates exactly the seeded branches missing or elsewhere and deletes exactly the unseeded ones, both sorted |
| `SeedTheorems.ResetLandsOnTheSeed` | crates/git-vista-core/src/seed.rs:69-94 | applying the plan gives exactly the seed's branch map, if the seed names no branch at two tips |
| `SeedTheorems.PlanIsEmptyIffReached` | crates/git-vista-core/src/seed.rs:79-94 | for any seed, the plan is empty iff the branches are exactly the seed's, each at every tip the seed records for it |
| `SeedTheorems.PlanIsEmptyIffOnSeed` | crates/git-vista-core/src/seed.rs:79-94 | if the seed names no branch at two tips, the plan is empty iff the branch map already is the seed's |
| `SeedTheorems.ReplanningIsEmpty` | crates/git-vista-core/src/seed.rs:79-94 | if the seed names no branch at two tips, there is nothing left to plan after a reset |
| `SeedTheorems.ReplanningIsEmptyIff` | crates/git-vista-core/src/seed.rs:79-94 | after a reset nothing is left to plan iff the seed names no branch at two tips |
| `SeedTheorems.ResetReachesTheSeedIff` | crates/git-vista-core/src/seed.rs:79-94 | a reset leaves exactly the seed's branches at their recorded tips iff no branch has two |
| `SeedTheorems.TwoTipsAreAccepted` | crates/git-vista-core/src/seed.rs:34-67 | a file that lists a branch at two tips is accepted, and its plan is never empty |
| `SeedTheorems.NoEntryIsIdle` | crates/git-vista-core/src/seed.rs:79-94 | every plan entry changes the branch map |
| `SeedTheorems.PlanIgnoresOrder` | crates/git-vista-core/src/seed.rs:79-94 | the plan does not depend on the order of the current branches, repeated names or not |

## Left out

- `FeedLaws.HintsAreCurrent`: states that every hint offered is good; when one is offered is `FeedFields.HintIffOffered`.
- `FetchFlow.OneFetchIsOneRow`: asks for a feed without other fetches and a cap no smaller than the two inputs together; `FetchMoments.FetchIsCountedIff` asks for neither, but speaks only of the rows of that moment.
- `FetchMoments.FetchIsCountedIff`: asks that the app journaled no other fetch within five seconds and that the cap has room for the rows at or after the fetch; two fetches closer than that are one burst to the code, and a smaller cap may cut the row off.
- `LaneTheorems.ColumnsDrawnArePeak`: asks that no row opens two lanes for one commit; where one does, more lanes than lines are held, but a later row may still take the spare column, so the columns drawn can be the peak all the same.
- Times are unbounded, so overflow of a 64-bit difference between two timestamps is not modelled; nor are the limits of `usize`, except that string lengths fit the eight bytes they are written in.
- Heights are reals: rounding, infinities and not-a-number are not modelled.
- Strings are valid text: lossy UTF-8 conversion is not modelled, and `short` cuts after seven characters rather than seven bytes.
- The UUID v5 digest of the generation stream (section 4.3 of RFC 4122): the model stops at the byte stream and says nothing about collisions.
- JSON shapes, the journal file and its window, the ref capture itself, and everything that runs git.
- What the server does with a reset plan: applying it is modelled as one entry at a time on a branch map.
- The conflict panes, `Choice::describe`, and whether a file may be resolved line by line at all.
- `CommitDiff::totals`, `kind_from_letter` on its own, and the accessors of the height table: readings of one field.
- Commit history traversal, layout, status, colour, forge and network code.
