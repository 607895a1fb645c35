# cronstable, verified

A Dafny model of the logic `cronstable` stands on, and proofs about it.

- **The cron engine** (`Calendar`, `Schedule`, `CivilWalk`, `CivilSearch`, `Zone`,
  `NextInstant`, `Occurrences`, `LocalFrames`). Time is whole seconds on a proleptic
  Gregorian calendar, itself proved against its closed form. A zone is a finite list
  of offset changes with PEP 495 gap and fold readings. The walks, the gap-edge bisection, the iterator with its
  direct and careful modes, the backward search and the sampled host frames are
  proved against one definition: a schedule's fires are the `fold=0` resolutions
  of the labels its columns select.
- **The gossip election** (`Ordering`, `PeerTable`, `Candidates`, `Rendezvous`,
  `Election`, `ThinBridge`). Each node derives its quorum, candidates, leader and
  job owners from its own peer table. In a converged view the local answers fit
  together: every quorate node weighs exactly the quorate nodes, so each job has
  exactly one node that owns it in its own eyes. Single-leader mode gets the exact
  condition under which a node elects itself, and five concrete nodes in which two
  of them do.
- **The state around the election** (`ClusterView`, `Convergence`, `Manager`,
  `ConditionalPoll`, `RebootRan`). What every history of polls leaves of an entry, and
  whom it makes a node count; polling that has come to rest is a converged view;
  generation-keyed memo and settle latch over every interleaving of writes and
  queries; conditional polling against unconditional polling over every run; the
  `@reboot` record across a whole cluster with lost, delayed and repeated messages.
- **Smaller cores** (`JobObjects`, `Cgroups`, `Fingerprint`, `CanonicalText`,
  `JsonText`, `Heatmap`, `FireCounts`, `ICal`). A Job Object's handle and child under
  every interleaving; the cpu controller of the run cgroups; the spliced and memoised
  canonical text, its reading back, and the job-set id; the grouped heatmap and what
  it counts; RFC 5545 escaping and folding with their readers.

Four promises turn out not to hold of the code as it is. Each has its exact
condition and an instance: single-leader mode can elect two leaders
(`Election.OneLeaderIff`, `ThinBridge.TwoLeaders`), `prev` can miss a shifted fire
(`Occurrences.Prev`, `Occurrences.LoneGapFireHasNoAnchor`), a frame-by-frame walk
can list a fire twice (`LocalFrames.WalkedOnceIff`, `LocalFrames.FreshWalkOnceIff`,
`LocalFrames.WalkTwice`), and the heatmap counts whole minutes rather than its window
(`FireCounts.WindowCountsIff`, `FireCounts.UnalignedWindowDropsFire`).

Definitions that say what is meant (`Fires`, `IsNextCivil`, `IsNextInstant`,
`AllFires`, `Converged`, `IsOwner`, `Traced`, `GridAt`, `Unfold`, `Same`, ...) are written
apart from the code that computes it.

## Model

| member | source | states |
|---|---|---|
| Calendar.MonthTable | cronstable/cronexpr.py:129-144 | each month has its length in the table, February one day more in the years the written-out leap rule picks |
| Calendar.OrdinalIs | cronstable/cronexpr.py:129-144 | the day number of every date, in closed form, for every year |
| Calendar.Epoch | cronstable/cronexpr.py:1587-1588 | 1970-01-01 is day 719163, a Thursday |
| Calendar.WeekdayTurns | cronstable/cronexpr.py:1587-1599 | from one day to the next the weekday moves by one and wraps |
| Calendar.LabelTicks | cronstable/cronexpr.py:129-144 | one second later every label reads as the clock and the calendar turn, so the reading of one label settles all |
| Calendar.EpochReads | cronstable/cronexpr.py:129-144 | that one reading |
| Schedule.ShiftIsNearest | cronstable/cronexpr.py:725-739 | a shifted `W` day is a Monday-to-Friday day of the month, no further from the target than any other and unique as such |
| Schedule.DomMatchesIsSelects | cronstable/cronexpr.py:1339-1364 | the range-guarded `L`/`W`/`LW` checks select exactly the days the unguarded definition selects |
| Schedule.DowMatchesIsSelects | cronstable/cronexpr.py:1325-1337 | the arithmetic `L` and `#` checks select the day after which the month has no such weekday, and the day up to which it has n of them |
| Schedule.PlainDays | cronstable/cronexpr.py:1145-1151 | on plain day columns two set probes decide the day |
| Schedule.TestIsFires | cronstable/cronexpr.py:1287-1323 | `test` holds of a label exactly when the columns select it |
| Schedule.WhyNoRunAgrees | cronstable/croninfo.py:1206-1279 | the verdict assembled column by column equals `test` for every schedule and label |
| CivilWalk.NextIn | cronstable/cronexpr.py:1701-1704 | least column value above the current one, None iff there is none |
| CivilWalk.PrevIn | cronstable/cronexpr.py:1914-1917 | greatest column value below the current one, None iff there is none |
| CivilWalk.FirstTimeIsFirst | cronstable/cronexpr.py:1706-1745 | the cascading bisects give a selected time not before the bound, the least one, None iff there is none |
| CivilWalk.LastTimeIsLast | cronstable/cronexpr.py:1919-1955 | the same backwards: a selected time not after the bound, the greatest one, None iff there is none |
| CivilWalk.NextCivilUnique | cronstable/cronexpr.py:1539-1603 | the specification of the forward walk has one answer |
| CivilWalk.PrevUndoesNext | cronstable/cronexpr.py:1803-1865 | from 1970 on, the greatest match before the next match of a match is that match |
| CivilWalk.NextUndoesPrev | cronstable/cronexpr.py:1539-1603 | and the other way round up to the horizon |
| CivilSearch.FirstOfDay | cronstable/cronexpr.py:1667-1684 | the first selected time of a selected day is the least match of that day from the bound on |
| CivilSearch.LastOfDay | cronstable/cronexpr.py:1686-1698 | the last selected time of a selected day is the greatest match of that day up to the bound |
| CivilSearch.NextMarkedDay | cronstable/cronexpr.py:1584-1599 | the day-by-day scan of a month with `L`/`W`/`#` finds its least match from the bound on, None iff the rest of the month is silent |
| CivilSearch.NextListedDay | cronstable/cronexpr.py:1632-1665 | the bisect over a restricted day list finds the least match of the month from the bound on |
| CivilSearch.NextPlainDay | cronstable/cronexpr.py:1605-1665 | the plain-column fast path finds the least match of the month from the bound on |
| CivilSearch.NextCivil | cronstable/cronexpr.py:1539-1603 | the least match strictly after the seed with year at most 2099, None iff there is none |
| CivilSearch.PrevMarkedDay | cronstable/cronexpr.py:1846-1861 | the backward day-by-day scan finds the greatest match of the month up to the bound |
| CivilSearch.PrevListedDay | cronstable/cronexpr.py:1867-1911 | the backward bisect over a restricted day list finds the greatest match of the month up to the bound |
| CivilSearch.PrevPlainDay | cronstable/cronexpr.py:1867-1911 | the backward fast path finds the greatest match of the month up to the bound |
| CivilSearch.PrevCivil | cronstable/cronexpr.py:1803-1865 | the greatest match strictly before the seed (its own second included when the seed has a fraction) with year at least 1970, None iff there is none |
| Zone.InPlaceAscends | cronstable/cronexpr.py:1452-1515 | labels that show as themselves resolve in label order |
| Zone.BehindSeed | cronstable/cronexpr.py:1370-1405 | every label at or below the rewound seed resolves to an instant not after `now` |
| Zone.RewoundSeedIsSeed | cronstable/cronexpr.py:1370-1405 | the probe-based rewind computes that seed for every label and fold, nonexistent and repeated ones included |
| Zone.GapShape | cronstable/cronexpr.py:1495-1511 | around a gap label, the labels below its edge are in the gap and those from it on are past it |
| Zone.ShowRoundTrip | cronstable/cronexpr.py:974-980 | an instant's shown label with its fold reads back as that instant |
| Zone.FirstShown | cronstable/cronexpr.py:761-767 | fold 0 denotes the first instant at which the zone shows a label |
| Zone.LastShown | cronstable/cronexpr.py:761-767 | fold 1 denotes the last one |
| Zone.NeverShown | cronstable/cronexpr.py:761-767 | a label never shown lies in a gap; fold 0 reads it with the offset before, fold 1 with the offset after |
| NextInstant.NextInstantUnique | cronstable/cronexpr.py:1452-1515 | the specification of the next instant has one answer |
| NextInstant.InPlaceWins | cronstable/cronexpr.py:1470-1485 | the first pending match, if it shows as itself, is the next instant |
| NextInstant.FindGapEdge | cronstable/cronexpr.py:1501-1511 | the bisection ends on the first label past the gap |
| NextInstant.RivalWins | cronstable/cronexpr.py:1491-1515 | a match past the gap that resolves before the gap label is the next instant |
| NextInstant.NoRival | cronstable/cronexpr.py:1491-1515 | without one, the gap label is |
| NextInstant.NextInstant | cronstable/cronexpr.py:1452-1515 | for every schedule, zone, label and fold: the least fire after `now`, None iff there is none up to 2099 |
| Occurrences.FixedNext | cronstable/cronexpr.py:1407-1450 | on a fixed offset the next civil match is the next fire |
| Occurrences.Next | cronstable/cronexpr.py:1407-1450 | the delay leads exactly to the next fire, for a `now` with a fraction of a second and in every frame |
| Occurrences.FireStream.constructor | cronstable/cronexpr.py:1998-2012 | the cursor starts at the given instant, careful exactly when the rewound seed is not the start's own label |
| Occurrences.FireStream.Step | cronstable/cronexpr.py:1960-2042 | in either mode a step yields exactly the next instant after the last one and leaves the cursor on it |
| Occurrences.FiresBefore | cronstable/cronexpr.py:1960-2042 | the stream up to a bound lists every fire once, strictly increasing |
| Occurrences.Prev | cronstable/cronexpr.py:1750-1801 | a fire found is the greatest before `now`; one is found exactly when some in-place match below `now`'s label has an in-place second before it and resolves before `now`, or sits on a gap's edge with another match resolving past the gap's shifted stretch and before `now` |
| Occurrences.ReplaysIsReports | cronstable/cronexpr.py:1780-1801 | whether the forward replay from an anchor meets a fire is decided on labels |
| Zone.NothingBetween | cronstable/cronexpr.py:1780-1801 | no label resolves between two neighbouring labels that both show as themselves |
| Occurrences.SettledAnchorReplays | cronstable/cronexpr.py:1770-1801 | an earlier match that is in place along with the second before it is enough |
| Occurrences.LoneGapFireHasNoAnchor | cronstable/cronexpr.py:1750-1801 | a schedule whose only fire is a shifted gap label: the fire happened, and `prev` has no anchor for it |
| LocalFrames.SteadyHour | cronstable/cronexpr.py:852-864 | two agreeing hourly samples bound a stretch of one offset |
| LocalFrames.ChangeIsFirst | cronstable/cronexpr.py:852-864 | up to the sample before the reported one the offset holds at every second, and the reported one differs; with none reported it holds to the end |
| LocalFrames.FirstChange | cronstable/cronexpr.py:852-864 | the loop finds that sample |
| LocalFrames.BuiltVouches | cronstable/cronexpr.py:867-892 | a built frame vouches: its offset holds from 26 h before its start through its end, where the samples move unless the horizon was reached; it has no offset only when they move within an hour of its start or in its look-back |
| LocalFrames.BuiltReaches | cronstable/cronexpr.py:880-885 | a frame that met no change reaches 35 days on and the end asked for, and no further |
| LocalFrames.BuildFrame | cronstable/cronexpr.py:867-892 | the frame built is that one, in every field |
| LocalFrames.ExtendedVouches | cronstable/cronexpr.py:895-903 | an extended frame still vouches, and reaches the new end unless the samples move |
| LocalFrames.ExtendFrame | cronstable/cronexpr.py:895-903 | the frame is extended in place to that one |
| LocalFrames.AnswerVouches | cronstable/cronexpr.py:922-955 | whatever vouching frames are cached, a fixed answer holds from 26 h before the instant through `good_to`, and the frames kept go on vouching; none is given only when the samples move inside that reach |
| LocalFrames.OldFramesAreDropped | cronstable/cronexpr.py:944-955 | frames a minute old are not asked: the answer is sampled afresh and alone is kept |
| LocalFrames.YoungFrameAnswers | cronstable/cronexpr.py:944-948 | the first younger frame that holds the instant answers, and is the only one changed |
| LocalFrames.FewFrames | cronstable/cronexpr.py:953-954 | no more than four frames are kept |
| LocalFrames.LocalZone.FixedFrame | cronstable/cronexpr.py:922-955 | the answer and the cache left behind are fixed by the zone, the cache, the request and the clock, and vouch as above |
| LocalFrames.SteadyNext | cronstable/cronexpr.py:1517-1537 | inside a vouched stretch the fixed-offset answer is the answer on the moving zone |
| LocalFrames.NextLocal | cronstable/cronexpr.py:1517-1537 | to the microsecond, always the delay to the next fire on the moving host zone |
| LocalFrames.SteadyFires | cronstable/croninfo.py:1430-1464 | inside a vouched stretch the fires on the fixed offset and on the zone coincide |
| LocalFrames.CutsBehind | cronstable/croninfo.py:1452-1464 | behind every cached frame a walk builds each frame afresh, so where it is cut depends on the zone and the window alone |
| LocalFrames.BuiltCutsFraction | cronstable/croninfo.py:1452-1464 | and each cut has the fraction of a second of the start, or none has |
| LocalFrames.WalkFires | cronstable/croninfo.py:1430-1464 | the frame-by-frame walk lists, in order, every fire of the window, once plus once more for each cut strictly inside the fire's second; the cuts are fixed by the zone, the cached frames, the window and the clock |
| LocalFrames.WalkedOnceIff | cronstable/croninfo.py:1430-1464 | so it lists each fire exactly once if and only if none of those cuts splits a second with a fire in it |
| LocalFrames.FreshWalkOnceIff | cronstable/croninfo.py:1430-1464 | with no cached frame ahead, if and only if it starts on a whole second or no frame it builds ends in a second with a fire |
| LocalFrames.WholeSecondsWalkOnce | cronstable/croninfo.py:1430-1464 | from a whole second to a whole second, on frames that end on whole seconds, each fire is listed once |
| LocalFrames.WalkTwice | cronstable/croninfo.py:1452-1464 | a concrete walk from half a second past a minute lists one fire twice |
| Ordering.ByteOrderIsNumeric | cronstable/cluster.py:562-589 | on digests of one length, raw byte order is big-endian integer order |
| Ordering.NameBelowIs | cronstable/cluster.py:503-525 | names compare by the first character they differ in, a prefix before its extensions |
| PeerTable.SizeCountsProcesses | cronstable/cluster.py:2288-2325 | the cluster size is this node plus the distinct processes and the entries still anonymous |
| PeerTable.SizeIs | cronstable/cluster.py:2288-2325 | the same with the processes and the unidentified addresses written out as sets |
| PeerTable.ComputeClusterSize | cronstable/cluster.py:2288-2325 | the loop computes that size |
| PeerTable.ComputeAgreeingPeers | cronstable/cluster.py:2349-2401 | the loop keeps the mutually agreeing entries, one per process, in order |
| PeerTable.OnlyConfirmed | cronstable/cluster.py:2377-2393 | a counted entry reads AGREED, is named, lists this very process as agreed or comes from a build that lists nobody, and declares no other size, distribution or election |
| PeerTable.AllConfirmed | cronstable/cluster.py:2377-2399 | every entry that meets all of that is counted, itself or as another entry of its process |
| PeerTable.OncePerProcess | cronstable/cluster.py:2395-2399 | no process is counted twice |
| PeerTable.LiveFitsCluster | cronstable/cluster.py:2288-2411 | for every table, this node plus its agreeing peers never exceeds the cluster size |
| Candidates.ComputeBridgeCandidates | cronstable/cluster.py:2414-2470 | the witness tally gives the sorted, capped names with a quorum of witnesses |
| Candidates.ComputeEligible | cronstable/cluster.py:2561-2583 | the confirmed-quorate direct peers, then the bridge candidates |
| Candidates.ComputeUnconfirmed | cronstable/cluster.py:2586-2618 | the vouched names not placed yet, sorted |
| Candidates.ComputeSpreadOwnerSet | cronstable/cluster.py:2975-3001 | quorate or not, and the members to weigh |
| Candidates.ComputeLeader | cronstable/cluster.py:503-525 | none below quorum, else the least of this node and its candidates |
| Candidates.CapKeepsLeader | cronstable/cluster.py:2455-2470 | the cap on bridge candidates cannot change the least name |
| Candidates.CapKeepsLeast | cronstable/cluster.py:2455-2470 | a list over the cap keeps 512 names, none above one it drops |
| Candidates.QuorumIsMajority | cronstable/cluster.py:494-500 | a quorum is the least number that is more than half |
| Rendezvous.OwnerUnique | cronstable/cluster.py:553-559 | the maximum by (score, name) is one member |
| Rendezvous.OwnerIsMaximum | cronstable/cluster.py:541-559 | no member scores higher, and none that scores as high has a higher name |
| Rendezvous.OwnerIsStable | cronstable/cluster.py:553-559 | a joining node can take a job only for itself |
| Rendezvous.HrwOwner | cronstable/cluster.py:562-589 | the scan over raw 8-byte prefixes finds the maximum by (big-endian score, name) |
| Election.AgreementIsSymmetric | cronstable/cluster.py:2349-2401 | in a converged view mutual agreement is symmetric and never with oneself |
| Election.LiveCount | cronstable/cluster.py:2404-2411 | in a converged view the live list counts distinct agreeing nodes |
| Election.EligibleIsQuorate | cronstable/cluster.py:2561-2583 | whoever a node would defer to is a quorate node |
| Election.MajoritiesMeet | cronstable/cluster.py:494-500 | two strict majorities of one size share a member |
| Election.SharedWitness | cronstable/cluster.py:2586-2618 | two quorate nodes that do not agree share a node that agrees with both |
| Election.OwnerSetIsQuorate | cronstable/cluster.py:2975-3001 | every quorate node's owner set is exactly the set of quorate nodes |
| Election.OneOwnerPerJob | cronstable/cluster.py:2950-3011 | once any node is quorate, each job has exactly one node that owns it in its own eyes |
| Election.LeaderIsQuorate | cronstable/cluster.py:2801-2814 | only a quorate name is ever elected |
| Election.LowestElectsItself | cronstable/cluster.py:2801-2818 | the lowest quorate name elects itself |
| Election.TwoLeadersAreThinlyBridged | cronstable/cluster.py:2414-2470 | two self-elected nodes do not agree and share fewer than quorum - 1 agreers |
| Election.SelfElectsIff | cronstable/cluster.py:2801-2818 | a node elects itself exactly when it is quorate and can place no lower quorate node, directly or by a bridge |
| Election.OneLeaderIff | cronstable/cluster.py:2801-2818 | exactly one node elects itself if and only if some node is quorate and every quorate node but the lowest can place a lower quorate one |
| ThinBridge.FiveConverge | cronstable/cluster.py:2414-2470 | five concrete views that are converged |
| ThinBridge.TwoLeaders | cronstable/cluster.py:503-525 | in them two nodes elect themselves, so one leader is not guaranteed |
| Convergence.LinesSay | cronstable/cluster.py:953-980 | the member lines of a body are exactly the fresh entries, each with whether it reads AGREED |
| Convergence.ComputeMembers | cronstable/cluster.py:953-980 | the loop writes those lines |
| Convergence.CountsBack | cronstable/cluster.py:2349-2401 | once every AGREED entry is a reading of what its node serves now, whoever is counted counts back |
| Convergence.AtRestConverges | cronstable/cluster.py:1333-1379 | so a cluster at rest is converged |
| Convergence.RestHasOneOwner | cronstable/cluster.py:2950-3011 | and runs each job on exactly one node as soon as any node is quorate |
| Convergence.PairAtRest | cronstable/cluster.py:2349-2401 | two concrete nodes at rest, both quorate |
| ClusterView.StatusIs | cronstable/cluster.py:861-909 | each status has its own written-out condition on the body, and every reported field is copied |
| ClusterView.EntryIs | cronstable/cluster.py:794-941 | over every history: identity and declarations are those of the last answer, the reported view and the status those of the last poll |
| ClusterView.FailedRoundsAre | cronstable/cluster.py:937-941 | over every history the failed rounds are those closed since the last answer, from the first failed poll on |
| ClusterView.CountedIsConfirmed | cronstable/cluster.py:2349-2401 | over every history of every address, whoever is counted was confirmed by its last poll, field by field |
| ClusterView.ConfirmedIsCounted | cronstable/cluster.py:2349-2401 | and whoever was confirmed is counted, at this address or another of its process |
| ClusterView.UnlistedIsNotNamed | cronstable/cluster.py:2349-2411 | a node whose fresh report does not list us as agreed is not among our names |
| ClusterView.StreakCountsMismatches | cronstable/cluster.py:861-909 | over every history the drift streak is the number of comparable mismatches since the last agreed or self observation |
| ClusterView.DriftIsDebounced | cronstable/cluster.py:898-909 | a mismatch reads as drift exactly when that number reaches the threshold |
| ClusterView.SelfLatch | cronstable/cluster.py:911-922 | over every history an entry reads self exactly when its last answer named us and no other process |
| ClusterView.UnknownNeverReturns | cronstable/cluster.py:794-941 | a peer is unknown exactly until its first observation |
| ClusterView.PeerState.Set | cronstable/cluster.py:727-735 | every field write bumps the generation |
| ClusterView.PeerState.RecordSuccess | cronstable/cluster.py:794-909 | the entry becomes what the observation rule says, generation bumped |
| ClusterView.PeerState.RecordFailure | cronstable/cluster.py:911-935 | the entry drops its reported view and keeps identity, streak and latch |
| ClusterView.PeerState.EndRound | cronstable/cluster.py:937-941 | a failed entry counts one more round |
| Manager.ClusterManager.RecordSuccess | cronstable/cluster.py:794-909 | one entry changes, and no cached answer goes stale |
| Manager.ClusterManager.RecordFailure | cronstable/cluster.py:911-935 | one entry changes, and no cached answer goes stale |
| Manager.ClusterManager.EndRound | cronstable/cluster.py:1795-1798 | every entry closes its round, and the round count grows |
| Manager.ClusterManager.ForeignWrite | cronstable/cluster.py:727-735 | a write to another view only costs a recompute |
| Manager.ClusterManager.Reassign | cronstable/cluster.py:1243-1261 | a changed identity is covered by the key |
| Manager.ClusterManager.Roll | cronstable/cluster.py:1076-1115 | after the key check every cached value is what the current table derives |
| Manager.ClusterManager.Size | cronstable/cluster.py:2288-2325 | memoised size equals recomputation |
| Manager.ClusterManager.AgreeingNames | cronstable/cluster.py:2404-2411 | memoised agreeing names equal recomputation |
| Manager.ClusterManager.EligibleCandidates | cronstable/cluster.py:2561-2583 | memoised candidates equal recomputation |
| Manager.ClusterManager.UnconfirmedContenders | cronstable/cluster.py:2586-2618 | memoised contenders equal recomputation |
| Manager.ClusterManager.Leader | cronstable/cluster.py:2801-2814 | memoised leader equals recomputation |
| Manager.ClusterManager.SpreadOwnerSet | cronstable/cluster.py:2975-3001 | built from the other memoised values, and every owner filled in since is right |
| Manager.ClusterManager.JobOwner | cronstable/cluster.py:2950-2972 | none exactly below quorum, else the maximum by (score, name) over the current members, through the per-generation memo |
| Manager.SettledIs | cronstable/cluster.py:2852-2871 | over every history of every address, a view is settled exactly when each was polled, and three rounds are over or every agreeing peer that lists members mentions this process |
| Manager.SettledStays | cronstable/cluster.py:2857-2862 | settled after three rounds, it stays settled whatever is observed |
| Manager.ClusterManager.ViewSettled | cronstable/cluster.py:2820-2871 | the latched answer is the answer decided afresh |
| ConditionalPoll.EqualTags | cronstable/cluster.py:1384-1453 | equal tags mean equal election fields, and a body that answered 304 would have fitted |
| ConditionalPoll.ShedFits | cronstable/cluster.py:1455-1567 | shedding keeps the election fields, touches no body that fits, and makes one fit whose fields alone do |
| ConditionalPoll.TagOutlivesCountdown | cronstable/cluster.py:1384-1453 | time alone does not change a tag |
| ConditionalPoll.UnchangedIsNotResent | cronstable/cluster.py:1455-1567 | a peer whose stable payload has not changed answers 304 to a tag that could be kept |
| ConditionalPoll.ServedAlike | cronstable/cluster.py:1455-1567 | one served turn leaves the same entry whether or not a tag was echoed |
| ConditionalPoll.ConditionalIsUnconditional | cronstable/cluster.py:1911-2165 | over every run of served bodies, failures, crashes, reloads and round ends, conditional polling leaves every election field as unconditional polling would |
| ConditionalPoll.UnconditionalIsHistory | cronstable/cluster.py:1911-2165 | unconditional polling leaves what the history of its bodies and failures leaves |
| ConditionalPoll.ConditionalIsHistory | cronstable/cluster.py:1911-2165 | and so does conditional polling |
| ConditionalPoll.Poller.ObservePeer | cronstable/cluster.py:1911-2165 | the branching update of entry and cache is the observation rule |
| ConditionalPoll.Poller.Crash | cronstable/cluster.py:1775-1788 | an unexpected error is a failed poll and drops the cached body |
| RebootRan.ReportedIs | cronstable/cluster.py:2169-2225 | what is reported: own runs of this very job set, and those an agreed peer on it reports |
| RebootRan.MarkIsReported | cronstable/cluster.py:2227-2240 | a marked run is reported, whatever was recorded before |
| RebootRan.PushIsReported | cronstable/cluster.py:1569-1616 | so is every name of a push under our job set that fits |
| RebootRan.TrimKeepsLeast | cronstable/cluster.py:1610-1615 | an overflowing record keeps 512 names, none above one it drops |
| RebootRan.RebootLedger.Reconcile | cronstable/cluster.py:1740-1756 | runs recorded under another id are dropped, the first id drops none |
| RebootRan.RebootLedger.Mark | cronstable/cluster.py:2227-2240 | an own run lands under the live id |
| RebootRan.RebootLedger.HandlePush | cronstable/cluster.py:1569-1616 | a push counts only under our id, and the record keeps the least 512 names |
| RebootRan.RebootLedger.AdvertisedRanJobs | cronstable/cluster.py:2169-2202 | own runs under the live id and those of peers agreed under it |
| RebootRan.RebootLedger.Ran | cronstable/cluster.py:2204-2225 | the early-exit test holds exactly of the advertised jobs |
| RebootRan.RecordStays | cronstable/cluster.py:1740-1756 | over every run of polls, marks and pushes under one job set whose pushes fit the record, nothing recorded is lost |
| RebootRan.MarkedStaysReported | cronstable/cluster.py:2227-2240 | over every run of the cluster a marked run stays reported while the job set stays and no push overflows |
| RebootRan.PushedStaysReported | cronstable/cluster.py:1569-1616 | the same of the names of a push that fitted |
| RebootRan.ObservedStaysReported | cronstable/cluster.py:2169-2202 | and of what an agreed peer reported, until that entry is polled again |
| RebootRan.RunSpreads | cronstable/cluster.py:2242-2280 | a run one host reports and sends is reported by any host that receives the note on the same job set |
| RebootRan.StepKeeps | cronstable/cluster.py:1569-1616 | every step of every node keeps each stored name traceable to a run under its id |
| RebootRan.NoPhantomRun | cronstable/cluster.py:2169-2240 | over every run of the cluster, whatever a node reports as run under its live id some node did run under that id |
| JobObjects.EndChildKeeps | cronstable/_jobobjects.py:1320-1347 | ending a child always tries, by terminate and at last by resume |
| JobObjects.ReleaseKeeps | cronstable/_jobobjects.py:1009-1038 | a release keeps the entry's view of its handle the system's |
| JobObjects.ReleaseDecides | cronstable/_jobobjects.py:1009-1022 | told the job is drained a release leaves it closed, once; told it is not, it leaves an open one open |
| JobObjects.JoinKeeps | cronstable/_jobobjects.py:1239-1252 | assigning the child keeps it too |
| JobObjects.ElsewhereKeeps | cronstable/_jobobjects.py:961-1007 | messages, sweeps, kills, queries, collection and shutdown keep it too |
| JobObjects.HandleIsSafe | cronstable/_jobobjects.py:526-564 | over every interleaving the handle is closed at most once, never used after, and gone once the released job is empty |
| JobObjects.DrainedIsClosed | cronstable/_jobobjects.py:961-1022 | over every interleaving, whichever way a released entry learns that its job is drained, the handle is closed |
| JobObjects.BusyStaysOpen | cronstable/_jobobjects.py:1009-1022 | and a job with processes keeps its handle through its own release |
| JobObjects.StruckChildDies | cronstable/_jobobjects.py:961-1007 | over every interleaving a kill, a memory message or an over-cap sweep ends a joined child, and the last two are recorded |
| JobObjects.OthersAreSpared | cronstable/_jobobjects.py:961-1007 | nothing of the sort touches a child outside the job, and a sweep under the cap changes nothing |
| JobObjects.NeverLeftSuspended | cronstable/_jobobjects.py:1151-1175 | once attach has returned the child is not suspended unless every terminate and resume call failed |
| JobObjects.RequiredIsContained | cronstable/_jobobjects.py:1291-1312 | over every interleaving a required run that left its attach is inside its job, or every terminate call failed |
| JobObjects.GuardOutlivesSuspension | cronstable/_jobobjects.py:1265-1289 | the job keeps its kill-on-close guard while the child is suspended |
| JobObjects.CleanAttach | cronstable/_jobobjects.py:1220-1289 | an attach whose calls all succeed leaves a running child in its job, unguarded, with nothing ended |
| JobObjects.UncontainedRuns | cronstable/_jobobjects.py:1291-1312 | a child that could not join runs uncapped |
| JobObjects.UncontainedEnds | cronstable/_jobobjects.py:1291-1312 | or is ended, if its caps are required |
| JobObjects.InterruptedIsEnded | cronstable/_jobobjects.py:1168-1172 | an exception in the body of an attach ends its child before the attach returns |
| JobObjects.LateAttachEnds | cronstable/_jobobjects.py:1165-1167 | so does an attach that starts after the run ended |
| JobObjects.EndedRunEndsItsChild | cronstable/_jobobjects.py:1350-1362 | a run whose end met its attach ends its child unless every terminate call failed |
| Cgroups.Backend.CpuOff | cronstable/_cgroups.py:808-829 | base is touched only after `runs/` is off; both are off or a write was refused |
| Cgroups.Backend.CpuOn | cronstable/_cgroups.py:776-795 | base, then `runs/`; a failure takes both back and costs no cap |
| Cgroups.Backend.CpuUp | cronstable/_cgroups.py:682-692 | where the host offers cpu and nothing failed before or a retry was asked, cpu is on in `runs/` or a call was refused; otherwise nothing changes |
| Cgroups.Backend.CpuInUse | cronstable/_cgroups.py:712-757 | while reads succeed, a capped run in progress always counts, a stranger for its first minute, and finished ones never |
| Cgroups.Backend.CpuDown | cronstable/_cgroups.py:694-704 | off only when no run in progress has a cap, and then attempted |
| Cgroups.Backend.SetCpu | cronstable/_cgroups.py:644-670 | switching on or off keeps cpu on for every capped run |
| Cgroups.Backend.NeedCpu | cronstable/_cgroups.py:672-680 | turning cpu on for a run keeps every cap |
| Cgroups.Backend.Create | cronstable/_cgroups.py:840-887 | a cap that was applied finds cpu on, and joins the capped runs; a cgroup or a cap is missing only after a refused call or where cpu could not be on |
| Cgroups.Backend.Forget | cronstable/_cgroups.py:997-1000 | a run that is over leaves the live and the capped runs, at any moment |
| Cgroups.Backend.RemoveOrDefer | cronstable/_cgroups.py:993-995 | its cgroup is gone, or queued because a removal was refused, at any moment after that |
| Cgroups.Backend.RemoveQueued | cronstable/_cgroups.py:1015-1018 | one queued cgroup goes, or stays queued because a removal was refused, and no cap is lost |
| Cgroups.Backend.SettleCpu | cronstable/_cgroups.py:706-710 | an unwanted controller with no cap left is off or its write was refused |
| Cgroups.Backend.Run | cronstable/_cgroups.py:644-829 | over any steps of any threads a run that has its cap keeps it, and cpu on with it, until its own finish or abort |
| Cgroups.Backend.Finish | cronstable/_cgroups.py:1219-1237 | whatever other threads do between its steps, the run is gone or queued, no other cap is lost, and an unwanted controller with no cap left is off or its write was refused |
| Cgroups.Backend.Abort | cronstable/_cgroups.py:1167-1184 | the run leaves the capped runs and a collect is asked for exactly when it may matter |
| Cgroups.Backend.Collect | cronstable/_cgroups.py:1007-1019 | whatever other threads do after each removal, no cap is lost, and an unwanted idle controller is off or its write was refused |
| Fingerprint.Serialize | cronstable/fingerprint.py:91-102 | the encoder writes the sorted-key text |
| Fingerprint.NormalizeIsSameness | cronstable/fingerprint.py:407-457 | two values normalise alike exactly when they differ only in how numbers are spelled |
| Fingerprint.NormalizeIsNormal | cronstable/fingerprint.py:407-457 | the normal form spells every whole number as an int and changes nothing else |
| Fingerprint.RunText | cronstable/fingerprint.py:482-523 | a contiguous run of sorted keys, written alone, is that stretch of the whole text |
| Fingerprint.Memo.RedactAction | cronstable/fingerprint.py:294-318 | the memoised copy is the redaction, and its normal form is recorded |
| Fingerprint.Memo.HookFragment | cronstable/fingerprint.py:460-479 | a fragment, cached or not, is the block's text |
| Fingerprint.Memo.SplicedText | cronstable/fingerprint.py:482-523 | the spliced text is the whole-object text, whatever was hashed before |
| Fingerprint.Memo.CanonicalBytes | cronstable/fingerprint.py:526-537 | with the memo the canonical text is the one without it |
| Fingerprint.SharingIsInvisible | cronstable/fingerprint.py:407-457 | shared blocks and equal copies, and either spelling of a number, give one text |
| Fingerprint.OrderIsInvisible | cronstable/fingerprint.py:573-589 | whatever the digest, the same canonical texts in any order give one id |
| Fingerprint.SetIdIsMultiset | cronstable/fingerprint.py:573-589 | two job sets share an id exactly when they hold the same canonical texts, each as often, for a digest that tells the texts and combined texts at hand apart |
| Fingerprint.TwoSetsApart | cronstable/fingerprint.py:573-589 | a concrete digest and two job sets that meet that premise and get different ids |
| CanonicalText.EncodeInjective | cronstable/fingerprint.py:91-102 | with self-delimiting tokens, two documents have one text exactly when they are one document |
| CanonicalText.SameTextIsSameJob | cronstable/fingerprint.py:526-548 | two jobs have one canonical text exactly when their redacted documents differ only in how numbers are spelled |
| JsonText.EscapeReads | cronstable/fingerprint.py:91-102 | reading undoes the escape of any one character, surrogate pairs included, whatever follows |
| JsonText.QuotedReads | cronstable/fingerprint.py:91-102 | a quoted string ends at its closing quote and nowhere else, so it has one reading |
| JsonText.JsonDelimits | cronstable/fingerprint.py:91-102 | strings, integers, `true`, `false`, `null` and fractions told apart are written in tokens that delimit themselves |
| JsonText.SameJsonIsSameJob | cronstable/fingerprint.py:526-548 | two jobs are written as one JSON text exactly when their redacted documents differ only in how numbers are spelled |
| JsonText.HalfIsSpelled | cronstable/fingerprint.py:91-102 | a spelling of a fraction that meets that premise |
| JsonText.EscapedIsAscii | cronstable/fingerprint.py:91-102 | whatever a string holds, its text is printable ASCII |
| JsonText.TwoItems | cronstable/fingerprint.py:91-102 | an array is its items between brackets, with a comma and no space |
| JsonText.TwoFields | cronstable/fingerprint.py:91-102 | an object is its fields between braces, the lower key first, with a colon and a comma and no space |
| JsonText.ShortTexts | cronstable/fingerprint.py:91-102 | concrete tokens |
| JsonText.ShortEscapes | cronstable/fingerprint.py:91-102 | the seven short escapes, by code |
| Fingerprint.JobSetId | cronstable/fingerprint.py:573-589 | one memo over the whole set gives the id of the plain texts |
| Heatmap.GroupEntries | cronstable/croninfo.py:1510-1541 | each distinct schedule is walked once, with its entries' names in order |
| Heatmap.FillGrid | cronstable/croninfo.py:1542-1546 | the grouped pass adds up the groups' shares |
| Heatmap.CapKeepsFirst | cronstable/croninfo.py:1555-1596 | capping as names arrive keeps the first distinct names |
| Heatmap.TouchCells | cronstable/croninfo.py:1577-1596 | one entry touches exactly its remaining cells, and keeps exactly those with room |
| Heatmap.FillCellJobs | cronstable/croninfo.py:1555-1596 | although full cells are dropped, every sample list is that of the full replay |
| Heatmap.FireCells | cronstable/croninfo.py:1467-1552 | grid, per-minute sets and sample lists equal the replay of every entry |
| Heatmap.MinuteIsItsHours | cronstable/croninfo.py:1547-1549 | a job is among a minute's exactly when it is named at that minute of some hour |
| Heatmap.GridConserves | cronstable/croninfo.py:1467-1552 | the grid sums to weight times fires over the entries |
| FireCounts.MinuteIsFire | cronstable/croninfo.py:1390-1406 | on zones of whole minutes a fire is a fire of the minute twin moved by a listed second |
| FireCounts.WeightedWalkCountsFires | cronstable/croninfo.py:1390-1406 | weighing each minute of the twin by the number of seconds counts the schedule's own fires per cell, over the window with both ends moved up to the end of their minute |
| FireCounts.LateIsRest | cronstable/croninfo.py:1390-1406 | the fires of a minute still to come after an instant are the listed seconds past it, if the minute twin fires there |
| FireCounts.WeightedWindow | cronstable/croninfo.py:1390-1406 | so per cell the weighted walk is off by what the window cuts from its last minute less what it cuts from its first |
| FireCounts.WindowCountsIff | cronstable/croninfo.py:1390-1406 | and counts the window's own fires in a cell if and only if both cut minutes have equally many still to come |
| FireCounts.ExactWindow | cronstable/croninfo.py:1493-1493 | a walk is off by nothing in any cell when no listed second follows either end and no cut splits a fire's second |
| FireCounts.WalkedCells | cronstable/croninfo.py:1534-1539 | a walk shows each fire of the window in its cell, and each minute a cut splits once more |
| FireCounts.WalkSize | cronstable/croninfo.py:1499-1499 | a minute-granular walk lists no more than one fire a minute and those repeats, so the backstop bites only past two of them |
| FireCounts.WalkPlace | cronstable/croninfo.py:1447-1464 | both branches of the walk, a zone of its own and the host clock, from any microsecond to any other |
| FireCounts.WalkSchedule | cronstable/croninfo.py:1524-1540 | the walk of one schedule, backstop and all; with at most two repeats each cell holds the schedule's own fires in the window and exactly what the cut minutes and the repeats put it off by |
| FireCounts.WalkFrame | cronstable/croninfo.py:1414-1427 | the display zone of a window shows every instant of it, and of the 26 h before, as the host does |
| FireCounts.GridCountsFires | cronstable/croninfo.py:1542-1546 | a grid cell is the sum over the entries of their own fires in it, and of what their walks are off by |
| FireCounts.CountFires | cronstable/croninfo.py:1467-1552 | walking each schedule once and filling the grid gives that in every cell, the host's frames changing as the walks go |
| FireCounts.UnalignedWindowDropsFire | cronstable/croninfo.py:1390-1406 | a concrete window that starts on a minute holds a fire its minute walk does not find |
| ICal.UnescapeUndoes | cronstable/ical.py:68-77 | reading escaped text gives it back with every line break as LF |
| ICal.EscapeIsText | cronstable/ical.py:68-77 | escaped text is TEXT of section 3.3.11 of RFC 5545: every special escaped, nothing else |
| ICal.NoRawBreak | cronstable/ical.py:68-77 | escaped text holds no CR or LF |
| ICal.BackUp | cronstable/ical.py:97-101 | backing up ends on the start of a character, past the offset and within the limit, and the next character would not have fitted |
| ICal.FoldChunks | cronstable/ical.py:93-104 | the chunks are whole characters, make up the line and fit, and none but the last has room for the character that follows |
| ICal.Fold | cronstable/ical.py:80-104 | unfolding gives the line back and every physical line is at most 75 octets |

## Left out

- Parsing of crontab text, macros, `H` expansion and error messages: a schedule starts as its parsed columns.
- Dates before year 1 and after year 9999: the model's calendar has no edges, so overflow handling at `datetime.min` and `datetime.max` is not there.
- Zones outside the stated shape: offsets under 24 h, jumps of at most 26 h, changes at least 52 h apart, a finite list of them. The code states the same reliance.
- Occurrences.Prev: a fire may have happened and none be reported; the contract gives the exact condition and `LoneGapFireHasNoAnchor` an instance. A naive clock's `prev` is `CivilSearch.PrevCivil` itself.
- The host's time-zone rules changing while the process runs, which is what the 60 s re-sampling of frames is for: the model's host zone is fixed.
- LocalFrames.WalkFires: the documentation of `_walk_fires` promises each fire once; the code lists a fire again when a cut falls inside its second, so the contract follows the code.
- LocalFrames.LocalZone.FixedFrame: one reading of the monotonic clock stands for the two the code takes when it builds a frame.
- The tuple `_first_time` caches for an unbounded query: recomputed.
- `PreferLeader` availability elections, duplicate-name tiebreaks and the conflict detectors: best-effort paths that accept double runs.
- Convergence: that polling comes to rest, how long that takes, and what a node does on stale gossip until then is not modelled; the limits on how many member lines and names a body may carry are not either, and nor is a node without an instance id.
- Field-by-field validation of `/peer` bodies: a parser is a parameter of `ConditionalPoll`.
- ConditionalPoll.ConditionalIsUnconditional: a peer that answers 304 to a tag it never served is out, since the poller cannot tell; the digest is taken to tell the payloads served apart. A peer of another build never answers 304 in the model, even to a tag it did serve.
- The server's short-lived response cache: the payload of a turn is whatever was served.
- Job summaries, node stats, fleet view, timestamps and log lines: observability.
- JobObjects: caps, statistics and the watcher thread's own life; a lost watcher only stops sending messages. An exception inside attach's own handler restarts the ending in the model and escapes in the code; one inside the ending of a late attach is ignored in the model and escapes in the code. Either can leave the child as it was.
- Cgroups: weights, memory and pids caps, the delegation set-up, and other daemons that write the same files.
- Fingerprint.Memo.RedactAction: which values are secret is a parameter. Dafny references are never reused, which is what keeping each source block in the table achieves.
- JsonText.SameJsonIsSameJob: how the encoder spells a fraction is a parameter that tells the fractions at hand apart; a string holds Unicode scalar values, so no lone surrogates.
- FireCounts.CountFires: zones whose offsets are not whole minutes, and a walk with more than two repeats, have no count promised; the display zone is the one `WalkFrame` chose.
- ICal: events, durations, stamps and the calendar file around the text layer; lone surrogates, which do not encode.
- Command line, HTTP surface, state files, metrics, web UI, discovery and everything else outside the files cited above.
