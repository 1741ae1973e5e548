# dpm: a verified model

This project models the core of dpm, an experimental package manager for Debian, and proves
properties of it with Dafny.  It has four larger parts and a smaller one.

* **Planning and ordering.**  `Graphs`, `Ordering` (the walk over strongly connected components, which calls
  back and visits again what the callback leaves), `Network`, `Cleanup` (is the goal attainable, what does it
  need), `Execution` and `Outcomes` (installing and unpacking along the walk), `Searches` and `NaiveInstall` (the
  search for a plan), `CandQueue` (the priority queue of candidates), `TagSets` (sets with cheap reset).
* **Workspace.**  `Catalog` (package relations and what they mean), `DepBuilder` (compiling them to deps),
  `ReverseDeps`, `Workspace` (selection and satisfaction counters), `Startup` (all of it together), `Meanings`
  (what the deps say about relations, fields and versions).
* **Struct store.**  `Mapvec` (sparse vectors), `HashTries`, `Dictionaries`, `SetDicts`, `InternTables`,
  `TrieEntries` (the iterator with its arrays), `Enumerations`, and the garbage collector: `GcStores`,
  `GcStates`, `GcTables`, `GcDelays`, `Collector`, `GcResults`, `GcAgain`, `GcTries`, `GcExamples`.
* **Versions.**  `Versions` (comparison, version relations, the best version on offer), `VersionLaws` (the order,
  said of the characters of versions).
* **Relation text.**  `RelationText` (parser and printer), `RelationLayouts` (what texts of any layout, and in bad
  shape, parse to).

Seats, candidates, deps and stored objects are numbers, in the order in which they were made.  Code that changes
state is modelled by classes and methods with loops, each proved against a specification function; what is
promised is then proved of those functions, over all runs where there are runs.  A callback of the walk is a
function value; `Handler.Handle` and `JudgeComponent` are the imperative callbacks, proved equal to the function
values that the walk is given.  `Ordering.Run` records everything a callback was passed.

Some things that the proofs brought out:

* The declaration of the goal check says that the needed seats are marked as relevant (`libdpm/alg.h:113-118`).
  The code marks the seat of the goal only (`libdpm/alg.c:629`).  `Cleanup.NeededNotMarked` is an input where a
  needed seat does not get marked.  `Cleanup.NeededAreMarked` says exactly when all of them are, in terms of the
  selection and of the seats that are relevant before the check (`Cleanup.MarksSuffice`).
* A missing revision is not revision 0 as in section 5.6.12 of the Debian Policy Manual, but sorts before any
  revision that does not start with a tilde (`Versions.MissingRevision`).  `Versions.PolicyAgrees` says exactly
  when this makes a difference, `Versions.MissingRevisionExample` is an input.
* Collecting garbage fails when more than 1024 references to tables are met.  `Collector.Collect` says so for all
  stores, by a count of the store; `GcExamples.TooManyTables` is a store that fails.
* Setting null for a key that is not there stores a null entry when the search node holds colliding keys
  (`libdpm/store.c:1982`).  What the dictionary holds is therefore stated through looking up.
* A relation operator `<` is read as `<=` and `>` as `>=`; the printer writes the long forms, so that text is
  not always reproduced but relations are.

Objects of a store may lead to any objects of it, only subtables must lie before the node they belong to, as they
do when tables are made or copied.  `GcExamples.SmallStoreOk` gives such a store, and `GcAgain.CollectAgain` shows
that collecting leaves one.

Verify everything with `dafny verify dfyconfig.toml`.

## Model

| member | source | states |
|---|---|---|
| Ordering.Order | libdpm/alg.c:472-534 | The walk from the relevant seats ends, with exactly the seats reachable from them done; what the callback saw is a `Run`: every component it got is a strongly connected component of the graph of seats not yet done, and all other successors of its members were done; at most n(n+1)/2 stack entries are in use for n reachable seats |
| Ordering.Walk.Visit | libdpm/alg.c:482-520 | A visit of an untouched seat either settles all that it opened, or leaves one open group on the stack that leads back to an older seat; tags of others are kept; nested visits stay within the stack budget |
| Ordering.Walk.Explore | libdpm/alg.c:493-501 | Following the edges of a seat merges the groups left open below it and keeps the lowest tag reached |
| Ordering.Walk.Deliver | libdpm/alg.c:503-508 | The tags of the component are reset, the callback is called once with the component, and exactly the seats it picks are marked done |
| Ordering.Walk.Finish | libdpm/alg.c:503-517 | The delivered component is popped only when all of its seats are done, however often the callback leaves some of them |
| Ordering.Walk.Revisit | libdpm/alg.c:510-514 | A repeated visit of a seat that was left settles it and leaves the outer stack alone |
| Ordering.GrowComponent | libdpm/alg.c:493-508 | When all edges are followed and no lower tag was met, the group on top of the stack is a strongly connected component whose other successors are done |
| Ordering.GrowOpen | libdpm/alg.c:493-501 | When a lower tag was met, the group stays open: each member reaches an older seat of the stack |
| Ordering.RevisitCloses | libdpm/alg.c:510-514 | A visit started inside a delivered component cannot leave a group open |
| Ordering.RunClosed | libdpm/alg.h:98-106 | In every run with a callback that keeps its contract, what is done is closed under successors |
| Ordering.TriangleClosedForm | libdpm/alg.c:479-519 | The stack budget adds up to n(n+1)/2, twice which is n(n+1) |
| Cleanup.Or | libdpm/alg.c:547-553 | Three-valued or: true exactly when one side is, false exactly when both are |
| Cleanup.And | libdpm/alg.c:548-558 | Three-valued and: false exactly when one side is, true exactly when both are |
| Cleanup.JudgeComponent | libdpm/alg.c:575-627 | The callback loop computes the specified judgement of a component: seats with a decided value are done, and when there are none all are ok |
| Cleanup.JudgeAlts | libdpm/alg.c:595-604 | The early exit over alternatives computes the three-valued or over the selected ones |
| Cleanup.JudgeDeps | libdpm/alg.c:592-609 | The early exit over deps computes the three-valued and |
| Cleanup.JudgingDutiful | libdpm/alg.c:575-627 | The goal check marks at least one seat of every component it is passed, and no others |
| Cleanup.UnknownSupports | libdpm/alg.c:619-626 | A component whose seats all wait for each other supports itself, so that calling all of it ok loses nothing |
| Cleanup.RunGreatest | libdpm/alg.c:560-633 | After any run of the walk the ok seats are the greatest self-supporting set among those done |
| Cleanup.GreatestIsOk | libdpm/alg.c:575-633 | The ok flags at the end are, among the seats reachable from the relevant ones, exactly those that some self-supporting set contains |
| Cleanup.SeatInfo.VisitNeeded | libdpm/alg.c:639-661 | The sweep ends and marks exactly what the selected candidates lead to over ok alternatives, or over all where none is ok |
| Cleanup.SweptSupports | libdpm/alg.c:635-663 | From an ok goal the needed set is self-supporting |
| Cleanup.CleanupGoal | libdpm/alg.c:560-675 | The goal is ok if and only if its seat lies in some self-supporting set; the ok set is the greatest one, given by the selection and the relevant seats; needed seats are those led to; unused are the others, in order; only the seat of the goal is added to the relevant ones, and when that suffices is said of the input |
| Cleanup.NeededAreMarked | libdpm/alg.h:113-118 | All needed seats end up marked as relevant if and only if, before the check, some set of relevant seats with that of the goal already contains all that the sweep follows from its members; the ok seats that decide what is followed are those of the reachable seats that are attainable |
| Cleanup.NeededNotMarked | libdpm/alg.c:629-663 | A goal with one dep on a seat that was not relevant: the seat is needed and does not get marked |
| Cleanup.RevertKeepsGoal | libdpm/alg.c:437-447 | After every seat that is not needed went back to its initial candidate, the needed set is still self-supporting and the goal attainable |
| Execution.Handler.Handle | libdpm/alg.c:864-1066 | The callback, with its nested loops and early returns, computes the specified new database, trace and set of done seats, for any component |
| Execution.Handler.TryInstall | libdpm/alg.c:929-946 | Installs, in order, each seat whose deps all meet the condition in the database of that moment |
| Execution.Handler.TryInstallSome | libdpm/alg.c:948-977 | Marks installed seats; else installs what is satisfied; else what is satisfied but for what it breaks |
| Execution.Handler.TryUnpack | libdpm/alg.c:1016-1036 | The unpack loop ends and gives the database of passes repeated until one makes no progress |
| Execution.UnpackAllKeeps | libdpm/alg.c:1012-1036 | When the unpack loop ends, what is still packed cannot be unpacked; if no seat was found unpacked, then none is and nothing was done |
| Execution.CheckDeps | libdpm/alg.c:921-927 | All deps of a candidate meet a condition |
| Execution.HandleProgress | libdpm/alg.c:864-1066 | On any plan and component at least one seat is marked done, only seats of the component are; every action is justified when it is taken; installed selections stay installed; every seat marked is installed as selected or was given up; and the component is given up only as a whole, as the last action, when it is stuck: no seat is installed or meets its deps, not even with breaks allowed, and either some seat would not with all others installed, or nothing more can be unpacked and either nothing is or unpacked alternatives are not enough for any seat |
| Execution.HandlingDutiful | libdpm/alg.c:864-1068 | Handling keeps the contract of the walk, so that execution ends on any plan |
| Execution.RunSettles | libdpm/alg.c:1068-1068 | Over any run the trace leads from the first database to the last by justified actions; each done seat is installed or was given up; what was given up was a component of the seats not done then, stuck, with everything else it leads to settled before |
| Execution.NotInstalledWasStuck | libdpm/alg.c:864-1066 | A reached seat that is not installed in the end was given up with the whole of a component that was stuck at that moment |
| Execution.GaveUpCause | libdpm/alg.c:991-1011 | If every dep has a selected alternative, then a component that is given up is an unbreakable cycle, or depends on a seat outside of it that was given up earlier |
| Execution.AllInstalled | libdpm/alg.c:864-1068 | A plan in which every dep has a selected alternative is carried out in full, however cyclic it is, unless it contains an unbreakable cycle |
| Execution.ChainStatus | libdpm/db.c:1307-1321 | A trace changes the status of a seat only to what is selected for it, never its flags, and no other seat |
| Execution.SetStatusReads | libdpm/db.c:1307-1321 | Writing a status changes version and state of one package only and keeps its flags |
| Execution.ActionKeeps | libdpm/ws.c:1467-1495 | Installing records the selected version as set up; unpacking records it as unpacked, or the package as removed; no other package is touched, and seats without package leave no record |
| Outcomes.LastDecides | libdpm/ws.c:1467-1495 | At the end of any chain the status of a package is what the last action on it left: version and set up after installing, version and unpacked after unpacking, no version and set up after a removal |
| Outcomes.StatusStays | libdpm/db.c:1307-1321 | A package without action, and a seat without package, keeps its status |
| Outcomes.SetUpHow | libdpm/inst.c:71-87 | Over any chain a package that has its selected version set up at the end had it from the start or was installed; unpacking alone is never enough |
| Outcomes.UnpackedIsNotInstalled | libdpm/ws.c:1430-1495 | What was just unpacked does not count as installed if it has a version, and does if it is a removal |
| Outcomes.MetIs | libdpm/ws.c:1497-1542 | The conditions on deps, relation by relation: what unpacked alternatives satisfy, what must hold before unpacking, what may break |
| Outcomes.JustifiedMeans | libdpm/alg.c:864-1066 | An action is justified exactly if it is allowed by the records of the packages and the relations of the deps: pre-dependencies and conflicts before unpacking, dependencies or all but what may break before installing, and seats are given up only without any way on |
| Outcomes.ChainAllowed | libdpm/alg.c:864-1066 | Over any chain every action was allowed, in these terms, where it was taken |
| Execution.AcyclicSingle | libdpm/alg.c:872-1068 | Without cycles the walk passes single seats all of whose successors are done |
| Execution.RunInOrder | libdpm/alg.c:864-1068 | For an acyclic plan in which every dep has a selected alternative, any run only installs, each seat once, and each when every dep already has an installed selected alternative |
| Execution.Execute | libdpm/alg.c:830-1069 | Carries out any plan: the trace is that of a run of the walk with this callback, all reached seats are settled by a justified trace in which only stuck components are given up; a plan with all deps selected and no unbreakable cycle is installed in full; on an acyclic complete plan the trace is orderly |
| NaiveInstall.BetterThan | libdpm/alg.c:322-331 | One candidate replaces another if that is missing or has no version, or if both have versions and its own compares greater |
| NaiveInstall.FindBest | libdpm/alg.c:333-366 | The first alternative that is selected and satisfied, unless it is the ugly one and that is not accepted; else, of the seat of the first alternative, the first candidate of a version that none there compares greater than |
| NaiveInstall.Planner.Visit | libdpm/alg.c:368-419 | The search ends on a measure over the visited and changed sets; a candidate that may be walked is selected and walked next; in the end it is selected on a visited seat, or its seat was changed to another; only seats not changed before change; and all deps of the selected candidates of visited seats have been tried, but for those whose walk is still going on |
| NaiveInstall.Planner.Arrive | libdpm/alg.c:373-407 | Walks a candidate exactly if it is selected and its seat is not visited, or it is not and its seat is not changed; a walk uses up part of the measure, and a rejected candidate changes nothing |
| NaiveInstall.Planner.VisitDeps | libdpm/alg.c:409-418 | Unless the candidate was deselected meanwhile, which ends the loop, all its deps have been tried: each has no alternatives, or one that is selected on a visited seat or lies on a changed seat |
| NaiveInstall.Planner.VisitDep | libdpm/alg.c:409-412 | One dep is tried with its best alternative, where the ugly candidate is accepted only for a candidate that the search has not selected itself |
| NaiveInstall.WalkGoal | libdpm/alg.h:87-92 | The selection comes from a valid trail of walks that starts with the goal: each walks the best alternative for a dep of a selected candidate walked before, and selects it if need be; all deps of the selected candidates of walked seats have been tried; a seat is changed at most once and walked at most twice; other seats keep their candidates; a goal that was not selected is selected |
| NaiveInstall.Revert | libdpm/alg.c:437-447 | The unused seats go back to their initial candidates, all others stay |
| NaiveInstall.InstallNaively | libdpm/alg.c:309-451 | The result is true exactly when the goal is attainable in the plan found, which is where a valid and complete trail of walks leads to, with the bounds of `WalkGoal`; when it is false the plan is obstructed; afterwards every seat has its planned or its initial candidate, and a good plan still attains the goal |
| NaiveInstall.FailureExplained | libdpm/alg.c:409-451 | If the goal is not attainable in the end, then some selected candidate that was walked has a dep without alternatives, or with an alternative on a seat that was changed to another candidate |
| Searches.TrailBounds | libdpm/alg.h:87-92 | On any valid trail each seat is changed exactly once if it counts as changed, else never, and walked at most once more often than it is changed |
| Searches.TrailSelects | libdpm/alg.c:373-407 | A seat that is not changed keeps its candidate; one that is changed ends with the candidate that a single walk selected for it |
| Searches.ChangeExplained | libdpm/alg.c:302-366 | A seat is changed only for the goal, or for a dep, of a candidate walked before, none of whose alternatives was selected and satisfied; it then gets the candidate of the seat of the first alternative with a version that none there is greater than, and those before are less than |
| Searches.BestMeans | libdpm/alg.c:333-418 | Which alternative of a dep is walked: the first that is selected with all its deps satisfied, where the ugly candidate does not count for a candidate that the search selected itself; else the first with the greatest version on the seat of the first alternative |
| Searches.NewestMeans | libdpm/alg.c:354-366 | The candidate picked for want of a usable one is on the seat of the first alternative, no version there is greater, and those before it are less |
| CandQueues.CandQueue.Set | libdpm/alg.c:210-225 | The queue as a map gets one priority set or added |
| CandQueues.CandQueue.SetMax | libdpm/alg.c:227-239 | Raises a priority to at least the one given, and says what it is now |
| CandQueues.CandQueue.Get | libdpm/alg.c:241-249 | The priority of a candidate, 0 if it is not in the queue |
| CandQueues.CandQueue.Peek | libdpm/alg.c:251-265 | An entry of highest priority, or none if the queue is empty |
| CandQueues.CandQueue.Pop | libdpm/alg.c:267-280 | Removes an entry of highest priority from the map and nothing else |
| CandQueues.CandQueue.Reheap | libdpm/alg.c:181-208 | Sifting up and then down from a hole restores heap order, keeps positions the exact inverse of the array, and keeps all other entries |
| CandQueues.RootIsMax | libdpm/alg.c:181-208 | In a heap no entry has a higher priority than the root |
| CandQueues.CandQueue.Drain | libdpm/alg.c:267-280 | Popping until the queue is empty gives every entry of the queue once, with priorities that never increase |
| CandQueues.DrainedInOrder | libdpm/alg.c:267-280 | Any sequence made by taking a maximum each time has every entry of the map once, in falling order; `Drain` shows that popping makes such a sequence |
| TagSets.TagSet.Reset | libdpm/alg.c:55-61 | The cheap reset empties the set |
| TagSets.TagSet.Add | libdpm/alg.c:63-67 | Adds one member |
| TagSets.TagSet.Remove | libdpm/alg.c:69-73 | Removes one member |
| TagSets.TagSet.Has | libdpm/alg.c:75-79 | Membership, across any number of resets |
| Catalogs.CompileMembers | libdpm/ws.c:765-797 | A recorded dep lists, without repetition, exactly the candidates that can make its relation hold |
| Catalogs.CompileMeaning | libdpm/ws.c:765-828 | In any configuration a recorded dep has a selected alternative exactly when its relation holds; a relation without a dep holds in every configuration |
| Catalogs.CompileAllMeaning | libdpm/ws.c:830-927 | All deps of a candidate have a selected alternative exactly when all its relations hold |
| DepBuilders.DepBuilder.AddAlt | libdpm/ws.c:748-757 | Adds an alternative unless it is there or the dep was killed |
| DepBuilders.DepBuilder.CheckSatisfies | libdpm/ws.c:669-700 | Does a candidate satisfy an alternative of a relation, or avoid it in a conflict |
| DepBuilders.DepBuilder.AddSatisfying | libdpm/ws.c:769-784 | Adds the candidates of a list that satisfy an alternative, and tells whether all do |
| DepBuilders.DepBuilder.AddProviders | libdpm/ws.c:786-796 | Adds the providers that count for a relation |
| DepBuilders.DepBuilder.CollectSeatAlts | libdpm/ws.c:765-797 | Adds the candidates of the seat that satisfy the alternative and the providers, or kills the dep if all candidates satisfy it |
| DepBuilders.DepBuilder.CollectRule | libdpm/ws.c:845-883 | Builds the dep of a whole relation, with the ugly candidate for recommendations; duplicates are removed across deps by one tagged set |
| ReverseDeps.ReverseMeaning | libdpm/ws.c:985-1034 | Where the selected candidate of the other seat has its deps satisfied, the reverse dep of a selected candidate is satisfied; a trivial one is satisfied in every configuration |
| ReverseDeps.ReverseSame | libdpm/ws.c:996-997 | Reverse deps depend on forward deps only, not on reverse deps derived before |
| Workspaces.Workspace.AddDep | libdpm/ws.c:799-828 | A new dep comes first in the list of its candidate and in those of its alternatives, with the right counters |
| Workspaces.Workspace.Finish | libdpm/ws.c:799-828 | Records the dep that was built, unless it was killed, and keeps all counters right |
| Workspaces.Workspace.Leave | libdpm/ws.c:1190-1204 | Counters after a candidate is deselected |
| Workspaces.Workspace.Enter | libdpm/ws.c:1204-1213 | Counters after a candidate is selected |
| Workspaces.Workspace.Select | libdpm/ws.c:1190-1213 | Selecting changes one seat, and every counter is again what counting from scratch would give |
| Workspaces.Workspace.CandSatisfied | libdpm/ws.c:1227-1231 | The counter test agrees with the definition: each dep of the candidate has a selected alternative |
| Workspaces.CountsMove | libdpm/ws.c:1190-1213 | Decrementing along the old candidate and incrementing along the new one is counting again |
| Workspaces.SatisfiedExactly | libdpm/ws.c:1221-1231 | A count of zero unsatisfied deps means that none is unsatisfied |
| Startup.FindProviders | libdpm/ws.c:649-667 | Per seat the list of the candidates that provide its package, the last one first, once for each time they do; its members are exactly the providers |
| Startup.ProviderListMembers | libdpm/ws.c:649-667 | The list of providers has exactly the candidates that provide the package |
| Startup.ComputeDeps | libdpm/ws.c:830-927 | The deps of all candidates are the compiled relations, those of the goal last |
| Startup.TakeCand | libdpm/ws.c:993-1027 | What one candidate of the other seat contributes to a reverse dep |
| Startup.ConsiderCandAndSeat | libdpm/ws.c:985-1034 | Puts the reverse dep of a candidate for a seat in front of its deps, unless it is trivial |
| Startup.ComputeReverseDeps | libdpm/ws.c:1042-1067 | Each candidate has its forward deps with reverse deps in front |
| Startup.Start | libdpm/ws.c:1178-1185 | A started workspace has the compiled and the reverse deps, and right counters |
| Startup.StartedMeaning | libdpm/ws.c:830-1067 | In any configuration all deps of all selected candidates are satisfied, reverse ones included, exactly when all rules that their relations are turned into hold |
| Startup.DerivedHolds | libdpm/ws.c:930-1067 | Where all forward deps of selected candidates hold, their reverse deps hold |
| Startup.CountersMeanRelations | libdpm/ws.c:1227-1231 | All selected candidates count as satisfied exactly when all their rules hold |
| Meanings.WorkspaceMeaning | libdpm/ws.c:830-1067 | In any configuration all deps of all selected candidates are satisfied exactly when each pre-dependency and dependency has an alternative that is selected or provided, each recommendation too or the ugly candidate is selected, each conflict and break has an alternative whose package is not selected as named, and the goal relations hold, where the goal can ask for a package not to be there |
| Meanings.CountersMeanFields | libdpm/ws.c:1227-1231 | All selected candidates count as satisfied exactly when all their relations hold, in these terms |
| Meanings.DepsComeFrom | libdpm/ws.c:845-927 | Each compiled dep stands for one relation, of the field it is marked with, in every configuration; deps come in the reverse order of the relations; a relation without a dep holds in every configuration |
| Meanings.AlternativesOrdered | libdpm/ws.c:765-797 | The alternatives of a dep, in order: for each alternative of the relation the candidates that it asks for, then the providers except in conflicts, and the ugly candidate last for a recommendation, each once |
| Meanings.StartedDeps | libdpm/ws.c:930-1067 | The deps of a candidate are those that mirror deps of others, one for every seat with a candidate whose dep is on a sibling only, and then those of its own relations |
| Meanings.ReverseMirrors | libdpm/ws.c:985-1034 | A reverse dep has exactly the candidates of the other seat that do not mind and what the deps of the others allow instead; it counts as a conflict exactly if one of those deps is one |
| Versions.CompareFragment | libdpm/db.c:953-1037 | The nested pointer loops compute the order of fragments |
| VersionLaws.TextDecides | libdpm/db.c:945-995 | Where two texts differ for the first time, other than in a number, a tilde comes before the end of the text and digits, these before letters, these before other characters, and letters and others go by their codes |
| VersionLaws.NumbersDecide | libdpm/db.c:997-1014 | Where two texts go on with numbers, the shorter one without leading zeros is less, or the one with the smaller digit at the first difference, whatever follows |
| VersionLaws.ZerosIgnored | libdpm/db.c:997-1000 | Leading zeros of a number do not count |
| VersionLaws.NumberAtEnd | libdpm/db.c:1013-1033 | After text a number is more than nothing, and a zero is as good as nothing |
| Versions.CompareTextPart | libdpm/db.c:985-995 | Comparing character by character until both texts go on with a number keeps the order of what is left |
| Versions.CompareNumbers | libdpm/db.c:997-1014 | Skipping zeros and comparing digit runs of any length compares their numeric values |
| Versions.NonEmptyOrder | libdpm/db.c:979-1036 | On fragments that are not empty the order is the zero-padded lexicographic order of their keys: text weights, terminator 0, number |
| Versions.EmptyOrder | libdpm/db.c:957-968 | The empty fragment comes after those that start with a tilde and before all others |
| Versions.CompareVersions | libdpm/db.c:1039-1112 | Epoch, upstream version and revision are found by the loops and compared in this order |
| VersionLaws.PartsDecide | libdpm/db.c:1039-1112 | Epochs decide before upstream versions and these before revisions, in versions put together from parts; an epoch of zeros is no epoch |
| Versions.VersionOrderTotal | libdpm/db.c:1039-1112 | Versions compare in one direction or the other, and symmetrically |
| Versions.VersionOrderTransitive | libdpm/db.c:1039-1112 | The comparison of versions is transitive |
| Versions.MissingRevision | libdpm/test.c:1335-1337 | No version without a revision equals one that has any; with equal epoch and upstream version it comes before, unless the revision starts with a tilde |
| Versions.PolicyAgrees | libdpm/db.c:1039-1112 | The order is the one of policy, where a missing revision is 0, if and only if it is not decided by a missing revision against zeros followed by nothing or a tilde |
| Versions.MissingRevisionExample | libdpm/test.c:1335-1337 | Version 1.0 sorts before version 1.0-0 |
| Versions.CheckVersions | libdpm/db.c:1140-1162 | For each operator, what the comparison has to give; without operator any version that there is will do |
| Versions.OpsPartition | libdpm/db.c:1140-1162 | Inclusive operators are the strict one or equality, not less is greater or equal, and swapping the versions swaps less and greater |
| Versions.GetBestVersion | libdpm/pol.c:24-59 | The first of the greatest accepted versions on offer, from the configured origin or from all, and none exactly if none is accepted |
| Mapvecs.ShiftCounts | libdpm/store.c:1392-1392 | Counting the bits of the map shifted left by 32 minus the index counts the bits below the index |
| Mapvecs.SetGet | libdpm/store.c:1387-1443 | A vector behaves as an array of 32 slots: what is set is got, null included, and every other index keeps its value |
| Mapvecs.VecLength | libdpm/store.c:1375-1443 | With its map a vector has one element more than the map has bits, the two that are always present included |
| Mapvecs.NewVecEmpty | libdpm/store.c:1381-1385 | A new vector is valid and null at every index |
| Mapvecs.SlotIndex | libdpm/store.c:1387-1398 | Every stored slot is the one that is got at some index |
| HashTries.SplitOk | libdpm/store.c:1510-1534 | A search node whose hash differs can move a level down, without changing what is found; there is always a level left to move to |
| HashTries.WholeHash | libdpm/store.c:1491-1552 | Two hashes that agree on six levels are the same |
| HashTries.LookupActs | libdpm/store.c:1498-1552 | A lookup changes the entries of its hash as the action does and those of no other hash, however many nodes it splits, and the trie stays well formed |
| Dictionaries.FindKey | libdpm/store.c:1926-1934 | The search loop of the actions finds the first entry of a key |
| Dictionaries.PutAssoc | libdpm/store.c:1923-1984 | In a search node, putting or removing a key changes what is found for that key only |
| Dictionaries.SetActionPuts | libdpm/store.c:1948-1984 | The set action puts, removes, or stores a null entry beside colliding keys |
| Dictionaries.SetSets | libdpm/store.c:2137-2144 | Setting changes the value of one key of the dictionary, also under collisions, and setting null deletes |
| Dictionaries.GetGets | libdpm/store.c:2127-2135 | Looking up gives the value, and the trie that it leaves, even when nodes were split, holds the same |
| Dictionaries.Dict.Set | libdpm/store.c:2137-2144 | The dictionary object after a set |
| Dictionaries.Dict.Get | libdpm/store.c:2127-2135 | The dictionary object after a get, whether or not its root is updated in place |
| Dictionaries.AnswersAsMap | libdpm/store.c:1923-2144 | Any sequence of sets and gets answers as a finite map would, for any hash function of 30 bits |
| Dictionaries.EmptyHolds | libdpm/store.c:2078-2103 | A dictionary without root is the empty map |
| SetDicts.FindMember | libdpm/store.c:1986-2010 | The search loop over the members of a set |
| SetDicts.AddAdds | libdpm/store.c:2012-2042 | Adding adds one value to the set of its key |
| SetDicts.DelDeletes | libdpm/store.c:2044-2076 | Deleting takes one value from the set of its key; the last one takes the key along |
| SetDicts.SetDict.Add | libdpm/store.c:2146-2153 | The dictionary object after an addition |
| SetDicts.SetDict.Del | libdpm/store.c:2155-2162 | The dictionary object after a deletion |
| SetDicts.SetDict.Get | libdpm/store.c:2127-2135 | Looking up gives the set of the key, none if it is empty, and changes nothing |
| SetDicts.AnswersAsPairs | libdpm/store.c:1986-2162 | Any sequence of additions, deletions and lookups answers as a set of pairs would |
| SetDicts.EmptyHoldsPairs | libdpm/store.c:2078-2103 | A dictionary without root has no members for any key |
| InternTables.InternInterns | libdpm/store.c:1562-1618 | Interning gives the stored object of the same content, or stores the one offered, and leaves other contents alone |
| InternTables.SoftFinds | libdpm/store.c:1620-1638 | A soft lookup finds the object of a content if there is one, and changes no content |
| InternTables.Table.Intern | libdpm/store.c:1682-1703 | The table after interning |
| InternTables.Table.InternSoft | libdpm/store.c:1705-1714 | The table after a soft lookup |
| InternTables.FirstStays | libdpm/store.c:1562-1618 | In any run every request gets the object of its content that was there first |
| InternTables.OneObject | libdpm/store.c:1676-1703 | In any run two requests get the same object exactly when their contents are the same |
| TrieEntries.HeightBound | libdpm/store.h:151-158 | A trie has at most six levels of dispatch nodes and one of search nodes |
| TrieEntries.StepKeeps | libdpm/store.c:1741-1784 | A micro step passes the entry at hand if there is one, loses none, and leaves one step less to go |
| TrieEntries.Cursor.Move | libdpm/store.c:1741-1784 | The micro step on the arrays of ten places is the specified one and stays inside them |
| TrieEntries.Cursor.Settle | libdpm/store.c:1807-1810 | Micro steps end, at an entry or at the end of the trie |
| TrieEntries.Cursor.Step | libdpm/store.c:1819-1828 | A step passes exactly one entry |
| TrieEntries.Cursor.Element | libdpm/store.c:1836-1840 | The element is the next entry |
| TrieEntries.Cursor.constructor | libdpm/store.c:1795-1811 | A new iterator has all entries before it |
| TrieEntries.Collect | libdpm/store.c:1795-1840 | The iterator yields the sequence of the recursive walk, for tables and dictionaries |
| TrieEntries.ForEach | libdpm/store.c:1716-1733 | The recursive walk visits all entries in the order of the nodes |
| Enumerations.ListsContents | libdpm/store.c:2164-2183 | A pair is listed exactly when looking up its key gives its value |
| Enumerations.DictionaryListsOnce | libdpm/store.c:2164-2183 | No key is listed twice |
| GcStates.MoveKeeps | libdpm/store.c:556-573 | Copying an object that is alive, or a table node that is reachable, keeps old and new objects in one-to-one correspondence, copies faithful, nothing moved that is not reachable, and counters exact |
| GcStates.FixKeeps | libdpm/store.c:728-742 | Replacing a field of a new object by what it points to now keeps all of this |
| Collectors.Collector.Copy | libdpm/store.c:508-573 | A value is relocated: forwarded objects to their copies, dropped tables to null, tables in the first phase delayed, others copied; more than 1024 delayed tables fail |
| Collectors.Collector.CopyObject | libdpm/store.c:549-573 | One object is appended to the new store, as it is, or with its new number if it is counted |
| Collectors.Collector.TabCopySearch | libdpm/store.c:669-687 | A search node of a table keeps its live entries in order, or is dropped |
| Collectors.Collector.TabCopyDispatch | libdpm/store.c:688-718 | A dispatch node keeps at every index the copy of its subtable, or is dropped if none is left |
| Collectors.Collector.TabCopy | libdpm/store.c:664-726 | Copying a table forwards its node and nodes below it, each after its parent or from it, and no other object |
| Collectors.Collector.ScanField | libdpm/store.c:733-737 | One field of a new object is relocated; it is delayed exactly if the original leads to a table |
| Collectors.Collector.ScanObject | libdpm/store.c:728-742 | All fields of a new object are relocated, tables excepted in the first phase, and as many tables are delayed as the original leads to |
| Collectors.Collector.Scan | libdpm/store.c:744-752 | The scan ends, although the store grows meanwhile, with every object scanned |
| Collectors.Collector.CopyPhase | libdpm/store.c:754-761 | After the first phase only tables are pointed to in the old store, after the last phase nothing is |
| Collectors.Collector.Collect | libdpm/store.c:819-843 | Collecting succeeds if and only if the root and the live objects have at most 1024 references to tables, and then gives a complete new store |
| GcDelays.AllRefs | libdpm/store.c:527-533 | At the end of the first phase exactly the references to tables from the root and from live objects have been met |
| GcExamples.WideRefs | libdpm/store.c:527-533 | A record with n references to one table has n of them, for every n |
| GcExamples.TooManyTables | libdpm/store.c:529-530 | Well-formed stores with 1024 references, which are collected, and with 1025, where collecting fails |
| GcTables.PackedVec | libdpm/store.c:694-717 | The map and values left by the packing loop are a vector of the results |
| GcTables.PackedEmpty | libdpm/store.c:711-713 | The test for an empty node holds exactly when no index has a result |
| GcAgain.CollectAgain | libdpm/store.c:819-856 | The store that collecting leaves, with its root, can be collected again |
| GcStates.MoveOrder | libdpm/store.c:694-717 | The copy of a subtable lies before the copy of its parent |
| GcResults.LiveAreCopied | libdpm/store.c:484-573 | The objects copied are exactly those reachable from the root without going through a table |
| GcResults.LiveIsLeast | libdpm/store.c:549-573 | What is alive is the least set with the root that no field leads out of, except fields of table nodes and the number of a counted record |
| GcResults.CopiesAreUnique | libdpm/store.c:508-573 | Every new object is the copy of one old object, no object is copied twice, and the new root is the copy of the old |
| GcResults.FieldCopied | libdpm/store.c:556-573 | Copies have kind, tag and length of their objects; fields lead to the copies of what they led to, except the first field of counted objects |
| GcResults.BlobCopied | libdpm/store.c:549-555 | Blobs are copied byte for byte |
| GcResults.Renumbered | libdpm/store.c:564-565 | The objects of a tag from 64 to 79 have exactly the numbers from 0 up to their count, each once |
| GcResults.TableKeepsLive | libdpm/store.c:664-726 | The copy of a table has exactly the entries that are reachable without tables, in order; there is a copy exactly when there are any |
| GcResults.LiveTablesAreCopied | libdpm/store.c:664-726 | A table node is visited exactly if it is reachable, perhaps through other table nodes, and is copied exactly if also some of its entries are reachable without tables |
| GcTries.DispatchTrie | libdpm/store.c:1387-1398 | The trie of a dispatch node has at each index the trie of what the node has there |
| GcTries.TableKeepsBuckets | libdpm/store.c:664-726 | If a table is a well-formed hash trie then so is its copy in the new store, and looking up any hash in the copy finds exactly those entries found before that are reachable without tables, in order |
| RelationText.ReadRelations | libdpm/db.c:406-472 | The loops over relations and alternatives compute the specified parse of a text, with all error cases and limits |
| RelationText.ReadAlternatives | libdpm/db.c:416-455 | The loop over alternatives computes the alternatives of one relation |
| RelationText.Iterator.Step | libdpm/parse.c:109-183 | One step of the iterator: name, operator and version, the end, or an error |
| RelationText.Input.SkipAll | libdpm/dyn.c:1223-1242 | Skips characters of a set, in which the null character always is |
| RelationText.Input.FindOne | libdpm/dyn.c:1191-1210 | Goes to the first character of a set, or to the end |
| RelationText.Input.NextRelation | libdpm/parse.c:81-92 | Passes a comma, if there is one after blanks |
| RelationText.ParseShown | libdpm/db.c:1184-1224 | Parsing the printed text of relations gives back the same operators, names and versions in order |
| RelationText.ParsedIsOk | libdpm/db.c:406-472 | Lists of relations come out of the parser if and only if they are well formed; then printing and parsing again gives the same |
| RelationLayouts.LayoutIrrelevant | libdpm/parse.c:109-183 | Relations of any layout, with blanks, tabs and line ends around all tokens and either spelling of the inclusive operators, parse to the same as their printed form; empty relations are left out, and what follows is not read |
| RelationLayouts.TextParses | libdpm/db.c:406-472 | The same beyond the limits: the 65th alternative of a relation and the 2049th relation are errors |
| RelationLayouts.LinesParse | libdpm/db.c:463-467 | Relations up to a comma are read alike, whatever comes after the comma, good or bad |
| RelationLayouts.ItemsParse | libdpm/parse.c:115-129 | Alternatives up to a bar are read alike, whatever comes after the bar |
| RelationLayouts.VersionMissing | libdpm/parse.c:150-154 | An operator and then a parenthesis, a comma or a bar is the error of a missing version |
| RelationLayouts.ParenthesisMissing | libdpm/parse.c:156-163 | Anything but a closing parenthesis after a version is an error |
| RelationLayouts.OperatorUnknown | libdpm/db.c:420-438 | Any other run of operator characters, the empty one included, is an unknown operator |
| RelationLayouts.ParsedExactly | libdpm/db.c:406-472 | Exactly the lists of at most 2048 relations of 1 to 64 alternatives come out, whose names and versions are free of the characters that end them |
| RelationLayouts.ShownAlternative | libdpm/db.c:1184-1197 | The printed form of an alternative, operator by operator |
| RelationLayouts.ShownRelation | libdpm/db.c:1184-1197 | Alternatives are printed with bars between them |
| RelationLayouts.ShownRelations | libdpm/db.c:1211-1224 | Relations are printed with commas between them |

## Left out

- Ordering.Order: the stack array of 20000 seats is a sequence without limit; the bound n(n+1)/2 on its use is proved, but nothing says that it is below 20000, because the code does not check.
- Execution.Execute: what the package scripts do, and whether they fail, because `dpm_inst_unpack_or_setup` only prints and sets the status; messages and the printing of cycles are left out.
- NaiveInstall.InstallNaively: the `winner` array, because it is only used in messages; versions and initial candidates are inputs.
- Workspaces.Workspace.Select: counters and tags are unbounded integers, because they count objects in memory; seats and candidates are made before the workspace is started, and null candidates are always there.
- ReverseDeps.ReverseMeaning: the converse, because alternatives are pooled over all candidates of the other seat, so that reverse deps do not imply forward deps.
- TagSets.TagSet.Reset: wrap-around of the tag, which is a 32-bit integer in the code, because it takes as many resets.
- Versions.CompareFragment: text beyond ASCII; a character that is not a digit must follow the text in memory, because the code reads the character at the end.
- Mapvecs.SetGet: vectors are values; an unstored vector is changed in place in the code, and so are unstored trie nodes and search nodes. What aliasing could show of this is only modelled where a lookup in an unstored dictionary keeps the split nodes (`Dict.Get`).
- HashTries.LookupActs: hashes are numbers of 30 bits, computed by a function that is a parameter, because nothing depends on how they are computed.
- InternTables.OneObject: objects are pairs of content and address, and equality of contents is equality, because the comparison functions of the code are equivalences that agree with the hash.
- Collectors.Collector.Collect: stores with dictionaries, which are hashed again when they are collected, and with weak dictionaries, whose values are copied without their children in the ripple pass; tables that share nodes or contain tables. Without dictionaries the ripple pass does nothing.
- Enumerations.ListsContents: states what is stored, so that a null entry is listed, as in the code.
- RelationText.ReadRelations: input that is read in pieces, and the field name and line end around printed relations; package names stand for the packages that are found or created for them.
- Files, locking, compression, archives, formatters, the command line tools and the text formats other than relations: input, output and calls of foreign code.
- Reference counts, unwinding and errors as jumps: an error ends the operation with an error value.
- Storing and freeing of objects under construction, and growing the mapped store.
- `ss_dict_entry_members` and `ss_dict_update`: the former always yields the first member of a set, the latter rewrites entries with a function of the caller.
