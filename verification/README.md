# Verified model of the service recovery scheduler

The scheduler keeps a registry of monitored services. Each service has an ordered recovery policy; every
time its peer disappears from the bus, the next action of the policy is chosen, round and round. A D-Bus
stub above the registry remembers which bus connection stands behind which service and turns a lost
connection into a failure of that service.

The project models the two together and proves what whole runs of them do.

| file | what it holds |
|---|---|
| `Common.dfy` | recovery states, fixed-width integers, the catalogue of service names |
| `Cursor.dfy` | the 8-bit policy cursor: closed forms and the exact lengths for which it is right |
| `Registry.dfy` | the registry as a state machine over events |
| `History.dfy` | records as a function of the events since creation; exactly when a run stays defined |
| `Rotation.dfy` | the sequence of applied actions, fairness, prediction, last writers, query answers |
| `Projection.dfy` | services do not disturb each other |
| `Scheduler.dfy` | class `Scheduler`, proved to take the steps of the registry machine |
| `Peers.dfy` | the watch table and the handlers, one call at a time |
| `Attribution.dfy` | crash attribution and conservation over whole runs of handlers |
| `IterationOrder.dfy` | when the hash map's iteration order can matter |
| `Stub.dfy` | class `Stub`, proved to take the steps of the serial protocol |
| `Interleaving.dfy` | the handlers at the grain of their two locks, under every schedule |
| `Schedules.dfy` | under every schedule, exactly who is watched, who is orphaned, which loss is noticed and whom it fails |
| `Serializable.dfy` | which schedules are equivalent to a serial run |
| `Overlaps.dfy` | exactly which overlaps of two handlers can be told from a serial run |
| `SplitRegistration.dfy` | registration with its lookup outside the lock |
| `Grains.dfy` | lookup, commit and watch insert as three steps, among the critical sections of all other handlers |
| `Coverage.dfy` | aggregation of line coverage in `scripts/gen_report.py` |

How the pieces fit: a run of calls (`Peers.Serve`) and a schedule of critical sections (`Interleaving.Exec`) are
proved to be, for the registry, a run of `Registry.Run`, so every closed form of `History` and `Rotation` holds in
both. A run with split registration (`SplitRegistration.Exec`) is one only up to the liveness flag: policy, cursor,
crash count, current and last action, and with them `History.Record`, `History.ClosedForm`, `Rotation.AppliedTrace`,
`Rotation.FairRotation`, `Rotation.LastActionByLatest` and `Rotation.CurrentActionByLatest`, carry over;
`Rotation.OnlineByLatest` does exactly as long as `SplitRegistration.NeverMisses` holds. `Grains.Exec` has both at
once: `Grains.GrainsAgree` gives it the watches and the owed work of a schedule of critical sections, so everything
`Schedules` says about the watch table holds there too.

Choices the model makes explicit:

- Reading an action outside its policy is undefined behaviour in C++. The machine then enters `Undefined`, and
  the methods return `defined == false`. `History.UndefinedIff` says exactly which runs get there.
- So is going through an iterator to an erased map entry. In `SplitRegistration` an unregistration spoils every
  commit that holds an iterator to the entry, and landing a spoiled commit is undefined even if the name has been
  registered again; `SplitRegistration.DefinedIffAtomicIs` is exact about it.
- Narrowing to `int8_t` is implementation-defined in section 7.8 of ISO C++17; it is modelled as
  two's-complement wrap. The crash counter wraps at 2^32.
- A recovery state is any byte, as in C++; five values are named.
- The order in which a hash map is iterated is arbitrary. A loss signal carries the name of the entry the scan
  happens to reach first; `IterationOrder` shows that this is the same as choosing an order.
- The catalogue is given by its ids 2100 to 2119 and the letters A to T.

Where code and documentation disagree the model follows the code:

- Registering again does not extend or replace the policy (`lib_srs/inc/CRecoveryScheduler.hpp:98` says it may).
- The cap on policy length in `lib_srs/inc/Common.hpp:29` is not applied, so length is a hypothesis where it matters.
- `DISABLE` does not stop the ring, although `CHANGELOG.md:10` says so; `Rotation.DisableAbsorbsIff` gives the
  policies for which it would.
- The lookup of a registration is made before the lock is taken, although `CHANGELOG.md:20-21` describes one
  critical section; `SplitRegistration` says what follows.

Results that are negative, each with the exact condition for the good case:

- A query predicts the first action for ever once the policy length is 128 (`Rotation.PeekStuckAtFirst`); exact:
  `Cursor.PeekAlwaysRightIff`.
- The cursor leaves policies such as one of length 129 at the 129th failure (`Cursor.RunawayForm`); exact:
  `Cursor.InPolicyForeverIff`, `History.UndefinedIff`.
- One signal fails only one of two services on the same connection (`IterationOrder.OneOfTwoIsFailed`); exact:
  `IterationOrder.SignalClearsIff`.
- A registration overtaken by an unregistration leaves an orphan watch (`Interleaving.OvertakenRegistration`);
  exact: `Schedules.OrphanMadeIff`, `Schedules.OrphanIff`.
- A peer that dies before its watch is inserted is never noticed (`Schedules.LostForever`, reached in
  `Schedules.FirstRegistrationLost`); exact: `Schedules.LossNoticedIff`, and with one service per bus name `Schedules.ScheduleAttribution`.
- An overlapping registration can leave its peer marked offline (`SplitRegistration.StaleInsertStaysOffline`);
  exact: `SplitRegistration.SplitInvisibleIff`.
- A commit through the iterator of an erased entry is undefined even after the name is registered again
  (`SplitRegistration.RecreatedEntryIsNoCure`); exact: `SplitRegistration.DefinedIffAtomicIs`.
- Handlers that overlap on one service can end where no serial run does; exact, pair by pair:
  `Overlaps.RegisterOverlapIff`, `Overlaps.UnregisterOverlapIff`, `Overlaps.ReportOverlapIff`,
  `Overlaps.LossOverlapIff`, `Overlaps.MissedLossIff`.

## Model

| member | source | states |
|---|---|---|
| `Cursor.RingForm` | lib_srs/src/CRecoveryScheduler.cpp:30-32 | for lengths with residue 1 to 128 modulo 256, after n failures the cursor is (n-1) modulo that residue and inside the policy |
| `Cursor.RunawayForm` | lib_srs/src/CRecoveryScheduler.cpp:30-32 | for every other nonzero length the first 128 failures are in range and the 129th is not |
| `Cursor.WholeRingForm` | lib_srs/src/CRecoveryScheduler.cpp:30-32 | for lengths 1 to 128 the ring is the whole policy |
| `Cursor.InPolicyForeverIff` | lib_srs/src/CRecoveryScheduler.cpp:30-32 | all failures read inside the policy if and only if the length modulo 256 is 1 to 128 |
| `Cursor.InPolicyUpToIff` | lib_srs/src/CRecoveryScheduler.cpp:30-32 | the first n failures read inside the policy if and only if the ring closes or n is at most 128 |
| `Cursor.VisitsExactly` | lib_srs/src/CRecoveryScheduler.cpp:30-32 | a closed ring applies exactly the positions below its size |
| `Cursor.WalksWholePolicyIff` | lib_srs/src/CRecoveryScheduler.cpp:30-32 | every position is applied and none outside, if and only if the length is at most 128 |
| `Cursor.PeekForm` | lib_srs/src/CRecoveryScheduler.cpp:163-168 | a query looks where the next failure will for residues 1 to 127 and at position 0 for all others |
| `Cursor.PeekAlwaysRightIff` | lib_srs/src/CRecoveryScheduler.cpp:163-168 | a query predicts every defined failure if and only if the residue is 1 to 127 or the first 128 actions are all equal |
| `Common.NameOfId` | lib_srs/inc/Common.hpp:124-145 | id 2100 + i is called "App" and the i-th letter from A |
| `Common.CatalogueIs` | lib_srs/inc/Common.hpp:124-145 | the catalogued names are exactly "App" followed by one letter from A to T |
| `Common.CountIs` | lib_srs/src/CRecoveryScheduler.cpp:29 | the crash counter is exact up to 2^32 - 1 and repeats every 2^32 |
| `Registry.PeekOf` | lib_srs/src/CRecoveryScheduler.cpp:163-168 | the predicted position is inside the policy for every policy length |
| `Registry.StepOnRecord` | lib_srs/src/CRecoveryScheduler.cpp:15-147 | among all events only a failure moves a record's cursor and crash count, and none changes its policy |
| `Registry.RunWellFormed` | lib_srs/src/CRecoveryScheduler.cpp:15-147 | in every reachable state keys equal stored names, names are catalogued and cursors are -1 or inside the policy |
| `Registry.RegistryIsBounded` | lib_srs/inc/Common.hpp:124-145 | no run registers more than 20 services |
| `History.Record` | lib_srs/src/CRecoveryScheduler.cpp:15-147 | policy, cursor and crash count are functions of the creating event and the number of failures since, whatever is mixed in |
| `History.RegisteredIff` | lib_srs/src/CRecoveryScheduler.cpp:54-127 | an entry exists if and only if the events hold a registration that has not been undone |
| `History.ClosedForm` | lib_srs/src/CRecoveryScheduler.cpp:28-36 | up to length 128 the cursor is (n-1) modulo the length and the count is n modulo 2^32 after any run |
| `History.FailuresBounded` | lib_srs/src/CRecoveryScheduler.cpp:30-32 | a run still defined has failed a service with an unclosed ring at most 128 times |
| `History.UndefinedIff` | lib_srs/src/CRecoveryScheduler.cpp:30-32 | a run reaches undefined behaviour if and only if some service fails the 129th time on a policy whose ring does not close |
| `Rotation.AppliedTrace` | lib_srs/src/CRecoveryScheduler.cpp:30-36 | the actions recorded by the failures of a service are those its cursor points at, in order |
| `Rotation.NthFailureApplies` | lib_srs/src/CRecoveryScheduler.cpp:30-36 | up to length 128 failure j, counted from zero, applied policy entry j modulo the length |
| `Rotation.FairRotation` | lib_srs/src/CRecoveryScheduler.cpp:30-36 | any k full turns, started anywhere, apply each action k times as often as the policy lists it |
| `Rotation.DisableAbsorbsIff` | lib_srs/src/CRecoveryScheduler.cpp:31-48 | for every policy whose ring closes, DISABLE is final if and only if the ring has none or nothing else |
| `Rotation.PeekPredictsNext` | lib_srs/src/CRecoveryScheduler.cpp:162-168 | for residues 1 to 127 the snapshot's next action is what the next failure records, however many other events come between |
| `Rotation.PeekStuckAtFirst` | lib_srs/src/CRecoveryScheduler.cpp:162-168 | for all other lengths the snapshot predicts the first action in every reachable state |
| `Rotation.OnlineByLatest` | lib_srs/src/CRecoveryScheduler.cpp:28-105 | a service is online if and only if the latest of its registrations and failures was a registration |
| `Rotation.LastActionByLatest` | lib_srs/src/CRecoveryScheduler.cpp:35-144 | the last action is that of the latest failure or report with a known last action since creation, else UNKNOWN |
| `Rotation.CurrentActionByLatest` | lib_srs/src/CRecoveryScheduler.cpp:36-138 | the current action is that of the latest failure or report since creation, else UNKNOWN |
| `Rotation.QueryReportsHistory` | lib_srs/src/CRecoveryScheduler.cpp:149-171 | every field of a snapshot, the predicted action and the narrowed attempt count included, is determined by the history of events |
| `Rotation.QueryNotFoundIff` | lib_srs/src/CRecoveryScheduler.cpp:149-171 | the empty snapshot is returned if and only if no registration of the name stands |
| `Projection.RecordIsLocal` | lib_srs/src/CRecoveryScheduler.cpp:15-147 | replaying only the events that name a service gives the record it has |
| `Projection.DefinednessIsLocal` | lib_srs/src/CRecoveryScheduler.cpp:15-147 | a run is defined if and only if the own run of every service is |
| `Projection.EventsCommute` | lib_srs/src/CRecoveryScheduler.cpp:15-147 | events on different names commute in every state |
| `SchedulerImpl.Push` | lib_srs/inc/CRecoveryScheduler.hpp:50-56 | the loop appends the actions in order |
| `SchedulerImpl.IsNameValid` | lib_srs/src/CRecoveryScheduler.cpp:63-68 | the walk accepts exactly the catalogued names: "App" and a letter from A to T |
| `SchedulerImpl.Scheduler.constructor` | lib_srs/src/CRecoveryScheduler.cpp:6-8 | the registry starts empty and valid |
| `SchedulerImpl.Scheduler.FindByStoredName` | lib_srs/src/CRecoveryScheduler.cpp:20-23 | the value scan finds what keyed lookup finds, and nothing else |
| `SchedulerImpl.Scheduler.OnServiceFailure` | lib_srs/src/CRecoveryScheduler.cpp:15-53 | takes the failure step; reports a read outside the policy |
| `SchedulerImpl.Scheduler.OnRegisterService` | lib_srs/src/CRecoveryScheduler.cpp:54-109 | takes the registration step; succeeds exactly for "App" and a letter from A to T, whatever was registered before |
| `SchedulerImpl.Scheduler.OnUnregisterService` | lib_srs/src/CRecoveryScheduler.cpp:110-127 | removes the named entry and no other; succeeds exactly when there is one |
| `SchedulerImpl.Scheduler.OnReportServiceState` | lib_srs/src/CRecoveryScheduler.cpp:129-147 | takes the report step; succeeds exactly for registered names; stores both values, except that a last action of 255 keeps the stored one |
| `SchedulerImpl.Scheduler.GetServiceState` | lib_srs/src/CRecoveryScheduler.cpp:149-171 | returns the specified snapshot without reading outside the policy |
| `Peers.TranslateIs` | lib_srs/src/CRecoverySchedulerStubImpl.cpp:57-62 | every number of a byte crosses the wire unchanged, position by position, and any other loses whole turns of 256 |
| `Peers.ReportOnWire` | lib_srs/src/CRecoverySchedulerStubImpl.cpp:91-101 | a report changes only the two action fields; it stores the numbers it came with, but a last action of 255 keeps the stored one |
| `Peers.FreshOnWire` | lib_srs/src/CRecoveryScheduler.cpp:71-91 | a first registration stores exactly: its wire list or 0, 0, 1, 2, cursor -1, no crashes, online, 255 in both action fields |
| `Peers.LossOnWire` | lib_srs/src/CRecoveryScheduler.cpp:28-36 | a loss that finds a service leaves it offline with last action 3, one crash more, and the action of its policy that the cursor points at |
| `Peers.ServeRefinesRun` | lib_srs/src/CRecoverySchedulerStubImpl.cpp:50-149 | for the registry, a run of handler calls is a run of its own machine |
| `Peers.PolicyFidelity` | lib_srs/src/CRecoverySchedulerStubImpl.cpp:57-65 | as long as an entry lives its policy is the wire list of the creating request, or 0, 0, 1, 2 when that was empty |
| `Peers.ServeLinked` | lib_srs/src/CRecoverySchedulerStubImpl.cpp:65-147 | in every serial run each watched service is registered and online, with non-empty service and bus name |
| `Peers.MarkerIsSound` | lib_srs/src/CRecoverySchedulerStubImpl.cpp:125-147 | the empty service name always means that no entry matched |
| `Peers.WatchStep` | lib_srs/src/CRecoverySchedulerStubImpl.cpp:65-147 | a service enters the table only by a named registration and leaves it only by unregistering or failing |
| `Attribution.OnlineIffWatched` | lib_srs/src/CRecoverySchedulerStubImpl.cpp:65-147 | a registered service that nobody registers anonymously is online if and only if it is watched |
| `Attribution.SessionDecides` | lib_srs/src/CRecoverySchedulerStubImpl.cpp:65-147 | with anonymous clients too: since creation or the latest failure, a service is online if and only if it registered at all, and watched if and only if it registered with a bus name |
| `Attribution.WatchedIffArmed` | lib_srs/src/CRecoverySchedulerStubImpl.cpp:69-138 | with one service per bus name, the table holds exactly the latest named registrations not withdrawn or consumed |
| `Attribution.CrashAttribution` | lib_srs/src/CRecoverySchedulerStubImpl.cpp:120-149 | a loss signal fails a service if and only if the calls so far left that service armed from the lost name |
| `Attribution.RepeatedLossIsIdle` | lib_srs/src/CRecoverySchedulerStubImpl.cpp:120-149 | a repeated loss signal changes nothing |
| `Attribution.SupersededLossIsIdle` | lib_srs/src/CRecoverySchedulerStubImpl.cpp:69-138 | losing a superseded connection changes nothing |
| `Attribution.Ledger` | lib_srs/src/CRecoverySchedulerStubImpl.cpp:65-146 | since creation, named registrations equal failures plus replaced watches plus one if watched |
| `Attribution.Conservation` | lib_srs/src/CRecoverySchedulerStubImpl.cpp:65-146 | the same with the stored crash count, as long as the failures since creation have not wrapped it |
| `IterationOrder.FirstMatch` | lib_srs/src/CRecoverySchedulerStubImpl.cpp:129-138 | the scan stops at the earliest matching entry of the order, and at none only if none matches |
| `IterationOrder.OrderIrrelevantIff` | lib_srs/src/CRecoverySchedulerStubImpl.cpp:129-138 | the iteration order is irrelevant if and only if at most one service has the lost name |
| `IterationOrder.SignalRemovesOne` | lib_srs/src/CRecoverySchedulerStubImpl.cpp:129-138 | a matching signal removes exactly one entry |
| `IterationOrder.SignalClearsIff` | lib_srs/src/CRecoverySchedulerStubImpl.cpp:129-138 | a signal leaves nobody watched under the lost name if and only if at most one service was |
| `IterationOrder.OneOfTwoIsFailed` | lib_srs/src/CRecoverySchedulerStubImpl.cpp:120-149 | for any two catalogued services registered from one bus name, its loss takes one offline and leaves the other online and watched under the lost name |
| `IterationOrder.OrderIsAHit` | lib_srs/src/CRecoverySchedulerStubImpl.cpp:129-138 | every iteration order is a choice of the entry reached first |
| `IterationOrder.HitIsAnOrder` | lib_srs/src/CRecoverySchedulerStubImpl.cpp:129-138 | every such choice is made by some iteration order |
| `StubImpl.TranslateActions` | lib_srs/src/CRecoverySchedulerStubImpl.cpp:57-62 | the loop translates the wire list element by element |
| `StubImpl.Stub.constructor` | lib_srs/inc/CRecoverySchedulerStubImpl.hpp:86 | no callbacks and an empty watch table |
| `StubImpl.Stub.SetCallbacks` | lib_srs/src/CRecoverySchedulerStubImpl.cpp:42-48 | installs the callbacks and touches nothing else |
| `StubImpl.Stub.RegisterService` | lib_srs/src/CRecoverySchedulerStubImpl.cpp:50-77 | takes the register step on both maps; without callbacks it rejects and changes nothing |
| `StubImpl.Stub.UnregisterService` | lib_srs/src/CRecoverySchedulerStubImpl.cpp:79-89 | takes the unregister step on both maps; without callbacks it changes nothing |
| `StubImpl.Stub.ReportServiceState` | lib_srs/src/CRecoverySchedulerStubImpl.cpp:91-101 | takes the report step, a wire value of 255 keeping the stored last action; without callbacks it changes nothing |
| `StubImpl.Stub.HandleNameOwnerChanged` | lib_srs/src/CRecoverySchedulerStubImpl.cpp:120-149 | takes the loss step for the matching entry the scan stopped at, and stops at one whenever there is one; without callbacks it only consumes that watch |
| `Interleaving.ExecRefinesRun` | lib_srs/src/CRecoverySchedulerStubImpl.cpp:65-147 | under every interleaving of critical sections the registry takes a run of its own machine and keeps its invariant |
| `Interleaving.ExecBalanced` | lib_srs/src/CRecoverySchedulerStubImpl.cpp:65-147 | under every interleaving, watches inserted equal replaced plus erased plus consumed plus one if watched, and consumed equal crashes plus misses plus failures owed |
| `Interleaving.TalliesFailures` | lib_srs/src/CRecoverySchedulerStubImpl.cpp:140-147 | the crashes and misses counted are exactly the failures delivered to the registry |
| `Interleaving.CrashesNeverExceedWatches` | lib_srs/src/CRecoverySchedulerStubImpl.cpp:65-147 | under every interleaving crashes never exceed watches consumed, which never exceed watches inserted |
| `Interleaving.OvertakenRegistration` | lib_srs/src/CRecoverySchedulerStubImpl.cpp:65-87 | a registration overtaken by an unregistration leaves an unregistered service watched |
| `Interleaving.SignalBeforeInsertIsLost` | lib_srs/src/CRecoverySchedulerStubImpl.cpp:65-138 | right after the insert that follows a loss signal, the dead peer is online, uncrashed and watched, with nothing owed |
| `Interleaving.SignalAfterInsertIsSeen` | lib_srs/src/CRecoverySchedulerStubImpl.cpp:65-147 | the same two calls one after the other record the failure |
| `Schedules.WatchedIffStands` | lib_srs/src/CRecoverySchedulerStubImpl.cpp:69-138 | under every schedule a service is watched under a bus name if and only if that insert landed and no later act replaced, erased or consumed the watch |
| `Schedules.InsertsConserved` | lib_srs/src/CRecoverySchedulerStubImpl.cpp:65-75 | under every schedule, named registrations begun equal watches inserted plus inserts owed, per service and bus name |
| `Schedules.ErasesConserved` | lib_srs/src/CRecoverySchedulerStubImpl.cpp:82-87 | under every schedule, unregistrations that found an entry equal erases made plus erases owed |
| `Schedules.OrphanIff` | lib_srs/src/CRecoverySchedulerStubImpl.cpp:65-87 | a service is watched but unregistered if and only if an insert of it stands and no registration of it does |
| `Schedules.OrphanMadeIff` | lib_srs/src/CRecoverySchedulerStubImpl.cpp:65-138 | with no erase of it owed, a service is watched but unregistered if and only if some insert landed while it was unregistered and no later act displaced that watch or began a registration of it |
| `Schedules.SettledForever` | lib_srs/src/CRecoverySchedulerStubImpl.cpp:65-147 | a watched, registered service with no task pending keeps its watch, liveness, crash count and cursor in every continuation that neither registers nor unregisters it nor announces the loss of its bus name |
| `Schedules.LostForever` | lib_srs/src/CRecoverySchedulerStubImpl.cpp:65-138 | after any schedule, a loss announced between the commit and the insert of a registration is never noticed in any such continuation |
| `Schedules.FirstRegistrationLost` | lib_srs/src/CRecoverySchedulerStubImpl.cpp:65-138 | for every catalogued service this is reachable, and it then stays online, uncrashed and watched |
| `Schedules.LossNoticedIff` | lib_srs/src/CRecoverySchedulerStubImpl.cpp:120-149 | a loss signal leads to a failure if and only if an insert from the lost name stands for some service |
| `Schedules.WatchedIffArmed` | lib_srs/src/CRecoverySchedulerStubImpl.cpp:69-138 | with one service per bus name, watched if and only if the insert landed and since then nothing rewrote the watch and no signal announced the loss of its name |
| `Schedules.ScheduleAttribution` | lib_srs/src/CRecoverySchedulerStubImpl.cpp:120-149 | with one service per bus name, under every schedule a loss signal leaves a failure of a service owed if and only if the schedule has it armed from the lost name |
| `Serializable.OrderlyIsRelated` | lib_srs/src/CRecoverySchedulerStubImpl.cpp:65-147 | when no call starts on a service or bus name still being worked on (a report only has to avoid an owed failure), every schedule lags the serial run only by its pending tasks |
| `Serializable.OrderlyIsSerializable` | lib_srs/src/CRecoverySchedulerStubImpl.cpp:65-147 | such a schedule at rest is in the state of the serial run of its calls, both maps included |
| `Overlaps.RegisterOverlapIff` | lib_srs/src/CRecoverySchedulerStubImpl.cpp:65-75 | a registration begun while another handler works on its service ends as in the serial run, whichever finishes first, if and only if: over a waiting insert, it brings no bus name or the same one; over a waiting erase, it brings none or the name is not catalogued; over an owed failure, never |
| `Overlaps.UnregisterOverlapIff` | lib_srs/src/CRecoverySchedulerStubImpl.cpp:82-87 | an unregistration may overlap an owed failure or another unregistration without trace, and never a waiting insert |
| `Overlaps.ReportOverlapIff` | lib_srs/src/CRecoverySchedulerStubImpl.cpp:91-101 | a report may overlap anything but an owed failure, and that if and only if it reports the action the failure will choose and a last action of UNKNOWN or CRASHED |
| `Overlaps.LossOverlapIff` | lib_srs/src/CRecoverySchedulerStubImpl.cpp:125-147 | a loss signal that finds a service another handler is working on leaves no trace if and only if that handler is erasing and the service is unregistered |
| `Overlaps.FreeHitAgrees` | lib_srs/src/CRecoverySchedulerStubImpl.cpp:125-147 | a loss signal that finds a service nobody is working on finds it serially too, with the same record |
| `Overlaps.MissedLossIff` | lib_srs/src/CRecoverySchedulerStubImpl.cpp:65-138 | a loss signal that finds nothing changes nothing serially if and only if no insert from the lost name is owed |
| `SplitRegistration.SplitIsAtomicUpToLiveness` | lib_srs/src/CRecoveryScheduler.cpp:59-107 | with lookup and commit apart, every defined run gives each record of the atomic run, up to the liveness flag |
| `SplitRegistration.AdjacentIsAtomic` | lib_srs/src/CRecoveryScheduler.cpp:59-107 | in every state, whatever else waits, a lookup of a known or catalogued name adds one commit, and landing it at once is the atomic registration |
| `SplitRegistration.AtomicIsSplit` | lib_srs/src/CRecoveryScheduler.cpp:59-107 | every run of the registry is the run in which each registration is split into lookup and commit |
| `SplitRegistration.InsertionsConserved` | lib_srs/src/CRecoveryScheduler.cpp:60-91 | lookups that found no entry equal insertions made plus insertions waiting, per name and actions |
| `SplitRegistration.RevivalsConserved` | lib_srs/src/CRecoveryScheduler.cpp:59-105 | lookups that found an entry equal revivals made plus revivals waiting, through a good iterator or a dangling one |
| `SplitRegistration.FirstCommitWins` | lib_srs/src/CRecoveryScheduler.cpp:59-107 | of any overlapping registrations the commit that created the entry fixes the policy; cursor, count and last action follow the events since; without unregistrations it is the first commit of the name |
| `SplitRegistration.LaterCommitKeepsRecord` | lib_srs/src/CRecoveryScheduler.cpp:90-107 | a later commit changes at most the liveness flag of its own entry |
| `SplitRegistration.DefinedIffAtomicIs` | lib_srs/src/CRecoveryScheduler.cpp:59-107 | the split run is defined if and only if the atomic one is and no dangling iterator is ever gone through |
| `SplitRegistration.NoDanglingNeverLands` | lib_srs/src/CRecoveryScheduler.cpp:59-107 | no iterator dangles if no service is unregistered between a lookup that found it and its commit |
| `SplitRegistration.ErasedEntryIsNeverRevived` | lib_srs/src/CRecoveryScheduler.cpp:104-124 | once an entry is erased under a waiting commit, that commit is undefined behaviour whatever comes between, a new registration of the name included |
| `SplitRegistration.RecreatedEntryIsNoCure` | lib_srs/src/CRecoveryScheduler.cpp:104-124 | for every catalogued service such a run exists: found, unregistered, registered again, and then undefined |
| `SplitRegistration.SplitInvisibleIff` | lib_srs/src/CRecoveryScheduler.cpp:59-107 | the registry is that of the atomic run at every point if and only if no waiting insertion ever lands on an entry that is offline |
| `SplitRegistration.SplitIsAtomic` | lib_srs/src/CRecoveryScheduler.cpp:59-107 | in particular the split is invisible if no registered service fails while an insertion waits for it |
| `SplitRegistration.StaleLanding` | lib_srs/src/CRecoveryScheduler.cpp:90-91 | in every state, an insertion that waits through a failure leaves the service offline although its caller is told it succeeded |
| `SplitRegistration.StaleInsertStaysOffline` | lib_srs/src/CRecoveryScheduler.cpp:90-91 | such a state is reachable for every service, by two overlapping registrations and a failure between their commits |
| `Grains.GrainsAgree` | lib_srs/src/CRecoverySchedulerStubImpl.cpp:65-147 | with lookup, commit and insert as three steps, a schedule is defined if and only if its schedule of critical sections is and no dangling iterator is gone through; then watches, owed work and records agree up to liveness |
| `Grains.AdjacentIsBegin` | lib_srs/src/CRecoverySchedulerStubImpl.cpp:65-75 | in every state a registration that commits as soon as it has looked up is the first half of its call |
| `Grains.CoarseIsFine` | lib_srs/src/CRecoverySchedulerStubImpl.cpp:65-147 | every schedule of critical sections is one of fine steps, with each registration split |
| `Grains.ClaimWaits` | lib_srs/src/CRecoveryScheduler.cpp:59-107 | a registration between lookup and commit keeps its call and its decision until it commits; only an unregistration of the entry it found spoils it |
| `Grains.ClaimsConserved` | lib_srs/src/CRecoveryScheduler.cpp:59-107 | lookups made under a number equal commits made plus one if it still waits |
| `Grains.CrashesNeverExceedWatches` | lib_srs/src/CRecoverySchedulerStubImpl.cpp:65-147 | in every defined three-step schedule crashes never exceed watches consumed, which never exceed watches inserted |
| `Grains.GrainsAttribution` | lib_srs/src/CRecoverySchedulerStubImpl.cpp:120-149 | with one service per bus name, a loss signal in a three-step schedule fails the service armed from the lost name, commits counted as starts |
| `Coverage.FileCoverage.Merge` | scripts/gen_report.py:36-38 | the loop adds hits line by line, even onto itself |
| `Coverage.FileCoverage.Total` | scripts/gen_report.py:40-42 | the number of executable lines |
| `Coverage.FileCoverage.Covered` | scripts/gen_report.py:44-46 | the number of lines hit at least once |
| `Coverage.FileCoverage.Percent` | scripts/gen_report.py:40-50 | times the number of executable lines is 100 times the number of lines hit; lies between 0 and 100, is 100 exactly when every executable line is covered and 0 exactly when none is |
| `Coverage.AddRecord` | scripts/gen_report.py:128-132 | one round stores the first record of a file and merges a later one into the stored object |
| `Coverage.CollectCoverage` | scripts/gen_report.py:117-133 | the result has one object per file of the kept records, with their merged lines |
| `Coverage.AggregateIsSum` | scripts/gen_report.py:36-38 | merged lines are exactly those some record lists, with the sum of their hits |
| `Coverage.OrderIrrelevant` | scripts/gen_report.py:119-132 | every order of the same records gives the same lines and hits |
| `Coverage.ListingOrderIrrelevant` | scripts/gen_report.py:117-133 | any two results collected from listings of the same files have the same files, lines and hits |
| `Coverage.CoveredIff` | scripts/gen_report.py:44-46 | with non-negative counts a line is covered if and only if some record covers it |

## Left out

- CommonAPI and D-Bus runtime calls, extraction of client ids, decoding of signal messages and the query for a process id: the bus name and the signal are inputs.
- Process id and recovery interval: stored or logged, they affect no transition.
- Executing RESTART, STOP or DISABLE: the source only chooses the action.
- Broadcasting state changes: nothing in the source calls it.
- Reply codes ALREADY_EXISTS and INTERNAL_ERROR of the interface description: no handler returns them.
- C++ memory-model races on the unlocked lookup: below the grain of the step models.
- SplitRegistration.DefinedIffAtomicIs: an insertion that rehashes the hash map also invalidates a held iterator by the standard; only erasure of its entry is modelled as spoiling it.
- Grains.GrainsAgree: the same.
- Console, dummy applications, logging, build files, HTML rendering, test-report parsing, the gcov subprocess and the parsing of its text; parsed records are inputs.
- Coverage.FileCoverage.Percent: over the reals, without the rounding of double precision.
- Serializable.OrderlyIsSerializable: a sufficient condition on whole schedules; `Overlaps` is exact for each overlap of two handlers, and a schedule whose divergence a later call undoes is not characterised.
