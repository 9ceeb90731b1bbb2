/**
 The handlers at the grain of their locks. A handler takes the registry lock
 and the watch lock one after the other, so other handlers can run between.
 */
module Interleaving {
  import opened Common
  import opened Registry
  import opened History
  import opened Peers

  /** The second half of a handler that has finished its first half. */
  datatype Task =
    | Insert(service: string, bus: string)
    | Erase(service: string)
    | Fail(service: string)

  /** `pending` holds one task for every handler that is between its two locks. */
  datatype State = State(machine: Machine, watch: Watch, pending: multiset<Task>)

  /** A schedule is any sequence of these; finishing a task that is not pending does nothing. */
  datatype Act = Begin(call: Call) | Finish(task: Task)

  /** The work a call leaves for its second critical section. */
  ghost function Left(st: State, call: Call): multiset<Task>
    requires st.machine.Running?
  {
    var t := st.machine.table;
    match call
    case RegisterService(bus, s, _) =>
      if (s in t || InCatalogue(s)) && bus != "" then multiset{Insert(s, bus)} else multiset{}
    case UnregisterService(s) => if s in t then multiset{Erase(s)} else multiset{}
    case ReportServiceState(_, _, _) => multiset{}
    case NameOwnerChanged(bus, newOwner, first) =>
      if newOwner != "" then multiset{} else
      var hit := Hit(st.watch, bus, first);
      if hit.Some? && hit.value != "" then multiset{Fail(hit.value)} else multiset{}
  }

  /** The event that an act delivers to the registry. */
  ghost function Delivers(st: State, act: Act): Event
  {
    match act
    case Begin(NameOwnerChanged(_, _, _)) => Idle
    case Begin(call) => Emits(System(st.machine, st.watch), call)
    case Finish(Fail(s)) => if Fail(s) in st.pending then Failure(s) else Idle
    case Finish(_) => Idle
  }

  ghost function Watches(st: State, act: Act): Watch
    requires st.machine.Running?
  {
    match act
    case Begin(call) =>
      if Loss(call) then WatchAfter(System(st.machine, st.watch), call) else st.watch
    case Finish(task) =>
      if task !in st.pending then st.watch else
      match task
      case Insert(s, bus) => st.watch[s := bus]
      case Erase(s) => st.watch - {s}
      case Fail(_) => st.watch
  }

  ghost function Awaits(st: State, act: Act): multiset<Task>
    requires st.machine.Running?
  {
    match act
    case Begin(call) => st.pending + Left(st, call)
    case Finish(task) => st.pending - multiset{task}
  }

  ghost function Next(st: State, act: Act): State
  {
    if st.machine.Undefined? then st else
    State(Apply(st.machine, Delivers(st, act)), Watches(st, act), Awaits(st, act))
  }

  ghost function Exec(acts: seq<Act>): State
  {
    if acts == [] then State(Running(map[]), map[], multiset{}) else Next(Exec(Front(acts)), Last(acts))
  }

  // -------------------- the registry under every interleaving --------------------

  ghost function Delivered(acts: seq<Act>): (events: seq<Event>)
    ensures |events| == |acts|
  {
    if acts == [] then [] else Delivered(Front(acts)) + [Delivers(Exec(Front(acts)), Last(acts))]
  }

  /** Whatever the schedule, the registry takes a run of its own machine: every closed form carries over. */
  lemma {:induction false} ExecRefinesRun(acts: seq<Act>)
    ensures Exec(acts).machine == Run(Delivered(acts))
    ensures Exec(acts).machine.Running? ==> WellFormed(Exec(acts).machine.table)
  {
    RunWellFormed(Delivered(acts));
    if acts != [] {
      ExecRefinesRun(Front(acts));
      RunSnoc(Delivered(Front(acts)), Delivers(Exec(Front(acts)), Last(acts)));
    }
  }

  // -------------------- conservation under every interleaving --------------------

  /** What has happened to the watch entries and failures of one service over a whole schedule. */
  datatype Tally = Tally(inserted: nat, replaced: nat, erased: nat, consumed: nat, crashed: nat, missed: nat)

  ghost function Count(st: State, act: Act, s: string, c: Tally): Tally
    requires st.machine.Running?
  {
    match act
    case Begin(call) =>
      if Loss(call) && Hit(st.watch, call.bus, call.first) == Some(s) then c.(consumed := c.consumed + 1) else c
    case Finish(task) =>
      if task !in st.pending || task.service != s then c else
      match task
      case Insert(_, _) =>
        c.(inserted := c.inserted + 1, replaced := c.replaced + if s in st.watch then 1 else 0)
      case Erase(_) => c.(erased := c.erased + if s in st.watch then 1 else 0)
      case Fail(_) =>
        if s in st.machine.table then c.(crashed := c.crashed + 1) else c.(missed := c.missed + 1)
  }

  ghost function Total(acts: seq<Act>, s: string): Tally
  {
    if acts == [] then Tally(0, 0, 0, 0, 0, 0) else
    var st := Exec(Front(acts));
    if st.machine.Undefined? then Total(Front(acts), s)
    else Count(st, Last(acts), s, Total(Front(acts), s))
  }

  /** Only catalogued names are ever watched or about to be. */
  ghost predicate Catalogued(st: State)
  {
    && (forall s | s in st.watch :: InCatalogue(s))
    && (forall t | t in st.pending && t.Insert? :: InCatalogue(t.service))
  }

  /** The entries inserted for a service are accounted for. */
  ghost predicate EntriesBalance(st: State, s: string, c: Tally)
  {
    c.inserted == c.replaced + c.erased + c.consumed + if s in st.watch then 1 else 0
  }

  /** Every consumed entry is a failure that was delivered or is still owed. */
  ghost predicate FailuresBalance(st: State, s: string, c: Tally)
  {
    c.consumed == c.crashed + c.missed + st.pending[Fail(s)]
  }

  /** The stored count never exceeds the crashes delivered. */
  ghost predicate CrashesBounded(st: State, s: string, c: Tally)
  {
    st.machine.Running? && s in st.machine.table ==> st.machine.table[s].crashes <= c.crashed
  }

  lemma InsertsCatalogued(st: State, call: Call, t: Task)
    requires st.machine.Running? && WellFormed(st.machine.table) && t in Left(st, call) && t.Insert?
    ensures InCatalogue(t.service)
  {
  }

  lemma NextKeepsCatalogued(st: State, act: Act)
    requires st.machine.Running? && WellFormed(st.machine.table) && Catalogued(st)
    ensures Catalogued(Next(st, act))
  {
    assert forall s | s in Watches(st, act) ::
      s in st.watch || (act.Finish? && act.task in st.pending && act.task.Insert? && s == act.task.service);
    forall t | t in Awaits(st, act) && t.Insert? ensures InCatalogue(t.service) {
      if t !in st.pending {
        InsertsCatalogued(st, act.call, t);
      }
    }
  }

  lemma HitIsCatalogued(st: State, call: Call)
    requires Catalogued(st) && call.NameOwnerChanged?
    ensures var hit := Hit(st.watch, call.bus, call.first);
            hit.Some? ==> hit.value in st.watch && hit.value != ""
  {
  }

  lemma CountKeepsEntries(st: State, act: Act, s: string, c: Tally)
    requires st.machine.Running? && EntriesBalance(st, s, c)
    ensures EntriesBalance(Next(st, act), s, Count(st, act, s, c))
  {
  }

  /** A call leaves a failure of `s` owed exactly when it consumes the watch of `s`. */
  lemma OwedByCall(st: State, call: Call, s: string)
    requires st.machine.Running? && Catalogued(st)
    ensures Left(st, call)[Fail(s)] == if Loss(call) && Hit(st.watch, call.bus, call.first) == Some(s) then 1 else 0
  {
  }

  lemma CountKeepsFailures(st: State, act: Act, s: string, c: Tally)
    requires st.machine.Running? && Catalogued(st) && FailuresBalance(st, s, c)
    ensures FailuresBalance(Next(st, act), s, Count(st, act, s, c))
  {
    match act
    case Begin(call) =>
      OwedByCall(st, call, s);
      assert Awaits(st, act)[Fail(s)] == st.pending[Fail(s)] + Left(st, call)[Fail(s)];
    case Finish(task) =>
      assert Awaits(st, act) == st.pending - multiset{task};
  }

  lemma CountKeepsCrashes(st: State, act: Act, s: string, c: Tally)
    requires st.machine.Running? && CrashesBounded(st, s, c)
    ensures CrashesBounded(Next(st, act), s, Count(st, act, s, c))
  {
    if Next(st, act).machine.Running? && s in Next(st, act).machine.table {
      CrashStep(st.machine, Delivers(st, act), s);
    }
  }

  /** A record's crash count grows by at most one, and only in a failure; a new record starts at zero. */
  lemma CrashStep(m: Machine, e: Event, s: string)
    requires m.Running? && Apply(m, e).Running? && s in Apply(m, e).table
    ensures Apply(m, e).table[s].crashes <=
            if s !in m.table then 0 else m.table[s].crashes + if e == Failure(s) then 1 else 0
  {
  }

  /** The books balance after every schedule. */
  lemma {:induction false} ExecBalanced(acts: seq<Act>, s: string)
    ensures Catalogued(Exec(acts))
    ensures EntriesBalance(Exec(acts), s, Total(acts, s))
    ensures FailuresBalance(Exec(acts), s, Total(acts, s))
    ensures CrashesBounded(Exec(acts), s, Total(acts, s))
  {
    if acts != [] {
      var front, act := Front(acts), Last(acts);
      ExecBalanced(front, s);
      ExecRefinesRun(front);
      if Exec(front).machine.Running? {
        NextKeepsCatalogued(Exec(front), act);
        CountKeepsEntries(Exec(front), act, s, Total(front, s));
        CountKeepsFailures(Exec(front), act, s, Total(front, s));
        CountKeepsCrashes(Exec(front), act, s, Total(front, s));
      }
    }
  }

  lemma TallyStep(st: State, act: Act, s: string, c: Tally)
    requires st.machine.Running?
    ensures var after := Count(st, act, s, c);
            after.crashed + after.missed == c.crashed + c.missed + if Delivers(st, act) == Failure(s) then 1 else 0
  {
  }

  /** The crashes and misses counted are exactly the failures of that service the registry was told of. */
  lemma {:induction false} TalliesFailures(acts: seq<Act>, s: string)
    requires Exec(acts).machine.Running?
    ensures Total(acts, s).crashed + Total(acts, s).missed == Failures(Delivered(acts), 0, s)
  {
    if acts != [] {
      var front := Front(acts);
      TalliesFailures(front, s);
      TallyStep(Exec(front), Last(acts), s, Total(front, s));
      assert Front(Delivered(acts)) == Delivered(front);
    }
  }

  /** Under every interleaving a service crashes no more often than its watches were consumed, and those were inserted. */
  lemma CrashesNeverExceedWatches(acts: seq<Act>, s: string)
    ensures Total(acts, s).crashed <= Total(acts, s).consumed <= Total(acts, s).inserted
    ensures var m := Exec(acts).machine;
            m.Running? && s in m.table ==> m.table[s].crashes <= Total(acts, s).inserted
  {
    ExecBalanced(acts, s);
  }

  // -------------------- what interleaving can break --------------------

  /** The first half of a fresh registration. */
  lemma RegistrationBegun(s: string, bus: string)
    requires InCatalogue(s) && bus != ""
    ensures Exec([Begin(RegisterService(bus, s, []))]) ==
            State(Running(map[s := FreshInfo(s, [])]), map[], multiset{Insert(s, bus)})
  {
    assert Translate([]) == [];
    assert Front([Begin(RegisterService(bus, s, []))]) == [];
  }

  /** An unregistration that starts and ends while the watch is still to be inserted finds none to erase. */
  lemma UnregisteredBetween(s: string, bus: string, st: State)
    requires st == State(Running(map[s := FreshInfo(s, [])]), map[], multiset{Insert(s, bus)})
    ensures Next(Next(st, Begin(UnregisterService(s))), Finish(Erase(s))) ==
            State(Running(map[]), map[], multiset{Insert(s, bus)})
  {
    assert map[s := FreshInfo(s, [])] - {s} == map[];
  }

  /** A registration overtaken by an unregistration leaves a watched service that is not registered. */
  lemma OvertakenRegistration(s: string, bus: string)
    requires InCatalogue(s) && bus != ""
    ensures Exec([Begin(RegisterService(bus, s, []))] + [Begin(UnregisterService(s))]
                 + [Finish(Erase(s))] + [Finish(Insert(s, bus))])
            == State(Running(map[]), map[s := bus], multiset{})
  {
    RegistrationBegun(s, bus);
    var acts := [Begin(RegisterService(bus, s, []))];
    UnregisteredBetween(s, bus, Exec(acts));
    ExecSnoc(acts, Begin(UnregisterService(s)));
    ExecSnoc(acts + [Begin(UnregisterService(s))], Finish(Erase(s)));
    ExecSnoc(acts + [Begin(UnregisterService(s))] + [Finish(Erase(s))], Finish(Insert(s, bus)));
  }

  /** A loss signal that arrives before the watch is inserted finds nothing: the peer is left online, uncrashed and watched. */
  lemma SignalBeforeInsertIsLost(s: string, bus: string)
    requires InCatalogue(s) && bus != ""
    ensures Exec([Begin(RegisterService(bus, s, [])), Begin(NameOwnerChanged(bus, "", s)), Finish(Insert(s, bus))])
            == State(Running(map[s := FreshInfo(s, [])]), map[s := bus], multiset{})
  {
    RegistrationBegun(s, bus);
    var a1 := [Begin(RegisterService(bus, s, []))];
    var a2 := a1 + [Begin(NameOwnerChanged(bus, "", s))];
    assert Exec(a2) == Exec(a1) by {
      ExecSnoc(a1, Begin(NameOwnerChanged(bus, "", s)));
    }
    ExecSnoc(a2, Finish(Insert(s, bus)));
    assert a2 + [Finish(Insert(s, bus))] ==
           [Begin(RegisterService(bus, s, [])), Begin(NameOwnerChanged(bus, "", s)), Finish(Insert(s, bus))];
  }

  /** The same two calls, one at a time, do record the crash. */
  lemma SignalAfterInsertIsSeen(s: string, bus: string)
    requires InCatalogue(s) && bus != ""
    ensures var sys := Serve([RegisterService(bus, s, []), NameOwnerChanged(bus, "", s)]);
            sys.machine == Apply(Running(map[s := FreshInfo(s, [])]), Failure(s)) && sys.watch == map[]
  {
    var c1 := [RegisterService(bus, s, [])];
    var c2 := [RegisterService(bus, s, []), NameOwnerChanged(bus, "", s)];
    assert Translate([]) == [];
    assert Front(c1) == [] && Front(c2) == c1;
    assert Serve(c1) == System(Running(map[s := FreshInfo(s, [])]), map[s := bus]);
    assert Matches(Serve(c1).watch, bus, s);
    assert map[s := bus] - {s} == map[];
  }

  lemma ExecSnoc(acts: seq<Act>, act: Act)
    ensures Exec(acts + [act]) == Next(Exec(acts), act)
  {
    assert Front(acts + [act]) == acts;
  }
}
