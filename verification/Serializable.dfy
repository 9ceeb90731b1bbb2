/**
 When the lock-grained handlers behave as if they ran one at a time: if no call
 starts on a service, or for a bus name, that another handler is still working on,
 then every schedule ends in the state of a serial run of the same calls.
 */
module Serializable {
  import opened Common
  import opened Registry
  import opened Projection
  import opened Peers
  import opened Interleaving

  /** No handler that the call could conflict with is between its two locks. */
  ghost predicate Clear(st: State, call: Call)
  {
    match call
    case NameOwnerChanged(bus, newOwner, _) =>
      newOwner == "" ==>
        forall t | t in st.pending :: !Matches(st.watch, bus, t.service) && !(t.Insert? && t.bus == bus)
    case ReportServiceState(s, _, _) => Fail(s) !in st.pending
    case _ =>
      forall t | t in st.pending :: t.service != call.service
  }

  /** A schedule in which every call starts clear of the others. */
  ghost predicate Orderly(acts: seq<Act>)
  {
    acts != [] ==>
      && Orderly(Front(acts))
      && (Last(acts).Begin? ==> Clear(Exec(Front(acts)), Last(acts).call))
  }

  /** The call with the choice of its scan made explicit. */
  ghost function Resolve(st: State, call: Call): Call
  {
    if Loss(call) && Hit(st.watch, call.bus, call.first).Some?
    then call.(first := Hit(st.watch, call.bus, call.first).value)
    else call
  }

  /** The calls of a schedule in the order in which they began. */
  ghost function Serial(acts: seq<Act>): seq<Call>
  {
    if acts == [] then [] else
    match Last(acts)
    case Begin(call) => Serial(Front(acts)) + [Resolve(Exec(Front(acts)), call)]
    case Finish(_) => Serial(Front(acts))
  }

  // -------------------- the simulation --------------------

  /** At most one handler per service is between its locks. */
  ghost predicate Single(pending: multiset<Task>)
  {
    && (forall t, u | t in pending && u in pending && t.service == u.service :: t == u)
    && (forall t | t in pending :: pending[t] == 1)
  }

  ghost predicate Busy(st: State, s: string)
  {
    exists t :: t in st.pending && t.service == s
  }

  /** How the schedule's state at `s` lags behind the serial state, by the task still owed. */
  ghost predicate Lags(st: State, sys: System, s: string)
    requires st.machine.Running? && sys.machine.Running?
  {
    var t, u := st.machine.table, sys.machine.table;
    && (Fail(s) !in st.pending ==> Find(t, s) == Find(u, s))
    && (Fail(s) in st.pending ==> s in t && s in u && Failed(t[s]) == Some(u[s]) && Find(st.watch, s) == Find(sys.watch, s))
    && (forall b | Insert(s, b) in st.pending :: Matches(sys.watch, b, s))
    && (Erase(s) in st.pending ==> s !in sys.watch)
    && (!Busy(st, s) ==> Find(st.watch, s) == Find(sys.watch, s))
  }

  ghost predicate Related(st: State, sys: System)
  {
    && st.machine.Running? && sys.machine.Running?
    && Single(st.pending) && Linked(sys)
    && forall s :: Lags(st, sys, s)
  }

  /** An event that is no failure treats equal records equally. */
  lemma TableStep(t: Table, u: Table, e: Event, s: string)
    requires Find(t, s) == Find(u, s) && !e.Failure?
    ensures Apply(Running(t), e).Running? && Apply(Running(u), e).Running?
    ensures Find(Apply(Running(t), e).table, s) == Find(Apply(Running(u), e).table, s)
  {
  }

  /** A step that touches neither the record, the watch nor the tasks of `s` leaves its lag as it was. */
  lemma LagsFrame(st: State, sys: System, st': State, sys': System, s: string)
    requires st.machine.Running? && sys.machine.Running? && st'.machine.Running? && sys'.machine.Running?
    requires Lags(st, sys, s)
    requires Find(st'.machine.table, s) == Find(st.machine.table, s)
    requires Find(sys'.machine.table, s) == Find(sys.machine.table, s)
    requires Find(st'.watch, s) == Find(st.watch, s) && Find(sys'.watch, s) == Find(sys.watch, s)
    requires forall t: Task | t.service == s :: t in st'.pending <==> t in st.pending
    ensures Lags(st', sys', s)
  {
    assert Busy(st', s) <==> Busy(st, s);
  }

  /** The first half of a call that names its service, seen from another service. */
  lemma BeginOther(st: State, sys: System, call: Call, s: string)
    requires Related(st, sys) && !call.NameOwnerChanged? && s != call.service
    ensures Next(st, Begin(call)).machine.Running? && Step(sys, call).machine.Running?
    ensures Lags(Next(st, Begin(call)), Step(sys, call), s)
  {
    var e := Emits(sys, call);
    OtherStep(st.machine.table, e, s);
    OtherStep(sys.machine.table, e, s);
    var st', sys' := Next(st, Begin(call)), Step(sys, call);
    assert forall t: Task | t in Left(st, call) :: t.service == call.service;
    LagsFrame(st, sys, st', sys', s);
  }

  /** The same, seen from the service it names: what is owed afterwards is what the call left. */
  lemma BeginOwn(st: State, sys: System, call: Call)
    requires Related(st, sys) && !call.NameOwnerChanged? && !Busy(st, call.service)
    ensures Next(st, Begin(call)).machine.Running? && Step(sys, call).machine.Running?
    ensures Lags(Next(st, Begin(call)), Step(sys, call), call.service)
  {
    var s, e := call.service, Emits(sys, call);
    assert Lags(st, sys, s);
    TableStep(st.machine.table, sys.machine.table, e, s);
    var st', sys' := Next(st, Begin(call)), Step(sys, call);
    assert forall t: Task | t.service == s :: t in st'.pending <==> t in Left(st, call);
    OwnWatch(st, sys, call);
  }

  /** A report may fall between the two halves of any handler of its service but a failure. */
  lemma BeginReport(st: State, sys: System, call: Call)
    requires Related(st, sys) && call.ReportServiceState? && Fail(call.service) !in st.pending
    ensures Next(st, Begin(call)).machine.Running? && Step(sys, call).machine.Running?
    ensures Lags(Next(st, Begin(call)), Step(sys, call), call.service)
  {
    var s, e := call.service, Emits(sys, call);
    assert Lags(st, sys, s);
    TableStep(st.machine.table, sys.machine.table, e, s);
    assert Next(st, Begin(call)).pending == st.pending;
    assert Busy(Next(st, Begin(call)), s) <==> Busy(st, s);
  }

  lemma OwnWatch(st: State, sys: System, call: Call)
    requires st.machine.Running? && sys.machine.Running? && !call.NameOwnerChanged?
    requires Find(st.machine.table, call.service) == Find(sys.machine.table, call.service)
    requires Find(st.watch, call.service) == Find(sys.watch, call.service)
    ensures forall t | t in Left(st, call) ::
              || (t.Insert? && t.service == call.service && Matches(WatchAfter(sys, call), t.bus, call.service))
              || (t == Erase(call.service) && call.service !in WatchAfter(sys, call))
    ensures Left(st, call) == multiset{} ==> Find(WatchAfter(sys, call), call.service) == Find(st.watch, call.service)
  {
  }

  /** A service that serially has the lost name has it in the schedule too. */
  lemma MatchIsVisible(st: State, sys: System, call: Call, r: string)
    requires Related(st, sys) && Loss(call) && Clear(st, call) && Matches(sys.watch, call.bus, r)
    ensures Matches(st.watch, call.bus, r)
  {
    assert Lags(st, sys, r);
    assert forall b :: Insert(r, b) !in st.pending;
    assert forall t | t in st.pending && t.service == r :: t == Fail(r);
  }

  /** What a loss signal finds is the same in both states. */
  lemma SameHit(st: State, sys: System, call: Call)
    requires Related(st, sys) && Loss(call) && Clear(st, call)
    ensures Hit(sys.watch, call.bus, Resolve(st, call).first) == Hit(st.watch, call.bus, call.first)
  {
    var hit := Hit(st.watch, call.bus, call.first);
    if hit.Some? {
      assert !Busy(st, hit.value);
      assert Lags(st, sys, hit.value);
    } else {
      forall r | Matches(sys.watch, call.bus, r) ensures Matches(st.watch, call.bus, r) {
        MatchIsVisible(st, sys, call, r);
      }
    }
  }

  /** The first half of a loss signal that finds service `k`, in both states. */
  lemma BeginHit(st: State, sys: System, call: Call, k: string)
    requires Related(st, sys) && Loss(call) && Clear(st, call)
    requires Hit(st.watch, call.bus, call.first) == Some(k)
    ensures Next(st, Begin(call)) == State(st.machine, st.watch - {k}, st.pending + multiset{Fail(k)})
    ensures Step(sys, Resolve(st, call)) == System(Apply(sys.machine, Failure(k)), sys.watch - {k})
    ensures Find(st.machine.table, k) == Find(sys.machine.table, k) && k in sys.machine.table && !Busy(st, k)
  {
    SameHit(st, sys, call);
    MarkerIsSound(sys, Resolve(st, call));
    assert Lags(st, sys, k) && !Busy(st, k);
    assert Linked(sys) && k in sys.watch;
  }

  /** Consuming the watch of `k` leaves exactly its failure owed. */
  lemma HitLags(st: State, sys: System, k: string, s: string)
    requires Related(st, sys) && !Busy(st, k) && k in sys.machine.table
    requires Find(st.machine.table, k) == Find(sys.machine.table, k)
    requires Apply(sys.machine, Failure(k)).Running?
    ensures Lags(State(st.machine, st.watch - {k}, st.pending + multiset{Fail(k)}),
                 System(Apply(sys.machine, Failure(k)), sys.watch - {k}), s)
  {
    var st' := State(st.machine, st.watch - {k}, st.pending + multiset{Fail(k)});
    var sys' := System(Apply(sys.machine, Failure(k)), sys.watch - {k});
    assert Lags(st, sys, s);
    if s != k {
      OtherStep(sys.machine.table, Failure(k), s);
      LagsFrame(st, sys, st', sys', s);
    } else {
      assert forall t: Task | t.service == s :: t in st'.pending <==> t == Fail(s);
    }
  }

  /** A signal that finds nothing, or announces a new owner, changes nothing in either state. */
  lemma BeginMiss(st: State, sys: System, call: Call)
    requires Related(st, sys) && call.NameOwnerChanged? && Clear(st, call)
    requires Loss(call) ==> Hit(st.watch, call.bus, call.first).None?
    ensures Next(st, Begin(call)) == st && Step(sys, Resolve(st, call)) == sys
  {
    if Loss(call) {
      SameHit(st, sys, call);
    }
    assert st.pending + multiset{} == st.pending;
  }

  /** The second half of a handler, seen from another service. */
  lemma FinishOther(st: State, sys: System, task: Task, s: string)
    requires Related(st, sys) && task in st.pending && s != task.service
    requires Next(st, Finish(task)).machine.Running?
    ensures Lags(Next(st, Finish(task)), sys, s)
  {
    assert Lags(st, sys, s);
    OtherStep(st.machine.table, Delivers(st, Finish(task)), s);
    LagsFrame(st, sys, Next(st, Finish(task)), sys, s);
  }

  /** Running the task owed to a service brings its record and its watch up to date. */
  lemma TaskCatchesUp(st: State, sys: System, task: Task)
    requires st.machine.Running? && sys.machine.Running? && task in st.pending && Lags(st, sys, task.service)
    requires forall t | t in st.pending && t.service == task.service :: t == task
    ensures Next(st, Finish(task)).machine.Running?
    ensures Find(Next(st, Finish(task)).machine.table, task.service) == Find(sys.machine.table, task.service)
    ensures Find(Next(st, Finish(task)).watch, task.service) == Find(sys.watch, task.service)
  {
  }

  /** Seen from its own service, the second half of a handler catches the schedule up. */
  lemma FinishOwn(st: State, sys: System, task: Task)
    requires Related(st, sys) && task in st.pending
    ensures Next(st, Finish(task)).machine.Running?
    ensures Lags(Next(st, Finish(task)), sys, task.service)
  {
    assert Lags(st, sys, task.service);
    TaskCatchesUp(st, sys, task);
    NothingOwed(st.pending, task);
  }

  lemma NothingOwed(pending: multiset<Task>, task: Task)
    requires Single(pending) && task in pending
    ensures forall t: Task | t.service == task.service :: t !in pending - multiset{task}
  {
  }

  lemma SingleAfterBegin(st: State, call: Call)
    requires st.machine.Running? && Single(st.pending) && Clear(st, call)
    ensures Single(Next(st, Begin(call)).pending)
  {
  }

  // -------------------- the theorem --------------------

  lemma ServeSnoc(calls: seq<Call>, call: Call)
    ensures Serve(calls + [call]) == Step(Serve(calls), call)
  {
    assert Front(calls + [call]) == calls;
  }

  lemma BeginKeepsRelated(st: State, sys: System, call: Call)
    requires Related(st, sys) && WellFormed(sys.machine.table) && Clear(st, call)
    requires Step(sys, Resolve(st, call)).machine.Running?
    ensures Related(Next(st, Begin(call)), Step(sys, Resolve(st, call)))
  {
    var resolved := Resolve(st, call);
    StepKeepsLinked(sys, resolved);
    SingleAfterBegin(st, call);
    if !call.NameOwnerChanged? {
      if call.ReportServiceState? {
        BeginReport(st, sys, call);
      } else {
        BeginOwn(st, sys, call);
      }
      forall s ensures Lags(Next(st, Begin(call)), Step(sys, call), s) {
        if s != call.service { BeginOther(st, sys, call, s); }
      }
    } else if Loss(call) && Hit(st.watch, call.bus, call.first).Some? {
      var k := Hit(st.watch, call.bus, call.first).value;
      BeginHit(st, sys, call, k);
      forall s ensures Lags(Next(st, Begin(call)), Step(sys, resolved), s) {
        HitLags(st, sys, k, s);
      }
    } else {
      BeginMiss(st, sys, call);
    }
  }

  lemma FinishKeepsRelated(st: State, sys: System, task: Task)
    requires Related(st, sys)
    ensures Related(Next(st, Finish(task)), sys)
  {
    if task in st.pending {
      FinishOwn(st, sys, task);
      forall s ensures Lags(Next(st, Finish(task)), sys, s) {
        if s != task.service { FinishOther(st, sys, task, s); }
      }
    } else {
      assert st.pending - multiset{task} == st.pending;
      assert Next(st, Finish(task)) == st;
    }
  }

  lemma {:induction false} OrderlyIsRelated(acts: seq<Act>)
    requires Orderly(acts) && Serve(Serial(acts)).machine.Running?
    ensures Related(Exec(acts), Serve(Serial(acts)))
  {
    if acts != [] {
      var front := Front(acts);
      match Last(acts)
      case Begin(call) =>
        ServeSnoc(Serial(front), Resolve(Exec(front), call));
        OrderlyIsRelated(front);
        ServeLinked(Serial(front));
        BeginKeepsRelated(Exec(front), Serve(Serial(front)), call);
      case Finish(task) =>
        OrderlyIsRelated(front);
        FinishKeepsRelated(Exec(front), Serve(Serial(front)), task);
    } else {
      assert forall s :: Lags(Exec([]), START, s);
    }
  }

  /** An orderly schedule that has run to rest is in the state of the serial run of its calls. */
  lemma OrderlyIsSerializable(acts: seq<Act>)
    requires Orderly(acts) && Serve(Serial(acts)).machine.Running?
    requires Exec(acts).pending == multiset{}
    ensures System(Exec(acts).machine, Exec(acts).watch) == Serve(Serial(acts))
  {
    var st, sys := Exec(acts), Serve(Serial(acts));
    OrderlyIsRelated(acts);
    forall s ensures Find(st.machine.table, s) == Find(sys.machine.table, s) && Find(st.watch, s) == Find(sys.watch, s) {
      assert Lags(st, sys, s);
    }
    TablesEqual(st.machine.table, sys.machine.table);
    TablesEqual(st.watch, sys.watch);
  }
}
