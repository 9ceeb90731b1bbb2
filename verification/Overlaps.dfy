/**
 Exactly which overlaps of two handlers can be told from a serial run: a call begins while another
 handler is between its two locks on the same service, and both are then finished in either order.
 */
module Overlaps {
  import opened Common
  import opened Registry
  import opened Projection
  import opened Peers
  import opened Interleaving
  import opened Serializable

  // -------------------- the state at one service --------------------

  datatype Cell = Cell(record: Option<Info>, bus: Option<string>)

  ghost function Seen(machine: Machine, watch: Watch, s: string): Option<Cell>
  {
    if machine.Undefined? then None else Some(Cell(Find(machine.table, s), Find(watch, s)))
  }

  /** What a second half does to the cell of its service. */
  ghost function Perform(cell: Option<Cell>, task: Task): Option<Cell>
  {
    if cell.None? then None else
    match task
    case Insert(_, bus) => Some(cell.value.(bus := Some(bus)))
    case Erase(_) => Some(cell.value.(bus := None))
    case Fail(_) =>
      if cell.value.record.None? then cell else
      var failed := Failed(cell.value.record.value);
      if failed.None? then None else Some(cell.value.(record := failed))
  }

  lemma FinishSeen(st: State, task: Task)
    requires task in st.pending
    ensures var st' := Next(st, Finish(task));
            Seen(st'.machine, st'.watch, task.service) == Perform(Seen(st.machine, st.watch, task.service), task)
  {
  }

  ghost function Finished(st: State, first: Task, second: Task): State
  {
    Next(Next(st, Finish(first)), Finish(second))
  }

  lemma FinishedSeen(st: State, first: Task, second: Task)
    requires multiset{first, second} <= st.pending && first.service == second.service
    ensures var s, st' := first.service, Finished(st, first, second);
            Seen(st'.machine, st'.watch, s) == Perform(Perform(Seen(st.machine, st.watch, s), first), second)
  {
    FinishSeen(st, first);
    if Next(st, Finish(first)).machine.Running? {
      assert second in st.pending - multiset{first};
      FinishSeen(Next(st, Finish(first)), second);
    }
  }

  // -------------------- finishing both handlers --------------------

  /** At `s` the schedule is where the serial run is. */
  ghost predicate Level(st: State, sys: System, s: string)
  {
    Seen(st.machine, st.watch, s) == Seen(sys.machine, sys.watch, s)
  }

  /** However a waiting task and the work a call left are finished, the schedule is level with the serial run. */
  ghost predicate FinishesLevel(begun: State, left: multiset<Task>, task: Task, serial: System)
  {
    if left == multiset{} then Level(Next(begun, Finish(task)), serial, task.service) else
    forall t | t in left ::
      Level(Finished(begun, task, t), serial, task.service) && Level(Finished(begun, t, task), serial, task.service)
  }

  /** The overlap leaves no trace: whichever handler finishes first, the service ends as in the serial run. */
  ghost predicate Harmless(st: State, sys: System, call: Call, task: Task)
    requires st.machine.Running?
  {
    FinishesLevel(Next(st, Begin(call)), Left(st, call), task, Step(sys, Resolve(st, call)))
  }

  /** The same on cells. */
  ghost predicate CellsLevel(begun: Option<Cell>, left: multiset<Task>, task: Task, serial: Option<Cell>)
  {
    if left == multiset{} then Perform(begun, task) == serial else
    forall t | t in left :: Perform(Perform(begun, task), t) == serial && Perform(Perform(begun, t), task) == serial
  }

  lemma LevelIffCells(begun: State, left: multiset<Task>, task: Task, serial: System)
    requires multiset{task} + left <= begun.pending && forall t | t in left :: t.service == task.service
    ensures FinishesLevel(begun, left, task, serial) <==>
            CellsLevel(Seen(begun.machine, begun.watch, task.service), left, task,
                       Seen(serial.machine, serial.watch, task.service))
  {
    FinishSeen(begun, task);
    forall t | t in left
      ensures Level(Finished(begun, task, t), serial, task.service) <==>
              Perform(Perform(Seen(begun.machine, begun.watch, task.service), task), t)
              == Seen(serial.machine, serial.watch, task.service)
      ensures Level(Finished(begun, t, task), serial, task.service) <==>
              Perform(Perform(Seen(begun.machine, begun.watch, task.service), t), task)
              == Seen(serial.machine, serial.watch, task.service)
    {
      assert multiset{task, t} <= begun.pending;
      FinishedSeen(begun, task, t);
      FinishedSeen(begun, t, task);
    }
  }

  lemma HarmlessIffCells(st: State, sys: System, call: Call, task: Task)
    requires st.machine.Running? && task in st.pending && !call.NameOwnerChanged? && call.service == task.service
    ensures var begun, serial := Next(st, Begin(call)), Step(sys, call);
            Harmless(st, sys, call, task) <==>
            CellsLevel(Seen(begun.machine, begun.watch, task.service), Left(st, call), task,
                       Seen(serial.machine, serial.watch, task.service))
  {
    assert forall t | t in Left(st, call) :: t.service == task.service;
    LevelIffCells(Next(st, Begin(call)), Left(st, call), task, Step(sys, call));
  }

  // -------------------- registering --------------------

  lemma RegisterSeen(st: State, sys: System, call: Call)
    requires st.machine.Running? && sys.machine.Running? && call.RegisterService?
    ensures var s, begun, serial := call.service, Next(st, Begin(call)), Step(sys, call);
            && Seen(begun.machine, begun.watch, s) ==
               Some(Cell(Registered(Find(st.machine.table, s), call), Find(st.watch, s)))
            && Seen(serial.machine, serial.watch, s) ==
               Some(Cell(Registered(Find(sys.machine.table, s), call),
                         if (s in sys.machine.table || InCatalogue(s)) && call.bus != "" then Some(call.bus)
                         else Find(sys.watch, s)))
  {
  }

  ghost function Registered(record: Option<Info>, call: Call): Option<Info>
    requires call.RegisterService?
  {
    if record.Some? then Some(record.value.(online := true))
    else if InCatalogue(call.service) then Some(FreshInfo(call.service, Translate(call.wire)))
    else None
  }

  /** A registration over a waiting insert or erase, or over an owed failure. */
  lemma RegisterOverlapIff(st: State, sys: System, call: Call, task: Task)
    requires Related(st, sys) && WellFormed(st.machine.table)
    requires task in st.pending && call.RegisterService? && call.service == task.service
    ensures Harmless(st, sys, call, task) <==>
            match task
            case Insert(_, bus) => call.bus == "" || call.bus == bus
            case Erase(s) => call.bus == "" || !InCatalogue(s)
            case Fail(_) => false
  {
    var s := task.service;
    assert Lags(st, sys, s);
    HarmlessIffCells(st, sys, call, task);
    RegisterSeen(st, sys, call);
    match task
    case Insert(_, bus) =>
      assert Matches(sys.watch, bus, s);
      assert s in sys.machine.table;
    case Erase(_) =>
    case Fail(_) =>
      assert Single(st.pending);
  }

  // -------------------- unregistering and reporting --------------------

  lemma UnregisterSeen(st: State, sys: System, call: Call)
    requires st.machine.Running? && sys.machine.Running? && call.UnregisterService?
    ensures var s, begun, serial := call.service, Next(st, Begin(call)), Step(sys, call);
            && Seen(begun.machine, begun.watch, s) == Some(Cell(None, Find(st.watch, s)))
            && Seen(serial.machine, serial.watch, s) ==
               Some(Cell(None, if s in sys.machine.table then None else Find(sys.watch, s)))
  {
  }

  /** Without a record, an erase settles every task but an insert that may come after it. */
  lemma UnregisterCells(watch: Option<string>, left: multiset<Task>, task: Task)
    requires left == multiset{Erase(task.service)} || (left == multiset{} && task.Erase?)
    ensures CellsLevel(Some(Cell(None, watch)), left, task, Some(Cell(None, None))) <==> !task.Insert?
  {
    if left != multiset{} {
      assert Erase(task.service) in left;
    }
  }

  /** Where an unregistration finds the service, in the schedule and serially. */
  lemma UnregisterFinds(st: State, sys: System, task: Task)
    requires Related(st, sys) && task in st.pending
    ensures task.Erase? || (task.service in st.machine.table && task.service in sys.machine.table)
    ensures task.service in st.machine.table <==> task.service in sys.machine.table
    ensures task.Erase? ==> task.service !in sys.watch
  {
    assert Lags(st, sys, task.service);
    if task.Insert? {
      assert Matches(sys.watch, task.bus, task.service);
    }
  }

  /** An unregistration may overlap an owed failure or another unregistration, but not a registration. */
  lemma UnregisterOverlapIff(st: State, sys: System, call: Call, task: Task)
    requires Related(st, sys) && task in st.pending && call.UnregisterService? && call.service == task.service
    ensures Harmless(st, sys, call, task) <==> !task.Insert?
  {
    UnregisterFinds(st, sys, task);
    HarmlessIffCells(st, sys, call, task);
    UnregisterSeen(st, sys, call);
    UnregisterCells(Find(st.watch, task.service), Left(st, call), task);
  }

  lemma ReportSeen(st: State, sys: System, call: Call)
    requires st.machine.Running? && sys.machine.Running? && call.ReportServiceState?
    ensures var s, begun, serial := call.service, Next(st, Begin(call)), Step(sys, call);
            && Seen(begun.machine, begun.watch, s) ==
               Some(Cell(Noted(Find(st.machine.table, s), call), Find(st.watch, s)))
            && Seen(serial.machine, serial.watch, s) ==
               Some(Cell(Noted(Find(sys.machine.table, s), call), Find(sys.watch, s)))
  {
  }

  ghost function Noted(record: Option<Info>, call: Call): Option<Info>
    requires call.ReportServiceState?
  {
    if record.Some? then Some(Reported(record.value, ToAction(call.wireCurrent), ToAction(call.wireLast))) else None
  }

  /** A failure overwrites whatever a report wrote just before it. */
  lemma FailureOverwrites(info: Info, current: Action, last: Action)
    ensures Failed(Reported(info, current, last)) == Failed(info)
  {
  }

  /** A report just before a failure comes to the same as just after it iff it says what the failure writes. */
  lemma ReportThenFail(info: Info, failed: Info, current: Action, last: Action, bus: Option<string>, s: string)
    requires Failed(info) == Some(failed)
    ensures Perform(Some(Cell(Some(Reported(info, current, last)), bus)), Fail(s)) ==
            Some(Cell(Some(Reported(failed, current, last)), bus))
            <==> current == failed.current && last in {UNKNOWN, CRASHED}
  {
    FailureOverwrites(info, current, last);
  }

  /** A report leaves nothing owed, so only the waiting task is still to be performed. */
  lemma ReportCells(st: State, sys: System, call: Call, task: Task)
    requires st.machine.Running? && sys.machine.Running? && task in st.pending
    requires call.ReportServiceState? && call.service == task.service
    ensures var s := task.service;
            Harmless(st, sys, call, task) <==>
            Perform(Some(Cell(Noted(Find(st.machine.table, s), call), Find(st.watch, s))), task) ==
            Some(Cell(Noted(Find(sys.machine.table, s), call), Find(sys.watch, s)))
  {
    HarmlessIffCells(st, sys, call, task);
    ReportSeen(st, sys, call);
    assert Left(st, call) == multiset{};
  }

  /** What the waiting task tells of the two states at its service. */
  lemma TaskLags(st: State, sys: System, task: Task)
    requires Related(st, sys) && task in st.pending
    ensures match task
            case Insert(s, bus) => Find(st.machine.table, s) == Find(sys.machine.table, s) && Find(sys.watch, s) == Some(bus)
            case Erase(s) => Find(st.machine.table, s) == Find(sys.machine.table, s) && Find(sys.watch, s) == None
            case Fail(s) =>
              && Find(st.watch, s) == Find(sys.watch, s)
              && s in st.machine.table && s in sys.machine.table
              && Failed(st.machine.table[s]) == Some(sys.machine.table[s])
  {
    assert Lags(st, sys, task.service);
  }

  /** A report may overlap anything but an owed failure, and that only if it says what the failure will write. */
  lemma ReportOverlapIff(st: State, sys: System, call: Call, task: Task)
    requires Related(st, sys) && task in st.pending && call.ReportServiceState? && call.service == task.service
    ensures Harmless(st, sys, call, task) <==>
            (task.Fail? ==>
               && ToAction(call.wireLast) in {UNKNOWN, CRASHED}
               && task.service in st.machine.table
               && var failed := Failed(st.machine.table[task.service]);
                  failed.Some? && ToAction(call.wireCurrent) == failed.value.current)
  {
    var s := task.service;
    TaskLags(st, sys, task);
    ReportCells(st, sys, call, task);
    if task.Fail? {
      ReportThenFail(st.machine.table[s], sys.machine.table[s], ToAction(call.wireCurrent), ToAction(call.wireLast),
                     Find(st.watch, s), s);
    }
  }

  // -------------------- loss signals --------------------

  /** A service that is watched is online serially, so its failure is not owed. */
  lemma WatchedOwesNoFailure(st: State, sys: System, s: string)
    requires Related(st, sys) && s in st.watch
    ensures Fail(s) !in st.pending
  {
    assert Lags(st, sys, s);
  }

  /** What a signal that finds `s` does at `s`, in the schedule and serially. */
  lemma LossSeen(st: State, sys: System, call: Call, s: string)
    requires Related(st, sys) && Catalogued(st) && Loss(call) && Hit(st.watch, call.bus, call.first) == Some(s)
    requires Step(sys, Resolve(st, call)).machine.Running?
    ensures Left(st, call) == multiset{Fail(s)}
    ensures var begun, serial := Next(st, Begin(call)), Step(sys, Resolve(st, call));
            && Seen(begun.machine, begun.watch, s) == Some(Cell(Find(st.machine.table, s), None))
            && Seen(serial.machine, serial.watch, s) ==
               if Matches(sys.watch, call.bus, s)
               then Perform(Some(Cell(Find(sys.machine.table, s), None)), Fail(s))
               else Some(Cell(Find(sys.machine.table, s), Find(sys.watch, s)))
  {
    HitIsCatalogued(st, call);
    var resolved := Resolve(st, call);
    MarkerIsSound(sys, resolved);
    if !Matches(sys.watch, call.bus, s) {
      OtherStep(sys.machine.table, Emits(sys, resolved), s);
    }
  }

  /** A failure of a registered service is never without trace. */
  lemma FailureShows(cell: Cell, s: string)
    ensures Perform(Some(cell), Fail(s)) == Some(cell) <==> cell.record.None?
  {
  }

  /** An erase and a failure of `s`, in either order, leave an unwatched cell as it was iff it holds no record. */
  lemma EraseAndFail(record: Option<Info>, s: string)
    ensures CellsLevel(Some(Cell(record, None)), multiset{Fail(s)}, Erase(s), Some(Cell(record, None))) <==> record.None?
  {
    FailureShows(Cell(record, None), s);
    assert Fail(s) in multiset{Fail(s)};
  }

  /** An insert and a failure of `s` leave neither the cell the insert alone makes nor the one the failure alone makes. */
  lemma InsertAndFail(record: Option<Info>, s: string, bus: string, serial: Option<Cell>)
    requires record.Some?
    requires serial == Perform(Some(Cell(record, None)), Fail(s)) || serial == Some(Cell(record, Some(bus)))
    requires serial.Some?
    ensures !CellsLevel(Some(Cell(record, None)), multiset{Fail(s)}, Insert(s, bus), serial)
  {
    FailureShows(Cell(record, Some(bus)), s);
    assert Fail(s) in multiset{Fail(s)};
  }

  lemma LossCells(begun: State, serial: System, task: Task, record: Option<Info>)
    requires multiset{task} + multiset{Fail(task.service)} <= begun.pending && !task.Fail?
    requires Seen(begun.machine, begun.watch, task.service) == Some(Cell(record, None))
    requires var seen := Seen(serial.machine, serial.watch, task.service);
             if task.Erase? then seen == Some(Cell(record, None)) else
             && record.Some? && seen.Some?
             && (seen == Perform(Some(Cell(record, None)), Fail(task.service)) || seen == Some(Cell(record, Some(task.bus))))
    ensures FinishesLevel(begun, multiset{Fail(task.service)}, task, serial) <==> task.Erase? && record.None?
  {
    var s := task.service;
    LevelIffCells(begun, multiset{Fail(s)}, task, serial);
    if task.Erase? {
      EraseAndFail(record, s);
    } else {
      InsertAndFail(record, s, task.bus, Seen(serial.machine, serial.watch, s));
    }
  }

  /** A signal that finds a service another handler is working on passes only if that handler unregistered it. */
  lemma LossOverlapIff(st: State, sys: System, call: Call, task: Task)
    requires Related(st, sys) && Catalogued(st) && task in st.pending
    requires Loss(call) && Hit(st.watch, call.bus, call.first) == Some(task.service)
    requires Step(sys, Resolve(st, call)).machine.Running?
    ensures Harmless(st, sys, call, task) <==> task.Erase? && task.service !in st.machine.table
  {
    var s := task.service;
    LossSeen(st, sys, call, s);
    LaggingCells(st, sys, task);
    LossCells(Next(st, Begin(call)), Step(sys, Resolve(st, call)), task, Find(st.machine.table, s));
  }

  /** A watched service with a task waiting has its serial record, and serially the watch that the task will give it. */
  lemma LaggingCells(st: State, sys: System, task: Task)
    requires Related(st, sys) && task in st.pending && task.service in st.watch
    ensures !task.Fail?
    ensures Find(st.machine.table, task.service) == Find(sys.machine.table, task.service)
    ensures task.Erase? ==> task.service !in sys.watch
    ensures task.Insert? ==> Matches(sys.watch, task.bus, task.service) && task.service in st.machine.table
  {
    assert Lags(st, sys, task.service);
    WatchedOwesNoFailure(st, sys, task.service);
  }

  /** A signal that finds a service nobody is working on finds it serially too, whatever else is under way. */
  lemma FreeHitAgrees(st: State, sys: System, call: Call, s: string)
    requires Related(st, sys) && Loss(call) && Hit(st.watch, call.bus, call.first) == Some(s) && !Busy(st, s)
    ensures Hit(sys.watch, call.bus, Resolve(st, call).first) == Some(s)
    ensures Find(st.machine.table, s) == Find(sys.machine.table, s)
  {
    assert Lags(st, sys, s);
  }

  /** A serial watch that the schedule does not show is an insert still owed. */
  lemma HiddenWatchIsOwed(st: State, sys: System, bus: string, s: string)
    requires Related(st, sys) && !Matches(st.watch, bus, s)
    ensures Matches(sys.watch, bus, s) <==> Insert(s, bus) in st.pending
  {
    assert Lags(st, sys, s);
    if Matches(sys.watch, bus, s) {
      var t :| t in st.pending && t.service == s;
      assert t.Insert? && Insert(s, t.bus) == t;
    }
  }

  /** A signal that finds nothing finds nothing serially either, unless an insert from the lost name is owed. */
  lemma MissedLossIff(st: State, sys: System, call: Call)
    requires Related(st, sys) && Loss(call) && Hit(st.watch, call.bus, call.first).None?
    ensures Step(sys, call) == sys <==> forall s :: Insert(s, call.bus) !in st.pending
  {
    MarkerIsSound(sys, call);
    forall s ensures Matches(sys.watch, call.bus, s) <==> Insert(s, call.bus) in st.pending {
      HiddenWatchIsOwed(st, sys, call.bus, s);
    }
  }
}
