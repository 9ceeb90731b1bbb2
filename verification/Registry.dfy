/**
 The registry of monitored services as a state machine over events. This is the
 specification that the methods of class `Scheduler` are proved against.
 */
module Registry {
  import opened Common
  import opened Cursor

  /** What is kept per service; the process id and the back-off interval affect no transition. */
  datatype Info = Info(
    serviceName: string,
    policy: seq<Action>,
    cursor: Int8,
    crashes: UInt32,
    online: bool,
    current: Action,
    last: Action)

  type Table = map<string, Info>

  /** `Undefined` is entered when an action is read outside its policy: C++ promises nothing from there on. */
  datatype Machine = Running(table: Table) | Undefined

  /** `Idle` is any call that leaves the registry alone: a query, or a signal that matches no service. */
  datatype Event =
    | Register(name: string, actions: seq<Action>)
    | Unregister(name: string)
    | Report(name: string, current: Action, last: Action)
    | Failure(name: string)
    | Idle

  predicate Names(e: Event, s: string)
  {
    !e.Idle? && e.name == s
  }

  /** The policy a fresh registration stores. */
  function PolicyFor(actions: seq<Action>): (policy: seq<Action>)
    ensures policy != []
  {
    if actions == [] then DEFAULT_POLICY else actions
  }

  function FreshInfo(name: string, actions: seq<Action>): Info
  {
    Info(name, PolicyFor(actions), -1, 0, true, UNKNOWN, UNKNOWN)
  }

  /** The record after a failure, or `None` when the action would be read outside the policy. */
  function Failed(info: Info): Option<Info>
  {
    var next := Advance(info.cursor, |info.policy|);
    if InPolicy(next, |info.policy|) then
      Some(info.(online := false, crashes := ToUInt32(info.crashes + 1), cursor := next,
                 last := CRASHED, current := info.policy[next]))
    else
      None
  }

  function Reported(info: Info, current: Action, last: Action): Info
  {
    info.(current := current, last := if last != UNKNOWN then last else info.last)
  }

  function Apply(m: Machine, e: Event): Machine
  {
    if m.Undefined? then Undefined else
    var t := m.table;
    match e
    case Idle => m
    case Register(n, actions) =>
      if n in t then Running(t[n := t[n].(online := true)])
      else if InCatalogue(n) then Running(t[n := FreshInfo(n, actions)])
      else m
    case Unregister(n) => Running(t - {n})
    case Report(n, current, last) =>
      if n in t then Running(t[n := Reported(t[n], current, last)]) else m
    case Failure(n) =>
      if n !in t then m else
      match Failed(t[n])
      case Some(info) => Running(t[n := info])
      case None => Undefined
  }

  /** The machine after a run of events from the empty registry. */
  function Run(events: seq<Event>): Machine
  {
    if events == [] then Running(map[]) else Apply(Run(Front(events)), Last(events))
  }

  // -------------------- queries --------------------

  datatype Snapshot = Snapshot(
    found: bool, online: bool, last: Action, current: Action, next: Action, attempts: int)

  const NOT_FOUND: Snapshot := Snapshot(false, false, UNKNOWN, UNKNOWN, UNKNOWN, 0)

  /** Narrowing to a 32-bit `int`. */
  function ToInt32(x: UInt32): int
  {
    if x < 0x8000_0000 then x else x - 0x1_0000_0000
  }

  function Query(t: Table, s: string): Snapshot
    requires WellFormed(t)
  {
    if s !in t then NOT_FOUND else
    var info := t[s];
    Snapshot(true, info.online, info.last, info.current,
             info.policy[PeekOf(info)], ToInt32(info.crashes))
  }

  /** The position a query predicts; it is always inside the policy, whatever the policy length. */
  function PeekOf(info: Info): (i: nat)
    requires WellFormedInfo(info)
    ensures i < |info.policy|
  {
    PeekIndex(info.cursor, |info.policy|)
  }

  // -------------------- what every event keeps --------------------

  predicate WellFormedInfo(info: Info)
  {
    info.policy != [] && -1 <= info.cursor < |info.policy|
  }

  /** Keys are the stored names, all from the catalogue, and every cursor is -1 or inside its policy. */
  ghost predicate WellFormed(t: Table)
  {
    forall s | s in t :: t[s].serviceName == s && InCatalogue(s) && WellFormedInfo(t[s])
  }

  lemma ApplyKeepsWellFormed(m: Machine, e: Event)
    requires m.Running? ==> WellFormed(m.table)
    ensures Apply(m, e).Running? ==> WellFormed(Apply(m, e).table)
  {
  }

  /** What one event does to a record it does not remove: only a failure moves its counters. */
  lemma StepOnRecord(m: Machine, e: Event, s: string)
    requires m.Running? && Apply(m, e).Running? && s in m.table && e != Unregister(s)
    ensures s in Apply(m, e).table
    ensures var before, after := m.table[s], Apply(m, e).table[s];
            && after.serviceName == before.serviceName
            && after.policy == before.policy
            && (e != Failure(s) ==> after.cursor == before.cursor && after.crashes == before.crashes)
            && (e == Failure(s) ==>
                  && after.cursor == Advance(before.cursor, |before.policy|)
                  && InPolicy(after.cursor, |after.policy|)
                  && after.crashes == ToUInt32(before.crashes + 1)
                  && after.current == after.policy[after.cursor])
  {
  }

  /** Who writes the last and the current action of a record that stays. */
  lemma ActionsStep(m: Machine, e: Event, s: string)
    requires m.Running? && Apply(m, e).Running? && s in m.table && e != Unregister(s)
    ensures s in Apply(m, e).table
    ensures var before, after := m.table[s], Apply(m, e).table[s];
            && after.last == (if e == Failure(s) then CRASHED
                              else if e.Report? && e.name == s && e.last != UNKNOWN then e.last
                              else before.last)
            && (e != Failure(s) ==>
                  after.current == if e.Report? && e.name == s then e.current else before.current)
  {
  }

  /** A record that appears is a fresh one. */
  lemma AppearsFresh(m: Machine, e: Event, s: string)
    requires m.Running? && Apply(m, e).Running? && s !in m.table && s in Apply(m, e).table
    ensures e.Register? && e.name == s && InCatalogue(s) && Apply(m, e).table[s] == FreshInfo(s, e.actions)
  {
  }

  /** Who is registered and who is online after one event. */
  lemma LivenessStep(m: Machine, e: Event, s: string)
    requires m.Running? && Apply(m, e).Running?
    ensures s in Apply(m, e).table <==>
              || (e.Register? && e.name == s && (s in m.table || InCatalogue(s)))
              || (s in m.table && e != Unregister(s))
    ensures s in Apply(m, e).table ==>
              (Apply(m, e).table[s].online <==>
                 (e.Register? && e.name == s) || (s in m.table && m.table[s].online && e != Failure(s)))
  {
  }

  /** Reducing after every increment is the same as reducing the total. */
  lemma CountStep(n: nat)
    ensures ToUInt32(ToUInt32(n) + 1) == ToUInt32(n + 1)
  {
  }

  lemma {:induction false} RunWellFormed(events: seq<Event>)
    ensures Run(events).Running? ==> WellFormed(Run(events).table)
  {
    if events != [] {
      RunWellFormed(Front(events));
      ApplyKeepsWellFormed(Run(Front(events)), Last(events));
    }
  }

  /** The registry never outgrows the catalogue. */
  lemma RegistryIsBounded(events: seq<Event>)
    requires Run(events).Running?
    ensures |Run(events).table| <= 20
  {
    RunWellFormed(events);
    var t := Run(events).table;
    var names := seq(LAST_ID - FIRST_ID + 1, i requires 0 <= i <= LAST_ID - FIRST_ID => ServiceName(FIRST_ID + i));
    forall s | s in t ensures s in names {
      var id: ServiceId :| ServiceName(id) == s;
      assert names[id - FIRST_ID] == s;
    }
    SubsetSize(t.Keys, set n | n in names);
    ElementCount(names);
  }

  lemma {:induction false} SubsetSize<T>(a: set<T>, b: set<T>)
    requires a <= b
    ensures |a| <= |b|
  {
    if a != {} {
      var x :| x in a;
      SubsetSize(a - {x}, b - {x});
    }
  }

  lemma {:induction false} ElementCount<T>(s: seq<T>)
    ensures |set x | x in s| <= |s|
  {
    if s != [] {
      ElementCount(Front(s));
      assert (set x | x in s) == (set x | x in Front(s)) + {Last(s)};
    }
  }

  /** Appending one event is one more step. */
  lemma RunSnoc(events: seq<Event>, e: Event)
    ensures Run(events + [e]) == Apply(Run(events), e)
  {
    assert Front(events + [e]) == events;
  }
}
