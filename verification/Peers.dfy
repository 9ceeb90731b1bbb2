/**
 The peer-tracking protocol above the registry: a watch table from service name
 to bus name, and the handlers that keep it in step. Handlers run one at a time here.
 */
module Peers {
  import opened Common
  import opened Registry
  import opened History

  /** Service name to the unique bus name of the connection that registered it. */
  type Watch = map<string, string>

  datatype System = System(machine: Machine, watch: Watch)

  /**
   A handler invocation with callbacks installed. In `NameOwnerChanged`, `first` names the entry that the
   iteration over the watch table happens to reach before any other with that bus name.
   */
  datatype Call =
    | RegisterService(bus: string, service: string, wire: seq<int>)
    | UnregisterService(service: string)
    | ReportServiceState(service: string, wireCurrent: int, wireLast: int)
    | NameOwnerChanged(bus: string, newOwner: string, first: string)

  // -------------------- translation from the wire --------------------

  /** An enumerator is cast to an unsigned byte. */
  function ToAction(w: int): Action
  {
    w % 256
  }

  function Translate(wire: seq<int>): seq<Action>
  {
    seq(|wire|, i requires 0 <= i < |wire| => ToAction(wire[i]))
  }

  predicate IsByte(w: int)
  {
    0 <= w < 256
  }

  /** The numbers of a byte, declared or not, cross the wire unchanged; others lose whole turns of 256. */
  lemma TranslateIs(wire: seq<int>, j: nat, b: int, turns: int)
    requires j < |wire| && IsByte(b) && wire[j] == b + 256 * turns
    ensures |Translate(wire)| == |wire| && Translate(wire)[j] == b
  {
  }

  // -------------------- one call --------------------

  predicate Matches(watch: Watch, bus: string, k: string)
  {
    k in watch && watch[k] == bus
  }

  /** The entry a loss signal consumes: `first` when it matches, otherwise some other match, if any. */
  ghost function Hit(watch: Watch, bus: string, first: string): Option<string>
  {
    if Matches(watch, bus, first) then Some(first)
    else if exists k :: Matches(watch, bus, k) then
      var k :| Matches(watch, bus, k);
      Some(k)
    else None
  }

  /** The event a call delivers to the registry; the empty string is the handler's "no service" marker. */
  ghost function Emits(sys: System, call: Call): Event
  {
    match call
    case RegisterService(_, s, wire) => Register(s, Translate(wire))
    case UnregisterService(s) => Unregister(s)
    case ReportServiceState(s, current, last) => Report(s, ToAction(current), ToAction(last))
    case NameOwnerChanged(bus, newOwner, first) =>
      if newOwner != "" then Idle else
      var hit := Hit(sys.watch, bus, first);
      var affected := if hit.Some? then hit.value else "";
      if affected != "" then Failure(affected) else Idle
  }

  ghost function WatchAfter(sys: System, call: Call): Watch
    requires sys.machine.Running?
  {
    var t := sys.machine.table;
    match call
    case RegisterService(bus, s, _) =>
      if (s in t || InCatalogue(s)) && bus != "" then sys.watch[s := bus] else sys.watch
    case UnregisterService(s) => if s in t then sys.watch - {s} else sys.watch
    case ReportServiceState(_, _, _) => sys.watch
    case NameOwnerChanged(bus, newOwner, first) =>
      if newOwner != "" then sys.watch else
      var hit := Hit(sys.watch, bus, first);
      if hit.Some? then sys.watch - {hit.value} else sys.watch
  }

  ghost function Step(sys: System, call: Call): System
  {
    if sys.machine.Undefined? then sys else
    System(Apply(sys.machine, Emits(sys, call)), WatchAfter(sys, call))
  }

  const START: System := System(Running(map[]), map[])

  ghost function Serve(calls: seq<Call>): System
  {
    if calls == [] then START else Step(Serve(Front(calls)), Last(calls))
  }

  // -------------------- the registry's view of a run --------------------

  /** One event per call. */
  ghost function Emitted(calls: seq<Call>): (events: seq<Event>)
    ensures |events| == |calls|
  {
    if calls == [] then [] else Emitted(Front(calls)) + [Emits(Serve(Front(calls)), Last(calls))]
  }

  /** Below the handlers, a run of calls is a run of the registry machine. */
  lemma {:induction false} ServeRefinesRun(calls: seq<Call>)
    ensures Serve(calls).machine == Run(Emitted(calls))
  {
    if calls != [] {
      ServeRefinesRun(Front(calls));
      RunSnoc(Emitted(Front(calls)), Emits(Serve(Front(calls)), Last(calls)));
    }
  }

  lemma {:induction false} EmittedAt(calls: seq<Call>, k: nat)
    requires k < |calls|
    ensures Emitted(calls)[k] == Emits(Serve(calls[..k]), calls[k])
  {
    if k < |calls| - 1 {
      EmittedAt(Front(calls), k);
      assert Front(calls)[..k] == calls[..k];
    } else {
      assert calls[..k] == Front(calls);
    }
  }

  /** The stored policy is the wire list of the creating request, or the default when that list is empty. */
  lemma PolicyFidelity(calls: seq<Call>, s: string) returns (i: nat)
    requires Serve(calls).machine.Running? && s in Serve(calls).machine.table
    ensures IsBirth(Emitted(calls), s, i)
    ensures calls[i].RegisterService? && calls[i].service == s
    ensures var wire, policy := calls[i].wire, Serve(calls).machine.table[s].policy;
            if wire == [] then policy == [0, 0, 1, 2]
            else |policy| == |wire| && forall j | 0 <= j < |wire| && IsByte(wire[j]) :: policy[j] == wire[j]
  {
    ServeRefinesRun(calls);
    i := FindBirth(Emitted(calls), s);
    Record(Emitted(calls), s, i);
    EmittedAt(calls, i);
    var wire := calls[i].wire;
    forall j | 0 <= j < |wire| && IsByte(wire[j]) ensures Translate(wire)[j] == wire[j] {
      TranslateIs(wire, j, wire[j], 0);
    }
  }

  // -------------------- the two maps --------------------

  /** Every watched service is registered and online, under a non-empty name and bus name. */
  ghost predicate Linked(sys: System)
  {
    sys.machine.Running? ==>
      forall s | s in sys.watch ::
        && s in sys.machine.table
        && sys.machine.table[s].online
        && s != ""
        && sys.watch[s] != ""
  }

  // -------------------- one call, seen from one service --------------------

  /** A registration that succeeds and carries a bus name. */
  predicate NamedRegistration(call: Call, s: string)
  {
    call.RegisterService? && call.service == s && call.bus != "" && InCatalogue(s)
  }

  /** A signal that a name has gone. */
  predicate Loss(call: Call)
  {
    call.NameOwnerChanged? && call.newOwner == ""
  }

  /** In a linked state the empty marker always means that nothing matched. */
  lemma MarkerIsSound(sys: System, call: Call)
    requires sys.machine.Running? && Linked(sys) && Loss(call)
    ensures Emits(sys, call) == match Hit(sys.watch, call.bus, call.first)
                                case Some(k) => Failure(k)
                                case None => Idle
    ensures Emits(sys, call) == Idle <==> forall k :: !Matches(sys.watch, call.bus, k)
  {
    assert forall k :: Matches(sys.watch, call.bus, k) ==> k != "";
  }

  /** A service enters the watch table by a named registration and leaves it by unregistering or failing. */
  lemma WatchStep(sys: System, call: Call, s: string)
    requires sys.machine.Running? && Linked(sys) && WellFormed(sys.machine.table)
    ensures s in WatchAfter(sys, call) <==>
              || NamedRegistration(call, s)
              || (s in sys.watch && call != UnregisterService(s) && Emits(sys, call) != Failure(s))
    ensures s in WatchAfter(sys, call) ==>
              WatchAfter(sys, call)[s] == if NamedRegistration(call, s) then call.bus else sys.watch[s]
    ensures Emits(sys, call) == Failure(s) ==> Loss(call) && Matches(sys.watch, call.bus, s)
  {
    if Loss(call) {
      MarkerIsSound(sys, call);
    }
  }

  // -------------------- the numbers behind the names --------------------

  /** A report stores both numbers as they came, except that a last action of 255 leaves the stored one. */
  lemma ReportOnWire(sys: System, s: string, current: int, last: int)
    requires sys.machine.Running? && s in sys.machine.table
    ensures var after := Step(sys, ReportServiceState(s, current, last));
            && after.watch == sys.watch && after.machine.Running? && s in after.machine.table
            && var before, now := sys.machine.table[s], after.machine.table[s];
               && now.(current := before.current, last := before.last) == before
               && (IsByte(current) ==> now.current == current)
               && (IsByte(last) ==> now.last == if last == 255 then before.last else last)
  {
  }

  /** The record of a first registration, in numbers. */
  lemma FreshOnWire(sys: System, bus: string, s: string, wire: seq<int>)
    requires sys.machine.Running? && s !in sys.machine.table && InCatalogue(s)
    ensures var policy := if wire == [] then [0, 0, 1, 2] else Translate(wire);
            Step(sys, RegisterService(bus, s, wire)).machine ==
            Running(sys.machine.table[s := Info(s, policy, -1, 0, true, 255, 255)])
  {
    assert wire == [] ==> Translate(wire) == [];
  }

  /** A loss that finds a service leaves it offline with last action 3 and the action its cursor points at. */
  lemma LossOnWire(sys: System, loss: Call, s: string)
    requires sys.machine.Running? && Linked(sys) && Loss(loss) && Hit(sys.watch, loss.bus, loss.first) == Some(s)
    requires Step(sys, loss).machine.Running?
    ensures s in sys.machine.table && s in Step(sys, loss).machine.table
    ensures var before, now := sys.machine.table[s], Step(sys, loss).machine.table[s];
            && !now.online && now.last == 3 && now.policy == before.policy
            && 0 <= now.cursor < |now.policy| && now.current == now.policy[now.cursor]
            && (before.crashes < 0xFFFF_FFFF ==> now.crashes == before.crashes + 1)
  {
    MarkerIsSound(sys, loss);
    StepOnRecord(sys.machine, Failure(s), s);
    ActionsStep(sys.machine, Failure(s), s);
    LivenessStep(sys.machine, Failure(s), s);
  }

  // -------------------- every serial run --------------------

  lemma StepKeepsLinked(sys: System, call: Call)
    requires Linked(sys) && (sys.machine.Running? ==> WellFormed(sys.machine.table))
    ensures Linked(Step(sys, call))
  {
    if Step(sys, call).machine.Running? {
      forall s | s in Step(sys, call).watch
        ensures s in Step(sys, call).machine.table && Step(sys, call).machine.table[s].online
        ensures s != "" && Step(sys, call).watch[s] != ""
      {
        WatchStep(sys, call, s);
        LivenessStep(sys.machine, Emits(sys, call), s);
      }
    }
  }

  lemma {:induction false} ServeLinked(calls: seq<Call>)
    ensures Linked(Serve(calls))
    ensures Serve(calls).machine.Running? ==> WellFormed(Serve(calls).machine.table)
  {
    ServeRefinesRun(calls);
    RunWellFormed(Emitted(calls));
    if calls != [] {
      ServeLinked(Front(calls));
      StepKeepsLinked(Serve(Front(calls)), Last(calls));
    }
  }
}
