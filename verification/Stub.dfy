/**
 The stub object: D-Bus handlers that drive the scheduler and keep the watch
 table, each proved to take the step of the serial protocol.
 */
module StubImpl {
  import opened Common
  import opened Registry
  import opened Peers
  import opened SchedulerImpl

  datatype RegisterResult = REGISTER_OK | INVALID_NAME
  datatype UnregisterResult = UNREGISTER_OK | NOT_REGISTERED
  datatype QueryResult = QUERY_OK | QUERY_NOT_FOUND

  /** Cast a wire list to recovery states, one by one. */
  method TranslateActions(wire: seq<int>) returns (actions: seq<Action>)
    ensures actions == Translate(wire)
  {
    actions := [];
    for i := 0 to |wire|
      invariant actions == Translate(wire)[..i]
    {
      actions := actions + [ToAction(wire[i])];
    }
  }

  class Stub {
    var watch: map<string, string>
    var scheduler: Scheduler?  // the four callbacks are installed together; null until then

    ghost predicate Valid()
      reads this, scheduler
    {
      scheduler != null ==> scheduler.Valid()
    }

    /** The protocol state once callbacks are installed. */
    ghost function State(): System
      reads this, scheduler
      requires scheduler != null
    {
      System(Running(scheduler.registry), watch)
    }

    constructor ()
      ensures Valid() && watch == map[] && scheduler == null
    {
      watch, scheduler := map[], null;
    }

    method SetCallbacks(s: Scheduler)
      requires s.Valid()
      modifies this
      ensures Valid() && scheduler == s && watch == old(watch)
    {
      scheduler := s;
    }

    method RegisterService(bus: string, service: string, wire: seq<int>) returns (reply: RegisterResult)
      requires Valid()
      modifies this, scheduler
      ensures Valid() && scheduler == old(scheduler)
      ensures scheduler == null ==> watch == old(watch) && reply == INVALID_NAME
      ensures scheduler != null ==>
                && State() == Step(old(State()), Call.RegisterService(bus, service, wire))
                && (reply == REGISTER_OK <==> IsAppName(service))
    {
      CatalogueIs(service);
      var actions := TranslateActions(wire);
      var ok := false;
      if scheduler != null {
        ok := scheduler.OnRegisterService(service, actions);
      }
      if ok {
        if bus != "" {
          watch := watch[service := bus];
        }
      }
      reply := if ok then REGISTER_OK else INVALID_NAME;
    }

    method UnregisterService(service: string) returns (reply: UnregisterResult)
      requires Valid()
      modifies this, scheduler
      ensures Valid() && scheduler == old(scheduler)
      ensures scheduler == null ==> watch == old(watch) && reply == NOT_REGISTERED
      ensures scheduler != null ==>
                && State() == Step(old(State()), Call.UnregisterService(service))
                && (reply == UNREGISTER_OK <==> service in old(scheduler.registry))
    {
      var ok := false;
      if scheduler != null {
        ok := scheduler.OnUnregisterService(service);
      }
      if ok {
        watch := watch - {service};
      }
      reply := if ok then UNREGISTER_OK else NOT_REGISTERED;
    }

    method ReportServiceState(service: string, wireCurrent: int, wireLast: int) returns (reply: QueryResult)
      requires Valid()
      modifies this, scheduler
      ensures Valid() && scheduler == old(scheduler)
      ensures scheduler == null ==> watch == old(watch) && reply == QUERY_NOT_FOUND
      ensures scheduler != null ==>
                && State() == Step(old(State()), Call.ReportServiceState(service, wireCurrent, wireLast))
                && (reply == QUERY_OK <==> service in old(scheduler.registry))
                && (reply == QUERY_OK && wireLast == 255 ==>
                      scheduler.registry[service].last == old(scheduler.registry)[service].last)
    {
      var current, last := ToAction(wireCurrent), ToAction(wireLast);
      var ok := false;
      if scheduler != null {
        ok := scheduler.OnReportServiceState(service, current, last);
      }
      reply := if ok then QUERY_OK else QUERY_NOT_FOUND;
    }

    /**
     `affected` is the service the scan stopped at, or empty. `defined` is false when driving its recovery
     reads outside its policy; C++ promises nothing then.
     */
    method HandleNameOwnerChanged(name: string, newOwner: string) returns (defined: bool, affected: string)
      requires Valid()
      modifies this, scheduler
      ensures Valid() && scheduler == old(scheduler)
      ensures if newOwner == "" && exists k :: Matches(old(watch), name, k)
              then Matches(old(watch), name, affected) else affected == ""
      ensures scheduler == null ==>
                && defined
                && watch == if newOwner == "" && exists k :: Matches(old(watch), name, k)
                            then old(watch) - {affected} else old(watch)
      ensures scheduler != null ==>
                var after := Step(old(State()), NameOwnerChanged(name, newOwner, affected));
                && watch == after.watch
                && after.machine == if defined then Running(scheduler.registry) else Undefined
    {
      defined, affected := true, "";
      if newOwner == "" {
        var rest := watch.Keys;
        while rest != {}
          invariant rest <= watch.Keys
          invariant watch == old(watch) && affected == ""
          invariant forall k | k in watch && k !in rest :: watch[k] != name
          decreases rest
        {
          var k :| k in rest;
          if watch[k] == name {
            affected := k;
            watch := watch - {k};
            assert Matches(old(watch), name, affected);
            break;
          }
          rest := rest - {k};
        }
        if affected != "" {
          if scheduler != null {
            defined := scheduler.OnServiceFailure(affected);
          }
        }
      }
    }
  }
}
