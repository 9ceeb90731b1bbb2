/**
 The scheduler object: methods that update the registry in place, each proved
 to take the step that the registry machine takes.
 */
module SchedulerImpl {
  import opened Common
  import opened Cursor
  import opened Registry

  /** Append the actions to the tail of a policy. */
  method Push(policy: seq<Action>, actions: seq<Action>) returns (r: seq<Action>)
    ensures r == policy + actions
  {
    r := policy;
    for i := 0 to |actions|
      invariant r == policy + actions[..i]
    {
      r := r + [actions[i]];
    }
    assert actions[..|actions|] == actions;
  }

  /** Walk the catalogue for a name. */
  method IsNameValid(name: string) returns (valid: bool)
    ensures valid <==> InCatalogue(name)
    ensures valid <==> IsAppName(name)
  {
    CatalogueIs(name);
    valid := false;
    var id := FIRST_ID;
    while id <= LAST_ID
      invariant FIRST_ID <= id <= LAST_ID + 1
      invariant valid <==> exists i: ServiceId :: i < id && ServiceName(i) == name
    {
      if ServiceName(id) == name {
        valid := true;
      }
      id := id + 1;
    }
  }

  class Scheduler {
    var registry: map<string, Info>

    ghost predicate Valid()
      reads this
    {
      WellFormed(registry)
    }

    constructor ()
      ensures Valid() && registry == map[]
    {
      registry := map[];
    }

    /**
     Linear search through the stored records, in whatever order the map yields them. With keys equal to
     the stored names it finds the entry that a keyed lookup finds, and no other.
     */
    method FindByStoredName(name: string) returns (key: Option<string>)
      ensures key.None? ==> forall k | k in registry :: registry[k].serviceName != name
      ensures key.Some? ==> key.value in registry && registry[key.value].serviceName == name
      ensures Valid() ==> key == if name in registry then Some(name) else None
    {
      var rest := registry.Keys;
      while rest != {}
        invariant rest <= registry.Keys
        invariant forall k | k in registry && k !in rest :: registry[k].serviceName != name
        decreases rest
      {
        var k :| k in rest;
        if registry[k].serviceName == name {
          return Some(k);
        }
        rest := rest - {k};
      }
      key := None;
    }

    /** `defined` is false when the action is read outside the policy; C++ promises nothing then. */
    method OnServiceFailure(name: string) returns (defined: bool)
      requires Valid()
      modifies this
      ensures Valid()
      ensures Apply(Running(old(registry)), Failure(name)) == if defined then Running(registry) else Undefined
      ensures !defined ==> registry == old(registry)
    {
      defined := true;
      var key := FindByStoredName(name);
      if key.Some? {
        var info := registry[key.value];
        info := info.(online := false);
        info := info.(crashes := ToUInt32(info.crashes + 1));
        info := info.(cursor := ToInt8(info.cursor + 1));
        info := info.(cursor := if info.cursor == ToInt8(|info.policy|) then 0 else info.cursor);
        if InPolicy(info.cursor, |info.policy|) {
          var next := info.policy[info.cursor];
          info := info.(last := CRASHED);
          info := info.(current := next);
          registry := registry[key.value := info];
        } else {
          defined := false;
        }
      }
      ApplyKeepsWellFormed(Running(old(registry)), Failure(name));
    }

    /** Succeeds for exactly the catalogued names, whatever was registered before. */
    method OnRegisterService(name: string, actions: seq<Action>) returns (ok: bool)
      requires Valid()
      modifies this
      ensures Valid()
      ensures Running(registry) == Apply(Running(old(registry)), Register(name, actions))
      ensures ok <==> IsAppName(name)
    {
      CatalogueIs(name);
      if name !in registry {
        ok := IsNameValid(name);
        if ok {
          var policy;
          if actions != [] {
            policy := Push([], actions);
          } else {
            policy := Push([], [RESTART, RESTART, STOP, DISABLE]);
          }
          assert policy == PolicyFor(actions);
          registry := registry[name := Info(name, policy, -1, 0, true, UNKNOWN, UNKNOWN)];
        }
      } else {
        ok := true;
        registry := registry[name := registry[name].(online := true)];
      }
      ApplyKeepsWellFormed(Running(old(registry)), Register(name, actions));
    }

    /** Removes the entry of that name and no other. */
    method OnUnregisterService(name: string) returns (ok: bool)
      requires Valid()
      modifies this
      ensures Valid()
      ensures Running(registry) == Apply(Running(old(registry)), Unregister(name))
      ensures ok <==> name in old(registry)
    {
      var key := FindByStoredName(name);
      if key.None? {
        ok := false;
      } else {
        ok := true;
        registry := registry - {key.value};
      }
      assert registry == old(registry) - {name};
    }

    method OnReportServiceState(name: string, current: Action, last: Action) returns (ok: bool)
      requires Valid()
      modifies this
      ensures Valid()
      ensures Running(registry) == Apply(Running(old(registry)), Report(name, current, last))
      ensures ok <==> name in old(registry)
      ensures ok ==> registry[name] == old(registry)[name].(
                current := current, last := if last == 255 then old(registry)[name].last else last)
    {
      if name !in registry {
        return false;
      }
      var info := registry[name];
      info := info.(current := current);
      if last != UNKNOWN {
        info := info.(last := last);
      }
      registry := registry[name := info];
      ok := true;
      ApplyKeepsWellFormed(Running(old(registry)), Report(name, current, last));
    }

    /** Reads a snapshot; the predicted action is never read outside the policy. */
    method GetServiceState(name: string) returns (snapshot: Snapshot)
      requires Valid()
      ensures snapshot == Query(registry, name)
    {
      snapshot := NOT_FOUND;
      if name in registry {
        var info := registry[name];
        snapshot := snapshot.(found := true);
        snapshot := snapshot.(online := info.online);
        snapshot := snapshot.(current := info.current);
        snapshot := snapshot.(last := info.last);
        snapshot := snapshot.(attempts := ToInt32(info.crashes));
        if info.policy != [] {
          var size := |info.policy|;
          var next := if info.cursor + 1 >= ToInt8(size) then 0 else ToInt8(info.cursor + 1);
          snapshot := snapshot.(next := info.policy[next]);
        }
      }
    }
  }
}
