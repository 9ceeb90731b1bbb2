/**
 Exact statements about every schedule of critical sections: who is watched, who is
 watched without being registered, which loss signal is noticed, and whom it fails.
 */
module Schedules {
  import opened Common
  import opened Registry
  import opened History
  import opened Peers
  import opened Interleaving

  // -------------------- what an act does to the watch of a service --------------------

  /** The act completes the second half of a handler. */
  ghost predicate Lands(st: State, act: Act, task: Task)
  {
    st.machine.Running? && act == Finish(task) && task in st.pending
  }

  /** The act is a loss signal whose scan stops at `s`. */
  ghost predicate Consumes(st: State, act: Act, s: string)
  {
    st.machine.Running? && act.Begin? && Loss(act.call) && Hit(st.watch, act.call.bus, act.call.first) == Some(s)
  }

  /** The act lands an insert or an erase of the watch of `s`. */
  ghost predicate Rewrites(st: State, act: Act, s: string)
  {
    st.machine.Running? && act.Finish? && act.task in st.pending && act.task.service == s && !act.task.Fail?
  }

  /** The act replaces, erases or consumes whatever watch `s` has. */
  ghost predicate Displaces(st: State, act: Act, s: string)
  {
    Rewrites(st, act, s) || Consumes(st, act, s)
  }

  // -------------------- conditions that hold since some act --------------------

  /** Act `k`, in the state it finds, is of the given kind. */
  ghost predicate At(acts: seq<Act>, k: int, kind: (State, Act) -> bool)
  {
    0 <= k < |acts| && kind(Exec(acts[..k]), acts[k])
  }

  /** Some act is of the first kind, and no later act of the second. */
  ghost predicate Since(acts: seq<Act>, sets: (State, Act) -> bool, clears: (State, Act) -> bool)
  {
    exists k :: At(acts, k, sets) && forall j | k < j < |acts| :: !At(acts, j, clears)
  }

  lemma AtStep(acts: seq<Act>, k: int, kind: (State, Act) -> bool)
    requires acts != []
    ensures At(acts, k, kind) <==>
            if k == |acts| - 1 then kind(Exec(Front(acts)), Last(acts)) else At(Front(acts), k, kind)
  {
    if 0 <= k < |acts| {
      assert acts[..k] == Front(acts)[..k];
      assert Front(acts)[..|acts| - 1] == Front(acts);
    }
  }

  lemma SinceStep(acts: seq<Act>, sets: (State, Act) -> bool, clears: (State, Act) -> bool)
    requires acts != []
    ensures Since(acts, sets, clears) <==>
            || sets(Exec(Front(acts)), Last(acts))
            || (Since(Front(acts), sets, clears) && !clears(Exec(Front(acts)), Last(acts)))
  {
    var n := |acts| - 1;
    if k :| At(acts, k, sets) && forall j | k < j < |acts| :: !At(acts, j, clears) {
      SinceShrinks(acts, k, sets, clears);
    }
    AtStep(acts, n, sets);
    if !clears(Exec(Front(acts)), Last(acts)) && Since(Front(acts), sets, clears) {
      var k :| At(Front(acts), k, sets) && forall j | k < j < |Front(acts)| :: !At(Front(acts), j, clears);
      SinceGrows(acts, k, sets, clears);
    }
  }

  lemma SinceShrinks(acts: seq<Act>, k: int, sets: (State, Act) -> bool, clears: (State, Act) -> bool)
    requires acts != [] && At(acts, k, sets) && forall j | k < j < |acts| :: !At(acts, j, clears)
    ensures || sets(Exec(Front(acts)), Last(acts))
            || (Since(Front(acts), sets, clears) && !clears(Exec(Front(acts)), Last(acts)))
  {
    var n := |acts| - 1;
    AtStep(acts, k, sets);
    if k < n {
      AtStep(acts, n, clears);
      forall j | k < j < n ensures !At(Front(acts), j, clears) {
        AtStep(acts, j, clears);
      }
    }
  }

  lemma SinceGrows(acts: seq<Act>, k: int, sets: (State, Act) -> bool, clears: (State, Act) -> bool)
    requires acts != [] && At(Front(acts), k, sets) && forall j | k < j < |acts| - 1 :: !At(Front(acts), j, clears)
    requires !clears(Exec(Front(acts)), Last(acts))
    ensures Since(acts, sets, clears)
  {
    AtStep(acts, k, sets);
    forall j | k < j < |acts| ensures !At(acts, j, clears) {
      AtStep(acts, j, clears);
    }
  }

  ghost function Inserting(s: string, bus: string): (State, Act) -> bool
  {
    (st, act) => Lands(st, act, Insert(s, bus))
  }

  ghost function Displacing(s: string): (State, Act) -> bool
  {
    (st, act) => Displaces(st, act, s)
  }

  /** Some act inserted the watch of `s` under `bus`, and no later act has displaced it. */
  ghost predicate Stands(acts: seq<Act>, s: string, bus: string)
  {
    Since(acts, Inserting(s, bus), Displacing(s))
  }

  lemma WatchedStep(st: State, act: Act, s: string, bus: string)
    ensures Matches(Next(st, act).watch, bus, s) <==>
            Lands(st, act, Insert(s, bus)) || (Matches(st.watch, bus, s) && !Displaces(st, act, s))
  {
  }

  /** Under every schedule the watch table holds exactly the inserts that still stand. */
  lemma {:induction false} WatchedIffStands(acts: seq<Act>, s: string, bus: string)
    ensures Matches(Exec(acts).watch, bus, s) <==> Stands(acts, s, bus)
  {
    if acts != [] {
      var front, act := Front(acts), Last(acts);
      WatchedIffStands(front, s, bus);
      WatchedStep(Exec(front), act, s, bus);
      SinceStep(acts, Inserting(s, bus), Displacing(s));
    }
  }

  // -------------------- no second half is lost --------------------

  /** How many acts of a kind a schedule has. */
  ghost function Number(acts: seq<Act>, kind: (State, Act) -> bool): nat
  {
    if acts == [] then 0 else
    Number(Front(acts), kind) + if kind(Exec(Front(acts)), Last(acts)) then 1 else 0
  }

  /** The act begins a registration of `s` that carries this bus name. */
  ghost predicate Names(act: Act, s: string, bus: string)
  {
    act.Begin? && NamedRegistration(act.call, s) && act.call.bus == bus
  }

  /** The act begins an unregistration of `s` that finds its entry. */
  ghost predicate Removes(st: State, act: Act, s: string)
  {
    act == Begin(UnregisterService(s)) && st.machine.Running? && s in st.machine.table
  }

  lemma InsertStep(st: State, act: Act, s: string, bus: string)
    requires st.machine.Running? && WellFormed(st.machine.table)
    ensures Next(st, act).pending[Insert(s, bus)] + (if Lands(st, act, Insert(s, bus)) then 1 else 0) ==
            st.pending[Insert(s, bus)] + (if Names(act, s, bus) then 1 else 0)
  {
  }

  lemma EraseStep(st: State, act: Act, s: string)
    requires st.machine.Running?
    ensures Next(st, act).pending[Erase(s)] + (if Lands(st, act, Erase(s)) then 1 else 0) ==
            st.pending[Erase(s)] + (if Removes(st, act, s) then 1 else 0)
  {
  }

  /** Every named registration that began has inserted its watch or still owes it. */
  lemma {:induction false} InsertsConserved(acts: seq<Act>, s: string, bus: string)
    requires Exec(acts).machine.Running?
    ensures Number(acts, (st, act) => Names(act, s, bus)) ==
            Number(acts, (st, act) => Lands(st, act, Insert(s, bus))) + Exec(acts).pending[Insert(s, bus)]
  {
    if acts != [] {
      InsertsConserved(Front(acts), s, bus);
      ExecRefinesRun(Front(acts));
      InsertStep(Exec(Front(acts)), Last(acts), s, bus);
    }
  }

  /** Every unregistration that removed an entry has erased the watch or still owes that. */
  lemma {:induction false} ErasesConserved(acts: seq<Act>, s: string)
    requires Exec(acts).machine.Running?
    ensures Number(acts, (st, act) => Removes(st, act, s)) ==
            Number(acts, (st, act) => Lands(st, act, Erase(s))) + Exec(acts).pending[Erase(s)]
  {
    if acts != [] {
      ErasesConserved(Front(acts), s);
      EraseStep(Exec(Front(acts)), Last(acts), s);
    }
  }

  // -------------------- orphans and unnoticed losses --------------------

  /** Exactly when a schedule has a service watched but not registered: an insert stands and no registration does. */
  lemma OrphanIff(acts: seq<Act>, s: string)
    requires Exec(acts).machine.Running?
    ensures s in Exec(acts).watch && s !in Exec(acts).machine.table
            <==> (exists bus :: Stands(acts, s, bus)) && forall i :: !IsBirth(Delivered(acts), s, i)
  {
    ExecRefinesRun(acts);
    RegisteredIff(Delivered(acts), s);
    if s in Exec(acts).watch {
      WatchedIffStands(acts, s, Exec(acts).watch[s]);
    } else if bus :| Stands(acts, s, bus) {
      WatchedIffStands(acts, s, bus);
    }
  }

  /** The act inserts a watch of `s` while `s` is not registered. */
  ghost predicate Orphans(st: State, act: Act, s: string)
  {
    st.machine.Running? && act.Finish? && act.task in st.pending && act.task.Insert? && act.task.service == s
    && s !in st.machine.table
  }

  /** The act displaces the watch of `s`, or registers `s`. */
  ghost predicate Adopts(st: State, act: Act, s: string)
  {
    Displaces(st, act, s) || (act.Begin? && act.call.RegisterService? && act.call.service == s)
  }

  ghost function Orphaning(s: string): (State, Act) -> bool
  {
    (st, act) => Orphans(st, act, s)
  }

  ghost function Adopting(s: string): (State, Act) -> bool
  {
    (st, act) => Adopts(st, act, s)
  }

  ghost predicate Orphan(st: State, s: string)
  {
    st.machine.Running? && s in st.watch && s !in st.machine.table
  }

  /** An act registers or unregisters `s` only by beginning a call that does. */
  lemma TableStep(st: State, act: Act, s: string)
    requires st.machine.Running? && Next(st, act).machine.Running?
    ensures s !in st.machine.table && s in Next(st, act).machine.table ==>
            act.Begin? && act.call.RegisterService? && act.call.service == s
    ensures s in st.machine.table && s !in Next(st, act).machine.table ==> act == Begin(UnregisterService(s))
  {
    LivenessStep(st.machine, Delivers(st, act), s);
  }

  /** The watch of `s` stays unless displaced, and appears only when an insert lands. */
  lemma WatchStays(st: State, act: Act, s: string)
    requires st.machine.Running?
    ensures s in st.watch && !Displaces(st, act, s) ==> s in Next(st, act).watch
    ensures s in Next(st, act).watch ==>
              || (s in st.watch && !Displaces(st, act, s))
              || Lands(st, act, Insert(s, Next(st, act).watch[s]))
  {
    if s in st.watch {
      WatchedStep(st, act, s, st.watch[s]);
    }
    if s in Next(st, act).watch {
      WatchedStep(st, act, s, Next(st, act).watch[s]);
    }
  }

  /** An erase that is owed stays owed until it lands. */
  lemma EraseStays(st: State, act: Act, s: string)
    requires st.machine.Running? && Erase(s) in st.pending
    ensures Erase(s) in Next(st, act).pending || act == Finish(Erase(s))
  {
  }

  /** An orphan is made by an insert that finds no entry and stays one until adopted ... */
  lemma OrphanStays(st: State, act: Act, s: string)
    requires Next(st, act).machine.Running?
    ensures Orphans(st, act, s) ==> Orphan(Next(st, act), s)
    ensures Orphan(st, s) && !Adopts(st, act, s) ==> Orphan(Next(st, act), s)
  {
    TableStep(st, act, s);
    WatchStays(st, act, s);
  }

  /** ... and comes about in no other way, except while an unregistration has its erase still owed. */
  lemma OrphanComes(st: State, act: Act, s: string)
    requires Catalogued(st) && st.machine.Running? && Orphan(Next(st, act), s) && !Orphans(st, act, s)
    ensures (Orphan(st, s) && !Adopts(st, act, s)) || Erase(s) in Next(st, act).pending
    ensures Erase(s) in st.pending ==> Erase(s) in Next(st, act).pending
  {
    WatchStays(st, act, s);
    if s in st.machine.table {
      UnregistrationOwes(st, act, s);
    } else {
      LivenessStep(st.machine, Delivers(st, act), s);
    }
    if Erase(s) in st.pending {
      EraseStays(st, act, s);
    }
  }

  lemma UnregistrationOwes(st: State, act: Act, s: string)
    requires st.machine.Running? && Next(st, act).machine.Running?
    requires s in st.machine.table && s !in Next(st, act).machine.table
    ensures Erase(s) in Next(st, act).pending
  {
    TableStep(st, act, s);
  }

  lemma {:induction false} OrphanSince(acts: seq<Act>, s: string)
    requires Exec(acts).machine.Running?
    ensures Since(acts, Orphaning(s), Adopting(s)) ==> Orphan(Exec(acts), s)
    ensures Orphan(Exec(acts), s) ==> Since(acts, Orphaning(s), Adopting(s)) || Erase(s) in Exec(acts).pending
  {
    if acts != [] {
      var front, act := Front(acts), Last(acts);
      OrphanSince(front, s);
      ExecBalanced(front, s);
      SinceStep(acts, Orphaning(s), Adopting(s));
      OrphanStays(Exec(front), act, s);
      if Orphan(Exec(acts), s) && !Orphans(Exec(front), act, s) {
        OrphanComes(Exec(front), act, s);
      }
    }
  }

  /**
   Which interleaving makes an orphan: unless its erase is still owed, a service is watched and unregistered iff
   an insert landed while it was unregistered and since then nothing displaced the watch or registered it.
   */
  lemma OrphanMadeIff(acts: seq<Act>, s: string)
    requires Exec(acts).machine.Running? && Erase(s) !in Exec(acts).pending
    ensures s in Exec(acts).watch && s !in Exec(acts).machine.table <==> Since(acts, Orphaning(s), Adopting(s))
  {
    OrphanSince(acts, s);
  }

  lemma LossLeavesWorkIff(st: State, loss: Call)
    requires st.machine.Running? && Catalogued(st) && Loss(loss)
    ensures Left(st, loss) != multiset{} <==> exists s :: Matches(st.watch, loss.bus, s)
  {
    HitIsCatalogued(st, loss);
  }

  /** Exactly when a loss signal is noticed: an insert from the lost name stands for some service. */
  lemma LossNoticedIff(acts: seq<Act>, loss: Call)
    requires Exec(acts).machine.Running? && Loss(loss)
    ensures Left(Exec(acts), loss) != multiset{} <==> exists s :: Stands(acts, s, loss.bus)
  {
    ExecBalanced(acts, "");
    LossLeavesWorkIff(Exec(acts), loss);
    forall s ensures Matches(Exec(acts).watch, loss.bus, s) <==> Stands(acts, s, loss.bus) {
      WatchedIffStands(acts, s, loss.bus);
    }
  }

  // -------------------- a loss that is never noticed --------------------

  /** A registered service watched under `bus` with no handler of its own under way. */
  ghost predicate Settled(st: State, s: string, bus: string)
  {
    && st.machine.Running? && s in st.machine.table && Matches(st.watch, bus, s)
    && forall t | t in st.pending :: t.service != s
  }

  /** The act neither registers nor unregisters `s`, nor announces the loss of `bus`. */
  ghost predicate Passes(act: Act, s: string, bus: string)
  {
    act.Begin? ==>
      && !(act.call.RegisterService? && act.call.service == s)
      && act.call != UnregisterService(s)
      && !(Loss(act.call) && act.call.bus == bus)
  }

  lemma PassingDelivers(st: State, act: Act, s: string, bus: string)
    requires Settled(st, s, bus) && Passes(act, s, bus)
    ensures var e := Delivers(st, act); e != Failure(s) && e != Unregister(s) && !(e.Register? && e.name == s)
  {
  }

  lemma PassingLeaves(st: State, act: Act, s: string, bus: string)
    requires Settled(st, s, bus) && Passes(act, s, bus)
    ensures Matches(Next(st, act).watch, bus, s)
    ensures forall t | t in Next(st, act).pending :: t.service != s
  {
    if act.Begin? {
      assert forall t | t in Left(st, act.call) :: t.service != s;
    }
  }

  lemma PassingKeepsSettled(st: State, act: Act, s: string, bus: string)
    requires Settled(st, s, bus) && Passes(act, s, bus) && Next(st, act).machine.Running?
    ensures Settled(Next(st, act), s, bus)
    ensures var before, after := st.machine.table[s], Next(st, act).machine.table[s];
            after.online == before.online && after.crashes == before.crashes && after.cursor == before.cursor
  {
    PassingDelivers(st, act, s, bus);
    PassingLeaves(st, act, s, bus);
    StepOnRecord(st.machine, Delivers(st, act), s);
    LivenessStep(st.machine, Delivers(st, act), s);
  }

  lemma ExecAppend(acts: seq<Act>, more: seq<Act>)
    requires more != []
    ensures Exec(acts + more) == Next(Exec(acts + Front(more)), Last(more))
  {
    assert acts + more == acts + Front(more) + [Last(more)];
    ExecSnoc(acts + Front(more), Last(more));
  }

  /** Until its peer calls again or its name is announced lost once more, nothing any schedule does touches it. */
  lemma {:induction false} SettledForever(acts: seq<Act>, more: seq<Act>, s: string, bus: string)
    requires Settled(Exec(acts), s, bus)
    requires forall k | 0 <= k < |more| :: Passes(more[k], s, bus)
    requires Exec(acts + more).machine.Running?
    ensures Settled(Exec(acts + more), s, bus)
    ensures var before, after := Exec(acts).machine.table[s], Exec(acts + more).machine.table[s];
            after.online == before.online && after.crashes == before.crashes && after.cursor == before.cursor
  {
    if more == [] {
      assert acts + more == acts;
    } else {
      ExecAppend(acts, more);
      SettledForever(acts, Front(more), s, bus);
      PassingKeepsSettled(Exec(acts + Front(more)), Last(more), s, bus);
    }
  }

  /** A registration of `s` from `bus` is between its two locks, alone on `s`, and nothing is watched under `bus`. */
  ghost predicate Exposed(st: State, s: string, bus: string)
  {
    && st.machine.Running? && s in st.machine.table && Insert(s, bus) in st.pending
    && (forall t | t in st.pending - multiset{Insert(s, bus)} :: t.service != s)
    && forall r :: !Matches(st.watch, bus, r)
  }

  lemma ExposedLossIsIdle(st: State, s: string, bus: string, first: string)
    requires Exposed(st, s, bus)
    ensures Next(st, Begin(NameOwnerChanged(bus, "", first))) == st
  {
    assert st.pending + multiset{} == st.pending;
  }

  lemma ExposedSettles(st: State, s: string, bus: string)
    requires Exposed(st, s, bus)
    ensures Next(st, Finish(Insert(s, bus))).machine == st.machine && Settled(Next(st, Finish(Insert(s, bus))), s, bus)
  {
  }

  /**
   A peer that dies between the two halves of its registration is never noticed: the bus announces its loss once,
   and in every continuation without a new call for the service it stays watched, with the liveness, crash count
   and cursor it had.
   */
  lemma LostForever(acts: seq<Act>, s: string, bus: string, first: string, more: seq<Act>)
    requires Exposed(Exec(acts), s, bus)
    requires forall k | 0 <= k < |more| :: Passes(more[k], s, bus)
    ensures var st := Exec(acts + [Begin(NameOwnerChanged(bus, "", first))] + [Finish(Insert(s, bus))] + more);
            st.machine.Running? ==>
              && Matches(st.watch, bus, s) && s in st.machine.table
              && var before, after := Exec(acts).machine.table[s], st.machine.table[s];
                 after.online == before.online && after.crashes == before.crashes && after.cursor == before.cursor
  {
    var lost := acts + [Begin(NameOwnerChanged(bus, "", first))];
    ExposedLossIsIdle(Exec(acts), s, bus, first);
    ExposedSettles(Exec(acts), s, bus);
    ExecSnoc(acts, Begin(NameOwnerChanged(bus, "", first)));
    ExecSnoc(lost, Finish(Insert(s, bus)));
    if Exec(lost + [Finish(Insert(s, bus))] + more).machine.Running? {
      SettledForever(lost + [Finish(Insert(s, bus))], more, s, bus);
    }
  }

  /** Such a schedule exists: after its commit the dead peer of a first registration stays online and uncrashed. */
  lemma FirstRegistrationLost(s: string, bus: string, more: seq<Act>)
    requires InCatalogue(s) && bus != ""
    requires forall k | 0 <= k < |more| :: Passes(more[k], s, bus)
    ensures var st := Exec([Begin(RegisterService(bus, s, []))] + [Begin(NameOwnerChanged(bus, "", s))]
                           + [Finish(Insert(s, bus))] + more);
            st.machine.Running? ==>
              && Matches(st.watch, bus, s)
              && s in st.machine.table && st.machine.table[s].online && st.machine.table[s].crashes == 0
  {
    RegistrationBegun(s, bus);
    LostForever([Begin(RegisterService(bus, s, []))], s, bus, s, more);
  }

  // -------------------- attribution under every schedule --------------------

  /** No bus name registers two services, whatever the order of the critical sections. */
  ghost predicate OneServicePerBus(acts: seq<Act>)
  {
    forall i, j, s, r |
      && 0 <= i < |acts| && acts[i].Begin? && NamedRegistration(acts[i].call, s)
      && 0 <= j < |acts| && acts[j].Begin? && NamedRegistration(acts[j].call, r) ::
      acts[i].call.bus == acts[j].call.bus ==> s == r
  }

  /** Some registration of `s` from `bus` has begun. */
  ghost predicate Begun(acts: seq<Act>, s: string, bus: string)
  {
    exists i :: 0 <= i < |acts| && acts[i].Begin? && NamedRegistration(acts[i].call, s) && acts[i].call.bus == bus
  }

  /** The act replaces or erases the watch of `s`, or is a signal that `bus` has gone. */
  ghost predicate Disarms(st: State, act: Act, s: string, bus: string)
  {
    Rewrites(st, act, s) || (act.Begin? && Loss(act.call) && act.call.bus == bus)
  }

  ghost function Disarming(s: string, bus: string): (State, Act) -> bool
  {
    (st, act) => Disarms(st, act, s, bus)
  }

  /** Some act inserted the watch, and nothing since has replaced it, erased it or announced the loss of its name. */
  ghost predicate Armed(acts: seq<Act>, s: string, bus: string)
  {
    Since(acts, Inserting(s, bus), Disarming(s, bus))
  }

  lemma BegunExtends(acts: seq<Act>, s: string, bus: string)
    requires acts != [] && Begun(Front(acts), s, bus)
    ensures Begun(acts, s, bus)
  {
    var i :| 0 <= i < |acts| - 1 && Front(acts)[i].Begin? && NamedRegistration(Front(acts)[i].call, s)
             && Front(acts)[i].call.bus == bus;
    assert acts[i] == Front(acts)[i];
  }

  /** Every watch, inserted or about to be, comes from a registration that has begun. */
  lemma {:induction false} WatchesWereBegun(acts: seq<Act>, s: string, bus: string)
    ensures Matches(Exec(acts).watch, bus, s) || Insert(s, bus) in Exec(acts).pending ==> Begun(acts, s, bus)
  {
    if acts != [] {
      var front, act := Front(acts), Last(acts);
      var st := Exec(front);
      WatchesWereBegun(front, s, bus);
      ExecRefinesRun(front);
      WatchedStep(st, act, s, bus);
      if Begun(front, s, bus) {
        BegunExtends(acts, s, bus);
      } else if Insert(s, bus) in Exec(acts).pending {
        InsertIsNamed(st, act, s, bus);
        assert acts[|acts| - 1] == act;
      }
    }
  }

  /** An insert becomes owed by a named registration. */
  lemma InsertIsNamed(st: State, act: Act, s: string, bus: string)
    requires st.machine.Running? ==> WellFormed(st.machine.table)
    requires Insert(s, bus) !in st.pending && Insert(s, bus) in Next(st, act).pending
    ensures act.Begin? && NamedRegistration(act.call, s) && act.call.bus == bus
  {
  }

  /** With one service per bus name, no two services are watched under one name. */
  lemma WatchIsInjective(acts: seq<Act>, s: string, r: string, bus: string)
    requires OneServicePerBus(acts)
    requires Matches(Exec(acts).watch, bus, s) && Matches(Exec(acts).watch, bus, r)
    ensures s == r
  {
    WatchesWereBegun(acts, s, bus);
    WatchesWereBegun(acts, r, bus);
  }

  /** With one service per bus name, a signal for the name `s` is watched under consumes the watch of `s`. */
  lemma ForcedHit(acts: seq<Act>, loss: Call, s: string)
    requires OneServicePerBus(acts) && Loss(loss) && Matches(Exec(acts).watch, loss.bus, s)
    ensures Hit(Exec(acts).watch, loss.bus, loss.first) == Some(s)
  {
    WatchIsInjective(acts, s, Hit(Exec(acts).watch, loss.bus, loss.first).value, loss.bus);
  }

  /** While `s` is watched under `bus`, to disarm is to displace, if a signal for that name cannot miss `s`. */
  lemma DisarmsIffDisplaces(st: State, act: Act, s: string, bus: string)
    requires st.machine.Running? && Matches(st.watch, bus, s)
    requires act.Begin? && Loss(act.call) && act.call.bus == bus ==> Consumes(st, act, s)
    ensures Disarms(st, act, s, bus) <==> Displaces(st, act, s)
  {
    if Consumes(st, act, s) {
      assert Matches(st.watch, act.call.bus, s);
    }
  }

  lemma {:induction false} WatchedIffArmed(acts: seq<Act>, s: string, bus: string)
    requires OneServicePerBus(acts) && Exec(acts).machine.Running?
    ensures Matches(Exec(acts).watch, bus, s) <==> Armed(acts, s, bus)
  {
    if acts != [] {
      var front, act := Front(acts), Last(acts);
      WatchedIffArmed(front, s, bus);
      WatchedStep(Exec(front), act, s, bus);
      SinceStep(acts, Inserting(s, bus), Disarming(s, bus));
      if Matches(Exec(front).watch, bus, s) {
        if act.Begin? && Loss(act.call) && act.call.bus == bus {
          ForcedHit(front, act.call, s);
        }
        DisarmsIffDisplaces(Exec(front), act, s, bus);
      }
    }
  }

  /** Under every schedule, a loss signal leaves a failure of `s` owed iff the schedule has `s` armed from the lost name. */
  lemma ScheduleAttribution(acts: seq<Act>, loss: Call, s: string)
    requires OneServicePerBus(acts) && Exec(acts).machine.Running? && Loss(loss)
    ensures Left(Exec(acts), loss) == multiset{Fail(s)} <==> Armed(acts, s, loss.bus)
  {
    ExecBalanced(acts, s);
    HitIsCatalogued(Exec(acts), loss);
    WatchedIffArmed(acts, s, loss.bus);
    OwedByCall(Exec(acts), loss, s);
    if Matches(Exec(acts).watch, loss.bus, s) {
      ForcedHit(acts, loss, s);
    }
  }
}
