/**
 Whole runs of the handlers: who is watched, which loss signal is a crash of
 which service, and the ledger that ties registrations to crashes.
 */
module Attribution {
  import opened Common
  import opened Registry
  import opened History
  import opened Peers

  // -------------------- online and watched --------------------

  /** A service that no client registers anonymously is online exactly when it is watched. */
  lemma {:induction false} OnlineIffWatched(calls: seq<Call>, s: string)
    requires forall c | c in calls && c.RegisterService? && c.service == s :: c.bus != ""
    requires Serve(calls).machine.Running? && s in Serve(calls).machine.table
    ensures Serve(calls).machine.table[s].online <==> s in Serve(calls).watch
  {
    var front, call := Front(calls), Last(calls);
    assert call in calls;
    assert forall c | c in front :: c in calls;
    var sys := Serve(front);
    ServeLinked(front);
    WatchStep(sys, call, s);
    LivenessStep(sys.machine, Emits(sys, call), s);
    if s in sys.machine.table {
      OnlineIffWatched(front, s);
    }
  }

  /** Call `k` created the entry of `s` or is its latest failure: what came before no longer matters. */
  ghost predicate SessionStart(calls: seq<Call>, s: string, i: nat, k: nat)
  {
    && i <= k < |calls|
    && (k == i || Emitted(calls)[k] == Failure(s))
    && forall j | k < j < |calls| :: Emitted(calls)[j] != Failure(s)
  }

  ghost predicate RegisteredSince(calls: seq<Call>, s: string, k: nat)
  {
    exists j :: k <= j < |calls| && calls[j].RegisterService? && calls[j].service == s
  }

  ghost predicate NamedRegisteredSince(calls: seq<Call>, s: string, k: nat)
  {
    exists j :: k <= j < |calls| && NamedRegistration(calls[j], s)
  }

  lemma SinceStep(calls: seq<Call>, s: string, k: nat)
    requires k < |calls|
    ensures RegisteredSince(calls, s, k) <==>
            RegisteredSince(Front(calls), s, k) || (Last(calls).RegisterService? && Last(calls).service == s)
    ensures NamedRegisteredSince(calls, s, k) <==>
            NamedRegisteredSince(Front(calls), s, k) || NamedRegistration(Last(calls), s)
  {
    var front := Front(calls);
    assert forall j | 0 <= j < |front| :: front[j] == calls[j];
    assert calls[|calls| - 1] == Last(calls);
  }

  /** How one call moves the two flags of a service that is registered after it. */
  lemma FlagStep(sys: System, call: Call, s: string)
    requires sys.machine.Running? && Linked(sys) && WellFormed(sys.machine.table)
    requires Step(sys, call).machine.Running? && s in Step(sys, call).machine.table
    ensures Step(sys, call).machine.table[s].online <==>
              || (call.RegisterService? && call.service == s)
              || (s in sys.machine.table && sys.machine.table[s].online && Emits(sys, call) != Failure(s))
    ensures s in Step(sys, call).watch <==>
            NamedRegistration(call, s) || (s in sys.watch && Emits(sys, call) != Failure(s))
  {
    WatchStep(sys, call, s);
    LivenessStep(sys.machine, Emits(sys, call), s);
  }

  lemma ServedSinceBirth(calls: seq<Call>, s: string, i: nat)
    requires Serve(calls).machine.Running? && IsBirth(Emitted(calls), s, i)
    ensures s in Serve(calls).machine.table
  {
    ServeRefinesRun(calls);
    assert s in Run(Emitted(calls)).table by { Record(Emitted(calls), s, i); }
  }

  /** Without that hypothesis: both flags, exactly, from the registrations since creation or the latest failure. */
  lemma {:induction false} SessionDecides(calls: seq<Call>, s: string, i: nat, k: nat)
    requires Serve(calls).machine.Running? && IsBirth(Emitted(calls), s, i) && SessionStart(calls, s, i, k)
    ensures s in Serve(calls).machine.table
    ensures Serve(calls).machine.table[s].online <==> RegisteredSince(calls, s, k)
    ensures s in Serve(calls).watch <==> NamedRegisteredSince(calls, s, k)
  {
    var front := Front(calls);
    EmittedFront(calls);
    ServeLinked(front);
    ServedSinceBirth(calls, s, i);
    FlagStep(Serve(front), Last(calls), s);
    SinceStep(calls, s, k);
    if k < |calls| - 1 {
      BirthOfFront(Emitted(calls), s, i);
      SessionOfFront(calls, s, i, k);
      SessionDecides(front, s, i, k);
    } else if k == i {
      NotWatchedBeforeBirth(calls, s);
    }
  }

  lemma SessionOfFront(calls: seq<Call>, s: string, i: nat, k: nat)
    requires SessionStart(calls, s, i, k) && k < |calls| - 1
    ensures SessionStart(Front(calls), s, i, k)
    ensures Last(Emitted(calls)) != Failure(s)
  {
    EmittedFront(calls);
    assert forall j | 0 <= j < |calls| - 1 :: Emitted(Front(calls))[j] == Emitted(calls)[j];
  }

  // -------------------- attribution --------------------

  /** No bus name registers two services. */
  ghost predicate OneServicePerBus(calls: seq<Call>)
  {
    forall i, j, s, r |
      0 <= i < |calls| && 0 <= j < |calls| && NamedRegistration(calls[i], s) && NamedRegistration(calls[j], r) ::
      calls[i].bus == calls[j].bus ==> s == r
  }

  /** Call `i` registered `s` from `bus`, and nothing since has superseded, withdrawn or consumed that. */
  ghost predicate ArmedAt(calls: seq<Call>, s: string, bus: string, i: int)
  {
    && 0 <= i < |calls|
    && NamedRegistration(calls[i], s)
    && calls[i].bus == bus
    && forall j | i < j < |calls| ::
         !NamedRegistration(calls[j], s) && calls[j] != UnregisterService(s) && !(Loss(calls[j]) && calls[j].bus == bus)
  }

  /** This speaks of the calls alone, not of any table. */
  ghost predicate Armed(calls: seq<Call>, s: string, bus: string)
  {
    exists i :: ArmedAt(calls, s, bus, i)
  }

  /** How the last call changes what is armed. */
  lemma ArmedStep(calls: seq<Call>, s: string, bus: string)
    requires calls != []
    ensures Armed(calls, s, bus) <==>
            var call := Last(calls);
            if NamedRegistration(call, s) then call.bus == bus
            else Armed(Front(calls), s, bus) && call != UnregisterService(s) && !(Loss(call) && call.bus == bus)
  {
    var front, call := Front(calls), Last(calls);
    if NamedRegistration(call, s) && call.bus == bus {
      assert ArmedAt(calls, s, bus, |calls| - 1);
    }
    if i :| ArmedAt(front, s, bus, i) {
      if !NamedRegistration(call, s) && call != UnregisterService(s) && !(Loss(call) && call.bus == bus) {
        assert ArmedAt(calls, s, bus, i);
      }
    }
    if i :| ArmedAt(calls, s, bus, i) {
      assert calls[|calls| - 1] == call;
      if i < |calls| - 1 {
        assert ArmedAt(front, s, bus, i);
      }
    }
  }

  lemma OneServicePerBusFront(calls: seq<Call>)
    requires calls != [] && OneServicePerBus(calls)
    ensures OneServicePerBus(Front(calls))
  {
  }

  /** Two services are never armed from one bus name. */
  lemma ArmedOnce(calls: seq<Call>, s: string, r: string, bus: string)
    requires OneServicePerBus(calls) && Armed(calls, s, bus) && Armed(calls, r, bus)
    ensures s == r
  {
  }

  /** The watch table holds exactly what the history of calls has armed. */
  lemma {:induction false} WatchedIffArmed(calls: seq<Call>, s: string, bus: string)
    requires Serve(calls).machine.Running? && OneServicePerBus(calls)
    ensures Matches(Serve(calls).watch, bus, s) <==> Armed(calls, s, bus)
    decreases |calls|, 0
  {
    if calls == [] { return; }
    var front, call := Front(calls), Last(calls);
    var sys := Serve(front);
    OneServicePerBusFront(calls);
    WatchedIffArmed(front, s, bus);
    ArmedStep(calls, s, bus);
    ServeLinked(front);
    WatchStep(sys, call, s);
    if Loss(call) && call.bus == bus && Armed(front, s, bus) {
      ForcedHit(front, call, s);
    }
  }

  /** The service armed from a lost name is the one the signal consumes. */
  lemma {:induction false} ForcedHit(calls: seq<Call>, loss: Call, s: string)
    requires Serve(calls).machine.Running? && OneServicePerBus(calls) && Loss(loss)
    requires Armed(calls, s, loss.bus)
    ensures Emits(Serve(calls), loss) == Failure(s)
    decreases |calls|, 1
  {
    ServeLinked(calls);
    WatchedIffArmed(calls, s, loss.bus);
    MarkerIsSound(Serve(calls), loss);
    var hit := Hit(Serve(calls).watch, loss.bus, loss.first);
    WatchedIffArmed(calls, hit.value, loss.bus);
    ArmedOnce(calls, s, hit.value, loss.bus);
  }

  /** A loss signal fails a service exactly when the history has that service armed from the lost name. */
  lemma CrashAttribution(calls: seq<Call>, loss: Call, s: string)
    requires Serve(calls).machine.Running? && OneServicePerBus(calls) && Loss(loss)
    ensures Emits(Serve(calls), loss) == Failure(s) <==> Armed(calls, s, loss.bus)
  {
    if Armed(calls, s, loss.bus) {
      ForcedHit(calls, loss, s);
    } else {
      ServeLinked(calls);
      WatchStep(Serve(calls), loss, s);
      WatchedIffArmed(calls, s, loss.bus);
    }
  }

  /** A second signal for the same name, with no registration from it between, changes nothing. */
  lemma RepeatedLossIsIdle(calls: seq<Call>, between: seq<Call>, loss: Call, again: Call)
    requires Loss(loss) && Loss(again) && again.bus == loss.bus
    requires var all := calls + [loss] + between; Serve(all).machine.Running? && OneServicePerBus(all)
    requires forall c | c in between && c.RegisterService? :: c.bus != loss.bus
    ensures Step(Serve(calls + [loss] + between), again) == Serve(calls + [loss] + between)
  {
    var all, at := calls + [loss] + between, |calls|;
    assert all[at] == loss;
    assert forall k | at < k < |all| :: all[k] in between;
    forall s ensures !Armed(all, s, loss.bus) {
      if i :| ArmedAt(all, s, loss.bus, i) {
      }
    }
    NothingArmedIsIdle(all, again);
  }

  /** A signal for a name from which nothing is armed changes nothing. */
  lemma NothingArmedIsIdle(calls: seq<Call>, loss: Call)
    requires Serve(calls).machine.Running? && OneServicePerBus(calls) && Loss(loss)
    requires forall s :: !Armed(calls, s, loss.bus)
    ensures Step(Serve(calls), loss) == Serve(calls)
  {
    var hit := Hit(Serve(calls).watch, loss.bus, loss.first);
    if hit.Some? {
      WatchedIffArmed(calls, hit.value, loss.bus);
    }
  }

  /** Losing a connection after its service has registered from another one changes nothing. */
  lemma SupersededLossIsIdle(calls: seq<Call>, s: string, i: nat, j: nat, loss: Call)
    requires Serve(calls).machine.Running? && OneServicePerBus(calls) && Loss(loss)
    requires i < j < |calls| && NamedRegistration(calls[i], s) && NamedRegistration(calls[j], s)
    requires calls[i].bus == loss.bus
    requires forall k | j <= k < |calls| && NamedRegistration(calls[k], s) :: calls[k].bus != loss.bus
    ensures Step(Serve(calls), loss) == Serve(calls)
  {
    forall r ensures !Armed(calls, r, loss.bus) {
      if k :| ArmedAt(calls, r, loss.bus, k) {
      }
    }
    NothingArmedIsIdle(calls, loss);
  }

  // -------------------- conservation --------------------

  /** Successful registrations of `s` that carried a bus name, from call `from` on. */
  function NamedSince(calls: seq<Call>, from: nat, s: string): nat
  {
    if |calls| <= from then 0 else
    NamedSince(Front(calls), from, s) + if NamedRegistration(Last(calls), s) then 1 else 0
  }

  /** Those among them that found `s` already watched and replaced its bus name. */
  ghost function ReplacedSince(calls: seq<Call>, from: nat, s: string): nat
  {
    if |calls| <= from then 0 else
    ReplacedSince(Front(calls), from, s) +
    if NamedRegistration(Last(calls), s) && s in Serve(Front(calls)).watch then 1 else 0
  }

  lemma EmittedFront(calls: seq<Call>)
    requires calls != []
    ensures Front(Emitted(calls)) == Emitted(Front(calls))
    ensures Last(Emitted(calls)) == Emits(Serve(Front(calls)), Last(calls))
  {
  }

  /** One call keeps the books of a service: a named registration is one more, a failure settles one. */
  lemma LedgerStep(sys: System, call: Call, s: string, named: int, failures: int, replaced: int)
    requires sys.machine.Running? && Linked(sys) && WellFormed(sys.machine.table)
    requires named == failures + replaced + if s in sys.watch then 1 else 0
    requires call != UnregisterService(s)
    ensures named + (if NamedRegistration(call, s) then 1 else 0) ==
            failures + (if Emits(sys, call) == Failure(s) then 1 else 0)
            + replaced + (if NamedRegistration(call, s) && s in sys.watch then 1 else 0)
            + if s in WatchAfter(sys, call) then 1 else 0
  {
    WatchStep(sys, call, s);
  }

  /** Every named registration of an entry's life became a crash, was replaced, or is still watched. */
  lemma {:induction false} Ledger(calls: seq<Call>, s: string, i: nat)
    requires Serve(calls).machine.Running? && IsBirth(Emitted(calls), s, i)
    ensures NamedSince(calls, i, s) ==
            Failures(Emitted(calls), i, s) + ReplacedSince(calls, i, s) + if s in Serve(calls).watch then 1 else 0
  {
    var front := Front(calls);
    ServeLinked(front);
    EmittedFront(calls);
    assert Last(calls) != UnregisterService(s) by {
      assert Emitted(calls)[|calls| - 1] == Last(Emitted(calls));
    }
    if i == |calls| - 1 {
      NotWatchedBeforeBirth(calls, s);
      LedgerStep(Serve(front), Last(calls), s, 0, 0, 0);
    } else {
      BirthOfFront(Emitted(calls), s, i);
      Ledger(front, s, i);
      LedgerStep(Serve(front), Last(calls), s,
                 NamedSince(front, i, s), Failures(Emitted(front), i, s), ReplacedSince(front, i, s));
    }
  }

  lemma NotWatchedBeforeBirth(calls: seq<Call>, s: string)
    requires calls != [] && Serve(calls).machine.Running? && IsBirth(Emitted(calls), s, |calls| - 1)
    ensures s !in Serve(Front(calls)).machine.table && s !in Serve(Front(calls)).watch
  {
    ServeRefinesRun(calls);
    ServeRefinesRun(Front(calls));
    EmittedFront(calls);
    BirthIsFresh(Emitted(calls), s);
    ServeLinked(Front(calls));
  }

  /** The same with the stored 32-bit count, as long as it has not wrapped. */
  lemma Conservation(calls: seq<Call>, s: string, i: nat)
    requires Serve(calls).machine.Running? && IsBirth(Emitted(calls), s, i)
    requires Failures(Emitted(calls), i, s) < 0x1_0000_0000
    ensures s in Serve(calls).machine.table
    ensures NamedSince(calls, i, s) ==
            Serve(calls).machine.table[s].crashes + ReplacedSince(calls, i, s)
            + if s in Serve(calls).watch then 1 else 0
  {
    ServeRefinesRun(calls);
    Record(Emitted(calls), s, i);
    Ledger(calls, s, i);
    NoWrap(Failures(Emitted(calls), i, s));
  }

  lemma NoWrap(n: nat)
    requires n < 0x1_0000_0000
    ensures ToUInt32(n) == n
  {
  }
}
