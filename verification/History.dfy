/**
 Closed forms over whole runs: the record of a service is a function of the
 events since the registration that created it, whatever else is mixed in.
 */
module History {
  import opened Common
  import opened Cursor
  import opened Registry

  /** An event that creates an entry for `s` when there is none. */
  predicate Creates(e: Event, s: string)
  {
    e.Register? && e.name == s && InCatalogue(s)
  }

  /**
   Event `i` created the entry that `s` still has: it is followed by no unregistration, and every earlier
   registration was undone before it. This speaks of the events alone, not of any machine state.
   */
  ghost predicate IsBirth(events: seq<Event>, s: string, i: int)
  {
    && 0 <= i < |events|
    && Creates(events[i], s)
    && (forall j | i < j < |events| :: events[j] != Unregister(s))
    && (forall j | 0 <= j < i && Creates(events[j], s) :: Undone(events, s, j, i))
  }

  /** `s` is unregistered strictly between positions `j` and `i`. */
  ghost predicate Undone(events: seq<Event>, s: string, j: int, i: int)
    requires 0 <= j <= i <= |events|
  {
    exists u :: j < u < i && events[u] == Unregister(s)
  }

  /** How many failures of `s` occur from position `from` on. */
  function Failures(events: seq<Event>, from: nat, s: string): nat
  {
    if |events| <= from then 0 else
    Failures(Front(events), from, s) + if Last(events) == Failure(s) then 1 else 0
  }

  lemma UndoneInFront(events: seq<Event>, s: string, j: nat, i: nat)
    requires j <= i < |events|
    ensures Undone(Front(events), s, j, i) <==> Undone(events, s, j, i)
  {
  }

  // -------------------- who is registered --------------------

  lemma {:induction false} AbsentIsUndone(events: seq<Event>, s: string, j: nat)
    requires Run(events).Running? && s !in Run(events).table
    requires j < |events| && Creates(events[j], s)
    ensures Undone(events, s, j, |events|)
  {
    if Last(events) == Unregister(s) {
      assert events[|events| - 1] == Unregister(s);
    } else {
      AbsentIsUndone(Front(events), s, j);
      UndoneInFront(events, s, j, |events| - 1);
    }
  }

  /** A birth stands until the service is unregistered. */
  lemma BirthExtends(events: seq<Event>, s: string, i: nat)
    requires events != [] && IsBirth(Front(events), s, i) && Last(events) != Unregister(s)
    ensures IsBirth(events, s, i)
  {
  }

  /** The event at which an entry appears is its birth. */
  lemma AppearsAtBirth(events: seq<Event>, s: string)
    requires events != [] && Run(events).Running? && s in Run(events).table && s !in Run(Front(events)).table
    ensures IsBirth(events, s, |events| - 1)
  {
    var i := |events| - 1;
    assert Creates(events[i], s) by { AppearsFresh(Run(Front(events)), Last(events), s); }
    forall j | 0 <= j < i && Creates(events[j], s) ensures Undone(events, s, j, i) {
      AbsentIsUndone(Front(events), s, j);
      UndoneInFront(events, s, j, i);
    }
  }

  lemma {:induction false} FindBirth(events: seq<Event>, s: string) returns (i: nat)
    requires Run(events).Running? && s in Run(events).table
    ensures IsBirth(events, s, i)
  {
    var front := Front(events);
    if s in Run(front).table {
      i := FindBirth(front, s);
      BirthExtends(events, s, i);
    } else {
      AppearsAtBirth(events, s);
      i := |events| - 1;
    }
  }

  /** Dropping the last event keeps an earlier birth. */
  lemma BirthOfFront(events: seq<Event>, s: string, i: nat)
    requires IsBirth(events, s, i) && i < |events| - 1
    ensures IsBirth(Front(events), s, i)
  {
  }

  /** Two registrations cannot both stand. */
  lemma OneBirth(events: seq<Event>, s: string, j: nat)
    requires events != [] && IsBirth(events, s, |events| - 1)
    ensures !IsBirth(Front(events), s, j)
  {
    if j < |events| - 1 && Creates(events[j], s) {
      UndoneInFront(events, s, j, |events| - 1);
    }
  }

  /** The event that creates an entry finds none. */
  lemma BirthIsFresh(events: seq<Event>, s: string)
    requires Run(events).Running? && events != [] && IsBirth(events, s, |events| - 1)
    ensures s !in Run(Front(events)).table
  {
    if s in Run(Front(events)).table {
      var j := FindBirth(Front(events), s);
      OneBirth(events, s, j);
    }
  }

  // -------------------- the record as a function of history --------------------

  /** A record of `s` with that policy, `n` failures after its creation. */
  predicate Tracks(info: Info, s: string, policy: seq<Action>, n: nat)
  {
    && info.serviceName == s
    && info.policy == policy
    && info.crashes == ToUInt32(n)
    && info.cursor == CursorAfter(|policy|, n)
  }

  lemma TracksFresh(m: Machine, e: Event, s: string)
    requires m.Running? && s !in m.table && Creates(e, s)
    ensures s in Apply(m, e).table && Tracks(Apply(m, e).table[s], s, PolicyFor(e.actions), 0)
  {
  }

  lemma TracksStep(m: Machine, e: Event, s: string, policy: seq<Action>, n: nat)
    requires m.Running? && Apply(m, e).Running? && e != Unregister(s)
    requires s in m.table && Tracks(m.table[s], s, policy, n)
    ensures s in Apply(m, e).table
    ensures Tracks(Apply(m, e).table[s], s, policy, if e == Failure(s) then n + 1 else n)
  {
    StepOnRecord(m, e, s);
    CountStep(n);
  }

  /** The policy is the creating one; cursor and crash count depend only on the failures since. */
  lemma {:induction false} Record(events: seq<Event>, s: string, i: nat)
    requires Run(events).Running? && IsBirth(events, s, i)
    ensures s in Run(events).table
    ensures Tracks(Run(events).table[s], s, PolicyFor(events[i].actions), Failures(events, i, s))
  {
    var front, e := Front(events), Last(events);
    if i == |events| - 1 {
      BirthIsFresh(events, s);
      TracksFresh(Run(front), e, s);
    } else {
      BirthOfFront(events, s, i);
      Record(front, s, i);
      TracksStep(Run(front), e, s, PolicyFor(events[i].actions), Failures(front, i, s));
    }
  }

  lemma StillRegistered(events: seq<Event>, s: string, i: nat)
    requires Run(events).Running? && IsBirth(events, s, i)
    ensures s in Run(events).table
  {
    Record(events, s, i);
  }

  /** An entry exists exactly when the history holds a registration that still stands. */
  lemma RegisteredIff(events: seq<Event>, s: string)
    requires Run(events).Running?
    ensures s in Run(events).table <==> exists i :: IsBirth(events, s, i)
  {
    if s in Run(events).table {
      var i := FindBirth(events, s);
    } else if i :| IsBirth(events, s, i) {
      Record(events, s, i);
    }
  }

  /** Closed form for policies the ring closes over completely. */
  lemma ClosedForm(events: seq<Event>, s: string, i: nat)
    requires Run(events).Running? && IsBirth(events, s, i)
    requires |events[i].actions| <= 128
    ensures s in Run(events).table
    ensures var info, n := Run(events).table[s], Failures(events, i, s);
            && info.policy != []
            && info.crashes == ToUInt32(n)
            && info.cursor == if n == 0 then -1 else (n - 1) % |info.policy|
  {
    Record(events, s, i);
    if Failures(events, i, s) > 0 {
      WholeRingForm(|PolicyFor(events[i].actions)|, Failures(events, i, s));
    }
  }

  // -------------------- when the machine stays defined --------------------

  /** At position `k` service `s` fails for at least the 129th time on a policy whose ring does not close. */
  ghost predicate Overruns(events: seq<Event>, s: string, i: nat, k: nat)
  {
    && k < |events|
    && events[k] == Failure(s)
    && IsBirth(events[..k], s, i)
    && Failures(events[..k], i, s) >= 128
    && !ClosesRing(|PolicyFor(events[i].actions)|)
  }

  /** A failure of a registered service breaks the machine iff it overruns. */
  lemma LastStepBreaksIff(events: seq<Event>, s: string, i: nat)
    requires events != [] && Last(events) == Failure(s)
    requires Run(Front(events)).Running? && IsBirth(Front(events), s, i)
    ensures Run(events).Undefined? <==> Overruns(events, s, i, |events| - 1)
  {
    var front := Front(events);
    assert events[..|events| - 1] == front;
    Record(front, s, i);
    if !ClosesRing(|PolicyFor(front[i].actions)|) {
      FailuresBounded(front, s, i);
    }
    NextLeavesIff(|PolicyFor(front[i].actions)|, Failures(front, i, s));
  }

  /** A machine that is still defined has not failed a service more than 128 times off a closed ring. */
  lemma {:induction false} FailuresBounded(events: seq<Event>, s: string, i: nat)
    requires Run(events).Running? && IsBirth(events, s, i)
    requires !ClosesRing(|PolicyFor(events[i].actions)|)
    ensures Failures(events, i, s) <= 128
  {
    var front := Front(events);
    if i < |events| - 1 {
      BirthOfFront(events, s, i);
      FailuresBounded(front, s, i);
      if Last(events) == Failure(s) {
        Record(front, s, i);
        StepOnRecord(Run(front), Last(events), s);
        RunawayForm(|PolicyFor(events[i].actions)|, Failures(front, i, s) + 1);
      }
    }
  }

  lemma OverrunsInFront(events: seq<Event>, s: string, i: nat, k: nat)
    requires k < |events| - 1
    ensures Overruns(Front(events), s, i, k) <==> Overruns(events, s, i, k)
  {
    assert Front(events)[..k] == events[..k];
  }

  /** A run with an overrun is undefined from there on. */
  lemma {:induction false} OverrunBreaks(events: seq<Event>, s: string, i: nat, k: nat)
    requires Overruns(events, s, i, k)
    ensures Run(events).Undefined?
  {
    if k < |events| - 1 {
      OverrunsInFront(events, s, i, k);
      OverrunBreaks(Front(events), s, i, k);
    } else if Run(Front(events)).Running? {
      assert events[..k] == Front(events);
      LastStepBreaksIff(events, s, i);
    }
  }

  /** A run can only become undefined by an overrun. */
  lemma {:induction false} FindOverrun(events: seq<Event>) returns (s: string, i: nat, k: nat)
    requires Run(events).Undefined?
    ensures Overruns(events, s, i, k)
  {
    var front := Front(events);
    if Run(front).Undefined? {
      s, i, k := FindOverrun(front);
      OverrunsInFront(events, s, i, k);
    } else {
      s, k := Last(events).name, |front|;
      i := FindBirth(front, s);
      LastStepBreaksIff(events, s, i);
    }
  }

  /** Exact safety of a whole run: it leaves defined behaviour iff some service overruns its policy. */
  lemma UndefinedIff(events: seq<Event>)
    ensures Run(events).Undefined? <==> exists s, i: nat, k: nat :: Overruns(events, s, i, k)
  {
    if Run(events).Undefined? {
      var s, i, k := FindOverrun(events);
    } else if s, i: nat, k: nat :| Overruns(events, s, i, k) {
      OverrunBreaks(events, s, i, k);
    }
  }
}
