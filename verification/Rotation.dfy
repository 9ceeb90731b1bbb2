/**
 What a run applies and records: the sequence of chosen actions, its fairness,
 the prediction a query makes of it, and who wrote each field last.
 */
module Rotation {
  import opened Common
  import opened Cursor
  import opened Registry
  import opened History

  // -------------------- the sequence of applied actions --------------------

  /** The actions that the failures of `s` have chosen since its entry was created, oldest first. */
  ghost function Applied(events: seq<Event>, s: string): seq<Action>
  {
    if events == [] || Run(events).Undefined? || s !in Run(events).table then [] else
    Applied(Front(events), s) + if Last(events) == Failure(s) then [Run(events).table[s].current] else []
  }

  /** Entry `j` of `w` is the action the cursor points at after `j + 1` failures. */
  ghost predicate Picks(w: seq<Action>, policy: seq<Action>, j: nat)
    requires j < |w|
  {
    var c := CursorAfter(|policy|, j + 1);
    InPolicy(c, |policy|) && w[j] == policy[c]
  }

  lemma {:induction false} AppliedTrace(events: seq<Event>, s: string, i: nat)
    requires Run(events).Running? && IsBirth(events, s, i)
    ensures |Applied(events, s)| == Failures(events, i, s)
    ensures forall j | 0 <= j < |Applied(events, s)| :: Picks(Applied(events, s), PolicyFor(events[i].actions), j)
  {
    Record(events, s, i);
    var front, policy := Front(events), PolicyFor(events[i].actions);
    if i == |events| - 1 {
      BirthIsFresh(events, s);
    } else {
      BirthOfFront(events, s, i);
      AppliedTrace(front, s, i);
      Record(front, s, i);
      StepOnRecord(Run(front), Last(events), s);
      forall j | 0 <= j < |Applied(events, s)| ensures Picks(Applied(events, s), policy, j) {
        if j < |Applied(front, s)| {
          assert Picks(Applied(front, s), policy, j);
        }
      }
    }
  }

  /** The j-th failure since registration applied policy entry j modulo the policy length. */
  lemma NthFailureApplies(events: seq<Event>, s: string, i: nat)
    requires Run(events).Running? && IsBirth(events, s, i) && |events[i].actions| <= 128
    ensures |Applied(events, s)| == Failures(events, i, s)
    ensures Cycles(Applied(events, s), PolicyFor(events[i].actions))
  {
    AppliedTrace(events, s, i);
    var policy := PolicyFor(events[i].actions);
    forall j | 0 <= j < |Applied(events, s)| ensures Applied(events, s)[j] == policy[j % |policy|] {
      assert Picks(Applied(events, s), policy, j);
      WholeRingForm(|policy|, j + 1);
    }
  }

  // -------------------- fairness --------------------

  /** `w` reads `p` round and round from its start. */
  ghost predicate Cycles<T>(w: seq<T>, p: seq<T>)
  {
    p != [] && forall j | 0 <= j < |w| :: w[j] == p[j % |p|]
  }

  lemma WrapIndex(a: nat, t: nat, m: nat)
    requires t < m
    ensures (a + t) % m == if a % m + t < m then a % m + t else a % m + t - m
  {
    var q, r := a / m, a % m;
    if r + t < m {
      RemainderIs(a + t, m, q, r + t);
    } else {
      assert m * (q + 1) == m * q + m;
      RemainderIs(a + t, m, q + 1, r + t - m);
    }
  }

  /** A window of one full turn is a rotation of the policy. */
  lemma OneTurn<T>(w: seq<T>, p: seq<T>, a: nat)
    requires Cycles(w, p) && a + |p| <= |w|
    ensures multiset(w[a..a + |p|]) == multiset(p)
  {
    var m := |p|;
    var r := a % m;
    forall t: nat | t < m ensures w[a..a + m][t] == (p[r..] + p[..r])[t] {
      WrapIndex(a, t, m);
    }
    assert w[a..a + m] == p[r..] + p[..r];
    assert p == p[..r] + p[r..];
  }

  lemma SplitWindow<T>(w: seq<T>, a: nat, b: nat, c: nat)
    requires a <= b <= c <= |w|
    ensures multiset(w[a..c]) == multiset(w[a..b]) + multiset(w[b..c])
  {
    assert w[a..c] == w[a..b] + w[b..c];
  }

  /** `k` times `m`, by repeated addition. */
  function Times(k: nat, m: nat): (r: nat)
    ensures r == k * m
  {
    if k == 0 then 0 else m + Times(k - 1, m)
  }

  /** Window `a` to `b` of `k` full turns. */
  lemma {:induction false} Turns<T>(w: seq<T>, p: seq<T>, a: nat, b: nat, k: nat, x: T)
    requires Cycles(w, p) && a <= b <= |w| && b - a == Times(k, |p|)
    ensures multiset(w[a..b])[x] == Times(k, multiset(p)[x])
    decreases k
  {
    if k == 0 {
      assert w[a..b] == [];
    } else {
      OneTurn(w, p, a);
      Turns(w, p, a + |p|, b, k - 1, x);
      SplitWindow(w, a, a + |p|, b);
    }
  }

  /** Any window of `k` turns, started anywhere, applies every action `k` times as often as the policy lists it. */
  lemma FairRotation(events: seq<Event>, s: string, i: nat, a: nat, b: nat, k: nat, x: Action)
    requires Run(events).Running? && IsBirth(events, s, i) && |events[i].actions| <= 128
    requires a <= b <= |Applied(events, s)| && b - a == k * |PolicyFor(events[i].actions)|
    ensures multiset(Applied(events, s)[a..b])[x] == k * multiset(PolicyFor(events[i].actions))[x]
  {
    NthFailureApplies(events, s, i);
    Turns(Applied(events, s), PolicyFor(events[i].actions), a, b, k, x);
  }

  // -------------------- DISABLE does not stop the ring --------------------

  /** The action of failure `n`, counted from zero, on a policy whose ring closes. */
  function ActionAt(policy: seq<Action>, n: nat): (a: Action)
    requires ClosesRing(|policy|)
    ensures a in policy[..RingSize(|policy|)]
  {
    RingForm(|policy|, n + 1);
    policy[CursorAfter(|policy|, n + 1)]
  }

  /** Once DISABLE is applied nothing else ever is, iff the ring has no DISABLE or nothing but DISABLE. */
  lemma DisableAbsorbsIff(policy: seq<Action>)
    requires ClosesRing(|policy|)
    ensures var ring := policy[..RingSize(|policy|)];
            (forall n: nat, m: nat | n < m && ActionAt(policy, n) == DISABLE :: ActionAt(policy, m) == DISABLE)
            <==> DISABLE !in ring || forall a | a in ring :: a == DISABLE
  {
    var size := RingSize(|policy|);
    var ring := policy[..size];
    if DISABLE in ring && exists a :: a in ring && a != DISABLE {
      var i :| 0 <= i < size && ring[i] == DISABLE;
      var j :| 0 <= j < size && ring[j] != DISABLE;
      ActionInTurn(policy, i, 0);
      ActionInTurn(policy, j, 1);
      assert i < size * 1 + j && ActionAt(policy, i) == DISABLE && ActionAt(policy, size * 1 + j) != DISABLE;
    }
  }

  lemma ActionInTurn(policy: seq<Action>, i: nat, turn: nat)
    requires ClosesRing(|policy|) && i < RingSize(|policy|)
    ensures ActionAt(policy, RingSize(|policy|) * turn + i) == policy[i]
  {
    var size := RingSize(|policy|);
    RingForm(|policy|, size * turn + i + 1);
    RemainderIs(size * turn + i, size, turn, i);
  }

  // -------------------- prediction --------------------

  /** Events that neither fail nor remove `s` leave its policy and cursor alone. */
  lemma {:induction false} Undisturbed(events: seq<Event>, between: seq<Event>, s: string)
    requires Run(events).Running? && s in Run(events).table && Run(events + between).Running?
    requires forall e | e in between :: e != Failure(s) && e != Unregister(s)
    ensures s in Run(events + between).table
    ensures var before, after := Run(events).table[s], Run(events + between).table[s];
            after.policy == before.policy && after.cursor == before.cursor
  {
    if between == [] {
      assert events + between == events;
    } else {
      var shorter := events + Front(between);
      assert Last(between) in between;
      assert forall e | e in Front(between) :: e in between;
      assert events + between == shorter + [Last(between)];
      RunSnoc(shorter, Last(between));
      Undisturbed(events, Front(between), s);
      StepOnRecord(Run(shorter), Last(between), s);
    }
  }

  /** What the snapshot calls the next action is what the next failure does, however long that takes to come. */
  lemma PeekPredictsNext(events: seq<Event>, between: seq<Event>, s: string)
    requires Run(events).Running? && s in Run(events).table
    requires PeekSeesRing(|Run(events).table[s].policy|)
    requires forall e | e in between :: e != Failure(s) && e != Unregister(s)
    requires Run(events + between).Running?
    ensures WellFormed(Run(events).table)
    ensures Run(events + between + [Failure(s)]).Running?
    ensures s in Run(events + between + [Failure(s)]).table
    ensures Query(Run(events).table, s).next == Run(events + between + [Failure(s)]).table[s].current
  {
    Undisturbed(events, between, s);
    RunWellFormed(events);
    RunSnoc(events + between, Failure(s));
    var i := FindBirth(events, s);
    Record(events, s, i);
    var n, len := Failures(events, i, s), |Run(events).table[s].policy|;
    PeekForm(len, n);
    NextInPolicy(len, n);
  }

  /** For every other length the snapshot predicts the first action in every reachable state. */
  lemma PeekStuckAtFirst(events: seq<Event>, s: string)
    requires Run(events).Running? && s in Run(events).table
    requires !PeekSeesRing(|Run(events).table[s].policy|)
    ensures WellFormed(Run(events).table)
    ensures Query(Run(events).table, s).next == Run(events).table[s].policy[0]
  {
    RunWellFormed(events);
    var i := FindBirth(events, s);
    Record(events, s, i);
    if !ClosesRing(|PolicyFor(events[i].actions)|) {
      FailuresBounded(events, s, i);
    }
    PeekForm(|PolicyFor(events[i].actions)|, Failures(events, i, s));
  }

  // -------------------- last writers --------------------

  predicate WritesOnline(e: Event, s: string)
  {
    (e.Register? || e.Failure?) && e.name == s
  }

  predicate WritesLast(e: Event, s: string)
  {
    e == Failure(s) || (e.Report? && e.name == s && e.last != UNKNOWN)
  }

  predicate WritesCurrent(e: Event, s: string)
  {
    e == Failure(s) || (e.Report? && e.name == s)
  }

  /** Event `k` is the latest one, counted from the creation at `i`, that writes the field. */
  ghost predicate Latest(events: seq<Event>, s: string, i: nat, k: nat, writes: (Event, string) -> bool)
  {
    && i <= k < |events|
    && (k == i || writes(events[k], s))
    && forall j | k < j < |events| :: !writes(events[j], s)
  }

  /** The liveness flag says whether the latest of registrations and failures was a registration. */
  lemma {:induction false} OnlineByLatest(events: seq<Event>, s: string, i: nat, k: nat)
    requires Run(events).Running? && IsBirth(events, s, i) && Latest(events, s, i, k, WritesOnline)
    ensures s in Run(events).table
    ensures Run(events).table[s].online <==> events[k].Register?
  {
    StillRegistered(events, s, i);
    var front, e := Front(events), Last(events);
    if i == |events| - 1 {
      BirthIsFresh(events, s);
      AppearsFresh(Run(front), e, s);
    } else {
      BirthOfFront(events, s, i);
      StillRegistered(front, s, i);
      LivenessStep(Run(front), e, s);
      if k < |events| - 1 {
        OnlineByLatest(front, s, i, k);
      }
    }
  }

  /** The last action is CRASHED, or what the latest meaningful report said, or UNKNOWN. */
  lemma {:induction false} LastActionByLatest(events: seq<Event>, s: string, i: nat, k: nat)
    requires Run(events).Running? && IsBirth(events, s, i) && Latest(events, s, i, k, WritesLast)
    ensures s in Run(events).table
    ensures Run(events).table[s].last ==
            if k == i then UNKNOWN else if events[k].Failure? then CRASHED else events[k].last
  {
    StillRegistered(events, s, i);
    var front, e := Front(events), Last(events);
    if i == |events| - 1 {
      BirthIsFresh(events, s);
      AppearsFresh(Run(front), e, s);
    } else {
      BirthOfFront(events, s, i);
      StillRegistered(front, s, i);
      ActionsStep(Run(front), e, s);
      if k < |events| - 1 {
        LastActionByLatest(front, s, i, k);
      }
    }
  }

  /** The current action is what the latest report said or the latest failure chose. */
  lemma {:induction false} CurrentActionByLatest(events: seq<Event>, s: string, i: nat, k: nat)
    requires Run(events).Running? && IsBirth(events, s, i) && Latest(events, s, i, k, WritesCurrent)
    ensures s in Run(events).table
    ensures var info := Run(events).table[s];
            if k == i then info.current == UNKNOWN
            else if events[k].Report? then info.current == events[k].current
            else Applied(events, s) != [] && info.current == Last(Applied(events, s))
  {
    StillRegistered(events, s, i);
    var front, e := Front(events), Last(events);
    if i == |events| - 1 {
      BirthIsFresh(events, s);
      AppearsFresh(Run(front), e, s);
    } else {
      BirthOfFront(events, s, i);
      StillRegistered(front, s, i);
      ActionsStep(Run(front), e, s);
      if k < |events| - 1 {
        CurrentActionByLatest(front, s, i, k);
      }
    }
  }

  // -------------------- what a query answers --------------------

  /** Every field of a snapshot is determined by the history of events alone. */
  lemma QueryReportsHistory(events: seq<Event>, s: string, i: nat, online: nat, last: nat, current: nat)
    requires Run(events).Running? && IsBirth(events, s, i)
    requires Latest(events, s, i, online, WritesOnline)
    requires Latest(events, s, i, last, WritesLast)
    requires Latest(events, s, i, current, WritesCurrent)
    ensures WellFormed(Run(events).table)
    ensures var q, n := Query(Run(events).table, s), Failures(events, i, s);
            && q.found
            && (q.online <==> events[online].Register?)
            && q.last == (if last == i then UNKNOWN else if events[last].Failure? then CRASHED else events[last].last)
            && (current == i ==> q.current == UNKNOWN)
            && (current != i && events[current].Report? ==> q.current == events[current].current)
            && (current != i && events[current].Failure? ==>
                  Applied(events, s) != [] && q.current == Last(Applied(events, s)))
            && Predicts(q.next, PolicyFor(events[i].actions), n)
            && IsInt32Of(q.attempts, n)
            && (n < 0x8000_0000 ==> q.attempts == n)
  {
    RunWellFormed(events);
    OnlineByLatest(events, s, i, online);
    LastActionByLatest(events, s, i, last);
    CurrentActionByLatest(events, s, i, current);
    NextByHistory(events, s, i);
    Record(events, s, i);
    Attempts(Failures(events, i, s));
  }

  /** What a query should say of the next failure after `n`: the entry it will apply, or the first if the ring is unseen. */
  predicate Predicts(next: Action, policy: seq<Action>, n: nat)
  {
    var c := if PeekSeesRing(|policy|) then CursorAfter(|policy|, n + 1) else 0;
    InPolicy(c, |policy|) && next == policy[c]
  }

  lemma NextByHistory(events: seq<Event>, s: string, i: nat)
    requires Run(events).Running? && IsBirth(events, s, i)
    ensures WellFormed(Run(events).table)
    ensures Predicts(Query(Run(events).table, s).next, PolicyFor(events[i].actions), Failures(events, i, s))
  {
    RunWellFormed(events);
    Record(events, s, i);
    var len := |PolicyFor(events[i].actions)|;
    if !ClosesRing(len) {
      FailuresBounded(events, s, i);
    }
    PeekForm(len, Failures(events, i, s));
    if PeekSeesRing(len) {
      NextInPolicy(len, Failures(events, i, s));
    }
  }

  /** The one 32-bit integer that differs from `n` by whole turns of 2^32. */
  predicate IsInt32Of(x: int, n: nat)
  {
    -0x8000_0000 <= x < 0x8000_0000 && ToUInt32(x) == ToUInt32(n)
  }

  lemma Attempts(n: nat)
    ensures IsInt32Of(ToInt32(ToUInt32(n)), n)
    ensures n < 0x8000_0000 ==> ToInt32(ToUInt32(n)) == n
  {
  }

  /** A query finds nothing exactly when no registration of the name still stands. */
  lemma QueryNotFoundIff(events: seq<Event>, s: string)
    requires Run(events).Running?
    ensures WellFormed(Run(events).table)
    ensures Query(Run(events).table, s) == Snapshot(false, false, UNKNOWN, UNKNOWN, UNKNOWN, 0)
            <==> forall i :: !IsBirth(events, s, i)
  {
    RunWellFormed(events);
    RegisteredIff(events, s);
  }
}
