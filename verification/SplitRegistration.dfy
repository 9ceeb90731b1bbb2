/**
 Registration at a still finer grain: the lookup is made before the registry
 lock is taken, so other registrations and failures can fall between it and the commit.
 */
module SplitRegistration {
  import opened Common
  import opened Cursor
  import opened Registry
  import opened History
  import opened Rotation

  /** What a registration has decided to do once it holds the lock. */
  datatype Commit =
    | Emplace(service: string, actions: seq<Action>)  // nothing was found; insert unless something is there by then
    | Revive(service: string)                         // an entry was found; mark it online through the iterator
    | Dangling(service: string)                       // the entry the iterator points to has been erased since

  datatype State = State(machine: Machine, pending: multiset<Commit>)

  /** Landing a commit that is not pending does nothing; `Other` carries no registrations. */
  datatype Act = Lookup(service: string, actions: seq<Action>) | Land(commit: Commit) | Other(event: Event)

  function Found(t: Table, s: string, actions: seq<Action>): Commit
  {
    if s in t then Revive(s) else Emplace(s, actions)
  }

  function Decided(t: Table, s: string, actions: seq<Action>): multiset<Commit>
  {
    if s in t || InCatalogue(s) then multiset{Found(t, s, actions)} else multiset{}
  }

  /** Erasing the entry of `s` leaves every iterator to it dangling, whatever is registered under the name later. */
  function Spoiled(pending: multiset<Commit>, s: string): multiset<Commit>
  {
    pending[Revive(s) := 0][Dangling(s) := pending[Dangling(s)] + pending[Revive(s)]]
  }

  /** Landing on the table; going through a dangling iterator is undefined behaviour. */
  function Landed(t: Table, c: Commit): Machine
  {
    match c
    case Emplace(s, actions) => if s in t then Running(t) else Running(t[s := FreshInfo(s, actions)])
    case Revive(s) => if s in t then Running(t[s := t[s].(online := true)]) else Undefined
    case Dangling(_) => Undefined
  }

  function Next(st: State, act: Act): State
  {
    if st.machine.Undefined? then st else
    match act
    case Lookup(s, actions) => st.(pending := st.pending + Decided(st.machine.table, s, actions))
    case Land(c) =>
      if c in st.pending then State(Landed(st.machine.table, c), st.pending - multiset{c}) else st
    case Other(e) =>
      if e.Register? then st else
      State(Apply(st.machine, e), if e.Unregister? then Spoiled(st.pending, e.name) else st.pending)
  }

  function Exec(acts: seq<Act>): State
  {
    if acts == [] then State(Running(map[]), multiset{}) else Next(Exec(Front(acts)), Last(acts))
  }

  // -------------------- the same run with registration as one step --------------------

  /** The registry event an act amounts to: a commit is a registration. */
  function AsEvent(st: State, act: Act): Event
  {
    match act
    case Lookup(_, _) => Idle
    case Land(c) =>
      if c !in st.pending then Idle else
      (match c
       case Emplace(s, actions) => Register(s, actions)
       case Revive(s) => Register(s, [])
       case Dangling(_) => Idle)
    case Other(e) => if e.Register? then Idle else e
  }

  function Atomic(acts: seq<Act>): (events: seq<Event>)
    ensures |events| == |acts|
  {
    if acts == [] then [] else Atomic(Front(acts)) + [AsEvent(Exec(Front(acts)), Last(acts))]
  }

  lemma AtomicFront(acts: seq<Act>)
    requires acts != []
    ensures Front(Atomic(acts)) == Atomic(Front(acts))
    ensures Last(Atomic(acts)) == AsEvent(Exec(Front(acts)), Last(acts))
  {
  }

  /** Two tables that differ at most in liveness flags. */
  ghost predicate SameButOnline(t: Table, u: Table)
  {
    && t.Keys == u.Keys
    && forall s | s in t :: t[s].(online := true) == u[s].(online := true)
  }

  /** Commits waiting to insert are for catalogued names. */
  ghost predicate Catalogued(pending: multiset<Commit>)
  {
    forall c | c in pending && c.Emplace? :: InCatalogue(c.service)
  }

  lemma {:induction false} ExecCatalogued(acts: seq<Act>)
    ensures Catalogued(Exec(acts).pending)
  {
    if acts != [] {
      ExecCatalogued(Front(acts));
    }
  }

  lemma EventKeepsSame(t: Table, u: Table, e: Event)
    requires SameButOnline(t, u) && !e.Register?
    ensures Apply(Running(t), e).Running? <==> Apply(Running(u), e).Running?
    ensures Apply(Running(t), e).Running? ==> SameButOnline(Apply(Running(t), e).table, Apply(Running(u), e).table)
  {
  }

  lemma LandingKeepsSame(t: Table, u: Table, c: Commit)
    requires SameButOnline(t, u) && Landed(t, c).Running? && (c.Emplace? ==> InCatalogue(c.service))
    ensures var e := if c.Emplace? then Register(c.service, c.actions) else Register(c.service, []);
            && Apply(Running(u), e).Running?
            && SameButOnline(Landed(t, c).table, Apply(Running(u), e).table)
  {
  }

  /** Every defined split run gives every record that the atomic run of its commits gives, up to liveness. */
  lemma {:induction false} SplitIsAtomicUpToLiveness(acts: seq<Act>)
    requires Exec(acts).machine.Running?
    ensures Run(Atomic(acts)).Running?
    ensures SameButOnline(Exec(acts).machine.table, Run(Atomic(acts)).table)
  {
    if acts != [] {
      var front, act := Front(acts), Last(acts);
      var st := Exec(front);
      SplitIsAtomicUpToLiveness(front);
      ExecCatalogued(front);
      AtomicFront(acts);
      var t, u := st.machine.table, Run(Atomic(front)).table;
      match act
      case Lookup(_, _) =>
      case Land(c) => if c in st.pending { LandingKeepsSame(t, u, c); }
      case Other(e) => if !e.Register? { EventKeepsSame(t, u, e); }
    }
  }

  // -------------------- every atomic run is a split run --------------------

  /** One event as split steps; of the two commits only the one that was decided on is there to land. */
  function AsSteps(e: Event): seq<Act>
  {
    if e.Register?
    then [Lookup(e.name, e.actions), Land(Emplace(e.name, e.actions)), Land(Revive(e.name))]
    else [Other(e)]
  }

  function AsSplit(events: seq<Event>): seq<Act>
  {
    if events == [] then [] else AsSplit(Front(events)) + AsSteps(Last(events))
  }

  /**
   In every state, whatever else is waiting: a registration of a name that is registered or catalogued adds one
   commit, and landing that commit at once is the atomic registration.
   */
  lemma AdjacentIsAtomic(st: State, s: string, actions: seq<Action>) returns (c: Commit)
    requires st.machine.Running? && (s in st.machine.table || InCatalogue(s))
    ensures Next(st, Lookup(s, actions)) == State(st.machine, st.pending + multiset{c})
    ensures Next(Next(st, Lookup(s, actions)), Land(c)) == State(Apply(st.machine, Register(s, actions)), st.pending)
  {
    c := Found(st.machine.table, s, actions);
    assert st.pending + multiset{c} - multiset{c} == st.pending;
  }

  /** Any other name is refused: neither form does anything. */
  lemma RefusedIsIdle(st: State, s: string, actions: seq<Action>)
    requires st.machine.Running? && s !in st.machine.table && !InCatalogue(s)
    ensures Next(st, Lookup(s, actions)) == st && Apply(st.machine, Register(s, actions)) == st.machine
  {
    assert st.pending + multiset{} == st.pending;
  }

  /** The two landings after a lookup, of which one has been decided on and the other does nothing. */
  lemma RegisterSteps(st: State, s: string, actions: seq<Action>)
    requires st.machine.Running? && st.pending == multiset{}
    ensures var looked := Next(st, Lookup(s, actions));
            var inserted := Next(looked, Land(Emplace(s, actions)));
            if InCatalogue(s) && s !in st.machine.table
            then inserted == State(Apply(st.machine, Register(s, actions)), multiset{})
            else inserted == looked &&
                 Next(looked, Land(Revive(s))) == State(Apply(st.machine, Register(s, actions)), multiset{})
  {
    if s in st.machine.table || InCatalogue(s) {
      var c := AdjacentIsAtomic(st, s, actions);
    } else {
      RefusedIsIdle(st, s, actions);
    }
  }

  /** Landing what is not pending does nothing. */
  lemma LandingNothing(st: State, c: Commit)
    requires c !in st.pending
    ensures Next(st, Land(c)) == st
  {
  }

  lemma RegisterFollows(acts: seq<Act>, s: string, actions: seq<Action>)
    requires Exec(acts).machine.Running? && Exec(acts).pending == multiset{}
    ensures Exec(acts + [Lookup(s, actions)] + [Land(Emplace(s, actions))] + [Land(Revive(s))]) ==
            State(Apply(Exec(acts).machine, Register(s, actions)), multiset{})
  {
    var looked := acts + [Lookup(s, actions)];
    var inserted := looked + [Land(Emplace(s, actions))];
    ExecSnoc(acts, Lookup(s, actions));
    ExecSnoc(looked, Land(Emplace(s, actions)));
    ExecSnoc(inserted, Land(Revive(s)));
    RegisterSteps(Exec(acts), s, actions);
    if InCatalogue(s) && s !in Exec(acts).machine.table {
      LandingNothing(Exec(inserted), Revive(s));
    }
  }

  lemma OtherStep(st: State, e: Event)
    requires st.pending == multiset{} && !e.Register?
    ensures Next(st, Other(e)) == State(Apply(st.machine, e), multiset{})
  {
    assert e.Unregister? ==> Spoiled(multiset{}, e.name) == multiset{};
  }

  lemma {:induction false} UndefinedStays(acts: seq<Act>, more: seq<Act>)
    requires Exec(acts).machine.Undefined?
    ensures Exec(acts + more) == Exec(acts)
  {
    if more == [] {
      assert acts + more == acts;
    } else {
      ExecAppend(acts, more);
      UndefinedStays(acts, Front(more));
    }
  }

  lemma StepsFollow(acts: seq<Act>, e: Event)
    requires Exec(acts).pending == multiset{}
    ensures Exec(acts + AsSteps(e)) == State(Apply(Exec(acts).machine, e), multiset{})
  {
    if Exec(acts).machine.Undefined? {
      UndefinedStays(acts, AsSteps(e));
    } else if e.Register? {
      RegisterFollows(acts, e.name, e.actions);
      assert acts + AsSteps(e) ==
             acts + [Lookup(e.name, e.actions)] + [Land(Emplace(e.name, e.actions))] + [Land(Revive(e.name))];
    } else {
      ExecSnoc(acts, Other(e));
      OtherStep(Exec(acts), e);
    }
  }

  /** Every run of the registry is a run of split registrations, event by event. */
  lemma {:induction false} AtomicIsSplit(events: seq<Event>)
    ensures Exec(AsSplit(events)) == State(Run(events), multiset{})
  {
    if events != [] {
      AtomicIsSplit(Front(events));
      StepsFollow(AsSplit(Front(events)), Last(events));
    }
  }

  // -------------------- no commit is lost --------------------

  /** How many acts of a kind a run has. */
  ghost function Number(acts: seq<Act>, kind: (State, Act) -> bool): nat
  {
    if acts == [] then 0 else
    Number(Front(acts), kind) + if kind(Exec(Front(acts)), Last(acts)) then 1 else 0
  }

  ghost predicate LooksUpMissing(st: State, act: Act, s: string, actions: seq<Action>)
  {
    act == Lookup(s, actions) && st.machine.Running? && s !in st.machine.table && InCatalogue(s)
  }

  ghost predicate LooksUpPresent(st: State, act: Act, s: string)
  {
    act.Lookup? && act.service == s && st.machine.Running? && s in st.machine.table
  }

  ghost predicate Lands(st: State, act: Act, c: Commit)
  {
    act == Land(c) && st.machine.Running? && c in st.pending
  }

  lemma InsertionStep(st: State, act: Act, s: string, actions: seq<Action>)
    requires st.machine.Running?
    ensures var c := Emplace(s, actions);
            Next(st, act).pending[c] + (if Lands(st, act, c) then 1 else 0) ==
            st.pending[c] + (if LooksUpMissing(st, act, s, actions) then 1 else 0)
  {
  }

  lemma RevivalStep(st: State, act: Act, s: string)
    requires st.machine.Running? && Next(st, act).machine.Running?
    ensures var after := Next(st, act).pending;
            after[Revive(s)] + after[Dangling(s)] + (if Lands(st, act, Revive(s)) then 1 else 0) ==
            st.pending[Revive(s)] + st.pending[Dangling(s)] + (if LooksUpPresent(st, act, s) then 1 else 0)
  {
  }

  /** Every registration that found no entry has made its insertion or still has to. */
  lemma {:induction false} InsertionsConserved(acts: seq<Act>, s: string, actions: seq<Action>)
    requires Exec(acts).machine.Running?
    ensures Number(acts, (st, act) => LooksUpMissing(st, act, s, actions)) ==
            Number(acts, (st, act) => Lands(st, act, Emplace(s, actions))) + Exec(acts).pending[Emplace(s, actions)]
  {
    if acts != [] {
      InsertionsConserved(Front(acts), s, actions);
      InsertionStep(Exec(Front(acts)), Last(acts), s, actions);
    }
  }

  /** Every registration that found an entry has marked it online or still has to, through a good iterator or not. */
  lemma {:induction false} RevivalsConserved(acts: seq<Act>, s: string)
    requires Exec(acts).machine.Running?
    ensures Number(acts, (st, act) => LooksUpPresent(st, act, s)) ==
            Number(acts, (st, act) => Lands(st, act, Revive(s)))
            + Exec(acts).pending[Revive(s)] + Exec(acts).pending[Dangling(s)]
  {
    if acts != [] {
      RevivalsConserved(Front(acts), s);
      RevivalStep(Exec(Front(acts)), Last(acts), s);
    }
  }

  // -------------------- the first commit wins --------------------

  /** Only an insertion makes an entry appear. */
  lemma AppearsByEmplace(st: State, act: Act, s: string)
    requires st.machine.Running? && Next(st, act).machine.Running?
    requires s !in st.machine.table && s in Next(st, act).machine.table
    ensures act.Land? && act.commit.Emplace? && act.commit.service == s && act.commit in st.pending
  {
  }

  /** When an entry appears, the act that made it is its birth. */
  lemma AppearanceIsBirth(acts: seq<Act>, s: string)
    requires acts != [] && Exec(acts).machine.Running? && Exec(Front(acts)).machine.Running?
    requires s in Exec(acts).machine.table && s !in Exec(Front(acts)).machine.table
    ensures IsBirth(Atomic(acts), s, |acts| - 1)
  {
    SplitIsAtomicUpToLiveness(acts);
    SplitIsAtomicUpToLiveness(Front(acts));
    AtomicFront(acts);
    AppearsAtBirth(Atomic(acts), s);
  }

  /** An entry that stays was not unregistered. */
  lemma StaysRegistered(st: State, act: Act, s: string)
    requires st.machine.Running? && Next(st, act).machine.Running? && s in Next(st, act).machine.table
    requires s in st.machine.table
    ensures AsEvent(st, act) != Unregister(s)
  {
  }

  /** The entry of `s` was made by an insertion that found none, and every later commit left it standing. */
  lemma {:induction false} FindFirstCommit(acts: seq<Act>, s: string) returns (i: nat)
    requires Exec(acts).machine.Running? && s in Exec(acts).machine.table
    ensures i < |acts| && IsBirth(Atomic(acts), s, i)
    ensures acts[i].Land? && acts[i].commit.Emplace? && acts[i].commit.service == s
    ensures Atomic(acts)[i] == Register(s, acts[i].commit.actions)
  {
    var front := Front(acts);
    AtomicFront(acts);
    if s in Exec(front).machine.table {
      i := FindFirstCommit(front, s);
      StaysRegistered(Exec(front), Last(acts), s);
      BirthExtends(Atomic(acts), s, i);
    } else {
      AppearsByEmplace(Exec(front), Last(acts), s);
      AppearanceIsBirth(acts, s);
      i := |acts| - 1;
    }
  }

  /**
   However many registrations of a name overlap, its policy is that of the commit that created the entry, its
   cursor and crash count are those of the failures since, and its last action is that of the latest writer
   since, as if no later commit had happened. If the name was never unregistered, that commit is its first.
   */
  lemma FirstCommitWins(acts: seq<Act>, s: string) returns (i: nat)
    requires Exec(acts).machine.Running? && s in Exec(acts).machine.table
    ensures i < |acts| && acts[i].Land? && acts[i].commit.Emplace? && acts[i].commit.service == s
    ensures IsBirth(Atomic(acts), s, i)
    ensures var info, n := Exec(acts).machine.table[s], Failures(Atomic(acts), i, s);
            && info.policy == PolicyFor(acts[i].commit.actions)
            && info.cursor == CursorAfter(|info.policy|, n)
            && info.crashes == ToUInt32(n)
    ensures forall k: nat | Latest(Atomic(acts), s, i, k, WritesLast) ::
              Exec(acts).machine.table[s].last ==
              if k == i then UNKNOWN else if Atomic(acts)[k].Failure? then CRASHED else Atomic(acts)[k].last
    ensures Other(Unregister(s)) !in acts ==> forall j | 0 <= j < i :: !Creates(Atomic(acts)[j], s)
  {
    i := FindFirstCommit(acts, s);
    SplitIsAtomicUpToLiveness(acts);
    Record(Atomic(acts), s, i);
    var info, info' := Exec(acts).machine.table[s], Run(Atomic(acts)).table[s];
    assert info.(online := true) == info'.(online := true);
    forall k: nat | Latest(Atomic(acts), s, i, k, WritesLast)
      ensures info.last ==
              if k == i then UNKNOWN else if Atomic(acts)[k].Failure? then CRASHED else Atomic(acts)[k].last
    {
      LastActionByLatest(Atomic(acts), s, i, k);
    }
    if Other(Unregister(s)) !in acts {
      NoEarlierCommit(acts, s, i);
    }
  }

  lemma NoEarlierCommit(acts: seq<Act>, s: string, i: nat)
    requires IsBirth(Atomic(acts), s, i) && Other(Unregister(s)) !in acts
    ensures forall j | 0 <= j < i :: !Creates(Atomic(acts)[j], s)
  {
    forall j | 0 <= j < i ensures !Creates(Atomic(acts)[j], s) {
      if Creates(Atomic(acts)[j], s) {
        var u :| j < u < i && Atomic(acts)[u] == Unregister(s);
        NeverUnregistered(acts, s, u);
      }
    }
  }

  lemma UnregisterIsOther(st: State, act: Act, s: string)
    requires AsEvent(st, act) == Unregister(s)
    ensures act == Other(Unregister(s))
  {
  }

  lemma {:induction false} NeverUnregistered(acts: seq<Act>, s: string, k: nat)
    requires k < |acts| && acts[k] != Other(Unregister(s))
    ensures Atomic(acts)[k] != Unregister(s)
  {
    AtomicFront(acts);
    if k < |acts| - 1 {
      NeverUnregistered(Front(acts), s, k);
    } else if Atomic(acts)[k] == Unregister(s) {
      UnregisterIsOther(Exec(Front(acts)), Last(acts), s);
    }
  }

  /** A commit that lands on an existing entry changes at most its liveness flag, and no other entry. */
  lemma LaterCommitKeepsRecord(t: Table, c: Commit, s: string)
    requires c.service in t && s in t && !c.Dangling?
    ensures Landed(t, c).Running? && s in Landed(t, c).table
    ensures Landed(t, c).table[s].(online := t[s].online) == t[s]
    ensures s != c.service ==> Landed(t, c).table[s] == t[s]
  {
  }

  // -------------------- when the split is defined --------------------

  /** An iterator that is still good points to an entry of its service. */
  ghost predicate Anchored(st: State)
  {
    st.machine.Running? ==> forall c | c in st.pending && c.Revive? :: c.service in st.machine.table
  }

  lemma NextKeepsAnchored(st: State, act: Act)
    requires Anchored(st)
    ensures Anchored(Next(st, act))
  {
    if Next(st, act).machine.Running? {
      forall c | c in Next(st, act).pending && c.Revive? ensures c.service in Next(st, act).machine.table {
        assert c == Revive(c.service);
        if act.Other? && !act.event.Register? {
          LivenessStep(st.machine, act.event, c.service);
        }
      }
    }
  }

  lemma {:induction false} ExecAnchored(acts: seq<Act>)
    ensures Anchored(Exec(acts))
  {
    if acts != [] {
      ExecAnchored(Front(acts));
      NextKeepsAnchored(Exec(Front(acts)), Last(acts));
    }
  }

  predicate LandsDangling(st: State, act: Act)
  {
    act.Land? && act.commit.Dangling? && act.commit in st.pending
  }

  /** At some point of the run a registration commits through a dangling iterator. */
  ghost predicate DanglingLands(acts: seq<Act>)
  {
    acts != [] && (DanglingLands(Front(acts)) || LandsDangling(Exec(Front(acts)), Last(acts)))
  }

  lemma StepDefinedIff(st: State, u: Table, act: Act)
    requires st.machine.Running? && Anchored(st) && SameButOnline(st.machine.table, u)
    ensures Next(st, act).machine.Running? <==>
            Apply(Running(u), AsEvent(st, act)).Running? && !LandsDangling(st, act)
  {
    if act.Other? && !act.event.Register? {
      EventKeepsSame(st.machine.table, u, act.event);
    } else {
      OnlyFailuresBreak(u, AsEvent(st, act));
    }
  }

  lemma OnlyFailuresBreak(u: Table, e: Event)
    requires !e.Failure?
    ensures Apply(Running(u), e).Running?
  {
  }

  /** Exactly: the split run is defined iff the atomic run is and no dangling iterator is ever gone through. */
  lemma {:induction false} DefinedIffAtomicIs(acts: seq<Act>)
    ensures Exec(acts).machine.Running? <==> Run(Atomic(acts)).Running? && !DanglingLands(acts)
  {
    if acts != [] {
      var front := Front(acts);
      DefinedIffAtomicIs(front);
      AtomicFront(acts);
      if Exec(front).machine.Running? {
        ExecAnchored(front);
        SplitIsAtomicUpToLiveness(front);
        StepDefinedIff(Exec(front), Run(Atomic(front)).table, Last(acts));
      }
    }
  }

  /** No service is unregistered while a registration holds an iterator to its entry. */
  ghost predicate NoDangling(acts: seq<Act>)
  {
    acts != [] ==>
      && NoDangling(Front(acts))
      && forall s | Last(acts) == Other(Unregister(s)) :: Revive(s) !in Exec(Front(acts)).pending
  }

  /** That is enough to keep every iterator good. */
  lemma {:induction false} NoDanglingNeverLands(acts: seq<Act>)
    requires NoDangling(acts)
    ensures !DanglingLands(acts)
    ensures forall c | c in Exec(acts).pending :: !c.Dangling?
  {
    if acts != [] {
      NoDanglingNeverLands(Front(acts));
      NextStaysGood(Exec(Front(acts)), Last(acts));
    }
  }

  lemma NextStaysGood(st: State, act: Act)
    requires forall c | c in st.pending :: !c.Dangling?
    requires forall s | act == Other(Unregister(s)) :: Revive(s) !in st.pending
    ensures forall c | c in Next(st, act).pending :: !c.Dangling?
  {
    if act.Other? && act.event.Unregister? {
      assert act == Other(Unregister(act.event.name));
    }
  }

  /** Nothing but its own landing takes a dangling commit off the list. */
  lemma DanglingStays(st: State, act: Act, s: string)
    requires st.machine.Undefined? || Dangling(s) in st.pending
    requires act != Land(Dangling(s))
    ensures Next(st, act).machine.Undefined? || Dangling(s) in Next(st, act).pending
  {
  }

  lemma ErasureSpoils(st: State, s: string)
    requires st.machine.Running? && Revive(s) in st.pending
    ensures Dangling(s) in Next(st, Other(Unregister(s))).pending
  {
  }

  lemma ExecAppend(acts: seq<Act>, more: seq<Act>)
    requires more != []
    ensures Exec(acts + more) == Next(Exec(acts + Front(more)), Last(more))
  {
    assert acts + more == acts + Front(more) + [Last(more)];
    ExecSnoc(acts + Front(more), Last(more));
  }

  lemma {:induction false} DanglingWaits(acts: seq<Act>, between: seq<Act>, s: string)
    requires Exec(acts).machine.Undefined? || Dangling(s) in Exec(acts).pending
    requires forall k | 0 <= k < |between| :: between[k] != Land(Dangling(s))
    ensures Exec(acts + between).machine.Undefined? || Dangling(s) in Exec(acts + between).pending
  {
    if between == [] {
      assert acts + between == acts;
    } else {
      DanglingWaits(acts, Front(between), s);
      ExecAppend(acts, between);
      DanglingStays(Exec(acts + Front(between)), Last(between), s);
    }
  }

  /**
   Once an entry is erased under a waiting revival, that revival is undefined behaviour when it lands,
   whatever happens between, a new registration of the same name included.
   */
  lemma ErasedEntryIsNeverRevived(acts: seq<Act>, between: seq<Act>, s: string)
    requires Exec(acts).machine.Running? && Revive(s) in Exec(acts).pending
    requires Land(Dangling(s)) !in between
    ensures Exec(acts + [Other(Unregister(s))] + between + [Land(Dangling(s))]).machine.Undefined?
  {
    var erased := acts + [Other(Unregister(s))];
    ExecSnoc(acts, Other(Unregister(s)));
    ErasureSpoils(Exec(acts), s);
    DanglingWaits(erased, between, s);
    ExecSnoc(erased + between, Land(Dangling(s)));
  }

  /** Such a commit is reached: a registration finds the entry that an earlier one has made. */
  lemma RevivalWaits(s: string)
    requires InCatalogue(s)
    ensures Exec([Lookup(s, []), Land(Emplace(s, [])), Lookup(s, [])]) ==
            State(Running(map[s := FreshInfo(s, [])]), multiset{Revive(s)})
  {
    var a1 := [Lookup(s, [])];
    var a2 := [Lookup(s, []), Land(Emplace(s, []))];
    var a3 := [Lookup(s, []), Land(Emplace(s, [])), Lookup(s, [])];
    assert Front(a1) == [] && Front(a2) == a1 && Front(a3) == a2;
    assert Exec(a1) == State(Running(map[]), multiset{Emplace(s, [])});
    assert Exec(a2) == State(Running(map[s := FreshInfo(s, [])]), multiset{});
  }

  /** Then unregistering and registering the name again does not save it. */
  lemma RecreatedEntryIsNoCure(s: string)
    requires InCatalogue(s)
    ensures var found := [Lookup(s, []), Land(Emplace(s, [])), Lookup(s, [])];
            Exec(found + [Other(Unregister(s))] + [Lookup(s, []), Land(Emplace(s, []))]
                 + [Land(Dangling(s))]).machine.Undefined?
  {
    RevivalWaits(s);
    ErasedEntryIsNeverRevived([Lookup(s, []), Land(Emplace(s, [])), Lookup(s, [])],
                              [Lookup(s, []), Land(Emplace(s, []))], s);
  }

  // -------------------- when the split is invisible --------------------

  /** A waiting insertion lands on an entry that is there but offline, and leaves it offline. */
  predicate MissesRevival(st: State, act: Act)
  {
    && st.machine.Running? && act.Land? && act.commit.Emplace? && act.commit in st.pending
    && act.commit.service in st.machine.table && !st.machine.table[act.commit.service].online
  }

  ghost predicate NeverMisses(acts: seq<Act>)
  {
    acts != [] ==> NeverMisses(Front(acts)) && !MissesRevival(Exec(Front(acts)), Last(acts))
  }

  /** The registry is that of the atomic run, liveness included. */
  ghost predicate Together(acts: seq<Act>)
  {
    Exec(acts).machine == Run(Atomic(acts))
  }

  ghost predicate AtEveryPoint<T>(s: seq<T>, holds: seq<T> -> bool)
  {
    forall k | 0 <= k <= |s| :: holds(s[..k])
  }

  lemma AtEveryPointStep<T>(s: seq<T>, holds: seq<T> -> bool)
    requires s != []
    ensures AtEveryPoint(s, holds) <==> AtEveryPoint(Front(s), holds) && holds(s)
  {
    assert s[..|s|] == s;
    assert forall k | 0 <= k <= |s| - 1 :: Front(s)[..k] == s[..k];
    if AtEveryPoint(s, holds) {
      forall k | 0 <= k <= |s| - 1 ensures holds(Front(s)[..k]) {
        assert holds(s[..k]);
      }
    }
    if AtEveryPoint(Front(s), holds) && holds(s) {
      forall k | 0 <= k <= |s| ensures holds(s[..k]) {
        if k < |s| { assert holds(Front(s)[..k]); }
      }
    }
  }

  /** That holds at every point of the run. */
  ghost predicate InvisibleThroughout(acts: seq<Act>)
  {
    AtEveryPoint(acts, Together)
  }

  /** From a state the two runs share, one act keeps them together iff it does not miss a revival. */
  lemma TogetherIff(st: State, act: Act)
    requires st.machine.Running? && Next(st, act).machine.Running? && Catalogued(st.pending)
    ensures Next(st, act).machine == Apply(st.machine, AsEvent(st, act)) <==> !MissesRevival(st, act)
  {
    if act.Land? && act.commit in st.pending {
      var t, c := st.machine.table, act.commit;
      if MissesRevival(st, act) {
        assert t[c.service := t[c.service].(online := true)][c.service] != t[c.service];
      } else {
        LandingIsRegistering(t, c);
      }
    }
  }

  /** Exactly when the split cannot be seen: no waiting insertion ever lands on an offline entry. */
  lemma {:induction false} SplitInvisibleIff(acts: seq<Act>)
    requires Exec(acts).machine.Running?
    ensures InvisibleThroughout(acts) <==> NeverMisses(acts)
  {
    if acts == [] {
      assert acts[..0] == [];
    } else {
      var front := Front(acts);
      SplitInvisibleIff(front);
      AtEveryPointStep(acts, Together);
      assert InvisibleThroughout(front) ==> Together(front) by { assert front[..|front|] == front; }
      AtomicFront(acts);
      ExecCatalogued(front);
      TogetherIff(Exec(front), Last(acts));
    }
  }

  /** No registered service fails while a registration is still waiting to insert it. */
  ghost predicate NoStaleInsert(acts: seq<Act>)
  {
    acts != [] ==>
      && NoStaleInsert(Front(acts))
      && forall s, a | Last(acts) == Other(Failure(s)) && Emplace(s, a) in Exec(Front(acts)).pending ::
           Exec(Front(acts)).machine.Undefined? || s !in Exec(Front(acts)).machine.table
  }

  /** Entries that a waiting insertion will find are online. */
  ghost predicate WaitsOnOnline(st: State)
  {
    st.machine.Running? ==>
      forall c | c in st.pending && c.Emplace? && c.service in st.machine.table :: st.machine.table[c.service].online
  }

  lemma NextKeepsWaits(st: State, act: Act)
    requires st.machine.Running? && Next(st, act).machine.Running? && WaitsOnOnline(st)
    requires forall s, a | act == Other(Failure(s)) && Emplace(s, a) in st.pending :: s !in st.machine.table
    ensures WaitsOnOnline(Next(st, act))
  {
    forall c | c in Next(st, act).pending && c.Emplace? && c.service in Next(st, act).machine.table
      ensures Next(st, act).machine.table[c.service].online
    {
      assert c == Emplace(c.service, c.actions);
      if act.Other? && !act.event.Register? {
        LivenessStep(st.machine, act.event, c.service);
      }
    }
  }

  lemma {:induction false} NoStaleInsertNeverMisses(acts: seq<Act>)
    requires Exec(acts).machine.Running? && NoStaleInsert(acts)
    ensures NeverMisses(acts) && WaitsOnOnline(Exec(acts))
  {
    if acts != [] {
      NoStaleInsertNeverMisses(Front(acts));
      NextKeepsWaits(Exec(Front(acts)), Last(acts));
    }
  }

  /** In particular, if no registered service fails while an insertion waits for it, the split cannot be seen. */
  lemma SplitIsAtomic(acts: seq<Act>)
    requires Exec(acts).machine.Running? && NoStaleInsert(acts)
    ensures InvisibleThroughout(acts) && Together(acts)
  {
    NoStaleInsertNeverMisses(acts);
    SplitInvisibleIff(acts);
    assert acts[..|acts|] == acts;
  }

  lemma LandingIsRegistering(t: Table, c: Commit)
    requires Landed(t, c).Running?
    requires c.Emplace? ==> InCatalogue(c.service) && (c.service in t ==> t[c.service].online)
    ensures Landed(t, c) ==
            Apply(Running(t), if c.Emplace? then Register(c.service, c.actions) else Register(c.service, []))
  {
    if c.service in t && t[c.service].online {
      assert t[c.service := t[c.service].(online := true)] == t;
    }
  }

  lemma ExecSnoc(acts: seq<Act>, act: Act)
    ensures Exec(acts + [act]) == Next(Exec(acts), act)
  {
    assert Front(acts + [act]) == acts;
  }

  /** Two registrations that both looked up before either committed. */
  lemma Overlapping(s: string, first: seq<Action>, second: seq<Action>)
    requires InCatalogue(s)
    ensures Exec([Lookup(s, first), Lookup(s, second), Land(Emplace(s, first))]) ==
            State(Running(map[s := FreshInfo(s, first)]), multiset{Emplace(s, second)})
  {
    var a1 := [Lookup(s, first)];
    assert Exec(a1) == State(Running(map[]), multiset{Emplace(s, first)}) by { assert Front(a1) == []; }
    ExecSnoc(a1, Lookup(s, second));
    ExecSnoc(a1 + [Lookup(s, second)], Land(Emplace(s, first)));
    assert a1 + [Lookup(s, second)] + [Land(Emplace(s, first))] ==
           [Lookup(s, first), Lookup(s, second), Land(Emplace(s, first))];
  }

  /** The first failure of a fresh entry is always defined. */
  lemma FirstFailureIsDefined(s: string, actions: seq<Action>)
    ensures var m := Apply(Running(map[s := FreshInfo(s, actions)]), Failure(s));
            m.Running?
  {
    NextInPolicy(|PolicyFor(actions)|, 0);
  }

  /** An insertion that waits through a failure leaves the service offline, although its caller is told it succeeded. */
  lemma StaleLanding(st: State, s: string, actions: seq<Action>)
    requires st.machine.Running? && s in st.machine.table && Emplace(s, actions) in st.pending
    requires Apply(st.machine, Failure(s)).Running?
    ensures var m := Next(Next(st, Other(Failure(s))), Land(Emplace(s, actions))).machine;
            m == Apply(st.machine, Failure(s)) && s in m.table && !m.table[s].online
  {
  }

  /** Such a state is reached: two registrations overlap, and a failure falls between their commits. */
  lemma StaleInsertStaysOffline(s: string, first: seq<Action>, second: seq<Action>)
    requires InCatalogue(s)
    ensures var overlap := [Lookup(s, first), Lookup(s, second), Land(Emplace(s, first))];
            var m := Exec(overlap + [Other(Failure(s))] + [Land(Emplace(s, second))]).machine;
            m.Running? && s in m.table && !m.table[s].online
  {
    var overlap := [Lookup(s, first), Lookup(s, second), Land(Emplace(s, first))];
    var st := Exec(overlap);
    assert st.machine == Running(map[s := FreshInfo(s, first)]) && Emplace(s, second) in st.pending by {
      Overlapping(s, first, second);
    }
    FirstFailureIsDefined(s, first);
    StaleLanding(st, s, second);
    ExecSnoc(overlap, Other(Failure(s)));
    ExecSnoc(overlap + [Other(Failure(s))], Land(Emplace(s, second)));
  }
}
