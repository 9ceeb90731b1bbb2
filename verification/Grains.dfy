/**
 Both grains at once: a registration looks up, commits and inserts its watch in three
 separate steps, and every other handler works in its own two critical sections.
 */
module Grains {
  import opened Common
  import opened Registry
  import opened Peers
  import Split = SplitRegistration
  import Locks = Interleaving
  import Schedules

  /** A registration that has looked its name up and not yet committed. */
  datatype Claim = Claim(call: Call, commit: Split.Commit)

  /** `claims` has one entry for every registration between its lookup and its commit. */
  datatype State = State(locks: Locks.State, claims: map<nat, Claim>)

  /** `Lookup` starts registrations only, under an unused number; `Other` is every act but the start of one. */
  datatype Act = Lookup(id: nat, call: Call) | Land(id: nat) | Other(act: Locks.Act)

  predicate Registers(act: Locks.Act)
  {
    act.Begin? && act.call.RegisterService?
  }

  /** Erasing the entry of `s` leaves every iterator to it dangling. */
  ghost function Spoiled(claims: map<nat, Claim>, act: Locks.Act): map<nat, Claim>
  {
    map id | id in claims ::
      if act.Begin? && act.call.UnregisterService? && claims[id].commit == Split.Revive(act.call.service)
      then claims[id].(commit := Split.Dangling(act.call.service)) else claims[id]
  }

  /** The watch that a committed registration still has to insert. */
  ghost function Owes(call: Call): multiset<Locks.Task>
    requires call.RegisterService?
  {
    if call.bus != "" then multiset{Locks.Insert(call.service, call.bus)} else multiset{}
  }

  /** The act starts, commits or does something; any other act changes nothing. */
  ghost predicate Enabled(st: State, act: Act)
  {
    st.locks.machine.Running? &&
    match act
    case Lookup(id, call) =>
      && id !in st.claims && call.RegisterService?
      && (call.service in st.locks.machine.table || InCatalogue(call.service))
    case Land(id) => id in st.claims && st.claims[id].call.RegisterService?
    case Other(a) => !Registers(a)
  }

  ghost function Next(st: State, act: Act): State
  {
    if !Enabled(st, act) then st else
    var t := st.locks.machine.table;
    match act
    case Lookup(id, call) =>
      st.(claims := st.claims[id := Claim(call, Split.Found(t, call.service, Translate(call.wire)))])
    case Land(id) =>
      var claim := st.claims[id];
      State(st.locks.(machine := Split.Landed(t, claim.commit), pending := st.locks.pending + Owes(claim.call)),
            st.claims - {id})
    case Other(a) => State(Locks.Next(st.locks, a), Spoiled(st.claims, a))
  }

  ghost function Exec(acts: seq<Act>): State
  {
    if acts == [] then State(Locks.Exec([]), map[]) else Next(Exec(Front(acts)), Last(acts))
  }

  // -------------------- the same run with lookup and commit as one step --------------------

  ghost function AsActs(st: State, act: Act): seq<Locks.Act>
  {
    if !Enabled(st, act) then [] else
    match act
    case Lookup(_, _) => []
    case Land(id) => [Locks.Begin(st.claims[id].call)]
    case Other(a) => [a]
  }

  /** The schedule of critical sections in which every registration begins where it commits. */
  ghost function Coarse(acts: seq<Act>): seq<Locks.Act>
  {
    if acts == [] then [] else Coarse(Front(acts)) + AsActs(Exec(Front(acts)), Last(acts))
  }

  /** Everything but the liveness flags is the same. */
  ghost predicate Agree(fine: Locks.State, coarse: Locks.State)
  {
    && fine.machine.Running? && coarse.machine.Running?
    && Split.SameButOnline(fine.machine.table, coarse.machine.table)
    && fine.watch == coarse.watch && fine.pending == coarse.pending
  }

  ghost predicate SoundClaim(t: Table, claim: Claim)
  {
    && claim.call.RegisterService? && claim.commit.service == claim.call.service && InCatalogue(claim.call.service)
    && (claim.commit.Emplace? ==> claim.commit.actions == Translate(claim.call.wire))
    && (claim.commit.Revive? ==> claim.call.service in t)
  }

  /** Every claim commits what its call asked for, and an iterator that is still good points to an entry. */
  ghost predicate Sound(st: State)
  {
    st.locks.machine.Running? ==>
      && WellFormed(st.locks.machine.table)
      && forall id | id in st.claims :: SoundClaim(st.locks.machine.table, st.claims[id])
  }

  lemma LookupKeepsSound(st: State, id: nat, call: Call)
    requires Sound(st)
    ensures Sound(Next(st, Lookup(id, call)))
  {
  }

  lemma LandingKeepsTable(t: Table, c: Split.Commit)
    requires WellFormed(t) && InCatalogue(c.service) && Split.Landed(t, c).Running?
    ensures WellFormed(Split.Landed(t, c).table) && t.Keys <= Split.Landed(t, c).table.Keys
  {
    if c.Emplace? {
      ApplyKeepsWellFormed(Running(t), Register(c.service, c.actions));
    }
  }

  lemma LandKeepsSound(st: State, id: nat)
    requires Sound(st)
    ensures Sound(Next(st, Land(id)))
  {
    if Enabled(st, Land(id)) && Next(st, Land(id)).locks.machine.Running? {
      LandingKeepsTable(st.locks.machine.table, st.claims[id].commit);
    }
  }

  lemma OtherKeepsSound(st: State, a: Locks.Act)
    requires Sound(st)
    ensures Sound(Next(st, Other(a)))
  {
    var st' := Next(st, Other(a));
    if Enabled(st, Other(a)) && st'.locks.machine.Running? {
      var t := st.locks.machine.table;
      ApplyKeepsWellFormed(st.locks.machine, Locks.Delivers(st.locks, a));
      forall id | id in st'.claims ensures SoundClaim(st'.locks.machine.table, st'.claims[id]) {
        assert SoundClaim(t, st.claims[id]);
        if st'.claims[id].commit.Revive? {
          LivenessStep(st.locks.machine, Locks.Delivers(st.locks, a), st.claims[id].call.service);
        }
      }
    }
  }

  lemma {:induction false} ExecSound(acts: seq<Act>)
    ensures Sound(Exec(acts))
  {
    if acts != [] {
      ExecSound(Front(acts));
      match Last(acts)
      case Lookup(id, call) => LookupKeepsSound(Exec(Front(acts)), id, call);
      case Land(id) => LandKeepsSound(Exec(Front(acts)), id);
      case Other(a) => OtherKeepsSound(Exec(Front(acts)), a);
    }
  }

  // -------------------- one act --------------------

  /** The act commits through a dangling iterator. */
  ghost predicate LandsDangling(st: State, act: Act)
  {
    Enabled(st, act) && act.Land? && st.claims[act.id].commit.Dangling?
  }

  /** A commit is the first half of its registration. */
  lemma LandAgrees(st: State, coarse: Locks.State, id: nat)
    requires Sound(st) && Agree(st.locks, coarse) && Enabled(st, Land(id)) && !st.claims[id].commit.Dangling?
    ensures Agree(Next(st, Land(id)).locks, Locks.Next(coarse, Locks.Begin(st.claims[id].call)))
  {
    var t, u, claim := st.locks.machine.table, coarse.machine.table, st.claims[id];
    assert SoundClaim(t, claim);
    Split.LandingKeepsSame(t, u, claim.commit);
    RevivalIgnoresActions(u, claim.call.service, [], Translate(claim.call.wire));
    assert Locks.Left(coarse, claim.call) == Owes(claim.call);
  }

  /** Registering a known name does not look at the actions. */
  lemma RevivalIgnoresActions(t: Table, s: string, a: seq<Action>, b: seq<Action>)
    ensures s in t ==> Apply(Running(t), Register(s, a)) == Apply(Running(t), Register(s, b))
  {
  }

  lemma SameDelivery(fine: Locks.State, coarse: Locks.State, a: Locks.Act)
    requires Agree(fine, coarse)
    ensures Locks.Delivers(fine, a) == Locks.Delivers(coarse, a)
    ensures Locks.Watches(fine, a) == Locks.Watches(coarse, a)
    ensures Locks.Awaits(fine, a) == Locks.Awaits(coarse, a)
  {
  }

  lemma OtherAgrees(fine: Locks.State, coarse: Locks.State, a: Locks.Act)
    requires Agree(fine, coarse) && !Registers(a)
    ensures Locks.Next(fine, a).machine.Running? <==> Locks.Next(coarse, a).machine.Running?
    ensures Locks.Next(fine, a).machine.Running? ==> Agree(Locks.Next(fine, a), Locks.Next(coarse, a))
  {
    SameDelivery(fine, coarse, a);
    Split.EventKeepsSame(fine.machine.table, coarse.machine.table, Locks.Delivers(fine, a));
  }

  ghost function Follow(coarse: Locks.State, acts: seq<Locks.Act>): Locks.State
    requires |acts| <= 1
  {
    if acts == [] then coarse else Locks.Next(coarse, acts[0])
  }

  /** From states that agree, one act keeps both runs defined and in agreement, or breaks exactly the one it must. */
  lemma StepAgrees(st: State, coarse: Locks.State, act: Act)
    requires Sound(st) && Agree(st.locks, coarse)
    ensures var after, coarse' := Next(st, act).locks, Follow(coarse, AsActs(st, act));
            && (after.machine.Running? <==> coarse'.machine.Running? && !LandsDangling(st, act))
            && (after.machine.Running? ==> Agree(after, coarse'))
  {
    if Enabled(st, act) {
      match act
      case Lookup(_, _) =>
      case Land(id) =>
        if !st.claims[id].commit.Dangling? {
          LandAgrees(st, coarse, id);
        }
      case Other(a) => OtherAgrees(st.locks, coarse, a);
    }
  }

  lemma CoarseStep(acts: seq<Act>)
    requires acts != []
    ensures Locks.Exec(Coarse(acts)) == Follow(Locks.Exec(Coarse(Front(acts))), AsActs(Exec(Front(acts)), Last(acts)))
  {
    var before, step := Coarse(Front(acts)), AsActs(Exec(Front(acts)), Last(acts));
    if step == [] {
      assert before + step == before;
    } else {
      assert step == [step[0]];
      Locks.ExecSnoc(before, step[0]);
    }
  }

  // -------------------- every schedule --------------------

  /** At some point of the schedule a registration commits through a dangling iterator. */
  ghost predicate DanglingLands(acts: seq<Act>)
  {
    acts != [] && (DanglingLands(Front(acts)) || LandsDangling(Exec(Front(acts)), Last(acts)))
  }

  /**
   A three-step schedule is defined iff its schedule of critical sections is and no dangling iterator is gone
   through; then watches, owed work and records agree, up to liveness.
   */
  lemma {:induction false} GrainsAgree(acts: seq<Act>)
    ensures Exec(acts).locks.machine.Running? <==> Locks.Exec(Coarse(acts)).machine.Running? && !DanglingLands(acts)
    ensures Exec(acts).locks.machine.Running? ==> Agree(Exec(acts).locks, Locks.Exec(Coarse(acts)))
  {
    if acts != [] {
      var front := Front(acts);
      GrainsAgree(front);
      CoarseStep(acts);
      if Exec(front).locks.machine.Running? {
        ExecSound(front);
        StepAgrees(Exec(front), Locks.Exec(Coarse(front)), Last(acts));
      }
    }
  }

  // -------------------- every schedule of critical sections is one of three steps --------------------

  /** One critical section as fine steps. */
  ghost function AsSteps(a: Locks.Act): seq<Act>
  {
    if Registers(a) then [Lookup(0, a.call), Land(0)] else [Other(a)]
  }

  ghost function AsFine(coarse: seq<Locks.Act>): seq<Act>
  {
    if coarse == [] then [] else AsFine(Front(coarse)) + AsSteps(Last(coarse))
  }

  /** In every state, a registration that commits as soon as it has looked up is the first half of its call. */
  lemma AdjacentIsBegin(st: State, id: nat, call: Call)
    requires st.locks.machine.Running? && id !in st.claims && call.RegisterService?
    ensures Next(Next(st, Lookup(id, call)), Land(id)) == State(Locks.Next(st.locks, Locks.Begin(call)), st.claims)
  {
    var looked := Next(st, Lookup(id, call));
    if Enabled(st, Lookup(id, call)) {
      assert looked.claims - {id} == st.claims;
      assert Locks.Left(st.locks, call) == Owes(call);
    } else {
      assert st.locks.pending + multiset{} == st.locks.pending;
    }
  }

  lemma ExecSnoc(acts: seq<Act>, act: Act)
    ensures Exec(acts + [act]) == Next(Exec(acts), act)
  {
    assert Front(acts + [act]) == acts;
  }

  lemma StepsFollow(acts: seq<Act>, a: Locks.Act)
    requires Exec(acts).claims == map[]
    ensures Exec(acts + AsSteps(a)) == State(Locks.Next(Exec(acts).locks, a), map[])
  {
    if Registers(a) {
      ExecSnoc(acts, Lookup(0, a.call));
      ExecSnoc(acts + [Lookup(0, a.call)], Land(0));
      assert acts + AsSteps(a) == acts + [Lookup(0, a.call)] + [Land(0)];
      if Exec(acts).locks.machine.Running? {
        AdjacentIsBegin(Exec(acts), 0, a.call);
      }
    } else {
      ExecSnoc(acts, Other(a));
      assert Spoiled(map[], a) == map[];
    }
  }

  /** Every schedule of critical sections is one of fine steps, section by section. */
  lemma {:induction false} CoarseIsFine(coarse: seq<Locks.Act>)
    ensures Exec(AsFine(coarse)) == State(Locks.Exec(coarse), map[])
  {
    if coarse != [] {
      CoarseIsFine(Front(coarse));
      StepsFollow(AsFine(Front(coarse)), Last(coarse));
    }
  }

  // -------------------- no claim is lost --------------------

  ghost function Number(acts: seq<Act>, kind: (State, Act) -> bool): nat
  {
    if acts == [] then 0 else
    Number(Front(acts), kind) + if kind(Exec(Front(acts)), Last(acts)) then 1 else 0
  }

  /** The act looks up a catalogued name under a number that is not in use. */
  ghost predicate Claims(st: State, act: Act, id: nat)
  {
    && act.Lookup? && act.id == id && act.call.RegisterService? && InCatalogue(act.call.service)
    && st.locks.machine.Running? && id !in st.claims
  }

  ghost predicate Commits(st: State, act: Act, id: nat)
  {
    act == Land(id) && st.locks.machine.Running? && id in st.claims
  }

  /** A claim waits, unchanged but for the erasure of the entry it found, until it commits. */
  lemma ClaimWaits(st: State, act: Act, id: nat)
    requires st.locks.machine.Running? && id in st.claims && act != Land(id)
    ensures id in Next(st, act).claims
    ensures var before, now := st.claims[id], Next(st, act).claims[id];
            && now.call == before.call
            && now.commit == if before.commit.Revive? && act == Other(Locks.Begin(UnregisterService(before.commit.service)))
                             then Split.Dangling(before.commit.service) else before.commit
  {
  }

  lemma ClaimStep(st: State, act: Act, id: nat)
    requires Sound(st) && st.locks.machine.Running?
    ensures (if id in Next(st, act).claims then 1 else 0) + (if Commits(st, act, id) then 1 else 0) ==
            (if id in st.claims then 1 else 0) + (if Claims(st, act, id) then 1 else 0)
  {
  }

  /** Every registration that looked up under a number has committed or still has to. */
  lemma {:induction false} ClaimsConserved(acts: seq<Act>, id: nat)
    requires Exec(acts).locks.machine.Running?
    ensures Number(acts, (st, act) => Claims(st, act, id)) ==
            Number(acts, (st, act) => Commits(st, act, id)) + if id in Exec(acts).claims then 1 else 0
  {
    if acts != [] {
      ClaimsConserved(Front(acts), id);
      ExecSound(Front(acts));
      ClaimStep(Exec(Front(acts)), Last(acts), id);
    }
  }

  // -------------------- what carries over --------------------

  /** The tally of a service, taken on the three-step schedule itself. */
  ghost function Total(acts: seq<Act>, s: string): Locks.Tally
  {
    if acts == [] then Locks.Tally(0, 0, 0, 0, 0, 0) else
    var st, before := Exec(Front(acts)), Total(Front(acts), s);
    if Enabled(st, Last(acts)) && Last(acts).Other? then Locks.Count(st.locks, Last(acts).act, s, before) else before
  }

  lemma SameCount(fine: Locks.State, coarse: Locks.State, a: Locks.Act, s: string, c: Locks.Tally)
    requires Agree(fine, coarse)
    ensures Locks.Count(fine, a, s, c) == Locks.Count(coarse, a, s, c)
  {
  }

  lemma TotalSnoc(acts: seq<Locks.Act>, a: Locks.Act, s: string)
    requires Locks.Exec(acts).machine.Running?
    ensures Locks.Total(acts + [a], s) == Locks.Count(Locks.Exec(acts), a, s, Locks.Total(acts, s))
  {
    assert Front(acts + [a]) == acts;
  }

  lemma {:induction false} SameTotal(acts: seq<Act>, s: string)
    requires Exec(acts).locks.machine.Running?
    ensures Total(acts, s) == Locks.Total(Coarse(acts), s)
  {
    if acts != [] {
      var front := Front(acts);
      var st, step := Exec(front), AsActs(Exec(front), Last(acts));
      SameTotal(front, s);
      GrainsAgree(front);
      if step == [] {
        assert Coarse(acts) == Coarse(front);
      } else {
        assert Coarse(acts) == Coarse(front) + [step[0]];
        TotalSnoc(Coarse(front), step[0], s);
        SameCount(st.locks, Locks.Exec(Coarse(front)), step[0], s, Total(front, s));
      }
    }
  }

  /** With the lookup outside the lock too, crashes never exceed the watches consumed, nor those the inserted. */
  lemma CrashesNeverExceedWatches(acts: seq<Act>, s: string)
    requires Exec(acts).locks.machine.Running?
    ensures Total(acts, s).crashed <= Total(acts, s).consumed <= Total(acts, s).inserted
    ensures var t := Exec(acts).locks.machine.table;
            s in t ==> t[s].crashes <= Total(acts, s).crashed
  {
    SameTotal(acts, s);
    GrainsAgree(acts);
    Locks.ExecBalanced(Coarse(acts), s);
  }

  /** Nor does it change whom a loss signal fails: the service armed from the lost name when commits count as starts. */
  lemma GrainsAttribution(acts: seq<Act>, loss: Call, s: string)
    requires Exec(acts).locks.machine.Running? && Loss(loss) && Schedules.OneServicePerBus(Coarse(acts))
    ensures Locks.Left(Exec(acts).locks, loss) == multiset{Locks.Fail(s)} <==> Schedules.Armed(Coarse(acts), s, loss.bus)
  {
    GrainsAgree(acts);
    Schedules.ScheduleAttribution(Coarse(acts), loss, s);
  }
}
