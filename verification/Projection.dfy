/**
 Services do not disturb each other: a record depends only on the events that
 name its service, and events on different names commute.
 */
module Projection {
  import opened Common
  import opened Registry

  function Keep(events: seq<Event>, s: string): seq<Event>
  {
    if events == [] then [] else
    Keep(Front(events), s) + if Names(Last(events), s) then [Last(events)] else []
  }

  function Find<V>(t: map<string, V>, s: string): Option<V>
  {
    if s in t then Some(t[s]) else None
  }

  /** An event moves the record it names in the same way in every table that holds that record. */
  lemma SameStep(t: Table, u: Table, e: Event, s: string)
    requires Names(e, s) && Find(t, s) == Find(u, s)
    ensures Apply(Running(t), e).Running? <==> Apply(Running(u), e).Running?
    ensures Apply(Running(t), e).Running? ==>
              Find(Apply(Running(t), e).table, s) == Find(Apply(Running(u), e).table, s)
  {
  }

  /** An event leaves alone every record it does not name. */
  lemma OtherStep(t: Table, e: Event, s: string)
    requires !Names(e, s) && Apply(Running(t), e).Running?
    ensures Find(Apply(Running(t), e).table, s) == Find(t, s)
  {
  }

  lemma TablesEqual<V>(t: map<string, V>, u: map<string, V>)
    requires forall s :: Find(t, s) == Find(u, s)
    ensures t == u
  {
    assert forall s :: s in t <==> Find(t, s).Some?;
    assert forall s :: s in u <==> Find(u, s).Some?;
    assert t.Keys == u.Keys;
    forall s | s in t ensures t[s] == u[s] {
      assert Find(t, s) == Find(u, s);
    }
  }

  /** Replaying only its own events gives a service the record it has. */
  lemma {:induction false} RecordIsLocal(events: seq<Event>, s: string)
    requires Run(events).Running?
    ensures Run(Keep(events, s)).Running?
    ensures Find(Run(events).table, s) == Find(Run(Keep(events, s)).table, s)
  {
    if events != [] {
      var front, e := Front(events), Last(events);
      RecordIsLocal(front, s);
      if Names(e, s) {
        RunSnoc(Keep(front, s), e);
        SameStep(Run(front).table, Run(Keep(front, s)).table, e, s);
      } else {
        assert Keep(events, s) == Keep(front, s);
        OtherStep(Run(front).table, e, s);
      }
    }
  }

  /** A run is defined exactly when every service's own run is. */
  lemma DefinednessIsLocal(events: seq<Event>)
    ensures Run(events).Running? <==> forall s :: Run(Keep(events, s)).Running?
  {
    if Run(events).Running? {
      forall s ensures Run(Keep(events, s)).Running? {
        RecordIsLocal(events, s);
      }
    } else {
      var s := FindBroken(events);
    }
  }

  lemma {:induction false} FindBroken(events: seq<Event>) returns (s: string)
    requires Run(events).Undefined?
    ensures Run(Keep(events, s)).Undefined?
  {
    var front, e := Front(events), Last(events);
    if Run(front).Undefined? {
      s := FindBroken(front);
      RunSnoc(Keep(front, s), e);
      assert Keep(front, s) + [] == Keep(front, s);
    } else {
      s := e.name;
      RecordIsLocal(front, s);
      RunSnoc(Keep(front, s), e);
      SameStep(Run(front).table, Run(Keep(front, s)).table, e, s);
    }
  }

  /** Events that share no name can be swapped, in every state. */
  lemma EventsCommute(m: Machine, e: Event, f: Event)
    requires forall s :: !(Names(e, s) && Names(f, s))
    ensures Apply(Apply(m, e), f) == Apply(Apply(m, f), e)
  {
    if m.Running? && !e.Idle? && !f.Idle? {
      assert Names(e, e.name) && Names(f, f.name);
      StepsCommute(m.table, e, f);
    }
  }

  lemma StepsCommute(t: Table, e: Event, f: Event)
    requires !e.Idle? && !f.Idle? && e.name != f.name
    ensures Apply(Apply(Running(t), e), f) == Apply(Apply(Running(t), f), e)
  {
    var me, mf := Apply(Running(t), e), Apply(Running(t), f);
    if me.Running? {
      OtherStep(t, e, f.name);
      SameStep(t, me.table, f, f.name);
    }
    if mf.Running? {
      OtherStep(t, f, e.name);
      SameStep(t, mf.table, e, e.name);
    }
    if me.Running? && mf.Running? {
      forall s ensures Find(Apply(me, f).table, s) == Find(Apply(mf, e).table, s) {
        if s != e.name {
          OtherStep(t, e, s);
          OtherStep(mf.table, e, s);
        }
        if s != f.name {
          OtherStep(t, f, s);
          OtherStep(me.table, f, s);
        }
      }
      TablesEqual(Apply(me, f).table, Apply(mf, e).table);
    }
  }
}
