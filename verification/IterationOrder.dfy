/**
 The peer-loss loop scans the watch table in an order the hash map chooses.
 When that choice matters, and what one signal leaves behind.
 */
module IterationOrder {
  import opened Common
  import opened Cursor
  import opened Registry
  import opened Peers

  /** `order` enumerates the table, each key once. */
  ghost predicate Lists(order: seq<string>, watch: Watch)
  {
    && (forall k :: k in order <==> k in watch)
    && (forall i, j | 0 <= i < j < |order| :: order[i] != order[j])
  }

  /** Position `i` holds a match, and no position before it does. */
  ghost predicate Earliest(order: seq<string>, watch: Watch, bus: string, i: int)
  {
    && 0 <= i < |order| && Matches(watch, bus, order[i])
    && forall j | 0 <= j < i :: !Matches(watch, bus, order[j])
  }

  lemma EarliestShifts(order: seq<string>, watch: Watch, bus: string, i: int)
    requires order != [] && !Matches(watch, bus, order[0]) && Earliest(order[1..], watch, bus, i)
    ensures Earliest(order, watch, bus, i + 1)
  {
    forall j | 0 <= j < i + 1 ensures !Matches(watch, bus, order[j]) {
      if j > 0 {
        assert order[j] == order[1..][j - 1];
      }
    }
  }

  /** The entry at which the scan erases and breaks: the earliest match of the order, if there is any. */
  function FirstMatch(order: seq<string>, watch: Watch, bus: string): (hit: Option<string>)
    ensures hit.Some? ==> hit.value in order && Matches(watch, bus, hit.value)
    ensures hit.Some? ==> exists i :: Earliest(order, watch, bus, i) && order[i] == hit.value
    ensures hit.None? ==> forall k | k in order :: !Matches(watch, bus, k)
  {
    if order == [] then None
    else if Matches(watch, bus, order[0]) then
      assert Earliest(order, watch, bus, 0);
      Some(order[0])
    else
      var later := FirstMatch(order[1..], watch, bus);
      assert later.Some? ==> exists i :: Earliest(order, watch, bus, i) && order[i] == later.value by {
        if i :| later.Some? && Earliest(order[1..], watch, bus, i) && order[1..][i] == later.value {
          EarliestShifts(order, watch, bus, i);
          assert order[i + 1] == later.value;
        }
      }
      later
  }

  function Consume(watch: Watch, hit: Option<string>): Watch
  {
    if hit.Some? then watch - {hit.value} else watch
  }

  ghost predicate AtMostOne(watch: Watch, bus: string)
  {
    forall j, k | Matches(watch, bus, j) && Matches(watch, bus, k) :: j == k
  }

  /** Every finite set of names can be enumerated. */
  lemma {:induction false} Enumerate(names: set<string>) returns (order: seq<string>)
    ensures forall k :: k in order <==> k in names
    ensures forall i, j | 0 <= i < j < |order| :: order[i] != order[j]
  {
    if names == {} {
      order := [];
    } else {
      var k :| k in names;
      order := Enumerate(names - {k});
      order := [k] + order;
    }
  }

  lemma OrderStartingAt(watch: Watch, k: string) returns (order: seq<string>)
    requires k in watch
    ensures Lists(order, watch) && order[0] == k
  {
    order := Enumerate(watch.Keys - {k});
    order := [k] + order;
  }

  /** The outcome is independent of the iteration order iff at most one service has the lost name. */
  lemma OrderIrrelevantIff(watch: Watch, bus: string)
    ensures (forall o, p | Lists(o, watch) && Lists(p, watch) :: FirstMatch(o, watch, bus) == FirstMatch(p, watch, bus))
            <==> AtMostOne(watch, bus)
  {
    if AtMostOne(watch, bus) {
      forall o, p | Lists(o, watch) && Lists(p, watch)
        ensures FirstMatch(o, watch, bus) == FirstMatch(p, watch, bus)
      {
        var a, b := FirstMatch(o, watch, bus), FirstMatch(p, watch, bus);
        assert a.Some? ==> a.value in p;
        assert b.Some? ==> b.value in o;
      }
    } else {
      var j, k :| Matches(watch, bus, j) && Matches(watch, bus, k) && j != k;
      var o := OrderStartingAt(watch, j);
      var p := OrderStartingAt(watch, k);
      assert FirstMatch(o, watch, bus) != FirstMatch(p, watch, bus);
    }
  }

  /** A signal removes one entry when some entry matches, and none otherwise. */
  lemma SignalRemovesOne(order: seq<string>, watch: Watch, bus: string)
    requires Lists(order, watch)
    ensures |Consume(watch, FirstMatch(order, watch, bus))| ==
            |watch| - if exists k :: Matches(watch, bus, k) then 1 else 0
  {
  }

  ghost predicate Cleared(watch: Watch, bus: string)
  {
    forall k :: !Matches(watch, bus, k)
  }

  /** One signal clears the lost name from the table iff at most one service had it. */
  lemma SignalClearsIff(order: seq<string>, watch: Watch, bus: string)
    requires Lists(order, watch)
    ensures Cleared(Consume(watch, FirstMatch(order, watch, bus)), bus) <==> AtMostOne(watch, bus)
  {
    var hit := FirstMatch(order, watch, bus);
    var after := Consume(watch, hit);
    assert forall k :: Matches(after, bus, k) <==> Matches(watch, bus, k) && hit != Some(k);
    assert forall k :: Matches(watch, bus, k) ==> k in order;
    if !AtMostOne(watch, bus) {
      var j, k :| Matches(watch, bus, j) && Matches(watch, bus, k) && j != k;
      assert Matches(after, bus, j) || Matches(after, bus, k);
      assert !Cleared(after, bus);
    }
  }

  /** Naming the entry reached first is the same as choosing an order: every order is such a choice ... */
  lemma OrderIsAHit(order: seq<string>, watch: Watch, bus: string, first: string)
    requires Lists(order, watch)
    requires FirstMatch(order, watch, bus).Some? ==> first == FirstMatch(order, watch, bus).value
    ensures Hit(watch, bus, first) == FirstMatch(order, watch, bus)
  {
  }

  /** ... and every such choice is an order. */
  lemma HitIsAnOrder(watch: Watch, bus: string, first: string) returns (order: seq<string>)
    ensures Lists(order, watch)
    ensures FirstMatch(order, watch, bus) == Hit(watch, bus, first)
  {
    var hit := Hit(watch, bus, first);
    if hit.Some? {
      order := OrderStartingAt(watch, hit.value);
    } else {
      order := Enumerate(watch.Keys);
    }
  }

  /** After two services have registered from one connection. */
  lemma TwoOnOneBus(a: string, b: string, bus: string)
    requires InCatalogue(a) && InCatalogue(b) && a != b && bus != ""
    ensures Serve([RegisterService(bus, a, []), RegisterService(bus, b, [])]) ==
            System(Running(map[a := FreshInfo(a, []), b := FreshInfo(b, [])]), map[a := bus, b := bus])
  {
    var c1, c2 := [RegisterService(bus, a, [])], [RegisterService(bus, a, []), RegisterService(bus, b, [])];
    assert Translate([]) == [];
    assert Front(c1) == [] && Front(c2) == c1;
    assert Serve(c1) == System(Running(map[a := FreshInfo(a, [])]), map[a := bus]);
  }

  /** Losing that connection fails one of them; the other stays online and watched under the lost name. */
  lemma OneOfTwoIsFailed(a: string, b: string, bus: string)
    requires InCatalogue(a) && InCatalogue(b) && a != b && bus != ""
    ensures var sys := Serve([RegisterService(bus, a, []), RegisterService(bus, b, []), NameOwnerChanged(bus, "", a)]);
            && sys.machine.Running? && a in sys.machine.table && b in sys.machine.table
            && !sys.machine.table[a].online && a !in sys.watch
            && sys.machine.table[b].online && Matches(sys.watch, bus, b)
  {
    var calls := [RegisterService(bus, a, []), RegisterService(bus, b, [])];
    var loss := NameOwnerChanged(bus, "", a);
    TwoOnOneBus(a, b, bus);
    var sys := Serve(calls);
    assert Matches(sys.watch, bus, a);
    assert a != "";
    assert Emits(sys, loss) == Failure(a);
    NextInPolicy(|PolicyFor([])|, 0);
    LivenessStep(sys.machine, Failure(a), a);
    LivenessStep(sys.machine, Failure(a), b);
    assert Front(calls + [loss]) == calls;
    assert calls + [loss] == [RegisterService(bus, a, []), RegisterService(bus, b, []), NameOwnerChanged(bus, "", a)];
  }
}
