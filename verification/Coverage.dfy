/**
 Aggregation of line coverage: parsed per-object records are merged, file by
 file, in whatever order the directory listing yields them.
 */
module Coverage {
  import opened Common

  /** Line number to hit count; lines that are not executable are absent. */
  type Lines = map<int, int>

  datatype Parsed = Parsed(path: string, lines: Lines)

  function Hits(lines: Lines, ln: int): int
  {
    if ln in lines then lines[ln] else 0
  }

  function Merged(a: Lines, b: Lines): Lines
  {
    map ln | ln in a.Keys + b.Keys :: Hits(a, ln) + Hits(b, ln)
  }

  function CoveredLines(lines: Lines): set<int>
  {
    set ln | ln in lines && lines[ln] > 0
  }

  class FileCoverage {
    const path: string
    var lines: map<int, int>

    constructor (path: string, lines: Lines)
      ensures this.path == path && this.lines == lines
    {
      this.path, this.lines := path, lines;
    }

    /** Adds the other record's hits line by line; the two may be the same object. */
    method Merge(other: FileCoverage)
      modifies this
      ensures lines == Merged(old(lines), old(other.lines))
    {
      var rest := other.lines.Keys;
      ghost var mine, theirs := lines, other.lines;
      while rest != {}
        invariant rest <= theirs.Keys && rest <= other.lines.Keys
        invariant forall ln | ln in rest :: other.lines[ln] == theirs[ln]
        invariant lines.Keys == mine.Keys + (theirs.Keys - rest)
        invariant forall ln | ln in lines ::
                    lines[ln] == if ln in theirs && ln !in rest then Hits(mine, ln) + theirs[ln] else mine[ln]
        decreases rest
      {
        assert (forall ln :: ln !in rest) ==> rest == {};
        var ln :| ln in rest;
        lines := lines[ln := (if ln in lines then lines[ln] else 0) + other.lines[ln]];
        rest := rest - {ln};
      }
    }

    /** The number of executable lines. */
    function Total(): (n: nat)
      reads this
      ensures n == |set ln | ln in lines|
    {
      assert (set ln | ln in lines) == lines.Keys;
      |lines|
    }

    /** The number of lines hit at least once. */
    function Covered(): (n: nat)
      reads this
      ensures n == |set ln | ln in lines && lines[ln] > 0|
    {
      |CoveredLines(lines)|
    }

    /** Over the reals; the original rounds to double precision. */
    function Percent(): (p: real)
      reads this
      ensures lines != map[] ==> p * |lines| as real == 100.0 * |set ln | ln in lines && lines[ln] > 0| as real
      ensures 0.0 <= p <= 100.0
      ensures p == 100.0 <==> lines != map[] && CoveredLines(lines) == lines.Keys
      ensures p == 0.0 <==> CoveredLines(lines) == {}
    {
      PercentRange(lines);
      if Total() != 0 then Covered() as real * 100.0 / Total() as real else 0.0
    }
  }

  lemma PercentRange(lines: Lines)
    ensures |CoveredLines(lines)| <= |lines|
    ensures |CoveredLines(lines)| == |lines| <==> CoveredLines(lines) == lines.Keys
    ensures |lines| != 0 ==>
              var p := |CoveredLines(lines)| as real * 100.0 / |lines| as real;
              && 0.0 <= p <= 100.0
              && (p == 100.0 <==> |CoveredLines(lines)| == |lines|)
              && (p == 0.0 <==> |CoveredLines(lines)| == 0)
  {
    var c := CoveredLines(lines);
    assert |lines.Keys| == |c| + |lines.Keys - c|;
    if |lines| != 0 {
      Ratio(|c| as real, |lines| as real);
    }
  }

  lemma Ratio(a: real, b: real)
    requires 0.0 <= a <= b && b > 0.0
    ensures 0.0 <= a * 100.0 / b <= 100.0
    ensures a * 100.0 / b == 100.0 <==> a == b
    ensures a * 100.0 / b == 0.0 <==> a == 0.0
  {
  }

  // -------------------- aggregation --------------------

  /** The parsed records inside the source tree; files without a source header parse to nothing. */
  function Kept(parsed: seq<Option<Parsed>>, inTree: string -> bool): seq<Parsed>
  {
    if parsed == [] then [] else
    Kept(Front(parsed), inTree) + KeptOf(Last(parsed), inTree)
  }

  function KeptOf(file: Option<Parsed>, inTree: string -> bool): seq<Parsed>
  {
    match file
    case Some(r) => if inTree(r.path) then [r] else []
    case None => []
  }

  /** All lines of one file, merged in the order given. */
  function Aggregate(records: seq<Parsed>, path: string): Lines
  {
    if records == [] then map[]
    else if Last(records).path == path then Merged(Aggregate(Front(records), path), Last(records).lines)
    else Aggregate(Front(records), path)
  }

  ghost predicate Present(records: seq<Parsed>, path: string)
  {
    exists r :: r in records && r.path == path
  }

  /** The dictionary holds, for every file of the records, one object with their merged lines. */
  ghost predicate Holds(coverage: map<string, FileCoverage>, records: seq<Parsed>)
    reads coverage.Values
  {
    && (forall p :: p in coverage <==> Present(records, p))
    && (forall p | p in coverage :: coverage[p].path == p && coverage[p].lines == Aggregate(records, p))
  }

  /** One round of the loop: store the first record of a file, merge a later one into the object stored. */
  method AddRecord(coverage: map<string, FileCoverage>, r: Parsed, ghost records: seq<Parsed>)
    returns (coverage': map<string, FileCoverage>)
    requires Holds(coverage, records)
    modifies coverage.Values
    ensures Holds(coverage', records + [r])
    ensures fresh(coverage'.Values - coverage.Values)
  {
    KeptOneMore(records, r);
    var fc := new FileCoverage(r.path, r.lines);
    coverage' := coverage;
    if fc.path !in coverage {
      coverage' := coverage[fc.path := fc];
    } else {
      assert coverage[fc.path] in coverage.Values;
      coverage[fc.path].Merge(fc);
    }
  }

  /** The dictionary loop over the parsed files, skipping those without a header or outside the tree. */
  method CollectCoverage(parsed: seq<Option<Parsed>>, inTree: string -> bool)
    returns (coverage: map<string, FileCoverage>)
    ensures fresh(coverage.Values)
    ensures Holds(coverage, Kept(parsed, inTree))
  {
    coverage := map[];
    for i := 0 to |parsed|
      invariant fresh(coverage.Values)
      invariant Holds(coverage, Kept(parsed[..i], inTree))
    {
      assert Front(parsed[..i + 1]) == parsed[..i];
      assert Last(parsed[..i + 1]) == parsed[i];
      ghost var records := Kept(parsed[..i], inTree);
      assert records + [] == records;
      if parsed[i].Some? {
        var r := parsed[i].value;
        if inTree(r.path) {
          coverage := AddRecord(coverage, r, records);
        }
      }
    }
    assert parsed[..|parsed|] == parsed;
  }

  lemma KeptOneMore(records: seq<Parsed>, r: Parsed)
    ensures forall p :: Present(records + [r], p) <==> Present(records, p) || p == r.path
    ensures forall p :: Aggregate(records + [r], p) ==
              if p == r.path then Merged(Aggregate(records, p), r.lines) else Aggregate(records, p)
    ensures !Present(records, r.path) ==> Merged(Aggregate(records, r.path), r.lines) == r.lines
  {
    assert Front(records + [r]) == records;
    forall p ensures Present(records + [r], p) <==> Present(records, p) || p == r.path {
      if p == r.path {
        assert r in records + [r];
      }
    }
    if !Present(records, r.path) {
      AbsentIsEmpty(records, r.path);
    }
  }

  lemma {:induction false} AbsentIsEmpty(records: seq<Parsed>, path: string)
    requires !Present(records, path)
    ensures Aggregate(records, path) == map[]
  {
    if records != [] {
      assert Last(records) in records;
      assert forall r | r in Front(records) :: r in records;
      AbsentIsEmpty(Front(records), path);
    }
  }

  // -------------------- order does not matter --------------------

  function Share(r: Parsed, path: string, ln: int): int
  {
    if r.path == path then Hits(r.lines, ln) else 0
  }

  /** The sum of the hits that the records of one file give to one line. */
  function HitSum(records: seq<Parsed>, path: string, ln: int): int
  {
    if records == [] then 0 else HitSum(Front(records), path, ln) + Share(Last(records), path, ln)
  }

  ghost predicate Executable(records: seq<Parsed>, path: string, ln: int)
  {
    exists r :: r in records && r.path == path && ln in r.lines
  }

  /** Merging gives the pointwise sum over exactly the lines that some record lists. */
  lemma {:induction false} AggregateIsSum(records: seq<Parsed>, path: string, ln: int)
    ensures ln in Aggregate(records, path) <==> Executable(records, path, ln)
    ensures Hits(Aggregate(records, path), ln) == HitSum(records, path, ln)
  {
    if records != [] {
      var front, last := Front(records), Last(records);
      AggregateIsSum(front, path, ln);
      assert forall r :: r in records <==> r in front || r == last;
      if Executable(front, path, ln) {
        var r :| r in front && r.path == path && ln in r.lines;
        assert r in records;
      }
    }
  }

  lemma {:induction false} SumWithout(records: seq<Parsed>, i: nat, path: string, ln: int)
    requires i < |records|
    ensures HitSum(records, path, ln) ==
            HitSum(records[..i] + records[i + 1..], path, ln) + Share(records[i], path, ln)
  {
    var rest := records[..i] + records[i + 1..];
    if i == |records| - 1 {
      assert rest == Front(records);
    } else {
      SumWithout(Front(records), i, path, ln);
      assert Front(rest) == Front(records)[..i] + Front(records)[i + 1..];
      assert Last(rest) == Last(records);
    }
  }

  lemma TakeOut<T>(b: seq<T>, i: nat)
    requires i < |b|
    ensures multiset(b) == multiset(b[..i] + b[i + 1..]) + multiset{b[i]}
  {
    assert b == b[..i] + [b[i]] + b[i + 1..];
  }

  lemma MultisetWithout<T>(a: seq<T>, b: seq<T>, i: nat)
    requires a != [] && multiset(a) == multiset(b) && i < |b| && b[i] == Last(a)
    ensures multiset(Front(a)) == multiset(b[..i] + b[i + 1..])
  {
    TakeOut(a, |a| - 1);
    assert a[..|a| - 1] + a[|a|..] == Front(a);
    TakeOut(b, i);
    Cancel(multiset(Front(a)), multiset(b[..i] + b[i + 1..]), b[i]);
  }

  lemma Cancel<T>(m: multiset<T>, n: multiset<T>, x: T)
    requires m + multiset{x} == n + multiset{x}
    ensures m == n
  {
    assert m == m + multiset{x} - multiset{x};
    assert n == n + multiset{x} - multiset{x};
  }

  lemma {:induction false} SumIsPermutable(a: seq<Parsed>, b: seq<Parsed>, path: string, ln: int)
    requires multiset(a) == multiset(b)
    ensures HitSum(a, path, ln) == HitSum(b, path, ln)
  {
    if a == [] {
      assert |multiset(b)| == 0;
    } else {
      assert Last(a) in multiset(a);
      var i :| 0 <= i < |b| && b[i] == Last(a);
      SumWithout(b, i, path, ln);
      MultisetWithout(a, b, i);
      SumIsPermutable(Front(a), b[..i] + b[i + 1..], path, ln);
    }
  }

  lemma SameMembers<T>(a: seq<T>, b: seq<T>)
    requires multiset(a) == multiset(b)
    ensures forall x :: x in a <==> x in b
  {
    assert forall x :: x in a <==> x in multiset(a);
    assert forall x :: x in b <==> x in multiset(b);
  }

  /** Every listing order of the same records gives every file the same lines and hits. */
  lemma OrderIrrelevant(a: seq<Parsed>, b: seq<Parsed>, path: string)
    requires multiset(a) == multiset(b)
    ensures Aggregate(a, path) == Aggregate(b, path)
  {
    SameMembers(a, b);
    var x, y := Aggregate(a, path), Aggregate(b, path);
    forall ln: int ensures ln in x.Keys <==> ln in y.Keys {
      AggregateIsSum(a, path, ln);
      AggregateIsSum(b, path, ln);
    }
    forall ln | ln in x ensures x[ln] == y[ln] {
      AggregateIsSum(a, path, ln);
      AggregateIsSum(b, path, ln);
      SumIsPermutable(a, b, path, ln);
    }
  }

  lemma CountLast<T>(s: seq<T>, x: T)
    requires s != []
    ensures multiset(s)[x] == multiset(Front(s))[x] + if Last(s) == x then 1 else 0
  {
    assert s == Front(s) + [Last(s)];
  }

  lemma KeptStep(parsed: seq<Option<Parsed>>, inTree: string -> bool)
    requires parsed != []
    ensures var kept, before := Kept(parsed, inTree), Kept(Front(parsed), inTree);
            if Last(parsed).Some? && inTree(Last(parsed).value.path)
            then kept != [] && Front(kept) == before && Last(kept) == Last(parsed).value
            else kept == before
  {
  }

  lemma {:induction false} KeptIsPointwise(parsed: seq<Option<Parsed>>, inTree: string -> bool, r: Parsed)
    ensures multiset(Kept(parsed, inTree))[r] == if inTree(r.path) then multiset(parsed)[Some(r)] else 0
  {
    if parsed != [] {
      KeptIsPointwise(Front(parsed), inTree, r);
      KeptStep(parsed, inTree);
      CountLast(parsed, Some(r));
      if Last(parsed).Some? && inTree(Last(parsed).value.path) {
        CountLast(Kept(parsed, inTree), r);
      }
    }
  }

  /** Two listings of the same parsed files keep the same records. */
  lemma KeptIsPermutable(a: seq<Option<Parsed>>, b: seq<Option<Parsed>>, inTree: string -> bool)
    requires multiset(a) == multiset(b)
    ensures multiset(Kept(a, inTree)) == multiset(Kept(b, inTree))
  {
    forall r ensures multiset(Kept(a, inTree))[r] == multiset(Kept(b, inTree))[r] {
      KeptIsPointwise(a, inTree, r);
      KeptIsPointwise(b, inTree, r);
    }
  }

  /** Any two dictionaries collected from listings of the same files have the same files, lines and hits. */
  lemma ListingOrderIrrelevant(a: seq<Option<Parsed>>, b: seq<Option<Parsed>>, inTree: string -> bool,
                               x: map<string, FileCoverage>, y: map<string, FileCoverage>)
    requires multiset(a) == multiset(b)
    requires Holds(x, Kept(a, inTree)) && Holds(y, Kept(b, inTree))
    ensures x.Keys == y.Keys
    ensures forall p | p in x :: x[p].path == y[p].path && x[p].lines == y[p].lines
  {
    KeptIsPermutable(a, b, inTree);
    SameMembers(Kept(a, inTree), Kept(b, inTree));
    forall p ensures Aggregate(Kept(a, inTree), p) == Aggregate(Kept(b, inTree), p) {
      OrderIrrelevant(Kept(a, inTree), Kept(b, inTree), p);
    }
    assert forall p :: Present(Kept(a, inTree), p) <==> Present(Kept(b, inTree), p);
  }

  /** With non-negative counts, a line is covered exactly when some record covers it. */
  lemma CoveredIff(records: seq<Parsed>, path: string, ln: int)
    requires forall r, l | r in records && l in r.lines :: r.lines[l] >= 0
    ensures ln in CoveredLines(Aggregate(records, path)) <==>
            exists r :: r in records && r.path == path && ln in r.lines && r.lines[ln] > 0
  {
    AggregateIsSum(records, path, ln);
    SumPositiveIff(records, path, ln);
    assert forall r :: Share(r, path, ln) > 0 <==> r.path == path && ln in r.lines && r.lines[ln] > 0;
  }

  lemma {:induction false} SumPositiveIff(records: seq<Parsed>, path: string, ln: int)
    requires forall r, l | r in records && l in r.lines :: r.lines[l] >= 0
    ensures HitSum(records, path, ln) >= 0
    ensures HitSum(records, path, ln) > 0 <==> exists r :: r in records && Share(r, path, ln) > 0
  {
    if records != [] {
      assert forall r :: r in records <==> r in Front(records) || r == Last(records);
      SumPositiveIff(Front(records), path, ln);
    }
  }
}
