/** The decision part of the checker's `main`: reject a missing tracefile,
    a malformed count and a report with no instrumented lines; otherwise
    list the files below `MIN_COVERAGE` in ascending order of coverage and
    pass exactly when the overall coverage reaches `MIN_COVERAGE`.

    Every ratio test of the source (`hit / found * 100 < MIN_COVERAGE`) is
    decided here exactly, by cross multiplication over the integers; the
    lemmas `BelowThresholdIsExact` and `PassedIsExact` tie that back to the
    rational value of the ratio. */
module CoverageCheck {
  import opened LcovLines
  import opened LcovParser
  import opened CoverageOrder

  /** `MIN_COVERAGE = 78.0`, in percent. */
  const MinCoverage: nat := 78

  /** `hit / found * 100 < MIN_COVERAGE`, cross-multiplied. */
  predicate BelowThreshold(hit: nat, found: nat) {
    100 * hit < MinCoverage * found
  }

  /** The condition of the comprehension that builds `below`. */
  predicate IsBelow(x: Record) {
    x.found > 0 && BelowThreshold(x.hit, x.found)
  }

  /** `[(name, hit, found) for name, hit, found in per_file if ...]`. */
  function SelectBelow(perFile: seq<Record>): (below: seq<Record>)
    ensures |below| <= |perFile|
    ensures forall i :: 0 <= i < |below| ==> IsBelow(below[i])
  {
    if perFile == [] then []
    else (if IsBelow(perFile[0]) then [perFile[0]] else []) + SelectBelow(perFile[1..])
  }

  /** The outcome of one run and what it prints, as data. */
  datatype Outcome =
    | ReportMissing                      // "Coverage file not found"
    | MalformedCount(error: ParseError)  // int() raises ValueError
    | NoLinesFound                       // "No lines found in coverage report."
    | Checked(totalHit: nat, totalFound: nat, below: seq<Record>, passed: bool)

  /** The process exit status of an outcome. */
  function ExitStatus(o: Outcome): (code: nat)
    ensures code <= 1
    ensures code == 0 <==> o.Checked? && o.passed
  {
    if o.Checked? && o.passed then 0 else 1
  }

  /** What `main` decides once `parse_lcov` has returned. */
  function Evaluate(p: Parsed): (o: Outcome)
    ensures o.NoLinesFound? <==> p.totalFound == 0
    ensures o.Checked? <==> p.totalFound > 0
    ensures o.Checked? ==> o.totalHit == p.totalHit && o.totalFound == p.totalFound
    ensures o.Checked? ==> (o.passed <==> MinCoverage * p.totalFound <= 100 * p.totalHit)
  {
    if p.totalFound == 0 then NoLinesFound
    else
      var below := SortByKey(SelectBelow(p.perFile));
      Checked(p.totalHit, p.totalFound, below, !BelowThreshold(p.totalHit, p.totalFound))
  }

  /** The integer test is the rational one: for `found > 0`,
      `100 * hit < 78 * found` holds exactly when `hit / found * 100 < 78`. */
  lemma BelowThresholdIsExact(hit: nat, found: nat)
    requires found > 0
    ensures BelowThreshold(hit, found) <==> (hit as real / found as real) * 100.0 < MinCoverage as real
  {
  }

  /** A report with lines passes exactly when its coverage, as a rational
      percentage, is at least `MIN_COVERAGE`; equality passes. */
  lemma PassedIsExact(p: Parsed)
    requires p.totalFound > 0
    ensures Evaluate(p).passed <==>
      (p.totalHit as real / p.totalFound as real) * 100.0 >= MinCoverage as real
    ensures 100 * p.totalHit == MinCoverage * p.totalFound ==> ExitStatus(Evaluate(p)) == 0
  {
    BelowThresholdIsExact(p.totalHit, p.totalFound);
  }

  /** Each record occurs in `below` as often as in `per_file` if it is below
      the threshold (and has lines), and not at all otherwise. */
  lemma {:induction false} SelectBelowCounts(s: seq<Record>, x: Record)
    ensures multiset(SelectBelow(s))[x] == if IsBelow(x) then multiset(s)[x] else 0
  {
    if s != [] {
      SelectBelowCounts(s[1..], x);
      assert s == [s[0]] + s[1..];
    }
  }

  /** Selecting below-threshold records and selecting the records of one
      key commute. */
  lemma {:induction false} SelectBelowWithKey(s: seq<Record>, k: Record)
    ensures WithKeyOf(SelectBelow(s), k) == SelectBelow(WithKeyOf(s, k))
  {
    if s != [] {
      var h := if IsBelow(s[0]) then [s[0]] else [];
      var g := if SameKey(s[0], k) then [s[0]] else [];
      SelectBelowWithKey(s[1..], k);
      WithKeyOfAppend(h, SelectBelow(s[1..]), k);
      SelectBelowAppend(g, WithKeyOf(s[1..], k));
    }
  }

  lemma {:induction false} WithKeyOfAppend(a: seq<Record>, b: seq<Record>, k: Record)
    ensures WithKeyOf(a + b, k) == WithKeyOf(a, k) + WithKeyOf(b, k)
  {
    if a != [] {
      assert (a + b)[1..] == a[1..] + b;
      WithKeyOfAppend(a[1..], b, k);
    } else {
      assert a + b == b;
    }
  }

  lemma {:induction false} SelectBelowAppend(a: seq<Record>, b: seq<Record>)
    ensures SelectBelow(a + b) == SelectBelow(a) + SelectBelow(b)
  {
    if a != [] {
      assert (a + b)[1..] == a[1..] + b;
      SelectBelowAppend(a[1..], b);
    } else {
      assert a + b == b;
    }
  }

  /** The listing of a report with lines: exactly the records with lines
      whose coverage is below the threshold, each as often as in
      `per_file`; in ascending order of coverage; and records of equal
      coverage in their `per_file` order. */
  lemma BelowListing(p: Parsed)
    requires p.totalFound > 0
    ensures var below := Evaluate(p).below;
      && (forall x :: multiset(below)[x] == if IsBelow(x) then multiset(p.perFile)[x] else 0)
      && (forall x :: x in below <==> x in p.perFile && x.found > 0 && 100 * x.hit < MinCoverage * x.found)
      && SortedByKey(below)
      && (forall k :: WithKeyOf(below, k) == SelectBelow(WithKeyOf(p.perFile, k)))
  {
    var sel := SelectBelow(p.perFile);
    var below := Evaluate(p).below;
    assert below == SortByKey(sel);
    SortPermutes(sel);
    SortSorts(sel);
    forall x ensures multiset(below)[x] == if IsBelow(x) then multiset(p.perFile)[x] else 0 {
      SelectBelowCounts(p.perFile, x);
    }
    forall x ensures x in below <==> x in p.perFile && IsBelow(x) {
      SelectBelowCounts(p.perFile, x);
      assert x in below <==> multiset(below)[x] > 0;
      assert x in p.perFile <==> multiset(p.perFile)[x] > 0;
    }
    forall k ensures WithKeyOf(below, k) == SelectBelow(WithKeyOf(p.perFile, k)) {
      SortStable(sel, k);
      SelectBelowWithKey(p.perFile, k);
    }
  }

  /** One run of the checker. `tracefile` is the content of the coverage
      file as lines, or `None` when that path is not a file. */
  method CheckCoverage(tracefile: Option<seq<string>>) returns (o: Outcome, status: nat)
    ensures status == ExitStatus(o)
    ensures tracefile.None? ==> o == ReportMissing
    ensures tracefile.Some? ==>
      var ds := Directives(tracefile.value);
      var records := Closed(ds, |ds|);
      && (!NoBadCount(ds) ==> o.MalformedCount?)
      && (NoBadCount(ds) ==> o == Evaluate(Parsed(SumHit(records), SumFound(records), records)))
    ensures status == 0 <==>
      && tracefile.Some?
      && var ds := Directives(tracefile.value);
      var records := Closed(ds, |ds|);
      && NoBadCount(ds)
      && SumFound(records) > 0
      && MinCoverage * SumFound(records) <= 100 * SumHit(records)
  {
    if tracefile.None? {
      o := ReportMissing;
    } else {
      var r := ParseLcov(tracefile.value);
      match r
      case Err(e) =>
        o := MalformedCount(e);
      case Ok(p) =>
        o := Evaluate(p);
    }
    status := ExitStatus(o);
  }
}
