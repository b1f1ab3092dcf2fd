/** `parse_lcov`: a single forward pass over the lines of an LCOV tracefile
    that closes one per-file record at every `end_of_record` and keeps the
    running totals.

    The records are first described declaratively, by line positions: the
    record closed at an `end_of_record` line takes the last `SF:`, `LF:` and
    `LH:` values seen since the previous `end_of_record` (or since the first
    line), and defaults to the empty name and zero counts. `ParseLcov` is the
    loop of the source, proved to produce exactly these records. */
module LcovParser {
  import opened LcovLines

  /** One `(name, hit, found)` entry of `per_file`. */
  datatype Record = Record(name: string, hit: nat, found: nat)

  /** What `parse_lcov` returns: `(total_hit, total_found, per_file)`. */
  datatype Parsed = Parsed(totalHit: nat, totalFound: nat, perFile: seq<Record>)

  /** The line (index from 0) whose `LF:`/`LH:` payload is not a count, and
      that payload; the source's `int()` raises there. */
  datatype ParseError = ParseError(lineIndex: nat, payload: string)

  datatype Result<T> = Ok(value: T) | Err(error: ParseError)

  /** The three accumulators `current_file`, `file_found`, `file_hit`. */
  datatype Acc = Acc(file: string, found: nat, hit: nat)

  /** What a directive does to the parser's state. */
  datatype Effect = SetsFile | SetsFound | SetsHit | Closes

  predicate Has(d: Directive, e: Effect) {
    match e
    case SetsFile => d.SourceFile?
    case SetsFound => d.LinesFound?
    case SetsHit => d.LinesHit?
    case Closes => d.EndOfRecord?
  }

  /** The tracefile's lines, each read as a directive. */
  function Directives(lines: seq<string>): (ds: seq<Directive>)
    ensures |ds| == |lines|
  {
    if lines == [] then [] else Directives(lines[..|lines| - 1]) + [Classify(lines[|lines| - 1])]
  }

  /** The index of the last line in `[lo, hi)` with effect `e`, or -1 if
      there is none. */
  function LastOf(ds: seq<Directive>, lo: nat, hi: nat, e: Effect): (k: int)
    requires lo <= hi <= |ds|
    ensures k == -1 || (lo <= k < hi && Has(ds[k], e))
    ensures forall j :: lo <= j < hi && k < j ==> !Has(ds[j], e)
    decreases hi
  {
    if hi == lo then -1
    else if Has(ds[hi - 1], e) then hi - 1
    else LastOf(ds, lo, hi - 1, e)
  }

  /** The first line of the record that is open after `ds[..hi]`: the
      line after the last `end_of_record` before `hi`, or 0. */
  function WindowStart(ds: seq<Directive>, hi: nat): (w: nat)
    requires hi <= |ds|
    ensures w <= hi
    ensures w == 0 || ds[w - 1] == EndOfRecord
    ensures forall j :: w <= j < hi ==> ds[j] != EndOfRecord
  {
    LastOf(ds, 0, hi, Closes) + 1
  }

  /** The last `SF:` path in `[lo, hi)`, or "" if there is none. */
  function PathIn(ds: seq<Directive>, lo: nat, hi: nat): string
    requires lo <= hi <= |ds|
  {
    var k := LastOf(ds, lo, hi, SetsFile);
    if k < 0 then "" else ds[k].path
  }

  /** The last `LF:` count in `[lo, hi)`, or 0 if there is none. */
  function FoundIn(ds: seq<Directive>, lo: nat, hi: nat): nat
    requires lo <= hi <= |ds|
  {
    var k := LastOf(ds, lo, hi, SetsFound);
    if k < 0 then 0 else ds[k].found
  }

  /** The last `LH:` count in `[lo, hi)`, or 0 if there is none. */
  function HitIn(ds: seq<Directive>, lo: nat, hi: nat): nat
    requires lo <= hi <= |ds|
  {
    var k := LastOf(ds, lo, hi, SetsHit);
    if k < 0 then 0 else ds[k].hit
  }

  /** The accumulators as they stand after `ds[..hi]`. */
  function OpenAcc(ds: seq<Directive>, hi: nat): Acc
    requires hi <= |ds|
  {
    var w := WindowStart(ds, hi);
    Acc(PathIn(ds, w, hi), FoundIn(ds, w, hi), HitIn(ds, w, hi))
  }

  /** The record closed by the `end_of_record` at line `e`. */
  function RecordAt(ds: seq<Directive>, e: nat): Record
    requires e < |ds| && ds[e] == EndOfRecord
  {
    var a := OpenAcc(ds, e);
    Record(a.file, a.hit, a.found)
  }

  /** The records closed by the `end_of_record` lines among `ds[..hi]`,
      in input order. */
  function Closed(ds: seq<Directive>, hi: nat): seq<Record>
    requires hi <= |ds|
  {
    if hi == 0 then []
    else Closed(ds, hi - 1) + (if ds[hi - 1] == EndOfRecord then [RecordAt(ds, hi - 1)] else [])
  }

  /** The number of `end_of_record` lines among `ds[..hi]`. */
  function EndCount(ds: seq<Directive>, hi: nat): nat
    requires hi <= |ds|
  {
    if hi == 0 then 0 else EndCount(ds, hi - 1) + (if ds[hi - 1] == EndOfRecord then 1 else 0)
  }

  function SumHit(s: seq<Record>): nat {
    if s == [] then 0 else SumHit(s[..|s| - 1]) + s[|s| - 1].hit
  }

  function SumFound(s: seq<Record>): nat {
    if s == [] then 0 else SumFound(s[..|s| - 1]) + s[|s| - 1].found
  }

  predicate NoBadCount(ds: seq<Directive>) {
    forall j :: 0 <= j < |ds| ==> !ds[j].BadCount?
  }

  /** How one directive moves the accumulators: `SF:`, `LF:`, `LH:` each
      overwrite their own accumulator and leave the other two alone,
      `end_of_record` resets all three, and every other line changes nothing. */
  lemma OpenAccStep(ds: seq<Directive>, i: nat)
    requires i < |ds| && !ds[i].BadCount?
    ensures var a := OpenAcc(ds, i);
      OpenAcc(ds, i + 1) ==
        match ds[i]
        case SourceFile(p) => a.(file := p)
        case LinesFound(n) => a.(found := n)
        case LinesHit(n) => a.(hit := n)
        case EndOfRecord => Acc("", 0, 0)
        case Ignored => a
  {
  }

  /** No line in `[lo, hi)` has effect `e`. */
  predicate NoneIn(ds: seq<Directive>, lo: nat, hi: nat, e: Effect)
    requires lo <= hi <= |ds|
  {
    forall m :: lo <= m < hi ==> !Has(ds[m], e)
  }

  /** There is exactly one record per `end_of_record` line. */
  lemma {:induction false} RecordCount(ds: seq<Directive>, hi: nat)
    requires hi <= |ds|
    ensures |Closed(ds, hi)| == EndCount(ds, hi)
  {
    if hi > 0 {
      RecordCount(ds, hi - 1);
    }
  }

  /** An `end_of_record` line closes more records before it than any earlier
      `end_of_record` line does. */
  lemma {:induction false} EndCountIncreases(ds: seq<Directive>, e: nat, hi: nat)
    requires e < hi <= |ds| && ds[e] == EndOfRecord
    ensures EndCount(ds, e) < EndCount(ds, hi)
  {
    if e < hi - 1 {
      EndCountIncreases(ds, e, hi - 1);
    }
  }

  /** The record closed by the `end_of_record` at line `e` sits at position
      "number of earlier `end_of_record` lines": records appear in input
      order. */
  lemma {:induction false} RecordPosition(ds: seq<Directive>, hi: nat, e: nat)
    requires e < hi <= |ds| && ds[e] == EndOfRecord
    ensures EndCount(ds, e) < |Closed(ds, hi)|
    ensures Closed(ds, hi)[EndCount(ds, e)] == RecordAt(ds, e)
  {
    RecordCount(ds, hi);
    EndCountIncreases(ds, e, hi);
    if e == hi - 1 {
      RecordCount(ds, e);
    } else {
      RecordPosition(ds, hi - 1, e);
    }
  }

  /** The last `SF:`, `LF:` and `LH:` line since the previous `end_of_record`
      gives a record its name, found and hit counts; a field that no line
      of the window sets keeps its reset value ("" or 0). */
  lemma RecordFields(ds: seq<Directive>, e: nat)
    requires e < |ds| && ds[e] == EndOfRecord
    ensures var w := WindowStart(ds, e); var rec := RecordAt(ds, e);
      && (NoneIn(ds, w, e, SetsFile) ==> rec.name == "")
      && (NoneIn(ds, w, e, SetsFound) ==> rec.found == 0)
      && (NoneIn(ds, w, e, SetsHit) ==> rec.hit == 0)
      && (forall j :: w <= j < e && ds[j].SourceFile? && NoneIn(ds, j + 1, e, SetsFile) ==> rec.name == ds[j].path)
      && (forall j :: w <= j < e && ds[j].LinesFound? && NoneIn(ds, j + 1, e, SetsFound) ==> rec.found == ds[j].found)
      && (forall j :: w <= j < e && ds[j].LinesHit? && NoneIn(ds, j + 1, e, SetsHit) ==> rec.hit == ds[j].hit)
  {
  }

  lemma {:induction false} ClosedSteady(ds: seq<Directive>, k: nat, hi: nat)
    requires k <= hi <= |ds|
    requires forall j :: k <= j < hi ==> ds[j] != EndOfRecord
    ensures Closed(ds, hi) == Closed(ds, k)
    decreases hi
  {
    if hi > k {
      ClosedSteady(ds, k, hi - 1);
    }
  }

  lemma {:induction false} LastOfFrame(x: seq<Directive>, y: seq<Directive>, lo: nat, hi: nat, e: Effect)
    requires lo <= hi <= |x| && hi <= |y| && x[..hi] == y[..hi]
    ensures LastOf(x, lo, hi, e) == LastOf(y, lo, hi, e)
    decreases hi
  {
    if hi > lo {
      assert x[hi - 1] == x[..hi][hi - 1] == y[..hi][hi - 1] == y[hi - 1];
      assert x[..hi - 1] == x[..hi][..hi - 1];
      assert y[..hi - 1] == y[..hi][..hi - 1];
      LastOfFrame(x, y, lo, hi - 1, e);
    }
  }

  lemma OpenAccFrame(x: seq<Directive>, y: seq<Directive>, hi: nat)
    requires hi <= |x| && hi <= |y| && x[..hi] == y[..hi]
    ensures OpenAcc(x, hi) == OpenAcc(y, hi)
  {
    LastOfFrame(x, y, 0, hi, Closes);
    var w := WindowStart(x, hi);
    LastOfFrame(x, y, w, hi, SetsFile);
    LastOfFrame(x, y, w, hi, SetsFound);
    LastOfFrame(x, y, w, hi, SetsHit);
    forall k | 0 <= k < hi ensures x[k] == y[k] {
      assert x[k] == x[..hi][k];
      assert y[k] == y[..hi][k];
    }
  }

  /** The records closed so far depend only on the lines read so far. */
  lemma {:induction false} ClosedFrame(x: seq<Directive>, y: seq<Directive>, hi: nat)
    requires hi <= |x| && hi <= |y| && x[..hi] == y[..hi]
    ensures Closed(x, hi) == Closed(y, hi)
    decreases hi
  {
    if hi > 0 {
      assert x[hi - 1] == x[..hi][hi - 1] == y[..hi][hi - 1] == y[hi - 1];
      assert x[..hi - 1] == x[..hi][..hi - 1];
      assert y[..hi - 1] == y[..hi][..hi - 1];
      ClosedFrame(x, y, hi - 1);
      OpenAccFrame(x, y, hi - 1);
    }
  }

  /** Directives after the last `end_of_record` contribute nothing: the
      records of `a + b` are those of `a` when `b` closes no record. */
  lemma TrailingDirectivesIgnored(a: seq<Directive>, b: seq<Directive>)
    requires forall j :: 0 <= j < |b| ==> b[j] != EndOfRecord
    ensures Closed(a + b, |a + b|) == Closed(a, |a|)
  {
    var ab := a + b;
    forall j | |a| <= j < |ab| ensures ab[j] != EndOfRecord {
      assert ab[j] == b[j - |a|];
    }
    ClosedSteady(ab, |a|, |ab|);
    assert ab[..|a|] == a[..|a|];
    ClosedFrame(ab, a, |a|);
  }

  /** Each directive is the reading of its own line. */
  lemma {:induction false} DirectiveAt(lines: seq<string>, i: nat)
    requires i < |lines|
    ensures Directives(lines)[i] == Classify(lines[i])
  {
    var init := lines[..|lines| - 1];
    var last := Classify(lines[|lines| - 1]);
    assert Directives(lines) == Directives(init) + [last];
    if i < |lines| - 1 {
      assert (Directives(init) + [last])[i] == Directives(init)[i];
      DirectiveAt(init, i);
      assert init[i] == lines[i];
    }
  }

  /** Conversely, a sequence that holds at each position the directive of
      that line is the directives of the tracefile. */
  lemma DirectivesPointwise(lines: seq<string>, ds: seq<Directive>)
    requires |ds| == |lines|
    requires forall i {:trigger lines[i]} :: 0 <= i < |lines| ==> ds[i] == Classify(lines[i])
    ensures Directives(lines) == ds
  {
    var read := Directives(lines);
    forall i | 0 <= i < |lines| ensures read[i] == ds[i] {
      DirectiveAt(lines, i);
      assert ds[i] == Classify(lines[i]);
    }
  }

  /** The loop of `parse_lcov` over the directives of the tracefile. The
      result is an error exactly when some `LF:`/`LH:` payload is not a
      count, and then names the first such line; otherwise `per_file` holds
      the records closed by the `end_of_record` lines and the totals are
      their sums. */
  method ParseDirectives(ds: seq<Directive>) returns (r: Result<Parsed>)
    ensures r.Ok? <==> NoBadCount(ds)
    ensures r.Err? ==>
      && r.error.lineIndex < |ds|
      && ds[r.error.lineIndex] == BadCount(r.error.payload)
      && forall j :: 0 <= j < r.error.lineIndex ==> !ds[j].BadCount?
    ensures r.Ok? ==> r.value.perFile == Closed(ds, |ds|)
    ensures r.Ok? ==> r.value.totalHit == SumHit(r.value.perFile)
    ensures r.Ok? ==> r.value.totalFound == SumFound(r.value.perFile)
  {
    var totalFound: nat := 0;
    var totalHit: nat := 0;
    var perFile: seq<Record> := [];

    var currentFile := "";
    var fileFound: nat := 0;
    var fileHit: nat := 0;

    for i := 0 to |ds|
      invariant forall j :: 0 <= j < i ==> !ds[j].BadCount?
      invariant perFile == Closed(ds, i)
      invariant Acc(currentFile, fileFound, fileHit) == OpenAcc(ds, i)
      invariant totalHit == SumHit(perFile) && totalFound == SumFound(perFile)
    {
      var d := ds[i];
      if !d.BadCount? {
        OpenAccStep(ds, i);
      }
      match d
      case SourceFile(p) =>
        currentFile := p;
      case LinesFound(n) =>
        fileFound := n;
      case LinesHit(n) =>
        fileHit := n;
      case EndOfRecord =>
        totalFound := totalFound + fileFound;
        totalHit := totalHit + fileHit;
        var rec := Record(currentFile, fileHit, fileFound);
        assert rec == RecordAt(ds, i);
        assert (perFile + [rec])[..|perFile|] == perFile;
        perFile := perFile + [rec];
        currentFile := "";
        fileFound := 0;
        fileHit := 0;
      case BadCount(p) =>
        return Err(ParseError(i, p));
      case Ignored =>
    }
    return Ok(Parsed(totalHit, totalFound, perFile));
  }

  /** `parse_lcov` over the lines of the tracefile: each line is stripped
      and read as a directive (`Classify`), and the directives drive the
      state machine. */
  method ParseLcov(lines: seq<string>) returns (r: Result<Parsed>)
    ensures r.Ok? <==> NoBadCount(Directives(lines))
    ensures r.Err? ==>
      && r.error.lineIndex < |lines|
      && Directives(lines)[r.error.lineIndex] == BadCount(r.error.payload)
      && forall j :: 0 <= j < r.error.lineIndex ==> !Directives(lines)[j].BadCount?
    ensures r.Ok? ==> r.value.perFile == Closed(Directives(lines), |lines|)
    ensures r.Ok? ==> r.value.totalHit == SumHit(r.value.perFile)
    ensures r.Ok? ==> r.value.totalFound == SumFound(r.value.perFile)
  {
    r := ParseDirectives(Directives(lines));
  }
}
