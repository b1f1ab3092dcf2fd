/** Worked examples of the checker's behaviour, stated on the directives
    the tracefile's lines read as (see `LcovLines.ClassifyRender`). */
module CoverageScenarios {
  import opened LcovLines
  import opened LcovParser
  import opened CoverageOrder
  import opened CoverageCheck

  /** The directives of `SF:<name>`, `LF:<found>`, `LH:<hit>`, `end_of_record`. */
  function Block(name: string, found: nat, hit: nat): seq<Directive> {
    [SourceFile(name), LinesFound(found), LinesHit(hit), EndOfRecord]
  }

  /** A block closes one record with its name and counts. */
  lemma BlockRecord(name: string, found: nat, hit: nat)
    ensures Closed(Block(name, found, hit), 4) == [Record(name, hit, found)]
  {
    var ds := Block(name, found, hit);
    ClosedSteady(ds, 0, 3);
    RecordFields(ds, 3);
    assert NoneIn(ds, 1, 3, SetsFile) && NoneIn(ds, 2, 3, SetsFound) && NoneIn(ds, 3, 3, SetsHit);
  }

  /** Two blocks in a row close two records, in order. */
  lemma TwoBlockRecords(n1: string, f1: nat, h1: nat, n2: string, f2: nat, h2: nat)
    ensures var ds := Block(n1, f1, h1) + Block(n2, f2, h2);
      Closed(ds, |ds|) == [Record(n1, h1, f1), Record(n2, h2, f2)]
  {
    var ds := Block(n1, f1, h1) + Block(n2, f2, h2);
    assert ds[..4] == Block(n1, f1, h1);
    BlockRecord(n1, f1, h1);
    ClosedFrame(ds, Block(n1, f1, h1), 4);
    ClosedSteady(ds, 4, 7);
    assert WindowStart(ds, 7) == 4;
    RecordFields(ds, 7);
    assert NoneIn(ds, 5, 7, SetsFile) && NoneIn(ds, 6, 7, SetsFound) && NoneIn(ds, 7, 7, SetsHit);
  }

  /** A tracefile of four lines reads line by line. */
  lemma FourLines(a: string, b: string, c: string, d: string)
    ensures Directives([a, b, c, d]) == [Classify(a), Classify(b), Classify(c), Classify(d)]
  {
    var lines := [a, b, c, d];
    DirectivesPointwise(lines, [Classify(a), Classify(b), Classify(c), Classify(d)]);
  }

  /** The line `SF:a.dart` names the source file `a.dart`. */
  lemma ReadSourceFileLine()
    ensures Classify("SF:a.dart") == SourceFile("a.dart")
  {
    var d := SourceFile("a.dart");
    assert [] + Render(d) + [] == "SF:a.dart";
    ClassifyRender([], d, []);
  }

  /** The line `LF:10` counts 10 instrumented lines. */
  lemma ReadLinesFoundLine()
    ensures Classify("LF:10") == LinesFound(10)
  {
    var d := LinesFound(10);
    assert Decimal(1) == "1";
    assert Decimal(10) == "10";
    assert [] + Render(d) + [] == "LF:10";
    ClassifyRender([], d, []);
  }

  /** The line `LH:8` counts 8 hit lines. */
  lemma ReadLinesHitLine()
    ensures Classify("LH:8") == LinesHit(8)
  {
    var d := LinesHit(8);
    assert Decimal(8) == "8";
    assert [] + Render(d) + [] == "LH:8";
    ClassifyRender([], d, []);
  }

  /** The line `end_of_record` closes the record. */
  lemma ReadEndOfRecordLine()
    ensures Classify("end_of_record") == EndOfRecord
  {
    assert [] + Render(EndOfRecord) + [] == "end_of_record";
    ClassifyRender([], EndOfRecord, []);
  }

  /** The four text lines of a tracefile for `a.dart` read as one block. */
  lemma ReadSingleFileTracefile()
    ensures Directives(["SF:a.dart", "LF:10", "LH:8", "end_of_record"]) == Block("a.dart", 10, 8)
  {
    ReadSourceFileLine();
    ReadLinesFoundLine();
    ReadLinesHitLine();
    ReadEndOfRecordLine();
    FourLines("SF:a.dart", "LF:10", "LH:8", "end_of_record");
  }

  /** One record `a.dart` with 8 of 10 lines hit: 80% overall, nothing
      listed, pass. */
  lemma ScenarioSingleFilePasses()
    ensures var ds := Block("a.dart", 10, 8);
      var records := Closed(ds, |ds|);
      && records == [Record("a.dart", 8, 10)]
      && Evaluate(Parsed(SumHit(records), SumFound(records), records)) == Checked(8, 10, [], true)
  {
    BlockRecord("a.dart", 10, 8);
    var records := [Record("a.dart", 8, 10)];
    assert records[..0] == [] && records[1..] == [];
    assert SumHit(records) == SumHit(records[..0]) + 8;
    assert SumFound(records) == SumFound(records[..0]) + 10;
    assert SelectBelow(records) == [] + SelectBelow([]);
  }

  /** `a.dart` at 4/10 and `b.dart` at 9/10: 13/20 = 65% overall, only
      `a.dart` listed, fail. */
  lemma ScenarioTwoFilesFails()
    ensures var ds := Block("a.dart", 10, 4) + Block("b.dart", 10, 9);
      var records := Closed(ds, |ds|);
      && records == [Record("a.dart", 4, 10), Record("b.dart", 9, 10)]
      && Evaluate(Parsed(SumHit(records), SumFound(records), records)) == Checked(13, 20, [Record("a.dart", 4, 10)], false)
  {
    TwoBlockRecords("a.dart", 10, 4, "b.dart", 10, 9);
    var a, b := Record("a.dart", 4, 10), Record("b.dart", 9, 10);
    var records := [a, b];
    assert records[..1] == [a] && [a][..0] == [];
    assert SumHit(records) == SumHit([a]) + 9 && SumHit([a]) == SumHit([a][..0]) + 4;
    assert SumFound(records) == SumFound([a]) + 10 && SumFound([a]) == SumFound([a][..0]) + 10;
    assert IsBelow(a) && !IsBelow(b);
    assert records[1..] == [b] && [b][1..] == [];
    assert SelectBelow([b]) == [] + SelectBelow([]);
    assert SelectBelow(records) == [a] + SelectBelow([b]);
    assert SortByKey([a]) == Insert(a, SortByKey([]));
  }

  /** A tracefile that closes no record has no lines: the check fails with
      exit status 1. */
  lemma NoRecordMeansNoLines(ds: seq<Directive>)
    requires forall j :: 0 <= j < |ds| ==> ds[j] != EndOfRecord
    ensures var records := Closed(ds, |ds|);
      && records == []
      && var o := Evaluate(Parsed(SumHit(records), SumFound(records), records));
      o == NoLinesFound && ExitStatus(o) == 1
  {
    ClosedSteady(ds, 0, |ds|);
  }
}
