/** The reporter, updated in place (app/console/test/reporter.go). */
module Reporting {
  import opened Wrappers
  import opened TestReport
  import opened ReportTheorems

  class Reporter {
    var passed: nat
    var failed: nat
    var skipped: nat
    var noTests: nat
    var packages: map<string, PackageResults>
    var sections: seq<Section>

    constructor ()
      ensures State() == BLANK
    {
      passed, failed, skipped, noTests := 0, 0, 0, 0;
      packages := map[];
      sections := [];
    }

    function State(): Report
      reads this
    {
      Report(passed, failed, skipped, noTests, packages, sections)
    }

    /** Consumes one event, printing a package's section once its result arrives. */
    method Handle(event: Event)
      modifies this
      ensures State() == TestReport.Handle(old(State()), event)
    {
      if event.test == "" {
        HandlePackage(event);
        return;
      }
      var pkg := PackageResults([], map[]);
      if event.package in packages {
        pkg := packages[event.package];
      }
      if event.test !in pkg.results {
        pkg := PackageResults(pkg.order + [event.test], pkg.results[event.test := None]);
      }
      match event.action {
        case Pass => pkg := pkg.(results := pkg.results[event.test := Some(event.action)]);
        case Fail => pkg := pkg.(results := pkg.results[event.test := Some(event.action)]);
        case Skip => pkg := pkg.(results := pkg.results[event.test := Some(event.action)]);
        case Output =>
        case Other =>
      }
      packages := packages[event.package := pkg];
    }

    method HandlePackage(event: Event)
      requires event.test == ""
      modifies this
      ensures State() == TestReport.Handle(old(State()), event)
    {
      match event.action {
        case Skip => noTests := noTests + 1;
        case Pass => FlushPackage(event.package);
        case Fail => FlushPackage(event.package);
        case Output =>
        case Other =>
      }
    }

    /** Prints one package's results in the order its tests started. */
    method FlushPackage(name: string)
      modifies this
      ensures State() == TestReport.Flush(old(State()), name)
    {
      hide Printed, Count;
      if name !in packages {
        return;
      }
      var pkg := packages[name];
      packages := packages - {name};
      if |pkg.order| == 0 {
        return;
      }
      var lines: seq<Line> := [];
      NothingPrinted(pkg.order, pkg.results);
      for i := 0 to |pkg.order|
        invariant packages == old(packages) - {name} && sections == old(sections) && noTests == old(noTests)
        invariant lines == Printed(pkg.order[..i], pkg.results)
        invariant passed == old(passed) + Count(lines, Pass)
        invariant failed == old(failed) + Count(lines, Fail)
        invariant skipped == old(skipped) + Count(lines, Skip)
      {
        PrintedMore(pkg.order, pkg.results, i);
        var test := pkg.order[i];
        if test in pkg.results && pkg.results[test].Some? {
          var line := Line(test, pkg.results[test].value);
          CountMore(lines, line);
          match line.status {
            case Pass => passed := passed + 1;
            case Fail => failed := failed + 1;
            case Skip => skipped := skipped + 1;
            case Output =>
            case Other =>
          }
          lines := lines + [line];
        }
      }
      assert pkg.order[..|pkg.order|] == pkg.order;
      sections := sections + [Section(name, lines)];
    }

    /** Flushes what is still held, in whatever order the map yields it, and tells whether no test
        failed. */
    method Summary() returns (ok: bool, ghost order: seq<string>)
      modifies this
      ensures ListsHeld(order, old(State()))
      ensures State() == FlushAll(old(State()), order)
      ensures ok == (State().failed == 0)
    {
      hide TestReport.Flush;
      order := [];
      var names := packages.Keys;
      while names != {}
        invariant names == packages.Keys && names <= old(packages).Keys
        invariant forall package :: package in old(packages) <==> package in order || package in names
        invariant State() == FlushAll(old(State()), order)
        decreases |names|
      {
        var name :| name in names;
        FlushedMore(old(State()), order, name);
        FlushTakes(State(), name);
        FlushPackage(name);
        order := order + [name];
        names := names - {name};
      }
      ok := failed == 0;
    }
  }

  lemma NothingPrinted(order: seq<string>, results: map<string, Option<Action>>)
    ensures Printed(order[..0], results) == [] && Count([], Pass) == 0 && Count([], Fail) == 0 && Count([], Skip) == 0
  {}

  lemma {:induction false} PrintedJoins(first: seq<string>, second: seq<string>, results: map<string, Option<Action>>)
    ensures Printed(first + second, results) == Printed(first, results) + Printed(second, results)
    decreases |first|
  {
    if first == [] {
      assert first + second == second;
    } else {
      assert (first + second)[1..] == first[1..] + second;
      PrintedJoins(first[1..], second, results);
    }
  }

  lemma PrintedMore(order: seq<string>, results: map<string, Option<Action>>, i: nat)
    requires i < |order|
    ensures Printed(order[..i + 1], results) == Printed(order[..i], results)
      + if order[i] in results && results[order[i]].Some? then [Line(order[i], results[order[i]].value)] else []
  {
    assert order[..i + 1] == order[..i] + [order[i]];
    PrintedJoins(order[..i], [order[i]], results);
    assert [order[i]][1..] == [];
  }

  lemma {:induction false} CountJoins(lines: seq<Line>, line: Line, status: Action)
    ensures Count(lines + [line], status) == Count(lines, status) + if line.status == status then 1 else 0
    decreases |lines|
  {
    if lines == [] {
      assert lines + [line] == [line] && [line][1..] == [];
    } else {
      assert (lines + [line])[1..] == lines[1..] + [line];
      CountJoins(lines[1..], line, status);
    }
  }

  lemma CountMore(lines: seq<Line>, line: Line)
    ensures forall status ::
      Count(lines + [line], status) == Count(lines, status) + if line.status == status then 1 else 0
  {
    forall status
      ensures Count(lines + [line], status) == Count(lines, status) + if line.status == status then 1 else 0
    {
      CountJoins(lines, line, status);
    }
  }

  lemma {:induction false} FlushedMore(report: Report, order: seq<string>, name: string)
    ensures FlushAll(report, order + [name]) == TestReport.Flush(FlushAll(report, order), name)
    decreases |order|
  {
    hide TestReport.Flush;
    if order == [] {
      assert order + [name] == [name] && [name][1..] == [];
    } else {
      assert (order + [name])[1..] == order[1..] + [name];
      FlushedMore(TestReport.Flush(report, order[0]), order[1..], name);
    }
  }

  lemma FlushTakes(report: Report, name: string)
    ensures TestReport.Flush(report, name).packages.Keys == report.packages.Keys - {name}
  {
    hide Printed, Count;
  }
}
