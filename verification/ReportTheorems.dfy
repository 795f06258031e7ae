/** The reporter against the events: every interleaving reports every test once. */
module ReportTheorems {
  import opened Wrappers
  import opened TestReport

  // ---------- one event more

  lemma SeenMore(events: seq<Event>, event: Event, package: string)
    ensures FirstSeen(events + [event], package) ==
      if event.package == package && event.test != "" && event.test !in FirstSeen(events, package)
      then FirstSeen(events, package) + [event.test] else FirstSeen(events, package)
  {
    assert (events + [event])[..|events|] == events;
  }

  lemma StatusMore(events: seq<Event>, event: Event, package: string, test: string)
    ensures LastStatus(events + [event], package, test) ==
      if event.package == package && event.test == test && Terminal(event.action) then Some(event.action)
      else LastStatus(events, package, test)
  {
    assert (events + [event])[..|events|] == events;
  }

  /** An event that ends a test with a status: a pass, a fail or a skip. */
  predicate Ends(event: Event, package: string, test: string, status: Action) {
    && event.package == package && event.test == test && event.action == status
    && (status == Pass || status == Fail || status == Skip)
  }

  /** The event ends the test, and no later one does. */
  ghost predicate EndsLast(events: seq<Event>, i: int, package: string, test: string, status: Action) {
    && 0 <= i < |events| && Ends(events[i], package, test, status)
    && forall k :: i < k < |events| ==> !Ends(events[k], package, test, events[k].action)
  }

  /** A test's status is the one its last pass, fail or skip gave it; without any it has none. */
  lemma {:induction false} StatusIsTheLast(events: seq<Event>, package: string, test: string, status: Action)
    ensures LastStatus(events, package, test) == Some(status)
       <==> exists i :: EndsLast(events, i, package, test, status)
    decreases |events|
  {
    if events != [] {
      var last, event := |events| - 1, events[|events| - 1];
      var earlier := events[..last];
      StatusIsTheLast(earlier, package, test, status);
      if Ends(event, package, test, event.action) {
        assert event.action == status ==> EndsLast(events, last, package, test, status);
      } else {
        if i :| EndsLast(earlier, i, package, test, status) {
          assert earlier[i] == events[i] && forall k :: i < k < last ==> events[k] == earlier[k];
          assert EndsLast(events, i, package, test, status);
        }
        if i :| EndsLast(events, i, package, test, status) {
          assert i < last && forall k :: 0 <= k < last ==> earlier[k] == events[k];
          assert EndsLast(earlier, i, package, test, status);
        }
      }
    }
  }

  /** A test was seen exactly when some event of the package names it. */
  lemma {:induction false} SeenMeansNamed(events: seq<Event>, package: string, test: string)
    ensures test in FirstSeen(events, package)
       <==> test != "" && exists i :: 0 <= i < |events| && events[i].package == package && events[i].test == test
    decreases |events|
  {
    if events != [] {
      var earlier, last := events[..|events| - 1], events[|events| - 1];
      SeenMeansNamed(earlier, package, test);
      if i :| 0 <= i < |events| && events[i].package == package && events[i].test == test {
        assert i < |earlier| ==> earlier[i].package == package && earlier[i].test == test;
      }
    }
  }

  lemma {:induction false} SeenOnce(events: seq<Event>, package: string)
    ensures forall i, j :: 0 <= i < j < |FirstSeen(events, package)| ==>
      FirstSeen(events, package)[i] != FirstSeen(events, package)[j]
    decreases |events|
  {
    if events != [] {
      SeenOnce(events[..|events| - 1], package);
    }
  }

  predicate Names(event: Event, package: string, test: string) {
    event.package == package && event.test == test
  }

  /** One test has an event before the other has any. */
  ghost predicate StartsBefore(events: seq<Event>, package: string, first: string, second: string) {
    exists m :: 0 <= m < |events| && Names(events[m], package, first)
             && forall k :: 0 <= k <= m ==> !Names(events[k], package, second)
  }

  lemma {:induction false} SeenInOrder(events: seq<Event>, package: string, a: nat, b: nat)
    requires a < b < |FirstSeen(events, package)|
    ensures StartsBefore(events, package, FirstSeen(events, package)[a], FirstSeen(events, package)[b])
    decreases |events|
  {
    var earlier, seen := events[..|events| - 1], FirstSeen(events, package);
    var before := FirstSeen(earlier, package);
    assert seen[a] == before[a];
    if b < |before| {
      SeenInOrder(earlier, package, a, b);
      var m :| 0 <= m < |earlier| && Names(earlier[m], package, before[a])
            && forall k :: 0 <= k <= m ==> !Names(earlier[k], package, before[b]);
      assert forall k :: 0 <= k <= m ==> events[k] == earlier[k];
    } else {
      SeenMeansNamed(earlier, package, seen[a]);
      SeenMeansNamed(earlier, package, seen[b]);
      var m :| 0 <= m < |earlier| && earlier[m].package == package && earlier[m].test == seen[a];
      assert forall k :: 0 <= k <= m ==> events[k] == earlier[k];
    }
  }

  /** Lines stand in the order of the tests they are for. */
  lemma {:induction false} LinesInOrder(tests: seq<string>, events: seq<Event>, package: string, a: nat, b: nat)
    returns (i: nat, j: nat)
    requires a < b < |LinesFor(tests, events, package)|
    ensures i < j < |tests|
    ensures tests[i] == LinesFor(tests, events, package)[a].test && tests[j] == LinesFor(tests, events, package)[b].test
    decreases |tests|
  {
    hide LastStatus;
    var rest := LinesFor(tests[1..], events, package);
    if LastStatus(events, package, tests[0]).None? {
      i, j := LinesInOrder(tests[1..], events, package, a, b);
      i, j := i + 1, j + 1;
    } else if a > 0 {
      i, j := LinesInOrder(tests[1..], events, package, a - 1, b - 1);
      i, j := i + 1, j + 1;
    } else {
      LinesForMeans(tests[1..], events, package, rest[b - 1]);
      var k :| 0 <= k < |tests[1..]| && tests[1..][k] == rest[b - 1].test;
      i, j := 0, k + 1;
    }
  }

  lemma {:induction false} SameLines(tests: seq<string>, events: seq<Event>, more: seq<Event>, package: string)
    requires forall test :: test in tests ==> LastStatus(more, package, test) == LastStatus(events, package, test)
    ensures LinesFor(tests, more, package) == LinesFor(tests, events, package)
    decreases |tests|
  {
    hide LastStatus;
    if tests != [] {
      SameLines(tests[1..], events, more, package);
    }
  }

  /** An event of another package, or of no test, leaves a package's section alone. */
  lemma SectionUntouched(events: seq<Event>, event: Event, package: string)
    requires event.package != package || event.test == ""
    ensures SectionFor(events + [event], package) == SectionFor(events, package)
    ensures FirstSeen(events + [event], package) == FirstSeen(events, package)
  {
    hide FirstSeen, LastStatus;
    SeenMore(events, event, package);
    forall test | test in FirstSeen(events, package)
      ensures LastStatus(events + [event], package, test) == LastStatus(events, package, test)
    {
      StatusMore(events, event, package, test);
      SeenMeansNamed(events, package, test);
    }
    SameLines(FirstSeen(events, package), events, events + [event], package);
  }

  // ---------- what the reporter holds

  ghost predicate Matches(results: PackageResults, events: seq<Event>, package: string) {
    && results.order == FirstSeen(events, package)
    && (forall test :: test in results.results <==> test in results.order)
    && (forall test :: test in results.results ==> results.results[test] == LastStatus(events, package, test))
  }

  /** One section for each package that is done and had tests. */
  ghost predicate Sectioned(sections: seq<Section>, events: seq<Event>, done: set<string>) {
    && (forall i :: 0 <= i < |sections| ==>
          && sections[i].package in done
          && FirstSeen(events, sections[i].package) != []
          && sections[i] == SectionFor(events, sections[i].package))
    && (forall i, j :: 0 <= i < j < |sections| ==> sections[i].package != sections[j].package)
    && (forall package :: package in done && FirstSeen(events, package) != [] ==>
          exists i :: 0 <= i < |sections| && sections[i].package == package)
  }

  function CountAll(sections: seq<Section>, status: Action): nat {
    if sections == [] then 0
    else
      var last := |sections| - 1;
      CountAll(sections[..last], status) + Count(sections[last].lines, status)
  }

  ghost predicate Held(report: Report, events: seq<Event>, package: string) {
    && (package in report.packages <==> FirstSeen(events, package) != [])
    && Matches(Results(report, package), events, package)
  }

  /** The packages in `done` are printed, the others are held as their events stand. */
  ghost predicate Good(report: Report, events: seq<Event>, done: set<string>) {
    && (forall package :: package !in done ==> Held(report, events, package))
    && (forall package :: package in done ==> package !in report.packages)
    && Sectioned(report.sections, events, done)
    && report.passed == CountAll(report.sections, Pass)
    && report.failed == CountAll(report.sections, Fail)
    && report.skipped == CountAll(report.sections, Skip)
    && report.noTests == EmptyPackages(events)
  }

  lemma {:induction false} PrintedLines(
      order: seq<string>, results: map<string, Option<Action>>, events: seq<Event>, package: string)
    requires forall test :: test in order ==> test in results && results[test] == LastStatus(events, package, test)
    ensures Printed(order, results) == LinesFor(order, events, package)
    decreases |order|
  {
    hide LastStatus;
    if order != [] {
      PrintedLines(order[1..], results, events, package);
    }
  }

  lemma SectionedMore(sections: seq<Section>, events: seq<Event>, done: set<string>, package: string)
    requires Sectioned(sections, events, done) && package !in done
    ensures FirstSeen(events, package) == [] ==> Sectioned(sections, events, done + {package})
    ensures FirstSeen(events, package) != [] ==>
      Sectioned(sections + [SectionFor(events, package)], events, done + {package})
  {
    hide FirstSeen, LinesFor;
    var longer := sections + [SectionFor(events, package)];
    assert longer[|sections|].package == package;
    assert forall i :: 0 <= i < |sections| ==> longer[i] == sections[i];
    if FirstSeen(events, package) != [] {
      forall other | other in done + {package} && FirstSeen(events, other) != []
        ensures exists i :: 0 <= i < |longer| && longer[i].package == other
      {
        if other != package {
          var i :| 0 <= i < |sections| && sections[i].package == other;
          assert longer[i].package == other;
        }
      }
    }
  }

  /** Flushing a package prints its section, if it had tests and was not printed before. */
  lemma FlushKeepsGood(report: Report, events: seq<Event>, done: set<string>, package: string)
    requires Good(report, events, done)
    ensures Good(Flush(report, package), events, done + {package})
    ensures Flush(report, package).packages.Keys == report.packages.Keys - {package}
  {
    hide FirstSeen, LastStatus, LinesFor, Printed, Count, EmptyPackages, Sectioned;
    if package in done {
      assert done + {package} == done;
    } else {
      assert Held(report, events, package);
      SectionedMore(report.sections, events, done, package);
      if package in report.packages {
        var results := report.packages[package];
        PrintedLines(results.order, results.results, events, package);
        var section := SectionFor(events, package);
        assert (report.sections + [section])[..|report.sections|] == report.sections;
      }
      var next := Flush(report, package);
      forall other | other !in done + {package}
        ensures Held(next, events, other)
      {
        assert Held(report, events, other);
      }
    }
  }

  /** A test event of a package that is not done is noted in it and nowhere else. */
  lemma NoteKeepsGood(report: Report, events: seq<Event>, done: set<string>, event: Event)
    requires Good(report, events, done) && event.test != "" && event.package !in done
    ensures Good(Handle(report, event), events + [event], done)
  {
    hide FirstSeen, LastStatus, LinesFor, EmptyPackages, Sectioned, Noted;
    var next, more := Handle(report, event), events + [event];
    assert Held(report, events, event.package);
    forall package | package !in done
      ensures Held(next, more, package)
    {
      assert Held(report, events, package);
      if package == event.package {
        NotedMatches(Results(report, package), events, event);
      } else {
        HeldUntouched(report, next, events, event, package);
      }
    }
    SectionsUntouched(report.sections, events, done, event);
    NoTestsMore(events, event);
  }

  lemma NotedMatches(results: PackageResults, events: seq<Event>, event: Event)
    requires Matches(results, events, event.package) && event.test != ""
    ensures Matches(Noted(results, event.test, event.action), events + [event], event.package)
    ensures FirstSeen(events + [event], event.package) != []
  {
    hide FirstSeen, LastStatus;
    SeenMore(events, event, event.package);
    var noted := Noted(results, event.test, event.action);
    if event.test !in results.order {
      NeverEnded(events, event.package, event.test);
    }
    forall test | test in noted.results
      ensures noted.results[test] == LastStatus(events + [event], event.package, test)
    {
      StatusMore(events, event, event.package, test);
    }
  }

  /** A test that was never seen has no status. */
  lemma {:induction false} NeverEnded(events: seq<Event>, package: string, test: string)
    requires test !in FirstSeen(events, package) && test != ""
    ensures LastStatus(events, package, test) == None
    decreases |events|
  {
    if events != [] {
      NeverEnded(events[..|events| - 1], package, test);
    }
  }

  lemma HeldUntouched(report: Report, next: Report, events: seq<Event>, event: Event, package: string)
    requires Held(report, events, package) && (event.package != package || event.test == "")
    requires Results(next, package) == Results(report, package)
    requires package in next.packages <==> package in report.packages
    ensures Held(next, events + [event], package)
  {
    hide FirstSeen, LastStatus;
    SectionUntouched(events, event, package);
    forall test | test in Results(report, package).results
      ensures LastStatus(events + [event], package, test) == LastStatus(events, package, test)
    {
      SeenMeansNamed(events, package, test);
      StatusMore(events, event, package, test);
    }
  }

  lemma SectionsUntouched(sections: seq<Section>, events: seq<Event>, done: set<string>, event: Event)
    requires Sectioned(sections, events, done) && (event.package !in done || event.test == "")
    ensures Sectioned(sections, events + [event], done)
  {
    hide FirstSeen, LinesFor, SectionFor;
    forall package | package in done
      ensures SectionFor(events + [event], package) == SectionFor(events, package)
      ensures FirstSeen(events + [event], package) == FirstSeen(events, package)
    {
      SectionUntouched(events, event, package);
    }
  }

  lemma NoTestsMore(events: seq<Event>, event: Event)
    ensures EmptyPackages(events + [event])
         == EmptyPackages(events) + if event.test == "" && event.action == Skip then 1 else 0
  {
    assert (events + [event])[..|events|] == events;
  }

  /** A package's own record changes nothing but the count of packages without tests. */
  lemma RecordKeepsGood(report: Report, events: seq<Event>, done: set<string>, event: Event)
    requires Good(report, events, done) && event.test == ""
    ensures Good(report.(noTests := report.noTests + if event.action == Skip then 1 else 0), events + [event], done)
  {
    hide FirstSeen, LastStatus, EmptyPackages, Sectioned;
    var next, more := report.(noTests := report.noTests + if event.action == Skip then 1 else 0), events + [event];
    forall package | package !in done
      ensures Held(next, more, package)
    {
      assert Held(report, events, package);
      HeldUntouched(report, next, events, event, package);
    }
    SectionsUntouched(report.sections, events, done, event);
    NoTestsMore(events, event);
  }

  // ---------- the whole stream

  /** The packages whose result came after some test event: those already printed. */
  function FinishedPackages(events: seq<Event>): set<string> {
    if events == [] then {}
    else
      var earlier, last := events[..|events| - 1], events[|events| - 1];
      FinishedPackages(earlier)
      + if IsResult(last) && FirstSeen(earlier, last.package) != [] then {last.package} else {}
  }

  lemma {:induction false} FinishedMeans(events: seq<Event>, package: string) returns (i: nat, j: nat)
    requires package in FinishedPackages(events)
    ensures i < j < |events| && IsTestOf(events[i], package) && IsResultOf(events[j], package)
    decreases |events|
  {
    var earlier, last := events[..|events| - 1], events[|events| - 1];
    if package in FinishedPackages(earlier) {
      i, j := FinishedMeans(earlier, package);
    } else {
      SeenMeansNamed(earlier, package, FirstSeen(earlier, package)[0]);
      var named :| 0 <= named < |earlier| && earlier[named].package == package
                   && earlier[named].test == FirstSeen(earlier, package)[0];
      i, j := named, |events| - 1;
    }
  }

  lemma SplitStays(events: seq<Event>, package: string)
    requires events != [] && Split(events[..|events| - 1], package)
    ensures Split(events, package)
  {
    var earlier := events[..|events| - 1];
    var i, j, k :| 0 <= i < j < k < |earlier|
      && IsTestOf(earlier[i], package) && IsResultOf(earlier[j], package) && IsTestOf(earlier[k], package);
    assert events[i] == earlier[i] && events[j] == earlier[j] && events[k] == earlier[k];
  }

  lemma LateTestSplits(events: seq<Event>, package: string)
    requires events != [] && IsTestOf(events[|events| - 1], package)
    requires package in FinishedPackages(events[..|events| - 1])
    ensures Split(events, package)
  {
    var earlier := events[..|events| - 1];
    var i, j := FinishedMeans(earlier, package);
    assert events[i] == earlier[i] && events[j] == earlier[j] && IsTestOf(events[|earlier|], package);
  }

  lemma UnsplitEarlier(events: seq<Event>)
    requires events != [] && Unsplit(events)
    ensures Unsplit(events[..|events| - 1])
    ensures events[|events| - 1].test != "" ==>
      events[|events| - 1].package !in FinishedPackages(events[..|events| - 1])
  {
    hide Split;
    var earlier, last := events[..|events| - 1], events[|events| - 1];
    forall package
      ensures !Split(earlier, package)
    {
      if Split(earlier, package) {
        SplitStays(events, package);
      }
    }
    if last.test != "" && last.package in FinishedPackages(earlier) {
      LateTestSplits(events, last.package);
    }
  }

  lemma {:induction false} StreamIsGood(events: seq<Event>)
    requires Unsplit(events)
    ensures Good(HandleAll(events), events, FinishedPackages(events))
    decreases |events|
  {
    hide Good, Flush, FirstSeen, Unsplit;
    if events == [] {
      NothingIsGood();
    } else {
      var earlier, event := events[..|events| - 1], events[|events| - 1];
      assert events == earlier + [event];
      UnsplitEarlier(events);
      StreamIsGood(earlier);
      var report, done := HandleAll(earlier), FinishedPackages(earlier);
      assert done + {} == done;
      if event.test == "" {
        RecordKeepsGood(report, earlier, done, event);
        assert report.(noTests := report.noTests + 0) == report;
        if IsResult(event) {
          SeenMore(earlier, event, event.package);
          FlushKeepsGood(report, events, done, event.package);
          if FirstSeen(earlier, event.package) == [] {
            NothingToFlush(report, events, done, event.package);
          }
        }
      } else {
        NoteKeepsGood(report, earlier, done, event);
      }
    }
  }

  lemma NothingToFlush(report: Report, events: seq<Event>, done: set<string>, package: string)
    requires Good(report, events, done) && FirstSeen(events, package) == []
    ensures Flush(report, package) == report
  {
    hide FirstSeen;
    assert package in done || Held(report, events, package);
  }

  lemma NothingIsGood()
    ensures Good(BLANK, [], {})
  {}

  // ---------- the summary

  /** Every package still held, in some order. */
  ghost predicate ListsHeld(order: seq<string>, report: Report) {
    forall package :: package in order <==> package in report.packages
  }

  lemma {:induction false} FlushingAllIsGood(report: Report, events: seq<Event>, done: set<string>, order: seq<string>)
    requires Good(report, events, done)
    requires forall package :: package in report.packages ==> package in order
    ensures FlushAll(report, order).packages == map[]
    ensures exists all: set<string> :: done <= all && Good(FlushAll(report, order), events, all)
    decreases |order|
  {
    hide Good, Flush;
    if order != [] {
      FlushKeepsGood(report, events, done, order[0]);
      assert order == [order[0]] + order[1..];
      FlushingAllIsGood(Flush(report, order[0]), events, done + {order[0]}, order[1..]);
      var all :| done + {order[0]} <= all && Good(FlushAll(Flush(report, order[0]), order[1..]), events, all);
      assert done <= all;
    }
  }

  /** What is left when nothing is held: one section for each package that had tests. */
  ghost predicate Complete(sections: seq<Section>, events: seq<Event>) {
    && (forall i :: 0 <= i < |sections| ==>
          FirstSeen(events, sections[i].package) != [] && sections[i] == SectionFor(events, sections[i].package))
    && (forall i, j :: 0 <= i < j < |sections| ==> sections[i].package != sections[j].package)
    && (forall package :: FirstSeen(events, package) != [] ==>
          exists i :: 0 <= i < |sections| && sections[i].package == package)
  }

  lemma NothingHeldIsComplete(report: Report, events: seq<Event>, done: set<string>)
    requires Good(report, events, done) && report.packages == map[]
    ensures Complete(report.sections, events)
  {
    hide FirstSeen, LinesFor, CountAll, EmptyPackages;
    forall package | FirstSeen(events, package) != []
      ensures exists i :: 0 <= i < |report.sections| && report.sections[i].package == package
    {
      assert package in done || Held(report, events, package);
    }
  }

  // ---------- lines and pairs

  function PairsOf(package: string, lines: seq<Line>, status: Action): set<(string, string)> {
    if lines == [] then {}
    else (if lines[0].status == status then {(package, lines[0].test)} else {}) + PairsOf(package, lines[1..], status)
  }

  lemma {:induction false} CountIsSize(package: string, lines: seq<Line>, status: Action)
    requires forall i, j :: 0 <= i < j < |lines| ==> lines[i].test != lines[j].test
    ensures |PairsOf(package, lines, status)| == Count(lines, status)
    decreases |lines|
  {
    if lines != [] {
      var first, rest := lines[0], lines[1..];
      CountIsSize(package, rest, status);
      PairsOfMean(Section(package, rest), status, package, first.test);
      var own := if first.status == status then {(package, first.test)} else {};
      assert PairsOf(package, lines, status) == own + PairsOf(package, rest, status);
      hide PairsOf;
      assert forall j :: 0 <= j < |rest| ==> rest[j].test != first.test;
      assert own !! PairsOf(package, rest, status);
    }
  }

  lemma {:induction false} PairsOfMean(section: Section, status: Action, package: string, test: string)
    ensures (package, test) in PairsOf(section.package, section.lines, status)
       <==> section.package == package && Line(test, status) in section.lines
    decreases |section.lines|
  {
    var lines := section.lines;
    if lines != [] {
      assert lines == [lines[0]] + lines[1..];
      PairsOfMean(Section(section.package, lines[1..]), status, package, test);
    }
  }

  /** A line stands for a seen test and its last terminal status, and there is one for each. */
  lemma {:induction false} LinesForMeans(tests: seq<string>, events: seq<Event>, package: string, line: Line)
    ensures line in LinesFor(tests, events, package)
       <==> line.test in tests && LastStatus(events, package, line.test) == Some(line.status)
    decreases |tests|
  {
    hide LastStatus;
    if tests != [] {
      assert tests == [tests[0]] + tests[1..];
      LinesForMeans(tests[1..], events, package, line);
    }
  }

  lemma {:induction false} LinesForOnce(tests: seq<string>, events: seq<Event>, package: string)
    requires forall i, j :: 0 <= i < j < |tests| ==> tests[i] != tests[j]
    ensures forall i, j :: 0 <= i < j < |LinesFor(tests, events, package)| ==>
      LinesFor(tests, events, package)[i].test != LinesFor(tests, events, package)[j].test
    decreases |tests|
  {
    hide LastStatus;
    if tests != [] {
      var rest := LinesFor(tests[1..], events, package);
      LinesForOnce(tests[1..], events, package);
      forall j | 0 <= j < |rest|
        ensures rest[j].test != tests[0]
      {
        LinesForMeans(tests[1..], events, package, rest[j]);
        assert rest[j].test in tests[1..];
      }
    }
  }

  function Pairs(sections: seq<Section>, status: Action): set<(string, string)> {
    if sections == [] then {}
    else
      var last := |sections| - 1;
      Pairs(sections[..last], status) + PairsOf(sections[last].package, sections[last].lines, status)
  }

  lemma {:induction false} PairsMean(sections: seq<Section>, status: Action, package: string, test: string)
    ensures (package, test) in Pairs(sections, status)
       <==> exists i :: 0 <= i < |sections| && sections[i].package == package && Line(test, status) in sections[i].lines
    decreases |sections|
  {
    if sections != [] {
      var last := |sections| - 1;
      PairsMean(sections[..last], status, package, test);
      PairsOfMean(sections[last], status, package, test);
      assert forall i :: 0 <= i < last ==> sections[..last][i] == sections[i];
    }
  }

  lemma {:induction false} TotalIsSize(sections: seq<Section>, events: seq<Event>, status: Action)
    requires forall i :: 0 <= i < |sections| ==> sections[i] == SectionFor(events, sections[i].package)
    requires forall i, j :: 0 <= i < j < |sections| ==> sections[i].package != sections[j].package
    ensures |Pairs(sections, status)| == CountAll(sections, status)
    decreases |sections|
  {
    hide FirstSeen, LinesFor, Count, PairsOf;
    if sections != [] {
      var last := |sections| - 1;
      var section := sections[last];
      TotalIsSize(sections[..last], events, status);
      SeenOnce(events, section.package);
      LinesForOnce(FirstSeen(events, section.package), events, section.package);
      CountIsSize(section.package, section.lines, status);
      var earlier, own := Pairs(sections[..last], status), PairsOf(section.package, section.lines, status);
      forall pair | pair in own
        ensures pair !in earlier
      {
        PairsMean(sections[..last], status, pair.0, pair.1);
        PairsOfMean(section, status, pair.0, pair.1);
      }
      assert own * earlier == {};
    }
  }

  lemma EndedMeans(events: seq<Event>, status: Action, package: string, test: string)
    ensures (package, test) in Ended(events, status)
       <==> test in FirstSeen(events, package) && LastStatus(events, package, test) == Some(status)
  {
    hide FirstSeen, LastStatus;
    SeenMeansNamed(events, package, test);
    if test in FirstSeen(events, package) {
      var i :| 0 <= i < |events| && events[i].package == package && events[i].test == test;
      assert events[i] in events;
    }
  }

  lemma TotalsCountEndedTests(sections: seq<Section>, events: seq<Event>, status: Action)
    requires Complete(sections, events)
    ensures CountAll(sections, status) == |Ended(events, status)|
  {
    hide FirstSeen, LastStatus, LinesFor, Ended, CountAll, Pairs;
    TotalIsSize(sections, events, status);
    forall pair: (string, string)
      ensures pair in Pairs(sections, status) <==> pair in Ended(events, status)
    {
      var (package, test) := pair;
      PairsMean(sections, status, package, test);
      EndedMeans(events, status, package, test);
      LinesForMeans(FirstSeen(events, package), events, package, Line(test, status));
      if pair in Ended(events, status) {
        assert FirstSeen(events, package) != [];
        var i :| 0 <= i < |sections| && sections[i].package == package;
        assert Line(test, status) in sections[i].lines;
      }
    }
    assert Pairs(sections, status) == Ended(events, status);
  }

  /** However the packages' streams interleave, as long as no package's result stands between two of its
      test events, and in whatever order the packages still held are flushed at the end: every package that had
      tests is printed once, its lines are its ended tests in first-seen order with their last status,
      the totals count the distinct tests by that status, and nothing is held back. */
  lemma EveryTestIsReportedOnce(events: seq<Event>, order: seq<string>)
    requires Unsplit(events) && ListsHeld(order, HandleAll(events))
    ensures var report := FlushAll(HandleAll(events), order);
      && Complete(report.sections, events)
      && report.passed == |Ended(events, Pass)|
      && report.failed == |Ended(events, Fail)|
      && report.skipped == |Ended(events, Skip)|
      && report.noTests == EmptyPackages(events)
      && report.packages == map[]
      && (report.failed == 0 <==> Ended(events, Fail) == {})
  {
    StreamIsGood(events);
    var start, done := HandleAll(events), FinishedPackages(events);
    FlushingAllIsGood(start, events, done, order);
    var report := FlushAll(start, order);
    var all :| done <= all && Good(report, events, all);
    NothingHeldIsComplete(report, events, all);
    hide Complete, Ended, HandleAll, FlushAll;
    TotalsCountEndedTests(report.sections, events, Pass);
    TotalsCountEndedTests(report.sections, events, Fail);
    TotalsCountEndedTests(report.sections, events, Skip);
  }

  /** Each line of a complete report, and no other, names a test and the status it ended with; a test
      that ended has exactly one line. */
  lemma LinesAreTheEndedTests(sections: seq<Section>, events: seq<Event>, package: string, line: Line)
    requires Complete(sections, events)
    ensures (exists i :: 0 <= i < |sections| && sections[i].package == package && line in sections[i].lines)
       <==> (package, line.test) in Ended(events, line.status)
    ensures forall i, a, b :: 0 <= i < |sections| && 0 <= a < b < |sections[i].lines| ==>
      sections[i].lines[a].test != sections[i].lines[b].test
  {
    hide FirstSeen, LastStatus, LinesFor, Ended;
    EndedMeans(events, line.status, package, line.test);
    LinesForMeans(FirstSeen(events, package), events, package, line);
    forall i | 0 <= i < |sections|
      ensures forall a, b :: 0 <= a < b < |sections[i].lines| ==> sections[i].lines[a].test != sections[i].lines[b].test
    {
      SeenOnce(events, sections[i].package);
      LinesForOnce(FirstSeen(events, sections[i].package), events, sections[i].package);
    }
  }

  /** Within a section of a complete report, a test that stands above another had its first event
      before the other's first event. */
  lemma LinesAreInStartingOrder(sections: seq<Section>, events: seq<Event>, i: nat, a: nat, b: nat)
    requires Complete(sections, events) && i < |sections| && a < b < |sections[i].lines|
    ensures StartsBefore(events, sections[i].package, sections[i].lines[a].test, sections[i].lines[b].test)
  {
    hide FirstSeen, LastStatus, LinesFor, StartsBefore;
    var package := sections[i].package;
    var first, second := LinesInOrder(FirstSeen(events, package), events, package, a, b);
    SeenInOrder(events, package, first, second);
  }

  /** The packages without tests are counted one by one. */
  lemma {:induction false} EmptyPackagesAreSkips(events: seq<Event>)
    ensures EmptyPackages(events) == |set i | 0 <= i < |events| && events[i].test == "" && events[i].action == Skip|
    decreases |events|
  {
    if events != [] {
      var last := |events| - 1;
      var earlier := events[..last];
      EmptyPackagesAreSkips(earlier);
      var before := set i | 0 <= i < |earlier| && earlier[i].test == "" && earlier[i].action == Skip;
      var all := set i | 0 <= i < |events| && events[i].test == "" && events[i].action == Skip;
      if events[last].test == "" && events[last].action == Skip {
        assert all == before + {last};
      } else {
        assert all == before;
      }
    }
  }

  // ---------- interleavings

  /** The part of a sequence that belongs to one package. */
  function Part<T>(xs: seq<T>, owner: T -> string, package: string): seq<T> {
    if xs == [] then []
    else
      var last := |xs| - 1;
      Part(xs[..last], owner, package) + if owner(xs[last]) == package then [xs[last]] else []
  }

  function Sum<T>(xs: seq<T>, weight: T -> nat): nat {
    if xs == [] then 0 else Sum(xs[..|xs| - 1], weight) + weight(xs[|xs| - 1])
  }

  lemma {:induction false} PartsHoldAll<T>(xs: seq<T>, owner: T -> string, x: T)
    ensures multiset(xs)[x] == multiset(Part(xs, owner, owner(x)))[x]
    decreases |xs|
  {
    if xs != [] {
      var last := |xs| - 1;
      PartsHoldAll(xs[..last], owner, x);
      assert xs == xs[..last] + [xs[last]];
    }
  }

  lemma SameParts<T>(xs: seq<T>, ys: seq<T>, owner: T -> string)
    requires forall package :: Part(xs, owner, package) == Part(ys, owner, package)
    ensures multiset(xs) == multiset(ys)
  {
    forall x
      ensures multiset(xs)[x] == multiset(ys)[x]
    {
      PartsHoldAll(xs, owner, x);
      PartsHoldAll(ys, owner, x);
    }
  }

  lemma {:induction false} SumJoins<T>(xs: seq<T>, ys: seq<T>, weight: T -> nat)
    ensures Sum(xs + ys, weight) == Sum(xs, weight) + Sum(ys, weight)
    decreases |ys|
  {
    if ys == [] {
      assert xs + ys == xs;
    } else {
      var last := |ys| - 1;
      assert (xs + ys)[..|xs + ys| - 1] == xs + ys[..last];
      SumJoins(xs, ys[..last], weight);
    }
  }

  lemma SumOfOne<T>(x: T, weight: T -> nat)
    ensures Sum([x], weight) == weight(x)
  {
    assert [x][..0] == [];
  }

  lemma TakeOut<T>(before: seq<T>, x: T, after: seq<T>, weight: T -> nat)
    ensures Sum(before + [x] + after, weight) == Sum(before + after, weight) + weight(x)
  {
    hide Sum;
    SumJoins(before, after, weight);
    SumJoins(before + [x], after, weight);
    SumJoins(before, [x], weight);
    SumOfOne(x, weight);
  }

  lemma Find<T>(ys: seq<T>, x: T) returns (before: seq<T>, after: seq<T>)
    requires x in ys
    ensures ys == before + [x] + after
  {
    var i :| 0 <= i < |ys| && ys[i] == x;
    before, after := ys[..i], ys[i + 1..];
  }

  lemma SameRest<T>(x: T, rest: seq<T>, before: seq<T>, after: seq<T>)
    requires multiset([x] + rest) == multiset(before + [x] + after)
    ensures multiset(rest) == multiset(before + after)
  {
    assert multiset(rest) == multiset([x] + rest) - multiset{x};
    assert multiset(before + after) == multiset(before + [x] + after) - multiset{x};
  }

  /** The order of the summands does not matter. */
  lemma {:induction false} SumInAnyOrder<T>(xs: seq<T>, ys: seq<T>, weight: T -> nat)
    requires multiset(xs) == multiset(ys)
    ensures Sum(xs, weight) == Sum(ys, weight)
    decreases |xs|
  {
    hide Sum;
    if xs == [] {
      assert |multiset(ys)| == 0;
    } else {
      var x, rest := xs[0], xs[1..];
      assert x in multiset(xs);
      var before, after := Find(ys, x);
      assert xs == [x] + rest;
      SameRest(x, rest, before, after);
      assert [] + [x] + rest == xs && [] + rest == rest;
      TakeOut([], x, rest, weight);
      TakeOut(before, x, after, weight);
      SumInAnyOrder(rest, before + after, weight);
    }
  }

  function PackageOf(event: Event): string { event.package }

  function PackageOfSection(section: Section): string { section.package }

  /** One package's events, on their own. */
  function Own(events: seq<Event>, package: string): seq<Event> {
    Part(events, PackageOf, package)
  }

  /** What a report says and holds of one package. */
  datatype View = View(held: bool, results: PackageResults, sections: seq<Section>)

  function ViewOf(report: Report, package: string): View {
    View(package in report.packages, Results(report, package), Part(report.sections, PackageOfSection, package))
  }

  lemma PartMore(sections: seq<Section>, section: Section, package: string)
    ensures Part(sections + [section], PackageOfSection, package)
         == Part(sections, PackageOfSection, package) + if section.package == package then [section] else []
  {
    assert (sections + [section])[..|sections|] == sections;
  }

  /** A flush changes one package only, and that by what the report says of it. */
  lemma FlushByView(x: Report, y: Report, flushed: string, package: string)
    requires ViewOf(x, package) == ViewOf(y, package)
    ensures package == flushed ==> ViewOf(Flush(x, flushed), package) == ViewOf(Flush(y, flushed), package)
    ensures package != flushed ==> ViewOf(Flush(x, flushed), package) == ViewOf(x, package)
  {
    hide Printed, Count, Part;
    if flushed in x.packages {
      var results := x.packages[flushed];
      PartMore(x.sections, Section(flushed, Printed(results.order, results.results)), package);
    }
    if flushed in y.packages {
      var results := y.packages[flushed];
      PartMore(y.sections, Section(flushed, Printed(results.order, results.results)), package);
    }
  }

  /** So does an event. */
  lemma HandleByView(x: Report, y: Report, event: Event, package: string)
    requires ViewOf(x, package) == ViewOf(y, package)
    ensures package == event.package ==> ViewOf(Handle(x, event), package) == ViewOf(Handle(y, event), package)
    ensures package != event.package ==> ViewOf(Handle(x, event), package) == ViewOf(x, package)
  {
    hide Flush, Noted, Part;
    FlushByView(x, y, event.package, package);
  }

  /** What is said and held of a package depends on its own events alone. */
  lemma {:induction false} OwnEventsDecide(events: seq<Event>, package: string)
    ensures ViewOf(HandleAll(events), package) == ViewOf(HandleAll(Own(events, package)), package)
    decreases |events|
  {
    hide Handle, ViewOf;
    if events != [] {
      var earlier, last := events[..|events| - 1], events[|events| - 1];
      OwnEventsDecide(earlier, package);
      HandleByView(HandleAll(earlier), HandleAll(Own(earlier, package)), last, package);
      if last.package == package {
        var own := Own(events, package);
        assert own[..|own| - 1] == Own(earlier, package) && own[|own| - 1] == last;
      } else {
        assert Own(events, package) == Own(earlier, package);
      }
    }
  }

  lemma {:induction false} FlushAllByView(report: Report, order: seq<string>, package: string)
    requires package in report.packages ==> package in order
    ensures ViewOf(FlushAll(report, order), package) == ViewOf(Flush(report, package), package)
    decreases |order|
  {
    hide Part, Printed, Count;
    if order != [] {
      var next := Flush(report, order[0]);
      assert order == [order[0]] + order[1..];
      FlushByView(report, report, order[0], package);
      FlushAllByView(next, order[1..], package);
      if order[0] != package { FlushByView(next, report, package, package); }
    }
  }

  /** The totals are those of the sections. */
  predicate Counted(report: Report) {
    && report.passed == CountAll(report.sections, Pass)
    && report.failed == CountAll(report.sections, Fail)
    && report.skipped == CountAll(report.sections, Skip)
  }

  lemma FlushStaysCounted(report: Report, package: string)
    requires Counted(report)
    ensures Counted(Flush(report, package)) && Flush(report, package).noTests == report.noTests
  {
    hide Printed, Count, CountAll;
    if package in report.packages {
      var results := report.packages[package];
      CountAllMore(report.sections, Section(package, Printed(results.order, results.results)));
    }
  }

  lemma CountAllMore(sections: seq<Section>, section: Section)
    ensures CountAll(sections + [section], Pass) == CountAll(sections, Pass) + Count(section.lines, Pass)
    ensures CountAll(sections + [section], Fail) == CountAll(sections, Fail) + Count(section.lines, Fail)
    ensures CountAll(sections + [section], Skip) == CountAll(sections, Skip) + Count(section.lines, Skip)
  {
    hide Count;
    assert (sections + [section])[..|sections|] == sections;
  }

  lemma {:induction false} StreamIsCounted(events: seq<Event>)
    ensures Counted(HandleAll(events)) && HandleAll(events).noTests == EmptyPackages(events)
    decreases |events|
  {
    hide Flush, CountAll, Noted;
    if events == [] {
      assert CountAll([], Pass) == CountAll([], Fail) == CountAll([], Skip) == 0 by { NothingCounted(); }
    } else {
      StreamIsCounted(events[..|events| - 1]);
      FlushStaysCounted(HandleAll(events[..|events| - 1]), events[|events| - 1].package);
    }
  }

  lemma NothingCounted()
    ensures CountAll([], Pass) == CountAll([], Fail) == CountAll([], Skip) == 0
  {}

  lemma {:induction false} FlushAllStaysCounted(report: Report, order: seq<string>)
    requires Counted(report)
    ensures Counted(FlushAll(report, order)) && FlushAll(report, order).noTests == report.noTests
    decreases |order|
  {
    hide Flush, CountAll;
    if order != [] {
      FlushStaysCounted(report, order[0]);
      FlushAllStaysCounted(Flush(report, order[0]), order[1..]);
    }
  }

  lemma {:induction false} CountAllIsSum(sections: seq<Section>, status: Action, weight: Section -> nat)
    requires forall section :: weight(section) == Count(section.lines, status)
    ensures CountAll(sections, status) == Sum(sections, weight)
    decreases |sections|
  {
    hide Count;
    if sections != [] {
      CountAllIsSum(sections[..|sections| - 1], status, weight);
    }
  }

  lemma CountAllInAnyOrder(xs: seq<Section>, ys: seq<Section>, status: Action)
    requires multiset(xs) == multiset(ys)
    ensures CountAll(xs, status) == CountAll(ys, status)
  {
    hide Count, CountAll, Sum;
    var weight := (section: Section) => Count(section.lines, status);
    CountAllIsSum(xs, status, weight);
    CountAllIsSum(ys, status, weight);
    SumInAnyOrder(xs, ys, weight);
  }

  function WithoutTests(event: Event): nat {
    if event.test == "" && event.action == Skip then 1 else 0
  }

  lemma {:induction false} EmptyPackagesIsSum(events: seq<Event>)
    ensures EmptyPackages(events) == Sum(events, WithoutTests)
    decreases |events|
  {
    if events != [] {
      EmptyPackagesIsSum(events[..|events| - 1]);
    }
  }

  /** The interleaving does not matter, split streams included: two streams in which every package has
      the same events of its own print, for each package, the same sections in the same order, and reach
      the same totals, in whatever orders the packages still held are flushed. */
  lemma InterleavingDoesNotMatter(
      first: seq<Event>, firstOrder: seq<string>, second: seq<Event>, secondOrder: seq<string>)
    requires ListsHeld(firstOrder, HandleAll(first)) && ListsHeld(secondOrder, HandleAll(second))
    requires forall package :: Own(first, package) == Own(second, package)
    ensures var a, b := FlushAll(HandleAll(first), firstOrder), FlushAll(HandleAll(second), secondOrder);
      && (forall package ::
            Part(a.sections, PackageOfSection, package) == Part(b.sections, PackageOfSection, package))
      && multiset(a.sections) == multiset(b.sections)
      && a.passed == b.passed && a.failed == b.failed && a.skipped == b.skipped && a.noTests == b.noTests
  {
    hide HandleAll, FlushAll, Flush, Part, CountAll, EmptyPackages, Sum;
    var a, b := FlushAll(HandleAll(first), firstOrder), FlushAll(HandleAll(second), secondOrder);
    forall package
      ensures Part(a.sections, PackageOfSection, package) == Part(b.sections, PackageOfSection, package)
    {
      SameView(first, firstOrder, second, secondOrder, package);
    }
    SameParts(a.sections, b.sections, PackageOfSection);
    StreamIsCounted(first);
    StreamIsCounted(second);
    FlushAllStaysCounted(HandleAll(first), firstOrder);
    FlushAllStaysCounted(HandleAll(second), secondOrder);
    CountAllInAnyOrder(a.sections, b.sections, Pass);
    CountAllInAnyOrder(a.sections, b.sections, Fail);
    CountAllInAnyOrder(a.sections, b.sections, Skip);
    SameEmptyPackages(first, second);
  }

  lemma SameView(
      first: seq<Event>, firstOrder: seq<string>, second: seq<Event>, secondOrder: seq<string>, package: string)
    requires ListsHeld(firstOrder, HandleAll(first)) && ListsHeld(secondOrder, HandleAll(second))
    requires Own(first, package) == Own(second, package)
    ensures ViewOf(FlushAll(HandleAll(first), firstOrder), package)
         == ViewOf(FlushAll(HandleAll(second), secondOrder), package)
  {
    hide HandleAll, FlushAll, Flush, Own, ViewOf;
    OwnEventsDecide(first, package);
    OwnEventsDecide(second, package);
    FlushAllByView(HandleAll(first), firstOrder, package);
    FlushAllByView(HandleAll(second), secondOrder, package);
    FlushByView(HandleAll(first), HandleAll(second), package, package);
  }

  lemma SameEmptyPackages(first: seq<Event>, second: seq<Event>)
    requires forall package :: Own(first, package) == Own(second, package)
    ensures EmptyPackages(first) == EmptyPackages(second)
  {
    hide EmptyPackages, Part, Sum;
    forall package
      ensures Part(first, PackageOf, package) == Part(second, PackageOf, package)
    {
      assert Own(first, package) == Own(second, package);
    }
    SameParts(first, second, PackageOf);
    EmptyPackagesIsSum(first);
    EmptyPackagesIsSum(second);
    SumInAnyOrder(first, second, WithoutTests);
  }

  // ---------- the hypothesis is exact

  /** How often a package has been printed, and once more if it is held. */
  function Openings(report: Report, package: string): nat {
    Printings(report.sections, package) + if package in report.packages then 1 else 0
  }

  function Printings(sections: seq<Section>, package: string): nat {
    if sections == [] then 0
    else Printings(sections[..|sections| - 1], package) + if sections[|sections| - 1].package == package then 1 else 0
  }

  /** What is held has tests. */
  predicate HoldsTests(report: Report) {
    forall package :: package in report.packages ==> report.packages[package].order != []
  }

  lemma FlushKeepsOpenings(report: Report, flushed: string, package: string)
    requires HoldsTests(report)
    ensures HoldsTests(Flush(report, flushed)) && Openings(Flush(report, flushed), package) == Openings(report, package)
    ensures package == flushed ==> package !in Flush(report, flushed).packages
  {
    hide Printed, Count;
    if flushed in report.packages {
      var next := Flush(report, flushed);
      assert next.sections[..|report.sections|] == report.sections;
    }
  }

  /** Openings never shrink, and a test event of a package that is not held is one more. */
  lemma HandleKeepsOpenings(report: Report, event: Event, package: string)
    requires HoldsTests(report)
    ensures HoldsTests(Handle(report, event)) && Openings(Handle(report, event), package) >= Openings(report, package)
    ensures IsTestOf(event, package) ==> package in Handle(report, event).packages
    ensures IsTestOf(event, package) && package !in report.packages ==>
      Openings(Handle(report, event), package) == Openings(report, package) + 1
    ensures IsResultOf(event, package) ==> package !in Handle(report, event).packages
  {
    if event.test == "" {
      FlushKeepsOpenings(report, event.package, package);
    } else {
      var noted := Noted(Results(report, event.package), event.test, event.action);
      assert |noted.order| >= |Results(report, event.package).order|;
      assert event.package !in report.packages ==> noted.order == [event.test];
    }
  }

  lemma {:induction false} HandleAllHoldsTests(events: seq<Event>)
    ensures HoldsTests(HandleAll(events))
    decreases |events|
  {
    hide Handle;
    if events != [] {
      HandleAllHoldsTests(events[..|events| - 1]);
      HandleKeepsOpenings(HandleAll(events[..|events| - 1]), events[|events| - 1], "");
    }
  }

  lemma HandleOneMore(events: seq<Event>, n: nat)
    requires n < |events|
    ensures HandleAll(events[..n + 1]) == Handle(HandleAll(events[..n]), events[n])
  {
    assert events[..n + 1][..n] == events[..n] && events[..n + 1][n] == events[n];
  }

  lemma {:induction false} OpeningsGrow(events: seq<Event>, from: nat, end: nat, package: string)
    requires from <= end <= |events|
    ensures Openings(HandleAll(events[..end]), package) >= Openings(HandleAll(events[..from]), package)
    decreases end - from
  {
    hide Handle, Openings;
    if from < end {
      OpeningsGrow(events, from, end - 1, package);
      HandleAllHoldsTests(events[..end - 1]);
      HandleOneMore(events, end - 1);
      HandleKeepsOpenings(HandleAll(events[..end - 1]), events[end - 1], package);
    }
  }

  /** Since its result, the package is not held, or has been opened once more than before. */
  lemma {:induction false} ClosedUntilNextTest(events: seq<Event>, j: nat, end: nat, package: string)
    requires j < end <= |events| && IsResultOf(events[j], package)
    ensures package !in HandleAll(events[..end]).packages
         || Openings(HandleAll(events[..end]), package) > Openings(HandleAll(events[..j]), package)
    decreases end
  {
    hide Handle, Openings;
    var n := end - 1;
    HandleAllHoldsTests(events[..n]);
    HandleOneMore(events, n);
    HandleKeepsOpenings(HandleAll(events[..n]), events[n], package);
    OpeningsGrow(events, j, n, package);
    if n > j {
      ClosedUntilNextTest(events, j, n, package);
      if package !in HandleAll(events[..n]).packages && !IsTestOf(events[n], package) {
        StaysClosed(HandleAll(events[..n]), events[n], package);
      }
    }
  }

  lemma StaysClosed(report: Report, event: Event, package: string)
    requires package !in report.packages && !IsTestOf(event, package)
    ensures package !in Handle(report, event).packages
  {}

  lemma SplitOpensTwice(events: seq<Event>, i: nat, j: nat, k: nat, package: string)
    requires i < j < k < |events|
    requires IsTestOf(events[i], package) && IsResultOf(events[j], package) && IsTestOf(events[k], package)
    ensures Openings(HandleAll(events), package) >= 2
  {
    hide Handle, HandleAll, Openings;
    OpenedByTest(events, i, package);
    OpeningsGrow(events, i + 1, j, package);
    OpenedByTest(events, k, package);
    ClosedUntilNextTest(events, j, k, package);
    OpeningsGrow(events, j, k, package);
    OpeningsGrow(events, k, k + 1, package);
    OpeningsGrow(events, k + 1, |events|, package);
    assert events[..|events|] == events;
  }

  lemma OpenedByTest(events: seq<Event>, n: nat, package: string)
    requires n < |events| && IsTestOf(events[n], package)
    ensures Openings(HandleAll(events[..n + 1]), package) >= 1
    ensures package !in HandleAll(events[..n]).packages ==>
      Openings(HandleAll(events[..n + 1]), package) == Openings(HandleAll(events[..n]), package) + 1
  {
    hide Handle;
    HandleAllHoldsTests(events[..n]);
    HandleOneMore(events, n);
    HandleKeepsOpenings(HandleAll(events[..n]), events[n], package);
  }

  lemma {:induction false} FlushAllKeepsOpenings(report: Report, order: seq<string>, package: string)
    requires HoldsTests(report)
    ensures Openings(FlushAll(report, order), package) == Openings(report, package)
    decreases |order|
  {
    hide Flush, Openings;
    if order != [] {
      FlushKeepsOpenings(report, order[0], package);
      FlushAllKeepsOpenings(Flush(report, order[0]), order[1..], package);
    }
  }

  lemma {:induction false} EmptiedByFlushing(report: Report, order: seq<string>)
    requires forall package :: package in report.packages ==> package in order
    ensures FlushAll(report, order).packages == map[]
    decreases |order|
  {
    hide Printed, Count;
    if order != [] {
      assert order == [order[0]] + order[1..];
      EmptiedByFlushing(Flush(report, order[0]), order[1..]);
    }
  }

  lemma {:induction false} NeverPrinted(sections: seq<Section>, package: string)
    requires forall i :: 0 <= i < |sections| ==> sections[i].package != package
    ensures Printings(sections, package) == 0
    decreases |sections|
  {
    if sections != [] {
      NeverPrinted(sections[..|sections| - 1], package);
    }
  }

  lemma {:induction false} PrintedOnce(sections: seq<Section>, package: string)
    requires forall i, j :: 0 <= i < j < |sections| ==> sections[i].package != sections[j].package
    ensures Printings(sections, package) <= 1
    decreases |sections|
  {
    if sections != [] {
      var last := |sections| - 1;
      if sections[last].package == package {
        NeverPrinted(sections[..last], package);
      } else {
        PrintedOnce(sections[..last], package);
      }
    }
  }

  /** Every package is reported in one section exactly when no package's result stands between two of
      its test events. */
  lemma ReportedOnceExactly(events: seq<Event>, order: seq<string>)
    requires ListsHeld(order, HandleAll(events))
    ensures Complete(FlushAll(HandleAll(events), order).sections, events) <==> Unsplit(events)
  {
    hide HandleAll, FlushAll, FirstSeen, LinesFor, Openings, Printings;
    if Unsplit(events) {
      EveryTestIsReportedOnce(events, order);
    } else {
      var package :| Split(events, package);
      var i, j, k :| 0 <= i < j < k < |events|
        && IsTestOf(events[i], package) && IsResultOf(events[j], package) && IsTestOf(events[k], package);
      SplitOpensTwice(events, i, j, k, package);
      HandleAllHoldsTests(events);
      FlushAllKeepsOpenings(HandleAll(events), order, package);
      EmptiedByFlushing(HandleAll(events), order);
      AllPrinted(FlushAll(HandleAll(events), order), package);
      if Complete(FlushAll(HandleAll(events), order).sections, events) {
        PrintedOnce(FlushAll(HandleAll(events), order).sections, package);
      }
    }
  }

  lemma AllPrinted(report: Report, package: string)
    requires report.packages == map[]
    ensures Openings(report, package) == Printings(report.sections, package)
  {}

  // ---------- a split stream

  const LATE_TEST := Event(Pass, "p", "T")
  const LATE_RESULT := Event(Pass, "p", "")

  lemma HandleMore(events: seq<Event>, event: Event)
    ensures HandleAll(events + [event]) == Handle(HandleAll(events), event)
  {
    assert (events + [event])[..|events|] == events;
  }

  lemma NoteThenFlush(report: Report)
    requires "p" !in report.packages
    ensures Flush(Handle(report, LATE_TEST), "p") ==
      report.(passed := report.passed + 1, sections := report.sections + [Section("p", [Line("T", Pass)])])
  {
    var noted := Noted(PackageResults([], map[]), "T", Pass);
    assert noted.order == ["T"] && noted.order[1..] == [];
    assert Printed(noted.order, noted.results) == [Line("T", Pass)];
    assert [Line("T", Pass)][1..] == [];
    var next := Handle(report, LATE_TEST);
    assert next.packages["p"] == noted && next.packages - {"p"} == report.packages;
  }

  /** A test, its package's result, and the test again: the stream is split, one test ended, and the
      reporter prints its package twice and counts it twice. */
  lemma LateEventIsReportedTwice()
    ensures var events := [LATE_TEST, LATE_RESULT, LATE_TEST];
      var report := FlushAll(HandleAll(events), ["p"]);
      && Split(events, "p") && ListsHeld(["p"], HandleAll(events))
      && report.sections == [Section("p", [Line("T", Pass)]), Section("p", [Line("T", Pass)])]
      && report.passed == 2
      && Ended(events, Pass) == {("p", "T")}
  {
    var events := [LATE_TEST, LATE_RESULT, LATE_TEST];
    assert IsTestOf(events[0], "p") && IsResultOf(events[1], "p") && IsTestOf(events[2], "p");
    LateTestEnds(events);
    LateEventPrints(events);
  }

  lemma LateTestEnds(events: seq<Event>)
    requires events == [LATE_TEST, LATE_RESULT, LATE_TEST]
    ensures Ended(events, Pass) == {("p", "T")}
  {
    assert LastStatus(events, "p", "T") == Some(Pass) && LATE_TEST == events[2] && LATE_TEST in events;
    hide LastStatus;
    assert ("p", "T") in Ended(events, Pass);
  }

  lemma LateEventPrints(events: seq<Event>)
    requires events == [LATE_TEST, LATE_RESULT, LATE_TEST]
    ensures ListsHeld(["p"], HandleAll(events))
    ensures var report := FlushAll(HandleAll(events), ["p"]);
      && report.sections == [Section("p", [Line("T", Pass)]), Section("p", [Line("T", Pass)])]
      && report.passed == 2
  {
    var once := BLANK.(passed := 1, sections := [Section("p", [Line("T", Pass)])]);
    HandleMore([], LATE_TEST);
    HandleMore([LATE_TEST], LATE_RESULT);
    HandleMore([LATE_TEST, LATE_RESULT], LATE_TEST);
    assert [] + [LATE_TEST] == [LATE_TEST] && [LATE_TEST] + [LATE_RESULT] == [LATE_TEST, LATE_RESULT];
    assert [LATE_TEST, LATE_RESULT] + [LATE_TEST] == events;
    assert ["p"][1..] == [];
    hide Noted, Flush;
    NoteThenFlush(BLANK);
    NoteThenFlush(once);
    assert HandleAll([LATE_TEST, LATE_RESULT]) == once;
  }
}
