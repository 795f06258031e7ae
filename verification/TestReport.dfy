/** What a reporter owes a stream of `go test -json` events, and the reporter's steps as functions
    (app/console/test/reporter.go). Output text, colours and timings are not modelled; what is printed
    is a sequence of sections, one line per test. */
module TestReport {
  import opened Wrappers

  datatype Action = Other | Output | Pass | Fail | Skip

  /** An empty test name marks a package's own record. */
  datatype Event = Event(action: Action, package: string, test: string)

  datatype Line = Line(test: string, status: Action)

  datatype Section = Section(package: string, lines: seq<Line>)

  predicate Terminal(action: Action) {
    action == Pass || action == Fail || action == Skip
  }

  /** A package's own verdict, after which its report is printed. */
  predicate IsResult(event: Event) {
    event.test == "" && (event.action == Pass || event.action == Fail)
  }

  // ---------- what should be reported, read off the events

  /** A package's tests in the order their first events came. */
  function FirstSeen(events: seq<Event>, package: string): seq<string> {
    if events == [] then []
    else
      var last, earlier := events[|events| - 1], FirstSeen(events[..|events| - 1], package);
      if last.package == package && last.test != "" && last.test !in earlier then earlier + [last.test] else earlier
  }

  /** The last terminal status of a test. */
  function LastStatus(events: seq<Event>, package: string, test: string): Option<Action> {
    if events == [] then None
    else
      var last := events[|events| - 1];
      if last.package == package && last.test == test && Terminal(last.action) then Some(last.action)
      else LastStatus(events[..|events| - 1], package, test)
  }

  /** The lines of a package's section: its tests that came to an end, in first-seen order. */
  function LinesFor(tests: seq<string>, events: seq<Event>, package: string): seq<Line> {
    if tests == [] then []
    else
      var status := LastStatus(events, package, tests[0]);
      (if status.Some? then [Line(tests[0], status.value)] else []) + LinesFor(tests[1..], events, package)
  }

  function SectionFor(events: seq<Event>, package: string): Section {
    Section(package, LinesFor(FirstSeen(events, package), events, package))
  }

  /** The tests that ended with a status. */
  function Ended(events: seq<Event>, status: Action): set<(string, string)> {
    set event | event in events && event.test != "" && LastStatus(events, event.package, event.test) == Some(status)
      :: (event.package, event.test)
  }

  function EmptyPackages(events: seq<Event>): nat {
    if events == [] then 0
    else
      var last := events[|events| - 1];
      EmptyPackages(events[..|events| - 1]) + if last.test == "" && last.action == Skip then 1 else 0
  }

  predicate IsTestOf(event: Event, package: string) {
    event.package == package && event.test != ""
  }

  predicate IsResultOf(event: Event, package: string) {
    event.package == package && IsResult(event)
  }

  /** A result of a package stands between two of its test events. */
  ghost predicate Split(events: seq<Event>, package: string) {
    exists i, j, k :: (0 <= i < j < k < |events|
      && IsTestOf(events[i], package) && IsResultOf(events[j], package) && IsTestOf(events[k], package))
  }

  /** No package's result stands between two of its test events; in particular when no test event
      follows its package's result. */
  ghost predicate Unsplit(events: seq<Event>) {
    forall package :: !Split(events, package)
  }

  // ---------- the reporter's state

  /** `results` holds the status of every test in `order`, `None` until one is terminal. */
  datatype PackageResults = PackageResults(order: seq<string>, results: map<string, Option<Action>>)

  datatype Report = Report(
    passed: nat, failed: nat, skipped: nat, noTests: nat,
    packages: map<string, PackageResults>, sections: seq<Section>)

  const BLANK := Report(0, 0, 0, 0, map[], [])

  function Results(report: Report, package: string): PackageResults {
    if package in report.packages then report.packages[package] else PackageResults([], map[])
  }

  function Noted(results: PackageResults, test: string, action: Action): PackageResults {
    var seen := if test in results.results then results
                else PackageResults(results.order + [test], results.results[test := None]);
    if Terminal(action) then seen.(results := seen.results[test := Some(action)]) else seen
  }

  /** The lines a flush prints. */
  function Printed(order: seq<string>, results: map<string, Option<Action>>): seq<Line> {
    if order == [] then []
    else
      (if order[0] in results && results[order[0]].Some? then [Line(order[0], results[order[0]].value)] else [])
      + Printed(order[1..], results)
  }

  function Count(lines: seq<Line>, status: Action): nat {
    if lines == [] then 0 else (if lines[0].status == status then 1 else 0) + Count(lines[1..], status)
  }

  function Flush(report: Report, package: string): Report {
    if package !in report.packages then report
    else
      var results := report.packages[package];
      var held := report.(packages := report.packages - {package});
      if results.order == [] then held
      else
        var lines := Printed(results.order, results.results);
        held.(
          passed := held.passed + Count(lines, Pass),
          failed := held.failed + Count(lines, Fail),
          skipped := held.skipped + Count(lines, Skip),
          sections := held.sections + [Section(package, lines)])
  }

  function Handle(report: Report, event: Event): Report {
    if event.test == "" then
      match event.action
      case Skip => report.(noTests := report.noTests + 1)
      case Pass => Flush(report, event.package)
      case Fail => Flush(report, event.package)
      case _ => report
    else
      var noted := Noted(Results(report, event.package), event.test, event.action);
      report.(packages := report.packages[event.package := noted])
  }

  function HandleAll(events: seq<Event>): Report {
    if events == [] then BLANK else Handle(HandleAll(events[..|events| - 1]), events[|events| - 1])
  }

  function FlushAll(report: Report, order: seq<string>): Report
    decreases |order|
  {
    if order == [] then report else FlushAll(Flush(report, order[0]), order[1..])
  }
}
