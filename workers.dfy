/**
 * The two background workers of the manager window: the one that installs or
 * removes a package with `apt-get` and reports whether that succeeded, and
 * the one that asks `dpkg` which packages are installed.
 */
module Workers {
  import opened Wrappers
  import opened Text

  // ---------------------------------------------------------------------
  // PackageWorker
  // ---------------------------------------------------------------------

  /** The command line run for `package`: `apt-get install` for the action `install`, `apt-get remove` for any other. */
  function Command(action: string, package: string): (cmd: seq<string>)
    ensures |cmd| == 5 && cmd[..2] == ["sudo", "apt-get"] && cmd[3] == "-y" && cmd[4] == package
    ensures cmd[2] == "install" <==> action == "install"
    ensures cmd[2] == "remove" <==> action != "install"
  {
    var verb := if action == "install" then "install" else "remove";
    ["sudo", "apt-get", verb, "-y", package]
  }

  /**
   * How the child process behaves: it prints its lines (each as `readline`
   * returns it) and exits with a return code, or an exception is raised after
   * some lines were read.
   */
  datatype ProcessRun =
    | Exited(lines: seq<string>, returncode: int)
    | Raised(lines: seq<string>, message: string)

  /** A package operation succeeded: the process exited with return code 0. */
  predicate Succeeded(run: ProcessRun) {
    run.Exited? && run.returncode == 0
  }

  /** What the worker reports when it finishes: the command it ran, its output lines, and the `finished` signal. */
  datatype WorkerReport = WorkerReport(command: seq<string>, output: seq<string>, package: string, success: bool)

  /** Every line as `strip()` leaves it. */
  function StrippedLines(lines: seq<string>): (r: seq<string>)
    ensures |r| == |lines|
    ensures forall i :: 0 <= i < |lines| ==> r[i] == Strip(lines[i])
  {
    seq(|lines|, i requires 0 <= i < |lines| => Strip(lines[i]))
  }

  /**
   * The lines the worker emits for a run: every line the process printed,
   * stripped, and after an exception one line naming it.
   */
  function WorkerOutput(run: ProcessRun): (out: seq<string>)
    ensures |out| == |run.lines| + (if run.Raised? then 1 else 0)
    ensures forall i :: 0 <= i < |run.lines| ==> out[i] == Strip(run.lines[i])
    ensures run.Raised? ==> out[|run.lines|] == "Error: " + run.message
  {
    if run.Raised? then StrippedLines(run.lines) + ["Error: " + run.message] else StrippedLines(run.lines)
  }

  /**
   * `PackageWorker.run`: every line the process prints is passed on stripped;
   * an exception adds a line starting with `Error: `, and the package is
   * reported as failed.
   */
  method RunPackageWorker(package: string, action: string, run: ProcessRun) returns (report: WorkerReport)
    ensures report.command == Command(action, package) && report.package == package
    ensures report.success <==> Succeeded(run)
    ensures report.output == WorkerOutput(run)
  {
    var cmd := if action == "install" then ["sudo", "apt-get", "install", "-y", package]
      else ["sudo", "apt-get", "remove", "-y", package];
    assert cmd == Command(action, package);
    var output: seq<string> := [];
    for i := 0 to |run.lines|
      invariant |output| == i
      invariant forall j :: 0 <= j < i ==> output[j] == Strip(run.lines[j])
    {
      output := output + [Strip(run.lines[i])];
    }
    assert output == StrippedLines(run.lines);
    match run
    case Exited(_, returncode) =>
      report := WorkerReport(cmd, output, package, returncode == 0);
    case Raised(_, message) =>
      report := WorkerReport(cmd, output + ["Error: " + message], package, false);
  }

  // ---------------------------------------------------------------------
  // StatusWorker
  // ---------------------------------------------------------------------

  /** What `dpkg -l <package>` returns: its return code and standard output. */
  datatype DpkgResult = DpkgResult(returncode: int, stdout: string)

  /** The `dpkg` query, answered from a table; no entry when running it raises an exception. */
  type Dpkg = map<string, DpkgResult>

  /** The status rule: installed when `dpkg` ran, returned 0 and printed `ii` somewhere. */
  predicate Installed(dpkg: Dpkg, package: string) {
    package in dpkg && dpkg[package].returncode == 0 && Occurs("ii", dpkg[package].stdout)
  }

  /** The two characters `ii` stand at index `k` of `out`. */
  predicate MarkAt(out: string, k: int) {
    0 <= k && k + 2 <= |out| && out[k..k + 2] == "ii"
  }

  /** The rule, stated by positions: the query ran, returned 0, and `ii` stands at some index of the output. */
  lemma InstalledSpec(dpkg: Dpkg, package: string)
    ensures Installed(dpkg, package) <==>
      package in dpkg && dpkg[package].returncode == 0 && exists k :: MarkAt(dpkg[package].stdout, k)
  {
    if Installed(dpkg, package) {
      var k := OccursWitness("ii", dpkg[package].stdout);
      assert MarkAt(dpkg[package].stdout, k);
    }
    if package in dpkg && exists k :: MarkAt(dpkg[package].stdout, k) {
      var k :| MarkAt(dpkg[package].stdout, k);
      OccursAt("ii", dpkg[package].stdout, k);
    }
  }

  /** The two signals of the status worker. */
  datatype StatusEvent = StatusUpdated(package: string, installed: bool) | Finished

  /**
   * `StatusWorker.run`: one result per package, in the order given, a failed
   * query counting as not installed for that package only, then `finished`.
   */
  method CheckStatus(packages: seq<string>, dpkg: Dpkg) returns (events: seq<StatusEvent>)
    ensures |events| == |packages| + 1 && events[|packages|] == Finished
    ensures forall i :: 0 <= i < |packages| ==> events[i] == StatusUpdated(packages[i], Installed(dpkg, packages[i]))
  {
    events := [];
    for i := 0 to |packages|
      invariant |events| == i
      invariant forall j :: 0 <= j < i ==> events[j] == StatusUpdated(packages[j], Installed(dpkg, packages[j]))
    {
      var package := packages[i];
      if package in dpkg {
        var result := dpkg[package];
        events := events + [StatusUpdated(package, result.returncode == 0 && Occurs("ii", result.stdout))];
      } else {
        events := events + [StatusUpdated(package, false)];
      }
    }
    events := events + [Finished];
  }
}
