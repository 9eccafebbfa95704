/**
 * The main window of the package manager: the table of catalog entries with
 * their checkboxes and installed status, the install and remove buttons, the
 * progress bar, the status label and the output pane, and the slots that run
 * a batch of package operations one package at a time.
 */
module HamRadio {
  import opened Wrappers
  import opened Text
  import opened Entries
  import opened Catalog
  import opened Workers

  // ---------------------------------------------------------------------
  // Values shown in the window
  // ---------------------------------------------------------------------

  /** A table row: the application, its description, its short metapackage name and the status column. */
  datatype Row = Row(app: string, desc: string, pack: string, status: string)

  /** The package a `PackageWorker` was started for, and its action. */
  datatype Job = Job(package: string, action: string)

  /** The widgets of the window that the slots change; `output` holds the paragraphs appended to the output pane. */
  datatype Widgets = Widgets(
    installEnabled: bool, removeEnabled: bool,
    progressVisible: bool, progressMin: int, progressMax: int, progressValue: int,
    statusLabel: string, output: seq<string>)

  /** The message box a button shows. */
  datatype Dialog = Warning(title: string, text: string) | Question(title: string, text: string)

  /** The table, the checkboxes and the recorded statuses, which a batch does not touch. */
  datatype Listing = Listing(
    packages: seq<Entry>, rows: seq<Row>, boxOrder: seq<string>,
    checked: map<string, bool>, packageStatus: map<string, bool>)

  /** The text of the status column. */
  function StatusText(installed: bool): string {
    if installed then "Inst" else "NotInst"
  }

  /** The application names of the entries, in order. */
  function AppNames(entries: seq<Entry>): (names: seq<string>)
    ensures |names| == |entries|
    ensures forall i :: 0 <= i < |entries| ==> names[i] == entries[i].app
  {
    seq(|entries|, i requires 0 <= i < |entries| => entries[i].app)
  }

  // ---------------------------------------------------------------------
  // The table
  // ---------------------------------------------------------------------

  /**
   * The status column of row `i`: the recorded status of its application when
   * `i` is the first row of that application, `NotInst` otherwise (a status
   * update stops at the first matching row).
   */
  function StatusColumn(packages: seq<Entry>, status: map<string, bool>, i: int): string
    requires 0 <= i < |packages|
  {
    if FirstOfApp(packages, i) && packages[i].app in status then StatusText(status[packages[i].app])
    else "NotInst"
  }

  /** One row per catalog entry, in catalog order, with its status column. */
  function Table(packages: seq<Entry>, status: map<string, bool>): (rows: seq<Row>)
    ensures |rows| == |packages|
    ensures forall i :: 0 <= i < |packages| ==>
      rows[i] == Row(packages[i].app, packages[i].desc, packages[i].pack, StatusColumn(packages, status, i))
  {
    seq(|packages|, i requires 0 <= i < |packages| =>
      Row(packages[i].app, packages[i].desc, packages[i].pack, StatusColumn(packages, status, i)))
  }

  /** The index of the first row showing application `name`, or `|rows|` when no row does. */
  function FirstRow(rows: seq<Row>, name: string): (k: nat)
    ensures k <= |rows|
    ensures forall j :: 0 <= j < k ==> rows[j].app != name
    ensures k < |rows| ==> rows[k].app == name
  {
    if rows == [] then 0
    else if rows[0].app == name then 0
    else 1 + FirstRow(rows[1..], name)
  }

  /** The scan of `update_package_status` for the first row showing `name`. */
  method FindRow(rows: seq<Row>, name: string) returns (row: nat)
    ensures row == FirstRow(rows, name)
  {
    row := 0;
    while row < |rows|
      invariant row <= |rows| && FirstRow(rows, name) >= row
    {
      if rows[row].app == name {
        return;
      }
      row := row + 1;
    }
  }

  /** Before any status is recorded every row reads `NotInst`. */
  lemma FreshTable(packages: seq<Entry>)
    ensures forall i :: 0 <= i < |packages| ==> Table(packages, map[])[i].status == "NotInst"
  {
  }

  /** Setting up one more entry adds its `NotInst` row at the end of the fresh table. */
  lemma FreshTableStep(packages: seq<Entry>, n: nat)
    requires n < |packages|
    ensures Table(packages[..n + 1], map[]) ==
      Table(packages[..n], map[]) + [Row(packages[n].app, packages[n].desc, packages[n].pack, "NotInst")]
  {
    var longer := Table(packages[..n + 1], map[]);
    var shorter := Table(packages[..n], map[]);
    forall k | 0 <= k < n + 1
      ensures longer[k] == (shorter + [Row(packages[n].app, packages[n].desc, packages[n].pack, "NotInst")])[k]
    {
      assert StatusColumn(packages[..n + 1], map[], k) == "NotInst";
      if k < n {
        assert StatusColumn(packages[..n], map[], k) == "NotInst";
      }
    }
  }

  /**
   * Recording a status for `name` changes the status column of the first row
   * of `name` and no other cell; for a name no row shows it changes nothing.
   */
  lemma TableUpdate(packages: seq<Entry>, status: map<string, bool>, name: string, installed: bool)
    ensures var rows := Table(packages, status);
      var k := FirstRow(rows, name);
      Table(packages, status[name := installed]) ==
        if k < |rows| then rows[k := rows[k].(status := StatusText(installed))] else rows
  {
    var rows := Table(packages, status);
    var rows' := Table(packages, status[name := installed]);
    var k := FirstRow(rows, name);
    var expected := if k < |rows| then rows[k := rows[k].(status := StatusText(installed))] else rows;
    forall i | 0 <= i < |packages|
      ensures rows'[i] == expected[i]
    {
      if packages[i].app == name {
        if i == k {
          assert FirstOfApp(packages, i);
        } else {
          assert k < i;
          assert !FirstOfApp(packages, i);
        }
      }
    }
  }

  /** Every catalog application has a row, so a status for it is recorded. */
  lemma ShownApp(packages: seq<Entry>, status: map<string, bool>, i: nat)
    requires i < |packages|
    ensures FirstRow(Table(packages, status), packages[i].app) < |packages|
  {
    var rows := Table(packages, status);
    assert rows[i].app == packages[i].app;
  }

  /** The recorded statuses after the status rule's verdicts for `names` arrived one by one. */
  function Verdicts(status: map<string, bool>, names: seq<string>, dpkg: Dpkg): map<string, bool> {
    if names == [] then status
    else
      var last := names[|names| - 1];
      Verdicts(status, names[..|names| - 1], dpkg)[last := Installed(dpkg, last)]
  }

  /** One more verdict arriving updates the recorded statuses for its name. */
  lemma VerdictsStep(status: map<string, bool>, names: seq<string>, i: nat, dpkg: Dpkg)
    requires i < |names|
    ensures Verdicts(status, names[..i + 1], dpkg) == Verdicts(status, names[..i], dpkg)[names[i] := Installed(dpkg, names[i])]
  {
    assert names[..i + 1][..i] == names[..i];
  }

  /**
   * After a status check every checked name carries its verdict and every
   * other recorded name keeps its status.
   */
  lemma {:induction false} VerdictsSpec(status: map<string, bool>, names: seq<string>, dpkg: Dpkg)
    ensures forall a :: a in Verdicts(status, names, dpkg) <==> a in status || a in names
    ensures forall a :: a in names ==> Verdicts(status, names, dpkg)[a] == Installed(dpkg, a)
    ensures forall a :: a in status && a !in names ==> Verdicts(status, names, dpkg)[a] == status[a]
  {
    if names != [] {
      var init := names[..|names| - 1];
      assert names == init + [names[|names| - 1]];
      VerdictsSpec(status, init, dpkg);
    }
  }

  // ---------------------------------------------------------------------
  // The checkboxes
  // ---------------------------------------------------------------------

  /** The names in `order` whose checkbox is ticked, in that order. */
  function CheckedNames(order: seq<string>, checked: map<string, bool>): seq<string>
    requires forall a :: a in order ==> a in checked
  {
    if order == [] then []
    else
      var last := order[|order| - 1];
      CheckedNames(order[..|order| - 1], checked) + (if checked[last] then [last] else [])
  }

  /** The selection holds exactly the ticked names, each once when the order has no repeats. */
  lemma {:induction false} CheckedNamesSpec(order: seq<string>, checked: map<string, bool>)
    requires forall a :: a in order ==> a in checked
    ensures forall a :: a in CheckedNames(order, checked) <==> a in order && checked[a]
    ensures NoDuplicates(order) ==> NoDuplicates(CheckedNames(order, checked))
  {
    if order != [] {
      var init := order[..|order| - 1];
      var last := order[|order| - 1];
      assert order == init + [last];
      CheckedNamesSpec(init, checked);
      if NoDuplicates(order) {
        assert NoDuplicates(init) by {
          forall i, j | 0 <= i < j < |init| ensures init[i] != init[j] {
            assert init[i] == order[i] && init[j] == order[j];
          }
        }
        assert last !in init by {
          forall i | 0 <= i < |init| ensures init[i] != last {
            assert init[i] == order[i];
          }
        }
      }
    }
  }

  /** The checkbox order holds each catalog application once, in first-seen order. */
  lemma BoxOrderSpec(packages: seq<Entry>)
    ensures NoDuplicates(AppNames(Dedup(packages)))
    ensures forall a :: a in AppNames(Dedup(packages)) <==> HasApp(packages, a)
  {
    var kept := Dedup(packages);
    DedupSpec(packages);
    var names := AppNames(kept);
    forall a
      ensures a in names <==> HasApp(packages, a)
    {
      if a in names {
        var i :| 0 <= i < |names| && names[i] == a;
        assert kept[i].app == a;
      }
      if HasApp(kept, a) {
        var i :| 0 <= i < |kept| && kept[i].app == a;
        assert names[i] == a;
      }
    }
  }

  /** The dictionary of checkboxes after `packages` were entered one by one: keys in first-insertion order. */
  lemma BoxOrderStep(packages: seq<Entry>, e: Entry)
    ensures AppNames(Dedup(packages + [e])) ==
      if e.app in AppNames(Dedup(packages)) then AppNames(Dedup(packages)) else AppNames(Dedup(packages)) + [e.app]
  {
    DedupStep(packages, e);
    BoxOrderSpec(packages);
    DedupSpec(packages);
  }

  /** The question asked before a batch: the question, a blank line, then one selected name per line. */
  function Confirmation(question: string, selected: seq<string>): string {
    question + "\n\n" + Join(selected, "\n")
  }

  /**
   * The question starts with the question text and a blank line, and the lines
   * after them give back the selection, when no name holds a line break.
   */
  lemma ConfirmationLists(question: string, selected: seq<string>)
    requires selected != []
    requires forall i :: 0 <= i < |selected| ==> '\n' !in selected[i]
    ensures Confirmation(question, selected)[..|question| + 2] == question + "\n\n"
    ensures SplitOn(Confirmation(question, selected)[|question| + 2..], "\n") == selected
  {
    var text := Confirmation(question, selected);
    assert text == (question + "\n\n") + Join(selected, "\n");
    assert text[|question| + 2..] == Join(selected, "\n");
    JoinSplitChar(selected, '\n');
  }

  // ---------------------------------------------------------------------
  // Output lines and widget states of a batch
  // ---------------------------------------------------------------------

  /** The rule of fifty `=` that frames the name of the package being processed. */
  const Rule: string := "=================================================="

  /** The three paragraphs appended when the processing of `package` starts. */
  function Banner(package: string): (lines: seq<string>)
    ensures |lines| == 3 && lines[1] == "Processing: " + package
  {
    ["\n" + Rule, "Processing: " + package, Rule]
  }

  /** The paragraph appended when the operation on `package` finishes: a check mark or a cross. */
  function ResultLine(package: string, success: bool): string {
    if success then "\n\U{2713} " + package + ": Operation completed"
    else "\n\U{2717} " + package + ": Operation failed"
  }

  /** The word shown in the status label while a batch runs. */
  function ActionText(operation: string): string {
    if operation == "install" then "Installing" else "Removing"
  }

  /** The widgets once a batch is over: progress bar hidden, label `Ready`, both buttons enabled. */
  function Ready(w: Widgets): Widgets {
    w.(progressVisible := false, statusLabel := "Ready", installEnabled := true, removeEnabled := true)
  }

  /**
   * The widgets right after a batch starts: output cleared, progress 0 of the
   * batch's length shown, the action in the label, both buttons disabled, and
   * the first package's banner, or for an empty batch the state once it is over.
   */
  function Started(w: Widgets, batch: seq<string>, operation: string): Widgets {
    var started := w.(output := [], progressVisible := true, progressMin := 0, progressMax := |batch|,
      progressValue := 0, statusLabel := ActionText(operation) + "...",
      installEnabled := false, removeEnabled := false);
    if batch == [] then Ready(started) else started.(output := Banner(batch[0]))
  }

  /** What the output pane receives for one package: its banner, the worker's lines, its result line. */
  function PackageLog(report: WorkerReport): seq<string> {
    Banner(report.package) + report.output + [ResultLine(report.package, report.success)]
  }

  /** `report` is what the worker reports for `package` and `operation` when its process behaves as `run`. */
  predicate ReportFor(report: WorkerReport, package: string, operation: string, run: ProcessRun) {
    report.package == package && report.command == Command(operation, package) &&
    report.output == WorkerOutput(run) && (report.success <==> Succeeded(run))
  }

  /** The reports answer the first packages of the batch, one each, in order. */
  predicate Reported(packages: seq<string>, operation: string, runs: seq<ProcessRun>, reports: seq<WorkerReport>) {
    |reports| <= |packages| == |runs| &&
    forall i :: 0 <= i < |reports| ==> ReportFor(reports[i], packages[i], operation, runs[i])
  }

  /** A report for the next package extends the reported prefix. */
  lemma ReportedStep(packages: seq<string>, operation: string, runs: seq<ProcessRun>,
                     reports: seq<WorkerReport>, report: WorkerReport)
    requires Reported(packages, operation, runs, reports) && |reports| < |packages|
    requires ReportFor(report, packages[|reports|], operation, runs[|reports|])
    ensures Reported(packages, operation, runs, reports + [report])
  {
    var grown := reports + [report];
    forall i | 0 <= i < |grown|
      ensures ReportFor(grown[i], packages[i], operation, runs[i])
    {
      if i < |reports| {
        assert grown[i] == reports[i];
      }
    }
  }

  /** The output pane after the packages of `reports` finished, in that order. */
  function BatchLog(reports: seq<WorkerReport>): seq<string> {
    if reports == [] then []
    else BatchLog(reports[..|reports| - 1]) + PackageLog(reports[|reports| - 1])
  }

  /** Regrouping four appended pieces. */
  lemma AppendRegroup<T>(a: seq<T>, b: seq<T>, c: seq<T>, d: seq<T>)
    ensures a + b + c + d == a + (b + c + d)
  {
  }

  /** One more finished package adds its part at the end of the log. */
  lemma BatchLogStep(reports: seq<WorkerReport>, report: WorkerReport)
    ensures BatchLog(reports + [report]) == BatchLog(reports) + PackageLog(report)
  {
    assert (reports + [report])[..|reports|] == reports;
  }

  /** The output of earlier packages is never rewritten: the log of the first `m` reports starts the whole log. */
  lemma {:induction false} BatchLogPrefix(reports: seq<WorkerReport>, m: nat)
    requires m <= |reports|
    ensures BatchLog(reports[..m]) <= BatchLog(reports)
    decreases |reports|
  {
    if m < |reports| {
      var init := reports[..|reports| - 1];
      assert init[..m] == reports[..m];
      BatchLogPrefix(init, m);
    } else {
      assert reports[..m] == reports;
    }
  }

  /** The position of the result line of report `i`: the last line of its part of the log. */
  function ResultAt(reports: seq<WorkerReport>, i: nat): int
    requires i < |reports|
  {
    |BatchLog(reports[..i + 1])| - 1
  }

  /** The result line of report `i` stands at its position in the whole log. */
  lemma ResultLineAt(reports: seq<WorkerReport>, i: nat)
    requires i < |reports|
    ensures 0 <= ResultAt(reports, i) < |BatchLog(reports)|
    ensures BatchLog(reports)[ResultAt(reports, i)] == ResultLine(reports[i].package, reports[i].success)
  {
    var own := BatchLog(reports[..i + 1]);
    var part := PackageLog(reports[i]);
    assert reports[..i + 1][..i] == reports[..i];
    assert own == BatchLog(reports[..i]) + part;
    assert own[|own| - 1] == part[|part| - 1];
    BatchLogPrefix(reports, i + 1);
  }

  /** An earlier report's result line comes before a later one's. */
  lemma ResultOrder(reports: seq<WorkerReport>, i: nat, j: nat)
    requires i < j < |reports|
    ensures ResultAt(reports, i) < ResultAt(reports, j)
  {
    var upto := reports[..j + 1];
    assert upto[..j] == reports[..j];
    assert reports[..j][..i + 1] == reports[..i + 1];
    BatchLogPrefix(reports[..j], i + 1);
    assert BatchLog(upto) == BatchLog(reports[..j]) + PackageLog(reports[j]);
  }

  /** Every finished package, successful or not, has its own result line in the output pane, in batch order. */
  lemma BatchLogReports(reports: seq<WorkerReport>)
    ensures forall i :: 0 <= i < |reports| ==>
      0 <= ResultAt(reports, i) < |BatchLog(reports)| &&
      BatchLog(reports)[ResultAt(reports, i)] == ResultLine(reports[i].package, reports[i].success)
    ensures forall i, j :: 0 <= i < j < |reports| ==> ResultAt(reports, i) < ResultAt(reports, j)
  {
    forall i | 0 <= i < |reports|
      ensures 0 <= ResultAt(reports, i) < |BatchLog(reports)|
      ensures BatchLog(reports)[ResultAt(reports, i)] == ResultLine(reports[i].package, reports[i].success)
    {
      ResultLineAt(reports, i);
    }
    forall i, j | 0 <= i < j < |reports|
      ensures ResultAt(reports, i) < ResultAt(reports, j)
    {
      ResultOrder(reports, i, j);
    }
  }

  /** The rows and the checkbox dictionary once the first `n` entries are set up. */
  ghost predicate ListingUpTo(packages: seq<Entry>, n: nat, rows: seq<Row>, boxOrder: seq<string>, checked: map<string, bool>)
    requires n <= |packages|
  {
    rows == Table(packages[..n], map[]) &&
    boxOrder == AppNames(Dedup(packages[..n])) &&
    (forall a :: a in checked <==> a in boxOrder) &&
    (forall a :: a in checked ==> !checked[a])
  }

  /** Setting up entry `n`: its row is appended, and its checkbox stored, a new name going to the end. */
  lemma ListingStep(packages: seq<Entry>, n: nat, rows: seq<Row>, boxOrder: seq<string>, checked: map<string, bool>)
    requires n < |packages| && ListingUpTo(packages, n, rows, boxOrder, checked)
    ensures var e := packages[n];
      ListingUpTo(packages, n + 1, rows + [Row(e.app, e.desc, e.pack, "NotInst")],
        if e.app in checked then boxOrder else boxOrder + [e.app], checked[e.app := false])
  {
    FreshTableStep(packages, n);
    BoxOrderStep(packages[..n], packages[n]);
    assert packages[..n + 1] == packages[..n] + [packages[n]];
  }

  /**
   * The rows and the checkbox dictionary built from the catalog, entry by
   * entry: a `NotInst` row for each, and an unticked checkbox stored under its
   * application name, a repeated name keeping its first place.
   */
  method NewListing(packages: seq<Entry>) returns (rows: seq<Row>, boxOrder: seq<string>, checked: map<string, bool>)
    ensures rows == Table(packages, map[])
    ensures forall i :: 0 <= i < |rows| ==> rows[i].status == "NotInst"
    ensures boxOrder == AppNames(Dedup(packages))
    ensures forall a :: a in checked <==> a in boxOrder
    ensures forall a :: a in checked ==> !checked[a]
  {
    rows, boxOrder, checked := [], [], map[];
    for i := 0 to |packages|
      invariant ListingUpTo(packages, i, rows, boxOrder, checked)
    {
      ListingStep(packages, i, rows, boxOrder, checked);
      var e := packages[i];
      rows := rows + [Row(e.app, e.desc, e.pack, "NotInst")];
      if e.app !in checked {
        boxOrder := boxOrder + [e.app];
      }
      checked := checked[e.app := false];
    }
    assert packages[..|packages|] == packages;
    FreshTable(packages);
  }

  // ---------------------------------------------------------------------
  // The window
  // ---------------------------------------------------------------------

  class HamRadioManager {
    var packages: seq<Entry>
    var rows: seq<Row>
    /** The keys of the checkbox dictionary in insertion order, and each one's tick. */
    var boxOrder: seq<string>
    var checked: map<string, bool>
    var packageStatus: map<string, bool>
    /** The application names handed to the latest status check. */
    var statusQuery: seq<string>
    var ui: Widgets
    var currentPackages: seq<string>
    var currentOperation: string
    var worker: Option<Job>

    ghost function State(): Listing
      reads this
    {
      Listing(packages, rows, boxOrder, checked, packageStatus)
    }

    /** The table shows the recorded statuses, and the checkboxes are keyed by the catalog's applications in first-seen order. */
    ghost predicate Valid()
      reads this
    {
      rows == Table(packages, packageStatus) &&
      boxOrder == AppNames(Dedup(packages)) &&
      (forall a :: a in checked <==> a in boxOrder)
    }

    /** A batch over `batch` has finished its first `done` packages and runs the next one. */
    ghost predicate Running(batch: seq<string>, done: nat)
      reads this
    {
      done < |batch| &&
      !ui.installEnabled && !ui.removeEnabled && ui.progressVisible &&
      ui.progressMin == 0 && ui.progressMax == |batch| && ui.progressValue == done &&
      worker == Some(Job(batch[done], currentOperation)) && currentPackages == batch[done + 1..]
    }

    /** The window over the catalog `packages`: its table and checkboxes set up, and a status check started. */
    constructor (packages: seq<Entry>)
      ensures Valid() && this.packages == packages && packageStatus == map[]
      ensures forall i :: 0 <= i < |rows| ==> rows[i].status == "NotInst"
      ensures forall a :: a in checked ==> !checked[a]
      ensures statusQuery == AppNames(packages)
      ensures ui == Widgets(true, true, true, 0, 0, 0, "Checking package status...", [])
      ensures currentPackages == [] && worker == None
    {
      this.packages := packages;
      rows := [];
      boxOrder := [];
      checked := map[];
      packageStatus := map[];
      statusQuery := [];
      ui := Widgets(true, true, false, 0, 0, 0, "", []);
      currentPackages := [];
      currentOperation := "";
      worker := None;
      new;
      SetupPackageList();
      RefreshPackageStatus();
    }

    /** One `NotInst` row per entry, and one unticked checkbox per application, the first time it is seen. */
    method SetupPackageList()
      requires packageStatus == map[]
      modifies this
      ensures Valid()
      ensures forall i :: 0 <= i < |rows| ==> rows[i].status == "NotInst"
      ensures forall a :: a in checked ==> !checked[a]
      ensures unchanged(this`packages, this`packageStatus, this`statusQuery, this`ui)
      ensures unchanged(this`currentPackages, this`currentOperation, this`worker)
    {
      rows, boxOrder, checked := NewListing(packages);
    }

    /** The names whose checkbox is ticked, in the checkboxes' insertion order. */
    method GetSelectedPackages() returns (selected: seq<string>)
      requires Valid()
      ensures selected == CheckedNames(boxOrder, checked)
    {
      selected := [];
      for i := 0 to |boxOrder|
        invariant selected == CheckedNames(boxOrder[..i], checked)
      {
        var name := boxOrder[i];
        assert boxOrder[..i + 1] == boxOrder[..i] + [name];
        if checked[name] {
          selected := selected + [name];
        }
      }
      assert boxOrder[..|boxOrder|] == boxOrder;
    }

    /** The user ticks or unticks the checkbox of `name`. */
    method SetChecked(name: string, value: bool)
      requires Valid() && name in checked
      modifies this
      ensures Valid() && checked == old(checked)[name := value]
      ensures unchanged(this`packages, this`rows, this`boxOrder, this`packageStatus, this`statusQuery, this`ui)
      ensures unchanged(this`currentPackages, this`currentOperation, this`worker)
    {
      checked := checked[name := value];
    }

    /**
     * A status result: the first row showing `name` gets the status text and
     * `name` is recorded with `installed`; a name no row shows changes nothing.
     */
    method UpdatePackageStatus(name: string, installed: bool)
      requires Valid()
      modifies this
      ensures Valid()
      ensures var k := FirstRow(old(rows), name);
        if k < |old(rows)| then
          rows == old(rows)[k := old(rows)[k].(status := StatusText(installed))] &&
          packageStatus == old(packageStatus)[name := installed]
        else
          rows == old(rows) && packageStatus == old(packageStatus)
      ensures unchanged(this`packages, this`boxOrder, this`checked, this`statusQuery, this`ui)
      ensures unchanged(this`currentPackages, this`currentOperation, this`worker)
    {
      TableUpdate(packages, packageStatus, name, installed);
      var row := FindRow(rows, name);
      if row < |rows| {
        rows := rows[row := rows[row].(status := StatusText(installed))];
        packageStatus := packageStatus[name := installed];
      }
    }

    /** A status check starts: busy progress bar, its label, and the catalog's application names handed to the checker. */
    method RefreshPackageStatus()
      modifies this
      ensures statusQuery == AppNames(packages)
      ensures ui == old(ui).(statusLabel := "Checking package status...", progressVisible := true,
        progressMin := 0, progressMax := 0)
      ensures State() == old(State())
      ensures unchanged(this`currentPackages, this`currentOperation, this`worker)
    {
      ui := ui.(statusLabel := "Checking package status...");
      ui := ui.(progressVisible := true);
      ui := ui.(progressMin := 0, progressMax := 0);
      statusQuery := AppNames(packages);
    }

    /** The status check is over: progress bar hidden, label `Ready`. */
    method StatusCheckFinished()
      modifies this
      ensures ui == old(ui).(progressVisible := false, statusLabel := "Ready")
      ensures State() == old(State())
      ensures unchanged(this`statusQuery, this`currentPackages, this`currentOperation, this`worker)
    {
      ui := ui.(progressVisible := false);
      ui := ui.(statusLabel := "Ready");
    }
 
    /** A line from the worker goes to the end of the output pane. */
    method UpdateOutput(text: string)
      modifies this
      ensures ui == old(ui).(output := old(ui.output) + [text])
      ensures State() == old(State())
      ensures unchanged(this`statusQuery, this`currentPackages, this`currentOperation, this`worker)
    {
      ui := ui.(output := ui.output + [text]);
    }

    /** The batch is over: progress bar hidden, label `Ready`, both buttons enabled again. */
    method OperationFinished()
      modifies this
      ensures ui == Ready(old(ui))
      ensures State() == old(State())
      ensures unchanged(this`statusQuery, this`currentPackages, this`currentOperation, this`worker)
    {
      ui := ui.(progressVisible := false);
      ui := ui.(statusLabel := "Ready");
      ui := ui.(installEnabled := true);
      ui := ui.(removeEnabled := true);
    }

    /**
     * The next package is taken from the front of the queue, its banner
     * written and a worker started for it with the batch's operation; with
     * nothing left the batch is over.
     */
    method ProcessNextPackage()
      modifies this
      ensures State() == old(State())
      ensures unchanged(this`statusQuery, this`currentOperation)
      ensures old(currentPackages) == [] ==>
        ui == Ready(old(ui)) && currentPackages == [] && worker == old(worker)
      ensures old(currentPackages) != [] ==>
        currentPackages == old(currentPackages)[1..] &&
        worker == Some(Job(old(currentPackages)[0], currentOperation)) &&
        ui == old(ui).(output := old(ui.output) + Banner(old(currentPackages)[0]))
    {
      if currentPackages == [] {
        OperationFinished();
        return;
      }
      var package := currentPackages[0];
      currentPackages := currentPackages[1..];
      ui := ui.(output := ui.output + ["\n" + Rule]);
      ui := ui.(output := ui.output + ["Processing: " + package]);
      ui := ui.(output := ui.output + [Rule]);
      worker := Some(Job(package, currentOperation));
    }

    /**
     * A package finished, successfully or not: the progress bar advances by
     * one, the result line is written, and the next package starts.
     */
    method PackageOperationFinished(name: string, success: bool)
      modifies this
      ensures State() == old(State())
      ensures unchanged(this`statusQuery, this`currentOperation)
      ensures var counted := old(ui).(progressValue := old(ui.progressValue) + 1,
          output := old(ui.output) + [ResultLine(name, success)]);
        if old(currentPackages) == [] then
          ui == Ready(counted) && currentPackages == [] && worker == old(worker)
        else
          currentPackages == old(currentPackages)[1..] &&
          worker == Some(Job(old(currentPackages)[0], currentOperation)) &&
          ui == counted.(output := counted.output + Banner(old(currentPackages)[0]))
    {
      ui := ui.(progressValue := ui.progressValue + 1);
      if success {
        ui := ui.(output := ui.output + ["\n\U{2713} " + name + ": Operation completed"]);
      } else {
        ui := ui.(output := ui.output + ["\n\U{2717} " + name + ": Operation failed"]);
      }
      ProcessNextPackage();
    }

    /**
     * A batch starts: the output pane is cleared, the progress bar shows 0 of
     * the batch's length, the label names the action, both buttons are
     * disabled, and the queue is a copy of `packages`, whose first package starts.
     */
    method ExecutePackageOperations(packages: seq<string>, operation: string)
      modifies this
      ensures State() == old(State())
      ensures unchanged(this`statusQuery)
      ensures currentOperation == operation
      ensures ui == Started(old(ui), packages, operation)
      ensures packages == [] ==> currentPackages == [] && worker == old(worker)
      ensures packages != [] ==> Running(packages, 0)
    {
      var actionText := if operation == "install" then "Installing" else "Removing";
      ui := ui.(output := [], progressVisible := true, progressMin := 0, progressMax := |packages|,
        progressValue := 0, statusLabel := actionText + "...", installEnabled := false, removeEnabled := false);
      currentPackages := packages;
      currentOperation := operation;
      ProcessNextPackage();
    }
 
    /**
     * The install button: with nothing ticked a warning and no change;
     * otherwise the question listing the ticked names, and on `confirm` (the
     * user's Yes) an install batch over them.
     */
    method InstallSelected(confirm: bool) returns (dialog: Dialog)
      requires Valid()
      modifies this
      ensures Valid() && State() == old(State()) && unchanged(this`statusQuery)
      ensures var selected := CheckedNames(old(boxOrder), old(checked));
        if selected == [] then
          dialog == Warning("No packages selected", "Please select packages first") && unchanged(this)
        else
          dialog == Question("Confirm Installation", Confirmation("Install the following packages?", selected)) &&
          (!confirm ==> unchanged(this)) &&
          (confirm ==>
            (currentOperation == "install" && ui == Started(old(ui), selected, "install") && Running(selected, 0)))
    {
      var selected := GetSelectedPackages();
      if selected == [] {
        dialog := Warning("No packages selected", "Please select packages first");
        return;
      }
      dialog := Question("Confirm Installation", "Install the following packages?" + "\n\n" + Join(selected, "\n"));
      if confirm {
        ExecutePackageOperations(selected, "install");
      }
    }

    /** The remove button: as the install button, with the remove question and a remove batch. */
    method RemoveSelected(confirm: bool) returns (dialog: Dialog)
      requires Valid()
      modifies this
      ensures Valid() && State() == old(State()) && unchanged(this`statusQuery)
      ensures var selected := CheckedNames(old(boxOrder), old(checked));
        if selected == [] then
          dialog == Warning("No packages selected", "Please select packages first") && unchanged(this)
        else
          dialog == Question("Confirm Removal", Confirmation("Remove the following packages?", selected)) &&
          (!confirm ==> unchanged(this)) &&
          (confirm ==>
            (currentOperation == "remove" && ui == Started(old(ui), selected, "remove") && Running(selected, 0)))
    {
      var selected := GetSelectedPackages();
      if selected == [] {
        dialog := Warning("No packages selected", "Please select packages first");
        return;
      }
      dialog := Question("Confirm Removal", "Remove the following packages?" + "\n\n" + Join(selected, "\n"));
      if confirm {
        ExecutePackageOperations(selected, "remove");
      }
    }

    /** The worker's lines, one after another, go to the end of the output pane. */
    method ForwardOutput(lines: seq<string>)
      modifies this
      ensures ui == old(ui).(output := old(ui.output) + lines)
      ensures State() == old(State())
      ensures unchanged(this`statusQuery, this`currentPackages, this`currentOperation, this`worker)
    {
      for k := 0 to |lines|
        invariant ui == old(ui).(output := old(ui.output) + lines[..k])
        invariant State() == old(State())
        invariant unchanged(this`statusQuery, this`currentPackages, this`currentOperation, this`worker)
      {
        assert lines[..k + 1] == lines[..k] + [lines[k]];
        UpdateOutput(lines[k]);
      }
      assert lines[..|lines|] == lines;
    }

    /** The batch is over: the log of every package shown, progress full, the window ready again. */
    ghost predicate BatchOver(packages: seq<string>, reports: seq<WorkerReport>)
      reads this
    {
      ui.output == BatchLog(reports) &&
      ui.progressMin == 0 && ui.progressMax == |packages| && ui.progressValue == |packages| &&
      !ui.progressVisible && ui.statusLabel == "Ready" && ui.installEnabled && ui.removeEnabled &&
      currentPackages == []
    }

    /**
     * A batch of `operation` over `packages` has reported on its first
     * `|reports|` packages: the next one runs after its banner, or all are done.
     */
    ghost predicate InBatch(packages: seq<string>, operation: string, runs: seq<ProcessRun>, reports: seq<WorkerReport>)
      reads this
    {
      Reported(packages, operation, runs, reports) && currentOperation == operation &&
      if |reports| < |packages| then
        Running(packages, |reports|) && ui.output == BatchLog(reports) + Banner(packages[|reports|])
      else
        BatchOver(packages, reports)
    }

    /**
     * The running worker's process behaves as the next entry of `runs`: its
     * lines reach the output pane, then its `finished` signal advances the batch.
     */
    method RunNext(packages: seq<string>, operation: string, runs: seq<ProcessRun>, reports: seq<WorkerReport>)
      returns (report: WorkerReport)
      requires InBatch(packages, operation, runs, reports) && |reports| < |packages|
      modifies this
      ensures InBatch(packages, operation, runs, reports + [report])
      ensures State() == old(State()) && unchanged(this`statusQuery)
    {
      var done := |reports|;
      var job := worker.value;
      report := RunPackageWorker(job.package, job.action, runs[done]);
      ReportedStep(packages, operation, runs, reports, report);
      BatchLogStep(reports, report);
      AppendRegroup(BatchLog(reports), Banner(report.package), report.output,
        [ResultLine(report.package, report.success)]);
      ForwardOutput(report.output);
      PackageOperationFinished(report.package, report.success);
    }

    /**
     * A whole batch, each package's process behaving as in `runs`: one report
     * per package in the order given, a failure never stopping the batch, the
     * progress bar counting up to the batch's length, the log of every package
     * in the output pane, and the buttons enabled again at the end.
     */
    method RunBatch(packages: seq<string>, operation: string, runs: seq<ProcessRun>) returns (reports: seq<WorkerReport>)
      requires Valid() && |runs| == |packages|
      modifies this
      ensures Valid() && State() == old(State()) && unchanged(this`statusQuery)
      ensures |reports| == |packages|
      ensures forall i :: 0 <= i < |packages| ==> ReportFor(reports[i], packages[i], operation, runs[i])
      ensures ui.output == BatchLog(reports)
      ensures ui.progressMin == 0 && ui.progressMax == |packages| && ui.progressValue == |packages|
      ensures !ui.progressVisible && ui.statusLabel == "Ready" && ui.installEnabled && ui.removeEnabled
      ensures currentPackages == [] && currentOperation == operation
    {
      ExecutePackageOperations(packages, operation);
      reports := [];
      while |reports| < |packages|
        invariant InBatch(packages, operation, runs, reports)
        invariant State() == old(State()) && unchanged(this`statusQuery)
        decreases |packages| - |reports|
      {
        var report := RunNext(packages, operation, runs, reports);
        reports := reports + [report];
      }
    }

    /**
     * A status check over `dpkg`: every application of the catalog gets the
     * status rule's verdict, shown in its first row; other recorded names keep
     * theirs; the progress bar is hidden and the label reads `Ready`.
     */
    method RefreshWith(dpkg: Dpkg)
      requires Valid()
      modifies this
      ensures Valid()
      ensures unchanged(this`packages, this`boxOrder, this`checked)
      ensures unchanged(this`currentPackages, this`currentOperation, this`worker)
      ensures statusQuery == AppNames(packages)
      ensures ui == old(ui).(statusLabel := "Ready", progressVisible := false, progressMin := 0, progressMax := 0)
      ensures packageStatus == Verdicts(old(packageStatus), statusQuery, dpkg)
    {
      RefreshPackageStatus();
      var query := statusQuery;
      var events := CheckStatus(query, dpkg);
      for i := 0 to |query|
        invariant Valid()
        invariant unchanged(this`packages, this`boxOrder, this`checked)
        invariant unchanged(this`currentPackages, this`currentOperation, this`worker)
        invariant statusQuery == query == AppNames(packages)
        invariant ui == old(ui).(statusLabel := "Checking package status...", progressVisible := true,
          progressMin := 0, progressMax := 0)
        invariant packageStatus == Verdicts(old(packageStatus), query[..i], dpkg)
      {
        var name := query[i];
        VerdictsStep(old(packageStatus), query, i, dpkg);
        assert events[i] == StatusUpdated(name, Installed(dpkg, name));
        ShownApp(packages, packageStatus, i);
        UpdatePackageStatus(events[i].package, events[i].installed);
      }
      assert query[..|query|] == query;
      assert events[|query|] == Finished;
      StatusCheckFinished();
    }
  }
}
