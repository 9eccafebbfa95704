/**
 * The two `apt-cache` queries of the catalog builder and the parsers of their
 * text output: `get_pack_tree` (dependencies and recommendations of a
 * package) and `get_pack_info` (name, description and metapackage flag of a
 * package stanza).
 */
module AptParse {
  import opened Wrappers
  import opened Text

  /**
   * A query of `apt-cache` answered from a table: the text the command prints
   * for a package name, and no entry when the command fails.
   */
  type Oracle = map<string, string>

  function Query(oracle: Oracle, package: string): Option<string> {
    if package in oracle then Some(oracle[package]) else None
  }

  /** `output.split('\n')` */
  function Lines(output: string): seq<string> {
    SplitOn(output, "\n")
  }

  /** `line.split(marker)[1]`: the text after the first `marker`, up to a second one if any. */
  function AfterLabel(line: string, marker: string): string
    requires marker != [] && Occurs(marker, line)
  {
    SplitHasSecondIff(line, marker);
    SplitOn(line, marker)[1]
  }

  lemma StartsWithOccurs(line: string, prefix: string)
    requires StartsWith(line, prefix)
    ensures Occurs(prefix, line)
  {
  }

  /** A line starting with `  Depends: ` holds `Depends: `. */
  lemma DependsOccurs(line: string)
    requires StartsWith(line, "  Depends: ")
    ensures Occurs("Depends: ", line)
  {
    assert line[2..11] == "  Depends: "[2..];
    OccursAt("Depends: ", line, 2);
  }

  /** A line starting with `  Recommends: ` holds `Recommends: `. */
  lemma RecommendsOccurs(line: string)
    requires StartsWith(line, "  Recommends: ")
    ensures Occurs("Recommends: ", line)
  {
    assert line[2..14] == "  Recommends: "[2..];
    OccursAt("Recommends: ", line, 2);
  }

  // ---------------------------------------------------------------------
  // apt-cache depends
  // ---------------------------------------------------------------------

  /** What one dependency line gives: the text after its marker, stripped, cut before the first ':'. */
  function DependencyName(line: string, marker: string): string
    requires marker != [] && Occurs(marker, line)
  {
    SplitOn(Strip(AfterLabel(line, marker)), ":")[0]
  }

  /** The names one output line contributes: one for a `Depends` or `Recommends` line, none otherwise. */
  function LineDependencies(line: string): seq<string>
  {
    (if StartsWith(line, "  Depends: ") then DependsOccurs(line); [DependencyName(line, "Depends: ")] else [])
    + (if StartsWith(line, "  Recommends: ") then RecommendsOccurs(line); [DependencyName(line, "Recommends: ")] else [])
  }

  /** The list `get_pack_tree` builds from the lines of a successful query. */
  function DependencyList(lines: seq<string>): seq<string>
  {
    if lines == [] then []
    else DependencyList(lines[..|lines| - 1]) + LineDependencies(lines[|lines| - 1])
  }

  /** `get_pack_tree(package)`: the empty list whenever the query fails. */
  function PackTree(depends: Oracle, package: string): seq<string>
  {
    match Query(depends, package)
    case None => []
    case Some(output) => DependencyList(Lines(output))
  }

  /** The loop body of `get_pack_tree` for one output line. */
  method ReadDependencyLine(line: string) returns (names: seq<string>)
    ensures names == LineDependencies(line)
  {
    names := [];
    if StartsWith(line, "  Depends: ") {
      DependsOccurs(line);
      var dep := Strip(AfterLabel(line, "Depends: "));
      names := names + [SplitOn(dep, ":")[0]];
    }
    if StartsWith(line, "  Recommends: ") {
      RecommendsOccurs(line);
      var dep := Strip(AfterLabel(line, "Recommends: "));
      names := names + [SplitOn(dep, ":")[0]];
    }
  }

  method GetPackTree(depends: Oracle, package: string) returns (dependencies: seq<string>)
    ensures dependencies == PackTree(depends, package)
    ensures package !in depends ==> dependencies == []
  {
    var result := Query(depends, package);
    if result.None? {
      return [];
    }
    var lines := Lines(result.value);
    dependencies := [];
    for i := 0 to |lines|
      invariant dependencies == DependencyList(lines[..i])
    {
      DependencyListStep(lines, i);
      var names := ReadDependencyLine(lines[i]);
      dependencies := dependencies + names;
    }
    assert lines[..|lines|] == lines;
  }

  /** Reading one more line appends that line's names. */
  lemma DependencyListStep(lines: seq<string>, i: nat)
    requires i < |lines|
    ensures DependencyList(lines[..i + 1]) == DependencyList(lines[..i]) + LineDependencies(lines[i])
  {
    assert lines[..i + 1][..i] == lines[..i];
  }

  /** The lines are read in order: the list of a concatenation is the concatenation of the lists. */
  lemma {:induction false} DependencyListAppend(a: seq<string>, b: seq<string>)
    ensures DependencyList(a + b) == DependencyList(a) + DependencyList(b)
    decreases |b|
  {
    if b == [] {
      assert a + b == a;
    } else {
      var init, last := b[..|b| - 1], b[|b| - 1];
      assert (a + b)[..|a + b| - 1] == a + init && (a + b)[|a + b| - 1] == last;
      assert DependencyList(a + b) == DependencyList(a + init) + LineDependencies(last);
      assert DependencyList(b) == DependencyList(init) + LineDependencies(last);
      DependencyListAppend(a, init);
      AppendAssoc(DependencyList(a), DependencyList(init), LineDependencies(last));
    }
  }

  lemma AppendAssoc<T>(x: seq<T>, y: seq<T>, z: seq<T>)
    ensures (x + y) + z == x + (y + z)
  {
  }

  /** A single line contributes exactly what `LineDependencies` says. */
  lemma DependencyListSingle(line: string)
    ensures DependencyList([line]) == LineDependencies(line)
  {
    assert [line][..0] == [];
  }

  /** A dependency name as the parser leaves it: no ':' and no leading whitespace. */
  predicate CleanName(d: string) {
    ':' !in d && (d == [] || !IsSpace(d[0]))
  }

  /** Every name `get_pack_tree` returns has no ':' and does not start with whitespace. */
  lemma {:induction false} DependencyNamesClean(lines: seq<string>)
    ensures forall d :: d in DependencyList(lines) ==> CleanName(d)
    decreases |lines|
  {
    if lines != [] {
      var init, last := lines[..|lines| - 1], lines[|lines| - 1];
      DependencyNamesClean(init);
      LineNamesClean(last);
      assert DependencyList(lines) == DependencyList(init) + LineDependencies(last);
    }
  }

  /** The names one line contributes hold no colon and start with no space. */
  lemma LineNamesClean(line: string)
    ensures forall d :: d in LineDependencies(line) ==> CleanName(d)
  {
    var first: seq<string> := [];
    var second: seq<string> := [];
    if StartsWith(line, "  Depends: ") {
      DependsOccurs(line);
      NameClean(line, "Depends: ");
      first := [DependencyName(line, "Depends: ")];
    }
    if StartsWith(line, "  Recommends: ") {
      RecommendsOccurs(line);
      NameClean(line, "Recommends: ");
      second := [DependencyName(line, "Recommends: ")];
    }
    assert LineDependencies(line) == first + second;
  }

  lemma NameClean(line: string, marker: string)
    requires marker != [] && Occurs(marker, line)
    ensures CleanName(DependencyName(line, marker))
  {
    var dep := Strip(AfterLabel(line, marker));
    var d := SplitOn(dep, ":")[0];
    SplitPiecesFree(dep, ":");
    OccursChar(':', d);
    SplitFirstIsPrefix(dep, ":");
  }

  /** Which of the two labels introduces a dependency line. */
  datatype Relation = Depends | Recommends

  datatype Dependency = Dependency(relation: Relation, name: string)

  /** A name as `apt-cache` prints it: no ':', no newline, no whitespace at either end. */
  predicate PlainName(n: string) {
    ':' !in n && '\n' !in n && (n == [] || (!IsSpace(n[0]) && !IsSpace(n[|n| - 1])))
  }

  function DependencyLine(d: Dependency): string {
    match d.relation
    case Depends => "  Depends: " + d.name
    case Recommends => "  Recommends: " + d.name
  }

  function DependencyLines(ds: seq<Dependency>): (r: seq<string>)
    ensures |r| == |ds|
    ensures forall i :: 0 <= i < |ds| ==> r[i] == DependencyLine(ds[i])
  {
    if ds == [] then [] else [DependencyLine(ds[0])] + DependencyLines(ds[1..])
  }

  function Names(ds: seq<Dependency>): seq<string> {
    if ds == [] then [] else [ds[0].name] + Names(ds[1..])
  }

  /** What `apt-cache depends` prints for `package`: its name, then one line per dependency. */
  function DependsOutput(package: string, ds: seq<Dependency>): string {
    Join([package] + DependencyLines(ds), "\n")
  }

  /** A printed dependency line holds no line break when its name holds none. */
  lemma DependencyLineSingle(d: Dependency)
    requires '\n' !in d.name
    ensures '\n' !in DependencyLine(d)
  {
    var prefix := if d.relation == Depends then "  Depends: " else "  Recommends: ";
    var line := DependencyLine(d);
    assert line == prefix + d.name;
    forall j | 0 <= j < |line| ensures line[j] != '\n' {
      if j < |prefix| {
        assert line[j] == prefix[j];
      } else {
        assert line[j] == d.name[j - |prefix|];
      }
    }
  }

  /** The printed listing splits into its header line and the dependency lines. */
  lemma DependsOutputLines(package: string, ds: seq<Dependency>)
    requires PlainName(package)
    requires forall i :: 0 <= i < |ds| ==> PlainName(ds[i].name)
    ensures Lines(DependsOutput(package, ds)) == [package] + DependencyLines(ds)
  {
    var lines := [package] + DependencyLines(ds);
    forall i | 0 <= i < |lines|
      ensures '\n' !in lines[i]
    {
      if i > 0 {
        assert lines[i] == DependencyLine(ds[i - 1]);
        DependencyLineSingle(ds[i - 1]);
      }
    }
    JoinSplitChar(lines, '\n');
  }

  /** The header line, a plain package name, contributes no dependency. */
  lemma HeaderLineSilent(package: string)
    requires PlainName(package)
    ensures DependencyList([package]) == []
  {
    DependencyListSingle(package);
    if package != [] {
      DiffersAt(package, "  Depends: ", 0);
      DiffersAt(package, "  Recommends: ", 0);
    }
  }

  /** The parser reads back the dependency names that a `depends` listing prints, in order. */
  lemma PackTreeRoundTrip(package: string, ds: seq<Dependency>)
    requires PlainName(package)
    requires forall i :: 0 <= i < |ds| ==> PlainName(ds[i].name)
    ensures PackTree(map[package := DependsOutput(package, ds)], package) == Names(ds)
  {
    DependsOutputLines(package, ds);
    HeaderLineSilent(package);
    DependencyListAppend([package], DependencyLines(ds));
    DependencyLinesRead(ds);
  }

  lemma {:induction false} DependencyLinesRead(ds: seq<Dependency>)
    requires forall i :: 0 <= i < |ds| ==> PlainName(ds[i].name)
    ensures DependencyList(DependencyLines(ds)) == Names(ds)
    decreases |ds|
  {
    if ds != [] {
      DependencyLinesRead(ds[1..]);
      DependencyListAppend([DependencyLine(ds[0])], DependencyLines(ds[1..]));
      DependencyListSingle(DependencyLine(ds[0]));
      DependencyLineRead(ds[0]);
    }
  }

  /** One printed dependency line gives back its name: the other label does not start it. */
  lemma DependencyLineRead(d: Dependency)
    requires PlainName(d.name)
    ensures LineDependencies(DependencyLine(d)) == [d.name]
  {
    var n, line := d.name, DependencyLine(d);
    if d.relation == Depends {
      assert line == "  " + "Depends: " + n;
      DiffersAt(line, "  Recommends: ", 2);
      LabelledLineRead(n, "Depends: ");
    } else {
      assert line == "  " + "Recommends: " + n;
      DiffersAt(line, "  Depends: ", 2);
      LabelledLineRead(n, "Recommends: ");
    }
  }

  /** A string that differs from `p` at some index before the end of both does not start with `p`. */
  lemma DiffersAt(s: string, p: string, k: nat)
    requires k < |p| && k < |s| && s[k] != p[k]
    ensures !StartsWith(s, p)
  {
  }

  lemma LabelledLineRead(n: string, marker: string)
    requires PlainName(n)
    requires marker != [] && marker[0] != ' ' && ':' in marker
    ensures Occurs(marker, "  " + marker + n)
    ensures DependencyName("  " + marker + n, marker) == n
  {
    var line := "  " + marker + n;
    forall i | 0 <= i < 2
      ensures !StartsWith(line[i..], marker)
    {
      assert line[i] == ' ';
    }
    SplitSkip(line, marker, 2);
    assert line[2..] == marker + n;
    assert StartsWith(line[2..], marker);
    assert line[2..][|marker|..] == n;
    OccursAt(marker, line, 2);
    LabelAbsent(marker, n);
    SplitAbsent(n, marker);
    assert AfterLabel(line, marker) == n;
    StripUnchanged(n);
    OccursChar(':', n);
    SplitAbsent(n, ":");
  }

  /** A marker holding ':' cannot occur in a text without ':'. */
  lemma LabelAbsent(marker: string, v: string)
    requires ':' in marker && ':' !in v
    ensures !Occurs(marker, v)
  {
    if Occurs(marker, v) {
      var k :| 0 <= k < |marker| && marker[k] == ':';
      OccursCharIn(marker, v, k);
    }
  }

  /** Every character of a string that occurs in `s` is in `s`. */
  lemma {:induction false} OccursCharIn(t: string, s: string, k: nat)
    requires Occurs(t, s) && k < |t|
    ensures t[k] in s
    decreases |s|
  {
    if StartsWith(s, t) {
      assert s[k] == t[k];
    } else {
      OccursCharIn(t, s[1..], k);
    }
  }

  // ---------------------------------------------------------------------
  // apt-cache show
  // ---------------------------------------------------------------------

  /**
   * A line `get_pack_info` can read without raising: a line starting with
   * `Description-en` must hold `Description-en: `, or `split(...)[1]` fails.
   */
  predicate LineParsable(line: string) {
    StartsWith(line, "Description-en") ==> Occurs("Description-en: ", line)
  }

  /**
   * The scan from `st` raises on none of the lines it reads: every line up to
   * the one at which it stops, or up to the end, can be read. Lines after the
   * stop are never read and may be anything.
   */
  predicate Readable(lines: seq<string>, st: Stanza)
    decreases |lines|
  {
    lines == [] ||
    (LineParsable(lines[0]) &&
     var next := ScanLine(lines[0], st);
     Stops(lines[0], next) || Readable(lines[1..], next))
  }

  /** Every answer of the `show` table can be scanned without raising. */
  predicate ShowWellFormed(show: Oracle) {
    forall p :: p in show ==> Readable(Lines(show[p]), Unset)
  }

  /** Index of the first `c` in `s`. */
  function FirstIndex(s: string, c: char): (r: Option<nat>)
    ensures r.Some? ==> r.value < |s| && s[r.value] == c && forall j :: 0 <= j < r.value ==> s[j] != c
    ensures r.None? ==> c !in s
  {
    if s == [] then None
    else if s[0] == c then Some(0)
    else match FirstIndex(s[1..], c)
      case None => None
      case Some(k) => Some(k + 1)
  }

  /** Index of the last `c` in `s`. */
  function LastIndex(s: string, c: char): (r: Option<nat>)
    ensures r.Some? ==> r.value < |s| && s[r.value] == c && forall j :: r.value < j < |s| ==> s[j] != c
    ensures r.None? ==> c !in s
  {
    if s == [] then None
    else if s[|s| - 1] == c then Some(|s| - 1)
    else LastIndex(s[..|s| - 1], c)
  }

  /** Start of the run of whitespace that ends at index `p`. */
  function SpaceRunStart(s: string, p: nat): (i: nat)
    requires p <= |s|
    ensures i <= p && (i == 0 || !IsSpace(s[i - 1]))
    ensures forall j :: i <= j < p ==> IsSpace(s[j])
  {
    if p > 0 && IsSpace(s[p - 1]) then SpaceRunStart(s, p - 1) else p
  }

  /** End of the run of whitespace that starts at index `q`. */
  function SpaceRunEnd(s: string, q: nat): (e: nat)
    requires q <= |s|
    ensures q <= e <= |s| && (e == |s| || !IsSpace(s[e]))
    ensures forall j :: q <= j < e ==> IsSpace(s[j])
    decreases |s| - q
  {
    if q < |s| && IsSpace(s[q]) then SpaceRunEnd(s, q + 1) else q
  }

  /** Some '(' is followed, later in the string, by a ')'. */
  predicate HasParenthetical(s: string) {
    exists i, j :: 0 <= i < j < |s| && s[i] == '(' && s[j] == ')'
  }

  /**
   * `re.sub(r'\s*\(.*\)\s*', '', d)`. The pattern matches at most once: from
   * the whitespace before the first '(' to the whitespace after the last ')',
   * provided a ')' follows that '('.
   */
  function StripParenthetical(d: string): string
  {
    var open := FirstIndex(d, '(');
    var close := LastIndex(d, ')');
    if open.Some? && close.Some? && open.value < close.value then
      d[..SpaceRunStart(d, open.value)] + d[SpaceRunEnd(d, close.value + 1)..]
    else d
  }

  /** After the substitution no parenthesised span is left, and a text without one is kept as it is. */
  lemma StripParentheticalSpec(d: string)
    ensures !HasParenthetical(StripParenthetical(d))
    ensures !HasParenthetical(d) ==> StripParenthetical(d) == d
    ensures HasParenthetical(d) ==> |StripParenthetical(d)| + 2 <= |d|
  {
    var open := FirstIndex(d, '(');
    var close := LastIndex(d, ')');
    if open.Some? && close.Some? && open.value < close.value {
      var i := SpaceRunStart(d, open.value);
      var e := SpaceRunEnd(d, close.value + 1);
      assert HasParenthetical(d) by {
        assert d[open.value] == '(' && d[close.value] == ')';
      }
    }
  }

  /** Substitution is idempotent. */
  lemma StripParentheticalIdempotent(d: string)
    ensures StripParenthetical(StripParenthetical(d)) == StripParenthetical(d)
  {
    StripParentheticalSpec(d);
    StripParentheticalSpec(StripParenthetical(d));
  }

  /** The description `get_pack_info` keeps: stripped, first line, parenthesised annotation removed. */
  function CleanDescription(text: string): string {
    StripParenthetical(SplitOn(Strip(text), "\n")[0])
  }

  /** The three variables the scan of a stanza updates; `None` until a line sets them. */
  datatype Stanza = Stanza(name: Option<string>, description: Option<string>, section: Option<string>)

  const Unset := Stanza(None, None, None)

  /** One iteration of the scan of a `show` listing, before the test for stopping. */
  function ScanLine(line: string, st: Stanza): Stanza
    requires LineParsable(line)
  {
    if StartsWith(line, "Package: ") then
      st.(name := Some(Strip(AfterLabel(line, "Package: "))))
    else if StartsWith(line, "Description-en") then
      st.(description := Some(CleanDescription(AfterLabel(line, "Description-en: "))))
    else if StartsWith(line, "Section: ") then
      st.(section := Some(Strip(AfterLabel(line, "Section: "))))
    else st
  }

  /** The scan stops after a non-empty line once description and section are both non-empty. */
  predicate Stops(line: string, st: Stanza) {
    line != "" && Truthy(st.description) && Truthy(st.section)
  }

  function ScanFrom(lines: seq<string>, st: Stanza): Stanza
    requires Readable(lines, st)
  {
    if lines == [] then st
    else
      var next := ScanLine(lines[0], st);
      if Stops(lines[0], next) then next else ScanFrom(lines[1..], next)
  }

  /** What `get_pack_info` reports: name, description and whether the section is `metapackages`. */
  datatype Info = Info(name: Option<string>, description: Option<string>, meta: Option<bool>)

  const QueryFailed := Info(None, None, None)

  function PackInfo(show: Oracle, package: string): Info
    requires ShowWellFormed(show)
  {
    match Query(show, package)
    case None => QueryFailed
    case Some(output) =>
      var st := ScanFrom(Lines(output), Unset);
      Info(st.name, st.description, Some(st.section == Some("metapackages")))
  }

  /** The scan from line `i` takes that line and then stops or goes on from line `i + 1`. */
  lemma ScanFromStep(lines: seq<string>, i: nat, st: Stanza)
    requires i < |lines| && Readable(lines[i..], st)
    ensures LineParsable(lines[i])
    ensures !Stops(lines[i], ScanLine(lines[i], st)) ==> Readable(lines[i + 1..], ScanLine(lines[i], st))
    ensures ScanFrom(lines[i..], st) ==
      var next := ScanLine(lines[i], st);
      if Stops(lines[i], next) then next else ScanFrom(lines[i + 1..], next)
  {
    assert lines[i..][0] == lines[i] && lines[i..][1..] == lines[i + 1..];
  }

  /** The loop body of `get_pack_info` for one line, before the test for stopping. */
  method ReadShowLine(line: string, st: Stanza) returns (next: Stanza)
    requires LineParsable(line)
    ensures next == ScanLine(line, st)
  {
    var name, description, section := st.name, st.description, st.section;
    if StartsWith(line, "Package: ") {
      name := Some(Strip(AfterLabel(line, "Package: ")));
    } else if StartsWith(line, "Description-en") {
      description := Some(CleanDescription(AfterLabel(line, "Description-en: ")));
    } else if StartsWith(line, "Section: ") {
      section := Some(Strip(AfterLabel(line, "Section: ")));
    }
    next := Stanza(name, description, section);
  }

  method GetPackInfo(show: Oracle, package: string) returns (info: Info)
    requires ShowWellFormed(show)
    ensures info == PackInfo(show, package)
    ensures package !in show ==> info == QueryFailed
    ensures package in show ==> info.meta.Some?
  {
    var result := Query(show, package);
    if result.None? {
      return QueryFailed;
    }
    var lines := Lines(result.value);
    var st := Unset;
    var i := 0;
    assert lines[0..] == lines;
    while i < |lines|
      invariant 0 <= i <= |lines|
      invariant Readable(lines[i..], st) && ScanFrom(lines[i..], st) == ScanFrom(lines, Unset)
    {
      ScanFromStep(lines, i, st);
      st := ReadShowLine(lines[i], st);
      if Stops(lines[i], st) {
        break;
      }
      i := i + 1;
    }
    info := Info(st.name, st.description, Some(st.section == Some("metapackages")));
  }

  /** The scan runs into a line at which it stops. */
  predicate StopsWithin(lines: seq<string>, st: Stanza)
    requires Readable(lines, st)
  {
    lines != [] &&
    var next := ScanLine(lines[0], st);
    Stops(lines[0], next) || StopsWithin(lines[1..], next)
  }

  lemma AppendHeadTail<T>(a: seq<T>, b: seq<T>)
    requires a != []
    ensures (a + b)[0] == a[0] && (a + b)[1..] == a[1..] + b
  {
  }

  /** Once the scan has stopped, the lines that follow change nothing and need not be readable. */
  lemma {:induction false} ScanIgnoresRest(a: seq<string>, b: seq<string>, st: Stanza)
    requires Readable(a, st) && StopsWithin(a, st)
    ensures Readable(a + b, st)
    ensures ScanFrom(a + b, st) == ScanFrom(a, st)
    decreases |a|
  {
    AppendHeadTail(a, b);
    var next := ScanLine(a[0], st);
    if !Stops(a[0], next) {
      ScanIgnoresRest(a[1..], b, next);
      assert ScanFrom(a + b, st) == ScanFrom(a[1..] + b, next);
    }
  }

  /** The name reported comes from a `Package: ` line, stripped (the last one the scan read). */
  lemma {:induction false} ScanNameFromPackageLine(lines: seq<string>, st: Stanza)
    requires Readable(lines, st)
    ensures var r := ScanFrom(lines, st);
      r.name == st.name ||
      exists i :: 0 <= i < |lines| && StartsWith(lines[i], "Package: ")
        && r.name == Some(Strip(AfterLabel(lines[i], "Package: ")))
    decreases |lines|
  {
    if lines != [] {
      var next := ScanLine(lines[0], st);
      if !Stops(lines[0], next) {
        ScanNameFromPackageLine(lines[1..], next);
        var r := ScanFrom(lines, st);
        if r.name != next.name {
          var i :| 0 <= i < |lines[1..]| && StartsWith(lines[1..][i], "Package: ")
            && r.name == Some(Strip(AfterLabel(lines[1..][i], "Package: ")));
          assert lines[i + 1] == lines[1..][i];
        }
      }
    }
  }

  /** How many lines the scan reads: up to and including the one at which it stops, or all of them. */
  function ReadCount(lines: seq<string>, st: Stanza): (n: nat)
    requires Readable(lines, st)
    ensures n <= |lines|
    ensures lines != [] ==> n > 0
    decreases |lines|
  {
    if lines == [] then 0
    else
      var next := ScanLine(lines[0], st);
      if Stops(lines[0], next) then 1 else 1 + ReadCount(lines[1..], next)
  }

  predicate SectionLine(line: string) {
    StartsWith(line, "Section: ")
  }

  /** The section a `Section: ` line sets. */
  function SectionValue(line: string): string
    requires SectionLine(line)
  {
    Strip(AfterLabel(line, "Section: "))
  }

  /** None of the first `n` lines is a `Section: ` line. */
  predicate NoSectionLine(lines: seq<string>, n: nat)
    requires n <= |lines|
  {
    forall j :: 0 <= j < n ==> !SectionLine(lines[j])
  }

  /** Line `i` is the last `Section: ` line among the first `n`. */
  predicate LastSectionLine(lines: seq<string>, n: nat, i: int)
    requires n <= |lines|
  {
    0 <= i < n && SectionLine(lines[i]) && forall j :: i < j < n ==> !SectionLine(lines[j])
  }

  /** One line changes the section exactly when it is a `Section: ` line. */
  lemma ScanLineSection(line: string, st: Stanza)
    requires LineParsable(line)
    ensures SectionLine(line) ==> ScanLine(line, st).section == Some(SectionValue(line))
    ensures !SectionLine(line) ==> ScanLine(line, st).section == st.section
  {
    if SectionLine(line) {
      assert line[0] == 'S';
      assert !StartsWith(line, "Package: ") by {
        assert "Package: "[0] == 'P';
      }
      assert !StartsWith(line, "Description-en") by {
        assert "Description-en"[0] == 'D';
      }
    }
  }

  /** Among the lines the scan reads, a `Section: ` line exists only if a last one does. */
  lemma {:induction false} LastSectionExists(lines: seq<string>, n: nat)
    requires n <= |lines| && !NoSectionLine(lines, n)
    ensures exists i :: LastSectionLine(lines, n, i)
    decreases n
  {
    if SectionLine(lines[n - 1]) {
      assert LastSectionLine(lines, n, n - 1);
    } else {
      LastSectionExists(lines, n - 1);
      var i :| LastSectionLine(lines, n - 1, i);
      assert LastSectionLine(lines, n, i);
    }
  }

  /**
   * The section the scan reports is the value of the last `Section: ` line it
   * read, and the initial one when it read none.
   */
  lemma {:induction false} ScanSectionFromLine(lines: seq<string>, st: Stanza)
    requires Readable(lines, st)
    ensures NoSectionLine(lines, ReadCount(lines, st)) ==> ScanFrom(lines, st).section == st.section
    ensures forall i :: LastSectionLine(lines, ReadCount(lines, st), i) ==>
      ScanFrom(lines, st).section == Some(SectionValue(lines[i]))
    decreases |lines|
  {
    if lines != [] {
      var next := ScanLine(lines[0], st);
      var n := ReadCount(lines, st);
      var r := ScanFrom(lines, st).section;
      ScanLineSection(lines[0], st);
      if Stops(lines[0], next) {
        assert n == 1;
      } else {
        var tail := lines[1..];
        ScanSectionFromLine(tail, next);
        assert n == 1 + ReadCount(tail, next);
        if NoSectionLine(lines, n) {
          assert !SectionLine(lines[0]);
          assert NoSectionLine(tail, n - 1) by {
            forall j | 0 <= j < n - 1 ensures !SectionLine(tail[j]) {
              assert tail[j] == lines[j + 1];
            }
          }
        }
        forall i | LastSectionLine(lines, n, i) ensures r == Some(SectionValue(lines[i])) {
          if i == 0 {
            assert NoSectionLine(tail, n - 1) by {
              forall j | 0 <= j < n - 1 ensures !SectionLine(tail[j]) {
                assert tail[j] == lines[j + 1];
              }
            }
          } else {
            assert tail[i - 1] == lines[i];
            assert LastSectionLine(tail, n - 1, i - 1) by {
              forall j | i - 1 < j < n - 1 ensures !SectionLine(tail[j]) {
                assert tail[j] == lines[j + 1];
              }
            }
          }
        }
      }
    }
  }

  /**
   * The metapackage flag is true exactly when the query succeeded and, among
   * the lines the scan read, the last `Section: ` line says `metapackages`.
   */
  lemma PackInfoMeta(show: Oracle, package: string)
    requires ShowWellFormed(show)
    ensures PackInfo(show, package).meta == Some(true) ==>
      package in show &&
      var lines := Lines(show[package]);
      exists i :: LastSectionLine(lines, ReadCount(lines, Unset), i) && SectionValue(lines[i]) == "metapackages"
    ensures package in show ==>
      var lines := Lines(show[package]);
      forall i :: LastSectionLine(lines, ReadCount(lines, Unset), i) && SectionValue(lines[i]) == "metapackages" ==>
        PackInfo(show, package).meta == Some(true)
  {
    if package in show {
      var lines := Lines(show[package]);
      ScanSectionFromLine(lines, Unset);
      if PackInfo(show, package).meta == Some(true) {
        LastSectionExists(lines, ReadCount(lines, Unset));
      }
    }
  }

  /** What `apt-cache show` prints for one package: its name, section and description. */
  function ShowOutput(name: string, section: string, description: string): string {
    Join(["Package: " + name, "Section: " + section, "Description-en: " + description], "\n")
  }

  /**
   * A stanza whose name and section are plain names and whose description is
   * one stripped line without parentheses reads back as it was printed.
   */
  lemma PackInfoRoundTrip(package: string, name: string, section: string, description: string)
    requires PlainName(name) && PlainName(section)
    requires '\n' !in description && '(' !in description && !Occurs("Description-en: ", description)
    requires description == [] || (!IsSpace(description[0]) && !IsSpace(description[|description| - 1]))
    ensures var show := map[package := ShowOutput(name, section, description)];
      ShowWellFormed(show) &&
      PackInfo(show, package) == Info(Some(name), Some(description), Some(section == "metapackages"))
  {
    var lines := ShowLines(name, section, description);
    StanzaScan(name, section, description);
    SingleAnswer(package, ShowOutput(name, section, description), Stanza(Some(name), Some(description), Some(section)));
  }

  /** A `show` table answering only `package`, with output that scans to `st`, reports the fields of `st`. */
  lemma SingleAnswer(package: string, out: string, st: Stanza)
    requires Readable(Lines(out), Unset) && ScanFrom(Lines(out), Unset) == st
    ensures ShowWellFormed(map[package := out])
    ensures PackInfo(map[package := out], package) == Info(st.name, st.description, Some(st.section == Some("metapackages")))
  {
    var show := map[package := out];
    assert Query(show, package) == Some(out);
  }

  /** The printed stanza splits back into its three lines. */
  lemma ShowLines(name: string, section: string, description: string) returns (lines: seq<string>)
    requires PlainName(name) && PlainName(section) && '\n' !in description
    ensures lines == ["Package: " + name, "Section: " + section, "Description-en: " + description]
    ensures Lines(ShowOutput(name, section, description)) == lines
  {
    var l1, l2, l3 := "Package: " + name, "Section: " + section, "Description-en: " + description;
    lines := [l1, l2, l3];
    assert '\n' !in l1 && '\n' !in l2 && '\n' !in l3;
    JoinSplitChar(lines, '\n');
  }

  /** Scanning the three lines of a printed stanza recovers its fields. */
  lemma StanzaScan(name: string, section: string, description: string)
    requires PlainName(name) && PlainName(section)
    requires '\n' !in description && '(' !in description && !Occurs("Description-en: ", description)
    requires description == [] || (!IsSpace(description[0]) && !IsSpace(description[|description| - 1]))
    ensures var lines := ["Package: " + name, "Section: " + section, "Description-en: " + description];
      Readable(lines, Unset) &&
      ScanFrom(lines, Unset) == Stanza(Some(name), Some(description), Some(section))
  {
    var l1, l2, l3 := "Package: " + name, "Section: " + section, "Description-en: " + description;
    var lines := [l1, l2, l3];
    PackageLineRead(name, Unset);
    var s1 := Stanza(Some(name), None, None);
    SectionLineRead(section, s1);
    var s2 := Stanza(Some(name), None, Some(section));
    DescriptionLineRead(description, s2);
    var s3 := Stanza(Some(name), Some(description), Some(section));
    ScanThree(l1, l2, l3, Unset, s1, s2, s3);
  }

  /** The scan of three lines, none of which but possibly the last stops it. */
  lemma ScanThree(l1: string, l2: string, l3: string, s0: Stanza, s1: Stanza, s2: Stanza, s3: Stanza)
    requires LineParsable(l1) && LineParsable(l2) && LineParsable(l3)
    requires ScanLine(l1, s0) == s1 && ScanLine(l2, s1) == s2 && ScanLine(l3, s2) == s3
    requires !Stops(l1, s1) && !Stops(l2, s2)
    ensures Readable([l1, l2, l3], s0) && ScanFrom([l1, l2, l3], s0) == s3
  {
    assert [l3][1..] == [] && [l2, l3][1..] == [l3] && [l1, l2, l3][1..] == [l2, l3];
    assert Readable([l3], s2) && ScanFrom([l3], s2) == s3;
    assert Readable([l2, l3], s1) && ScanFrom([l2, l3], s1) == s3;
  }

  lemma PackageLineRead(name: string, st: Stanza)
    requires PlainName(name)
    ensures LineParsable("Package: " + name)
    ensures ScanLine("Package: " + name, st) == st.(name := Some(name))
  {
    var line := "Package: " + name;
    DiffersAt(line, "Description-en", 0);
    LabelAbsent("Package: ", name);
    LabelRead(name, "Package: ");
    StripUnchanged(name);
  }

  lemma SectionLineRead(section: string, st: Stanza)
    requires PlainName(section)
    ensures LineParsable("Section: " + section)
    ensures ScanLine("Section: " + section, st) == st.(section := Some(section))
  {
    var line := "Section: " + section;
    DiffersAt(line, "Description-en", 0);
    DiffersAt(line, "Package: ", 0);
    LabelAbsent("Section: ", section);
    LabelRead(section, "Section: ");
    StripUnchanged(section);
  }

  lemma DescriptionLineRead(description: string, st: Stanza)
    requires '\n' !in description && '(' !in description && !Occurs("Description-en: ", description)
    requires description == [] || (!IsSpace(description[0]) && !IsSpace(description[|description| - 1]))
    ensures LineParsable("Description-en: " + description)
    ensures ScanLine("Description-en: " + description, st) == st.(description := Some(description))
  {
    DescriptionLineKind(description);
    LabelRead(description, "Description-en: ");
    CleanDescriptionUnchanged(description);
  }

  lemma DescriptionLineKind(description: string)
    ensures var line := "Description-en: " + description;
      StartsWith(line, "Description-en") && !StartsWith(line, "Package: ")
  {
    var line := "Description-en: " + description;
    DiffersAt(line, "Package: ", 0);
    assert line[..14] == "Description-en: "[..14];
  }

  /** A one-line, stripped description without parentheses is kept as it is. */
  lemma CleanDescriptionUnchanged(description: string)
    requires '\n' !in description && '(' !in description
    requires description == [] || (!IsSpace(description[0]) && !IsSpace(description[|description| - 1]))
    ensures CleanDescription(description) == description
  {
    StripUnchanged(description);
    assert SplitOn(description, "\n")[0] == description by {
      OccursChar('\n', description);
      SplitAbsent(description, "\n");
    }
    assert !HasParenthetical(description);
    StripParentheticalSpec(description);
  }

  /** `(marker + v).split(marker)[1]` is `v` when `v` does not hold `marker`. */
  lemma LabelRead(v: string, marker: string)
    requires marker != [] && !Occurs(marker, v)
    ensures Occurs(marker, marker + v) && AfterLabel(marker + v, marker) == v
  {
    var line := marker + v;
    assert StartsWith(line, marker);
    assert line[|marker|..] == v;
    SplitAbsent(v, marker);
  }
}
