# hapmgr in Dafny

hapmgr is a desktop manager for the Debian Hamradio Pure Blend. It has two
programs, and this project models the logic at the core of each.

**The catalog builder** (`hapmgr/update_app_list.py`). It queries
`apt-cache depends` and `apt-cache show`, starting from the metapackage
`hamradio-all`. It parses their text output and classifies every dependency
as one of three kinds:

- a virtual package (written `<...>`);
- a further metapackage (section `metapackages`);
- an application entry `{app, pack, desc}`.

The metapackages are walked breadth first with a queue and a list of names
already expanded. The entries found are deduplicated by application name,
first seen wins, and then sorted by lower-cased application name.

**The manager window** (`hapmgr/main.py`):

- the package worker, which picks the `apt-get` command and applies the
  success rule;
- the status worker, which applies the `dpkg -l` "installed" rule;
- the table of entries with its status column and its checkboxes;
- the install and remove buttons with their empty-selection guard and
  confirmation question;
- the batch runner. It copies the selection into a queue and takes packages
  from the front one at a time. The progress bar advances once per finished
  package, whatever the outcome. The buttons are disabled during the batch
  and enabled again once the queue is empty.

Modules:

| file | module | contents |
|---|---|---|
| `wrappers.dfy` | `Wrappers` | `Option`, Python truthiness of an optional string |
| `text.dfy` | `Text` | the `str` operations used: `startswith`, `in`, `strip`, `split`, `join`, `lower`, and string `<=` |
| `apt_parse.dfy` | `AptParse` | `get_pack_tree` and `get_pack_info` over oracle tables, and the round trips of their parsers |
| `entries.dfy` | `Entries` | catalog entries, first-seen deduplication, stable sort by lower-cased name |
| `catalog.dfy` | `Catalog` | `process_meta` and the walk of `main` up to the sort |
| `workers.dfy` | `Workers` | `PackageWorker.run` and `StatusWorker.run` |
| `manager.dfy` | `HamRadio` | the window as class `HamRadioManager`, with its slots as methods |

The two `apt-cache` queries are oracle tables from package name to printed
text; a missing key means the command failed. `dpkg -l` is a table from
package name to return code and standard output; a missing key means running
it raised an exception. A package worker's process is an input value of type
`ProcessRun`: the lines it printed and its return code, or the exception
raised after some lines.

## Model

| member | source | states |
|---|---|---|
| AptParse.ReadDependencyLine | hapmgr/update_app_list.py:24-29 | one output line contributes the name after `Depends: ` when it starts with `  Depends: `, then the name after `Recommends: ` when it starts with `  Recommends: `, nothing otherwise |
| AptParse.GetPackTree | hapmgr/update_app_list.py:15-35 | the loop returns the names of the dependency lines in output order without deduplication, and the empty list when the query fails |
| AptParse.DependencyListAppend | hapmgr/update_app_list.py:23-29 | lines are read independently and in order: the names of a concatenation of outputs are the concatenation of their names |
| AptParse.DependencyNamesClean | hapmgr/update_app_list.py:25-29 | every name returned holds no `:` (the architecture suffix is cut) and starts with no whitespace (it was stripped) |
| AptParse.PackTreeRoundTrip | hapmgr/update_app_list.py:15-30 | for plain names, the parser reads back, in order, exactly the dependency and recommendation names that a `depends` listing prints |
| AptParse.StripParentheticalSpec | hapmgr/update_app_list.py:56 | after the parenthetical is removed no `(` is followed by a `)`; a text without one is unchanged; a removal shortens the text by at least two |
| AptParse.StripParentheticalIdempotent | hapmgr/update_app_list.py:56 | a second removal changes nothing |
| AptParse.ReadShowLine | hapmgr/update_app_list.py:49-58 | one line sets the name (from `Package: `), the description (`Description-en`, first line, parenthetical removed) or the section (`Section: `), and leaves the other two unchanged |
| AptParse.GetPackInfo | hapmgr/update_app_list.py:38-63 | the loop with its early `break` gives the fields of the scan, with meta = (section is `metapackages`); a failed query gives `(None, None, None)` and a successful one always has a meta flag |
| AptParse.ScanIgnoresRest | hapmgr/update_app_list.py:59-60 | once the scan has stopped, the lines that follow do not change the result and need not even be readable |
| AptParse.ScanNameFromPackageLine | hapmgr/update_app_list.py:49-50 | the name reported is the stripped text of some `Package: ` line, or the name the scan started with |
| AptParse.ScanSectionFromLine | hapmgr/update_app_list.py:48-60 | the section the scan reports is the stripped value of the last `Section: ` line among the lines it reads before the `break`, and the initial one when it reads none |
| AptParse.PackInfoMeta | hapmgr/update_app_list.py:48-61 | the metapackage flag is true exactly when the query succeeded and the last `Section: ` line read before the `break` says `metapackages` (both directions) |
| AptParse.PackInfoRoundTrip | hapmgr/update_app_list.py:38-61 | a printed stanza with plain name and section and a one-line stripped description without parentheses is read back as printed |
| Catalog.ClassifyDependency | hapmgr/update_app_list.py:75-88 | a virtual token is skipped; a reported name in the `metapackages` section is a metapackage; otherwise a name and a description give an entry whose category is the text after the last `hamradio-` |
| Catalog.ProcessMeta | hapmgr/update_app_list.py:66-90 | the two lists are the classifications of the dependency list, one after another in dependency order |
| Catalog.ExpandMembers | hapmgr/update_app_list.py:74-88 | an entry, resp. a metapackage, is in the lists exactly when some dependency classifies as it |
| Catalog.EntrySound | hapmgr/update_app_list.py:81-88 | every entry comes from a non-virtual dependency whose query succeeded outside the metapackages section with a non-empty name and description, and has the short name of the metapackage as its category |
| Catalog.SubMetaSound | hapmgr/update_app_list.py:79-80 | every metapackage found is the non-empty name reported for a non-virtual dependency whose section is `metapackages` |
| Catalog.VirtualIgnored | hapmgr/update_app_list.py:75-77 | removing the virtual tokens first gives the same lists: virtual tokens produce neither an entry nor a metapackage |
| Catalog.ShortNameSpec | hapmgr/update_app_list.py:83 | the category of `hamradio-<s>` is `<s>`, and a name without the prefix is its own category |
| Catalog.ExpansionExample | hapmgr/update_app_list.py:66-90 | a metapackage depending on a virtual package, a library and a sub-metapackage yields exactly one entry for the library and the sub-metapackage to expand |
| Catalog.NewNamesSpec | hapmgr/update_app_list.py:104-107 | the names queued were found and were neither expanded nor queued before; none is queued twice; afterwards every name found is expanded or queued |
| Catalog.EnqueueNew | hapmgr/update_app_list.py:104-107 | the queue becomes the old queue followed by the names found, in the order found, each at its first occurrence and only when not already expanded or queued; expanded names and the queue stay duplicate-free and disjoint; every name found is then expanded or queued |
| Catalog.ExpandFront | hapmgr/update_app_list.py:100-110 | one iteration moves the front of the queue to the expanded names, appends the new names found under it in the order found, and leaves the catalog equal to the first-seen deduplication of every entry found so far |
| Catalog.AddNewEntries | hapmgr/update_app_list.py:108-110 | entries are appended unless their application name is already kept, which is first-seen deduplication of all entries found so far |
| Catalog.WalkStep | hapmgr/update_app_list.py:99-107 | one iteration expands the front of the queue, which was not expanded before and is a known name, and keeps the walk invariant |
| Catalog.WalkNext | hapmgr/update_app_list.py:99-107 | the iteration as written (front of the queue expanded, new names found under it appended in order) keeps the walk invariant and strictly shrinks the set of names still unexpanded, so the loop terminates |
| Catalog.WalkAdvance | hapmgr/update_app_list.py:99-107 | after one iteration the rest of the walk, `Walk`, is unchanged: every state of the loop leads to the same breadth-first order `CatalogWalk` |
| Catalog.WalkComplete | hapmgr/update_app_list.py:97-107 | the breadth-first walk from any state of the loop, hence from `hamradio-all` alone in the queue, expands each reachable metapackage exactly once and nothing else |
| Catalog.WalkDone | hapmgr/update_app_list.py:99 | when the queue is empty the expanded names form a complete walk from `hamradio-all` |
| Catalog.WalkIsLeast | hapmgr/update_app_list.py:97-107 | the expanded names form the least set that contains `hamradio-all` and every metapackage found under its members |
| Catalog.SortedCatalog | hapmgr/update_app_list.py:108-112 | the deduplicated, sorted list has unique application names, is ordered by lower-cased name, and is a permutation of the deduplicated list |
| Catalog.BuildCatalog | hapmgr/update_app_list.py:93-112 | the walk terminates having expanded exactly the metapackages of `CatalogWalk`, in its breadth-first order, each reachable one once; the result is the stable sort of the first-seen deduplication of all entries found; it has unique names, is sorted, and is a permutation |
| Entries.DedupSpec | hapmgr/update_app_list.py:108-110 | deduplication keeps unique names, the same set of names, and for each name its first entry (with its `pack`) |
| Entries.SortByKeySpec | hapmgr/update_app_list.py:112 | the sort is ordered by lower-cased name, is a permutation, and keeps the entries of each key in their original order (stable) |
| Entries.StableSortUnique | hapmgr/update_app_list.py:112 | every sorted list that keeps each key's entries in their original order equals this sort, so the outcome of the stable `list.sort` is determined |
| Entries.SortKeepsUniqueApps | hapmgr/update_app_list.py:112 | sorting keeps application names unique |
| Workers.Command | hapmgr/main.py:61-64 | `sudo apt-get install -y <pkg>` exactly for action `install`, `sudo apt-get remove -y <pkg>` for any other action |
| Workers.WorkerOutput | hapmgr/main.py:74-82 | one stripped line per line printed, in order, plus a final line `Error: <message>` after an exception |
| Workers.RunPackageWorker | hapmgr/main.py:59-83 | the report has the chosen command, every printed line stripped, an `Error: ` line after an exception, and success exactly when the process exited with return code 0 |
| Workers.InstalledSpec | hapmgr/main.py:105 | installed exactly when the query ran, returned 0, and `ii` stands at some index of its output |
| Workers.CheckStatus | hapmgr/main.py:97-110 | one result per package in input order, a failed query counting as not installed for that package only, then a single `finished` |
| HamRadio.FirstRow | hapmgr/main.py:231-233 | the first row showing the name, or the row count when none does; no earlier row shows it |
| HamRadio.FindRow | hapmgr/main.py:231-233 | the scan of `update_package_status` stops at the first row showing the name |
| HamRadio.TableUpdate | hapmgr/main.py:227-248 | recording a status changes the status column of the first row of the name and no other cell; for a name no row shows it changes nothing |
| HamRadio.VerdictsSpec | hapmgr/main.py:97-110 | after a status check every queried name carries the rule's verdict and every other recorded name keeps its status |
| HamRadio.NewListing | hapmgr/main.py:176-197 | one `NotInst` row per entry in catalog order; the checkbox keys are the application names in first-insertion order, all unticked |
| HamRadio.BoxOrderSpec | hapmgr/main.py:191-197 | the checkbox keys hold each catalog application once, in first-seen order |
| HamRadio.CheckedNamesSpec | hapmgr/main.py:276-280 | the selection holds exactly the ticked names, and holds each at most once |
| HamRadio.ConfirmationLists | hapmgr/main.py:293 | the text is the question followed by a blank line, and the lines after it give back the selection when no name holds a line break |
| HamRadio.BatchLogPrefix | hapmgr/main.py:347-365 | the output of earlier packages is never rewritten: the log of the first packages begins the whole log |
| HamRadio.BatchLogReports | hapmgr/main.py:356-368 | every finished package, successful or not, has its own result line in the output pane, in batch order |
| HamRadio.HamRadioManager.constructor | hapmgr/main.py:120-142 | the table and checkboxes are set up with no status recorded, every row `NotInst`, every box unticked, and a status check started over the catalog's applications |
| HamRadio.HamRadioManager.SetupPackageList | hapmgr/main.py:144-197 | the table shows the catalog with `NotInst` rows and the checkbox keys are the applications in first-seen order, all unticked |
| HamRadio.HamRadioManager.GetSelectedPackages | hapmgr/main.py:272-280 | returns the ticked names in the checkboxes' insertion order |
| HamRadio.HamRadioManager.UpdatePackageStatus | hapmgr/main.py:227-248 | only the first row showing the name gets the status text; `package_status[name]` is recorded and no other key changes; a name no row shows changes nothing |
| HamRadio.HamRadioManager.RefreshPackageStatus | hapmgr/main.py:214-225 | busy progress bar, the checking label, and the catalog's application names handed to the status worker |
| HamRadio.HamRadioManager.StatusCheckFinished | hapmgr/main.py:251-256 | progress bar hidden and the label reads `Ready` |
| HamRadio.HamRadioManager.InstallSelected | hapmgr/main.py:282-297 | with nothing ticked, a warning and no change; otherwise the question listing the ticked names, and on Yes an install batch over them |
| HamRadio.HamRadioManager.RemoveSelected | hapmgr/main.py:299-314 | the same as the install button, with the removal question and a remove batch |
| HamRadio.HamRadioManager.ExecutePackageOperations | hapmgr/main.py:316-335 | output cleared, progress range 0 to the batch length at value 0, the action in the label, both buttons disabled, the queue a copy of the batch whose first package starts |
| HamRadio.HamRadioManager.ProcessNextPackage | hapmgr/main.py:337-354 | with an empty queue the batch is over; otherwise the front package is removed from the queue, its banner written and a worker started for it with the batch's operation |
| HamRadio.HamRadioManager.PackageOperationFinished | hapmgr/main.py:356-368 | progress advances by exactly one whatever the outcome, the check-mark or cross line is written, and the next package starts |
| HamRadio.HamRadioManager.OperationFinished | hapmgr/main.py:370-379 | progress bar hidden, label `Ready`, install and remove enabled again |
| HamRadio.HamRadioManager.UpdateOutput | hapmgr/main.py:384-388 | the line is appended to the output pane and nothing else changes |
| HamRadio.HamRadioManager.RunBatch | hapmgr/main.py:316-368 | one report per package in the order given, a failure never stopping the batch; progress ends at the batch length; every package's log is in the output pane; buttons enabled again; the table and checkboxes untouched |
| HamRadio.HamRadioManager.RefreshWith | hapmgr/main.py:214-256 | every catalog application gets the status rule's verdict, shown in its first row; other recorded names keep theirs; the window ends with `Ready` |

## Left out

- Writing `locale/messages.pot` and `packages.py` (hapmgr/update_app_list.py:113-144) is file I/O and Python `repr` output; the model stops at the sorted list.
- Translation (`gettext`, the rebinding of `QCoreApplication.translate`) is taken to be the identity, so every message is the English text.
- `main()` of `hapmgr/main.py`, with its locale detection, and `showabout`/`exitapp` are operating-system and dialog code.
- Threads, Qt signal delivery and the one-second `QTimer` refresh after a batch are not modelled. `RunBatch` and `RefreshWith` deliver the workers' signals one after another, in the order the workers emit them.
- Cell colours, column widths, the user re-sorting the table and the rendering of dialogs are left out. Rows stay in catalog order.
- `select_all_packages` and `deselect_all_packages` index the key `'checkbox'`, but the dictionary entries store `'check'`. They would raise `KeyError`, so they are not modelled as working operations. `SetChecked` models the user ticking a single box.
- The user's answer to the confirmation question is the parameter `confirm`.
- The progress bar's initial value before any batch is taken to be 0. Qt's clamping of values to the bar's range is not modelled; in a batch the value never leaves it.
- Text.Lower: modelled for ASCII letters only; Python's `str.lower()` also maps non-ASCII capitals.
- Catalog.ProcessMeta: requires a dependency list without empty names. `package[0]` raises `IndexError` on an empty name (hapmgr/update_app_list.py:75), and that exception is not caught.
- AptParse.GetPackInfo: requires every `show` output to be readable up to the line where the loop breaks (`Readable`, `ShowWellFormed`); the lines after the break are unconstrained. A line starting with `Description-en` without `Description-en: ` makes `split(...)[1]` raise `IndexError`. The handler at hapmgr/update_app_list.py:62 catches only `CalledProcessError`, so this error is not caught and the program ends; the model has no such outcome, hence the requirement.
- AptParse.GetPackTree: any failure of the query, whichever exception it raised, is a missing key of the oracle.
- Catalog.BuildCatalog: the in-place `list.sort` is the function `SortByKey`, a stable insertion sort. `Entries.StableSortUnique` shows that every stable sort by the same key gives the same list.
- Catalog.BuildCatalog: requires more than the program needs in three ways. `ShowWellFormed` covers the `show` output of every package the oracle answers for, not only those the walk queries. `DependsWellFormed` (no empty dependency name) covers every `depends` output, not only those of reachable metapackages. A failure of `apt-cache show` other than `CalledProcessError` is not caught at hapmgr/update_app_list.py:62 and ends the program; the oracle cannot express it, since a missing key always means the caught failure.
- apt's `show` output may carry `Description:` instead of `Description-en:`. The code reads only lines starting with `Description-en`, and the model does the same. A stanza that has only a `Description` field yields no description, so its package gives no entry.
- The category is the text after the last `hamradio-` (`split('hamradio-')[-1]`), not the name with a leading prefix removed; the two differ for names in which `hamradio-` is not exactly one leading prefix, and the model follows the code (`Catalog.ShortName`).
- The lines a package worker reads with `readline` are arbitrary strings. How the process's output is split into lines is not modelled.
