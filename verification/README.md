# Live process monitor: a Dafny model of its core

ProcessViewer.py is a small tkinter process monitor built on psutil. A
daemon thread runs `procinfo` once at start-up. Each run then reschedules
itself with `root.after`, so every later run happens on the Tk main thread,
five seconds after the previous one ends. A run rebuilds `procdata`, a
dictionary from pid to `(name, rss, vms)`. It means to reuse the figures of
processes it has already sampled, and to query memory (`meminfo`) only for
new pids and for cached pids with a missing figure. `proclist` reschedules
itself the same way, one second after each refresh. It copies `procdata` into
the table and keeps the selected row selected. Two buttons act on the selected
row: `childproc` lists the processes whose parent it is, and `killproc` sends
it SIGTERM and reports how the operating system answered.

This project models those five functions as pure Dafny functions and methods
and proves what they do. Everything the program asks of the operating system
is a parameter:

- the psutil enumeration is a sequence of `(pid, name)`, or of
  `(pid, name, ppid)` for `childproc`;
- `memory_info()` is an oracle, `MemOracle`, from pid to usage, "no such
  process" or "access denied";
- `os.kill` is an oracle, `SignalOracle`, from signal to reply.

Modules:

- `PyDict` is an insertion-ordered dictionary with Python's assignment
  semantics: a key already present keeps its position, and a new key goes last.
- `Memory` models `meminfo`.
- `ProcessCache` holds the records, the cache, and `Admit`, a reference
  definition for a run of first sightings.
- `LiteralCycle` models `procinfo` exactly as written, including the defect
  on line 32 (see Findings).
- `IntendedCycle` models `procinfo` with line 32 reading the two figures out
  of the cached triple.
- `Snapshot` models `proclist`.
- `Children` models `childproc`.
- `Controller` models `killproc`.
- `Sampler` models the self-rescheduling loop around `procinfo`.
- `Scenarios` holds worked examples on concrete caches.

Two behaviours of the code differ from what the loop is evidently meant to do.
The model follows the code in both:

- A process that vanishes between enumeration and its memory query is not
  dropped. The code stores it as `(name, None, None)`
  (`IntendedCycle.IntendedKeepsVanished`).
- Cached figures are meant to be reused. The code as written raises
  `ValueError` on every cached pid instead (`LiteralCycle`).

Modelling choices:

- `meminfo` catches only `psutil.NoSuchProcess`. `psutil.AccessDenied`
  propagates out of `procinfo` and ends the run; this is `Fault.QueryRaised`.
- Memory figures keep the byte count that the megabyte figure is computed from
  (`Megabytes(bytes)`).
- Line 56 tests the remembered pid for truth. Tk hands the pid cell back as a
  non-empty string, which is always true, so any selected row is re-selected
  when its pid is still cached, pid 0 included. Lines 72 and 101 convert the
  same cell with `int(...)`.
- `os.kill` may raise an `OSError` other than the two the code catches. That
  exception escapes the callback and is modelled as `KillOutcome.Unhandled`.
- A `ppid` that psutil could not read is `None`, which equals no pid.

## Model

| member | source | states |
|---|---|---|
| `PyDict.Put` | ProcessViewer.py:36-37 | Dictionary assignment. The key gets the new value and every other key keeps its value. A key already present keeps its place in iteration order, and a new key goes last. |
| `PyDict.ItemsListEachEntryOnce` | ProcessViewer.py:53 | `items()` lists the keys in insertion order, every stored key exactly once, each with its own value. The number of items equals the number of keys. |
| `Memory.MemInfo` | ProcessViewer.py:12-22 | Either both figures are present or neither is. They are present exactly when the process answered, and then they carry its rss and vms. A vanished process gives `(None, None)`. Access denied is the only outcome that escapes as an error. |
| `ProcessCache.FreshRecord` | ProcessViewer.py:33-36 | A queried process is stored under this pass's name, with exactly the figures `meminfo` returns for it. Its figures are present exactly when its memory could be read. |
| `ProcessCache.Admit` | ProcessViewer.py:29-37 | Reference for a run of first sightings. The cache keeps every old entry unchanged, and the new pids follow in enumeration order, each with a fresh record. |
| `LiteralCycle.LiteralRefresh` | ProcessViewer.py:24-40 | A completed run publishes exactly the enumerated pids in enumeration order, every one queried. An aborted run names an enumerated pid and leaves every earlier entry of `procdata` unchanged. |
| `LiteralCycle.LiteralPassShape` | ProcessViewer.py:29-37 | Each step of a completed loop appends its pid to `newprocdata` and to the queries made, so both grow by the enumeration in order. |
| `LiteralCycle.LiteralPassAbort` | ProcessViewer.py:29-37 | An aborted loop stops at an enumerated pid and has only added entries to `procdata`: each entry present before is unchanged. |
| `LiteralCycle.LiteralPassAdmits` | ProcessViewer.py:29-37 | While the enumerated processes are first sightings, the loop appends a fresh record for each one to both `procdata` and `newprocdata`, in order, and queries each one. |
| `LiteralCycle.LiteralCompletes` | ProcessViewer.py:27-40 | When every enumerated pid is new, listed once and readable, the run publishes exactly those pids in enumeration order with fresh records, and every pid was queried. |
| `LiteralCycle.LiteralStopsAtFirstBadProcess` | ProcessViewer.py:29-37 | The first process that is not a clean first sighting ends the run. A cached or repeated pid raises at line 32; otherwise its memory query raised. `procdata` is left as the old cache plus fresh records for the processes before it. |
| `LiteralCycle.LiteralSucceedsIff` | ProcessViewer.py:29-40 | The run as written completes if and only if every enumerated pid is new to the cache, listed once, and readable. |
| `LiteralCycle.LiteralFailsAtFirstCachedPid` | ProcessViewer.py:32-42 | A cached pid met after only first sightings makes line 32 raise. Nothing is published, and `procdata` is the old cache followed by fresh records for the new pids before it. |
| `LiteralCycle.LiteralFailsOnAnyCachedPid` | ProcessViewer.py:32 | If any enumerated pid is already cached, the run as written never publishes. |
| `LiteralCycle.LiteralGeneration` | ProcessViewer.py:27-40 | A completed run as written publishes exactly the enumerated pids in order, every one freshly queried. No pid of the previous cache survives. |
| `IntendedCycle.IntendedRefresh` | ProcessViewer.py:24-40 | When each pid is enumerated once, a completed run publishes them in enumeration order. The run ends early only at an enumerated pid whose memory query raised `AccessDenied`. |
| `IntendedCycle.IntendedPassAbort` | ProcessViewer.py:29-37 | The intended loop ends early only at an enumerated pid whose memory query is refused. |
| `IntendedCycle.IntendedPassSpec` | ProcessViewer.py:29-37 | The loop fails exactly when a query it has to make raises. Otherwise `newprocdata` grows by the enumerated pids in order, each with its expected record, and only the pids that needed a query were queried. |
| `IntendedCycle.IntendedRefreshSpec` | ProcessViewer.py:24-40 | A run publishes exactly when no required query raises. The published generation lists the enumerated pids in order: reused triples for pids cached with both figures, and fresh records for the rest. |
| `IntendedCycle.IntendedKeepsExactlyEnumerated` | ProcessViewer.py:27-40 | Drop: the published keys are exactly the enumerated pids, and an old pid no longer enumerated has no residual entry. |
| `IntendedCycle.QueriedExactly` | ProcessViewer.py:33-34 | A pid is queried if and only if it is enumerated and is either uncached or cached with a missing figure. |
| `IntendedCycle.IntendedReuse` | ProcessViewer.py:32-37 | Reuse: a cached pid with both figures keeps its old triple verbatim, old name included, and is not queried. |
| `IntendedCycle.IntendedRequery` | ProcessViewer.py:32-37 | A new pid, or a cached pid with a missing figure, is queried and stored under this pass's name with exactly the figures `meminfo` gives. |
| `IntendedCycle.IntendedKeepsVanished` | ProcessViewer.py:21-37 | A process that vanished before its query stays in the generation as `(name, None, None)`; it is not dropped. |
| `Snapshot.SelectedPid` | ProcessViewer.py:46-47 | The remembered pid is present exactly when a row is selected, and it is the pid of the selected row. |
| `Snapshot.Rows` | ProcessViewer.py:53-54 | Row i shows the i-th pid in the cache's insertion order together with that pid's cached triple. |
| `Snapshot.FirstRowOf` | ProcessViewer.py:57-60 | The result is the first row carrying the pid, with no earlier row carrying it, or nothing when no row carries it. |
| `Snapshot.Proclist` | ProcessViewer.py:44-60 | Row i shows the i-th cached pid with its cached triple, one row per entry. A row is selected exactly when a row was selected before and its pid is still cached, and the selected row carries that pid. Otherwise there is no selection and no error. |
| `Snapshot.RowsListEachEntryOnce` | ProcessViewer.py:49-54 | The rows show every cache entry exactly once, in insertion order, with its own record: nothing lost, repeated, reordered or altered. |
| `Snapshot.ReselectIsStable` | ProcessViewer.py:46-60 | Feeding a refresh's selection back into the next refresh of the same cache reproduces the same view. |
| `Snapshot.SelectionIsTheRowOfThePid` | ProcessViewer.py:56-60 | The selected row is the cache position of the remembered pid, for every pid including 0: since each pid is cached once, the first match is the only match. |
| `Children.ListChildren` | ProcessViewer.py:73-78 | The accumulating loop yields exactly the reference list of children: the `(pid, name)` of each process whose parent is the selected pid, in enumeration order. |
| `Children.ChildProc` | ProcessViewer.py:64-91 | No selection gives the warning. Otherwise the outcome is the non-empty child list, or the ordinary "no children" notice exactly when there are none. |
| `Children.ChildrenExactly` | ProcessViewer.py:76-78 | A `(pid, name)` is listed if and only if some enumerated process with that pid and name has the selected pid as its parent. |
| `Children.ChildrenOfAppend` | ProcessViewer.py:76-78 | Enumeration order is kept: the children of two consecutive stretches of the enumeration are those of the first followed by those of the second. |
| `Children.ChildrenScenario` | ProcessViewer.py:76-80 | In a table with one child of 101 and none of 202, the children of 101 are exactly that child, and 202 has none. |
| `Controller.Classify` | ProcessViewer.py:103-111 | A normal return gives Terminated, `ProcessLookupError` gives NotFound, `PermissionError` gives Denied, and any other `OSError` is unhandled. Each outcome names the pid signalled. |
| `Controller.ReplyOf` | ProcessViewer.py:103-111 | Every outcome of a signal determines the reply it came from: classifying that reply again gives back the outcome. |
| `Controller.KillProc` | ProcessViewer.py:93-111 | With no selection, no signal is sent. Otherwise exactly one SIGTERM goes to the selected pid, and the outcome follows the operating system's reply to that signal. |
| `Controller.OutcomeRecordsReply` | ProcessViewer.py:101-111 | The outcome of a kill names the pid and gives back exactly how `os.kill` answered. |
| `Controller.SignalsSentAtMostOnce` | ProcessViewer.py:97-104 | The signals sent do not depend on the operating system's answer: one with a selection and none without, so there is no retry. |
| `Sampler.Start` | ProcessViewer.py:9 | Sampling starts with an empty cache and a running loop. |
| `Sampler.LiteralStep` | ProcessViewer.py:24-42 | A stopped loop stays stopped. A running loop keeps running exactly when the run as written completes, and then `procdata` is the enumeration in order with fresh records. An aborted run stops the loop at an enumerated pid and keeps every earlier entry of `procdata`. |
| `Sampler.IntendedStep` | ProcessViewer.py:24-42 | A stopped loop stays stopped. A running loop keeps running exactly when no required memory query raises, and then `procdata` is the enumeration in order, each pid with its expected record. Otherwise the loop stops at an enumerated pid whose query was refused. |
| `Sampler.IntendedRun` | ProcessViewer.py:42 | Once stopped, no later run reschedules the loop. |
| `Sampler.LiteralStopsOnSecondRun` | ProcessViewer.py:32-42 | As written, a first run from an empty cache completes when every pid it enumerates is listed once and readable. A second run that still sees any of those pids stops the loop for good. |
| `Sampler.IntendedKeepsRunning` | ProcessViewer.py:39-42 | The intended loop keeps rescheduling itself through any number of runs in which no memory query is refused. |
| `Scenarios.IntendedAlphaBeta` | ProcessViewer.py:29-40 | With cache {101: alpha 12/40 MB} and enumeration 101 alpha, 202 beta, the generation is {101: unchanged, 202: beta 5/20 MB}, in that order, and only 202 is queried. |
| `Scenarios.LiteralAlphaBeta` | ProcessViewer.py:32 | On the same inputs the run as written raises at 101 before any query, leaving `procdata` as it was. |
| `Scenarios.IntendedDropsAlpha` | ProcessViewer.py:27-40 | With cache {101, 202} and only 202 enumerated, the generation is {202: unchanged}. 101 is gone, and nothing is queried. |

## Left out

- tkinter widgets and message boxes (lines 69, 81-91, 98-111, 120-144) are not modelled. Each callback is one step.
- The 5000 ms and 1000 ms delays of `root.after` (lines 42 and 62) are not modelled. The Sampler steps from one run to the next.
- The `procdatalock` lock and the background thread are not modelled. The model is sequential, and the publish on line 40 is one assignment.
- psutil and `os.kill` are not modelled themselves. They are parameters: an enumeration sequence, a memory oracle and a signal oracle. A process name psutil cannot read is still modelled as text.
- The bytes-to-megabytes float division on lines 17-18 and the `.2f` formatting are not modelled. Figures keep their byte count.
- `meminfostr` (lines 113-118) only formats host memory totals. It is not modelled.
- Snapshot.Proclist: does not model the `TypeError` that line 54 raises when it formats a `None` figure. Such a row is shown with absent figures.
- Snapshot.SelectedPid: models a single selected row. With several rows selected, lines 47, 72 and 101 pass a tuple of items to Tk, and that is not modelled.
- IntendedCycle.IntendedRefreshSpec: requires each pid to be enumerated once, which psutil's enumeration guarantees. A repeated pid is modelled only in the literal cycle.
- IntendedCycle.IntendedKeepsExactlyEnumerated: requires each pid to be enumerated once, as psutil guarantees.
- IntendedCycle.IntendedReuse: requires each pid to be enumerated once, as psutil guarantees.
- IntendedCycle.IntendedRequery: requires each pid to be enumerated once, as psutil guarantees.
- IntendedCycle.IntendedKeepsVanished: requires each pid to be enumerated once, as psutil guarantees.
- Sampler.IntendedStep: requires each pid to be enumerated once, as psutil guarantees.
- Sampler.IntendedKeepsRunning: assumes no memory query is refused in any run, which is stronger than what each run needs.
- Signals to pid 0 are recorded like any other. The model does not interpret the operating system's group semantics for such a signal.

## Findings

| source | as written | input that shows it | evidently intended | confidence | as-written member | corrected member |
|---|---|---|---|---|---|---|
| ProcessViewer.py:32 | Unpacks `procdata.get(pid, (None, None))` into two names, but a cached value is the triple `(name, rss, vms)`, so every cached pid raises `ValueError`. The run never reaches the publish on line 40 or the reschedule on line 42, and sampling stops after its first run. | Cache {101: ("alpha", 12 MB, 40 MB)}; enumeration 101 alpha, 202 beta. | Read fields 1 and 2 of the cached triple, so cached figures are reused and new pids are queried. | high; not executed | `LiteralCycle.LiteralFailsAtFirstCachedPid` | `IntendedCycle.IntendedReuse` |
