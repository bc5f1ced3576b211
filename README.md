# RAWSim-O experiment scripts, modelled in Dafny

These Python scripts support a warehouse-simulation research workflow.
This project models four of them:

- **Launcher** (`Launcher.dfy`). `paralledExperiments.py` and
  `oneExperiment.py` share the same bounded launcher. It builds a list of
  simulator commands by nested enumeration, with the iteration outer and the
  (instance, setting, controller) triple inner. It keeps a dispatch cursor
  `NextURLNo` and a list `Processes` of live handles. `StartNew` appends a
  seed to the next command in place, spawns it and advances the cursor.
  `CheckRunning` reaps the handles whose process has exited, then refills up
  to `ParalleledNum` slots. The main block calls `CheckRunning` until no
  process is live. The class `Launcher.Pool` holds this state:
  - `cmds` is an array of argument lists that `StartNew` extends in place.
  - `nextURLNo` is the cursor.
  - `processes` is the list of live handles.
  - Ghost fields record the seeds, the reaped handles and which handles were
    live at each spawn.
- **ParalledExperiments** (`ParalledExperiments.dfy`) and **OneExperiment**
  (`OneExperiment.dfy`) hold the two scripts' constants, their command
  builders and their main blocks. The parallel script runs a 70-triple sweep
  eight at a time. Its output directories drop the `r<botCount>` suffix. The
  single script runs one triple twice, one at a time, into a fixed directory.
- **Naming** (`Naming.dfy`) is the `<name>r<botCount>` convention that the
  scripts share. It covers Python's `str` of an integer,
  `s.rsplit('r', 1)[0]` and `name + "r" + str(count)`.
- **LayoutVariant** (`LayoutVariant.dfy`) models `create_variant_files`. For
  bot counts 10, 20, …, 100 it rewrites the `BotCount` and `NameLayout`
  children of one parsed layout in place. It then writes the tree to
  `<name>r<count><extension>`. The root's children are an `array` of
  (tag, text) elements.
- **FixFootprints** (`FixFootprints.dfy`) models the column fix
  `Instance := Instance + "r" + NBots`. It applies only when both columns
  exist. A table is a column list and a sequence of rows.

Modelling choices:

- A process handle is the index of the command it was spawned for. The
  cursor only moves forward, so every spawn gives a new handle.
- `poll()` becomes the set `finished` of handles whose process has exited
  when `CheckRunning` looks. Each handle is polled once per call, so one set
  per call captures every possible sequence of answers.
- For the main loop, `finishAt(h)` is the first check at which `poll()`
  reports that handle `h` has exited. This is what makes termination
  provable.
- The wall clock is `clock(k)`, the seed read when command `k` is
  dispatched.
- `CheckRunning` is written as its two halves, `Reap` and `Refill`, and the
  method calls them in order.
- The reap walks `p` over `-len(Processes) .. -1` and deletes at `p`, using
  Python's negative indexing (`PyIndex`). The loop invariant shows why this
  works. A deletion only shifts the handles before position `p`, so each
  negative index still names the next unvisited handle. The comment at
  `paralledExperiments.py:69` says the walk goes in reverse order. In fact
  the walk polls every handle exactly once, from oldest to newest, and the
  model follows the code.

## Model

| member | source | states |
|---|---|---|
| Naming.NatToString | Material/Scripts/layoutVariant.py:21 | `str(n)` of a count is a non-empty string of decimal digits with no leading zero (except for 0) |
| Naming.ParseNatToString | Material/Scripts/layoutVariant.py:24 | reading the digits of `str(n)` back gives `n`, so the printed count determines the count |
| Naming.IntToString | Material/Scripts/fixFootprints.py:13 | `str(i)` of any integer holds no `'r'` and agrees with `NatToString` on non-negative values |
| Naming.LastR | Material/Scripts/paralledExperiments.py:45 | the position of the last `'r'`, or -1 exactly when there is none |
| Naming.StripSuffix | Material/Scripts/paralledExperiments.py:45 | `s.rsplit('r', 1)[0]`: all of `s` when it has no `'r'`; otherwise the prefix right before an `'r'` after which no `'r'` follows |
| Naming.StripAppended | Material/Scripts/paralledExperiments.py:45 | for any `name` and any `'r'`-free tail, stripping `name + "r" + tail` gives `name` back, even when `name` itself contains `'r'` |
| Naming.StripVariantName | Material/Scripts/layoutVariant.py:24 | stripping a generated layout name `name + "r" + str(count)` recovers `name`, as the launcher's output-directory strip expects |
| Naming.VariantName | Material/Scripts/layoutVariant.py:24 | `f"{name}r{bot_count}"` (also the instance f-string at paralledExperiments.py:25) is `name`, then one `'r'`, then nothing but decimal digits |
| Naming.StripVariantNames | Material/Scripts/paralledExperiments.py:45 | every variant name, whatever the layout name and count, strips back to its layout name |
| Naming.VariantNameInjective | Material/Scripts/layoutVariant.py:24 | two bot counts give the same variant name only if they are equal |
| Launcher.PyIndex | Material/Scripts/paralledExperiments.py:70 | Python's `Processes[p]` for `-len <= p < len` lands inside the list: `len + p` for negative `p`, `p` itself otherwise |
| Launcher.BuildCommands | Material/Scripts/paralledExperiments.py:39-46 | the command list has `Iteration * len(FileNames)` entries and entry `k` is built from `FileNames[k % len(FileNames)]` (iteration outer, triple inner) |
| Launcher.IterationSlot | Material/Scripts/paralledExperiments.py:60 | entry `i * T + j` belongs to iteration `i` and triple `j`, so the progress message's `FileNames[NextURLNo % len(FileNames)]` names the triple that built the command |
| Launcher.Survivors | Material/Scripts/paralledExperiments.py:69-71 | the reference for what the reap leaves: only live handles that `poll()` did not report exited, never more than were live (`Pool.Reap` is proved to leave exactly this list) |
| Launcher.SurvivorsExact | Material/Scripts/paralledExperiments.py:70-71 | a handle survives the reap if and only if it was live and `poll()` did not report it exited |
| Launcher.SurvivorsKeepOrder | Material/Scripts/oneExperiment.py:53-55 | the survivors keep their original relative order (an increasing handle list stays increasing) |
| Launcher.NoneSurvive | Material/Scripts/oneExperiment.py:53-55 | when every live process has exited, the reap leaves the list empty |
| Launcher.ReapKeepsPartition | Material/Scripts/paralledExperiments.py:71 | after a reap every dispatched job is live or reaped, never both, so a removed handle is never polled again |
| Launcher.RefillCount | Material/Scripts/paralledExperiments.py:73-75 | the refill dispatches no more than remain, never past the limit, stops only with the slots full or the list exhausted, and dispatches nothing when the slots are already full |
| Launcher.Pool.constructor | Material/Scripts/paralledExperiments.py:48-49 | the initial state: every command built, cursor 0, no live process |
| Launcher.Pool.StartNew | Material/Scripts/paralledExperiments.py:51-62 | appends exactly one seed to `cmds[NextURLNo]`, leaves every other command unchanged, advances the cursor by one and appends exactly one new handle (the same code is at oneExperiment.py:35-46) |
| Launcher.Pool.Reap | Material/Scripts/paralledExperiments.py:69-71 | the negative-index walk polls every live handle exactly once, oldest to newest, and leaves exactly the survivors in their original order |
| Launcher.Pool.Refill | Material/Scripts/oneExperiment.py:57-59 | dispatches the next `RefillCount` commands in list order, each with its own seed, each while fewer than `ParalleledNum` processes were live |
| Launcher.Pool.CheckRunning | Material/Scripts/paralledExperiments.py:64-75 | reap then refill: the cursor never decreases and never passes `len(cmds)`; `len(Processes) <= ParalleledNum` is preserved; on exit the slots are full or every command is dispatched |
| Launcher.Pool.Run | Material/Scripts/paralledExperiments.py:78-81 | the main loop terminates once every process eventually exits; it ends with no live process and, when `ParalleledNum > 0`, every command dispatched once with its seed and every job reaped once |
| ParalledExperiments.BuildFileNames | Material/Scripts/paralledExperiments.py:18-25 | 70 triples, bot count outer (10, 20, …, 100) and controller inner, with the duplicate controllers kept; entry `k` is `("Sv5r" + str(10 * (k / 7) + 10), "JOSi1000o500", Controllers[k % 7])` |
| ParalledExperiments.SweepInstanceSpelled | Material/Scripts/paralledExperiments.py:25 | the instance `f'{instance}v{version}r{botNum}'` for "S", 5 is `"Sv5r" + str(botNum)` and strips to `"Sv5"` (e.g. `"Sv5r60"` gives `"Sv5"`) |
| ParalledExperiments.MakeCommand | Material/Scripts/paralledExperiments.py:42-46 | six arguments starting `dotnet run`; the output directory of an instance `name + "r" + str(count)` is `experimentFolder\name`, so every bot-count variant of a layout shares one directory; an instance without `'r'` is kept whole |
| ParalledExperiments.ExperimentCommands | Material/Scripts/paralledExperiments.py:38-46 | the 70 sweep triples, `fileNames[k] == SweepEntry(k)`, and 70 commands of six arguments each; entry `k` is built from triple `k % 70` and its output directory is `experimentFolder + "\Sv5"` |
| ParalledExperiments.RunSweep | Material/Scripts/paralledExperiments.py:77-81 | the script dispatches all 70 commands, command `k` being `MakeCommand(SweepEntry(k))` (bot count `10 * (k / 7) + 10`, controller `Controllers[k % 7]`), each once with its own seed appended, never with more than `ParalleledNum` = 8 processes live, and ends with every process reaped |
| OneExperiment.MakeCommand | Material/Scripts/oneExperiment.py:26-30 | six arguments starting `dotnet run`; the output directory is the fixed `experimentFolder` for every triple (no suffix stripping) |
| OneExperiment.ExperimentCommands | Material/Scripts/oneExperiment.py:23-30 | two identical six-argument commands, one per iteration, both writing to the fixed `experimentFolder` with no suffix stripping |
| OneExperiment.RunExperiment | Material/Scripts/oneExperiment.py:61-65 | both commands are dispatched, in list order, each when no other process was live (one slot), and the run ends with none live |
| LayoutVariant.SetText | Material/Scripts/layoutVariant.py:20-21 | setting the text of the children with one tag: those children get the text; tags, length and all other children are unchanged |
| LayoutVariant.Variant | Material/Scripts/layoutVariant.py:19-24 | after the update for a count, every `BotCount` child holds `str(count)`, every `NameLayout` child holds `name + "r" + str(count)`, and every other child keeps its text |
| LayoutVariant.VariantOverwrites | Material/Scripts/layoutVariant.py:18-24 | updating the already-updated tree for a new count gives the same tree as updating the original, so each written file depends only on its own count |
| LayoutVariant.VariantFileNamesDistinct | Material/Scripts/layoutVariant.py:27-28 | different bot counts give different variant file names |
| LayoutVariant.SetChildText | Material/Scripts/layoutVariant.py:23-24 | the in-place loop over matching children leaves the root's children equal to `SetText` of the old ones |
| LayoutVariant.CreateVariantFiles | Material/Scripts/layoutVariant.py:6-31 | exactly ten files for counts 10, 20, …, 100 in ascending order, each in the source directory, named `name + "r" + str(count) + extension`, holding the tree updated for that count |
| FixFootprints.Fix | Material/Scripts/fixFootprints.py:11-18 | the table is rewritten if and only if both `NBots` and `Instance` exist; then the columns, the row count, the row order and every non-`Instance` cell are kept, and each row's `Instance` is the old text plus `"r"` plus `str(NBots)` |
| FixFootprints.FixStripsBack | Material/Scripts/fixFootprints.py:13 | stripping the last `'r'` from a rewritten instance with an integer `NBots` gives the original instance text back |

## Left out

- Process spawning (`Popen`, `cwd`, `stdout=DEVNULL`) is left out. A spawn is
  "append a fresh handle", and a launch failure is not modelled.
- `poll()` is an oracle. The child processes themselves run outside the
  model.
- `time.sleep` pacing, `winsound.Beep` and every `print` are left out.
- The wall-clock seed is left out. `datetime.now()`, the UTC+8 label and
  `strftime` are replaced by the `clock` parameter.
- `csvToExcel.py` is not part of this model. It does data-frame aggregation
  over floats and spreadsheet writing.
- XML parsing and writing, CSV reading and writing, and
  `os.path.split`/`splitext`/`join` are left out. A written file is a
  (directory, file name, children) value.
- `utils.askFiles` is not part of this model, so neither is the per-file
  loop around the layout and footprint fixes. The model handles one picked
  file.
- LayoutVariant models only the root's direct children as (tag, text)
  pairs. Attributes, nested elements and a missing text are not modelled.
- FixFootprints models cells as text or integers only. Float or missing
  `NBots` values and pandas' handling of a table with no rows are not
  modelled.
- ParalledExperiments.BuildFileNames: the three one-element loops (instance
  `"S"`, version 5, setting `"JOSi1000o500"`) are unrolled; only the
  bot-count and controller loops are kept.
- Launcher.Pool.StartNew requires a command to remain. Called past the
  end, the script would raise an `IndexError`, but its only caller checks
  this first.
- Launcher.Pool.Run proves termination only when every process is
  eventually reported exited (`finishAt`). A hung process keeps the real loop
  running forever.
