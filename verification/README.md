# OneKill: process-set reconciliation and kill rounds, in Dafny

OneKill is a Windows tray utility. It saves a baseline of the processes
running now. Later it kills every process whose image name is not in that
baseline. This project models the logic behind those two actions, in the
two revisions of the program:

- `main.py`, the tray revision:
  - snapshotting with `tasklist /FO CSV /NH`;
  - `merge_processes`;
  - saving the baseline;
  - one kill round, in a plain (`_kill_processes_once`) and a force
    (`_force_kill_processes_once`) flavour;
  - the two round drivers, `kill_other_processes` (two passes) and
    `force_kill_other_processes` (at most three rounds).
- `process_manager.py`, the window revision: a `ProcessManager` with a cached
  snapshot (`refresh_processes`), `save_current_processes`,
  `kill_other_processes` over the cached snapshot, and the tray icon that
  creates the manager on first use.

Everything the program asks of the operating system or of the user is an
oracle value:

- a tasklist run is a `RunOutcome`: it exited with a code and a stdout, or it
  raised;
- each kill command is a function from image name to `RunOutcome`;
- the confirmation dialog is a boolean;
- the configuration file is a `ConfigFile` state;
- a write is a `WriteOutcome`.

The drivers receive one bundle of answers per round (`env: nat -> RoundEnv`).
The rounds run sequentially, so no length precondition is needed.

Python's string operations are modelled as CPython defines them (module
`PyStr`):

- `str.strip()` uses the exact set of `str.isspace()` characters;
- `str.strip('"')`;
- `str.split(sep)` takes the occurrences left to right, without overlap;
- `f"{n}"`.

Lines are split on the literal `","`, exactly as the code does. This is not
a CSV parse.

Python iterates over a set in an order that the model does not fix. The loops
over `to_kill` are methods that pick an arbitrary remaining name. They are
proved to call each name exactly once, and their tally equals the size of a
set defined independently of the order.

`merge_processes` (`process_manager.py:101-119`) and `ConfigManager`
(`process_manager.py:10-32`) are the same in both revisions. Each is modelled
once, and its rows cite `main.py`.

Modules, in dependency order:

- `Wrappers`: `Option`.
- `Subprocess`: run outcomes.
- `PyStr`: strip, split and join, and decimal rendering.
- `Tasklist`: line parsing for both revisions.
- `ProcessMerge`: `merge_processes`.
- `Config`: `ConfigManager`.
- `KillRound`: the kill set and the per-name kill loops.
- `TrayApp`: `main.py`.
- `WindowApp`: `process_manager.py`.

In these points the model follows the code as written:

- There is no list of protected processes. The kill set is exactly the
  current names minus the baseline.
- The force driver shows a confirmation dialog in every round that has
  something to kill, not only before the first.
- A declined dialog reports the candidates as attempted
  (`total_attempted == len(to_kill)`), not zero.
- When the kill set is empty, the force driver still runs one round, which
  kills nothing, and stops. It does not report zero rounds.
- The settle sleep separates consecutive rounds. A round that kills nothing
  ends the loop before any sleep, and so does the third round.

## Model

| member | source | states |
|---|---|---|
| PyStr.StripStart | main.py:93 | the left scan of `strip`: every character it passes is strippable and it stops at the first one that is not |
| PyStr.StripEnd | main.py:93 | the right scan of `strip`: every character it passes is strippable and it stops after the last one that is not, never crossing the left scan's stop |
| PyStr.Strip | main.py:92-96 | `strip(cs)` is the slice of the input left after removing a leading and a trailing run of `cs` characters, and those runs are maximal: the result neither starts nor ends with a character of `cs`; it is empty exactly when every character of the input is in `cs` (so `if line.strip():` skips exactly the whitespace-only lines) |
| PyStr.StripIdempotent | main.py:94-96 | stripping twice is stripping once |
| PyStr.StripWrapped | main.py:94 | stripping `"` from a body wrapped in one `"` on each side gives the body back when its own ends are not quotes |
| PyStr.FindFrom | main.py:94 | the least index at or after `i` where the separator occurs, or none when there is none |
| PyStr.Split | main.py:92-94 | `split(sep)`: joining the parts with `sep` gives the input back, no part contains `sep`, and the first part is the text before the first occurrence |
| PyStr.FoundMeans | main.py:94 | an occurrence the search returns is the first one at or after the starting position |
| PyStr.NotFoundMeans | main.py:94 | the search returns nothing exactly when the separator starts at no position at or after the starting position |
| PyStr.SplitCuts | main.py:94 | every cut of `split(sep)`, located in the original string, is the first occurrence of `sep` at or after the start of the part it ends; the next part starts right after that occurrence, so overlapping occurrences are never cut twice; the last part runs to the end and `sep` does not occur at or after its start |
| PyStr.SplitOverlapExample | main.py:94 | the separator `","` overlaps itself, and `a","b",","c` splits into `a`, `b` and `,"c`: a candidate that starts inside an occurrence already cut is not a cut |
| PyStr.SplitJoin | main.py:94 | splitting the join of fields that do not contain the separator's first character gives the fields back |
| PyStr.NatToString | main.py:124 | `f"{n}"`: decimal digits without a leading zero that read back as `n` |
| Tasklist.NameOf | main.py:94-96 | the image name neither starts nor ends with `"` and never contains `","` |
| Tasklist.NameBeforeFirstSeparator | main.py:94-96 | the name is the quote-stripped text before the first `","` of the quote-stripped line, or all of it when there is none |
| Tasklist.TrayLine | main.py:93-97 | a line yields a record exactly when it is not blank, and the record's name is the line's image name |
| Tasklist.WindowLine | process_manager.py:85-92 | a line yields a record exactly when it is not blank and has at least four fields, with a memory column |
| Tasklist.CollectAppend | main.py:91-97 | lines are read independently and in order: the records of a concatenation are the concatenation of the records |
| Tasklist.CollectKeeps | main.py:93-97 | every line that yields a record contributes that record |
| Tasklist.FieldsOfCsvLine | main.py:94 | on a line as tasklist writes it (quoted fields without quotes inside, separated by commas), the split recovers exactly the fields |
| Tasklist.TrayLineOfCsvLine | main.py:93-97 | the tray revision reads the first field of a well-formed line as the name |
| Tasklist.WindowLineOfCsvLine | process_manager.py:85-92 | the window revision reads the first and fourth fields of a well-formed line, and drops it when it has fewer than four |
| ProcessMerge.GroupNames | main.py:109-119 | the grouping dictionary holds the distinct names in order of first occurrence, each with the number of times it occurs |
| ProcessMerge.AddNamePreserves | main.py:111-119 | one loop iteration keeps the dictionary faithful to the names seen so far |
| ProcessMerge.Display | main.py:122-126 | the display name is the bare name exactly when the count is at most one; otherwise it is the name, ` (`, the decimal count without a leading zero, and `)` |
| ProcessMerge.Merge | main.py:107-132 | one entry per distinct name, original names pairwise distinct, in order of first occurrence, each displaying the number of records with its name |
| ProcessMerge.MergeEmpty | main.py:107-132 | the merged list is empty exactly when there are no records |
| ProcessMerge.MergeNameSet | main.py:107-132 | merging keeps the set of names, and yields as many entries as distinct names |
| ProcessMerge.AsSet | main.py:161 | `set(list)` holds exactly the elements of the list |
| ProcessMerge.SavedNameSet | main.py:142 | the list of original names of a snapshot, as a set, is the snapshot's name set |
| Config.LoadProcesses | main.py:24-32 | a non-empty result is the list stored in a readable document; an absent, unreadable or keyless file loads as `[]` |
| Config.SaveProcesses | main.py:14-22 | the save reports success exactly when the write goes through, and the file then holds the given list |
| KillRound.KillSet | main.py:190-191 | the kill set lies within the current names, is disjoint from the baseline, and leaves out only baseline names |
| KillRound.TaskkillEach | main.py:208-220 | every name gets exactly one `taskkill /F`, whatever the order and whatever fails, and the tally is the number of names whose call exited with 0 |
| KillRound.ForceKillEach | main.py:274-293 | every name gets exactly one tree kill; `wmic` runs exactly for the names whose tree kill exited non-zero; the tally counts the names killed by either |
| TrayApp.CurrentProcesses | main.py:84-105 | a non-zero exit or a raising tasklist gives `[]`; the snapshot lists each name once |
| TrayApp.CurrentProcessesNames | main.py:90-99 | on a zero exit the snapshot's names are exactly the names of the records read from the output, and it is empty exactly when no line yields a record |
| TrayApp.KillOnce | main.py:187-220 | given the names of the round's snapshot: only current names outside the baseline are targeted; the dialog is shown exactly when `show_confirm` is set and there is something to kill; an empty kill set means no dialog and no kill; a declined dialog kills nothing but reports the candidates as attempted; otherwise `taskkill` goes to exactly the kill set, `killed` counts the names whose call exited with 0, and `0 <= killed <= attempted` |
| TrayApp.ForceKillOnce | main.py:254-293 | given the names of the round's snapshot: only current names outside the baseline are targeted; the dialog is shown exactly when there is something to kill; a confirmed round targets exactly the kill set, falls back to `wmic` exactly after a non-zero tree kill, and counts a name as killed when either succeeds |
| TrayApp.KillOtherProcesses | main.py:154-185 | no pass without a baseline; the first pass is a round with the dialog over the first snapshot, and the second, only after a first pass that killed something, is a round without it over the second snapshot, both against the loaded baseline; total killed is the sum and total attempted comes from the first pass |
| TrayApp.ForceRounds | main.py:232-245 | between one and three rounds; every round but the last killed something; the last is the third or one that killed nothing; the total is the sum; one sleep between consecutive rounds and none after the last |
| TrayApp.ForceKillOtherProcesses | main.py:222-252 | no round without a baseline; otherwise round `i` is a force round against the loaded baseline with the answers of round `i`, under the loop rules above |
| TrayApp.SaveSnapshot | main.py:136-152 | nothing is written when the snapshot is empty; otherwise the save succeeds exactly when the write does, a failed write leaves whatever it left, and a successful one makes the file hold exactly the snapshot's names, each once |
| TrayApp.SaveCurrentProcesses | main.py:134-152 | a failed or raising tasklist saves nothing; on a zero exit nothing is saved exactly when no line yields a record; a save succeeds exactly when the write does, and a successful one makes the file hold exactly the names read from the output |
| TrayApp.SaveThenKillNothing | main.py:136-194 | after a successful save, a round of either flavour over the same snapshot finds nothing to kill, asks nothing and kills nothing |
| TrayApp.CoveredBaselineStops | main.py:156-168 | when the loaded baseline covers the first snapshot, the two-pass decision (`TwoPass`, the body of `KillOtherProcesses`) stops after a first pass that neither asks nor kills, whatever the second round would do |
| TrayApp.ConfirmedKillContinues | main.py:163-175 | in the two-pass decision, a confirmed first pass in which some candidate's `taskkill` exits with 0 always leads to the second pass |
| WindowApp.Refresh | process_manager.py:77-99 | on a zero exit the snapshot holds exactly the names of the lines with at least four fields, each once; on a non-zero exit or an exception nothing changes; the baseline is never touched |
| WindowApp.NewManager | process_manager.py:36-42 | a new manager has an empty baseline and a snapshot from its first refresh, empty when that refresh fails |
| WindowApp.SaveCurrent | process_manager.py:124-136 | nothing is saved exactly when the snapshot is empty, and then nothing changes; a successful write makes the file and the in-memory baseline hold exactly the snapshot's names; a failed write leaves the manager as it was |
| WindowApp.Kill | process_manager.py:138-175 | no kill without a baseline; the baseline is adopted whenever it is present; the candidates come from the cached snapshot minus the baseline; no dialog when there are none; after a Yes each candidate gets exactly one `taskkill` and the snapshot is refreshed; the snapshot invariant is preserved |
| WindowApp.EnsureManager | process_manager.py:208-218 | an existing manager is reused; a missing one is created with an empty baseline and the snapshot of its initial refresh: empty when that tasklist fails, otherwise exactly the names of its lines with at least four fields |
| WindowApp.MenuKill | process_manager.py:216-220 | the tray's kill first obtains the manager; there is no kill without a baseline; otherwise the baseline is adopted, and the kill finds nothing, is declined or kills exactly as the obtained manager's candidates and the dialog's answer decide; each candidate is killed exactly once |
| WindowApp.SaveThenNothingToKill | process_manager.py:124-153 | a successful save followed by a kill against the same cached snapshot finds nothing to kill |

## Left out

- The Qt user interface is not modelled: tray menu, message boxes, log lines and the status label. This includes the dialog's preview of at most ten names and all message texts, among them the final force message, which always says three rounds were checked. A dialog is only its yes/no answer.
- `edit_process_list` (`main.py:73-82`) only launches Notepad on the configuration file, so it has no logic to model.
- `time.sleep(2)` is not performed. The force driver counts its sleeps (`sleeps`). The two-pass driver sleeps once between its passes, which is exactly when its result is `BothPasses`; no separate counter is kept for it.
- The GBK decoding of command output is not modelled. Output is taken as already-decoded text.
- YAML parsing and dumping are not modelled. A file is one of: absent, unreadable (including an empty document, whose `get` raises), or a mapping with or without a list under `saved_processes`. A non-list value under that key is not modelled.
- `round_num` only appears in dialog titles, so it is not modelled.
- `tools/pa_win.py` is a packaging script and is not part of this model.
- The `len(parts) >= 1` test at `main.py:95` always holds after a split, so it has no branch of its own.
- The memory column is parsed by the window revision, but `merge_processes` drops it, so the snapshot does not carry it.
- The kill loops record the names handed to each command, not the commands' full argument lists.
- Concurrency, cancellation and a list of protected processes do not exist in the code, so they are not modelled.
