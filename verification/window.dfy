/** The window revision (`process_manager.py`): a `ProcessManager` keeps a
    cached snapshot of the merged process list and the last known baseline.
    Refreshing replaces the snapshot only when tasklist exits with 0; saving
    writes the cached snapshot's names; killing reloads the baseline from
    the file, compares it with the cached snapshot (not a fresh one), asks
    once, kills every candidate and then refreshes. The tray icon creates
    the manager on first use.
 */
module WindowApp {
  import opened Wrappers
  import opened Subprocess
  import opened Tasklist
  import opened ProcessMerge
  import opened Config
  import opened KillRound

  /** The state of a `ProcessManager` that the operations read and write:
      `current_processes` and `saved_processes`. */
  datatype Manager = Manager(current: seq<ProcessEntry>, saved: set<string>)

  /** What every reachable manager satisfies: the cached snapshot lists each
      original name once. */
  predicate Valid(m: Manager) {
    Distinct(OriginalNames(m.current))
  }

  /** `refresh_processes`: on a zero exit the snapshot becomes the merged
      records of the output (lines with fewer than four fields dropped); on
      a non-zero exit or an exception nothing changes. The baseline is never
      touched. */
  function Refresh(m: Manager, run: RunOutcome): (r: Manager)
    ensures r.saved == m.saved
    ensures !Succeeded(run) ==> r == m
    ensures Succeeded(run) ==>
      && NameSet(r.current) == (set rec | rec in WindowRecords(run.stdout) :: rec.name)
      && (r.current == [] <==> WindowRecords(run.stdout) == [])
      && Valid(r)
    ensures Valid(m) ==> Valid(r)
  {
    if run.Exited? && run.code == 0 then
      var records := WindowRecords(run.stdout);
      MergeNameSet(records);
      MergeEmpty(records);
      Manager(Merge(records), m.saved)
    else m
  }

  /** `ProcessManager.__init__`: an empty snapshot and baseline, then one
      refresh. */
  function NewManager(run: RunOutcome): (r: Manager)
    ensures r.saved == {}
    ensures Valid(r)
    ensures !Succeeded(run) ==> r.current == []
    ensures Succeeded(run) ==>
      NameSet(r.current) == (set rec | rec in WindowRecords(run.stdout) :: rec.name)
  {
    Refresh(Manager([], {}), run)
  }

  /** How `save_current_processes` ends: nothing to save (a warning), a
      successful write, or a failed one. */
  datatype SaveOutcome = Unsaved | Written | NotWritten

  datatype SaveStep = SaveStep(manager: Manager, file: ConfigFile, outcome: SaveOutcome)

  /** `save_current_processes`: an empty snapshot writes nothing and changes
      nothing; otherwise the snapshot's original names are written, and only
      a successful write adopts them as the in-memory baseline. */
  function SaveCurrent(m: Manager, file: ConfigFile, write: WriteOutcome): (r: SaveStep)
    ensures r.manager.current == m.current
    ensures r.outcome.Unsaved? <==> m.current == []
    ensures m.current == [] ==> r == SaveStep(m, file, Unsaved)
    ensures m.current != [] ==> (r.outcome.Written? <==> write.WriteOk?)
    ensures r.outcome.NotWritten? ==> r.manager == m && r.file == write.leftBehind
    ensures r.outcome.Written? ==>
      && r.manager.saved == NameSet(m.current)
      && AsSet(LoadProcesses(r.file)) == NameSet(m.current)
      && (Valid(m) ==> Distinct(LoadProcesses(r.file)))
  {
    if m.current == [] then SaveStep(m, file, Unsaved)
    else
      var names := OriginalNames(m.current);
      var res := SaveProcesses(file, names, write);
      SavedNameSet(m.current);
      if res.ok then SaveStep(m.(saved := AsSet(names)), res.file, Written)
      else SaveStep(m, res.file, NotWritten)
  }

  /** The answers one kill receives: the reply to the confirmation dialog,
      the outcome of `taskkill` per name, and the tasklist run of the
      refresh that follows the kills. */
  datatype KillEnv = KillEnv(confirmed: bool, taskkill: string -> RunOutcome, refresh: RunOutcome)

  /** How `kill_other_processes` ends: no baseline in the file, nothing to
      kill, a declined dialog over the given candidates, or the candidates
      killed with the number of `[✓]` lines logged. */
  datatype KillOutcome =
    | NoBaseline
    | NothingToKill
    | Declined(candidates: set<string>)
    | Killed(candidates: set<string>, succeeded: nat)

  /** The names the cached snapshot lists and the baseline does not. */
  function Candidates(m: Manager, baseline: seq<string>): set<string> {
    KillSet(NameSet(m.current), AsSet(baseline))
  }

  /** `kill_other_processes`. The baseline is reloaded from the file and
      adopted even when nothing is killed; the candidates come from the
      cached snapshot; each one gets exactly one `taskkill /F` after the
      user confirms, and the snapshot is then refreshed. `calls` lists the
      names handed to `taskkill`, in the order they were handed. */
  method Kill(m: Manager, config: ConfigFile, env: KillEnv)
    returns (m': Manager, outcome: KillOutcome, calls: seq<string>)
    ensures outcome.NoBaseline? <==> LoadProcesses(config) == []
    ensures outcome.NoBaseline? ==> m' == m
    ensures !outcome.NoBaseline? ==> m'.saved == AsSet(LoadProcesses(config))
    ensures outcome.NothingToKill? <==>
      LoadProcesses(config) != [] && Candidates(m, LoadProcesses(config)) == {}
    ensures outcome.Declined? <==>
      LoadProcesses(config) != [] && Candidates(m, LoadProcesses(config)) != {} && !env.confirmed
    ensures !outcome.Killed? ==> calls == [] && m'.current == m.current
    ensures outcome.Declined? || outcome.Killed? ==>
      outcome.candidates == Candidates(m, LoadProcesses(config))
    ensures outcome.Killed? ==>
      && EachOnce(calls, outcome.candidates)
      && (forall n :: n in calls ==> n in NameSet(m.current) && n !in m'.saved)
      && outcome.succeeded == |PlainKilled(outcome.candidates, env.taskkill)|
      && m' == Refresh(m.(saved := m'.saved), env.refresh)
    ensures Valid(m) ==> Valid(m')
  {
    var list := LoadProcesses(config);
    if list == [] {
      return m, NoBaseline, [];
    }
    var adopted := m.(saved := AsSet(list));
    var toKill := Candidates(m, list);
    if toKill == {} {
      return adopted, NothingToKill, [];
    }
    if !env.confirmed {
      return adopted, Declined(toKill), [];
    }
    var succeeded;
    succeeded, calls := TaskkillEach(toKill, env.taskkill);
    forall n | n in calls
      ensures n in toKill
    {
      assert n in multiset(calls);
    }
    m' := Refresh(adopted, env.refresh);
    outcome := Killed(toKill, succeeded);
  }

  /** `SystemTrayApp`'s lazily created manager: created (with its initial
      refresh) on first use, reused afterwards. */
  function EnsureManager(pm: Option<Manager>, run: RunOutcome): (m: Manager)
    ensures pm.Some? ==> m == pm.value
    ensures pm.None? ==> m.saved == {} && Valid(m)
    ensures pm.None? && !Succeeded(run) ==> m.current == []
    ensures pm.None? && Succeeded(run) ==>
      NameSet(m.current) == (set rec | rec in WindowRecords(run.stdout) :: rec.name)
  {
    match pm
    case Some(existing) => existing
    case None => NewManager(run)
  }

  /** `SystemTrayApp.kill_other_processes`: the manager is created if
      needed, then asked to kill; the candidates come from that manager's
      snapshot, which is the initial refresh when the manager is new. */
  method MenuKill(pm: Option<Manager>, initRun: RunOutcome, config: ConfigFile, env: KillEnv)
    returns (m: Manager, outcome: KillOutcome, calls: seq<string>)
    ensures outcome.NoBaseline? <==> LoadProcesses(config) == []
    ensures outcome.NothingToKill? <==>
      && LoadProcesses(config) != []
      && Candidates(EnsureManager(pm, initRun), LoadProcesses(config)) == {}
    ensures outcome.Declined? <==>
      && LoadProcesses(config) != []
      && Candidates(EnsureManager(pm, initRun), LoadProcesses(config)) != {}
      && !env.confirmed
    ensures outcome.Killed? <==>
      && LoadProcesses(config) != []
      && Candidates(EnsureManager(pm, initRun), LoadProcesses(config)) != {}
      && env.confirmed
    ensures !outcome.Killed? ==> calls == []
    ensures outcome.Declined? || outcome.Killed? ==>
      outcome.candidates == Candidates(EnsureManager(pm, initRun), LoadProcesses(config))
    ensures outcome.Killed? ==>
      && EachOnce(calls, outcome.candidates)
      && outcome.succeeded == |PlainKilled(outcome.candidates, env.taskkill)|
    ensures !outcome.NoBaseline? ==> m.saved == AsSet(LoadProcesses(config))
    ensures pm.Some? && Valid(pm.value) ==> Valid(m)
    ensures pm.None? ==> Valid(m)
  {
    var manager := EnsureManager(pm, initRun);
    m, outcome, calls := Kill(manager, config, env);
  }

  /** Saving and then killing against the same cached snapshot finds
      nothing to kill: every listed name is in the baseline just written. */
  lemma SaveThenNothingToKill(m: Manager, file: ConfigFile, write: WriteOutcome)
    requires SaveCurrent(m, file, write).outcome.Written?
    ensures var s := SaveCurrent(m, file, write);
      LoadProcesses(s.file) != [] && Candidates(s.manager, LoadProcesses(s.file)) == {}
  {
    var s := SaveCurrent(m, file, write);
    var e := m.current[0];
    assert e in m.current;
    assert e.originalName in NameSet(m.current);
  }
}
