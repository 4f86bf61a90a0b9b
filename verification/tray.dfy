/** The tray revision (`main.py`): snapshotting with `get_current_processes`,
    saving the baseline, one kill round in a plain and a force flavour, and
    the two round drivers behind the tray menu. Every call the program makes
    to the operating system or to the user is answered by an oracle value:
    a `RoundEnv` holds the answers that one round receives.
 */
module TrayApp {
  import opened Wrappers
  import opened Subprocess
  import opened Tasklist
  import opened ProcessMerge
  import opened Config
  import opened KillRound

  /** `rounds = 3` in `force_kill_other_processes`. */
  const MaxRounds: nat := 3

  /** The answers one call of a kill round receives: the tasklist run that
      snapshots the processes, the user's reply to the confirmation dialog
      (if one is shown), and the outcome of each kill command per name. */
  datatype RoundEnv = RoundEnv(
    tasklist: RunOutcome,
    confirmed: bool,
    taskkill: string -> RunOutcome,
    wmic: string -> RunOutcome)

  /** What a round returns (`total_killed`, `total_attempted`) together with
      what it did: whether it showed the dialog, and the names it passed to
      `taskkill` and to `wmic`. */
  datatype RoundReport = RoundReport(
    killed: nat,
    attempted: nat,
    asked: bool,
    taskkills: set<string>,
    wmics: set<string>)

  /** `get_current_processes`: the merged snapshot when tasklist exits with
      0, and the empty list when it exits otherwise or raises. Each name is
      listed once. */
  function CurrentProcesses(run: RunOutcome): (r: seq<ProcessEntry>)
    ensures !Succeeded(run) ==> r == []
    ensures Distinct(OriginalNames(r))
  {
    if run.Exited? && run.code == 0 then Merge(TrayRecords(run.stdout)) else []
  }

  /** On a zero exit the snapshot's names are exactly the names read from
      the output, and it is empty exactly when no line yields a record. */
  lemma CurrentProcessesNames(run: RunOutcome)
    requires Succeeded(run)
    ensures NameSet(CurrentProcesses(run)) == set rec | rec in TrayRecords(run.stdout) :: rec.name
    ensures CurrentProcesses(run) == [] <==> TrayRecords(run.stdout) == []
  {
    MergeNameSet(TrayRecords(run.stdout));
    MergeEmpty(TrayRecords(run.stdout));
  }

  /** `{p['original_name'] for p in current_processes}`. */
  function CurrentNames(run: RunOutcome): set<string> {
    NameSet(CurrentProcesses(run))
  }

  /** `_kill_processes_once`, given the names `current` of the snapshot
      it takes (the drivers pass `CurrentNames` of the round's tasklist
      run). Only names listed now and absent from the baseline are killed.
      With nothing to kill there is no dialog and no kill call. The dialog
      is shown exactly when `showConfirm` holds and there is something to
      kill; a declined dialog kills nothing but still reports the candidates
      as attempted; otherwise every candidate gets exactly one `taskkill`
      and `killed` counts those that exited with 0. */
  function KillOnce(saved: set<string>, current: set<string>, env: RoundEnv,
                    showConfirm: bool): (r: RoundReport)
    ensures r.taskkills <= current && r.taskkills !! saved
    ensures r.wmics == {}
    ensures r.attempted == |current - saved|
    ensures r.attempted == 0 ==> !r.asked && r.taskkills == {} && r.killed == 0
    ensures r.asked <==> showConfirm && r.attempted > 0
    ensures showConfirm && !env.confirmed ==> r.taskkills == {} && r.killed == 0
    ensures r.taskkills != {} ==> r.taskkills == current - saved
    ensures (!showConfirm || env.confirmed) ==> r.taskkills == current - saved
    ensures r.killed == |set n | n in r.taskkills && Succeeded(env.taskkill(n))|
    ensures r.killed <= r.attempted
  {
    var toKill := KillSet(current, saved);
    if toKill == {} then RoundReport(0, 0, false, {}, {})
    else if showConfirm && !env.confirmed then RoundReport(0, |toKill|, true, {}, {})
    else
      SubsetCard(PlainKilled(toKill, env.taskkill), toKill);
      RoundReport(|PlainKilled(toKill, env.taskkill)|, |toKill|, showConfirm, toKill, {})
  }

  /** `_force_kill_processes_once`. As `KillOnce`, except that the dialog is
      shown in every round that has something to kill, and a name counts as
      killed when the tree kill exits with 0 or, after a non-zero exit,
      `wmic` does; `wmic` is run exactly for the names whose tree kill
      exited non-zero. */
  function ForceKillOnce(saved: set<string>, current: set<string>, env: RoundEnv): (r: RoundReport)
    ensures r.taskkills <= current && r.taskkills !! saved
    ensures r.attempted == |current - saved|
    ensures r.asked <==> r.attempted > 0
    ensures r.attempted == 0 || !env.confirmed ==> r.taskkills == {} && r.killed == 0
    ensures env.confirmed ==> r.taskkills == current - saved
    ensures r.wmics == set n | n in r.taskkills && ExitedWithError(env.taskkill(n))
    ensures r.killed == |set n | n in r.taskkills && ForceKills(n, env.taskkill, env.wmic)|
    ensures r.killed <= r.attempted
  {
    var toKill := KillSet(current, saved);
    if toKill == {} then RoundReport(0, 0, false, {}, {})
    else if !env.confirmed then RoundReport(0, |toKill|, true, {}, {})
    else
      SubsetCard(ForceKilled(toKill, env.taskkill, env.wmic), toKill);
      RoundReport(|ForceKilled(toKill, env.taskkill, env.wmic)|, |toKill|, true,
                  toKill, WmicTargets(toKill, env.taskkill))
  }

  /** How `kill_other_processes` ends: without a baseline nothing runs;
      a first pass that kills nothing ends the operation; otherwise a second,
      unconfirmed pass follows and the totals are reported. */
  datatype TwoPassResult =
    | NoBaseline
    | FirstOnly(first: RoundReport)
    | BothPasses(first: RoundReport, second: RoundReport, totalKilled: nat, totalAttempted: nat)

  /** `kill_other_processes`. Round `i` receives the answers `env(i)`. */
  function KillOtherProcesses(config: ConfigFile, env: nat -> RoundEnv): (r: TwoPassResult)
    ensures r.NoBaseline? <==> LoadProcesses(config) == []
    ensures r.FirstOnly? ==> r.first.killed == 0
    ensures r.BothPasses? ==>
      && r.first.killed > 0
      && !r.second.asked
      && r.totalKilled == r.first.killed + r.second.killed
      && r.totalAttempted == r.first.attempted
    ensures !r.NoBaseline? ==>
      r.first.taskkills !! AsSet(LoadProcesses(config))
    ensures r.BothPasses? ==>
      r.second.taskkills !! AsSet(LoadProcesses(config))
    ensures !env(0).confirmed ==> !r.BothPasses? && (r.FirstOnly? ==> r.first.taskkills == {})
    ensures !r.NoBaseline? ==>
      r.first == KillOnce(AsSet(LoadProcesses(config)), CurrentNames(env(0).tasklist), env(0), true)
    ensures r.BothPasses? ==>
      r.second == KillOnce(AsSet(LoadProcesses(config)), CurrentNames(env(1).tasklist), env(1), false)
  {
    var list := LoadProcesses(config);
    var saved := AsSet(list);
    TwoPass(list,
            KillOnce(saved, CurrentNames(env(0).tasklist), env(0), true),
            KillOnce(saved, CurrentNames(env(1).tasklist), env(1), false))
  }

  /** The decision `kill_other_processes` makes from the loaded list and its
      two rounds: no pass without a baseline, a stop after a first pass that
      killed nothing, and otherwise both passes with the totals. */
  function TwoPass(list: seq<string>, first: RoundReport, second: RoundReport): TwoPassResult {
    if list == [] then NoBaseline
    else if first.killed == 0 then FirstOnly(first)
    else BothPasses(first, second, first.killed + second.killed, first.attempted)
  }

  function SumKilled(rounds: seq<RoundReport>): nat {
    if |rounds| == 0 then 0 else SumKilled(rounds[..|rounds| - 1]) + rounds[|rounds| - 1].killed
  }

  /** How `force_kill_other_processes` ends: without a baseline nothing
      runs; otherwise the rounds that ran, the reported total and the number
      of two-second sleeps. */
  datatype ForceResult =
    | ForceNoBaseline
    | Forced(rounds: seq<RoundReport>, totalKilled: nat, sleeps: nat)

  /** The loop of `force_kill_other_processes`, over the outcome `round(i)`
      of its `i`-th round: at most three rounds run; every round but the
      last killed something, and the last is either the third or one that
      killed nothing. The total is the sum of the rounds' kills, and a sleep
      separates consecutive rounds and happens nowhere else. */
  method ForceRounds(round: nat -> RoundReport)
    returns (rounds: seq<RoundReport>, totalKilled: nat, sleeps: nat)
    ensures 1 <= |rounds| <= MaxRounds
    ensures forall i :: 0 <= i < |rounds| ==> rounds[i] == round(i)
    ensures forall i :: 0 <= i < |rounds| - 1 ==> rounds[i].killed > 0
    ensures |rounds| == MaxRounds || rounds[|rounds| - 1].killed == 0
    ensures totalKilled == SumKilled(rounds)
    ensures sleeps + 1 == |rounds|
  {
    totalKilled, sleeps := 0, 0;
    rounds := [];
    var roundNum := 0;
    while roundNum < MaxRounds
      invariant roundNum <= MaxRounds
      invariant |rounds| == roundNum
      invariant forall i :: 0 <= i < roundNum ==> rounds[i] == round(i)
      invariant forall i :: 0 <= i < roundNum ==> rounds[i].killed > 0
      invariant totalKilled == SumKilled(rounds)
      invariant sleeps == if roundNum == MaxRounds then roundNum - 1 else roundNum
    {
      var result := round(roundNum);
      assert (rounds + [result])[..|rounds|] == rounds;
      rounds := rounds + [result];
      totalKilled := totalKilled + result.killed;
      if result.killed == 0 {
        break;
      }
      if roundNum < MaxRounds - 1 {
        sleeps := sleeps + 1;
      }
      roundNum := roundNum + 1;
    }
  }

  /** `force_kill_other_processes`: no round without a baseline; otherwise
      the loop above, round `i` being a force round against the baseline
      with the answers `env(i)`. */
  method ForceKillOtherProcesses(config: ConfigFile, env: nat -> RoundEnv) returns (r: ForceResult)
    ensures r.ForceNoBaseline? <==> LoadProcesses(config) == []
    ensures r.Forced? ==> 1 <= |r.rounds| <= MaxRounds
    ensures r.Forced? ==> forall i :: 0 <= i < |r.rounds| ==>
      r.rounds[i] == ForceKillOnce(AsSet(LoadProcesses(config)), CurrentNames(env(i).tasklist), env(i))
    ensures r.Forced? ==> forall i :: 0 <= i < |r.rounds| - 1 ==> r.rounds[i].killed > 0
    ensures r.Forced? ==> |r.rounds| == MaxRounds || r.rounds[|r.rounds| - 1].killed == 0
    ensures r.Forced? ==> r.totalKilled == SumKilled(r.rounds)
    ensures r.Forced? ==> r.sleeps + 1 == |r.rounds|
  {
    var list := LoadProcesses(config);
    if list == [] {
      return ForceNoBaseline;
    }
    var saved := AsSet(list);
    var round := (i: nat) => ForceKillOnce(saved, CurrentNames(env(i).tasklist), env(i));
    var rounds, totalKilled, sleeps := ForceRounds(round);
    forall i | 0 <= i < |rounds|
      ensures rounds[i] == ForceKillOnce(saved, CurrentNames(env(i).tasklist), env(i))
    {
      assert rounds[i] == round(i);
    }
    r := Forced(rounds, totalKilled, sleeps);
  }

  /** How `save_current_processes` ends. */
  datatype TraySave = NothingToSave | SaveAttempted(ok: bool, file: ConfigFile)

  /** `save_current_processes` once it holds its fresh snapshot `current`:
      nothing is written when the snapshot is empty; otherwise its original
      names are written, the save succeeds exactly when the write does, and
      the file then holds exactly the snapshot's names, each once. */
  function SaveSnapshot(current: seq<ProcessEntry>, file: ConfigFile, write: WriteOutcome): (r: TraySave)
    ensures r.NothingToSave? <==> current == []
    ensures r.SaveAttempted? ==> (r.ok <==> write.WriteOk?)
    ensures r.SaveAttempted? && !r.ok ==> r.file == write.leftBehind
    ensures r.SaveAttempted? && r.ok ==>
      && AsSet(LoadProcesses(r.file)) == NameSet(current)
      && (Distinct(OriginalNames(current)) ==> Distinct(LoadProcesses(r.file)))
  {
    if current == [] then NothingToSave
    else
      var res := SaveProcesses(file, OriginalNames(current), write);
      SavedNameSet(current);
      SaveAttempted(res.ok, res.file)
  }

  /** `save_current_processes`: the snapshot is taken by
      `get_current_processes`, so a failed tasklist saves nothing. */
  function SaveCurrentProcesses(run: RunOutcome, file: ConfigFile, write: WriteOutcome): (r: TraySave)
    ensures !Succeeded(run) ==> r.NothingToSave?
    ensures Succeeded(run) ==> (r.NothingToSave? <==> TrayRecords(run.stdout) == [])
    ensures r.SaveAttempted? ==> (r.ok <==> write.WriteOk?)
    ensures r.SaveAttempted? && r.ok ==>
      AsSet(LoadProcesses(r.file)) == set rec | rec in TrayRecords(run.stdout) :: rec.name
  {
    if Succeeded(run) then
      CurrentProcessesNames(run);
      SaveSnapshot(CurrentProcesses(run), file, write)
    else SaveSnapshot(CurrentProcesses(run), file, write)
  }

  /** A saved baseline covers the snapshot it was taken from: a later round
      of either flavour that sees the same names finds nothing to kill, and
      neither asks nor kills. */
  lemma SaveThenKillNothing(current: seq<ProcessEntry>, file: ConfigFile, write: WriteOutcome,
                            saved: ConfigFile, env: RoundEnv, showConfirm: bool)
    requires SaveSnapshot(current, file, write) == SaveAttempted(true, saved)
    ensures LoadProcesses(saved) != []
    ensures KillOnce(AsSet(LoadProcesses(saved)), NameSet(current), env, showConfirm)
      == RoundReport(0, 0, false, {}, {})
    ensures ForceKillOnce(AsSet(LoadProcesses(saved)), NameSet(current), env)
      == RoundReport(0, 0, false, {}, {})
  {
    assert current[0] in current;
    assert current[0].originalName in NameSet(current);
  }

  /** When the baseline covers every name of the first snapshot, the
      two-pass driver stops after a first pass that neither asks nor
      kills, whatever the second round would have done. */
  lemma CoveredBaselineStops(list: seq<string>, current: set<string>, env: RoundEnv,
                             second: RoundReport)
    requires list != [] && current <= AsSet(list)
    ensures TwoPass(list, KillOnce(AsSet(list), current, env, true), second)
         == FirstOnly(RoundReport(0, 0, false, {}, {}))
  {
    assert current - AsSet(list) == {};
  }

  /** The converse direction: once the user confirms the first pass and
      some candidate's `taskkill` exits with 0, the driver goes on to the
      second pass. */
  lemma ConfirmedKillContinues(list: seq<string>, current: set<string>, env: RoundEnv,
                               second: RoundReport, n: string)
    requires list != [] && env.confirmed
    requires n in current && n !in AsSet(list) && Succeeded(env.taskkill(n))
    ensures TwoPass(list, KillOnce(AsSet(list), current, env, true), second).BothPasses?
  {
    var first := KillOnce(AsSet(list), current, env, true);
    assert n in first.taskkills;
    assert n in set m | m in first.taskkills && Succeeded(env.taskkill(m));
  }
}
