/** One kill round, as both revisions perform it once the set of names to
    kill is known: every name is handed to `taskkill /IM <name> /F` exactly
    once, in whatever order Python's set iteration yields, and a failure or
    an exception on one name does not stop the others. The force variant
    adds `/T` and, only when that exits with a non-zero code, falls back to
    `wmic process where name="<name>" call terminate`.
 */
module KillRound {
  import opened Subprocess

  /** `current_names - saved_processes`: the names listed now and absent
      from the baseline. There is no list of protected processes. */
  function KillSet(current: set<string>, saved: set<string>): (r: set<string>)
    ensures r <= current && r !! saved
    ensures current <= r + saved
  {
    current - saved
  }

  /** The names whose plain `taskkill` exits with code 0. */
  function PlainKilled(toKill: set<string>, taskkill: string -> RunOutcome): set<string> {
    set n | n in toKill && Succeeded(taskkill(n))
  }

  /** Whether the force variant counts `n` as killed: the tree kill exits
      with 0, or it exits non-zero and `wmic` then exits with 0. A raised
      tree kill is not followed by `wmic`. */
  predicate ForceKills(n: string, taskkill: string -> RunOutcome, wmic: string -> RunOutcome) {
    Succeeded(taskkill(n)) || (ExitedWithError(taskkill(n)) && Succeeded(wmic(n)))
  }

  function ForceKilled(toKill: set<string>, taskkill: string -> RunOutcome, wmic: string -> RunOutcome): set<string> {
    set n | n in toKill && ForceKills(n, taskkill, wmic)
  }

  /** The names for which the force variant falls back to `wmic`. */
  function WmicTargets(toKill: set<string>, taskkill: string -> RunOutcome): set<string> {
    set n | n in toKill && ExitedWithError(taskkill(n))
  }

  /** Each name of `toKill` occurs in `calls` exactly once, and nothing else
      does. */
  ghost predicate EachOnce(calls: seq<string>, toKill: set<string>) {
    multiset(calls) == multiset(toKill)
  }

  lemma SubsetCard(a: set<string>, b: set<string>)
    requires a <= b
    ensures |a| <= |b|
  {
    assert b == a + (b - a);
  }

  /** A sequence in which every element of a set occurs once is as long as
      the set is large. */
  lemma EachOnceLength(calls: seq<string>, toKill: set<string>)
    requires EachOnce(calls, toKill)
    ensures |calls| == |toKill|
  {
    assert |multiset(calls)| == |calls|;
    assert |multiset(toKill)| == |toKill|;
  }

  /** Moving one name from the pending set to the handled set. */
  lemma StepDone(toKill: set<string>, rest: set<string>, n: string)
    requires rest <= toKill && n in rest
    ensures toKill - (rest - {n}) == (toKill - rest) + {n}
    ensures n !in toKill - rest
    ensures multiset(toKill - (rest - {n})) == multiset(toKill - rest) + multiset{n}
  {
    assert toKill - (rest - {n}) == (toKill - rest) + {n};
  }

  lemma PlainStep(done: set<string>, n: string, taskkill: string -> RunOutcome)
    requires n !in done
    ensures |PlainKilled(done + {n}, taskkill)|
      == |PlainKilled(done, taskkill)| + (if Succeeded(taskkill(n)) then 1 else 0)
  {
    if Succeeded(taskkill(n)) {
      assert PlainKilled(done + {n}, taskkill) == PlainKilled(done, taskkill) + {n};
    } else {
      assert PlainKilled(done + {n}, taskkill) == PlainKilled(done, taskkill);
    }
  }

  lemma ForceStep(done: set<string>, n: string, taskkill: string -> RunOutcome, wmic: string -> RunOutcome)
    requires n !in done
    ensures |ForceKilled(done + {n}, taskkill, wmic)|
      == |ForceKilled(done, taskkill, wmic)| + (if ForceKills(n, taskkill, wmic) then 1 else 0)
    ensures multiset(WmicTargets(done + {n}, taskkill))
      == multiset(WmicTargets(done, taskkill)) + (if ExitedWithError(taskkill(n)) then multiset{n} else multiset{})
  {
    if ForceKills(n, taskkill, wmic) {
      assert ForceKilled(done + {n}, taskkill, wmic) == ForceKilled(done, taskkill, wmic) + {n};
    } else {
      assert ForceKilled(done + {n}, taskkill, wmic) == ForceKilled(done, taskkill, wmic);
    }
    if ExitedWithError(taskkill(n)) {
      assert WmicTargets(done + {n}, taskkill) == WmicTargets(done, taskkill) + {n};
    } else {
      assert WmicTargets(done + {n}, taskkill) == WmicTargets(done, taskkill);
    }
  }

  /** The loop of `_kill_processes_once` (and of the window revision's
      `kill_other_processes`): one `taskkill /F` per name, in an arbitrary
      order. The tally does not depend on the order: it is the number of
      names whose call exited with 0. */
  method TaskkillEach(toKill: set<string>, taskkill: string -> RunOutcome)
    returns (killed: nat, calls: seq<string>)
    ensures EachOnce(calls, toKill) && |calls| == |toKill|
    ensures killed == |PlainKilled(toKill, taskkill)|
    ensures killed <= |toKill|
  {
    killed, calls := 0, [];
    var rest := toKill;
    while rest != {}
      invariant rest <= toKill
      invariant multiset(calls) == multiset(toKill - rest)
      invariant killed == |PlainKilled(toKill - rest, taskkill)|
      decreases |rest|
    {
      var n :| n in rest;
      StepDone(toKill, rest, n);
      PlainStep(toKill - rest, n, taskkill);
      calls := calls + [n];
      if Succeeded(taskkill(n)) {
        killed := killed + 1;
      }
      rest := rest - {n};
    }
    assert toKill - rest == toKill;
    EachOnceLength(calls, toKill);
    SubsetCard(PlainKilled(toKill, taskkill), toKill);
  }

  /** The loop of `_force_kill_processes_once`: one `taskkill /F /T` per
      name, followed by `wmic` exactly for the names whose tree kill exited
      non-zero, never for one that succeeded or raised. */
  method ForceKillEach(toKill: set<string>, taskkill: string -> RunOutcome, wmic: string -> RunOutcome)
    returns (killed: nat, calls: seq<string>, wmicCalls: seq<string>)
    ensures EachOnce(calls, toKill) && |calls| == |toKill|
    ensures EachOnce(wmicCalls, WmicTargets(toKill, taskkill))
    ensures forall n :: n in wmicCalls ==> ExitedWithError(taskkill(n))
    ensures killed == |ForceKilled(toKill, taskkill, wmic)|
    ensures killed <= |toKill|
  {
    killed, calls, wmicCalls := 0, [], [];
    var rest := toKill;
    while rest != {}
      invariant rest <= toKill
      invariant multiset(calls) == multiset(toKill - rest)
      invariant multiset(wmicCalls) == multiset(WmicTargets(toKill - rest, taskkill))
      invariant killed == |ForceKilled(toKill - rest, taskkill, wmic)|
      decreases |rest|
    {
      var n :| n in rest;
      StepDone(toKill, rest, n);
      ForceStep(toKill - rest, n, taskkill, wmic);
      calls := calls + [n];
      var primary := taskkill(n);
      if primary.Exited? {
        if primary.code == 0 {
          killed := killed + 1;
        } else {
          wmicCalls := wmicCalls + [n];
          if Succeeded(wmic(n)) {
            killed := killed + 1;
          }
        }
      }
      rest := rest - {n};
    }
    assert toKill - rest == toKill;
    EachOnceLength(calls, toKill);
    SubsetCard(ForceKilled(toKill, taskkill, wmic), toKill);
    forall n | n in wmicCalls
      ensures ExitedWithError(taskkill(n))
    {
      assert n in multiset(wmicCalls);
      assert n in WmicTargets(toKill, taskkill);
    }
  }
}
