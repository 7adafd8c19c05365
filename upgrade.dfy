/**
 * `skeletone upgrade` (upgrade.py): plan the forward chain from the locked version, then
 * apply it step by step, persisting each version as soon as its patch applies.
 */
module Upgrade {
  import opened Wrappers
  import opened Strings
  import opened Catalog
  import opened Chains
  import opened Ledger

  /** The forward planner's step function over the listed patch names. */
  function ForwardStep(names: seq<string>): Next {
    NextOf(MatcherOf(Forward), names)
  }

  /**
   * `build_patch_chain` (upgrade.py:25-39): from `curVer`, repeatedly take the first name
   * of the form `<cur>_to_<next>.patch` and step to `next`, until no name matches.
   * The source loop has no bound; `Halts` is the input on which it ends.
   */
  method BuildPatchChain(curVer: string, patchNames: seq<string>) returns (chain: seq<Step>)
    requires Halts(ForwardStep(patchNames), curVer, None, patchNames)
    ensures chain == Plan(ForwardStep(patchNames), curVer, None, patchNames).steps
  {
    var o := PlanChain(MatcherOf(Forward), curVer, None, patchNames);
    chain := o.steps;
  }

  /** Off `Halts` the source's loop never ends: the forward walk runs out of every fuel. */
  lemma ForwardDiverges(curVer: string, patchNames: seq<string>, fuel: nat)
    requires !Halts(ForwardStep(patchNames), curVer, None, patchNames)
    ensures Walk(ForwardStep(patchNames), curVer, None, fuel).end == Exhausted
  {
    MatcherInjective(Forward);
    NextOfProperties(MatcherOf(Forward), patchNames);
    NonHaltingWalkDiverges(ForwardStep(patchNames), curVer, None, patchNames, fuel);
  }

  /**
   * The entries of a forward plan, stated without the walk: each entry's name comes from
   * the list and is `<previous version>_to_<version>.patch` (or that name with the one
   * final newline the regex's `$` admits), each version is `v` followed by digits and
   * dots, and no name is used twice.
   */
  lemma ForwardPlanEntries(curVer: string, patchNames: seq<string>)
    requires Halts(ForwardStep(patchNames), curVer, None, patchNames)
    ensures var chain := Plan(ForwardStep(patchNames), curVer, None, patchNames).steps;
      forall i :: 0 <= i < |chain| ==>
        chain[i].name in patchNames && IsVersion(chain[i].version)
        && (chain[i].name == EdgeName(Forward, After(curVer, chain, i), chain[i].version)
            || chain[i].name == EdgeName(Forward, After(curVer, chain, i), chain[i].version) + "\n")
    ensures NamesDistinct(Plan(ForwardStep(patchNames), curVer, None, patchNames).steps)
  {
    var next := ForwardStep(patchNames);
    var m := MatcherOf(Forward);
    var chain := Plan(next, curVer, None, patchNames).steps;
    WalkFollows(next, curVer, None, |patchNames|);
    MatcherInjective(Forward);
    NextOfProperties(m, patchNames);
    WalkNamesDistinct(next, curVer, None, |patchNames|);
    forall i | 0 <= i < |chain|
      ensures chain[i].name in patchNames && IsVersion(chain[i].version)
      ensures chain[i].name == EdgeName(Forward, After(curVer, chain, i), chain[i].version)
        || chain[i].name == EdgeName(Forward, After(curVer, chain, i), chain[i].version) + "\n"
    {
      assert next(After(curVer, chain, i)) == Some(chain[i]);
      FirstEdgeStep(m, After(curVer, chain, i), patchNames);
    }
  }

  /** First match wins: each entry's name occurs in the list no later than any name that
      matches from the version before it, so a later name for the same version is never
      chosen. */
  lemma ForwardPlanFirstMatch(curVer: string, patchNames: seq<string>)
    requires Halts(ForwardStep(patchNames), curVer, None, patchNames)
    ensures var chain := Plan(ForwardStep(patchNames), curVer, None, patchNames).steps;
      forall i, j :: 0 <= i < |chain| && 0 <= j < |patchNames| && Edge(Forward, After(curVer, chain, i), patchNames[j]).Some? ==>
        chain[i].name in patchNames[..j + 1]
  {
    var next := ForwardStep(patchNames);
    var m := MatcherOf(Forward);
    var chain := Plan(next, curVer, None, patchNames).steps;
    WalkFollows(next, curVer, None, |patchNames|);
    forall i, j | 0 <= i < |chain| && 0 <= j < |patchNames| && Edge(Forward, After(curVer, chain, i), patchNames[j]).Some?
      ensures chain[i].name in patchNames[..j + 1]
    {
      assert next(After(curVer, chain, i)) == Some(chain[i]);
      FirstEdgeEarliest(m, After(curVer, chain, i), patchNames, j);
    }
  }

  /** The frontier: no listed name matches from the version the plan reaches (the starting
      version when the chain is empty). */
  lemma ForwardPlanFrontier(curVer: string, patchNames: seq<string>)
    requires Halts(ForwardStep(patchNames), curVer, None, patchNames)
    ensures var chain := Plan(ForwardStep(patchNames), curVer, None, patchNames).steps;
      forall j :: 0 <= j < |patchNames| ==> Edge(Forward, After(curVer, chain, |chain|), patchNames[j]).None?
  {
    var next := ForwardStep(patchNames);
    var m := MatcherOf(Forward);
    var o := Plan(next, curVer, None, patchNames);
    WalkEndJustified(next, curVer, None, |patchNames|);
    var last := After(curVer, o.steps, |o.steps|);
    assert next(last).None?;
    forall j | 0 <= j < |patchNames|
      ensures Edge(Forward, last, patchNames[j]).None?
    {
      if Edge(Forward, last, patchNames[j]).Some? {
        FirstEdgeEarliest(m, last, patchNames, j);
      }
    }
  }

  /** How `upgrade_skeletone` ends. `LockMissing`, `VersionKeyMissing` and `Halted` are the
      exceptions it lets escape (the failed open, the `KeyError`, the download or apply
      error of step `step`). */
  datatype UpgradeResult =
    | LockMissing
    | VersionKeyMissing
    | NoPatchesRequired
    | Upgraded(steps: nat)
    | Halted(step: nat, reason: Failure)

  /**
   * `upgrade_skeletone` (upgrade.py:55-76): read the lock, plan from its
   * `template_version`, and, when the chain is not empty, apply each step forward and then
   * write the lock with only `template_version` changed. The first failure halts the run.
   */
  method UpgradeSkeletone(p: Project, patchNames: seq<string>) returns (r: UpgradeResult)
    requires p.lock.Some? && VersionKey in p.lock.value ==>
      Halts(ForwardStep(patchNames), p.lock.value[VersionKey], None, patchNames)
    modifies p
    ensures old(p.lock).None? ==> r == LockMissing && p.lock == old(p.lock) && p.trail == old(p.trail)
    ensures old(p.lock).Some? && VersionKey !in old(p.lock).value ==>
      r == VersionKeyMissing && p.lock == old(p.lock) && p.trail == old(p.trail)
    ensures old(p.lock).Some? && VersionKey in old(p.lock).value ==>
      var chain := Plan(ForwardStep(patchNames), old(p.lock).value[VersionKey], None, patchNames).steps;
      var run := Execute(p.oracle, Forward, KeepOtherKeys, chain, old(p.lock).value, old(p.trail));
      if chain == [] then
        r == NoPatchesRequired && p.lock == old(p.lock) && p.trail == old(p.trail)
      else
        p.trail == run.trail && p.lock == Some(run.lock)
        && r == (if run.failure.None? then Upgraded(|chain|) else Halted(run.done, run.failure.value))
  {
    if p.lock.None? {
      return LockMissing;
    }
    var lock := p.lock.value;
    if VersionKey !in lock {
      return VersionKeyMissing;
    }
    var curVer := lock[VersionKey];
    var chain := BuildPatchChain(curVer, patchNames);
    if chain == [] {
      return NoPatchesRequired;
    }
    var done, failure := p.ApplyChain(chain, Forward, KeepOtherKeys, lock);
    if failure.Some? {
      return Halted(done, failure.value);
    }
    return Upgraded(|chain|);
  }

  /** A completed upgrade leaves the lock at the frontier version the plan reached, with
      every other key as it was. */
  lemma UpgradeCompletes(oracle: Oracle, lock: Record, trail: seq<Event>, patchNames: seq<string>)
    requires VersionKey in lock
    requires Halts(ForwardStep(patchNames), lock[VersionKey], None, patchNames)
    ensures var chain := Plan(ForwardStep(patchNames), lock[VersionKey], None, patchNames).steps;
      var run := Execute(oracle, Forward, KeepOtherKeys, chain, lock, trail);
      run.failure.None? ==>
        VersionKey in run.lock && run.lock[VersionKey] == After(lock[VersionKey], chain, |chain|)
        && (forall j :: 0 <= j < |patchNames| ==> Edge(Forward, run.lock[VersionKey], patchNames[j]).None?)
        && (forall k :: k != VersionKey ==> (k in run.lock <==> k in lock) && (k in lock ==> run.lock[k] == lock[k]))
  {
    var chain := Plan(ForwardStep(patchNames), lock[VersionKey], None, patchNames).steps;
    var run := Execute(oracle, Forward, KeepOtherKeys, chain, lock, trail);
    ExecuteLock(oracle, Forward, KeepOtherKeys, chain, lock, trail);
    ExecuteKeepsOtherKeys(oracle, Forward, chain, lock, trail);
    ForwardPlanFrontier(lock[VersionKey], patchNames);
    if run.failure.None? {
      var last := After(lock[VersionKey], chain, |chain|);
      assert run.lock == lock || run.lock == Persisted(KeepOtherKeys, lock, last);
      assert VersionKey in run.lock && run.lock[VersionKey] == last;
    }
  }
}
