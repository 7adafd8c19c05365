/**
 * `skeletone downgrade` (downgrade.py): plan the backward chain from the locked version to
 * a target version, then reverse-apply it step by step, overwriting the lock with a fresh
 * record after each step.
 */
module Downgrade {
  import opened Wrappers
  import opened Strings
  import opened Catalog
  import opened Chains
  import opened Ledger

  /** The backward planner's step function over the listed patch names. */
  function BackwardStep(names: seq<string>): Next {
    NextOf(MatcherOf(Reverse), names)
  }

  /** What `build_downgrade_patch_chain` returns: the chain, or the exception it raises
      when some version before the target has no edge into it. */
  datatype PlanResult = Planned(chain: seq<Step>) | NoChain

  /**
   * `build_downgrade_patch_chain` (downgrade.py:57-78): from `currentVer`, while the target
   * is not reached, take the first name of the form `<prev>_to_<cur>.patch` and step to
   * `prev`; with no such name, raise instead of returning what was found so far.
   */
  method BuildDowngradePatchChain(currentVer: string, targetVer: string, patchNames: seq<string>) returns (r: PlanResult)
    requires Halts(BackwardStep(patchNames), currentVer, Some(targetVer), patchNames)
    ensures var o := Plan(BackwardStep(patchNames), currentVer, Some(targetVer), patchNames);
      r == if o.end == Stopped then Planned(o.steps) else NoChain
    ensures currentVer == targetVer ==> r == Planned([])
  {
    var o := PlanChain(MatcherOf(Reverse), currentVer, Some(targetVer), patchNames);
    if o.end == Stuck {
      return NoChain;
    }
    return Planned(o.steps);
  }

  /** Off `Halts` the source's loop never ends: the backward walk runs out of every fuel. */
  lemma BackwardDiverges(currentVer: string, targetVer: string, patchNames: seq<string>, fuel: nat)
    requires !Halts(BackwardStep(patchNames), currentVer, Some(targetVer), patchNames)
    ensures Walk(BackwardStep(patchNames), currentVer, Some(targetVer), fuel).end == Exhausted
  {
    MatcherInjective(Reverse);
    NextOfProperties(MatcherOf(Reverse), patchNames);
    NonHaltingWalkDiverges(BackwardStep(patchNames), currentVer, Some(targetVer), patchNames, fuel);
  }

  /**
   * How a backward plan ends, stated without the walk. When it is found, its last version
   * is the target and no earlier version is, and the chain is empty exactly when the
   * current version is the target. When it is not found, the walk reached a version other
   * than the target into which no listed name leads.
   */
  lemma BackwardPlanEnds(currentVer: string, targetVer: string, patchNames: seq<string>)
    requires Halts(BackwardStep(patchNames), currentVer, Some(targetVer), patchNames)
    ensures var o := Plan(BackwardStep(patchNames), currentVer, Some(targetVer), patchNames);
      o.end == Stopped ==>
        After(currentVer, o.steps, |o.steps|) == targetVer
        && (forall i :: 0 <= i < |o.steps| ==> After(currentVer, o.steps, i) != targetVer)
        && (o.steps == [] <==> currentVer == targetVer)
    ensures var o := Plan(BackwardStep(patchNames), currentVer, Some(targetVer), patchNames);
      o.end == Stuck ==>
        After(currentVer, o.steps, |o.steps|) != targetVer
        && forall j :: 0 <= j < |patchNames| ==> Edge(Reverse, After(currentVer, o.steps, |o.steps|), patchNames[j]).None?
  {
    var next := BackwardStep(patchNames);
    var m := MatcherOf(Reverse);
    var o := Plan(next, currentVer, Some(targetVer), patchNames);
    WalkAvoidsTarget(next, currentVer, Some(targetVer), |patchNames|);
    WalkEndJustified(next, currentVer, Some(targetVer), |patchNames|);
    if o.steps != [] {
      assert After(currentVer, o.steps, 0) == currentVer;
    }
    if o.end == Stuck {
      var last := After(currentVer, o.steps, |o.steps|);
      assert next(last).None?;
      forall j | 0 <= j < |patchNames|
        ensures Edge(Reverse, last, patchNames[j]).None?
      {
        if Edge(Reverse, last, patchNames[j]).Some? {
          FirstEdgeEarliest(m, last, patchNames, j);
        }
      }
    }
  }

  /**
   * The entries of a backward plan: each entry's name comes from the list and is
   * `<version>_to_<previous version>.patch` (or that name with the final newline `$`
   * admits), each version is `v` followed by digits and dots, and no name is used twice.
   */
  lemma BackwardPlanEntries(currentVer: string, targetVer: string, patchNames: seq<string>)
    requires Halts(BackwardStep(patchNames), currentVer, Some(targetVer), patchNames)
    ensures var chain := Plan(BackwardStep(patchNames), currentVer, Some(targetVer), patchNames).steps;
      forall i :: 0 <= i < |chain| ==>
        chain[i].name in patchNames && IsVersion(chain[i].version)
        && (chain[i].name == EdgeName(Reverse, After(currentVer, chain, i), chain[i].version)
            || chain[i].name == EdgeName(Reverse, After(currentVer, chain, i), chain[i].version) + "\n")
    ensures NamesDistinct(Plan(BackwardStep(patchNames), currentVer, Some(targetVer), patchNames).steps)
  {
    var next := BackwardStep(patchNames);
    var m := MatcherOf(Reverse);
    var chain := Plan(next, currentVer, Some(targetVer), patchNames).steps;
    WalkFollows(next, currentVer, Some(targetVer), |patchNames|);
    MatcherInjective(Reverse);
    NextOfProperties(m, patchNames);
    WalkNamesDistinct(next, currentVer, Some(targetVer), |patchNames|);
    forall i | 0 <= i < |chain|
      ensures chain[i].name in patchNames && IsVersion(chain[i].version)
      ensures chain[i].name == EdgeName(Reverse, After(currentVer, chain, i), chain[i].version)
        || chain[i].name == EdgeName(Reverse, After(currentVer, chain, i), chain[i].version) + "\n"
    {
      assert next(After(currentVer, chain, i)) == Some(chain[i]);
      FirstEdgeStep(m, After(currentVer, chain, i), patchNames);
    }
  }

  /** First match wins, backward: each entry's name occurs in the list no later than any
      name that leads into the version before it. */
  lemma BackwardPlanFirstMatch(currentVer: string, targetVer: string, patchNames: seq<string>)
    requires Halts(BackwardStep(patchNames), currentVer, Some(targetVer), patchNames)
    ensures var chain := Plan(BackwardStep(patchNames), currentVer, Some(targetVer), patchNames).steps;
      forall i, j :: 0 <= i < |chain| && 0 <= j < |patchNames| && Edge(Reverse, After(currentVer, chain, i), patchNames[j]).Some? ==>
        chain[i].name in patchNames[..j + 1]
  {
    var next := BackwardStep(patchNames);
    var m := MatcherOf(Reverse);
    var chain := Plan(next, currentVer, Some(targetVer), patchNames).steps;
    WalkFollows(next, currentVer, Some(targetVer), |patchNames|);
    forall i, j | 0 <= i < |chain| && 0 <= j < |patchNames| && Edge(Reverse, After(currentVer, chain, i), patchNames[j]).Some?
      ensures chain[i].name in patchNames[..j + 1]
    {
      assert next(After(currentVer, chain, i)) == Some(chain[i]);
      FirstEdgeEarliest(m, After(currentVer, chain, i), patchNames, j);
    }
  }

  /** How `downgrade_to_version` ends. `LockMissing` and `VersionKeyMissing` are the
      exceptions `get_current_version` raises outside the `try` (downgrade.py:36-41);
      `ChainNotFound` and `Aborted` are exceptions the `try` catches and reports
      (downgrade.py:144-146). */
  datatype DowngradeResult =
    | LockMissing
    | VersionKeyMissing
    | AlreadyOnVersion
    | UnknownVersion
    | ChainNotFound
    | Downgraded(steps: nat)
    | Aborted(step: nat, reason: Failure)

  /**
   * `downgrade_to_version` (downgrade.py:103-146): read the current version; return when it
   * is the target or the target is not an available version; otherwise plan the whole
   * chain first, then reverse-apply each step and overwrite the lock with
   * `{template_repo: SKELETON_REPO, template_version: <step's version>}`. A failed plan or
   * step ends the run with the error caught.
   */
  method DowngradeToVersion(p: Project, targetVersion: string, availableVersions: seq<string>, patchNames: seq<string>)
    returns (r: DowngradeResult)
    requires (p.lock.Some? && VersionKey in p.lock.value && p.lock.value[VersionKey] != targetVersion
              && targetVersion in availableVersions) ==>
      Halts(BackwardStep(patchNames), p.lock.value[VersionKey], Some(targetVersion), patchNames)
    modifies p
    ensures old(p.lock).None? ==> r == LockMissing && p.lock == old(p.lock) && p.trail == old(p.trail)
    ensures old(p.lock).Some? && VersionKey !in old(p.lock).value ==>
      r == VersionKeyMissing && p.lock == old(p.lock) && p.trail == old(p.trail)
    ensures old(p.lock).Some? && VersionKey in old(p.lock).value && old(p.lock).value[VersionKey] == targetVersion ==>
      r == AlreadyOnVersion && p.lock == old(p.lock) && p.trail == old(p.trail)
    ensures (old(p.lock).Some? && VersionKey in old(p.lock).value && old(p.lock).value[VersionKey] != targetVersion
             && targetVersion !in availableVersions) ==>
      r == UnknownVersion && p.lock == old(p.lock) && p.trail == old(p.trail)
    ensures (old(p.lock).Some? && VersionKey in old(p.lock).value && old(p.lock).value[VersionKey] != targetVersion
             && targetVersion in availableVersions) ==>
      var o := Plan(BackwardStep(patchNames), old(p.lock).value[VersionKey], Some(targetVersion), patchNames);
      var run := Execute(p.oracle, Reverse, FreshRecord, o.steps, old(p.lock).value, old(p.trail));
      if o.end != Stopped then
        r == ChainNotFound && p.lock == old(p.lock) && p.trail == old(p.trail)
      else
        p.trail == run.trail && p.lock == (if run.done == 0 then old(p.lock) else Some(run.lock))
        && r == (if run.failure.None? then Downgraded(|o.steps|) else Aborted(run.done, run.failure.value))
  {
    if p.lock.None? {
      return LockMissing;
    }
    var lock := p.lock.value;
    if VersionKey !in lock {
      return VersionKeyMissing;
    }
    var currentVersion := lock[VersionKey];
    if currentVersion == targetVersion {
      return AlreadyOnVersion;
    }
    if targetVersion !in availableVersions {
      return UnknownVersion;
    }
    var planned := BuildDowngradePatchChain(currentVersion, targetVersion, patchNames);
    if planned.NoChain? {
      return ChainNotFound;
    }
    var chain := planned.chain;
    var done, failure := p.ApplyChain(chain, Reverse, FreshRecord, lock);
    if failure.Some? {
      return Aborted(done, failure.value);
    }
    return Downgraded(|chain|);
  }

  /** The `if not chain` branch (downgrade.py:123-125) is never taken: the guard before it
      has already returned when the current version is the target, and otherwise a found
      chain has at least one step. */
  lemma PlannedChainNotEmpty(currentVer: string, targetVer: string, patchNames: seq<string>)
    requires Halts(BackwardStep(patchNames), currentVer, Some(targetVer), patchNames)
    requires currentVer != targetVer
    ensures var o := Plan(BackwardStep(patchNames), currentVer, Some(targetVer), patchNames);
      o.end == Stopped ==> o.steps != []
  {
    BackwardPlanEnds(currentVer, targetVer, patchNames);
  }

  /** A completed downgrade leaves exactly `{template_repo: SKELETON_REPO,
      template_version: target}` in the lock; a run that stopped at step `k > 0` leaves
      the same record with the version of step `k - 1`. */
  lemma DowngradeLock(oracle: Oracle, lock: Record, trail: seq<Event>, targetVer: string, patchNames: seq<string>)
    requires VersionKey in lock && lock[VersionKey] != targetVer
    requires Halts(BackwardStep(patchNames), lock[VersionKey], Some(targetVer), patchNames)
    ensures var o := Plan(BackwardStep(patchNames), lock[VersionKey], Some(targetVer), patchNames);
      var run := Execute(oracle, Reverse, FreshRecord, o.steps, lock, trail);
      o.end == Stopped && run.failure.None? ==>
        run.lock == map[RepoKey := SkeletonRepo, VersionKey := targetVer]
    ensures var o := Plan(BackwardStep(patchNames), lock[VersionKey], Some(targetVer), patchNames);
      var run := Execute(oracle, Reverse, FreshRecord, o.steps, lock, trail);
      run.done > 0 ==>
        run.lock == map[RepoKey := SkeletonRepo, VersionKey := o.steps[run.done - 1].version]
  {
    var o := Plan(BackwardStep(patchNames), lock[VersionKey], Some(targetVer), patchNames);
    var run := Execute(oracle, Reverse, FreshRecord, o.steps, lock, trail);
    ExecuteLock(oracle, Reverse, FreshRecord, o.steps, lock, trail);
    BackwardPlanEnds(lock[VersionKey], targetVer, patchNames);
    if run.done > 0 {
      var rec := Persisted(FreshRecord, lock, o.steps[run.done - 1].version);
      assert rec == map[RepoKey := SkeletonRepo, VersionKey := o.steps[run.done - 1].version];
    }
  }
}
