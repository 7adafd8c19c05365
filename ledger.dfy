/**
 * The lock record and the apply-then-persist loop both executors run (upgrade.py:68-73,
 * downgrade.py:129-138).
 *
 * A `Project` holds the lock file (`skeletone.lock`) and the trail of effects on the
 * working tree and the lock, in order. Downloading a patch and running `git apply` is an
 * oracle: its outcome may depend on everything done so far, on the patch name and on the
 * direction (`--reverse` or not).
 */
module Ledger {
  import opened Wrappers
  import opened Catalog
  import opened Chains

  /** The JSON object in `skeletone.lock`; its values are modelled as strings. */
  type Record = map<string, string>

  const RepoKey: string := "template_repo"
  const VersionKey: string := "template_version"

  /** `SKELETON_REPO` (downgrade.py:12). The value is the source's one literal; it is
      written as a concatenation of short literals because the verifier reasons much more
      slowly about every proof that mentions one long string literal. */
  const SkeletonRepo: string := "https://github.com/" + "yoursteacup/skeletone"

  /** Why a download-and-apply step raised: the download did not answer 200
      (upgrade.py:45-46, downgrade.py:88-89) or `git apply` exited non-zero
      (upgrade.py:52-53, downgrade.py:99-100). */
  datatype Failure = DownloadFailed | Conflict

  datatype ApplyOutcome = Applied | Failed(reason: Failure)

  /** One effect: a patch applied (or attempted) in a direction, or the lock file written. */
  datatype Event = Apply(name: string, dir: Direction, result: ApplyOutcome) | Write(record: Record)

  /** The download-and-apply step: its outcome given the effects so far, the patch name and
      the direction. */
  type Oracle = (seq<Event>, string, Direction) -> ApplyOutcome

  /** How a step persists its version: upgrade updates `template_version` in the record it
      read (upgrade.py:71); downgrade writes a fresh two-key record (downgrade.py:132-135). */
  datatype LockPolicy = KeepOtherKeys | FreshRecord

  /** The record written after a step that reached `version`. */
  function Persisted(policy: LockPolicy, lock: Record, version: string): Record {
    match policy
    case KeepOtherKeys => lock[VersionKey := version]
    case FreshRecord => map[RepoKey := SkeletonRepo, VersionKey := version]
  }

  /** The record written holds the version reached; upgrade's keeps every other key of the
      lock as it was, and downgrade's has exactly the repository and the version. */
  lemma PersistedRecord(policy: LockPolicy, lock: Record, version: string)
    ensures var r := Persisted(policy, lock, version);
      VersionKey in r && r[VersionKey] == version
      && (policy == KeepOtherKeys ==>
        r.Keys == lock.Keys + {VersionKey} && forall k :: k in lock && k != VersionKey ==> r[k] == lock[k])
      && (policy == FreshRecord ==> r.Keys == {RepoKey, VersionKey} && r[RepoKey] == SkeletonRepo)
  {
  }

  /** Only the last write counts: persisting twice is persisting the second version. */
  lemma PersistedTwice(policy: LockPolicy, lock: Record, a: string, b: string)
    ensures Persisted(policy, Persisted(policy, lock, a), b) == Persisted(policy, lock, b)
  {
    if policy == KeepOtherKeys {
      assert lock[VersionKey := a][VersionKey := b] == lock[VersionKey := b];
    }
  }

  /** Where a run of the loop ended: the effects, the lock, how many steps completed, and
      the reason of the step that failed, if one did. */
  datatype Run = Run(trail: seq<Event>, lock: Record, done: nat, failure: Option<Failure>)

  /**
   * The loop `for name, ver in chain: apply(name); persist(ver)` as a function: each step
   * asks the oracle, and on success writes the persisted record before the next step; the
   * first failure ends the run.
   */
  function Execute(oracle: Oracle, dir: Direction, policy: LockPolicy, chain: seq<Step>, lock: Record, trail: seq<Event>): (r: Run)
    ensures r.done <= |chain|
    ensures r.failure.None? <==> r.done == |chain|
    decreases |chain|
  {
    if chain == [] then Run(trail, lock, 0, None)
    else
      var result := oracle(trail, chain[0].name, dir);
      var applied := trail + [Apply(chain[0].name, dir, result)];
      match result
      case Failed(why) => Run(applied, lock, 0, Some(why))
      case Applied =>
        var rec := Persisted(policy, lock, chain[0].version);
        var rest := Execute(oracle, dir, policy, chain[1..], rec, applied + [Write(rec)]);
        Run(rest.trail, rest.lock, rest.done + 1, rest.failure)
  }

  /** First-failure halt, for the lock: after a run the lock holds the version of the last
      completed step, or is the record the run started with when no step completed. */
  lemma {:induction false} ExecuteLock(oracle: Oracle, dir: Direction, policy: LockPolicy, chain: seq<Step>, lock: Record, trail: seq<Event>)
    ensures var r := Execute(oracle, dir, policy, chain, lock, trail);
      if r.done == 0 then r.lock == lock
      else r.lock == Persisted(policy, lock, chain[r.done - 1].version)
    decreases |chain|
  {
    if chain != [] && oracle(trail, chain[0].name, dir) == Applied {
      var rec := Persisted(policy, lock, chain[0].version);
      var applied := trail + [Apply(chain[0].name, dir, Applied)];
      var rest := Execute(oracle, dir, policy, chain[1..], rec, applied + [Write(rec)]);
      ExecuteLock(oracle, dir, policy, chain[1..], rec, applied + [Write(rec)]);
      if rest.done > 0 {
        PersistedTwice(policy, lock, chain[0].version, chain[rest.done].version);
      }
    }
  }

  /** Upgrade's policy: a run changes no key of the lock but `template_version`. */
  lemma ExecuteKeepsOtherKeys(oracle: Oracle, dir: Direction, chain: seq<Step>, lock: Record, trail: seq<Event>)
    ensures var r := Execute(oracle, dir, KeepOtherKeys, chain, lock, trail);
      forall k :: k != VersionKey ==> (k in r.lock <==> k in lock) && (k in lock ==> r.lock[k] == lock[k])
  {
    ExecuteLock(oracle, dir, KeepOtherKeys, chain, lock, trail);
  }

  /** The effects of completed steps: for each, in order, its patch applied and then the
      record with its version written. */
  function Effects(dir: Direction, policy: LockPolicy, lock: Record, steps: seq<Step>): (e: seq<Event>)
    ensures |e| == 2 * |steps|
    decreases |steps|
  {
    if steps == [] then []
    else
      [Apply(steps[0].name, dir, Applied), Write(Persisted(policy, lock, steps[0].version))]
      + Effects(dir, policy, lock, steps[1..])
  }

  /** Step `i`'s two effects sit at positions `2i` and `2i + 1`. */
  lemma {:induction false} EffectsAt(dir: Direction, policy: LockPolicy, lock: Record, steps: seq<Step>, i: nat)
    requires i < |steps|
    ensures Effects(dir, policy, lock, steps)[2 * i] == Apply(steps[i].name, dir, Applied)
    ensures Effects(dir, policy, lock, steps)[2 * i + 1] == Write(Persisted(policy, lock, steps[i].version))
    decreases i
  {
    if i > 0 {
      EffectsAt(dir, policy, lock, steps[1..], i - 1);
    }
  }

  /** Every patch in `Effects` is applied in direction `dir`. */
  lemma EffectsDirection(dir: Direction, policy: LockPolicy, lock: Record, steps: seq<Step>)
    ensures forall k :: 0 <= k < |Effects(dir, policy, lock, steps)| && Effects(dir, policy, lock, steps)[k].Apply? ==>
      Effects(dir, policy, lock, steps)[k].dir == dir
  {
    forall k | 0 <= k < |Effects(dir, policy, lock, steps)| && Effects(dir, policy, lock, steps)[k].Apply?
      ensures Effects(dir, policy, lock, steps)[k].dir == dir
    {
      EffectsAt(dir, policy, lock, steps, k / 2);
    }
  }

  /** The records a run writes do not depend on the record it starts from beyond what a
      write replaces. */
  lemma {:induction false} EffectsRebase(dir: Direction, policy: LockPolicy, lock: Record, a: string, steps: seq<Step>)
    ensures Effects(dir, policy, Persisted(policy, lock, a), steps) == Effects(dir, policy, lock, steps)
    decreases |steps|
  {
    if steps != [] {
      PersistedTwice(policy, lock, a, steps[0].version);
      EffectsRebase(dir, policy, lock, a, steps[1..]);
    }
  }

  /** The first entries of a chain followed by the next one. */
  lemma EffectsOfPrefix(dir: Direction, policy: LockPolicy, lock: Record, chain: seq<Step>, i: nat)
    requires 0 < i <= |chain|
    ensures Effects(dir, policy, lock, chain[..i])
      == [Apply(chain[0].name, dir, Applied), Write(Persisted(policy, lock, chain[0].version))]
         + Effects(dir, policy, lock, chain[1..][..i - 1])
  {
    assert chain[..i][1..] == chain[1..][..i - 1];
  }

  /** One completed step of `Execute`, unfolded. */
  lemma ExecuteStep(oracle: Oracle, dir: Direction, policy: LockPolicy, chain: seq<Step>, lock: Record, trail: seq<Event>)
    requires chain != [] && oracle(trail, chain[0].name, dir) == Applied
    ensures var rec := Persisted(policy, lock, chain[0].version);
      var rest := Execute(oracle, dir, policy, chain[1..], rec, trail + [Apply(chain[0].name, dir, Applied)] + [Write(rec)]);
      Execute(oracle, dir, policy, chain, lock, trail) == Run(rest.trail, rest.lock, rest.done + 1, rest.failure)
  {
  }

  /** The loop of `Execute` from step `i` on, counting completed steps from `i`. */
  function ExecuteFrom(oracle: Oracle, dir: Direction, policy: LockPolicy, chain: seq<Step>, i: nat, lock: Record, trail: seq<Event>): Run
    requires i <= |chain|
    decreases |chain| - i
  {
    if i == |chain| then Run(trail, lock, i, None)
    else
      var result := oracle(trail, chain[i].name, dir);
      var applied := trail + [Apply(chain[i].name, dir, result)];
      match result
      case Failed(why) => Run(applied, lock, i, Some(why))
      case Applied =>
        var rec := Persisted(policy, lock, chain[i].version);
        ExecuteFrom(oracle, dir, policy, chain, i + 1, rec, applied + [Write(rec)])
  }

  /** Running from step `i` is running the rest of the chain, with the count shifted by `i`. */
  lemma {:induction false} ExecuteFromSuffix(oracle: Oracle, dir: Direction, policy: LockPolicy, chain: seq<Step>, i: nat, lock: Record, trail: seq<Event>)
    requires i <= |chain|
    ensures var r := Execute(oracle, dir, policy, chain[i..], lock, trail);
      ExecuteFrom(oracle, dir, policy, chain, i, lock, trail) == Run(r.trail, r.lock, r.done + i, r.failure)
    decreases |chain| - i
  {
    if i < |chain| {
      assert chain[i..][0] == chain[i];
      assert chain[i..][1..] == chain[i + 1..];
      if oracle(trail, chain[i].name, dir) == Applied {
        var rec := Persisted(policy, lock, chain[i].version);
        ExecuteFromSuffix(oracle, dir, policy, chain, i + 1, rec, trail + [Apply(chain[i].name, dir, Applied)] + [Write(rec)]);
      }
    }
  }

  /** Running from step 0 is `Execute`. */
  lemma ExecuteFromStart(oracle: Oracle, dir: Direction, policy: LockPolicy, chain: seq<Step>, lock: Record, trail: seq<Event>)
    ensures ExecuteFrom(oracle, dir, policy, chain, 0, lock, trail) == Execute(oracle, dir, policy, chain, lock, trail)
  {
    ExecuteFromSuffix(oracle, dir, policy, chain, 0, lock, trail);
    assert chain[0..] == chain;
  }

  /** The effects of the first `i + 1` steps, from the record persisted by the first. */
  lemma EffectsShift(dir: Direction, policy: LockPolicy, lock: Record, chain: seq<Step>, trail: seq<Event>, i: nat)
    requires i < |chain|
    ensures var rec := Persisted(policy, lock, chain[0].version);
      trail + Effects(dir, policy, lock, chain[..i + 1])
      == trail + [Apply(chain[0].name, dir, Applied)] + [Write(rec)] + Effects(dir, policy, rec, chain[1..][..i])
  {
    EffectsRebase(dir, policy, lock, chain[0].version, chain[1..][..i]);
    EffectsOfPrefix(dir, policy, lock, chain, i + 1);
  }

  /**
   * Apply-then-persist, in order, halting at the first failure: a run adds the effects of
   * its completed steps, each Apply followed by the Write of that step's version, and then
   * the failed Apply if a step failed.
   */
  lemma {:induction false} ExecuteTrace(oracle: Oracle, dir: Direction, policy: LockPolicy, chain: seq<Step>, lock: Record, trail: seq<Event>)
    ensures var r := Execute(oracle, dir, policy, chain, lock, trail);
      r.trail == trail + Effects(dir, policy, lock, chain[..r.done])
        + (if r.failure.Some? then [Apply(chain[r.done].name, dir, Failed(r.failure.value))] else [])
    decreases |chain|
  {
    if chain == [] {
      assert chain[..0] == [];
    } else if oracle(trail, chain[0].name, dir) != Applied {
      assert chain[..0] == [];
    } else {
      var rec := Persisted(policy, lock, chain[0].version);
      var t := trail + [Apply(chain[0].name, dir, Applied)] + [Write(rec)];
      var rest := Execute(oracle, dir, policy, chain[1..], rec, t);
      ExecuteStep(oracle, dir, policy, chain, lock, trail);
      ExecuteTrace(oracle, dir, policy, chain[1..], rec, t);
      EffectsShift(dir, policy, lock, chain, trail, rest.done);
      var tail := if rest.failure.Some? then [Apply(chain[1..][rest.done].name, dir, Failed(rest.failure.value))] else [];
      assert rest.trail == t + Effects(dir, policy, rec, chain[1..][..rest.done]) + tail;
      if rest.failure.Some? {
        assert chain[1..][rest.done] == chain[rest.done + 1];
      }
    }
  }

  /** Each completed step was answered Applied by the oracle, given the effects of the
      steps before it. */
  lemma {:induction false} ExecuteConsultsCompleted(oracle: Oracle, dir: Direction, policy: LockPolicy, chain: seq<Step>, lock: Record, trail: seq<Event>, i: nat)
    requires i < Execute(oracle, dir, policy, chain, lock, trail).done
    ensures oracle(trail + Effects(dir, policy, lock, chain[..i]), chain[i].name, dir) == Applied
    decreases i
  {
    assert chain[..0] == [];
    assert trail + Effects(dir, policy, lock, chain[..0]) == trail;
    if i > 0 {
      var rec := Persisted(policy, lock, chain[0].version);
      var t := trail + [Apply(chain[0].name, dir, Applied)] + [Write(rec)];
      ExecuteStep(oracle, dir, policy, chain, lock, trail);
      ExecuteConsultsCompleted(oracle, dir, policy, chain[1..], rec, t, i - 1);
      EffectsShift(dir, policy, lock, chain, trail, i - 1);
      assert chain[i] == chain[1..][i - 1];
    }
  }

  /** The step that failed was answered with its failure by the oracle, given the effects
      of the steps before it. */
  lemma {:induction false} ExecuteConsultsFailed(oracle: Oracle, dir: Direction, policy: LockPolicy, chain: seq<Step>, lock: Record, trail: seq<Event>)
    ensures var r := Execute(oracle, dir, policy, chain, lock, trail);
      r.failure.Some? ==>
        oracle(trail + Effects(dir, policy, lock, chain[..r.done]), chain[r.done].name, dir) == Failed(r.failure.value)
    decreases |chain|
  {
    if chain != [] {
      assert chain[..0] == [];
      assert trail + Effects(dir, policy, lock, chain[..0]) == trail;
      if oracle(trail, chain[0].name, dir) == Applied {
        var rec := Persisted(policy, lock, chain[0].version);
        var t := trail + [Apply(chain[0].name, dir, Applied)] + [Write(rec)];
        var rest := Execute(oracle, dir, policy, chain[1..], rec, t);
        ExecuteStep(oracle, dir, policy, chain, lock, trail);
        ExecuteConsultsFailed(oracle, dir, policy, chain[1..], rec, t);
        if rest.failure.Some? {
          EffectsShift(dir, policy, lock, chain, trail, rest.done);
          assert chain[rest.done + 1] == chain[1..][rest.done];
        }
      }
    }
  }

  /** Every patch a run applies, it applies in the run's direction. */
  lemma ExecuteDirection(oracle: Oracle, dir: Direction, policy: LockPolicy, chain: seq<Step>, lock: Record, trail: seq<Event>)
    ensures var r := Execute(oracle, dir, policy, chain, lock, trail);
      forall k :: |trail| <= k < |r.trail| && r.trail[k].Apply? ==> r.trail[k].dir == dir
  {
    var r := Execute(oracle, dir, policy, chain, lock, trail);
    ExecuteTrace(oracle, dir, policy, chain, lock, trail);
    var e := Effects(dir, policy, lock, chain[..r.done]);
    EffectsDirection(dir, policy, lock, chain[..r.done]);
    forall k | |trail| <= k < |r.trail| && r.trail[k].Apply?
      ensures r.trail[k].dir == dir
    {
      if k < |trail| + |e| {
        assert r.trail[k] == e[k - |trail|];
      }
    }
  }

  /** A project directory under the tool: its lock file and what has been done to it. */
  class Project {
    /** The contents of `skeletone.lock`, or None when the file does not exist. */
    var lock: Option<Record>
    /** The effects so far, oldest first. */
    var trail: seq<Event>
    /** Download-and-apply, as seen from this project. */
    const oracle: Oracle

    constructor (lock: Option<Record>, oracle: Oracle)
      ensures this.lock == lock && this.trail == [] && this.oracle == oracle
    {
      this.lock := lock;
      this.trail := [];
      this.oracle := oracle;
    }

    /** `download_and_apply_patch` (upgrade.py:41-53) or `download_and_apply_reverse_patch`
        (downgrade.py:81-100), with its exception turned into the outcome. */
    method ApplyPatch(name: string, dir: Direction) returns (result: ApplyOutcome)
      modifies this
      ensures result == oracle(old(trail), name, dir)
      ensures trail == old(trail) + [Apply(name, dir, result)]
      ensures lock == old(lock)
    {
      result := oracle(trail, name, dir);
      trail := trail + [Apply(name, dir, result)];
    }

    /** `json.dump(lock, f, indent=2)` over `skeletone.lock`. */
    method WriteLock(rec: Record)
      modifies this
      ensures lock == Some(rec)
      ensures trail == old(trail) + [Write(rec)]
    {
      lock := Some(rec);
      trail := trail + [Write(rec)];
    }

    /** One pass of the executors' loop body (upgrade.py:69-73, downgrade.py:130-138):
        apply the step's patch; when it applies, persist its version on top of `rec` and
        write the lock. */
    method ApplyStep(step: Step, dir: Direction, policy: LockPolicy, rec: Record)
      returns (result: ApplyOutcome, next: Record)
      modifies this
      ensures result == oracle(old(trail), step.name, dir)
      ensures result.Failed? ==> trail == old(trail) + [Apply(step.name, dir, result)] && lock == old(lock)
      ensures result.Applied? ==>
        next == Persisted(policy, rec, step.version) && lock == Some(next)
        && trail == old(trail) + [Apply(step.name, dir, Applied)] + [Write(next)]
    {
      next := rec;
      result := ApplyPatch(step.name, dir);
      if result.Applied? {
        next := Persisted(policy, rec, step.version);
        WriteLock(next);
      }
    }

    /**
     * The executors' loop (upgrade.py:68-74, downgrade.py:129-140): apply each step in
     * direction `dir`, then persist its version under `policy`, stopping at the first
     * step whose apply fails. `start` is the record the loop starts from.
     */
    method ApplyChain(chain: seq<Step>, dir: Direction, policy: LockPolicy, start: Record)
      returns (done: nat, failure: Option<Failure>)
      modifies this
      ensures var r := Execute(oracle, dir, policy, chain, start, old(trail));
        trail == r.trail && done == r.done && failure == r.failure
        && lock == (if r.done == 0 then old(lock) else Some(r.lock))
    {
      ExecuteFromStart(oracle, dir, policy, chain, start, trail);
      ghost var full := ExecuteFrom(oracle, dir, policy, chain, 0, start, trail);
      ghost var lock0 := lock;
      var rec := start;
      var i := 0;
      while i < |chain|
        invariant 0 <= i <= |chain|
        invariant full == ExecuteFrom(oracle, dir, policy, chain, i, rec, trail)
        invariant lock == if i == 0 then lock0 else Some(rec)
      {
        var result, next := ApplyStep(chain[i], dir, policy, rec);
        if result.Failed? {
          return i, Some(result.reason);
        }
        rec := next;
        i := i + 1;
      }
      return i, None;
    }
  }
}
