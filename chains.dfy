/**
 * Patch chains: the walk both planners make over the catalog (upgrade.py:25-39 forward,
 * downgrade.py:57-78 backward).
 *
 * `Walk` is the specification of both planners, stated for any step function `next`;
 * the planners use `NextOf(MatcherOf(d), names)`, the first-edge scan over the catalog.
 * It carries a fuel bound because the source loops have none; the lemmas at the end show
 * that fuel `|names|` is enough: a walk that has not ended after `|names|` steps never
 * ends.
 */
module Chains {
  import opened Wrappers
  import Catalog

  /** One chain entry of the source, `(fname, next_ver)` or `(fname, prev_ver)`: the patch
      file and the version the project is at once that patch has been applied. */
  datatype Step = Step(name: string, version: string)

  /** An edge matcher: given the current version and a file name, the version at the other
      end of the edge that name encodes, if it encodes one touching the current version. */
  type Matcher = (string, string) -> Option<string>

  /** The matcher the planner for direction `d` uses. */
  function MatcherOf(d: Catalog.Direction): Matcher {
    (cur, name) => Catalog.Edge(d, cur, name)
  }

  /** A name never yields two different versions. */
  ghost predicate Injective(m: Matcher) {
    forall a, b, name :: m(a, name).Some? && m(b, name).Some? ==> m(a, name).value == m(b, name).value
  }

  lemma MatcherInjective(d: Catalog.Direction)
    ensures Injective(MatcherOf(d))
  {
    forall a, b, name | MatcherOf(d)(a, name).Some? && MatcherOf(d)(b, name).Some?
      ensures MatcherOf(d)(a, name).value == MatcherOf(d)(b, name).value
    {
      Catalog.EdgeInjective(d, a, b, name);
    }
  }

  /** Index of the first name at or after `i`, in list order, that matches from `cur`,
      or `|names|` when there is none. */
  function FirstEdgeFrom(m: Matcher, cur: string, names: seq<string>, i: nat): (k: nat)
    requires i <= |names|
    ensures i <= k <= |names|
    ensures forall j :: i <= j < k ==> m(cur, names[j]).None?
    ensures k < |names| ==> m(cur, names[k]).Some?
    decreases |names| - i
  {
    if i == |names| then i
    else if m(cur, names[i]).Some? then i
    else FirstEdgeFrom(m, cur, names, i + 1)
  }

  /** The step the scan `for fname in patch_names: ... break` takes from `cur`
      (upgrade.py:29-36, downgrade.py:66-73): the earliest matching name, or None. */
  function FirstEdge(m: Matcher, cur: string, names: seq<string>): Option<Step> {
    var k := FirstEdgeFrom(m, cur, names, 0);
    if k < |names| then Some(Step(names[k], m(cur, names[k]).value)) else None
  }

  /** What `FirstEdge` means: None exactly when no name matches; otherwise the step's name
      is at the first matching index and the step's version is what that name yields. */
  lemma FirstEdgeMeaning(m: Matcher, cur: string, names: seq<string>)
    ensures FirstEdge(m, cur, names).None? <==> forall k :: 0 <= k < |names| ==> m(cur, names[k]).None?
    ensures FirstEdge(m, cur, names).Some? ==>
      exists k :: 0 <= k < |names| && names[k] == FirstEdge(m, cur, names).value.name
        && m(cur, names[k]) == Some(FirstEdge(m, cur, names).value.version)
        && forall j :: 0 <= j < k ==> m(cur, names[j]).None?
  {
  }

  /** A step found from `cur` names a catalog entry and carries the version that entry
      yields from `cur`. */
  lemma FirstEdgeStep(m: Matcher, cur: string, names: seq<string>)
    requires FirstEdge(m, cur, names).Some?
    ensures FirstEdge(m, cur, names).value.name in names
    ensures m(cur, FirstEdge(m, cur, names).value.name) == Some(FirstEdge(m, cur, names).value.version)
  {
  }

  /** First match wins: the chosen name occurs no later in the list than any name that
      matches. */
  lemma FirstEdgeEarliest(m: Matcher, cur: string, names: seq<string>, j: nat)
    requires j < |names| && m(cur, names[j]).Some?
    ensures FirstEdge(m, cur, names).Some?
    ensures FirstEdge(m, cur, names).value.name in names[..j + 1]
  {
    var k := FirstEdgeFrom(m, cur, names, 0);
    assert k <= j;
    assert names[..j + 1][k] == names[k];
  }

  /** The inner scan of both planners, with its `found` flag folded into the result. */
  method FindFirstEdge(m: Matcher, cur: string, names: seq<string>) returns (r: Option<Step>)
    ensures r == FirstEdge(m, cur, names)
  {
    for i := 0 to |names|
      invariant forall j :: 0 <= j < i ==> m(cur, names[j]).None?
    {
      var x := m(cur, names[i]);
      if x.Some? {
        assert FirstEdgeFrom(m, cur, names, 0) == i;
        r := Some(Step(names[i], x.value));
        return;
      }
    }
    assert FirstEdgeFrom(m, cur, names, 0) == |names|;
    r := None;
  }

  /** How a walk ended: at its stop condition, at a version with no edge before the
      target (the downgrade planner's exception), or out of fuel. */
  datatype End = Stopped | Stuck | Exhausted

  datatype Outcome = Outcome(steps: seq<Step>, end: End)

  /** A step function: the step a planner takes from a version, if any. */
  type Next = string -> Option<Step>

  /** The planners' step function: the first-edge scan over the catalog. */
  function NextOf(m: Matcher, names: seq<string>): Next {
    v => FirstEdge(m, v, names)
  }

  /**
   * The planners' loop as a function. Without a target (upgrade) the walk stops at the
   * first version with no step; with a target (downgrade) it stops on reaching the target
   * and is stuck at a version with no step before that. `fuel` bounds the number of steps.
   */
  function Walk(next: Next, cur: string, target: Option<string>, fuel: nat): (o: Outcome)
    ensures |o.steps| <= fuel
    ensures o.end == Exhausted ==> |o.steps| == fuel
    decreases fuel
  {
    if target == Some(cur) then Outcome([], Stopped)
    else match next(cur)
      case None => Outcome([], if target.None? then Stopped else Stuck)
      case Some(s) =>
        if fuel == 0 then Outcome([], Exhausted)
        else
          var rest := Walk(next, s.version, target, fuel - 1);
          Outcome([s] + rest.steps, rest.end)
  }

  /** A walk that has not run out and takes step `s` from `cur` is `s` followed by the walk
      from `s`'s version with one less fuel. */
  lemma WalkTakes(next: Next, cur: string, target: Option<string>, fuel: nat, s: Step)
    requires target != Some(cur) && next(cur) == Some(s)
    requires Walk(next, cur, target, fuel).end != Exhausted
    ensures fuel > 0
    ensures Walk(next, cur, target, fuel)
      == Outcome([s] + Walk(next, s.version, target, fuel - 1).steps, Walk(next, s.version, target, fuel - 1).end)
  {
  }

  /** The version the project is at after the first `i` steps of a chain started at `start`. */
  function After(start: string, steps: seq<Step>, i: nat): string
    requires i <= |steps|
  {
    if i == 0 then start else steps[i - 1].version
  }

  /** Every step is the step taken from the version before it. */
  predicate Follows(next: Next, start: string, steps: seq<Step>) {
    forall i :: 0 <= i < |steps| ==> next(After(start, steps, i)) == Some(steps[i])
  }

  /** No version before the last one reached is the target. */
  predicate AvoidsTarget(start: string, target: Option<string>, steps: seq<Step>) {
    forall i :: 0 <= i < |steps| ==> target != Some(After(start, steps, i))
  }

  /** The way the walk ended is justified by the last version reached. */
  predicate EndJustified(next: Next, last: string, target: Option<string>, end: End) {
    match end
    case Stopped => target == Some(last) || (target.None? && next(last).None?)
    case Stuck => target.Some? && target != Some(last) && next(last).None?
    case Exhausted => target != Some(last) && next(last).Some?
  }

  /**
   * A declarative description of a planner result, independent of `Walk`: the steps
   * follow `next`, no version before the last is the target, and the end is justified
   * by the last version reached.
   */
  predicate IsPlan(next: Next, start: string, target: Option<string>, o: Outcome) {
    Follows(next, start, o.steps)
    && AvoidsTarget(start, target, o.steps)
    && EndJustified(next, After(start, o.steps, |o.steps|), target, o.end)
  }

  lemma {:induction false} WalkFollows(next: Next, cur: string, target: Option<string>, fuel: nat)
    ensures Follows(next, cur, Walk(next, cur, target, fuel).steps)
    decreases fuel
  {
    var o := Walk(next, cur, target, fuel);
    if target != Some(cur) && next(cur).Some? && fuel > 0 {
      var s := next(cur).value;
      var rest := Walk(next, s.version, target, fuel - 1);
      WalkFollows(next, s.version, target, fuel - 1);
      assert o.steps == [s] + rest.steps;
      forall i | 0 <= i < |o.steps|
        ensures next(After(cur, o.steps, i)) == Some(o.steps[i])
      {
        if i > 0 {
          assert After(cur, o.steps, i) == After(s.version, rest.steps, i - 1);
          assert o.steps[i] == rest.steps[i - 1];
        }
      }
    }
  }

  lemma {:induction false} WalkAvoidsTarget(next: Next, cur: string, target: Option<string>, fuel: nat)
    ensures AvoidsTarget(cur, target, Walk(next, cur, target, fuel).steps)
    decreases fuel
  {
    var o := Walk(next, cur, target, fuel);
    if target != Some(cur) && next(cur).Some? && fuel > 0 {
      var s := next(cur).value;
      var rest := Walk(next, s.version, target, fuel - 1);
      WalkAvoidsTarget(next, s.version, target, fuel - 1);
      assert o.steps == [s] + rest.steps;
      forall i | 0 <= i < |o.steps|
        ensures target != Some(After(cur, o.steps, i))
      {
        if i > 0 {
          assert After(cur, o.steps, i) == After(s.version, rest.steps, i - 1);
        }
      }
    }
  }

  lemma {:induction false} WalkEndJustified(next: Next, cur: string, target: Option<string>, fuel: nat)
    ensures EndJustified(next, After(cur, Walk(next, cur, target, fuel).steps, |Walk(next, cur, target, fuel).steps|),
                         target, Walk(next, cur, target, fuel).end)
    decreases fuel
  {
    var o := Walk(next, cur, target, fuel);
    if target != Some(cur) && next(cur).Some? && fuel > 0 {
      var s := next(cur).value;
      var rest := Walk(next, s.version, target, fuel - 1);
      WalkEndJustified(next, s.version, target, fuel - 1);
      assert o.steps == [s] + rest.steps;
      assert After(cur, o.steps, |o.steps|) == After(s.version, rest.steps, |rest.steps|);
    }
  }

  /** The walk produces a plan. */
  lemma WalkIsPlan(next: Next, cur: string, target: Option<string>, fuel: nat)
    ensures IsPlan(next, cur, target, Walk(next, cur, target, fuel))
  {
    WalkFollows(next, cur, target, fuel);
    WalkAvoidsTarget(next, cur, target, fuel);
    WalkEndJustified(next, cur, target, fuel);
  }

  /** A plan that does not run out is the walk: a planner result is determined by
      `IsPlan` alone. */
  lemma {:induction false} PlanIsWalk(next: Next, start: string, target: Option<string>, o: Outcome)
    requires IsPlan(next, start, target, o) && o.end != Exhausted
    ensures Walk(next, start, target, |o.steps|) == o
    decreases |o.steps|
  {
    if o.steps != [] {
      var s := o.steps[0];
      var tail := Outcome(o.steps[1..], o.end);
      assert After(start, o.steps, 0) == start;
      assert next(start) == Some(s);
      forall i | 0 <= i < |tail.steps|
        ensures next(After(s.version, tail.steps, i)) == Some(tail.steps[i])
        ensures target != Some(After(s.version, tail.steps, i))
      {
        assert After(s.version, tail.steps, i) == After(start, o.steps, i + 1);
        assert tail.steps[i] == o.steps[i + 1];
      }
      assert After(s.version, tail.steps, |tail.steps|) == After(start, o.steps, |o.steps|);
      PlanIsWalk(next, s.version, target, tail);
      assert o.steps == [s] + tail.steps;
    }
  }

  /** After `k` steps, the rest of a walk is the walk from the version reached, with the
      fuel that is left. */
  lemma {:induction false} WalkSuffix(next: Next, cur: string, target: Option<string>, fuel: nat, k: nat)
    requires k <= |Walk(next, cur, target, fuel).steps|
    ensures k <= fuel
    ensures Walk(next, After(cur, Walk(next, cur, target, fuel).steps, k), target, fuel - k)
      == Outcome(Walk(next, cur, target, fuel).steps[k..], Walk(next, cur, target, fuel).end)
    decreases k
  {
    var o := Walk(next, cur, target, fuel);
    if k > 0 {
      var s := next(cur).value;
      var rest := Walk(next, s.version, target, fuel - 1);
      assert o.steps == [s] + rest.steps;
      WalkSuffix(next, s.version, target, fuel - 1, k - 1);
      assert After(cur, o.steps, k) == After(s.version, rest.steps, k - 1);
      assert o.steps[k..] == rest.steps[k - 1..];
    }
  }

  /** A walk that ended gives the same outcome with any fuel at least its length. */
  lemma {:induction false} WalkFuel(next: Next, cur: string, target: Option<string>, fuel: nat, more: nat)
    requires Walk(next, cur, target, fuel).end != Exhausted
    requires more >= |Walk(next, cur, target, fuel).steps|
    ensures Walk(next, cur, target, more) == Walk(next, cur, target, fuel)
    decreases fuel
  {
    var o := Walk(next, cur, target, fuel);
    if o.steps != [] {
      var s := next(cur).value;
      WalkFuel(next, s.version, target, fuel - 1, more - 1);
    }
  }

  /**
   * The planners' loop (upgrade.py:26-39, downgrade.py:61-78): from `start`, while the
   * target (if any) is not reached, scan for the first edge and step along it; with no
   * edge, stop (no target) or give up (a target). The source loop has no bound; `Halts`
   * is the input on which it ends.
   */
  method PlanChain(m: Matcher, start: string, target: Option<string>, names: seq<string>) returns (o: Outcome)
    requires Halts(NextOf(m, names), start, target, names)
    ensures o == Plan(NextOf(m, names), start, target, names)
  {
    ghost var next := NextOf(m, names);
    ghost var plan := Plan(next, start, target, names);
    ghost var fuel: nat := |names|;
    var chain := [];
    var cur := start;
    while target != Some(cur)
      invariant Walk(next, cur, target, fuel).end != Exhausted
      invariant chain + Walk(next, cur, target, fuel).steps == plan.steps
      invariant Walk(next, cur, target, fuel).end == plan.end
      decreases fuel
    {
      var found := FindFirstEdge(m, cur, names);
      if found.None? {
        WalkStops(next, cur, target, fuel);
        assert chain + [] == chain;
        return Outcome(chain, if target.None? then Stopped else Stuck);
      }
      var step := found.value;
      PlanStep(next, cur, target, fuel, chain, plan.steps, step);
      chain := chain + [step];
      cur := step.version;
      fuel := fuel - 1;
    }
    assert chain + [] == chain;
    return Outcome(chain, Stopped);
  }

  /** One iteration of `PlanChain`: taking step `s` keeps the walk from the new version a
      continuation of the steps so far. */
  lemma PlanStep(next: Next, cur: string, target: Option<string>, fuel: nat, chain: seq<Step>, steps: seq<Step>, s: Step)
    requires target != Some(cur) && next(cur) == Some(s)
    requires Walk(next, cur, target, fuel).end != Exhausted
    requires chain + Walk(next, cur, target, fuel).steps == steps
    ensures fuel > 0
    ensures Walk(next, s.version, target, fuel - 1).end == Walk(next, cur, target, fuel).end
    ensures (chain + [s]) + Walk(next, s.version, target, fuel - 1).steps == steps
  {
    WalkTakes(next, cur, target, fuel, s);
    var rest := Walk(next, s.version, target, fuel - 1);
    assert (chain + [s]) + rest.steps == chain + ([s] + rest.steps);
  }

  /** A walk from a version other than the target with no step from it ends at once. */
  lemma WalkStops(next: Next, cur: string, target: Option<string>, fuel: nat)
    requires target != Some(cur) && next(cur).None?
    ensures Walk(next, cur, target, fuel) == Outcome([], if target.None? then Stopped else Stuck)
  {
  }

  /** Two steps with the same name are the same step. */
  ghost predicate NameDeterminesStep(next: Next) {
    forall a, b :: next(a).Some? && next(b).Some? && next(a).value.name == next(b).value.name
      ==> next(a).value == next(b).value
  }

  /** Every step names a catalog entry. */
  ghost predicate StepsIn(next: Next, names: seq<string>) {
    forall a :: next(a).Some? ==> next(a).value.name in names
  }

  /** The first-edge scan over an injective matcher has both properties. */
  lemma NextOfProperties(m: Matcher, names: seq<string>)
    requires Injective(m)
    ensures NameDeterminesStep(NextOf(m, names))
    ensures StepsIn(NextOf(m, names), names)
  {
    var next := NextOf(m, names);
    forall a, b | next(a).Some? && next(b).Some? && next(a).value.name == next(b).value.name
      ensures next(a).value == next(b).value
    {
      FirstEdgeStep(m, a, names);
      FirstEdgeStep(m, b, names);
      var n := next(a).value.name;
      assert m(a, n).value == m(b, n).value;
    }
    forall a | next(a).Some?
      ensures next(a).value.name in names
    {
      FirstEdgeStep(m, a, names);
    }
  }

  /** A walk that ends never comes back to a version it has reached, the start included:
      otherwise the walk would run round the same cycle for ever. */
  lemma NoRevisit(next: Next, cur: string, target: Option<string>, fuel: nat, i: nat, j: nat)
    requires Walk(next, cur, target, fuel).end != Exhausted
    requires i < j <= |Walk(next, cur, target, fuel).steps|
    ensures After(cur, Walk(next, cur, target, fuel).steps, i) != After(cur, Walk(next, cur, target, fuel).steps, j)
  {
    var o := Walk(next, cur, target, fuel);
    var u := After(cur, o.steps, i);
    if u == After(cur, o.steps, j) {
      WalkSuffix(next, cur, target, fuel, i);
      WalkSuffix(next, cur, target, fuel, j);
      var early := Walk(next, u, target, fuel - i);
      var late := Walk(next, u, target, fuel - j);
      assert |early.steps| == |o.steps| - i > |o.steps| - j == |late.steps|;
      WalkFuel(next, u, target, fuel - j, fuel - i);
    }
  }

  lemma SameNameSameStep(next: Next, a: string, b: string, s: Step, t: Step)
    requires NameDeterminesStep(next)
    requires next(a) == Some(s) && next(b) == Some(t)
    ensures s.name == t.name ==> s.version == t.version
  {
  }

  /** No two steps share a patch name. */
  predicate NamesDistinct(steps: seq<Step>) {
    forall i, j :: 0 <= i < j < |steps| ==> steps[i].name != steps[j].name
  }

  /** No version is reached twice, and the start is not reached again. */
  predicate NoRevisits(start: string, steps: seq<Step>) {
    forall i, j :: 0 <= i < j <= |steps| ==> After(start, steps, i) != After(start, steps, j)
  }

  /** Steps that follow `next` and never revisit a version have distinct names. */
  lemma DistinctNames(next: Next, start: string, steps: seq<Step>)
    requires NameDeterminesStep(next)
    requires Follows(next, start, steps) && NoRevisits(start, steps)
    ensures NamesDistinct(steps)
  {
    forall i, j | 0 <= i < j < |steps|
      ensures steps[i].name != steps[j].name
    {
      SameNameSameStep(next, After(start, steps, i), After(start, steps, j), steps[i], steps[j]);
      assert After(start, steps, i + 1) != After(start, steps, j + 1);
    }
  }

  /** A walk that ends never uses a catalog name twice. */
  lemma WalkNamesDistinct(next: Next, cur: string, target: Option<string>, fuel: nat)
    requires NameDeterminesStep(next)
    requires Walk(next, cur, target, fuel).end != Exhausted
    ensures NamesDistinct(Walk(next, cur, target, fuel).steps)
  {
    var o := Walk(next, cur, target, fuel);
    WalkFollows(next, cur, target, fuel);
    forall i, j | 0 <= i < j <= |o.steps|
      ensures After(cur, o.steps, i) != After(cur, o.steps, j)
    {
      NoRevisit(next, cur, target, fuel, i, j);
    }
    DistinctNames(next, cur, o.steps);
  }

  /** The elements of a sequence, as a set. */
  function Elements(s: seq<string>): set<string> {
    set x | x in s
  }

  lemma {:induction false} ElementsBound(s: seq<string>)
    ensures |Elements(s)| <= |s|
  {
    if s != [] {
      ElementsBound(s[1..]);
      assert Elements(s) == {s[0]} + Elements(s[1..]);
    }
  }

  /** The names of distinct-named steps: as many as there are steps. */
  lemma {:induction false} UsedCount(steps: seq<Step>)
    requires NamesDistinct(steps)
    ensures |set i | 0 <= i < |steps| :: steps[i].name| == |steps|
    decreases |steps|
  {
    if steps != [] {
      var n := |steps| - 1;
      UsedCount(steps[..n]);
      var front := set i | 0 <= i < n :: steps[..n][i].name;
      assert (set i | 0 <= i < |steps| :: steps[i].name) == front + {steps[n].name};
      assert steps[n].name !in front;
    }
  }

  lemma SubsetCard(a: set<string>, b: set<string>)
    requires a <= b
    ensures |a| <= |b|
  {
    assert b == a + (b - a);
  }

  /** Pigeonhole: steps with distinct names, all taken from the catalog, are no more than
      the catalog's entries. */
  lemma DistinctNamesBound(steps: seq<Step>, names: seq<string>)
    requires forall i :: 0 <= i < |steps| ==> steps[i].name in names
    requires NamesDistinct(steps)
    ensures |steps| <= |names|
  {
    var used := set i | 0 <= i < |steps| :: steps[i].name;
    UsedCount(steps);
    assert used <= Elements(names);
    ElementsBound(names);
    SubsetCard(used, Elements(names));
  }

  /** The source's loop ends on this input (see `NonHaltingWalkDiverges`): its walk has
      ended within `|names|` steps. */
  ghost predicate Halts(next: Next, cur: string, target: Option<string>, names: seq<string>) {
    Walk(next, cur, target, |names|).end != Exhausted
  }

  /** The planner's result: the walk with the fuel that `HaltsWithinCatalog` shows enough. */
  ghost function Plan(next: Next, cur: string, target: Option<string>, names: seq<string>): Outcome {
    Walk(next, cur, target, |names|)
  }

  /** Fuel `|names|` is enough: a walk that ends with some fuel ends the same way within
      `|names|` steps. */
  lemma HaltsWithinCatalog(next: Next, cur: string, target: Option<string>, names: seq<string>, fuel: nat)
    requires NameDeterminesStep(next) && StepsIn(next, names)
    requires Walk(next, cur, target, fuel).end != Exhausted
    ensures Halts(next, cur, target, names)
    ensures Plan(next, cur, target, names) == Walk(next, cur, target, fuel)
  {
    var o := Walk(next, cur, target, fuel);
    WalkFollows(next, cur, target, fuel);
    WalkNamesDistinct(next, cur, target, fuel);
    forall i | 0 <= i < |o.steps|
      ensures o.steps[i].name in names
    {
      assert next(After(cur, o.steps, i)) == Some(o.steps[i]);
    }
    DistinctNamesBound(o.steps, names);
    WalkFuel(next, cur, target, fuel, |names|);
  }

  /** When `Halts` fails the walk runs out of every fuel: the source's loop never ends on
      that input. */
  lemma NonHaltingWalkDiverges(next: Next, cur: string, target: Option<string>, names: seq<string>, fuel: nat)
    requires NameDeterminesStep(next) && StepsIn(next, names)
    requires !Halts(next, cur, target, names)
    ensures Walk(next, cur, target, fuel).end == Exhausted
  {
    if Walk(next, cur, target, fuel).end != Exhausted {
      HaltsWithinCatalog(next, cur, target, names, fuel);
    }
  }
}
