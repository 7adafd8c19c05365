# skeletone: patch chains, the apply-then-persist loop and the text patches

This project models the core of `skeletone`, a command-line tool that keeps a generated
FastAPI project in step with its template repository. A project records its template
version in `skeletone.lock` (a JSON object with `template_repo` and `template_version`).
The template publishes patches named `<from>_to_<to>.patch`.

- **Upgrade** plans a forward chain of patches from the locked version. It applies each patch with
  `git apply` and writes the new version to the lock after each success.
- **Downgrade** plans a backward chain down to a chosen version. It reverse-applies each patch and overwrites
  the lock after each step.
- **Init** rewrites two text files of a new project: `.env.example` and `alembic/env.py`.

The modules follow the source:

- `Catalog`: a patch name as an edge between two versions. It models the two regular
  expressions exactly, including the one final newline that Python's `$` lets through,
  except that `\d` is ASCII only (see "Left out").
- `Chains`: the planning loop shared by both planners. It is modelled as:
  - a method (`PlanChain`, `FindFirstEdge`);
  - a fuel-bounded specification function (`Walk`);
  - an independent characterisation (`IsPlan`).
  Lemmas prove that a planning loop that ends never reaches a version twice, the start
  version included, so it ends within `|names|` steps; on an input where it does not end
  so, it never ends.
- `Ledger`: the lock record and the apply-then-persist loop.
  - The `Project` class holds the lock and the trail of effects.
  - `Execute` is the specification function of the loop.
  - Downloading and applying a patch is an oracle: a function of the effects so far, the patch name and the
    direction.
- `Upgrade` and `Downgrade`: `build_patch_chain`, `upgrade_skeletone`,
  `build_downgrade_patch_chain` and `downgrade_to_version`.
- `Lines`: a file as `readlines()` sees it and as `writelines()` writes it. A file is
  its text; `ReadLines` and `Join` are the read and the write.
- `Patches`: the four rewrites of patches.py and their composition `patch_alembic_env`.
- `Strings`: Python's `str.strip` with its exact whitespace set, plus prefix tests and the
  `v[\d\.]+` version shape.

`patch_alembic_env` does not rewrite one list of lines. Each of its three stages reads the
file the previous stage wrote. The settings block's last line has no newline, so when the
metadata stage reads the file back, that line and the one after it are a single line.
`SettingsReread` states this, and `PatchAlembicEnv` is specified through it.

## Model

| member | source | states |
|---|---|---|
| Strings.IsSpace | skeletone/patches.py:14 | the characters `str.strip()` removes: Python's `str.isspace` set, written out |
| Strings.Strip | skeletone/patches.py:14 | `str.strip()` as `lstrip` then `rstrip`; what it keeps and drops is stated by `TrimLeftDrops`, `TrimRightDrops` and `StripTrims` |
| Strings.StartsWith | skeletone/patches.py:14 | `str.startswith(p)`: `p` is no longer than the string and is its prefix; `StripKeepsPrefix` and `IsFromLine` use it |
| Strings.EndsWith | skeletone/upgrade.py:22 | `str.endswith(p)`: `p` is no longer than the string and is its suffix; `Catalog.EdgeOfPatchName` uses it for the `.patch` filter |
| Strings.StripTrims | skeletone/patches.py:33 | `strip` keeps one slice of the line that neither begins nor ends with whitespace, and everything it drops on either side is whitespace |
| Catalog.DropFinalNewline | skeletone/upgrade.py:30 | where Python's `$` lets the match end: before one final newline, or at the end; `Edge` and `EdgeRoundTrip` state the matches it admits |
| Catalog.EdgeExact | skeletone/upgrade.py:30 | a match without a trailing newline yields a version `v[\d\.]+` and the name is exactly `<cur>_to_<version>.patch` (forward) or `<version>_to_<cur>.patch` (reverse) |
| Catalog.Edge | skeletone/upgrade.py:30 | a match of the anchored pattern yields a version `v[\d\.]+`, and the name is that edge's name, possibly followed by one newline |
| Catalog.EdgeRoundTrip | skeletone/downgrade.py:67 | every edge name for a version `x`, with or without one final newline, matches and captures `x` back |
| Catalog.EdgeOfPatchName | skeletone/upgrade.py:22 | a matching name that ends in `.patch`, as every listed name does, is exactly the edge name of the version it captures |
| Catalog.EdgeInjective | skeletone/upgrade.py:30 | one name captures the same version whatever the current version it is matched against, because a version has no `_` and the `_to_` split cannot move |
| Strings.VersionHasNoUnderscore | skeletone/upgrade.py:30 | a string of the `v[\d\.]+` shape has no `_` at any position |
| Strings.StripKeepsPrefix | skeletone/patches.py:14 | stripping a text that starts with a word whose first and last characters are not whitespace keeps that word as its prefix |
| Strings.TrimLeftDrops | skeletone/patches.py:71 | the left trim is a suffix of the input and only whitespace was removed before it, and its first character is not whitespace |
| Strings.TrimRightDrops | skeletone/patches.py:71 | the right trim is a prefix of the input and only whitespace was removed after it, and its last character is not whitespace |
| Chains.FirstEdge | skeletone/upgrade.py:29-36 | the step the `for ... break` scan takes, or none; `FirstEdgeStep` (a found step's name is listed and yields the step's version) and `FirstEdgeMeaning` (none exactly when no name matches, else the first match) state what it is |
| Chains.FirstEdgeMeaning | skeletone/upgrade.py:29-36 | the first edge is found exactly when some listed name matches, and then it is the match of the earliest such name |
| Chains.FirstEdgeEarliest | skeletone/downgrade.py:66-73 | the name chosen occurs no later in the list than any other name that matches |
| Chains.FindFirstEdge | skeletone/upgrade.py:29-36 | the `for ... break` scan returns the first matching name and its captured version, or nothing when no name matches |
| Chains.Walk | skeletone/downgrade.py:64-76 | the planners' `while` loop with a fuel bound: it takes at most `fuel` steps, and runs out only after taking all of them; `WalkIsPlan` and `PlanIsWalk` tie it to `IsPlan` |
| Chains.WalkIsPlan | skeletone/upgrade.py:27-38 | the planning walk follows the step function from the start version, never steps from the target, and ends only where the loop ends (target reached, or no matching name) |
| Chains.PlanIsWalk | skeletone/downgrade.py:61-76 | any outcome that follows the step function, avoids the target and ends justified is the walk itself, so the plan is unique |
| Chains.WalkNamesDistinct | skeletone/downgrade.py:64-73 | no patch name is used twice in a plan, because a version is never revisited when a name determines its step |
| Chains.PlanChain | skeletone/downgrade.py:61-78 | the planning loop, on an input where it ends, returns exactly the plan |
| Chains.HaltsWithinCatalog | skeletone/upgrade.py:27-38 | a walk that ends with any amount of fuel ends within `\|names\|` steps, with the same outcome |
| Chains.NonHaltingWalkDiverges | skeletone/downgrade.py:64 | when the plan does not end within `\|names\|` steps, no amount of fuel ends it: the source loop runs forever on that input |
| Upgrade.BuildPatchChain | skeletone/upgrade.py:25-39 | the chain built is the steps of the forward plan from the current version |
| Upgrade.ForwardDiverges | skeletone/upgrade.py:27-38 | on an input outside `Halts` the forward walk runs out of every fuel: the source loop does not end there |
| Upgrade.ForwardPlanEntries | skeletone/upgrade.py:28-34 | each chain entry is a listed name of the form `<previous version>_to_<version>.patch` (or that name and a newline) with a `v[\d\.]+` version, and no name is used twice |
| Upgrade.ForwardPlanFirstMatch | skeletone/upgrade.py:29-36 | each entry is the earliest listed name that matches from the version before it |
| Upgrade.ForwardPlanFrontier | skeletone/upgrade.py:37-39 | no listed name matches from the version the chain reaches, so the planner stops there |
| Upgrade.UpgradeSkeletone | skeletone/upgrade.py:55-76 | a missing lock or a missing version key fails with nothing done; an empty chain changes nothing; otherwise the effects and the lock are those of the apply-then-persist run of the planned chain, and the result says whether it completed or at which step it halted |
| Upgrade.UpgradeCompletes | skeletone/upgrade.py:68-76 | after a complete upgrade, the lock holds the frontier version, no listed patch leads on from it, and every other key is as it was |
| Downgrade.BuildDowngradePatchChain | skeletone/downgrade.py:57-78 | the planner returns the backward plan's steps when it reaches the target, and fails (the raise) when it gets stuck first; it returns an empty chain when already on the target |
| Downgrade.BackwardDiverges | skeletone/downgrade.py:64-76 | on an input outside `Halts` the backward walk runs out of every fuel: the source loop does not end there |
| Downgrade.BackwardPlanEnds | skeletone/downgrade.py:64-76 | a found plan ends at the target, reaches it at no earlier step, and is empty exactly when the current version is the target; a failed plan ends at a version other than the target, which no listed name leads into |
| Downgrade.BackwardPlanEntries | skeletone/downgrade.py:64-73 | each entry is a listed name of the form `<version>_to_<previous version>.patch` (or that name and a newline) with a `v[\d\.]+` version, and no name is used twice |
| Downgrade.BackwardPlanFirstMatch | skeletone/downgrade.py:66-73 | each entry is the earliest listed name that leads into the version before it |
| Downgrade.DowngradeToVersion | skeletone/downgrade.py:103-146 | a missing lock or version key fails; already on the target, or a target not in the available versions, does nothing; a failed plan does nothing; otherwise the effects and lock are those of the reverse apply-then-persist run, and the lock is untouched if the first step fails |
| Downgrade.PlannedChainNotEmpty | skeletone/downgrade.py:123-125 | a found chain from a version other than the target is never empty, so the `if not chain` branch cannot be taken |
| Downgrade.DowngradeLock | skeletone/downgrade.py:132-138 | a complete downgrade leaves exactly `{template_repo: SKELETON_REPO, template_version: target}`; a run halted after `k > 0` steps leaves that record with step `k-1`'s version |
| Ledger.Persisted | skeletone/downgrade.py:132-135 | the record written after a step: upgrade's sets `template_version` in the lock it read, downgrade's is a fresh two-key record; its properties are `PersistedRecord` and `PersistedTwice` |
| Ledger.PersistedRecord | skeletone/upgrade.py:71 | the record written holds the version reached; upgrade's keeps every other key of the lock and adds no other, downgrade's has exactly `template_repo` (the template's URL) and `template_version` |
| Ledger.PersistedTwice | skeletone/upgrade.py:68-73 | persisting two versions in a row equals persisting the second: only the last write counts |
| Ledger.Execute | skeletone/upgrade.py:68-73 | a run completes at most the whole chain, and reports a failure exactly when it did not complete it |
| Ledger.ExecuteFrom | skeletone/upgrade.py:68-73 | the loop over the chain from step `i`, in the form the `ApplyChain` loop keeps as its invariant |
| Ledger.ExecuteFromSuffix | skeletone/upgrade.py:68-73 | running the loop from step `i` on is running the rest of the chain from that step, with `i` steps already counted as completed |
| Ledger.ExecuteLock | skeletone/upgrade.py:68-73 | after a run the lock is the record with the last completed step's version, or the starting record when no step completed |
| Ledger.ExecuteKeepsOtherKeys | skeletone/upgrade.py:71 | an upgrade run changes no key of the lock except `template_version` |
| Ledger.Effects | skeletone/downgrade.py:129-138 | the effects of completed steps: two per step, the apply and then the write of that step's record, in chain order; `EffectsAt` places step `i`'s at `2i` and `2i + 1` |
| Ledger.ExecuteTrace | skeletone/downgrade.py:129-138 | a run's effects are, in chain order, each completed step's patch applied and then its version written, followed by the failed apply when a step failed |
| Ledger.ExecuteConsultsCompleted | skeletone/upgrade.py:69-70 | the oracle answered "applied" to each completed step, given exactly the effects of the steps before it |
| Ledger.ExecuteConsultsFailed | skeletone/upgrade.py:69-70 | the step that halted the run is the one the oracle answered with that failure, given the effects of the steps before it |
| Ledger.ExecuteDirection | skeletone/downgrade.py:95 | every patch a run applies, it applies in the run's direction (`--reverse` for downgrade) |
| Ledger.Project.ApplyPatch | skeletone/upgrade.py:41-53 | one download-and-apply step: the trail grows by that apply with the oracle's outcome, and the lock is unchanged |
| Ledger.Project.ApplyStep | skeletone/upgrade.py:70-73 | one iteration of the loop: when the apply fails only that apply is recorded and the lock stays; when it succeeds the persisted record becomes the lock and the trail records the apply then the write |
| Ledger.Project.WriteLock | skeletone/upgrade.py:72-73 | the lock becomes the record written and the trail records the write |
| Ledger.Project.ApplyChain | skeletone/upgrade.py:68-74 | the loop over the chain leaves the trail and lock that `Execute` describes, with the count it completed and the failure that stopped it |
| Lines.ReadLines | skeletone/patches.py:8-9 | `f.readlines()`: the text cut after each newline; `ReadLinesWellFormed`, `JoinReadLines` and `ReadLinesJoin` state what it returns and that it inverts `Join` |
| Lines.Join | skeletone/patches.py:17-18 | `f.writelines(lines)`: the lines one after another; `JoinAppend` states that it distributes over concatenation |
| Lines.ReadLinesWellFormed | skeletone/patches.py:9 | `readlines` returns non-empty lines, every one but the last ending in a newline, with no newline inside any of them |
| Lines.JoinReadLines | skeletone/patches.py:17-18 | writing back the lines read leaves the file text as it was |
| Lines.ReadLinesJoin | skeletone/patches.py:61-62 | reading back a written well-formed list of lines gives the same list |
| Lines.SpliceReread | skeletone/patches.py:55 | reading back complete lines with a block spliced in whose last line has no newline: that last line and the line after it come back as one line |
| Patches.ListInsert | skeletone/patches.py:82 | `list.insert(i, x)`: the list grows by one, `x` is at `i` (or at the end when `i` is past it), the elements before stay and the ones after shift by one |
| Patches.InsertLines | skeletone/patches.py:58-59 | inserting a block line by line at `start + i` puts it in order and contiguously at `start`, or at the end of the list when `start` is past it |
| Patches.EnvKeyPass | skeletone/patches.py:13-15 | one key's pass keeps the number of lines, replaces exactly the lines that assign that key (after stripping) with `KEY=<name>\n`, and keeps every other line |
| Patches.PatchEnvExample | skeletone/patches.py:6-18 | the file written is the per-line rewrite of the lines read: the three key passes act as one pass |
| Patches.EnvExampleReplaces | skeletone/patches.py:11-15 | the line count is kept; a line assigning `POSTGRES_USERNAME`, `POSTGRES_PASSWORD` or `POSTGRES_DATABASE` becomes `KEY=<project name>\n`; every other line is unchanged |
| Patches.EnvExampleIdempotent | skeletone/patches.py:11-15 | rewriting the rewritten lines again changes nothing |
| Patches.PatchEnvExampleIdempotent | skeletone/patches.py:6-18 | running the patch on the file it wrote leaves that file unchanged, when the project name has no newline |
| Patches.FirstStripped | skeletone/patches.py:32-33 | the first index whose stripped line equals the text, or the length when there is none: no earlier line strips to it, and the one found does |
| Patches.PatchAlembicMetadata | skeletone/patches.py:28-38 | the file written is the lines read with the first `target_metadata = None` line replaced |
| Patches.MetadataReplacesFirst | skeletone/patches.py:32-35 | only the first line that strips to `target_metadata = None` becomes `target_metadata = Base.metadata\n`; a list with no such line is unchanged |
| Patches.MetadataNewDiffers | skeletone/patches.py:33-34 | the replacement line does not itself strip to `target_metadata = None` |
| Patches.MetadataIdempotentOnOneMatch | skeletone/patches.py:32-35 | with at most one matching line, a second pass changes nothing |
| Patches.SettingsAnchor | skeletone/patches.py:44-47 | the `next(..., 11)` anchor: the first `config = context.config` line, else 11; `SettingsPlacement` states where the block therefore lands |
| Patches.PatchAlembicSettings | skeletone/patches.py:40-62 | the file written is the lines read with the six-line block inserted after the anchor |
| Patches.SettingsPlacement | skeletone/patches.py:44-59 | the block goes directly after the first `config = context.config` line; without one it goes after line 11, or at the end of a shorter file; the list grows by six |
| Patches.SettingsTwice | skeletone/patches.py:58-59 | not idempotent: a second run adds twelve lines in all, and when the anchor line exists the second block sits right before the first |
| Patches.SettingsReread | skeletone/patches.py:49-56 | reading back the settings result of a file of complete lines merges the unterminated `config.set_main_option(...)` line with the line that follows it |
| Patches.LastFrom | skeletone/patches.py:69-73 | `last_import_index` after the scan: 0 for an empty list, else an index of the list; 0 or a `from` line, with no `from` line after it |
| Patches.ImportsAt | skeletone/patches.py:80 | the insertion point, `last + 1` or 0 when the last `from` index is 0, at most the list's length; `ImportsPlacement` states it without the scan |
| Patches.LastImportIndex | skeletone/patches.py:69-73 | the scan returns the index of the last line that starts with `from` after stripping, or 0 when there is none |
| Patches.PatchAlembicImports | skeletone/patches.py:65-85 | the file written is the lines read with the two imports inserted at the position the scan for the last `from` line gives |
| Patches.ImportsPlacement | skeletone/patches.py:69-82 | the two imports go right after the last `from` line when that line is not line 0; otherwise (also when the only `from` line is line 0) they go at the top; the list grows by two |
| Patches.ImportsTwice | skeletone/patches.py:80-82 | not idempotent: a second run adds the imports again right after the first copy, or after original line 0 when that was the lone `from` line |
| Patches.ImportsComplete | skeletone/patches.py:75-82 | the imports stage turns a file of complete lines into a file of complete lines |
| Patches.ImportsReread | skeletone/patches.py:84-85 | reading back the imports stage's output gives its list of lines again |
| Patches.PatchAlembicEnv | skeletone/patches.py:20-26 | the three stages run in order, each reading the previous stage's file; for a file ending in a newline, the result is the metadata rewrite of the imports result with the settings block merged into the next line |

## Left out

- Listing patches and versions (`get_all_patch_names`, `get_available_versions`, upgrade.py:13-23, downgrade.py:17-28 and 44-54): these are network calls to the GitHub contents API. Their results, already sorted and filtered, are the `patchNames` and `availableVersions` parameters. The sort order is not modelled.
- Downloading a patch and running `git` (upgrade.py:41-53, downgrade.py:81-100): this is I/O and a subprocess. It is the `Oracle` parameter of `Project`. The temporary file and its removal are not modelled.
- JSON parsing and printing of `skeletone.lock`: the lock is a map from strings to strings. Malformed JSON and non-string values are not modelled.
- Ledger.Project.WriteLock: writing the lock always succeeds in the model. In the source, a failing `open` or `json.dump` of `skeletone.lock` (upgrade.py:72-73, downgrade.py:137-138) raises. Upgrade propagates that exception, and downgrade catches it at downgrade.py:144 along with a failed patch. Neither outcome is modelled.
- Console output, the `Prompt.ask` in `downgrade_skeletone` and `list_available_versions` (downgrade.py:150-180): user interaction. The chosen version is the `targetVersion` parameter.
- init.py, versions.py, cli.py and help.py are not part of this model.
- `\d` in the version pattern matches Unicode decimal digits in Python. The model accepts only ASCII `0`-`9`.
- Files are read and written as text. Universal-newline translation of `\r\n` and `\r`, and character encodings, are not modelled. A file that fails to open is not modelled.
- Exceptions become result values: `LockMissing`, `VersionKeyMissing`, `Halted`, `ChainNotFound`, `Aborted`. The messages printed with them are not modelled.
- Upgrade.BuildPatchChain: requires `Halts`. On inputs where the source loop would never end, the model has no result; `Upgrade.ForwardDiverges` states that the loop does not end there.
- Upgrade.UpgradeSkeletone: requires `Halts` of the locked version, which it plans from, for the same reason.
- Downgrade.BuildDowngradePatchChain: requires `Halts`, for the same reason; `Downgrade.BackwardDiverges` states that the loop does not end elsewhere.
- Downgrade.DowngradeToVersion: requires `Halts` of the locked version and the target whenever it gets as far as planning, for the same reason.
- Downgrade.DowngradeToVersion: the `if not chain` branch (downgrade.py:123-125) has no code in the model. `Downgrade.PlannedChainNotEmpty` proves that branch is never taken.
- Patches.PatchAlembicEnv: the closed form without re-reading is proved only for files that end in a newline (or are empty); for other files only the stage-by-stage form is proved. In the source, an unterminated last line merges with an inserted line when an insertion lands at the end of the file.
- Patches.SettingsTwice: the exact content after two runs is stated only when a `config = context.config` line exists. Otherwise only the growth by twelve lines is stated.
- Patches.MetadataIdempotentOnOneMatch: idempotence is stated only for lists with at most one matching line. With two matching lines a second run replaces the second one, which the source does not promise either way.
