/**
 * The text rewrites of patches.py. Each one reads a file the way `f.readlines()` does,
 * edits the list of lines in place, and writes it back with `f.writelines`. A file is
 * modelled by its text; `ReadLines` and `Join` are the read and the write.
 */
module Patches {
  import opened Strings
  import opened Lines

  /** `list.insert(i, x)` for a non-negative index: at `i`, or at the end when `i` is past it. */
  function ListInsert(l: seq<string>, i: nat, x: string): (r: seq<string>)
    ensures |r| == |l| + 1
    ensures var p := if i <= |l| then i else |l|;
      r[..p] == l[..p] && r[p] == x && r[p + 1..] == l[p..]
  {
    if i <= |l| then l[..i] + [x] + l[i..] else l + [x]
  }

  /** Inserting the `i`-th line of a block at `idx + i`, where `idx` is `p` or (when `p` is
      the end) any index past the end, extends the inserted part of the block by one. */
  lemma InsertStep(orig: seq<string>, p: nat, block: seq<string>, i: nat, idx: nat)
    requires p <= |orig| && i < |block|
    requires idx == p || (p == |orig| && idx > p)
    ensures ListInsert(orig[..p] + block[..i] + orig[p..], idx + i, block[i]) == orig[..p] + block[..i + 1] + orig[p..]
  {
    var before := orig[..p] + block[..i] + orig[p..];
    assert block[..i + 1] == block[..i] + [block[i]];
    if idx == p {
      assert before[..p + i] == orig[..p] + block[..i];
      assert before[p + i..] == orig[p..];
    } else {
      assert orig[p..] == [];
    }
  }

  /** Where each element of a list with a block spliced in at `q` comes from. */
  lemma SpliceAt<T>(a: seq<T>, q: nat, b: seq<T>)
    requires q <= |a|
    ensures |a[..q] + b + a[q..]| == |a| + |b|
    ensures forall i :: 0 <= i < q ==> (a[..q] + b + a[q..])[i] == a[i]
    ensures forall i :: 0 <= i < |b| ==> (a[..q] + b + a[q..])[q + i] == b[i]
    ensures forall i :: q <= i < |a| ==> (a[..q] + b + a[q..])[i + |b|] == a[i]
    ensures (a[..q] + b + a[q..])[..q] == a[..q] && (a[..q] + b + a[q..])[q..] == b + a[q..]
  {
  }

  /** Splicing the same block in again right after the first copy. */
  lemma SpliceAfter<T>(a: seq<T>, q: nat, b: seq<T>)
    requires q <= |a|
    ensures (a[..q] + b + a[q..])[..q + |b|] + b + (a[..q] + b + a[q..])[q + |b|..] == a[..q] + b + b + a[q..]
  {
    var once := a[..q] + b + a[q..];
    assert once[..q + |b|] == a[..q] + b;
    assert once[q + |b|..] == a[q..];
  }

  /** Splicing a block in again below the first element after a copy placed on top. */
  lemma SpliceBelow<T>(a: seq<T>, b: seq<T>)
    requires a != []
    ensures (b + a)[..|b| + 1] + b + (b + a)[|b| + 1..] == b + a[..1] + b + a[1..]
  {
    assert (b + a)[..|b| + 1] == b + a[..1];
    assert (b + a)[|b| + 1..] == a[1..];
  }

  /** The loop `for i, x in enumerate(block): lines.insert(start + i, x)` of patches.py:58-59
      and 81-82: the block lands in order and contiguously at `start`, or at the end of the
      list when `start` is past it. */
  method InsertLines(lines: seq<string>, start: nat, block: seq<string>) returns (r: seq<string>)
    ensures start <= |lines| ==> r == lines[..start] + block + lines[start..]
    ensures start > |lines| ==> r == lines + block
  {
    var p := if start <= |lines| then start else |lines|;
    r := lines;
    var i := 0;
    while i < |block|
      invariant 0 <= i <= |block|
      invariant r == lines[..p] + block[..i] + lines[p..]
    {
      InsertStep(lines, p, block, i, start);
      r := ListInsert(r, start + i, block[i]);
      i := i + 1;
    }
    assert block[..|block|] == block;
    if start > |lines| {
      assert lines[..p] == lines && lines[p..] == [];
    }
  }

  /** The first index whose stripped line is `text`, or `|lines|` when there is none. */
  function FirstStripped(lines: seq<string>, text: string): (k: nat)
    ensures k <= |lines|
    ensures forall i :: 0 <= i < k ==> Strip(lines[i]) != text
    ensures k < |lines| ==> Strip(lines[k]) == text
    decreases |lines|
  {
    if lines == [] then 0
    else if Strip(lines[0]) == text then 0
    else 1 + FirstStripped(lines[1..], text)
  }

  lemma FirstStrippedAt(lines: seq<string>, text: string, k: nat)
    requires k < |lines| && Strip(lines[k]) == text
    requires forall i :: 0 <= i < k ==> Strip(lines[i]) != text
    ensures FirstStripped(lines, text) == k
  {
    var f := FirstStripped(lines, text);
    assert !(f < k);
  }

  lemma FirstStrippedNone(lines: seq<string>, text: string)
    requires forall i :: 0 <= i < |lines| ==> Strip(lines[i]) != text
    ensures FirstStripped(lines, text) == |lines|
  {
  }

  // ---------------------------------------------------------------- .env.example

  /** The keys `patch_env_example` rewrites, in the order it rewrites them. */
  const EnvKeys: seq<string> := ["POSTGRES_USERNAME", "POSTGRES_PASSWORD", "POSTGRES_DATABASE"]

  /** The line written for `key`: `KEY=<project name>` and a newline. */
  function EnvLine(key: string, value: string): string {
    key + "=" + value + "\n"
  }

  /** A line assigns `key` when its stripped form starts with `key=`. */
  predicate Assigns(line: string, key: string) {
    StartsWith(Strip(line), key + "=")
  }

  /** The position in `EnvKeys` of the key `line` assigns, `|EnvKeys|` when it assigns none. */
  function EnvKeyIndex(line: string): (k: nat)
    ensures k <= |EnvKeys|
  {
    if Assigns(line, EnvKeys[0]) then 0
    else if Assigns(line, EnvKeys[1]) then 1
    else if Assigns(line, EnvKeys[2]) then 2
    else 3
  }

  /** What `patch_env_example` makes of one line. */
  function EnvExampleLine(line: string, value: string): string {
    var k := EnvKeyIndex(line);
    if k < |EnvKeys| then EnvLine(EnvKeys[k], value) else line
  }

  /** The line list `patch_env_example` writes (patches.py:11-15). */
  function EnvExampleLines(lines: seq<string>, value: string): seq<string> {
    seq(|lines|, i requires 0 <= i < |lines| => EnvExampleLine(lines[i], value))
  }

  lemma KeyShape(a: nat)
    requires a < |EnvKeys|
    ensures |EnvKeys[a]| == 17 && EnvKeys[a][0] == 'P' && EnvKeys[a][9] == "UPD"[a]
  {
  }

  lemma KeyNoNewline(a: nat)
    requires a < |EnvKeys|
    ensures |EnvKeys[a] + "="| == 18 && NoNewline(EnvKeys[a] + "=")
  {
    if a == 0 {
    } else if a == 1 {
    } else {
    }
  }

  /** The three keys exclude each other: they differ at their tenth character. */
  lemma AssignsOneKey(line: string, a: nat, b: nat)
    requires a < |EnvKeys| && b < |EnvKeys|
    requires Assigns(line, EnvKeys[a]) && Assigns(line, EnvKeys[b])
    ensures a == b
  {
    KeyShape(a);
    KeyShape(b);
    var s := Strip(line);
    assert s[..18][9] == (EnvKeys[a] + "=")[9] == (EnvKeys[b] + "=")[9];
  }

  /** A line assigns a key exactly when that key is its `EnvKeyIndex`. */
  lemma EnvKeyIndexMeaning(line: string)
    ensures forall j :: 0 <= j < |EnvKeys| ==> (Assigns(line, EnvKeys[j]) <==> j == EnvKeyIndex(line))
  {
    forall j | 0 <= j < |EnvKeys| && Assigns(line, EnvKeys[j])
      ensures j == EnvKeyIndex(line)
    {
      AssignsOneKey(line, j, EnvKeyIndex(line));
    }
  }

  /** A written line assigns its own key and no other. */
  lemma EnvLineAssigns(a: nat, b: nat, value: string)
    requires a < |EnvKeys| && b < |EnvKeys|
    ensures Assigns(EnvLine(EnvKeys[a], value), EnvKeys[b]) <==> a == b
  {
    KeyShape(a);
    var p := EnvKeys[a] + "=";
    assert EnvLine(EnvKeys[a], value) == p + (value + "\n");
    StripKeepsPrefix(p, value + "\n");
    if Assigns(EnvLine(EnvKeys[a], value), EnvKeys[b]) {
      AssignsOneKey(EnvLine(EnvKeys[a], value), a, b);
    }
  }

  /** A line after the passes for the first `k` keys. */
  function EnvStage(line: string, value: string, k: nat): string {
    if EnvKeyIndex(line) < k && EnvKeyIndex(line) < |EnvKeys| then EnvLine(EnvKeys[EnvKeyIndex(line)], value) else line
  }

  /** One pass for key `k` takes a line from stage `k` to stage `k + 1`. */
  lemma EnvStageStep(line: string, value: string, k: nat)
    requires k < |EnvKeys|
    ensures EnvStage(line, value, k + 1)
      == if Assigns(EnvStage(line, value, k), EnvKeys[k]) then EnvLine(EnvKeys[k], value) else EnvStage(line, value, k)
  {
    var a := EnvKeyIndex(line);
    EnvKeyIndexMeaning(line);
    if a < k {
      EnvLineAssigns(a, k, value);
    }
  }

  /** One pass of patches.py:13-15 for key `EnvKeys[k]`: every line whose stripped form
      starts with `KEY=` becomes `KEY=<value>\n`, and every other line is kept. */
  method EnvKeyPass(lines: seq<string>, k: nat, value: string) returns (r: seq<string>)
    requires k < |EnvKeys|
    ensures |r| == |lines|
    ensures forall j :: 0 <= j < |lines| ==>
      r[j] == if Assigns(lines[j], EnvKeys[k]) then EnvLine(EnvKeys[k], value) else lines[j]
  {
    var key := EnvKeys[k];
    r := lines;
    var i := 0;
    while i < |r|
      invariant 0 <= i <= |r| == |lines|
      invariant forall j :: 0 <= j < i ==>
        r[j] == if Assigns(lines[j], key) then EnvLine(key, value) else lines[j]
      invariant forall j :: i <= j < |r| ==> r[j] == lines[j]
    {
      if StartsWith(Strip(r[i]), key + "=") {
        r := r[i := key + "=" + value + "\n"];
      }
      i := i + 1;
    }
  }

  /**
   * `patch_env_example` (patches.py:6-18): for each key in turn, every line whose
   * stripped form starts with `KEY=` becomes `KEY=<project name>\n`.
   */
  method PatchEnvExample(file: string, projectName: string) returns (out: string)
    ensures out == Join(EnvExampleLines(ReadLines(file), projectName))
  {
    var orig := ReadLines(file);
    var lines := orig;
    var k := 0;
    while k < |EnvKeys|
      invariant 0 <= k <= |EnvKeys|
      invariant |lines| == |orig|
      invariant forall j :: 0 <= j < |lines| ==> lines[j] == EnvStage(orig[j], projectName, k)
    {
      forall j | 0 <= j < |orig|
        ensures EnvStage(orig[j], projectName, k + 1)
          == if Assigns(EnvStage(orig[j], projectName, k), EnvKeys[k]) then EnvLine(EnvKeys[k], projectName)
             else EnvStage(orig[j], projectName, k)
      {
        EnvStageStep(orig[j], projectName, k);
      }
      lines := EnvKeyPass(lines, k, projectName);
      k := k + 1;
    }
    assert lines == EnvExampleLines(orig, projectName);
    out := Join(lines);
  }

  /** The line count is kept; a line that assigns one of the keys becomes that key's line,
      and every other line is left as it was. */
  lemma EnvExampleReplaces(lines: seq<string>, value: string)
    ensures |EnvExampleLines(lines, value)| == |lines|
    ensures forall i, j :: 0 <= i < |lines| && 0 <= j < |EnvKeys| && Assigns(lines[i], EnvKeys[j]) ==>
      EnvExampleLines(lines, value)[i] == EnvLine(EnvKeys[j], value)
    ensures forall i :: 0 <= i < |lines| && (forall j :: 0 <= j < |EnvKeys| ==> !Assigns(lines[i], EnvKeys[j])) ==>
      EnvExampleLines(lines, value)[i] == lines[i]
  {
    forall i | 0 <= i < |lines|
      ensures forall j :: 0 <= j < |EnvKeys| ==> (Assigns(lines[i], EnvKeys[j]) <==> j == EnvKeyIndex(lines[i]))
    {
      EnvKeyIndexMeaning(lines[i]);
    }
  }

  /** Patching the line list twice gives what patching once gives. */
  lemma EnvExampleIdempotent(lines: seq<string>, value: string)
    ensures EnvExampleLines(EnvExampleLines(lines, value), value) == EnvExampleLines(lines, value)
  {
    var once := EnvExampleLines(lines, value);
    forall i | 0 <= i < |lines|
      ensures EnvExampleLine(once[i], value) == once[i]
    {
      var a := EnvKeyIndex(lines[i]);
      if a < |EnvKeys| {
        EnvKeyIndexMeaning(once[i]);
        EnvLineAssigns(a, a, value);
      }
    }
  }

  /** The same for the file: running `patch_env_example` on the file it wrote changes
      nothing, when the project name has no newline in it. */
  lemma PatchEnvExampleIdempotent(file: string, value: string)
    requires '\n' !in value
    ensures Join(EnvExampleLines(ReadLines(Join(EnvExampleLines(ReadLines(file), value))), value))
      == Join(EnvExampleLines(ReadLines(file), value))
  {
    var orig := ReadLines(file);
    var once := EnvExampleLines(orig, value);
    ReadLinesWellFormed(file);
    forall k | 0 <= k < |EnvKeys|
      ensures IsLine(EnvLine(EnvKeys[k], value)) && Terminated(EnvLine(EnvKeys[k], value))
    {
      KeyNoNewline(k);
      var body := EnvKeys[k] + "=" + value;
      forall j | 18 <= j < |body|
        ensures body[j] != '\n'
      {
        assert body[j] == value[j - 18];
      }
      LineOfBody(body);
    }
    assert WellFormed(once);
    ReadLinesJoin(once);
    EnvExampleIdempotent(orig, value);
  }

  // ---------------------------------------------------------------- target_metadata

  const MetadataOld := "target_metadata = None"
  /** The replacement line (patches.py:34); split into short literals, as `SettingsBlock`
      is, to keep the verifier's work on it small. */
  const MetadataNew := "target_metadata = " + "Base.metadata\n"

  /** The line list `patch_alembic_metadata` writes (patches.py:32-35). */
  function MetadataLines(lines: seq<string>): seq<string> {
    var k := FirstStripped(lines, MetadataOld);
    if k < |lines| then lines[k := MetadataNew] else lines
  }

  /** `patch_alembic_metadata` (patches.py:28-38): the first line whose stripped form is
      `target_metadata = None` becomes `target_metadata = Base.metadata\n`. */
  method PatchAlembicMetadata(file: string) returns (out: string)
    ensures out == Join(MetadataLines(ReadLines(file)))
  {
    var orig := ReadLines(file);
    var lines := orig;
    var i := 0;
    while i < |lines|
      invariant 0 <= i <= |lines|
      invariant lines == orig
      invariant forall j :: 0 <= j < i ==> Strip(lines[j]) != MetadataOld
    {
      if Strip(lines[i]) == MetadataOld {
        FirstStrippedAt(orig, MetadataOld, i);
        lines := lines[i := MetadataNew];
        break;
      }
      i := i + 1;
    }
    if i == |orig| {
      FirstStrippedNone(orig, MetadataOld);
    }
    out := Join(lines);
  }

  /** Only the first matching line is replaced; the length and every other line are kept,
      and a list with no matching line is left as it was. */
  lemma MetadataReplacesFirst(lines: seq<string>)
    ensures |MetadataLines(lines)| == |lines|
    ensures forall k :: (0 <= k < |lines| && Strip(lines[k]) == MetadataOld
      && (forall i :: 0 <= i < k ==> Strip(lines[i]) != MetadataOld)) ==>
      MetadataLines(lines) == lines[k := MetadataNew]
    ensures (forall i :: 0 <= i < |lines| ==> Strip(lines[i]) != MetadataOld) ==> MetadataLines(lines) == lines
  {
    forall k | 0 <= k < |lines| && Strip(lines[k]) == MetadataOld
      && (forall i :: 0 <= i < k ==> Strip(lines[i]) != MetadataOld)
      ensures FirstStripped(lines, MetadataOld) == k
    {
      FirstStrippedAt(lines, MetadataOld, k);
    }
  }

  /** The replacement line does not match again. */
  lemma MetadataNewDiffers()
    ensures Strip(MetadataNew) != MetadataOld
  {
    var p := "target_metadata = B";
    assert MetadataNew == p + "ase.metadata\n";
    StripKeepsPrefix(p, "ase.metadata\n");
    assert MetadataOld[18] == 'N';
  }

  /** With at most one matching line, a second pass changes nothing. */
  lemma MetadataIdempotentOnOneMatch(lines: seq<string>)
    requires forall i, j :: (0 <= i < |lines| && 0 <= j < |lines| && Strip(lines[i]) == MetadataOld
      && Strip(lines[j]) == MetadataOld) ==> i == j
    ensures MetadataLines(MetadataLines(lines)) == MetadataLines(lines)
  {
    var once := MetadataLines(lines);
    MetadataNewDiffers();
    var f := FirstStripped(lines, MetadataOld);
    forall i | 0 <= i < |once|
      ensures Strip(once[i]) != MetadataOld
    {
    }
    assert FirstStripped(once, MetadataOld) == |once|;
  }

  // ---------------------------------------------------------------- settings block

  const ConfigLine := "config = context.config"
  /** The index used when no line is `config = context.config`. */
  const DefaultSettingsAnchor := 11

  /** The six lines `patch_alembic_settings` inserts (patches.py:49-56); the last has no
      newline. Each line is the source's literal, written as a concatenation of short
      literals because long string literals make every proof that mentions them costly. */
  const SettingsBlock: seq<string> := [
    "db_settings = settings.database" + "\n",
    "DATABASE_URL = (" + "\n",
    "   f\"postgresql+psycopg2://" + "{db_settings.username}:" + "{db_settings.password}\"" + "\n",
    "   f\"@{db_settings.host}:" + "{db_settings.port}/" + "{db_settings.database}\"" + "\n",
    ")" + "\n",
    "config.set_main_option(" + "\"sqlalchemy.url\", DATABASE_URL)"
  ]

  /** The anchor of `patch_alembic_settings` (patches.py:44-47): the first line that is
      `config = context.config` once stripped, else 11. */
  function SettingsAnchor(lines: seq<string>): nat {
    var k := FirstStripped(lines, ConfigLine);
    if k < |lines| then k else DefaultSettingsAnchor
  }

  /** Where the block lands: after the anchor, or at the end when that is past it. */
  function SettingsAt(lines: seq<string>): (p: nat)
    ensures p <= |lines|
  {
    var a := SettingsAnchor(lines);
    if a + 1 <= |lines| then a + 1 else |lines|
  }

  /** The line list `patch_alembic_settings` writes. */
  function SettingsLines(lines: seq<string>): seq<string> {
    var p := SettingsAt(lines);
    lines[..p] + SettingsBlock + lines[p..]
  }

  /** `patch_alembic_settings` (patches.py:40-62): insert the six block lines one by one at
      `anchor + 1 + i`. */
  method PatchAlembicSettings(file: string) returns (out: string)
    ensures out == Join(SettingsLines(ReadLines(file)))
  {
    var orig := ReadLines(file);
    var insertIndex := SettingsAnchor(orig);
    var lines := InsertLines(orig, insertIndex + 1, SettingsBlock);
    assert lines == SettingsLines(orig) by {
      if insertIndex + 1 <= |orig| {
        assert SettingsAt(orig) == insertIndex + 1;
      } else {
        assert SettingsAt(orig) == |orig|;
        assert orig[..|orig|] == orig && orig[|orig|..] == [];
      }
    }
    out := Join(lines);
  }

  /** Where the block goes, stated without the anchor function: directly after the first
      `config = context.config` line; without one, after line 11 (counting from 0), or at
      the end of a shorter list. The list grows by six lines. */
  lemma SettingsPlacement(lines: seq<string>)
    ensures |SettingsLines(lines)| == |lines| + 6
    ensures forall k :: (0 <= k < |lines| && Strip(lines[k]) == ConfigLine
      && (forall i :: 0 <= i < k ==> Strip(lines[i]) != ConfigLine)) ==>
      SettingsLines(lines) == lines[..k + 1] + SettingsBlock + lines[k + 1..]
    ensures (forall i :: 0 <= i < |lines| ==> Strip(lines[i]) != ConfigLine) ==>
      SettingsLines(lines) == if |lines| > DefaultSettingsAnchor then
        lines[..DefaultSettingsAnchor + 1] + SettingsBlock + lines[DefaultSettingsAnchor + 1..]
      else lines + SettingsBlock
  {
    forall k | 0 <= k < |lines| && Strip(lines[k]) == ConfigLine
      && (forall i :: 0 <= i < k ==> Strip(lines[i]) != ConfigLine)
      ensures FirstStripped(lines, ConfigLine) == k
    {
      FirstStrippedAt(lines, ConfigLine, k);
    }
    if |lines| <= DefaultSettingsAnchor {
      assert lines[|lines|..] == [];
      assert lines[..|lines|] == lines;
    }
  }

  /** Not idempotent: a second run inserts the block again, right after the first copy's
      anchor when the anchor line was found. */
  lemma SettingsTwice(lines: seq<string>)
    ensures |SettingsLines(SettingsLines(lines))| == |lines| + 12
    ensures FirstStripped(lines, ConfigLine) < |lines| ==>
      SettingsLines(SettingsLines(lines))
        == lines[..SettingsAt(lines)] + SettingsBlock + SettingsBlock + lines[SettingsAt(lines)..]
  {
    var k := FirstStripped(lines, ConfigLine);
    var once := SettingsLines(lines);
    if k < |lines| {
      var p := k + 1;
      assert SettingsAt(lines) == p;
      SpliceAt(lines, p, SettingsBlock);
      forall i | 0 <= i < k
        ensures Strip(once[i]) != ConfigLine
      {
        assert once[i] == lines[i];
      }
      assert once[k] == lines[k];
      FirstStrippedAt(once, ConfigLine, k);
      assert SettingsAt(once) == p;
      assert once[..p] + SettingsBlock + once[p..]
        == lines[..p] + SettingsBlock + SettingsBlock + lines[p..];
    }
  }

  lemma SettingsLine0() ensures IsLine(SettingsBlock[0]) && Terminated(SettingsBlock[0]) {
    LineOfBody("db_settings = settings.database");
  }

  lemma SettingsLine1() ensures IsLine(SettingsBlock[1]) && Terminated(SettingsBlock[1]) {
    LineOfBody("DATABASE_URL = (");
  }

  lemma SettingsLine2() ensures IsLine(SettingsBlock[2]) && Terminated(SettingsBlock[2]) {
    LineOfBody("   f\"postgresql+psycopg2://" + "{db_settings.username}:" + "{db_settings.password}\"");
  }

  lemma SettingsLine3() ensures IsLine(SettingsBlock[3]) && Terminated(SettingsBlock[3]) {
    LineOfBody("   f\"@{db_settings.host}:" + "{db_settings.port}/" + "{db_settings.database}\"");
  }

  lemma SettingsLine4() ensures IsLine(SettingsBlock[4]) && Terminated(SettingsBlock[4]) {
    LineOfBody(")");
  }

  lemma SettingsLine5() ensures NoNewline(SettingsBlock[5]) {
  }

  /** The first five block lines are complete lines; the sixth has no newline at all. */
  lemma SettingsBlockLines()
    ensures WellFormed(SettingsBlock[..5]) && AllTerminated(SettingsBlock[..5])
    ensures NoNewline(SettingsBlock[5])
  {
    SettingsLine0();
    SettingsLine1();
    SettingsLine2();
    SettingsLine3();
    SettingsLine4();
    SettingsLine5();
    forall i | 0 <= i < 5
      ensures IsLine(SettingsBlock[..5][i]) && Terminated(SettingsBlock[..5][i])
    {
      assert SettingsBlock[..5][i] == SettingsBlock[i];
    }
  }

  /**
   * What `readlines` returns for a file `patch_alembic_settings` wrote from a list of
   * complete lines: the block's last line has no newline, so it joins the line after it
   * into one line (or stays the unterminated last line when the block went at the end).
   */
  function SettingsReadBack(lines: seq<string>): seq<string> {
    var p := SettingsAt(lines);
    if p < |lines| then lines[..p] + SettingsBlock[..5] + [SettingsBlock[5] + lines[p]] + lines[p + 1..]
    else lines + SettingsBlock
  }

  lemma SettingsReread(lines: seq<string>)
    requires WellFormed(lines) && AllTerminated(lines)
    ensures ReadLines(Join(SettingsLines(lines))) == SettingsReadBack(lines)
  {
    SettingsBlockLines();
    assert SettingsBlock == SettingsBlock[..5] + [SettingsBlock[5]];
    SpliceReread(lines, SettingsAt(lines), SettingsBlock[..5], SettingsBlock[5]);
  }

  // ---------------------------------------------------------------- imports

  /** The two import lines `patch_alembic_imports` inserts (patches.py:75-78), split into
      short literals for the same reason as `SettingsBlock`. */
  const ImportBlock: seq<string> := [
    "from" + " app.models.base import Base" + "\n",
    "from" + " config import settings" + "\n"
  ]

  /** A line counts as an import when its stripped form starts with `from`. */
  predicate IsFromLine(line: string) {
    StartsWith(Strip(line), "from")
  }

  /** `last_import_index` after the scan (patches.py:69-73): the last index of a `from`
      line, starting from 0. */
  function LastFrom(lines: seq<string>): (k: nat)
    ensures lines == [] ==> k == 0
    ensures lines != [] ==> k < |lines|
    ensures k == 0 || IsFromLine(lines[k])
    ensures forall i :: k < i < |lines| ==> !IsFromLine(lines[i])
    decreases |lines|
  {
    if lines == [] then 0
    else if IsFromLine(lines[|lines| - 1]) then |lines| - 1
    else LastFrom(lines[..|lines| - 1])
  }

  /** Where the imports go (patches.py:80): after the last `from` line, but at 0 when that
      index is 0. */
  function ImportsAt(lines: seq<string>): (q: nat)
    ensures q <= |lines|
  {
    var last := LastFrom(lines);
    if last != 0 then last + 1 else last
  }

  /** The line list `patch_alembic_imports` writes. */
  function ImportsLines(lines: seq<string>): seq<string> {
    var q := ImportsAt(lines);
    lines[..q] + ImportBlock + lines[q..]
  }

  /** The scan of patches.py:69-73: the index of the last line whose stripped form starts
      with `from`, 0 when there is none. */
  method LastImportIndex(lines: seq<string>) returns (lastImportIndex: nat)
    ensures lastImportIndex == LastFrom(lines)
  {
    lastImportIndex := 0;
    var i := 0;
    while i < |lines|
      invariant 0 <= i <= |lines|
      invariant lastImportIndex == LastFrom(lines[..i])
    {
      LastFromStep(lines, i);
      if StartsWith(Strip(lines[i]), "from") {
        lastImportIndex := i;
      }
      i := i + 1;
    }
    assert lines[..|lines|] == lines;
  }

  /** `patch_alembic_imports` (patches.py:65-85): find the last `from` line, then insert
      the two imports one by one. */
  method PatchAlembicImports(file: string) returns (out: string)
    ensures out == Join(ImportsLines(ReadLines(file)))
  {
    var lines := ReadLines(file);
    var lastImportIndex := LastImportIndex(lines);
    var insertIndex := if lastImportIndex != 0 then lastImportIndex + 1 else lastImportIndex;
    assert insertIndex == ImportsAt(lines) <= |lines|;
    lines := InsertLines(lines, insertIndex, ImportBlock);
    out := Join(lines);
  }

  /** One step of the scan: the last `from` line among the first `i + 1` lines. */
  lemma LastFromStep(lines: seq<string>, i: nat)
    requires i < |lines|
    ensures LastFrom(lines[..i + 1]) == if IsFromLine(lines[i]) then i else LastFrom(lines[..i])
  {
    assert lines[..i + 1][..i] == lines[..i];
  }

  /** Where the imports go, stated without the scan: contiguously, right after the last
      `from` line when that line is not the first one; at the top otherwise, which
      includes the case where the only `from` line is line 0. The list grows by two. */
  lemma ImportsPlacement(lines: seq<string>)
    ensures |ImportsLines(lines)| == |lines| + 2
    ensures forall k :: (0 < k < |lines| && IsFromLine(lines[k])
      && (forall i :: k < i < |lines| ==> !IsFromLine(lines[i]))) ==>
      ImportsLines(lines) == lines[..k + 1] + ImportBlock + lines[k + 1..]
    ensures (forall i :: 0 < i < |lines| ==> !IsFromLine(lines[i])) ==>
      ImportsLines(lines) == ImportBlock + lines
  {
    ImportsAtPlacement(lines);
    assert lines[..0] == [] && lines[0..] == lines;
  }

  /** The insertion index on its own: one past the last `from` line, or 0. */
  lemma ImportsAtPlacement(lines: seq<string>)
    ensures forall k :: (0 < k < |lines| && IsFromLine(lines[k])
      && (forall i :: k < i < |lines| ==> !IsFromLine(lines[i]))) ==> ImportsAt(lines) == k + 1
    ensures (forall i :: 0 < i < |lines| ==> !IsFromLine(lines[i])) ==> ImportsAt(lines) == 0
  {
    forall k | 0 < k < |lines| && IsFromLine(lines[k])
      && (forall i :: k < i < |lines| ==> !IsFromLine(lines[i]))
      ensures LastFrom(lines) == k
    {
      LastFromIs(lines, k);
    }
    if lines != [] && forall i :: 0 < i < |lines| ==> !IsFromLine(lines[i]) {
      LastFromIs(lines, 0);
    }
  }

  /** `LastFrom` is the `from` line after which no `from` line follows (or 0). */
  lemma LastFromIs(lines: seq<string>, k: nat)
    requires k < |lines| && (k == 0 || IsFromLine(lines[k]))
    requires forall i :: k < i < |lines| ==> !IsFromLine(lines[i])
    ensures LastFrom(lines) == k
  {
    var g := LastFrom(lines);
    assert !(g > k);
    assert !(g < k);
  }

  /** After a block of two lines ending in a `from` line is inserted at `q`, with no `from`
      line from `q` on, the last `from` line is the block's second line. */
  lemma LastFromAfterBlock(lines: seq<string>, q: nat, block: seq<string>)
    requires q <= |lines| && |block| == 2 && IsFromLine(block[1])
    requires forall i :: q <= i < |lines| ==> !IsFromLine(lines[i])
    ensures LastFrom(lines[..q] + block + lines[q..]) == q + 1
  {
    var once := lines[..q] + block + lines[q..];
    SpliceAt(lines, q, block);
    forall i | q + 1 < i < |once|
      ensures !IsFromLine(once[i])
    {
      assert once[(i - 2) + |block|] == lines[i - 2];
    }
    LastFromIs(once, q + 1);
  }

  /** After a block of two lines is put above a list whose only `from` line is its first,
      the last `from` line is that first line, now at index 2. */
  lemma LastFromBelowBlock(lines: seq<string>, block: seq<string>)
    requires |block| == 2 && lines != [] && IsFromLine(lines[0])
    requires forall i :: 0 < i < |lines| ==> !IsFromLine(lines[i])
    ensures LastFrom(block + lines) == 2
  {
    var once := block + lines;
    assert once[2] == lines[0];
    forall i | 2 < i < |once|
      ensures !IsFromLine(once[i])
    {
      assert once[i] == lines[i - 2];
    }
    LastFromIs(once, 2);
  }

  lemma ImportLine0() ensures IsFromLine(ImportBlock[0]) && IsLine(ImportBlock[0]) && Terminated(ImportBlock[0]) {
    assert ImportBlock[0] == "from" + (" app.models.base import Base" + "\n");
    StripKeepsPrefix("from", " app.models.base import Base" + "\n");
    LineOfBody("from" + " app.models.base import Base");
  }

  lemma ImportLine1() ensures IsFromLine(ImportBlock[1]) && IsLine(ImportBlock[1]) && Terminated(ImportBlock[1]) {
    assert ImportBlock[1] == "from" + (" config import settings" + "\n");
    StripKeepsPrefix("from", " config import settings" + "\n");
    LineOfBody("from" + " config import settings");
  }

  /** Both import lines are complete lines, and `from` lines themselves. */
  lemma ImportBlockLines()
    ensures IsFromLine(ImportBlock[0]) && IsFromLine(ImportBlock[1])
    ensures WellFormed(ImportBlock) && AllTerminated(ImportBlock)
  {
    ImportLine0();
    ImportLine1();
  }

  /** Not idempotent: a second run inserts the imports again, after the first copy (the
      inserted lines are `from` lines themselves), or after the original line 0 when that
      line was a lone `from` line and the first copy went above it. */
  lemma ImportsTwice(lines: seq<string>)
    ensures |ImportsLines(ImportsLines(lines))| == |lines| + 4
    ensures var q := ImportsAt(lines);
      ImportsLines(ImportsLines(lines)) ==
        if q == 0 && lines != [] && IsFromLine(lines[0]) then ImportBlock + lines[..1] + ImportBlock + lines[1..]
        else lines[..q] + ImportBlock + ImportBlock + lines[q..]
  {
    var q := ImportsAt(lines);
    var once := ImportsLines(lines);
    ImportLine1();
    if q == 0 && lines != [] && IsFromLine(lines[0]) {
      assert lines[..0] == [] && lines[0..] == lines;
      assert once == ImportBlock + lines;
      LastFromBelowBlock(lines, ImportBlock);
      assert ImportsAt(once) == 3;
      SpliceBelow(lines, ImportBlock);
    } else {
      LastFromAfterBlock(lines, q, ImportBlock);
      assert ImportsAt(once) == q + 2;
      SpliceAfter(lines, q, ImportBlock);
    }
  }

  // ---------------------------------------------------------------- composition

  /**
   * `patch_alembic_env` (patches.py:20-26): imports, then settings, then metadata, each
   * stage reading the file the previous one wrote. For a file that ends with a newline,
   * the result is the metadata rewrite of the settings block inserted into the imports
   * result, with the block's last line merged into the line that follows it.
   */
  method PatchAlembicEnv(file: string) returns (out: string)
    ensures out == Join(MetadataLines(ReadLines(Join(SettingsLines(ReadLines(Join(ImportsLines(ReadLines(file)))))))))
    ensures AllTerminated(ReadLines(file)) ==>
      out == Join(MetadataLines(SettingsReadBack(ImportsLines(ReadLines(file)))))
  {
    var afterImports := PatchAlembicImports(file);
    var afterSettings := PatchAlembicSettings(afterImports);
    out := PatchAlembicMetadata(afterSettings);
    if AllTerminated(ReadLines(file)) {
      ReadLinesWellFormed(file);
      ImportsReread(ReadLines(file));
      ImportsComplete(ReadLines(file));
      SettingsReread(ImportsLines(ReadLines(file)));
    }
  }

  /** The imports stage keeps a list of complete lines complete. */
  lemma ImportsComplete(lines: seq<string>)
    requires WellFormed(lines) && AllTerminated(lines)
    ensures WellFormed(ImportsLines(lines)) && AllTerminated(ImportsLines(lines))
  {
    var q := ImportsAt(lines);
    ImportBlockLines();
    SliceLines(lines, 0, q);
    SliceLines(lines, q, |lines|);
    ConcatLines(ImportBlock, lines[q..]);
    ConcatLines(lines[..q], ImportBlock + lines[q..]);
    assert ImportsLines(lines) == lines[..q] + (ImportBlock + lines[q..]);
  }

  /** Reading back the file the imports stage wrote gives its line list again. */
  lemma ImportsReread(lines: seq<string>)
    requires WellFormed(lines) && AllTerminated(lines)
    ensures ReadLines(Join(ImportsLines(lines))) == ImportsLines(lines)
  {
    ImportsComplete(lines);
    ReadLinesJoin(ImportsLines(lines));
  }
}
