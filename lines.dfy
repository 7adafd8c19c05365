/**
 * A text file as Python's `f.readlines()` sees it and `f.writelines(lines)` writes it:
 * a list of lines, each keeping its `\n`, the last one possibly without.
 */
module Lines {

  /** The length of the first line of `s`: up to and including the first `\n`, or all of
      `s` when it has none. */
  function LineLength(s: string): (k: nat)
    requires s != []
    ensures 0 < k <= |s|
    ensures forall j :: 0 <= j < k - 1 ==> s[j] != '\n'
    ensures k < |s| ==> s[k - 1] == '\n'
    decreases |s|
  {
    if s[0] == '\n' || |s| == 1 then 1 else 1 + LineLength(s[1..])
  }

  /** `f.readlines()` on a file whose text is `s`. */
  function ReadLines(s: string): seq<string>
    decreases |s|
  {
    if s == [] then [] else
      var k := LineLength(s);
      [s[..k]] + ReadLines(s[k..])
  }

  /** `f.writelines(lines)`: the text written is the lines one after another. */
  function Join(lines: seq<string>): string
    decreases |lines|
  {
    if lines == [] then [] else lines[0] + Join(lines[1..])
  }

  /** A line as `readlines` returns it: not empty, and no `\n` before its last character. */
  predicate IsLine(x: string) {
    x != [] && forall j :: 0 <= j < |x| - 1 ==> x[j] != '\n'
  }

  predicate Terminated(x: string) {
    x != [] && x[|x| - 1] == '\n'
  }

  /** A list `readlines` can return: lines, all but the last ending in `\n`. */
  predicate WellFormed(lines: seq<string>) {
    (forall i :: 0 <= i < |lines| ==> IsLine(lines[i]))
    && (forall i :: 0 <= i < |lines| - 1 ==> Terminated(lines[i]))
  }

  /** Every line of the list ends in `\n`: the file ended with a newline. */
  predicate AllTerminated(lines: seq<string>) {
    forall i :: 0 <= i < |lines| ==> Terminated(lines[i])
  }

  lemma {:induction false} ReadLinesWellFormed(s: string)
    ensures WellFormed(ReadLines(s))
    decreases |s|
  {
    if s != [] {
      var k := LineLength(s);
      ReadLinesWellFormed(s[k..]);
      var r := ReadLines(s);
      assert r == [s[..k]] + ReadLines(s[k..]);
      if 1 < |r| {
        assert s[k..] != [];
        assert k < |s|;
        assert Terminated(r[0]);
      }
      forall i | 0 <= i < |r|
        ensures IsLine(r[i])
      {
        if i > 0 {
          assert r[i] == ReadLines(s[k..])[i - 1];
        }
      }
      forall i | 0 <= i < |r| - 1
        ensures Terminated(r[i])
      {
        if i > 0 {
          assert r[i] == ReadLines(s[k..])[i - 1];
        }
      }
    }
  }

  /** Reading a file and writing the lines back leaves its text as it was. */
  lemma {:induction false} JoinReadLines(s: string)
    ensures Join(ReadLines(s)) == s
    decreases |s|
  {
    if s != [] {
      var k := LineLength(s);
      JoinReadLines(s[k..]);
      assert ReadLines(s) == [s[..k]] + ReadLines(s[k..]);
      assert s == s[..k] + s[k..];
    }
  }

  /** The first line of `x + t` is `x`, when `x` is a line that either ends in `\n` or is
      all there is. */
  lemma FirstLineOf(x: string, t: string)
    requires IsLine(x) && (Terminated(x) || t == [])
    ensures LineLength(x + t) == |x|
    decreases |x|
  {
    if |x| > 1 {
      assert (x + t)[1..] == x[1..] + t;
      FirstLineOf(x[1..], t);
    }
  }

  /** Writing a well-formed list of lines and reading it back gives the same list. */
  lemma {:induction false} ReadLinesJoin(lines: seq<string>)
    requires WellFormed(lines)
    ensures ReadLines(Join(lines)) == lines
    decreases |lines|
  {
    if lines != [] {
      var rest := lines[1..];
      assert WellFormed(rest) by {
        forall i | 0 <= i < |rest| ensures IsLine(rest[i]) { assert rest[i] == lines[i + 1]; }
        forall i | 0 <= i < |rest| - 1 ensures Terminated(rest[i]) { assert rest[i] == lines[i + 1]; }
      }
      ReadLinesJoin(rest);
      var s := Join(lines);
      assert s == lines[0] + Join(rest);
      if rest != [] {
        assert Terminated(lines[0]);
      }
      FirstLineOf(lines[0], Join(rest));
      assert s[..|lines[0]|] == lines[0];
      assert s[|lines[0]|..] == Join(rest);
    }
  }

  /** Joining is concatenation, over any split of the list. */
  lemma {:induction false} JoinAppend(a: seq<string>, b: seq<string>)
    ensures Join(a + b) == Join(a) + Join(b)
    decreases |a|
  {
    if a == [] {
      assert a + b == b;
    } else {
      assert (a + b)[0] == a[0];
      assert (a + b)[1..] == a[1..] + b;
      JoinAppend(a[1..], b);
      assert Join(a + b) == a[0] + (Join(a[1..]) + Join(b));
    }
  }

  /** No `\n` anywhere in `s`. */
  predicate NoNewline(s: string) {
    forall j :: 0 <= j < |s| ==> s[j] != '\n'
  }

  /** A body without `\n`, followed by `\n`, is one complete line. */
  lemma LineOfBody(body: string)
    requires NoNewline(body)
    ensures IsLine(body + "\n") && Terminated(body + "\n")
  {
    forall j | 0 <= j < |body + "\n"| - 1
      ensures (body + "\n")[j] != '\n'
    {
      assert (body + "\n")[j] == body[j];
    }
  }

  /** A text without `\n` followed by a line is a line, ending as that line ends. */
  lemma PrefixLine(x: string, line: string)
    requires NoNewline(x) && IsLine(line)
    ensures IsLine(x + line)
    ensures Terminated(line) ==> Terminated(x + line)
  {
    forall j | 0 <= j < |x + line| - 1
      ensures (x + line)[j] != '\n'
    {
      if j >= |x| {
        assert (x + line)[j] == line[j - |x|];
      }
    }
  }

  /** Complete lines followed by a well-formed list form a well-formed list. */
  lemma ConcatLines(a: seq<string>, b: seq<string>)
    requires WellFormed(a) && AllTerminated(a) && WellFormed(b)
    ensures WellFormed(a + b)
    ensures AllTerminated(b) ==> AllTerminated(a + b)
  {
    forall i | 0 <= i < |a + b|
      ensures IsLine((a + b)[i])
    {
      if i >= |a| {
        assert (a + b)[i] == b[i - |a|];
      }
    }
    forall i | 0 <= i < |a + b| - 1
      ensures Terminated((a + b)[i])
    {
      if i >= |a| {
        assert (a + b)[i] == b[i - |a|];
      }
    }
  }

  /** Any slice of a list of complete lines is a list of complete lines. */
  lemma SliceLines(a: seq<string>, i: nat, j: nat)
    requires WellFormed(a) && AllTerminated(a) && i <= j <= |a|
    ensures WellFormed(a[i..j]) && AllTerminated(a[i..j])
  {
  }

  /** Joining a list with a block spliced in at `p < |lines|`, when the block's last line
      `tail` is glued to the line after it, gives the same text. */
  lemma SpliceJoin(lines: seq<string>, p: nat, head: seq<string>, tail: string)
    requires p < |lines|
    ensures Join(lines[..p] + head + [tail + lines[p]] + lines[p + 1..])
      == Join(lines[..p] + (head + [tail]) + lines[p..])
  {
    var a := lines[..p];
    var c := [tail + lines[p]];
    var d := lines[p + 1..];
    var s := head + [tail];
    assert lines[..p] + head + [tail + lines[p]] + lines[p + 1..] == a + (head + (c + d));
    JoinAppend(a, head + (c + d));
    JoinAppend(head, c + d);
    JoinAppend(c, d);
    assert Join(c) == tail + lines[p] by {
      assert c[1..] == [];
    }
    JoinAppend(head, [tail]);
    assert Join([tail]) == tail by {
      assert [tail][1..] == [];
    }
    assert lines[p..] == [lines[p]] + d;
    assert Join(lines[p..]) == lines[p] + Join(d) by {
      assert ([lines[p]] + d)[1..] == d;
    }
    assert lines[..p] + s + lines[p..] == a + (s + lines[p..]);
    JoinAppend(a, s + lines[p..]);
    JoinAppend(s, lines[p..]);
  }

  /** The glued list of `SpliceJoin` is a list of complete lines. */
  lemma SpliceLines(lines: seq<string>, p: nat, head: seq<string>, tail: string)
    requires WellFormed(lines) && AllTerminated(lines) && p < |lines|
    requires WellFormed(head) && AllTerminated(head) && NoNewline(tail)
    ensures WellFormed(lines[..p] + head + [tail + lines[p]] + lines[p + 1..])
  {
    var a := lines[..p];
    var c := [tail + lines[p]];
    var d := lines[p + 1..];
    SliceLines(lines, 0, p);
    SliceLines(lines, p + 1, |lines|);
    PrefixLine(tail, lines[p]);
    assert WellFormed(c) && AllTerminated(c);
    ConcatLines(c, d);
    ConcatLines(head, c + d);
    ConcatLines(a, head + (c + d));
    assert lines[..p] + head + [tail + lines[p]] + lines[p + 1..] == a + (head + (c + d));
  }

  /**
   * Reading back the text of complete lines with a block spliced in at `p`, where the
   * block is complete lines `head` followed by a last line `tail` without newline: `tail`
   * and the line after it come back as one line.
   */
  lemma SpliceReread(lines: seq<string>, p: nat, head: seq<string>, tail: string)
    requires WellFormed(lines) && AllTerminated(lines) && p <= |lines|
    requires WellFormed(head) && AllTerminated(head) && tail != [] && NoNewline(tail)
    ensures ReadLines(Join(lines[..p] + (head + [tail]) + lines[p..]))
      == if p < |lines| then lines[..p] + head + [tail + lines[p]] + lines[p + 1..] else lines + (head + [tail])
  {
    if p < |lines| {
      SpliceJoin(lines, p, head, tail);
      SpliceLines(lines, p, head, tail);
      ReadLinesJoin(lines[..p] + head + [tail + lines[p]] + lines[p + 1..]);
    } else {
      var s := head + [tail];
      assert WellFormed([tail]);
      ConcatLines(head, [tail]);
      ConcatLines(lines, s);
      assert lines[..p] + s + lines[p..] == lines + s;
      ReadLinesJoin(lines + s);
    }
  }
}
