/**
 * How the detector script's output and the registration handler's exec callback fit
 * together: a successful run of model/face_crop.py is read back as exactly the paths and
 * embeddings it printed, and a failed run is rejected.
 */
module DetectorContract {
  import opened Wrappers
  import opened Text
  import opened Json
  import opened FaceCrop
  import opened DetectorOutput

  /** A line the handler's searches cannot mistake for a report line: it holds no newline and no label. */
  predicate Quiet(line: string) {
    && '\n' !in line
    && Absent(line, OriginalEmbeddingLabel) && Absent(line, ProcessedEmbeddingLabel)
    && Absent(line, OriginalPathLabel) && Absent(line, ProcessedPathLabel)
  }

  /** No occurrence of `pat` can start inside a prefix that ends a line. */
  lemma NoEarlyStart(a: string, b: string, pat: string)
    requires a == [] || a[|a| - 1] == '\n'
    requires Absent(a, pat) && '\n' !in pat
    ensures forall k: nat :: k < |a| ==> !StartsAt(a + b, pat, k)
  {
    forall k: nat | k < |a|
      ensures !StartsAt(a + b, pat, k)
    {
      if k + |pat| <= |a| {
        assert (a + b)[k..k + |pat|] == a[k..k + |pat|];
        assert !StartsAt(a, pat, k);
      } else if k + |pat| <= |a + b| {
        assert (a + b)[k..k + |pat|][|a| - 1 - k] == '\n';
      }
    }
  }

  /** A label absent from two texts, the first ending a line, is absent from the two together. */
  lemma AbsentAppend(a: string, b: string, pat: string)
    requires a == [] || a[|a| - 1] == '\n'
    requires Absent(a, pat) && Absent(b, pat) && '\n' !in pat
    ensures Absent(a + b, pat)
  {
    NoEarlyStart(a, b, pat);
    forall k: nat | |a| <= k <= |a + b|
      ensures !StartsAt(a + b, pat, k)
    {
      if k + |pat| <= |a + b| {
        assert (a + b)[k..k + |pat|] == b[k - |a|..k - |a| + |pat|];
        assert !StartsAt(b, pat, k - |a|);
      }
    }
  }

  /** Ending a line adds no occurrence of a label that holds no newline. */
  lemma AbsentLine(line: string, pat: string)
    requires Absent(line, pat) && '\n' !in pat && pat != []
    ensures Absent(line + "\n", pat)
  {
    var s := line + "\n";
    forall k: nat | k <= |s|
      ensures !StartsAt(s, pat, k)
    {
      if k + |pat| <= |line| {
        assert s[k..k + |pat|] == line[k..k + |pat|];
        assert !StartsAt(line, pat, k);
      } else if k + |pat| <= |s| {
        assert s[k..k + |pat|][|line| - k] == '\n';
      }
    }
  }

  /**
   * A report line for one label holds no other label: the labels differ at some index `d`, and
   * the other label's first character occurs nowhere else in the line's own label.
   */
  lemma AbsentOtherLabel(own: string, value: string, pat: string, d: nat)
    requires d < |own| && d < |pat| && own[d] != pat[d]
    requires pat[0] !in own[1..] && pat[0] != ' '
    requires Absent(value, pat)
    ensures Absent(own + " " + value, pat)
  {
    var s := own + " " + value;
    forall k: nat | k <= |s| && k + |pat| <= |s|
      ensures !StartsAt(s, pat, k)
    {
      if k == 0 {
        assert s[k..k + |pat|][d] == own[d];
      } else if k < |own| {
        assert s[k..k + |pat|][0] == own[1..][k - 1];
      } else if k == |own| {
        assert s[k..k + |pat|][0] == ' ';
      } else {
        var m := k - |own| - 1;
        assert s[k..k + |pat|] == value[m..m + |pat|];
        assert !StartsAt(value, pat, m);
      }
    }
  }

  /** A text without the label's first character holds no occurrence of the label. */
  lemma AbsentFirstChar(s: string, pat: string)
    requires pat != [] && pat[0] !in s
    ensures Absent(s, pat)
  {
    forall k: nat | k <= |s| && k + |pat| <= |s|
      ensures !StartsAt(s, pat, k)
    {
      assert s[k..k + |pat|][0] == s[k];
    }
  }

  /** The stdout of lines none of which holds the label or a newline holds no occurrence of the label. */
  lemma {:induction false} AbsentStdout(lines: seq<string>, pat: string)
    requires '\n' !in pat && pat != []
    requires forall k :: 0 <= k < |lines| ==> '\n' !in lines[k] && Absent(lines[k], pat)
    ensures Absent(Stdout(lines), pat)
    decreases |lines|
  {
    if lines != [] {
      var init := lines[..|lines| - 1];
      AbsentStdout(init, pat);
      AbsentLine(lines[|lines| - 1], pat);
      AbsentAppend(Stdout(init), lines[|lines| - 1] + "\n", pat);
      assert Stdout(lines) == Stdout(init) + (lines[|lines| - 1] + "\n");
    }
  }

  /** The first line carrying the label, after a text free of it, is the one the search captures. */
  lemma FindsLine(a: string, tag: string, value: string, rest: string)
    requires a == [] || a[|a| - 1] == '\n'
    requires Absent(a, tag) && '\n' !in tag
    requires value != [] && '\n' !in value
    ensures Match(a + (tag + " " + value + "\n") + rest, tag) == Some(value)
  {
    var line := tag + " " + value + "\n";
    var s := a + line + rest;
    NoEarlyStart(a, line + rest, tag);
    assert s == a + (line + rest);
    assert s[|a|..|a| + |tag| + 1 + |value| + 1] == line;
    MatchFirstLine(s, tag, 0, |a|, value);
  }

  /** The facts about the four labels that keep each report line free of the labels after it. */
  lemma LabelFacts()
    ensures OriginalEmbeddingLabel[0] == 'O' && OriginalPathLabel[0] == 'O'
    ensures ProcessedEmbeddingLabel[0] == 'P' && ProcessedPathLabel[0] == 'P'
    ensures 'P' !in OriginalEmbeddingLabel[1..] && 'O' !in OriginalEmbeddingLabel[1..]
    ensures 'P' !in ProcessedEmbeddingLabel[1..] && 'O' !in ProcessedEmbeddingLabel[1..]
    ensures 'P' !in OriginalPathLabel[1..]
    ensures OriginalEmbeddingLabel[9] != OriginalPathLabel[9]
    ensures ProcessedEmbeddingLabel[10] != ProcessedPathLabel[10]
    ensures '\n' !in OriginalEmbeddingLabel && '\n' !in ProcessedEmbeddingLabel
    ensures '\n' !in OriginalPathLabel && '\n' !in ProcessedPathLabel
  {
    OriginalEmbeddingLabelFacts();
    ProcessedEmbeddingLabelFacts();
    PathLabelFacts();
  }

  /** The original embedding label: `O`, then no `O`, `P` or newline, with `e` where the path label has `p`. */
  lemma OriginalEmbeddingLabelFacts()
    ensures OriginalEmbeddingLabel[0] == 'O' && OriginalEmbeddingLabel[9] == 'e'
    ensures 'P' !in OriginalEmbeddingLabel[1..] && 'O' !in OriginalEmbeddingLabel[1..]
    ensures '\n' !in OriginalEmbeddingLabel
  {
    var a, b := "riginal ", "embedding:";
    assert 'P' !in a && 'O' !in a && '\n' !in a;
    assert 'P' !in b && 'O' !in b && '\n' !in b;
    assert OriginalEmbeddingLabel == ['O'] + a + b;
  }

  /** The processed embedding label: `P`, then no `O`, `P` or newline, with `e` where the path label has `p`. */
  lemma ProcessedEmbeddingLabelFacts()
    ensures ProcessedEmbeddingLabel[0] == 'P' && ProcessedEmbeddingLabel[10] == 'e'
    ensures 'P' !in ProcessedEmbeddingLabel[1..] && 'O' !in ProcessedEmbeddingLabel[1..]
    ensures '\n' !in ProcessedEmbeddingLabel
  {
    var a, b := "rocessed ", "embedding:";
    assert 'P' !in a && 'O' !in a && '\n' !in a;
    assert 'P' !in b && 'O' !in b && '\n' !in b;
    assert ProcessedEmbeddingLabel == ['P'] + a + b;
  }

  /** Each path label: its first letter, no newline, `p` where the embedding label differs, and no `P` in the original one. */
  lemma PathLabelFacts()
    ensures OriginalPathLabel[0] == 'O' && OriginalPathLabel[9] == 'p'
    ensures ProcessedPathLabel[0] == 'P' && ProcessedPathLabel[10] == 'p'
    ensures 'P' !in OriginalPathLabel[1..]
    ensures '\n' !in OriginalPathLabel && '\n' !in ProcessedPathLabel
  {
    assert OriginalPathLabel[1..] == "riginal path:";
  }

  /** A report line for `own` holds no occurrence of a label `pat` that differs from `own` at `d`. */
  lemma ReportLineLacks(own: string, value: string, pat: string, d: nat)
    requires d < |own| && d < |pat| && own[d] != pat[d]
    requires pat[0] !in own[1..] && pat[0] != ' ' && '\n' !in pat
    requires Absent(value, pat)
    ensures Absent(own + " " + value + "\n", pat)
  {
    AbsentOtherLabel(own, value, pat, d);
    AbsentLine(own + " " + value, pat);
  }

  /** Stdout of one more line. */
  lemma StdoutSnoc(lines: seq<string>, line: string)
    ensures Stdout(lines + [line]) == Stdout(lines) + (line + "\n")
  {
    assert (lines + [line])[..|lines|] == lines;
  }

  /** The stdout of four report lines after some others, line by line. */
  lemma StdoutOfReport(before: seq<string>, l1: string, l2: string, l3: string, l4: string)
    ensures Stdout(before + [l1, l2, l3, l4]) == Stdout(before) + (l1 + "\n") + (l2 + "\n") + (l3 + "\n") + (l4 + "\n")
  {
    StdoutSnoc(before, l1);
    StdoutSnoc(before + [l1], l2);
    StdoutSnoc(before + [l1] + [l2], l3);
    StdoutSnoc(before + [l1] + [l2] + [l3], l4);
    assert before + [l1, l2, l3, l4] == before + [l1] + [l2] + [l3] + [l4];
  }

  /** After a text free of labels that ends a line, the four report lines are read back as their values. */
  lemma ReadsReport(t: string, oe: string, pe: string, op: string, pp: string)
    requires t == [] || t[|t| - 1] == '\n'
    requires Absent(t, OriginalEmbeddingLabel) && Absent(t, ProcessedEmbeddingLabel)
    requires Absent(t, OriginalPathLabel) && Absent(t, ProcessedPathLabel)
    requires Quiet(oe) && Quiet(pe) && Quiet(op) && Quiet(pp)
    requires oe != [] && pe != [] && op != [] && pp != []
    ensures var out := t + (OriginalEmbeddingLabel + " " + oe + "\n") + (ProcessedEmbeddingLabel + " " + pe + "\n")
                         + (OriginalPathLabel + " " + op + "\n") + (ProcessedPathLabel + " " + pp + "\n");
      && Match(out, OriginalEmbeddingLabel) == Some(oe)
      && Match(out, ProcessedEmbeddingLabel) == Some(pe)
      && Match(out, OriginalPathLabel) == Some(op)
      && Match(out, ProcessedPathLabel) == Some(pp)
  {
    var n1, n2, n3, n4 := OriginalEmbeddingLabel + " " + oe + "\n", ProcessedEmbeddingLabel + " " + pe + "\n",
                          OriginalPathLabel + " " + op + "\n", ProcessedPathLabel + " " + pp + "\n";
    LabelFacts();
    ReadsOriginalEmbedding(t, oe, n2 + n3 + n4);
    assert t + n1 + n2 + n3 + n4 == t + n1 + (n2 + n3 + n4);
    ReadsProcessedEmbedding(t, oe, pe, n3 + n4);
    assert t + n1 + n2 + n3 + n4 == t + n1 + n2 + (n3 + n4);
    ReadsOriginalPath(t, oe, pe, op, n4);
    ReadsProcessedPath(t, oe, pe, op, pp);
  }

  lemma ReadsOriginalEmbedding(t: string, oe: string, rest: string)
    requires t == [] || t[|t| - 1] == '\n'
    requires Absent(t, OriginalEmbeddingLabel)
    requires oe != [] && '\n' !in oe
    ensures Match(t + (OriginalEmbeddingLabel + " " + oe + "\n") + rest, OriginalEmbeddingLabel) == Some(oe)
  {
    LabelFacts();
    FindsLine(t, OriginalEmbeddingLabel, oe, rest);
  }

  lemma ReadsProcessedEmbedding(t: string, oe: string, pe: string, rest: string)
    requires t == [] || t[|t| - 1] == '\n'
    requires Absent(t, ProcessedEmbeddingLabel) && Quiet(oe)
    requires pe != [] && '\n' !in pe
    ensures Match(t + (OriginalEmbeddingLabel + " " + oe + "\n") + (ProcessedEmbeddingLabel + " " + pe + "\n") + rest,
                  ProcessedEmbeddingLabel) == Some(pe)
  {
    var oeL, peL := OriginalEmbeddingLabel, ProcessedEmbeddingLabel;
    LabelFacts();
    ReportLineLacks(oeL, oe, peL, 0);
    FindsLineAfter(t, oeL + " " + oe + "\n", [], [], peL, pe, rest);
    assert t + (oeL + " " + oe + "\n") + [] + [] == t + (oeL + " " + oe + "\n");
  }

  lemma ReadsOriginalPath(t: string, oe: string, pe: string, op: string, rest: string)
    requires t == [] || t[|t| - 1] == '\n'
    requires Absent(t, OriginalPathLabel) && Quiet(oe) && Quiet(pe)
    requires op != [] && '\n' !in op
    ensures Match(t + (OriginalEmbeddingLabel + " " + oe + "\n") + (ProcessedEmbeddingLabel + " " + pe + "\n")
                    + (OriginalPathLabel + " " + op + "\n") + rest, OriginalPathLabel) == Some(op)
  {
    var oeL, peL, opL := OriginalEmbeddingLabel, ProcessedEmbeddingLabel, OriginalPathLabel;
    LabelFacts();
    ReportLineLacks(oeL, oe, opL, 9);
    ReportLineLacks(peL, pe, opL, 0);
    FindsLineAfter(t, oeL + " " + oe + "\n", peL + " " + pe + "\n", [], opL, op, rest);
    assert t + (oeL + " " + oe + "\n") + (peL + " " + pe + "\n") + [] == t + (oeL + " " + oe + "\n") + (peL + " " + pe + "\n");
  }

  lemma ReadsProcessedPath(t: string, oe: string, pe: string, op: string, pp: string)
    requires t == [] || t[|t| - 1] == '\n'
    requires Absent(t, ProcessedPathLabel) && Quiet(oe) && Quiet(pe) && Quiet(op)
    requires pp != [] && '\n' !in pp
    ensures Match(t + (OriginalEmbeddingLabel + " " + oe + "\n") + (ProcessedEmbeddingLabel + " " + pe + "\n")
                    + (OriginalPathLabel + " " + op + "\n") + (ProcessedPathLabel + " " + pp + "\n"), ProcessedPathLabel) == Some(pp)
  {
    var oeL, peL, opL, ppL := OriginalEmbeddingLabel, ProcessedEmbeddingLabel, OriginalPathLabel, ProcessedPathLabel;
    LabelFacts();
    ReportLineLacks(oeL, oe, ppL, 0);
    ReportLineLacks(peL, pe, ppL, 10);
    ReportLineLacks(opL, op, ppL, 0);
    FindsLineAfter(t, oeL + " " + oe + "\n", peL + " " + pe + "\n", opL + " " + op + "\n", ppL, pp, []);
    assert t + (oeL + " " + oe + "\n") + (peL + " " + pe + "\n") + (opL + " " + op + "\n") + (ppL + " " + pp + "\n") + []
        == t + (oeL + " " + oe + "\n") + (peL + " " + pe + "\n") + (opL + " " + op + "\n") + (ppL + " " + pp + "\n");
  }

  /**
   * The four report lines, after quiet lines, are read back as the values they carry: each
   * search stops at its own line.
   */
  lemma ReportIsRead(before: seq<string>, oe: string, pe: string, op: string, pp: string)
    requires forall k :: 0 <= k < |before| ==> Quiet(before[k])
    requires Quiet(oe) && Quiet(pe) && Quiet(op) && Quiet(pp)
    requires oe != [] && pe != [] && op != [] && pp != []
    ensures var out := Stdout(before + [ OriginalEmbeddingLabel + " " + oe, ProcessedEmbeddingLabel + " " + pe,
                                         OriginalPathLabel + " " + op, ProcessedPathLabel + " " + pp ]);
      && Match(out, OriginalEmbeddingLabel) == Some(oe)
      && Match(out, ProcessedEmbeddingLabel) == Some(pe)
      && Match(out, OriginalPathLabel) == Some(op)
      && Match(out, ProcessedPathLabel) == Some(pp)
  {
    StdoutOfReport(before, OriginalEmbeddingLabel + " " + oe, ProcessedEmbeddingLabel + " " + pe,
                   OriginalPathLabel + " " + op, ProcessedPathLabel + " " + pp);
    LabelFacts();
    AbsentStdout(before, OriginalEmbeddingLabel);
    AbsentStdout(before, ProcessedEmbeddingLabel);
    AbsentStdout(before, OriginalPathLabel);
    AbsentStdout(before, ProcessedPathLabel);
    ReadsReport(Stdout(before), oe, pe, op, pp);
  }

  /**
   * The line for `tag` after up to three other complete lines free of it, themselves after a
   * text free of it, is the one the search captures.
   */
  lemma FindsLineAfter(t: string, n1: string, n2: string, n3: string, tag: string, value: string, rest: string)
    requires t == [] || t[|t| - 1] == '\n'
    requires n1 == [] || n1[|n1| - 1] == '\n'
    requires n2 == [] || n2[|n2| - 1] == '\n'
    requires n3 == [] || n3[|n3| - 1] == '\n'
    requires Absent(t, tag) && Absent(n1, tag) && Absent(n2, tag) && Absent(n3, tag) && '\n' !in tag
    requires value != [] && '\n' !in value
    ensures Match(t + n1 + n2 + n3 + (tag + " " + value + "\n") + rest, tag) == Some(value)
  {
    AbsentAppend(t, n1, tag);
    AbsentAppend(t + n1, n2, tag);
    AbsentAppend(t + n1 + n2, n3, tag);
    FindsLine(t + n1 + n2 + n3, tag, value, rest);
  }

  /**
   * A run that exits 0 is read back as what it printed: its paths (trimmed) and the parsed
   * embeddings when both parse to truthy JSON. An embedding printed as Python's `None` makes
   * JSON.parse throw.
   */
  lemma SuccessfulRunIsRead(args: seq<string>, processing: seq<string>, paths: Option<(string, string)>,
                            embeddingLog: seq<string>, oe: PyEmbedding, pe: PyEmbedding, codec: Codec)
    requires Main(args, processing, paths, embeddingLog, oe, pe).exitCode == 0
    requires var lines := Main(args, processing, paths, embeddingLog, oe, pe).lines;
      forall k :: 0 <= k < |lines| - 4 ==> Quiet(lines[k])
    requires Quiet(Shown(oe)) && Quiet(Shown(pe)) && Quiet(paths.value.0) && Quiet(paths.value.1)
    requires Shown(oe) != [] && Shown(pe) != []
    requires Lawful(codec)
    ensures var out := Stdout(Main(args, processing, paths, embeddingLog, oe, pe).lines);
      && Match(out, OriginalPathLabel) == Some(paths.value.0)
      && Match(out, ProcessedPathLabel) == Some(paths.value.1)
      && (oe.PyNone? || pe.PyNone? ==> Interpret(out, codec) == Thrown)
      && (codec.parse(Shown(oe)).Some? && codec.parse(Shown(pe)).Some?
          && !Falsy(codec.parse(Shown(oe)).value) && !Falsy(codec.parse(Shown(pe)).value)
          ==> Interpret(out, codec) == Resolved(Detection(Trim(paths.value.0), Trim(paths.value.1),
                                                          codec.parse(Shown(oe)).value, codec.parse(Shown(pe)).value)))
  {
    var lines := Main(args, processing, paths, embeddingLog, oe, pe).lines;
    var before := lines[..|lines| - 4];
    assert lines == before + Report(paths.value.0, paths.value.1, oe, pe);
    assert OriginalEmbeddingTag == OriginalEmbeddingLabel && ProcessedEmbeddingTag == ProcessedEmbeddingLabel;
    assert OriginalPathTag == OriginalPathLabel && ProcessedPathTag == ProcessedPathLabel;
    ReportIsRead(before, Shown(oe), Shown(pe), paths.value.0, paths.value.1);
    PythonNoneIsNotJson(codec);
  }

  /** The usage line and the no-face line hold no newline and no path label. */
  lemma ClosingLineLacksLabel(line: string)
    requires line in {Usage, NoFace}
    ensures '\n' !in line && Absent(line, OriginalPathLabel)
  {
    if line == Usage {
      UsageLacksO();
    } else {
      NoFaceLacksO();
    }
    LabelFacts();
    AbsentFirstChar(line, OriginalPathLabel);
  }

  /**
   * A run that exits 1 (wrong arguments, or no face) is rejected as not processed, provided
   * nothing it printed along the way carries a label.
   */
  lemma FailedRunIsRejected(args: seq<string>, processing: seq<string>, paths: Option<(string, string)>,
                            embeddingLog: seq<string>, oe: PyEmbedding, pe: PyEmbedding, codec: Codec)
    requires Main(args, processing, paths, embeddingLog, oe, pe).exitCode != 0
    requires var lines := Main(args, processing, paths, embeddingLog, oe, pe).lines;
      forall k :: 0 <= k < |lines| - 1 ==> Quiet(lines[k])
    ensures Interpret(Stdout(Main(args, processing, paths, embeddingLog, oe, pe).lines), codec) == Rejected(NotProcessed)
  {
    var lines := Main(args, processing, paths, embeddingLog, oe, pe).lines;
    ClosingLineLacksLabel(lines[|lines| - 1]);
    forall k | 0 <= k < |lines|
      ensures '\n' !in lines[k] && Absent(lines[k], OriginalPathLabel)
    {
      if k < |lines| - 1 {
        assert Quiet(lines[k]);
      }
    }
    LabelFacts();
    AbsentStdout(lines, OriginalPathLabel);
    MissingLabelRejects(Stdout(lines), codec, OriginalPathLabel);
  }

  /**
   * Where a face was found but an embedding came back as Python's `None`, the callback as
   * written throws; the intended reading refuses it with the null-embedding reason.
   */
  lemma NoneEmbeddingRun(args: seq<string>, processing: seq<string>, paths: Option<(string, string)>,
                         embeddingLog: seq<string>, pe: PyEmbedding, codec: Codec)
    requires Main(args, processing, paths, embeddingLog, PyNone, pe).exitCode == 0
    requires var lines := Main(args, processing, paths, embeddingLog, PyNone, pe).lines;
      forall k :: 0 <= k < |lines| - 4 ==> Quiet(lines[k])
    requires Quiet(Shown(pe)) && Quiet(paths.value.0) && Quiet(paths.value.1) && Shown(pe) != []
    requires Lawful(codec)
    ensures Interpret(Stdout(Main(args, processing, paths, embeddingLog, PyNone, pe).lines), codec) == Thrown
    ensures InterpretIntended(Stdout(Main(args, processing, paths, embeddingLog, PyNone, pe).lines), codec)
            == Rejected(NullEmbedding)
  {
    assert Quiet("None") by {
      AbsentFirstChar("None", OriginalEmbeddingLabel);
      AbsentFirstChar("None", ProcessedEmbeddingLabel);
      AbsentFirstChar("None", OriginalPathLabel);
      AbsentFirstChar("None", ProcessedPathLabel);
    }
    SuccessfulRunIsRead(args, processing, paths, embeddingLog, PyNone, pe, codec);
  }
}
